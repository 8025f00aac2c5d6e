/** The addition formulas of twisted Edwards curves with a = -1, over any prime field. */
module EdwardsFormulas {
  import opened PrimeField

  /** Extended coordinates: x = X/Z, y = Y/Z, and T/Z = x y. */
  datatype Coords = Coords(x: int, y: int, z: int, t: int)

  const IDENTITY: Coords := Coords(0, 1, 1, 0)

  /** Point addition as section 5.1.4 of RFC 8032 gives it, up to the order of factors. */
  ghost function Sum(F: Field, p: Coords, q: Coords): Coords {
    var a := FMul(F, FSub(F, p.y, p.x), FSub(F, q.y, q.x));
    var b := FMul(F, FAdd(F, p.y, p.x), FAdd(F, q.y, q.x));
    var c := FMul(F, FMul(F, p.t, q.t), (2 * F.d) % F.p);
    var d := FAdd(F, FMul(F, p.z, q.z), FMul(F, p.z, q.z));
    var e, f, g, h := FSub(F, b, a), FSub(F, d, c), FAdd(F, d, c), FAdd(F, b, a);
    Coords(FMul(F, e, f), FMul(F, g, h), FMul(F, f, g), FMul(F, e, h))
  }

  /** The formulas as an operation. */
  ghost function Adder(F: Field): (Coords, Coords) -> Coords {
    (p, q) => Sum(F, p, q)
  }
}
