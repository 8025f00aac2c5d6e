/** The integers modulo p = 2^255 - 19. */
module Prime25519 {
  import opened Arith

  const P: int := 0x7fffffffffffffff_ffffffffffffffff_ffffffffffffffff_ffffffffffffffed

  const TWO255: int := 0x8000000000000000_0000000000000000_0000000000000000_0000000000000000

  function Add(x: int, y: int): int {
    (x + y) % P
  }

  function Sub(x: int, y: int): int {
    (x - y) % P
  }

  function Mul(x: int, y: int): int {
    (x * y) % P
  }

  function Sq(x: int): int {
    Mul(x, x)
  }

  /** x^e, reduced. */
  function Power(x: int, e: nat): int {
    Pow(x, e) % P
  }

  lemma Commutes(x: int, y: int)
    ensures Add(x, y) == Add(y, x) && Mul(x, y) == Mul(y, x)
  {
  }

  /** A square does not depend on the order of a difference. */
  lemma SquareOfDifference(x: int, y: int)
    ensures Sq(Sub(x, y)) == Sq(Sub(y, x))
  {
    var d := x - y;
    MulMod(d, d, P);
    MulMod(-d, -d, P);
    assert d * d == (-d) * (-d);
  }
}
