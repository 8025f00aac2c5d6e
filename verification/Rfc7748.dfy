/** X25519 as the pseudocode in section 5 of RFC 7748 gives it. */
module Rfc7748 {
  import opened Arith
  import opened Bytes
  import opened Prime25519

  const A24: int := 121665

  datatype State = State(x2: int, z2: int, x3: int, z3: int, swap: int)

  function Clamp(k: seq<u8>): (c: seq<u8>)
    requires |k| == 32
    ensures |c| == 32
  {
    k[0 := k[0] - k[0] % 8][31 := k[31] % 64 + 64]
  }

  /** decodeScalar25519: clears the three lowest bits and the top bit, sets bit 254. */
  function DecodeScalar(k: seq<u8>): nat
    requires |k| == 32
  {
    LittleEndian(Clamp(k))
  }

  /** decodeUCoordinate: ignores the top bit; the result need not be reduced. */
  function DecodeU(u: seq<u8>): nat
    requires |u| == 32
  {
    LittleEndian(u) % TWO255
  }

  function Bit(k: nat, t: nat): (b: int)
    ensures 0 <= b <= 1
  {
    PowPositive(2, t);
    k / Pow(2, t) % 2
  }

  /** cswap on both coordinates. */
  function Cswap(swap: int, s: State): State {
    if swap == 1 then State(s.x3, s.z3, s.x2, s.z2, s.swap) else s
  }

  /** The body of the loop after the conditional swap: one differential addition and doubling. */
  function Formulas(x1: int, s: State): State {
    var a := Add(s.x2, s.z2);
    var aa := Sq(a);
    var b := Sub(s.x2, s.z2);
    var bb := Sq(b);
    var e := Sub(aa, bb);
    var c := Add(s.x3, s.z3);
    var d := Sub(s.x3, s.z3);
    var da := Mul(d, a);
    var cb := Mul(c, b);
    s.(x3 := Sq(Add(da, cb)),
       z3 := Mul(x1, Sq(Sub(da, cb))),
       x2 := Mul(aa, bb),
       z2 := Mul(e, Add(aa, Mul(A24, e))))
  }

  function Step(x1: int, kt: int, s: State): State {
    Formulas(x1, Cswap((s.swap + kt) % 2, s)).(swap := kt)
  }

  /** The state after the loop has handled bits 254 down to t of the scalar. */
  function Ladder(k: nat, x1: int, t: nat): (s: State)
    requires t <= 255
    ensures 0 <= s.swap <= 1
    decreases 255 - t
  {
    if t == 255 then State(1, 0, x1, 1, 0) else Step(x1, Bit(k, t), Ladder(k, x1, t + 1))
  }

  function X25519Number(k: nat, u: int): int {
    var s := Ladder(k, u % P, 0);
    var r := Cswap(s.swap, s);
    Mul(r.x2, Power(r.z2, P - 2))
  }

  function X25519(k: seq<u8>, u: seq<u8>): seq<u8>
    requires |k| == |u| == 32
  {
    ToLittleEndian(X25519Number(DecodeScalar(k), DecodeU(u)), 32)
  }
}
