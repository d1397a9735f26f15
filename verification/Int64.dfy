/** Go's int64: two's-complement wrap-around and division that truncates towards zero. */
module Int64 {

  const TWO_63: int := 0x8000_0000_0000_0000
  const TWO_64: int := 0x1_0000_0000_0000_0000

  type int64 = x: int | -TWO_63 <= x < TWO_63

  /** The int64 congruent to x modulo 2^64. */
  function Wrap(x: int): (r: int64)
    ensures (x - r) % TWO_64 == 0
    ensures -TWO_63 <= x < TWO_63 ==> r == x
  {
    if -TWO_63 <= x < TWO_63 then x else (x + TWO_63) % TWO_64 - TWO_63
  }

  function Add(a: int64, b: int64): int64 { Wrap(a + b) }

  function Sub(a: int64, b: int64): int64 { Wrap(a - b) }

  function Mul(a: int64, b: int64): int64 { Wrap(a * b) }

  function Abs(a: int): nat { if a < 0 then -a else a }

  function Quot(a: int64, b: int64): int64
    requires b != 0
  {
    if (a >= 0) == (b > 0) then Wrap(Abs(a) / Abs(b)) else Wrap(-(Abs(a) / Abs(b)))
  }

  /** Two int64 values congruent modulo 2^64 are equal. */
  lemma WrapUnique(x: int, r: int64)
    requires (x - r) % TWO_64 == 0
    ensures Wrap(x) == r
  {
    var w := Wrap(x);
    assert (w - r) % TWO_64 == 0;
  }
}
