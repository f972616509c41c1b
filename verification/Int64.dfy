/** Go's fixed-width integers: the value ranges and the wrap-around of an operation that leaves them. */
module Int64 {

  const TWO64: int := 0x1_0000_0000_0000_0000
  const MIN64: int := -0x8000_0000_0000_0000
  const MAX64: int := 0x7FFF_FFFF_FFFF_FFFF

  type int64 = x: int | MIN64 <= x <= MAX64
  type uint64 = x: int | 0 <= x < TWO64
  type int32 = x: int | -0x8000_0000 <= x <= 0x7FFF_FFFF

  /** The int64 a Go operation yields when its exact result is `x`. */
  function Wrap64(x: int): (r: int64)
    ensures MIN64 <= x <= MAX64 ==> r == x
    ensures MAX64 < x < MAX64 + TWO64 ==> r == x - TWO64
    ensures MIN64 - TWO64 <= x < MIN64 ==> r == x + TWO64
  {
    (x - MIN64) % TWO64 + MIN64
  }

  predicate FitsInt32(x: int) {
    -0x8000_0000 <= x <= 0x7FFF_FFFF
  }

  /** The conversion int32(x). */
  function ToInt32(x: int64): (r: int32)
    ensures FitsInt32(x) ==> r == x
  {
    (x + 0x8000_0000) % 0x1_0000_0000 - 0x8000_0000
  }

  /** Wrapping inside a sum does not change what the sum wraps to. */
  lemma WrapAdd(x: int, y: int)
    ensures Wrap64(Wrap64(x) + y) == Wrap64(x + y)
  {
    var q := (x - MIN64) / TWO64;
    assert x == Wrap64(x) + q * TWO64;
    ModShift(Wrap64(x) + y - MIN64, q);
  }

  /** Wrapping before a multiplication does not change what the product wraps to. */
  lemma WrapScale(k: int, x: int)
    ensures Wrap64(k * Wrap64(x)) == Wrap64(k * x)
  {
    var q := (x - MIN64) / TWO64;
    assert x == Wrap64(x) + q * TWO64;
    assert k * x == k * Wrap64(x) + (k * q) * TWO64;
    ModShift(k * Wrap64(x) - MIN64, k * q);
  }

  lemma {:induction false} ModShift(a: int, q: int)
    ensures (a + q * TWO64) % TWO64 == a % TWO64
  {
    var d, r := a / TWO64, a % TWO64;
    assert a + q * TWO64 == (d + q) * TWO64 + r;
  }
}
