/** Java's 32-bit `int` and the two's-complement wrap-around of its `+` and `-`. */
module JavaInt {

  const MinInt32: int := -0x8000_0000
  const MaxInt32: int := 0x7fff_ffff

  newtype int32 = x: int | -0x8000_0000 <= x < 0x8000_0000

  /** Reduces a mathematical integer to the 32-bit value Java's arithmetic yields. */
  function Wrap(x: int): (r: int32)
    ensures MinInt32 <= x <= MaxInt32 ==> r as int == x
    ensures (r as int - x) % 0x1_0000_0000 == 0
  {
    (((x + 0x8000_0000) % 0x1_0000_0000) - 0x8000_0000) as int32
  }

  /** Java's `a + b` on `int`. */
  function Add(a: int32, b: int32): (r: int32)
    ensures MinInt32 <= a as int + b as int <= MaxInt32 ==> r as int == a as int + b as int
    ensures a as int + b as int > MaxInt32 ==> r as int == a as int + b as int - 0x1_0000_0000
    ensures a as int + b as int < MinInt32 ==> r as int == a as int + b as int + 0x1_0000_0000
  {
    Wrap(a as int + b as int)
  }

  /** Java's `a - b` on `int`. */
  function Sub(a: int32, b: int32): (r: int32)
    ensures MinInt32 <= a as int - b as int <= MaxInt32 ==> r as int == a as int - b as int
    ensures a as int - b as int < MinInt32 ==> r as int == a as int - b as int + 0x1_0000_0000
    ensures a as int - b as int > MaxInt32 ==> r as int == a as int - b as int - 0x1_0000_0000
  {
    Wrap(a as int - b as int)
  }

  /** `Math.max` on `int`. */
  function Max(a: int32, b: int32): (r: int32)
    ensures a <= r && b <= r && (r == a || r == b)
  {
    if a < b then b else a
  }

  /** `Math.min` on `int`. */
  function Min(a: int32, b: int32): (r: int32)
    ensures r <= a && r <= b && (r == a || r == b)
  {
    if a < b then a else b
  }
}
