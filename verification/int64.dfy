/**
 Java `long` arithmetic: values are 64-bit two's complement, and `+` and `-`
 wrap around instead of overflowing.
 */
module Int64 {

  const Modulus: int := 0x1_0000_0000_0000_0000
  const MinLong: int := -0x8000_0000_0000_0000
  const MaxLong: int := 0x7FFF_FFFF_FFFF_FFFF

  /** A value a Java `long` can hold. */
  type Long = x: int | MinLong <= x <= MaxLong

  /**
   Java's `a - b` on two `long` values: the exact difference when it fits,
   otherwise the difference moved by 2^64 back into range.
   */
  function Sub(a: Long, b: Long): (r: Long)
    ensures MinLong <= a - b <= MaxLong ==> r == a - b
    ensures r == a - b || r == a - b - Modulus || r == a - b + Modulus
  {
    var d := a - b;
    if d > MaxLong then d - Modulus else if d < MinLong then d + Modulus else d
  }

  /** Java's `a + b` on two `long` values. */
  function Add(a: Long, b: Long): (r: Long)
    ensures MinLong <= a + b <= MaxLong ==> r == a + b
    ensures r == a + b || r == a + b - Modulus || r == a + b + Modulus
  {
    var s := a + b;
    if s > MaxLong then s - Modulus else if s < MinLong then s + Modulus else s
  }

  /** Subtracting the same value keeps two readings apart: `a - s` and `b - s` agree exactly when `a` and `b` do. */
  lemma SubInjective(a: Long, b: Long, s: Long)
    ensures Sub(a, s) == Sub(b, s) <==> a == b
  {
  }

  /** Differences chain: the way from `c` to `a` and on from `a` to `b` is the way from `c` to `b`. */
  lemma AddSub(a: Long, b: Long, c: Long)
    ensures Add(Sub(a, c), Sub(b, a)) == Sub(b, c)
  {
  }
}
