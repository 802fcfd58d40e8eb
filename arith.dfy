/** Facts about Euclidean division shared by the ring and block computations,
    and Java's 32-bit `int` wrap-around. */
module ModArith {
  import opened Wrappers

  /** 2^32, the modulus of Java `int` arithmetic. */
  const TWO_32: int := 0x1_0000_0000
  /** Division with remainder is unique: a == q * n + r with 0 <= r < n fixes a % n. */
  lemma ModUnique(a: int, q: int, r: int, n: int)
    requires n > 0 && 0 <= r < n && a == q * n + r
    ensures a % n == r
  {
    var q', r' := a / n, a % n;
    assert (q - q') * n == r' - r;
    if q - q' >= 1 {
      MulAtLeast(q - q', n);
    } else if q' - q >= 1 {
      MulAtLeast(q' - q, n);
    }
  }

  lemma MulAtLeast(q: int, n: int)
    requires q >= 1 && n > 0
    ensures q * n >= n
  {}

  /** Java's 32-bit `int` arithmetic: x reduced into [INT_MIN, INT_MAX]. */
  function Wrap(x: int): (w: int)
    ensures INT_MIN <= w <= INT_MAX
    ensures (x - w) % TWO_32 == 0
    ensures INT_MIN <= x <= INT_MAX ==> w == x
  {
    (x - INT_MIN) % TWO_32 + INT_MIN
  }

  /** Numbers that differ by a multiple of 2^32 wrap to the same `int`. */
  lemma WrapShift(x: int, d: int)
    ensures Wrap(x + d * TWO_32) == Wrap(x)
  {
    var r := (x - INT_MIN) % TWO_32;
    var q := (x - INT_MIN) / TWO_32;
    assert x + d * TWO_32 - INT_MIN == (q + d) * TWO_32 + r;
    ModUnique(x + d * TWO_32 - INT_MIN, q + d, r, TWO_32);
  }

  /** Wrapping the operands of an addition does not change the wrapped sum. */
  lemma WrapAdd(a: int, b: int)
    ensures Wrap(Wrap(a) + Wrap(b)) == Wrap(a + b)
  {
    var da := (a - Wrap(a)) / TWO_32;
    var db := (b - Wrap(b)) / TWO_32;
    assert a == Wrap(a) + da * TWO_32 && b == Wrap(b) + db * TWO_32;
    assert a + b == Wrap(a) + Wrap(b) + (da + db) * TWO_32;
    WrapShift(Wrap(a) + Wrap(b), da + db);
  }
}
