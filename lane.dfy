/** Scalar lane types u8..u64 and i8..i64 and the semantics of the scalar
    operators the vector methods apply lane by lane.  A lane value is the
    mathematical integer the Rust scalar denotes; its two's-complement bit
    pattern is Pattern(s, x). */
module Lane {
  import opened Bits

  datatype Signedness = Unsigned | Signed

  /** A Rust primitive integer type `uW` or `iW`.  The lane types of the
      vector types are 8, 16, 32 or 64 bits wide (Shapes.Shape.Elem); the
      scalar semantics below is stated, and proved, for every width of at
      least 8 bits. */
  datatype Scalar = Scalar(sign: Signedness, width: nat)
  {
    predicate Valid() {
      width >= 8
    }
  }

  function Min(s: Scalar): int
    requires s.Valid()
  {
    if s.sign == Signed then -(Pow2(s.width - 1) as int) else 0
  }

  function Max(s: Scalar): int
    requires s.Valid()
  {
    if s.sign == Signed then Pow2(s.width - 1) - 1 else Pow2(s.width) - 1
  }

  predicate InRange(s: Scalar, x: int)
    requires s.Valid()
  {
    Min(s) <= x <= Max(s)
  }

  lemma HalfPow2(s: Scalar)
    requires s.Valid()
    ensures Pow2(s.width) == 2 * Pow2(s.width - 1)
  {
  }

  /** The bounds of a signed value, with the modulus written as twice the
      half-range. */
  lemma SignedBounds(s: Scalar, x: int)
    requires s.Valid() && s.sign == Signed && InRange(s, x)
    ensures -(Pow2(s.width - 1) as int) <= x < Pow2(s.width - 1) && Pow2(s.width) == 2 * Pow2(s.width - 1)
  {
  }

  // ---------------------------------------------------------------------
  // Euclidean division facts for a symbolic modulus

  lemma MulAtLeast(a: int, m: int)
    requires a >= 1 && m > 0
    ensures a * m >= m
  {
  }

  lemma MulMonotone(a: int, b: int, c: int)
    requires 0 <= a && b <= c
    ensures a * b <= a * c
  {
  }

  lemma Distrib(a: int, b: int, m: int)
    ensures (a - b) * m == a * m - b * m
    ensures (a + b) * m == a * m + b * m
  {
  }

  /** Quotient and remainder are the only pair with x == q * m + r and 0 <= r < m. */
  lemma ModUnique(x: int, m: int, q: int, r: int)
    requires m > 0 && 0 <= r < m && x == q * m + r
    ensures x / m == q && x % m == r
  {
    var q0, r0 := x / m, x % m;
    assert x == q0 * m + r0;
    Distrib(q0, q, m);
    if q0 > q {
      MulAtLeast(q0 - q, m);
    } else if q0 < q {
      MulAtLeast(q - q0, m);
      Distrib(q, q0, m);
    }
  }

  lemma DivBounds(x: int, m: int)
    requires m > 0
    ensures (x / m) * m <= x < (x / m + 1) * m
  {
    Distrib(x / m, 1, m);
  }

  lemma ModAddMultiple(x: int, k: int, m: int)
    requires m > 0
    ensures (x + k * m) % m == x % m
    ensures (x + k * m) / m == x / m + k
  {
    ModUnique(x + k * m, m, x / m + k, x % m);
  }

  /** The remainder of k*m - 1 - x is the complement of that of x. */
  lemma ComplementMod(x: int, y: int, k: int, m: int)
    requires m > 0 && y == k * m - 1 - x
    ensures y % m == m - 1 - x % m
  {
    var q, r := x / m, x % m;
    assert x == q * m + r;
    Distrib(k, q + 1, m);
    Distrib(q, 1, m);
    ModUnique(y, m, k - q - 1, m - 1 - r);
  }

  /** The two's-complement pattern of a value in [-h, h) modulo 2h. */
  lemma TwosComplementMod(x: int, m: int, h: int)
    requires m == 2 * h && -h <= x < h
    ensures x % m == if x < 0 then x + m else x
  {
    if x < 0 {
      ModUnique(x, m, -1, x + m);
    } else {
      ModUnique(x, m, 0, x);
    }
  }

  /** Adding the same number keeps two numbers congruent. */
  lemma ModAddCongruent(w: int, x: int, y: int, m: int)
    requires m > 0 && w % m == x % m
    ensures (w + y) % m == (x + y) % m
  {
    ModOfMod(w, y, m);
    ModOfMod(x, y, m);
  }

  lemma ModOfMod(x: int, y: int, m: int)
    requires m > 0
    ensures (x % m + y) % m == (x + y) % m
  {
    ModAddMultiple(x % m + y, x / m, m);
  }

  // ---------------------------------------------------------------------
  // Bit patterns

  /** The two's-complement bit pattern of x at the width of s. */
  function Pattern(s: Scalar, x: int): (p: nat)
    requires s.Valid()
    ensures p < Pow2(s.width)
  {
    x % Pow2(s.width)
  }

  /** The value of s whose bit pattern is p. */
  function FromPattern(s: Scalar, p: nat): (x: int)
    requires s.Valid() && p < Pow2(s.width)
    ensures InRange(s, x)
    ensures Pattern(s, x) == p
  {
    HalfPow2(s);
    if s.sign == Signed && p >= Pow2(s.width - 1) then
      ModUnique(p - Pow2(s.width), Pow2(s.width), -1, p);
      p - Pow2(s.width)
    else
      ModUnique(p, Pow2(s.width), 0, p);
      p
  }

  lemma PatternInjective(s: Scalar, x: int)
    requires s.Valid() && InRange(s, x)
    ensures FromPattern(s, Pattern(s, x)) == x
  {
    HalfPow2(s);
    if x < 0 {
      ModUnique(x, Pow2(s.width), -1, x + Pow2(s.width));
    } else {
      ModUnique(x, Pow2(s.width), 0, x);
    }
  }

  lemma PatternOfNegative(s: Scalar, x: int)
    requires s.Valid() && InRange(s, x) && x < 0
    ensures Pattern(s, x) == x + Pow2(s.width)
  {
    HalfPow2(s);
    ModUnique(x, Pow2(s.width), -1, x + Pow2(s.width));
  }

  /** Rust's `x as T` from any integer type, and the wrap-around of
      `+`, `-`, `*` in release builds: the value of s that agrees with x
      modulo 2^width. */
  function Wrap(s: Scalar, x: int): (r: int)
    requires s.Valid()
    ensures InRange(s, r)
    ensures Pattern(s, r) == Pattern(s, x)
    ensures InRange(s, x) ==> r == x
  {
    if InRange(s, x) then PatternInjective(s, x); FromPattern(s, Pattern(s, x))
    else FromPattern(s, Pattern(s, x))
  }

  /** Two integers that agree modulo 2^width wrap to the same value. */
  lemma WrapCongruent(s: Scalar, x: int, y: int)
    requires s.Valid() && Pattern(s, x) == Pattern(s, y)
    ensures Wrap(s, x) == Wrap(s, y)
  {
  }

  /** Wrapping before an addition changes nothing. */
  lemma WrapAdd(s: Scalar, x: int, y: int)
    requires s.Valid()
    ensures Wrap(s, Wrap(s, x) + y) == Wrap(s, x + y)
  {
    var m, w := Pow2(s.width), Wrap(s, x);
    assert w % m == x % m;
    ModAddCongruent(w, x, y, m);
    assert Pattern(s, w + y) == Pattern(s, x + y);
    WrapCongruent(s, w + y, x + y);
  }

  // ---------------------------------------------------------------------
  // Division

  function Abs(x: int): nat { if x < 0 then -x else x }

  /** Integer `/`: the quotient rounded toward zero. */
  function TruncDiv(x: int, y: int): (q: int)
    requires y != 0
    ensures Abs(q) * Abs(y) <= Abs(x) < (Abs(q) + 1) * Abs(y)
    ensures q == 0 || ((q < 0) <==> ((x < 0) != (y < 0)))
  {
    var a := Abs(x) / Abs(y);
    DivBounds(Abs(x), Abs(y));
    if (x < 0) != (y < 0) then -a else a
  }

  /** A division that does not panic (divisor nonzero, and not MIN / -1 on
      a signed type) has a representable quotient. */
  lemma TruncDivInRange(s: Scalar, x: int, y: int)
    requires s.Valid() && InRange(s, x) && InRange(s, y) && y != 0
    requires !(s.sign == Signed && x == Min(s) && y == -1)
    ensures InRange(s, TruncDiv(x, y))
  {
    var q := TruncDiv(x, y);
    MulMonotone(Abs(q), 1, Abs(y));
    assert Abs(q) <= Abs(x);
    if s.sign == Signed && Abs(y) >= 2 {
      MulMonotone(Abs(q), 2, Abs(y));
      HalfPow2(s);
      assert Pow2(s.width - 1) == 2 * Pow2(s.width - 2);
    }
  }

  // ---------------------------------------------------------------------
  // Bitwise operators on values

  /** Bit j of the two's-complement pattern of x. */
  function BitOf(s: Scalar, x: int, j: nat): (b: nat)
    requires s.Valid()
    ensures b <= 1
  {
    Bit(Pattern(s, x), j)
  }

  /** Two values of s with the same bits are equal. */
  lemma EqualByBits(s: Scalar, x: int, y: int)
    requires s.Valid() && InRange(s, x) && InRange(s, y)
    requires forall j :: 0 <= j < s.width ==> BitOf(s, x, j) == BitOf(s, y, j)
    ensures x == y
  {
    forall j | 0 <= j < s.width
      ensures Bit(Pattern(s, x), j) == Bit(Pattern(s, y), j)
    {
      assert BitOf(s, x, j) == BitOf(s, y, j);
    }
    BitsEqual(Pattern(s, x), Pattern(s, y), s.width);
    PatternInjective(s, x);
    PatternInjective(s, y);
  }

  /** `x & y`. */
  function BitAnd(s: Scalar, x: int, y: int): (r: int)
    requires s.Valid()
    ensures InRange(s, r)
    ensures forall j :: 0 <= j < s.width ==> BitOf(s, r, j) == BitOf(s, x, j) * BitOf(s, y, j)
  {
    FromPattern(s, And(Pattern(s, x), Pattern(s, y), s.width))
  }

  /** `x | y`. */
  function BitOr(s: Scalar, x: int, y: int): (r: int)
    requires s.Valid()
    ensures InRange(s, r)
    ensures forall j :: 0 <= j < s.width ==>
      BitOf(s, r, j) == BitOf(s, x, j) + BitOf(s, y, j) - BitOf(s, x, j) * BitOf(s, y, j)
  {
    FromPattern(s, Or(Pattern(s, x), Pattern(s, y), s.width))
  }

  /** `x ^ y`. */
  function BitXor(s: Scalar, x: int, y: int): (r: int)
    requires s.Valid()
    ensures InRange(s, r)
    ensures forall j :: 0 <= j < s.width ==> BitOf(s, r, j) == (BitOf(s, x, j) + BitOf(s, y, j)) % 2
  {
    FromPattern(s, Xor(Pattern(s, x), Pattern(s, y), s.width))
  }

  /** `!x` on an integer: the complement of every bit, which is
      -x - 1 on a signed type and MAX - x on an unsigned one. */
  function BitNot(s: Scalar, x: int): (r: int)
    requires s.Valid() && InRange(s, x)
    ensures InRange(s, r)
    ensures r == if s.sign == Signed then -x - 1 else Max(s) - x
  {
    ComplementValue(s, x);
    FromPattern(s, Not(Pattern(s, x), s.width))
  }

  lemma ComplementValue(s: Scalar, x: int)
    requires s.Valid() && InRange(s, x)
    ensures FromPattern(s, Not(Pattern(s, x), s.width)) == if s.sign == Signed then -x - 1 else Max(s) - x
  {
    var y := if s.sign == Signed then -x - 1 else Max(s) - x;
    NotValue(Pattern(s, x), s.width);
    if s.sign == Signed {
      ComplementMod(x, y, 0, Pow2(s.width));
    } else {
      ComplementMod(x, y, 1, Pow2(s.width));
    }
    assert Pattern(s, y) == Not(Pattern(s, x), s.width);
    assert InRange(s, y);
    PatternInjective(s, y);
  }

  /** `(m & t) | (!m & e)`: each bit of the result is taken from t where
      m has a one and from e where m has a zero. */
  function BitBlend(s: Scalar, m: int, t: int, e: int): (r: int)
    requires s.Valid()
    ensures InRange(s, r)
    ensures forall j :: 0 <= j < s.width ==>
      BitOf(s, r, j) == if BitOf(s, m, j) == 1 then BitOf(s, t, j) else BitOf(s, e, j)
  {
    FromPattern(s, Blend(Pattern(s, m), Pattern(s, t), Pattern(s, e), s.width))
  }

  /** `x & x == x`. */
  lemma BitAndSelf(s: Scalar, x: int)
    requires s.Valid() && InRange(s, x)
    ensures BitAnd(s, x, x) == x
  {
    var r := BitAnd(s, x, x);
    forall j | 0 <= j < s.width
      ensures BitOf(s, r, j) == BitOf(s, x, j)
    {
      assert BitOf(s, r, j) == BitOf(s, x, j) * BitOf(s, x, j);
    }
    EqualByBits(s, r, x);
  }

  /** `x | x == x`. */
  lemma BitOrSelf(s: Scalar, x: int)
    requires s.Valid() && InRange(s, x)
    ensures BitOr(s, x, x) == x
  {
    var r := BitOr(s, x, x);
    forall j | 0 <= j < s.width
      ensures BitOf(s, r, j) == BitOf(s, x, j)
    {
      assert BitOf(s, r, j) == BitOf(s, x, j) + BitOf(s, x, j) - BitOf(s, x, j) * BitOf(s, x, j);
    }
    EqualByBits(s, r, x);
  }

  /** `(x ^ y) ^ y == x`. */
  lemma BitXorTwice(s: Scalar, x: int, y: int)
    requires s.Valid() && InRange(s, x)
    ensures BitXor(s, BitXor(s, x, y), y) == x
  {
    var w := BitXor(s, x, y);
    var r := BitXor(s, w, y);
    forall j | 0 <= j < s.width
      ensures BitOf(s, r, j) == BitOf(s, x, j)
    {
      assert BitOf(s, r, j) == (BitOf(s, w, j) + BitOf(s, y, j)) % 2;
      assert BitOf(s, w, j) == (BitOf(s, x, j) + BitOf(s, y, j)) % 2;
    }
    EqualByBits(s, r, x);
  }

  /** Blending a value with itself gives that value, whatever the mask. */
  lemma BitBlendSame(s: Scalar, m: int, x: int)
    requires s.Valid() && InRange(s, x)
    ensures BitBlend(s, m, x, x) == x
  {
    var r := BitBlend(s, m, x, x);
    forall j | 0 <= j < s.width
      ensures BitOf(s, r, j) == BitOf(s, x, j)
    {
      assert BitOf(s, r, j) == if BitOf(s, m, j) == 1 then BitOf(s, x, j) else BitOf(s, x, j);
    }
    EqualByBits(s, r, x);
  }

  // ---------------------------------------------------------------------
  // Shifts

  /** The shift amount `sz as T` of a shift by sz.  A debug build panics
      unless it lies in [0, width); a release build masks it instead. */
  function ShiftAmount(s: Scalar, sz: nat): (k: int)
    requires s.Valid()
    ensures InRange(s, k)
  {
    Wrap(s, sz)
  }

  /** The cast `sz as T` only sees sz modulo 2^W, so on lanes narrower
      than `usize` an amount of 2^W or more is reduced instead of
      panicking: `u8x32 << 257` is `u8x32 << 1`. */
  lemma ShiftAmountPeriodic(s: Scalar, sz: nat)
    requires s.Valid()
    ensures ShiftAmount(s, sz + Pow2(s.width)) == ShiftAmount(s, sz)
  {
    ModAddMultiple(sz, 1, Pow2(s.width));
    WrapCongruent(s, sz + Pow2(s.width), sz);
  }

  predicate ShiftOk(s: Scalar, sz: nat)
    requires s.Valid()
  {
    0 <= ShiftAmount(s, sz) < s.width
  }

  /** `x << k`: the bits move k places up and those above the width are lost. */
  function Shl(s: Scalar, x: int, k: nat): (r: int)
    requires s.Valid() && k < s.width
    ensures InRange(s, r)
    ensures Pattern(s, r) == Pattern(s, x * Pow2(k))
    ensures InRange(s, x * Pow2(k)) ==> r == x * Pow2(k)
  {
    Wrap(s, x * Pow2(k))
  }

  /** The sign-fill of an arithmetic right shift by k: ones in the top k
      bits when the sign bit of p is set. */
  function SignFill(s: Scalar, p: nat, k: nat): (f: nat)
    requires s.Valid() && k < s.width
  {
    Pow2Monotone(s.width - k, s.width);
    if s.sign == Signed && p >= Pow2(s.width - 1) then Pow2(s.width) - Pow2(s.width - k) else 0
  }

  lemma ShiftedFits(s: Scalar, p: nat, k: nat)
    requires s.Valid() && k < s.width && p < Pow2(s.width)
    ensures 0 <= p / Pow2(k)
    ensures p / Pow2(k) + SignFill(s, p, k) < Pow2(s.width)
  {
    SignFillBound(s, p, k);
    ShiftedBelow(s.width, k, p);
  }

  lemma SignFillBound(s: Scalar, p: nat, k: nat)
    requires s.Valid() && k < s.width
    ensures SignFill(s, p, k) + Pow2(s.width - k) <= Pow2(s.width)
  {
    Pow2Monotone(s.width - k, s.width);
  }

  /** A pattern of width w shifted right by k fits in w - k bits. */
  lemma ShiftedBelow(w: nat, k: nat, p: nat)
    requires k <= w && p < Pow2(w)
    ensures 0 <= p / Pow2(k) < Pow2(w - k)
  {
    Pow2Split(w, k);
    DivBelow(p, Pow2(k), Pow2(w - k));
  }

  /** `x >> k` on the bit pattern: a logical shift (zeros enter from the
      top) on an unsigned type, an arithmetic one (copies of the sign bit
      enter from the top) on a signed type. */
  function Shr(s: Scalar, x: int, k: nat): (r: int)
    requires s.Valid() && k < s.width
    ensures InRange(s, r)
  {
    FromPattern(s, ShiftedPattern(s, Pattern(s, x), k))
  }

  /** The pattern p shifted right by k, with the sign-fill above it. */
  function ShiftedPattern(s: Scalar, p: nat, k: nat): (q: nat)
    requires s.Valid() && k < s.width && p < Pow2(s.width)
    ensures q < Pow2(s.width)
    ensures q == p / Pow2(k) + SignFill(s, p, k)
  {
    ShiftedFits(s, p, k);
    p / Pow2(k) + SignFill(s, p, k)
  }

  /** Both kinds of right shift are floor division by 2^k, rounding toward
      negative infinity. */
  lemma ShrIsFloorDiv(s: Scalar, x: int, k: nat)
    requires s.Valid() && InRange(s, x) && k < s.width
    ensures Shr(s, x, k) == x / Pow2(k)
  {
    if x < 0 {
      ShrNegative(s, x, k);
    } else {
      ShrNonnegative(s, x, k);
    }
  }

  lemma ShrNegative(s: Scalar, x: int, k: nat)
    requires s.Valid() && InRange(s, x) && k < s.width && x < 0
    ensures Shr(s, x, k) == x / Pow2(k)
  {
    SignFillNegative(s, x, k);
    NegativeShiftBy(s, x, k);
    PatternOfQuotient(s, x / Pow2(k));
  }

  /** The pattern of a negative x has its sign bit set, so the sign-fill
      is 2^w - 2^(w-k). */
  lemma SignFillNegative(s: Scalar, x: int, k: nat)
    requires s.Valid() && InRange(s, x) && k < s.width && x < 0
    ensures SignFill(s, Pattern(s, x), k) == Pow2(s.width) - Pow2(s.width - k)
  {
    HalfPow2(s);
    PatternOfNegative(s, x);
  }

  lemma NegativeShiftBy(s: Scalar, x: int, k: nat)
    requires s.Valid() && InRange(s, x) && k < s.width && x < 0
    ensures Pattern(s, x) / Pow2(k) + (Pow2(s.width) - Pow2(s.width - k)) == x / Pow2(k) + Pow2(s.width)
    ensures InRange(s, x / Pow2(k)) && x / Pow2(k) < 0
  {
    HalfPow2(s);
    Pow2Split(s.width, k);
    PatternOfNegative(s, x);
    NegativeShift(x, Pow2(k), Pow2(s.width - k), Pow2(s.width), Pow2(s.width - 1));
  }

  lemma PatternOfQuotient(s: Scalar, v: int)
    requires s.Valid() && InRange(s, v) && v < 0
    ensures FromPattern(s, v + Pow2(s.width)) == v
  {
    PatternOfNegative(s, v);
    PatternInjective(s, v);
  }

  /** Arithmetic core of the negative case: the pattern of x < 0 is x + 2^w. */
  lemma NegativeShift(x: int, m: int, n: int, big: int, h: int)
    requires m >= 1 && n >= 1 && big == m * n && big == 2 * h && -h <= x < 0
    ensures (x + big) / m + (big - n) == x / m + big
    ensures -h <= x / m < 0
  {
    ModAddMultiple(x, n, m);
    NegativeDiv(x, m, h);
  }

  lemma ShrNonnegative(s: Scalar, x: int, k: nat)
    requires s.Valid() && InRange(s, x) && k < s.width && 0 <= x
    ensures Shr(s, x, k) == x / Pow2(k)
  {
    var m := Pow2(k);
    var v := x / m;
    HalfPow2(s);
    ModUnique(x, Pow2(s.width), 0, x);
    NonnegativeDiv(x, m);
    ModUnique(v, Pow2(s.width), 0, v);
    PatternInjective(s, v);
  }

  lemma DivBelow(p: int, m: int, n: int)
    requires m >= 1 && n >= 1 && 0 <= p < m * n
    ensures 0 <= p / m < n
  {
    DivBounds(p, m);
    if p / m >= n {
      MulMonotone(m, n, p / m);
    }
    if p / m < 0 {
      MulMonotone(m, p / m + 1, 0);
    }
  }

  lemma NegativeDiv(x: int, m: int, h: int)
    requires m >= 1 && h >= 1 && -h <= x < 0
    ensures -h <= x / m < 0
  {
    DivBounds(x, m);
    if x / m + 1 <= -h {
      MulMonotone(m, x / m + 1, -h);
      MulMonotone(h, 1, m);
    }
  }

  lemma NonnegativeDiv(x: int, m: int)
    requires m >= 1 && 0 <= x
    ensures 0 <= x / m <= x
  {
    DivBounds(x, m);
    if x / m < 0 {
      MulMonotone(m, x / m + 1, 0);
    }
    MulMonotone(x / m, 1, m);
  }
}
