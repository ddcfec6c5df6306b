/** Two's-complement bit patterns of a fixed width, bit by bit.
    A pattern of width n is a natural number below Pow2(n); bit i is
    the i-th binary digit, counted from the least significant one. */
module Bits {

  function Pow2(n: nat): (r: nat)
    ensures r >= 1
  {
    if n == 0 then 1 else 2 * Pow2(n - 1)
  }

  lemma {:induction false} Pow2Add(a: nat, b: nat)
    ensures Pow2(a + b) == Pow2(a) * Pow2(b)
  {
    if a > 0 {
      Pow2Add(a - 1, b);
      assert Pow2(a + b) == 2 * Pow2(a - 1 + b);
    }
  }

  lemma Pow2Split(w: nat, k: nat)
    requires k <= w
    ensures Pow2(w) == Pow2(k) * Pow2(w - k)
  {
    Pow2Add(k, w - k);
  }

  lemma {:induction false} Pow2Monotone(a: nat, b: nat)
    requires a <= b
    ensures Pow2(a) <= Pow2(b)
  {
    if a < b {
      Pow2Monotone(a, b - 1);
    }
  }

  /** Bit i of p. */
  function Bit(p: nat, i: nat): (b: nat)
    ensures b <= 1
  {
    if i == 0 then p % 2 else Bit(p / 2, i - 1)
  }

  lemma Halve(a: nat, b: nat)
    requires b <= 1
    ensures (2 * a + b) / 2 == a && (2 * a + b) % 2 == b
  {
  }

  /** The bits of 2 * low + b: b, then the bits of low one place up. */
  lemma BitsOfDouble(r: nat, low: nat, b: nat, n: nat)
    requires b <= 1 && r == 2 * low + b
    ensures Bit(r, 0) == b
    ensures forall i :: 0 < i < n ==> Bit(r, i) == Bit(low, i - 1)
  {
    Halve(low, b);
  }

  /** Every bit at or above position n of a pattern below Pow2(n) is zero. */
  lemma {:induction false} HighBitsZero(p: nat, n: nat, i: nat)
    requires p < Pow2(n) && n <= i
    ensures Bit(p, i) == 0
  {
    if i > 0 {
      if n == 0 {
        assert p == 0;
        HighBitsZero(0, 0, i - 1);
      } else {
        HighBitsZero(p / 2, n - 1, i - 1);
      }
    }
  }

  /** Two patterns of width n that agree on every bit below n are equal. */
  lemma {:induction false} BitsEqual(p: nat, q: nat, n: nat)
    requires p < Pow2(n) && q < Pow2(n)
    requires forall i :: 0 <= i < n ==> Bit(p, i) == Bit(q, i)
    ensures p == q
  {
    if n > 0 {
      forall i | 0 <= i < n - 1
        ensures Bit(p / 2, i) == Bit(q / 2, i)
      {
        assert Bit(p, i + 1) == Bit(q, i + 1);
      }
      BitsEqual(p / 2, q / 2, n - 1);
      assert Bit(p, 0) == Bit(q, 0);
    }
  }

  /** Bitwise AND of the low n bits of p and q. */
  function And(p: nat, q: nat, n: nat): (r: nat)
    ensures r < Pow2(n)
    ensures forall i :: 0 <= i < n ==> Bit(r, i) == Bit(p, i) * Bit(q, i)
  {
    if n == 0 then 0
    else
      var low := And(p / 2, q / 2, n - 1);
      var b := (p % 2) * (q % 2);
      var r := 2 * low + b;
      BitsOfDouble(r, low, b, n);
      r
  }

  /** Bitwise OR of the low n bits of p and q. */
  function Or(p: nat, q: nat, n: nat): (r: nat)
    ensures r < Pow2(n)
    ensures forall i :: 0 <= i < n ==> Bit(r, i) == Bit(p, i) + Bit(q, i) - Bit(p, i) * Bit(q, i)
  {
    if n == 0 then 0
    else
      var low := Or(p / 2, q / 2, n - 1);
      var b := (if p % 2 == 1 || q % 2 == 1 then 1 else 0);
      var r := 2 * low + b;
      BitsOfDouble(r, low, b, n);
      r
  }

  /** Bitwise exclusive OR of the low n bits of p and q. */
  function Xor(p: nat, q: nat, n: nat): (r: nat)
    ensures r < Pow2(n)
    ensures forall i :: 0 <= i < n ==> Bit(r, i) == (Bit(p, i) + Bit(q, i)) % 2
  {
    if n == 0 then 0
    else
      var low := Xor(p / 2, q / 2, n - 1);
      var b := (p % 2 + q % 2) % 2;
      var r := 2 * low + b;
      BitsOfDouble(r, low, b, n);
      r
  }

  /** Bitwise complement of the low n bits of p. */
  function Not(p: nat, n: nat): (r: nat)
    ensures r < Pow2(n)
    ensures forall i :: 0 <= i < n ==> Bit(r, i) == 1 - Bit(p, i)
  {
    if n == 0 then 0
    else
      var low := Not(p / 2, n - 1);
      var b := 1 - p % 2;
      var r := 2 * low + b;
      BitsOfDouble(r, low, b, n);
      r
  }

  /** The complement of a width-n pattern is Pow2(n) - 1 minus it. */
  lemma {:induction false} NotValue(p: nat, n: nat)
    requires p < Pow2(n)
    ensures Not(p, n) == Pow2(n) - 1 - p
  {
    if n > 0 {
      NotValue(p / 2, n - 1);
    }
  }

  /** The all-ones pattern of width n. */
  lemma {:induction false} AllOnesBits(n: nat, i: nat)
    requires i < n
    ensures Bit(Pow2(n) - 1, i) == 1
  {
    Halve(Pow2(n - 1) - 1, 1);
    if i > 0 {
      AllOnesBits(n - 1, i - 1);
    }
  }

  lemma {:induction false} ZeroBits(i: nat)
    ensures Bit(0, i) == 0
  {
    if i > 0 {
      ZeroBits(i - 1);
    }
  }

  /** The blend (m AND t) OR (NOT m AND e) takes each bit from t where
      m has a one and from e where m has a zero. */
  function Blend(m: nat, t: nat, e: nat, n: nat): (r: nat)
    ensures r < Pow2(n)
    ensures forall i :: 0 <= i < n ==> Bit(r, i) == if Bit(m, i) == 1 then Bit(t, i) else Bit(e, i)
  {
    Or(And(m, t, n), And(Not(m, n), e, n), n)
  }
}
