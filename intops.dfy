/** The bit-level methods of the integer vectors (`int_impls`): `select`,
    `& | ^ !`, `<<` and `>>`, each applied lane by lane to the lanes'
    two's-complement patterns. */
module IntOps {
  import opened Bits
  import opened Lane
  import opened Shapes
  import opened Access
  import Arith

  /** The lane value with every bit set: -1 on a signed type, MAX on an
      unsigned one. */
  function AllOnes(s: Scalar): (x: int)
    requires s.Valid()
    ensures InRange(s, x)
    ensures forall j :: 0 <= j < s.width ==> BitOf(s, x, j) == 1
    ensures x == if s.sign == Signed then -1 else Lane.Max(s)
  {
    var x := Wrap(s, -1);
    ModUnique(-1, Pow2(s.width), -1, Pow2(s.width) - 1);
    AllOnesEverywhere(Pattern(s, x), s.width);
    x
  }

  lemma AllOnesEverywhere(p: nat, n: nat)
    requires p == Pow2(n) - 1
    ensures forall j :: 0 <= j < n ==> Bit(p, j) == 1
  {
    forall j | 0 <= j < n
      ensures Bit(p, j) == 1
    {
      AllOnesBits(n, j);
    }
  }

  lemma ZeroHasNoBits(s: Scalar)
    requires s.Valid()
    ensures forall j :: 0 <= j < s.width ==> BitOf(s, 0, j) == 0
  {
    ModUnique(0, Pow2(s.width), 0, 0);
    forall j | 0 <= j < s.width
      ensures BitOf(s, 0, j) == 0
    {
      ZeroBits(j);
    }
  }

  /** `a & b`: each bit is set when it is set in both lanes. */
  function And(a: Vec, b: Vec): (r: Vec)
    requires Arith.SameIntType(a, b)
    ensures r.Valid() && r.shape == a.shape
    ensures forall i, j :: 0 <= i < a.shape.count && 0 <= j < a.shape.width ==>
      BitOf(a.shape.Elem(), Extract(r, i), j) == BitOf(a.shape.Elem(), Extract(a, i), j) * BitOf(a.shape.Elem(), Extract(b, i), j)
  {
    Vec(a.shape, seq(a.shape.count, i requires 0 <= i < a.shape.count => BitAnd(a.shape.Elem(), a.lanes[i], b.lanes[i])))
  }

  /** `a | b`: each bit is set when it is set in either lane. */
  function Or(a: Vec, b: Vec): (r: Vec)
    requires Arith.SameIntType(a, b)
    ensures r.Valid() && r.shape == a.shape
    ensures forall i, j :: 0 <= i < a.shape.count && 0 <= j < a.shape.width ==>
      (BitOf(a.shape.Elem(), Extract(r, i), j) == 1 <==>
        BitOf(a.shape.Elem(), Extract(a, i), j) == 1 || BitOf(a.shape.Elem(), Extract(b, i), j) == 1)
  {
    Vec(a.shape, seq(a.shape.count, i requires 0 <= i < a.shape.count => BitOr(a.shape.Elem(), a.lanes[i], b.lanes[i])))
  }

  /** `a ^ b`: each bit is set when it is set in exactly one lane. */
  function Xor(a: Vec, b: Vec): (r: Vec)
    requires Arith.SameIntType(a, b)
    ensures r.Valid() && r.shape == a.shape
    ensures forall i, j :: 0 <= i < a.shape.count && 0 <= j < a.shape.width ==>
      (BitOf(a.shape.Elem(), Extract(r, i), j) == 1 <==>
        BitOf(a.shape.Elem(), Extract(a, i), j) != BitOf(a.shape.Elem(), Extract(b, i), j))
  {
    Vec(a.shape, seq(a.shape.count, i requires 0 <= i < a.shape.count => BitXor(a.shape.Elem(), a.lanes[i], b.lanes[i])))
  }

  /** `!a`: the complement of every bit, so lane i is -a[i] - 1 on a signed
      type and MAX - a[i] on an unsigned one. */
  function Not(a: Vec): (r: Vec)
    requires a.Valid() && a.shape.IsIntVector()
    ensures r.Valid() && r.shape == a.shape
    ensures forall i :: 0 <= i < a.shape.count ==>
      Extract(r, i) == if a.shape.kind == SInt then -Extract(a, i) - 1 else Lane.Max(a.shape.Elem()) - Extract(a, i)
  {
    Vec(a.shape, seq(a.shape.count, i requires 0 <= i < a.shape.count => BitNot(a.shape.Elem(), a.lanes[i])))
  }

  /** `m.select(t, e)`: the masked blend `(m & t) | (!m & e)`, which takes
      each bit of lane i from t[i] where m[i] has a one and from e[i] where
      it has a zero. */
  function Select(m: Vec, t: Vec, e: Vec): (r: Vec)
    requires Arith.SameIntType(m, t) && Arith.SameIntType(m, e)
    ensures r.Valid() && r.shape == m.shape
    ensures forall i, j :: 0 <= i < m.shape.count && 0 <= j < m.shape.width ==>
      BitOf(m.shape.Elem(), Extract(r, i), j) ==
        if BitOf(m.shape.Elem(), Extract(m, i), j) == 1 then BitOf(m.shape.Elem(), Extract(t, i), j)
        else BitOf(m.shape.Elem(), Extract(e, i), j)
  {
    Vec(m.shape, seq(m.shape.count, i requires 0 <= i < m.shape.count =>
      BitBlend(m.shape.Elem(), m.lanes[i], t.lanes[i], e.lanes[i])))
  }

  /** Lane i of `&` is the `&` of lane i of its operands. */
  lemma AndLane(a: Vec, b: Vec, i: nat)
    requires Arith.SameIntType(a, b) && i < a.shape.count
    ensures And(a, b).lanes[i] == BitAnd(a.shape.Elem(), a.lanes[i], b.lanes[i])
  {
  }

  /** Lane i of `|` is the `|` of lane i of its operands. */
  lemma OrLane(a: Vec, b: Vec, i: nat)
    requires Arith.SameIntType(a, b) && i < a.shape.count
    ensures Or(a, b).lanes[i] == BitOr(a.shape.Elem(), a.lanes[i], b.lanes[i])
  {
  }

  /** Lane i of `^` is the `^` of lane i of its operands. */
  lemma XorLane(a: Vec, b: Vec, i: nat)
    requires Arith.SameIntType(a, b) && i < a.shape.count
    ensures Xor(a, b).lanes[i] == BitXor(a.shape.Elem(), a.lanes[i], b.lanes[i])
  {
  }

  /** Lane i of `select` is the blend of lane i of its operands. */
  lemma SelectLane(m: Vec, t: Vec, e: Vec, i: nat)
    requires Arith.SameIntType(m, t) && Arith.SameIntType(m, e) && i < m.shape.count
    ensures Select(m, t, e).lanes[i] == BitBlend(m.shape.Elem(), m.lanes[i], t.lanes[i], e.lanes[i])
  {
  }

  /** XOR with the same vector twice is the identity. */
  lemma XorTwice(a: Vec, b: Vec)
    requires Arith.SameIntType(a, b)
    ensures Xor(Xor(a, b), b) == a
  {
    var s := a.shape.Elem();
    var w := Xor(a, b);
    var r := Xor(w, b);
    forall i | 0 <= i < a.shape.count
      ensures r.lanes[i] == a.lanes[i]
    {
      XorLane(a, b, i);
      XorLane(w, b, i);
      BitXorTwice(s, a.lanes[i], b.lanes[i]);
    }
    assert r.lanes == a.lanes;
  }

  /** `&` is idempotent. */
  lemma AndIdempotent(a: Vec)
    requires a.Valid() && a.shape.IsIntVector()
    ensures And(a, a) == a
  {
    var r := And(a, a);
    forall i | 0 <= i < a.shape.count
      ensures r.lanes[i] == a.lanes[i]
    {
      AndLane(a, a, i);
      BitAndSelf(a.shape.Elem(), a.lanes[i]);
    }
    assert r.lanes == a.lanes;
  }

  /** `|` is idempotent. */
  lemma OrIdempotent(a: Vec)
    requires a.Valid() && a.shape.IsIntVector()
    ensures Or(a, a) == a
  {
    var r := Or(a, a);
    forall i | 0 <= i < a.shape.count
      ensures r.lanes[i] == a.lanes[i]
    {
      OrLane(a, a, i);
      BitOrSelf(a.shape.Elem(), a.lanes[i]);
    }
    assert r.lanes == a.lanes;
  }

  /** `!` is an involution. */
  lemma NotTwice(a: Vec)
    requires a.Valid() && a.shape.IsIntVector()
    ensures Not(Not(a)) == a
  {
    var w := Not(a);
    var u := Not(w);
    forall i | 0 <= i < a.shape.count
      ensures u.lanes[i] == a.lanes[i]
    {
      assert Extract(u, i) == if a.shape.kind == SInt then -Extract(w, i) - 1 else Lane.Max(a.shape.Elem()) - Extract(w, i);
      assert Extract(w, i) == if a.shape.kind == SInt then -Extract(a, i) - 1 else Lane.Max(a.shape.Elem()) - Extract(a, i);
    }
    assert u.lanes == a.lanes;
  }

  /** Selecting between a vector and itself gives that vector, whatever
      the mask. */
  lemma SelectSame(m: Vec, x: Vec)
    requires Arith.SameIntType(m, x)
    ensures Select(m, x, x) == x
  {
    var r := Select(m, x, x);
    forall i | 0 <= i < m.shape.count
      ensures r.lanes[i] == x.lanes[i]
    {
      SelectLane(m, x, x, i);
      BitBlendSame(m.shape.Elem(), m.lanes[i], x.lanes[i]);
    }
    assert r.lanes == x.lanes;
  }

  /** A mask whose every lane is all zeros or all ones. */
  predicate CanonicalMask(m: Vec)
    requires m.Valid() && m.shape.IsIntVector()
  {
    forall i :: 0 <= i < m.shape.count ==> Extract(m, i) == 0 || Extract(m, i) == AllOnes(m.shape.Elem())
  }

  /** The conditional choice the documentation of `select` describes:
      lane i is t[i] where m[i] is nonzero and e[i] where it is zero. */
  function SelectIf(m: Vec, t: Vec, e: Vec): (r: Vec)
    requires Arith.SameIntType(m, t) && Arith.SameIntType(m, e)
    ensures r.Valid() && r.shape == m.shape
    ensures forall i :: 0 <= i < m.shape.count ==>
      (Extract(m, i) != 0 ==> Extract(r, i) == Extract(t, i)) && (Extract(m, i) == 0 ==> Extract(r, i) == Extract(e, i))
  {
    Vec(m.shape, seq(m.shape.count, i requires 0 <= i < m.shape.count => if m.lanes[i] != 0 then t.lanes[i] else e.lanes[i]))
  }

  /** On a canonical mask the masked blend is the conditional choice. */
  lemma SelectOnCanonicalMask(m: Vec, t: Vec, e: Vec)
    requires Arith.SameIntType(m, t) && Arith.SameIntType(m, e) && CanonicalMask(m)
    ensures Select(m, t, e) == SelectIf(m, t, e)
  {
    var s := m.shape.Elem();
    var r, want := Select(m, t, e), SelectIf(m, t, e);
    forall i | 0 <= i < m.shape.count
      ensures r.lanes[i] == want.lanes[i]
    {
      assert Extract(m, i) == 0 || Extract(m, i) == AllOnes(s);
      BlendCanonical(s, m.lanes[i], t.lanes[i], e.lanes[i]);
      assert r.lanes[i] == BitBlend(s, m.lanes[i], t.lanes[i], e.lanes[i]);
    }
    assert r.lanes == want.lanes;
  }

  lemma BlendCanonical(s: Scalar, m: int, t: int, e: int)
    requires s.Valid() && InRange(s, t) && InRange(s, e) && (m == 0 || m == AllOnes(s))
    ensures BitBlend(s, m, t, e) == if m != 0 then t else e
  {
    var r := BitBlend(s, m, t, e);
    ZeroHasNoBits(s);
    var want := if m != 0 then t else e;
    forall j | 0 <= j < s.width
      ensures BitOf(s, r, j) == BitOf(s, want, j)
    {
    }
    EqualByBits(s, r, want);
  }


  // ---------------------------------------------------------------------
  // Shifts

  /** A `usize` shift argument. */
  predicate IsUsize(sz: nat)
  {
    sz < UsizeLimit
  }

  /** 2^64, one past the largest `usize` on a 64-bit target. */
  const UsizeLimit: nat := 0x1_0000_0000_0000_0000

  /** `v << sz`: every lane shifted by `sz as T`, which must lie in
      [0, W) or the shift panics in a debug build. */
  function Shl(v: Vec, sz: nat): (r: Vec)
    requires v.Valid() && v.shape.IsIntVector() && IsUsize(sz) && ShiftOk(v.shape.Elem(), sz)
    ensures r.Valid() && r.shape == v.shape
    ensures forall i :: 0 <= i < v.shape.count ==>
      var k := ShiftAmount(v.shape.Elem(), sz);
      && Pattern(v.shape.Elem(), Extract(r, i)) == Pattern(v.shape.Elem(), Extract(v, i) * Pow2(k))
      && (InRange(v.shape.Elem(), Extract(v, i) * Pow2(k)) ==> Extract(r, i) == Extract(v, i) * Pow2(k))
  {
    var s := v.shape.Elem();
    var k := ShiftAmount(s, sz);
    Vec(v.shape, seq(v.shape.count, i requires 0 <= i < v.shape.count => Lane.Shl(s, v.lanes[i], k)))
  }

  /** `v >> sz`: arithmetic on signed lanes, logical on unsigned ones; in
      both cases lane i is v[i] divided by 2^k rounded toward negative
      infinity (Dafny's `/` with a positive divisor), with k = `sz as T`
      in [0, W). */
  function Shr(v: Vec, sz: nat): (r: Vec)
    requires v.Valid() && v.shape.IsIntVector() && IsUsize(sz) && ShiftOk(v.shape.Elem(), sz)
    ensures r.Valid() && r.shape == v.shape
    ensures forall i :: 0 <= i < v.shape.count ==> Extract(r, i) == Extract(v, i) / Pow2(ShiftAmount(v.shape.Elem(), sz))
  {
    var s := v.shape.Elem();
    var k := ShiftAmount(s, sz);
    forall i | 0 <= i < v.shape.count
      ensures Lane.Shr(s, v.lanes[i], k) == v.lanes[i] / Pow2(k)
    {
      ShrIsFloorDiv(s, v.lanes[i], k);
    }
    Vec(v.shape, seq(v.shape.count, i requires 0 <= i < v.shape.count => Lane.Shr(s, v.lanes[i], k)))
  }

  /** A left shift by k is a wrapping multiplication by `splat(2^k)`
      whenever 2^k is a value of the lane type. */
  lemma ShlIsMul(v: Vec, sz: nat)
    requires v.Valid() && v.shape.IsIntVector() && IsUsize(sz) && ShiftOk(v.shape.Elem(), sz)
    requires InRange(v.shape.Elem(), Pow2(ShiftAmount(v.shape.Elem(), sz)))
    ensures Shl(v, sz) == Arith.Mul(v, Splat(v.shape, Pow2(ShiftAmount(v.shape.Elem(), sz))))
  {
    assert Shl(v, sz).lanes == Arith.Mul(v, Splat(v.shape, Pow2(ShiftAmount(v.shape.Elem(), sz)))).lanes;
  }

  /** Shifting unsigned lanes left and back right restores them when no
      set bit was shifted out. */
  lemma ShlThenShr(v: Vec, sz: nat)
    requires v.Valid() && v.shape.kind == UInt && v.shape.IsIntVector() && IsUsize(sz) && ShiftOk(v.shape.Elem(), sz)
    requires forall i :: 0 <= i < v.shape.count ==> v.lanes[i] * Pow2(ShiftAmount(v.shape.Elem(), sz)) < Pow2(v.shape.width)
    ensures Shr(Shl(v, sz), sz) == v
  {
    var s, k := v.shape.Elem(), ShiftAmount(v.shape.Elem(), sz);
    forall i | 0 <= i < v.shape.count
      ensures Shr(Shl(v, sz), sz).lanes[i] == v.lanes[i]
    {
      ShlShrLane(s, v.lanes[i], k);
    }
  }

  lemma ShlShrLane(s: Scalar, x: int, k: nat)
    requires s.Valid() && s.sign == Unsigned && InRange(s, x) && k < s.width
    requires x * Pow2(k) < Pow2(s.width)
    ensures Lane.Shr(s, Lane.Shl(s, x, k), k) == x
  {
    MulMonotone(x, 0, Pow2(k));
    assert InRange(s, x * Pow2(k));
    ShrIsFloorDiv(s, x * Pow2(k), k);
    ModUnique(x * Pow2(k), Pow2(k), x, 0);
  }

  /** On lanes narrower than `usize` a shift by sz + 2^W is a shift by sz:
      `u8x32 << 257` is `u8x32 << 1`, where a panic might be expected. */
  lemma ShiftAmountWraps(v: Vec, sz: nat)
    requires v.Valid() && v.shape.IsIntVector() && IsUsize(sz + Pow2(v.shape.width))
    requires ShiftOk(v.shape.Elem(), sz)
    ensures ShiftOk(v.shape.Elem(), sz + Pow2(v.shape.width))
    ensures Shl(v, sz + Pow2(v.shape.width)) == Shl(v, sz)
    ensures Shr(v, sz + Pow2(v.shape.width)) == Shr(v, sz)
  {
    var s := v.shape.Elem();
    ShiftAmountPeriodic(s, sz);
    ShlByAmount(v, sz, sz + Pow2(s.width));
    ShrByAmount(v, sz, sz + Pow2(s.width));
  }

  /** `<<` sees its argument only through the amount `sz as T`, so shift
      arguments that agree modulo 2^W shift alike. */
  lemma ShlByAmount(v: Vec, sz: nat, sz': nat)
    requires v.Valid() && v.shape.IsIntVector() && IsUsize(sz) && IsUsize(sz')
    requires ShiftOk(v.shape.Elem(), sz) && ShiftAmount(v.shape.Elem(), sz) == ShiftAmount(v.shape.Elem(), sz')
    ensures ShiftOk(v.shape.Elem(), sz') && Shl(v, sz) == Shl(v, sz')
  {
  }

  /** `>>` sees its argument only through the amount `sz as T`. */
  lemma ShrByAmount(v: Vec, sz: nat, sz': nat)
    requires v.Valid() && v.shape.IsIntVector() && IsUsize(sz) && IsUsize(sz')
    requires ShiftOk(v.shape.Elem(), sz) && ShiftAmount(v.shape.Elem(), sz) == ShiftAmount(v.shape.Elem(), sz')
    ensures ShiftOk(v.shape.Elem(), sz') && Shr(v, sz) == Shr(v, sz')
  {
  }
}
