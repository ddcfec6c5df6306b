/** The integer and boolean conversions (`conv_impls`): `to_i`, `to_u`,
    `to_i32`, `to_i64`, `to_u32` and `to_u64`.  Each converts lane by lane
    with Rust's `as`, which keeps the low W bits of the two's-complement
    pattern of the lane. */
module Conv {
  import opened Bits
  import opened Lane
  import opened Shapes
  import opened Access
  import Arith
  import IntOps

  /** The 32- and 64-bit lane counts that have `to_i` and `to_u`. */
  predicate SignConvertible(t: Shape)
  {
    && t.width % 8 == 0
    && (|| (t.width / 8 == 4 && (t.count == 2 || t.count == 4 || t.count == 8))
        || (t.width / 8 == 8 && (t.count == 2 || t.count == 4)))
  }

  /** The lane counts that have `to_i32`/`to_i64` and `to_u32`/`to_u64`. */
  predicate WidthConvertible(t: Shape)
  {
    t.width % 8 == 0 && (t.width / 8 == 4 || t.width / 8 == 8) && (t.count == 2 || t.count == 4)
  }

  /** `v.to_X()`: the vector of type t whose lane i is `v[i] as E`. */
  function Cast(v: Vec, t: Shape): (r: Vec)
    requires v.Valid() && t.Declared() && t.count == v.shape.count
    ensures r.Valid() && r.shape == t
    ensures forall i :: 0 <= i < t.count ==>
      && Pattern(t.Elem(), Extract(r, i)) == Pattern(t.Elem(), Extract(v, i))
      && (InRange(t.Elem(), Extract(v, i)) ==> Extract(r, i) == Extract(v, i))
  {
    Vec(t, seq(t.count, i requires 0 <= i < t.count => Wrap(t.Elem(), v.lanes[i])))
  }

  /** An unsigned lane read as signed: values of 2^(W-1) and above lose
      2^W. */
  lemma UnsignedAsSigned(w: nat, x: int)
    requires Scalar(Signed, w).Valid() && InRange(Scalar(Unsigned, w), x)
    ensures Wrap(Scalar(Signed, w), x) == if x < Pow2(w - 1) then x else x - Pow2(w)
  {
    ModUnique(x, Pow2(w), 0, x);
  }

  /** A signed lane read as unsigned: negative values gain 2^W. */
  lemma SignedAsUnsigned(w: nat, x: int)
    requires Scalar(Signed, w).Valid() && InRange(Scalar(Signed, w), x)
    ensures Wrap(Scalar(Unsigned, w), x) == if x < 0 then x + Pow2(w) else x
  {
    var u := Scalar(Unsigned, w);
    SignedBounds(Scalar(Signed, w), x);
    TwosComplementMod(x, Pow2(w), Pow2(w - 1));
    assert Pattern(u, x) == if x < 0 then x + Pow2(w) else x;
  }

  /** A value of a lane type is a value of every wider lane type of the
      same signedness. */
  lemma Widens(s: Scalar, t: Scalar, x: int)
    requires s.Valid() && t.Valid() && s.sign == t.sign && s.width <= t.width && InRange(s, x)
    ensures InRange(t, x)
  {
    if s.sign == Signed {
      Pow2Monotone(s.width - 1, t.width - 1);
    } else {
      Pow2Monotone(s.width, t.width);
    }
  }

  /** `to_i` on `uWxN`: lane i is u[i] reinterpreted as iW. */
  function ToI(v: Vec): (r: Vec)
    requires v.Valid() && (v.shape.kind == UInt || v.shape.kind == Bool) && SignConvertible(v.shape)
    ensures r.Valid() && r.shape == Shape(SInt, v.shape.width, v.shape.count)
    ensures v.shape.kind == UInt ==> forall i :: 0 <= i < v.shape.count ==>
      Extract(r, i) == if Extract(v, i) < Pow2(v.shape.width - 1) then Extract(v, i) else Extract(v, i) - Pow2(v.shape.width)
    ensures v.shape.kind == Bool ==> r.lanes == v.lanes
  {
    var r := Cast(v, Shape(SInt, v.shape.width, v.shape.count));
    forall i | 0 <= i < v.shape.count && v.shape.kind == UInt
      ensures Extract(r, i) == if Extract(v, i) < Pow2(v.shape.width - 1) then Extract(v, i) else Extract(v, i) - Pow2(v.shape.width)
    {
      UnsignedAsSigned(v.shape.width, v.lanes[i]);
    }
    r
  }

  /** `to_u` on `iWxN` and on `boolWxN`: lane i is the lane reinterpreted
      as uW. */
  function ToU(v: Vec): (r: Vec)
    requires v.Valid() && (v.shape.kind == SInt || v.shape.kind == Bool) && SignConvertible(v.shape)
    ensures r.Valid() && r.shape == Shape(UInt, v.shape.width, v.shape.count)
    ensures forall i :: 0 <= i < v.shape.count ==>
      Extract(r, i) == if Extract(v, i) < 0 then Extract(v, i) + Pow2(v.shape.width) else Extract(v, i)
  {
    var r := Cast(v, Shape(UInt, v.shape.width, v.shape.count));
    forall i | 0 <= i < v.shape.count
      ensures Extract(r, i) == if Extract(v, i) < 0 then Extract(v, i) + Pow2(v.shape.width) else Extract(v, i)
    {
      SignedAsUnsigned(v.shape.width, v.lanes[i]);
    }
    r
  }

  /** `to_i32` on `i64xN`: lane i keeps the low 32 bits of x[i]. */
  function ToI32(v: Vec): (r: Vec)
    requires v.Valid() && v.shape.kind == SInt && v.shape.width == 64 && WidthConvertible(v.shape)
    ensures r.Valid() && r.shape == Shape(SInt, 32, v.shape.count)
    ensures forall i :: 0 <= i < v.shape.count ==>
      && Pattern(r.shape.Elem(), Extract(r, i)) == Pattern(r.shape.Elem(), Extract(v, i))
      && (InRange(r.shape.Elem(), Extract(v, i)) ==> Extract(r, i) == Extract(v, i))
  {
    Cast(v, Shape(SInt, 32, v.shape.count))
  }

  /** `to_i64` on `i32xN`: lane i is x[i], sign-extended. */
  function ToI64(v: Vec): (r: Vec)
    requires v.Valid() && v.shape.kind == SInt && v.shape.width == 32 && WidthConvertible(v.shape)
    ensures r.Valid() && r.shape == Shape(SInt, 64, v.shape.count)
    ensures r.lanes == v.lanes
  {
    var r := Cast(v, Shape(SInt, 64, v.shape.count));
    forall i | 0 <= i < v.shape.count
      ensures r.lanes[i] == v.lanes[i]
    {
      Widens(v.shape.Elem(), r.shape.Elem(), v.lanes[i]);
    }
    r
  }

  /** `to_u32` on `u64xN`: lane i is x[i] modulo 2^32. */
  function ToU32(v: Vec): (r: Vec)
    requires v.Valid() && v.shape.kind == UInt && v.shape.width == 64 && WidthConvertible(v.shape)
    ensures r.Valid() && r.shape == Shape(UInt, 32, v.shape.count)
    ensures forall i :: 0 <= i < v.shape.count ==> Extract(r, i) == Extract(v, i) % Pow2(r.shape.width)
  {
    Cast(v, Shape(UInt, 32, v.shape.count))
  }

  /** `to_u64` on `u32xN`: lane i is x[i], zero-extended. */
  function ToU64(v: Vec): (r: Vec)
    requires v.Valid() && v.shape.kind == UInt && v.shape.width == 32 && WidthConvertible(v.shape)
    ensures r.Valid() && r.shape == Shape(UInt, 64, v.shape.count)
    ensures r.lanes == v.lanes
  {
    var r := Cast(v, Shape(UInt, 64, v.shape.count));
    forall i | 0 <= i < v.shape.count
      ensures r.lanes[i] == v.lanes[i]
    {
      Widens(v.shape.Elem(), r.shape.Elem(), v.lanes[i]);
    }
    r
  }

  /** Reinterpreting a signed vector as unsigned and back loses nothing. */
  lemma SignedRoundTrip(v: Vec)
    requires v.Valid() && v.shape.kind == SInt && SignConvertible(v.shape)
    ensures ToI(ToU(v)) == v
  {
    var u := ToU(v);
    forall i | 0 <= i < v.shape.count
      ensures ToI(u).lanes[i] == v.lanes[i]
    {
      SignedLaneRoundTrip(v.shape.width, v.lanes[i]);
    }
  }

  lemma SignedLaneRoundTrip(w: nat, x: int)
    requires Scalar(Signed, w).Valid() && InRange(Scalar(Signed, w), x)
    ensures Wrap(Scalar(Signed, w), Wrap(Scalar(Unsigned, w), x)) == x
  {
    HalfPow2(Scalar(Signed, w));
    SignedAsUnsigned(w, x);
    UnsignedAsSigned(w, Wrap(Scalar(Unsigned, w), x));
  }

  /** Reinterpreting an unsigned vector as signed and back loses nothing. */
  lemma UnsignedRoundTrip(v: Vec)
    requires v.Valid() && v.shape.kind == UInt && SignConvertible(v.shape)
    ensures ToU(ToI(v)) == v
  {
    var n := ToI(v);
    forall i | 0 <= i < v.shape.count
      ensures ToU(n).lanes[i] == v.lanes[i]
    {
      UnsignedLaneRoundTrip(v.shape.width, v.lanes[i]);
    }
  }

  lemma UnsignedLaneRoundTrip(w: nat, x: int)
    requires Scalar(Signed, w).Valid() && InRange(Scalar(Unsigned, w), x)
    ensures Wrap(Scalar(Unsigned, w), Wrap(Scalar(Signed, w), x)) == x
  {
    HalfPow2(Scalar(Signed, w));
    UnsignedAsSigned(w, x);
    SignedAsUnsigned(w, Wrap(Scalar(Signed, w), x));
  }

  /** `to_u` on a boolean vector is `to_i` followed by `to_u`. */
  lemma BoolToU(v: Vec)
    requires v.Valid() && v.shape.kind == Bool && SignConvertible(v.shape)
    ensures ToU(v) == ToU(ToI(v))
  {
  }

  /** Widening then narrowing is the identity. */
  lemma WidenThenNarrow(v: Vec)
    requires v.Valid() && v.shape.kind != Bool && v.shape.width == 32 && WidthConvertible(v.shape)
    ensures v.shape.kind == SInt ==> ToI32(ToI64(v)) == v
    ensures v.shape.kind == UInt ==> ToU32(ToU64(v)) == v
  {
    if v.shape.kind == SInt {
      assert ToI32(ToI64(v)).lanes == v.lanes;
    } else {
      var r := ToU32(ToU64(v));
      forall i | 0 <= i < v.shape.count
        ensures r.lanes[i] == v.lanes[i]
      {
        ModUnique(v.lanes[i], Pow2(v.shape.width), 0, v.lanes[i]);
      }
    }
  }

  /** Narrowing a signed 64-bit vector and widening it back is the
      identity exactly when every lane is a value of `i32`. */
  lemma NarrowThenWidenSigned(v: Vec)
    requires v.Valid() && v.shape.kind == SInt && v.shape.width == 64 && WidthConvertible(v.shape)
    ensures ToI64(ToI32(v)) == v <==> forall i :: 0 <= i < v.shape.count ==> InRange(ToI32(v).shape.Elem(), v.lanes[i])
  {
    var r := ToI32(v);
    if forall i :: 0 <= i < v.shape.count ==> InRange(r.shape.Elem(), v.lanes[i]) {
      assert ToI64(r).lanes == v.lanes;
    }
    if ToI64(r) == v {
      assert forall i :: 0 <= i < v.shape.count ==> InRange(r.shape.Elem(), r.lanes[i]);
    }
  }

  /** Narrowing an unsigned 64-bit vector and widening it back is the
      identity exactly when every lane is below 2^32. */
  lemma NarrowThenWidenUnsigned(v: Vec)
    requires v.Valid() && v.shape.kind == UInt && v.shape.width == 64 && WidthConvertible(v.shape)
    ensures ToU64(ToU32(v)) == v <==> forall i :: 0 <= i < v.shape.count ==> v.lanes[i] < Pow2(ToU32(v).shape.width)
  {
    var r := ToU32(v);
    var m := Pow2(r.shape.width);
    if forall i :: 0 <= i < v.shape.count ==> v.lanes[i] < m {
      forall i | 0 <= i < v.shape.count
        ensures ToU64(r).lanes[i] == v.lanes[i]
      {
        ModUnique(v.lanes[i], m, 0, v.lanes[i]);
      }
    }
    if ToU64(r) == v {
      assert forall i :: 0 <= i < v.shape.count ==> r.lanes[i] < m;
    }
  }

  // ---------------------------------------------------------------------
  // Selecting with a comparison result

  /** Operands whose comparison converts with `to_i` to the signed type
      of the same shape as t and e. */
  predicate ComparableFor(a: Vec, b: Vec, t: Vec, e: Vec)
  {
    && Arith.SameIntType(a, b) && SignConvertible(a.shape)
    && Arith.SameIntType(t, e) && t.shape == Shape(SInt, a.shape.width, a.shape.count)
  }

  /** The bits of 1: a one in bit 0 and zeros above it. */
  lemma OneBits(s: Scalar, x: int, j: nat)
    requires s.Valid() && x == 1 && j < s.width
    ensures BitOf(s, x, j) == if j == 0 then 1 else 0
  {
    HalfPow2(s);
    ModUnique(x, Pow2(s.width), 0, x);
    if j > 0 {
      Halve(0, 1);
      ZeroBits(j - 1);
    }
  }

  /** A lane whose bit 0 is clear and whose bit 1 is set is neither 0
      nor -1. */
  lemma NeitherZeroNorMinusOne(s: Scalar, x: int)
    requires s.Valid() && s.sign == Signed && BitOf(s, x, 0) == 0 && BitOf(s, x, 1) == 1
    ensures x != 0 && x != -1
  {
    IntOps.ZeroHasNoBits(s);
    assert IntOps.AllOnes(s) == -1;
  }

  /** A comparison converted with `to_i` holds 1 where the relation holds. */
  lemma GreaterFlag(a: Vec, b: Vec, i: nat)
    requires Arith.SameIntType(a, b) && SignConvertible(a.shape) && i < a.shape.count
    ensures ToI(Arith.Gt(a, b)).lanes[i] == Arith.Flag(Extract(a, i) > Extract(b, i))
  {
  }

  /** `a.gt(b).to_i().select(t, e)` does not choose between t and e: a
      comparison stores 1 for true, so where a[i] > b[i] only bit 0 comes
      from t[i] and every other bit from e[i].  With t all zeros and e all
      ones, such a lane (it is -2) is neither t[i] nor e[i]. */
  lemma SelectWithComparisonMask(a: Vec, b: Vec, i: nat)
    requires Arith.SameIntType(a, b) && SignConvertible(a.shape) && i < a.shape.count
    requires Extract(a, i) > Extract(b, i)
    ensures
      var t := Shape(SInt, a.shape.width, a.shape.count);
      var r := IntOps.Select(ToI(Arith.Gt(a, b)), Splat(t, 0), Splat(t, -1));
      Extract(r, i) != Extract(Splat(t, 0), i) && Extract(r, i) != Extract(Splat(t, -1), i)
  {
    var t := Shape(SInt, a.shape.width, a.shape.count);
    var s := t.Elem();
    SignedBounds(s, 0);
    var m := ToI(Arith.Gt(a, b));
    var z, o := Splat(t, 0), Splat(t, -1);
    var r := IntOps.Select(m, z, o);
    GreaterFlag(a, b, i);
    IntOps.SelectLane(m, z, o, i);
    assert Extract(z, i) == 0 && Extract(o, i) == -1;
    BlendOfOneZeroMinusOne(s);
  }

  /** Blending 0 and -1 under the mask 1 takes bit 0 from 0 and bit 1
      from -1, so the result is neither. */
  lemma BlendOfOneZeroMinusOne(s: Scalar)
    requires s.Valid() && s.sign == Signed
    ensures BitBlend(s, 1, 0, -1) != 0 && BitBlend(s, 1, 0, -1) != -1
  {
    var r := BitBlend(s, 1, 0, -1);
    OneBits(s, 1, 0);
    OneBits(s, 1, 1);
    IntOps.ZeroHasNoBits(s);
    assert IntOps.AllOnes(s) == -1;
    NeitherZeroNorMinusOne(s, r);
  }

  /** The choice the documentation of `select` describes, made with a
      comparison result: lane i is t[i] where a[i] > b[i] and e[i]
      elsewhere. */
  lemma SelectIfWithComparison(a: Vec, b: Vec, t: Vec, e: Vec)
    requires ComparableFor(a, b, t, e)
    ensures forall i :: 0 <= i < a.shape.count ==>
      Extract(IntOps.SelectIf(ToI(Arith.Gt(a, b)), t, e), i) == if Extract(a, i) > Extract(b, i) then Extract(t, i) else Extract(e, i)
  {
  }

  /** Negating the 0/1 comparison lanes gives the canonical 0/-1 mask, on
      which the bit blend of `select` is that choice. */
  lemma SelectWithNegatedComparison(a: Vec, b: Vec, t: Vec, e: Vec)
    requires ComparableFor(a, b, t, e)
    ensures
      var m := Arith.Sub(Splat(t.shape, 0), ToI(Arith.Gt(a, b)));
      IntOps.Select(m, t, e) == IntOps.SelectIf(ToI(Arith.Gt(a, b)), t, e)
  {
    var flags := ToI(Arith.Gt(a, b));
    var m := Arith.Sub(Splat(t.shape, 0), flags);
    NegatedFlags(flags, m);
    IntOps.SelectOnCanonicalMask(m, t, e);
    assert IntOps.SelectIf(m, t, e).lanes == IntOps.SelectIf(flags, t, e).lanes;
  }

  /** `splat(0) - f` on lanes holding 0 or 1 holds 0 or -1, nonzero exactly
      where f is. */
  lemma NegatedFlags(f: Vec, m: Vec)
    requires f.Valid() && f.shape.kind == SInt && f.shape.IsIntVector()
    requires forall i :: 0 <= i < f.shape.count ==> f.lanes[i] == 0 || f.lanes[i] == 1
    requires m == Arith.Sub(Splat(f.shape, 0), f)
    ensures IntOps.CanonicalMask(m)
    ensures forall i :: 0 <= i < f.shape.count ==> (m.lanes[i] != 0 <==> f.lanes[i] != 0)
  {
    var s := f.shape.Elem();
    var ones := IntOps.AllOnes(s);
    assert InRange(s, -1);
    assert ones == -1;
    forall i | 0 <= i < f.shape.count
      ensures Extract(m, i) == 0 || Extract(m, i) == ones
      ensures m.lanes[i] != 0 <==> f.lanes[i] != 0
    {
      assert InRange(s, 0 - Extract(f, i));
      assert Extract(m, i) == -Extract(f, i);
    }
  }

}
