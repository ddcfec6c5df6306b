/** Single lanes and vectors of the declared types, worked out in the
    model: each fact is what the Rust expression evaluates to. */
module Samples {
  import opened Bits
  import opened Lane
  import opened Shapes
  import opened Access
  import Arith
  import IntOps
  import BoolOps

  /** `250u8 + 10` wraps to 4 in every lane of a `u8x32`. */
  lemma AddWraps()
    ensures InRange(U8x32.Elem(), 250) && InRange(U8x32.Elem(), 10)
    ensures Arith.Add(Splat(U8x32, 250), Splat(U8x32, 10)) == Splat(U8x32, 4)
  {
    var a, b := Splat(U8x32, 250), Splat(U8x32, 10);
    assert Pow2(8) == 256;
    assert Arith.Add(a, b).lanes == Splat(U8x32, 4).lanes;
  }

  /** `-7 / 2` is -3 in every lane of an `i32x4`: the quotient rounds
      toward zero. */
  lemma DivRoundsTowardZero()
    ensures InRange(I32x4.Elem(), -7) && InRange(I32x4.Elem(), 2)
    ensures Arith.SameIntType(Splat(I32x4, -7), Splat(I32x4, 2))
    ensures Arith.DivisionOk(Splat(I32x4, -7), Splat(I32x4, 2))
    ensures Arith.Div(Splat(I32x4, -7), Splat(I32x4, 2)) == Splat(I32x4, -3)
  {
    assert Pow2(31) >= 8 by { Pow2Monotone(3, 31); }
    var a, b := Splat(I32x4, -7), Splat(I32x4, 2);
    assert Arith.Div(a, b).lanes == Splat(I32x4, -3).lanes;
  }

  /** `u8x32 << 257` shifts by `257 as u8`, which is 1: a lane holding 1
      becomes 2. */
  lemma ShlByTruncatedAmount()
    ensures IntOps.IsUsize(257) && ShiftOk(U8x32.Elem(), 257)
    ensures IntOps.Shl(Splat(U8x32, 1), 257) == Splat(U8x32, 2)
  {
    assert Pow2(8) == 256;
    assert ShiftAmount(U8x32.Elem(), 257) == 1;
    assert Pow2(1) == 2;
    assert IntOps.Shl(Splat(U8x32, 1), 257).lanes == Splat(U8x32, 2).lanes;
  }

  /** `-128i8 >> 7` copies the sign bit into every position: -1. */
  lemma ShrCopiesSign()
    ensures InRange(I8x32.Elem(), -128)
    ensures IntOps.IsUsize(7) && ShiftOk(I8x32.Elem(), 7)
    ensures IntOps.Shr(Splat(I8x32, -128), 7) == Splat(I8x32, -1)
  {
    assert Pow2(7) == 128;
    assert Pow2(8) == 256;
    assert IntOps.Shr(Splat(I8x32, -128), 7).lanes == Splat(I8x32, -1).lanes;
  }

  /** `!` on a `bool32x4` whose lanes hold the stored true value 1 gives
      -2, which `all` still reads as true. */
  lemma NotOfTrueIsStillTrue()
    ensures InRange(Bool32x4.Elem(), 1)
    ensures BoolOps.Not(Splat(Bool32x4, 1)) == Splat(Bool32x4, -2)
    ensures BoolOps.All(BoolOps.Not(Splat(Bool32x4, 1)))
  {
    assert Pow2(31) >= 2 by { Pow2Monotone(1, 31); }
    assert BoolOps.Not(Splat(Bool32x4, 1)).lanes == Splat(Bool32x4, -2).lanes;
  }
}
