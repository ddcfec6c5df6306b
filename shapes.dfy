/** The vector type family: a packed tuple of `count` lanes of one scalar
    type.  Integer vectors (`u32x4`, `i8x32`, ...) hold unsigned or signed
    lanes; boolean vectors (`bool32x4`, ...) hold lanes of the signed type
    of the same width, zero meaning false and anything else true. */
module Shapes {
  import opened Lane

  datatype Kind = UInt | SInt | Bool

  datatype Shape = Shape(kind: Kind, width: nat, count: nat)
  {
    /** The integer vector types that receive the basic and the integer
        method sets: u32x2, u32x4, u32x8, u16x8, u16x16, u64x2, u64x4 and
        u8x32, and their signed twins.  The table gives the lane width in
        bytes (4 for 32-bit lanes). */
    predicate IsIntVector() {
      && kind != Bool && width % 8 == 0
      && var bytes := width / 8;
      && (|| (bytes == 4 && (count == 2 || count == 4 || count == 8))
          || (bytes == 2 && (count == 8 || count == 16))
          || (bytes == 8 && (count == 2 || count == 4))
          || (bytes == 1 && count == 32))
    }

    /** The boolean vector types that receive the boolean method set: the
        same widths and counts, and bool8x16. */
    predicate IsBoolVector() {
      && kind == Bool && width % 8 == 0
      && var bytes := width / 8;
      && (|| (bytes == 4 && (count == 2 || count == 4 || count == 8))
          || (bytes == 2 && (count == 8 || count == 16))
          || (bytes == 8 && (count == 2 || count == 4))
          || (bytes == 1 && (count == 16 || count == 32)))
    }

    predicate Declared() {
      IsIntVector() || IsBoolVector()
    }

    /** The lane type: `uW` for an unsigned vector, `iW` for a signed or a
        boolean one. */
    function Elem(): (s: Scalar)
      requires Declared()
      ensures s.Valid() && s.width == width
      ensures s.sign == Unsigned <==> kind == UInt
    {
      Scalar(if kind == UInt then Unsigned else Signed, width)
    }

    /** The boolean vector of the same lane count and width, which
        comparisons return. */
    function BoolSibling(): (b: Shape)
      requires IsIntVector()
      ensures b.IsBoolVector() && b.width == width && b.count == count
    {
      Shape(Bool, width, count)
    }
  }

  /** A vector value: its type and its lanes in index order. */
  datatype Vec = Vec(shape: Shape, lanes: seq<int>)
  {
    predicate Valid() {
      && shape.Declared()
      && |lanes| == shape.count
      && forall i :: 0 <= i < |lanes| ==> InRange(shape.Elem(), lanes[i])
    }
  }

  const U32x2 := Shape(UInt, 32, 2)
  const I32x2 := Shape(SInt, 32, 2)
  const Bool32x2 := Shape(Bool, 32, 2)
  const U32x4 := Shape(UInt, 32, 4)
  const I32x4 := Shape(SInt, 32, 4)
  const Bool32x4 := Shape(Bool, 32, 4)
  const U16x8 := Shape(UInt, 16, 8)
  const I16x8 := Shape(SInt, 16, 8)
  const Bool16x8 := Shape(Bool, 16, 8)
  const Bool8x16 := Shape(Bool, 8, 16)
  const U64x2 := Shape(UInt, 64, 2)
  const I64x2 := Shape(SInt, 64, 2)
  const Bool64x2 := Shape(Bool, 64, 2)
  const U64x4 := Shape(UInt, 64, 4)
  const I64x4 := Shape(SInt, 64, 4)
  const Bool64x4 := Shape(Bool, 64, 4)
  const U32x8 := Shape(UInt, 32, 8)
  const I32x8 := Shape(SInt, 32, 8)
  const Bool32x8 := Shape(Bool, 32, 8)
  const U16x16 := Shape(UInt, 16, 16)
  const I16x16 := Shape(SInt, 16, 16)
  const Bool16x16 := Shape(Bool, 16, 16)
  const U8x32 := Shape(UInt, 8, 32)
  const I8x32 := Shape(SInt, 8, 32)
  const Bool8x32 := Shape(Bool, 8, 32)

  /** The tables at work: each integer type is declared, its comparisons
      return the boolean type of the same width and count, and `u8x16` and
      `i8x16` get no methods although `bool8x16` does. */
  lemma DeclaredShapes()
    ensures U32x2.BoolSibling() == Bool32x2 && I32x2.BoolSibling() == Bool32x2
    ensures U32x4.BoolSibling() == Bool32x4 && I32x4.BoolSibling() == Bool32x4
    ensures U32x8.BoolSibling() == Bool32x8 && I32x8.BoolSibling() == Bool32x8
    ensures U16x8.BoolSibling() == Bool16x8 && I16x8.BoolSibling() == Bool16x8
    ensures U16x16.BoolSibling() == Bool16x16 && I16x16.BoolSibling() == Bool16x16
    ensures U64x2.BoolSibling() == Bool64x2 && I64x2.BoolSibling() == Bool64x2
    ensures U64x4.BoolSibling() == Bool64x4 && I64x4.BoolSibling() == Bool64x4
    ensures U8x32.BoolSibling() == Bool8x32 && I8x32.BoolSibling() == Bool8x32
    ensures Bool8x16.IsBoolVector()
    ensures !Shape(UInt, 8, 16).Declared() && !Shape(SInt, 8, 16).Declared()
  {
  }
}
