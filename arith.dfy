/** Comparisons, `max`/`min` and the operators `+ - * /` of the integer
    vectors (`basic_impls`).  Comparisons return the boolean sibling with
    lanes `(a[i] OP b[i]) as iW`, that is 1 or 0.  `+ - *` wrap modulo
    2^W as in a release build; `/` panics on a zero divisor and on
    MIN / -1, which the preconditions exclude. */
module Arith {
  import opened Bits
  import opened Lane
  import opened Shapes
  import opened Access

  /** `b as iW`. */
  function Flag(b: bool): int
  {
    if b then 1 else 0
  }

  lemma FlagInRange(s: Scalar, b: bool)
    requires s.Valid()
    ensures InRange(s, Flag(b))
  {
    Pow2Monotone(1, s.width - 1);
  }

  /** Two operands of a binary method: valid vectors of one integer type. */
  predicate SameIntType(a: Vec, b: Vec)
  {
    a.Valid() && b.Valid() && a.shape == b.shape && a.shape.IsIntVector()
  }

  /** The boolean sibling whose lane i is `flags[i] as iW`. */
  function Mask(t: Shape, flags: seq<bool>): (r: Vec)
    requires t.IsIntVector() && |flags| == t.count
    ensures r.Valid() && r.shape == t.BoolSibling()
    ensures forall i :: 0 <= i < t.count ==> Extract(r, i) == Flag(flags[i])
  {
    FlagInRange(t.BoolSibling().Elem(), true);
    FlagInRange(t.BoolSibling().Elem(), false);
    Vec(t.BoolSibling(), seq(t.count, i requires 0 <= i < t.count => Flag(flags[i])))
  }

  function Eq(a: Vec, b: Vec): (r: Vec)
    requires SameIntType(a, b)
    ensures r.Valid() && r.shape == a.shape.BoolSibling()
    ensures forall i :: 0 <= i < a.shape.count ==> Extract(r, i) == Flag(Extract(a, i) == Extract(b, i))
  {
    Mask(a.shape, seq(a.shape.count, i requires 0 <= i < a.shape.count => a.lanes[i] == b.lanes[i]))
  }

  function Ne(a: Vec, b: Vec): (r: Vec)
    requires SameIntType(a, b)
    ensures r.Valid() && r.shape == a.shape.BoolSibling()
    ensures forall i :: 0 <= i < a.shape.count ==> Extract(r, i) == Flag(Extract(a, i) != Extract(b, i))
  {
    Mask(a.shape, seq(a.shape.count, i requires 0 <= i < a.shape.count => a.lanes[i] != b.lanes[i]))
  }

  function Lt(a: Vec, b: Vec): (r: Vec)
    requires SameIntType(a, b)
    ensures r.Valid() && r.shape == a.shape.BoolSibling()
    ensures forall i :: 0 <= i < a.shape.count ==> Extract(r, i) == Flag(Extract(a, i) < Extract(b, i))
  {
    Mask(a.shape, seq(a.shape.count, i requires 0 <= i < a.shape.count => a.lanes[i] < b.lanes[i]))
  }

  function Le(a: Vec, b: Vec): (r: Vec)
    requires SameIntType(a, b)
    ensures r.Valid() && r.shape == a.shape.BoolSibling()
    ensures forall i :: 0 <= i < a.shape.count ==> Extract(r, i) == Flag(Extract(a, i) <= Extract(b, i))
  {
    Mask(a.shape, seq(a.shape.count, i requires 0 <= i < a.shape.count => a.lanes[i] <= b.lanes[i]))
  }

  function Gt(a: Vec, b: Vec): (r: Vec)
    requires SameIntType(a, b)
    ensures r.Valid() && r.shape == a.shape.BoolSibling()
    ensures forall i :: 0 <= i < a.shape.count ==> Extract(r, i) == Flag(Extract(a, i) > Extract(b, i))
  {
    Mask(a.shape, seq(a.shape.count, i requires 0 <= i < a.shape.count => a.lanes[i] > b.lanes[i]))
  }

  function Ge(a: Vec, b: Vec): (r: Vec)
    requires SameIntType(a, b)
    ensures r.Valid() && r.shape == a.shape.BoolSibling()
    ensures forall i :: 0 <= i < a.shape.count ==> Extract(r, i) == Flag(Extract(a, i) >= Extract(b, i))
  {
    Mask(a.shape, seq(a.shape.count, i requires 0 <= i < a.shape.count => a.lanes[i] >= b.lanes[i]))
  }

  /** The six comparisons are related as on integers: swapping operands
      turns < into > and <= into >=, `ne` is the 0/1 complement of `eq`,
      and a `le` lane is set exactly when the `lt` or the `eq` lane is. */
  lemma ComparisonsAgree(a: Vec, b: Vec)
    requires SameIntType(a, b)
    ensures Lt(a, b) == Gt(b, a) && Le(a, b) == Ge(b, a)
    ensures forall i :: 0 <= i < a.shape.count ==>
      && Extract(Ne(a, b), i) == 1 - Extract(Eq(a, b), i)
      && Extract(Le(a, b), i) == Extract(Lt(a, b), i) + Extract(Eq(a, b), i)
  {
    assert Lt(a, b).lanes == Gt(b, a).lanes;
    assert Le(a, b).lanes == Ge(b, a).lanes;
  }

  /** `a.max(b)`: lane i is a[i] if a[i] > b[i], otherwise b[i]. */
  function Max(a: Vec, b: Vec): (r: Vec)
    requires SameIntType(a, b)
    ensures r.Valid() && r.shape == a.shape
    ensures forall i :: 0 <= i < a.shape.count ==>
      && Extract(r, i) >= Extract(a, i) && Extract(r, i) >= Extract(b, i)
      && (Extract(r, i) == Extract(a, i) || Extract(r, i) == Extract(b, i))
  {
    Vec(a.shape, seq(a.shape.count, i requires 0 <= i < a.shape.count =>
      if a.lanes[i] > b.lanes[i] then a.lanes[i] else b.lanes[i]))
  }

  /** `a.min(b)`: lane i is a[i] if a[i] < b[i], otherwise b[i]. */
  function Min(a: Vec, b: Vec): (r: Vec)
    requires SameIntType(a, b)
    ensures r.Valid() && r.shape == a.shape
    ensures forall i :: 0 <= i < a.shape.count ==>
      && Extract(r, i) <= Extract(a, i) && Extract(r, i) <= Extract(b, i)
      && (Extract(r, i) == Extract(a, i) || Extract(r, i) == Extract(b, i))
  {
    Vec(a.shape, seq(a.shape.count, i requires 0 <= i < a.shape.count =>
      if a.lanes[i] < b.lanes[i] then a.lanes[i] else b.lanes[i]))
  }

  /** `max` and `min` are idempotent, commutative on integer lanes (a tie
      returns `rhs`, which equals `self`), and absorb each other. */
  lemma MaxMinLaws(a: Vec, b: Vec)
    requires SameIntType(a, b)
    ensures Max(a, a) == a && Min(a, a) == a
    ensures Max(a, b) == Max(b, a) && Min(a, b) == Min(b, a)
    ensures Max(a, Min(a, b)) == a && Min(a, Max(a, b)) == a
  {
    assert Max(a, a).lanes == a.lanes;
    assert Min(a, a).lanes == a.lanes;
    assert Max(a, b).lanes == Max(b, a).lanes;
    assert Min(a, b).lanes == Min(b, a).lanes;
    assert Max(a, Min(a, b)).lanes == a.lanes;
    assert Min(a, Max(a, b)).lanes == a.lanes;
  }

  /** `a + b`, wrapping: lane i agrees with a[i] + b[i] modulo 2^W, and
      equals it when it fits the lane type. */
  function Add(a: Vec, b: Vec): (r: Vec)
    requires SameIntType(a, b)
    ensures r.Valid() && r.shape == a.shape
    ensures forall i :: 0 <= i < a.shape.count ==>
      Pattern(a.shape.Elem(), Extract(r, i)) == Pattern(a.shape.Elem(), Extract(a, i) + Extract(b, i))
    ensures forall i :: 0 <= i < a.shape.count && InRange(a.shape.Elem(), Extract(a, i) + Extract(b, i)) ==>
      Extract(r, i) == Extract(a, i) + Extract(b, i)
  {
    var s := a.shape.Elem();
    Vec(a.shape, seq(a.shape.count, i requires 0 <= i < a.shape.count => Wrap(s, a.lanes[i] + b.lanes[i])))
  }

  /** `a - b`, wrapping. */
  function Sub(a: Vec, b: Vec): (r: Vec)
    requires SameIntType(a, b)
    ensures r.Valid() && r.shape == a.shape
    ensures forall i :: 0 <= i < a.shape.count ==>
      Pattern(a.shape.Elem(), Extract(r, i)) == Pattern(a.shape.Elem(), Extract(a, i) - Extract(b, i))
    ensures forall i :: 0 <= i < a.shape.count && InRange(a.shape.Elem(), Extract(a, i) - Extract(b, i)) ==>
      Extract(r, i) == Extract(a, i) - Extract(b, i)
  {
    var s := a.shape.Elem();
    Vec(a.shape, seq(a.shape.count, i requires 0 <= i < a.shape.count => Wrap(s, a.lanes[i] - b.lanes[i])))
  }

  /** `a * b`, wrapping. */
  function Mul(a: Vec, b: Vec): (r: Vec)
    requires SameIntType(a, b)
    ensures r.Valid() && r.shape == a.shape
    ensures forall i :: 0 <= i < a.shape.count ==>
      Pattern(a.shape.Elem(), Extract(r, i)) == Pattern(a.shape.Elem(), Extract(a, i) * Extract(b, i))
    ensures forall i :: 0 <= i < a.shape.count && InRange(a.shape.Elem(), Extract(a, i) * Extract(b, i)) ==>
      Extract(r, i) == Extract(a, i) * Extract(b, i)
  {
    Vec(a.shape, seq(a.shape.count, i requires 0 <= i < a.shape.count =>
      Wrap(a.shape.Elem(), a.lanes[i] * b.lanes[i])))
  }

  /** Wrapping subtraction undoes wrapping addition, lane by lane, even
      when the addition overflowed. */
  lemma SubUndoesAdd(a: Vec, b: Vec)
    requires SameIntType(a, b)
    ensures Sub(Add(a, b), b) == a
  {
    forall i | 0 <= i < a.shape.count
      ensures Sub(Add(a, b), b).lanes[i] == a.lanes[i]
    {
      SubAddLane(a, b, i);
    }
    assert Sub(Add(a, b), b).lanes == a.lanes;
  }

  lemma SubAddLane(a: Vec, b: Vec, i: nat)
    requires SameIntType(a, b) && i < a.shape.count
    ensures Sub(Add(a, b), b).lanes[i] == a.lanes[i]
  {
    AddLane(a, b, i);
    SubLane(Add(a, b), b, i);
    AddThenSub(a.shape.Elem(), a.lanes[i], b.lanes[i]);
  }

  lemma AddLane(a: Vec, b: Vec, i: nat)
    requires SameIntType(a, b) && i < a.shape.count
    ensures Add(a, b).shape == a.shape
    ensures Add(a, b).lanes[i] == Wrap(a.shape.Elem(), a.lanes[i] + b.lanes[i])
  {
  }

  lemma SubLane(a: Vec, b: Vec, i: nat)
    requires SameIntType(a, b) && i < a.shape.count
    ensures Sub(a, b).lanes[i] == Wrap(a.shape.Elem(), a.lanes[i] - b.lanes[i])
  {
  }

  lemma AddThenSub(s: Scalar, x: int, y: int)
    requires s.Valid() && InRange(s, x)
    ensures Wrap(s, Wrap(s, x + y) - y) == x
  {
    WrapAdd(s, x + y, -y);
    assert x + y + -y == x;
  }

  /** Wrapping addition and multiplication commute. */
  lemma AddMulCommute(a: Vec, b: Vec)
    requires SameIntType(a, b)
    ensures Add(a, b) == Add(b, a) && Mul(a, b) == Mul(b, a)
  {
    assert Add(a, b).lanes == Add(b, a).lanes;
    assert Mul(a, b).lanes == Mul(b, a).lanes;
  }

  /** What `/` demands of its operands: no zero divisor lane, and on a
      signed type no lane dividing MIN by -1. */
  predicate DivisionOk(a: Vec, b: Vec)
    requires SameIntType(a, b)
  {
    forall i :: 0 <= i < a.shape.count ==>
      b.lanes[i] != 0 && !(a.shape.kind == SInt && a.lanes[i] == Lane.Min(a.shape.Elem()) && b.lanes[i] == -1)
  }

  lemma QuotientsInRange(a: Vec, b: Vec)
    requires SameIntType(a, b) && DivisionOk(a, b)
    ensures forall i :: 0 <= i < a.shape.count ==> InRange(a.shape.Elem(), TruncDiv(a.lanes[i], b.lanes[i]))
  {
    forall i | 0 <= i < a.shape.count
      ensures InRange(a.shape.Elem(), TruncDiv(a.lanes[i], b.lanes[i]))
    {
      TruncDivInRange(a.shape.Elem(), a.lanes[i], b.lanes[i]);
    }
  }

  /** `a / b`: lane i is a[i] / b[i] rounded toward zero; it never wraps. */
  function Div(a: Vec, b: Vec): (r: Vec)
    requires SameIntType(a, b) && DivisionOk(a, b)
    ensures r.Valid() && r.shape == a.shape
    ensures forall i :: 0 <= i < a.shape.count ==>
      var q, x, y := Extract(r, i), Extract(a, i), Extract(b, i);
      && Abs(q) * Abs(y) <= Abs(x) < (Abs(q) + 1) * Abs(y)
      && (q == 0 || ((q < 0) <==> ((x < 0) != (y < 0))))
  {
    QuotientsInRange(a, b);
    Vec(a.shape, seq(a.shape.count, i requires 0 <= i < a.shape.count => TruncDiv(a.lanes[i], b.lanes[i])))
  }

  /** Dividing by `splat(1)` is the identity. */
  lemma DivByOne(a: Vec)
    requires a.Valid() && a.shape.IsIntVector()
    ensures InRange(a.shape.Elem(), 1)
    ensures SameIntType(a, Splat(a.shape, 1)) && DivisionOk(a, Splat(a.shape, 1))
    ensures Div(a, Splat(a.shape, 1)) == a
  {
    FlagInRange(a.shape.Elem(), true);
    var one := Splat(a.shape, 1);
    forall i | 0 <= i < a.shape.count
      ensures TruncDiv(a.lanes[i], one.lanes[i]) == a.lanes[i]
    {
      assert one.lanes[i] == 1;
    }
    assert Div(a, one).lanes == a.lanes;
  }

  /** A product that did not overflow divides back to its left factor. */
  lemma DivUndoesMul(a: Vec, b: Vec)
    requires SameIntType(a, b) && DivisionOk(a, b)
    requires forall i :: 0 <= i < a.shape.count ==> InRange(a.shape.Elem(), a.lanes[i] * b.lanes[i])
    ensures SameIntType(Mul(a, b), b) && DivisionOk(Mul(a, b), b)
    ensures Div(Mul(a, b), b) == a
  {
    var s := a.shape.Elem();
    forall i | 0 <= i < a.shape.count
      ensures Mul(a, b).lanes[i] == a.lanes[i] * b.lanes[i]
      ensures !(a.shape.kind == SInt && Mul(a, b).lanes[i] == Lane.Min(s) && b.lanes[i] == -1)
      ensures TruncDiv(a.lanes[i] * b.lanes[i], b.lanes[i]) == a.lanes[i]
    {
      ExactQuotient(a.lanes[i], b.lanes[i]);
      if a.shape.kind == SInt && b.lanes[i] == -1 {
        assert a.lanes[i] * b.lanes[i] == -a.lanes[i];
      }
    }
    assert Div(Mul(a, b), b).lanes == a.lanes;
  }

  lemma ExactQuotient(x: int, y: int)
    requires y != 0
    ensures TruncDiv(x * y, y) == x
  {
    var p := x * y;
    AbsMul(x, y, p);
    ModUnique(Abs(x) * Abs(y), Abs(y), Abs(x), 0);
  }

  /** The absolute value and the sign of a product. */
  lemma AbsMul(x: int, y: int, p: int)
    requires p == x * y
    ensures Abs(p) == Abs(x) * Abs(y)
    ensures x != 0 && y != 0 ==> ((p < 0) <==> ((x < 0) != (y < 0)))
    ensures x == 0 ==> p == 0
  {
    if x < 0 && y < 0 {
      assert p == (-x) * (-y);
    } else if x < 0 {
      assert -p == (-x) * y;
      if y > 0 { MulAtLeast(-x, y); }
    } else if y < 0 {
      assert -p == x * (-y);
      if x > 0 { MulAtLeast(x, -y); }
    }
    if x > 0 && y > 0 { MulAtLeast(x, y); }
    if x < 0 && y < 0 { MulAtLeast(-x, -y); }
  }
}
