/** The methods only the boolean vectors have (`bool_impls`): `all`, `any`
    and `!`.  A boolean lane is an iW value; zero is false and every other
    value is true. */
module BoolOps {
  import opened Lane
  import opened Shapes
  import opened Access
  import Arith

  /** A valid value of one of the boolean vector types. */
  predicate IsBoolVec(v: Vec)
  {
    v.Valid() && v.shape.IsBoolVector()
  }

  /** The chain `(l0 != 0) && (l1 != 0) && ...`, lane 0 first. */
  function AllNonzero(lanes: seq<int>): (r: bool)
    ensures r <==> forall i :: 0 <= i < |lanes| ==> lanes[i] != 0
  {
    if |lanes| == 0 then true else lanes[0] != 0 && AllNonzero(lanes[1..])
  }

  /** The chain `(l0 != 0) || (l1 != 0) || ...`, lane 0 first. */
  function AnyNonzero(lanes: seq<int>): (r: bool)
    ensures r <==> exists i :: 0 <= i < |lanes| && lanes[i] != 0
  {
    if |lanes| == 0 then false
    else
      var rest := AnyNonzero(lanes[1..]);
      assert rest <==> exists i :: 1 <= i < |lanes| && lanes[i] != 0 by {
        assert forall i :: 1 <= i < |lanes| ==> lanes[1..][i - 1] == lanes[i];
      }
      lanes[0] != 0 || rest
  }

  /** `v.all()`: every lane is true. */
  function All(v: Vec): (r: bool)
    requires IsBoolVec(v)
    ensures r <==> forall i :: 0 <= i < v.shape.count ==> Extract(v, i) != 0
  {
    assert forall i :: 0 <= i < v.shape.count ==> Extract(v, i) == v.lanes[i];
    AllNonzero(v.lanes)
  }

  /** `v.any()`: at least one lane is true. */
  function Any(v: Vec): (r: bool)
    requires IsBoolVec(v)
    ensures r <==> exists i :: 0 <= i < v.shape.count && Extract(v, i) != 0
  {
    assert forall i :: 0 <= i < v.shape.count ==> Extract(v, i) == v.lanes[i];
    AnyNonzero(v.lanes)
  }

  /** `!v` on a boolean vector: the bitwise complement of every lane, as on
      the integer vectors, so lane i becomes -v[i] - 1.  It is the logical
      negation only on lanes holding 0 or -1. */
  function Not(v: Vec): (r: Vec)
    requires IsBoolVec(v)
    ensures IsBoolVec(r) && r.shape == v.shape
    ensures forall i :: 0 <= i < v.shape.count ==> Extract(r, i) == -Extract(v, i) - 1
  {
    Vec(v.shape, seq(v.shape.count, i requires 0 <= i < v.shape.count => BitNot(v.shape.Elem(), v.lanes[i])))
  }

  /** The negation `!` is evidently meant to be on a boolean vector: lane
      i is true exactly where lane i of v is false, stored as 1 or 0 the
      way a comparison stores it. */
  function LogicalNot(v: Vec): (r: Vec)
    requires IsBoolVec(v)
    ensures IsBoolVec(r) && r.shape == v.shape
    ensures forall i :: 0 <= i < v.shape.count ==> (Extract(r, i) != 0 <==> Extract(v, i) == 0)
    ensures forall i :: 0 <= i < v.shape.count ==> Extract(r, i) == 0 || Extract(r, i) == 1
  {
    Arith.FlagInRange(v.shape.Elem(), true);
    Arith.FlagInRange(v.shape.Elem(), false);
    Vec(v.shape, seq(v.shape.count, i requires 0 <= i < v.shape.count => Arith.Flag(v.lanes[i] == 0)))
  }

  /** Every boolean vector type has at least two lanes, so `all` implies
      `any`. */
  lemma AllImpliesAny(v: Vec)
    requires IsBoolVec(v)
    ensures All(v) ==> Any(v)
  {
    if All(v) {
      assert Extract(v, 0) != 0;
    }
  }

  /** `!` is an involution on boolean vectors too. */
  lemma NotTwice(v: Vec)
    requires IsBoolVec(v)
    ensures Not(Not(v)) == v
  {
    var w := Not(v);
    var u := Not(w);
    forall i | 0 <= i < v.shape.count
      ensures u.lanes[i] == v.lanes[i]
    {
      assert Extract(u, i) == -Extract(w, i) - 1;
      assert Extract(w, i) == -Extract(v, i) - 1;
    }
    assert u.lanes == v.lanes;
  }

  /** `!` maps the stored true value 1 to -2, which is still true, and
      maps false (0) to -1: on a vector of comparison results every lane
      of `!` is true, whatever the comparison said. */
  lemma NotOfFlags(v: Vec)
    requires IsBoolVec(v)
    requires forall i :: 0 <= i < v.shape.count ==> Extract(v, i) == 0 || Extract(v, i) == 1
    ensures forall i :: 0 <= i < v.shape.count ==>
      Extract(Not(v), i) == (if Extract(v, i) == 1 then -2 else -1)
    ensures All(Not(v))
  {
  }

  /** `!` swaps true and false exactly on lanes holding 0 or -1. */
  lemma NotNegatesCanonical(v: Vec)
    requires IsBoolVec(v)
    ensures forall i :: 0 <= i < v.shape.count ==>
      ((Extract(Not(v), i) != 0) != (Extract(v, i) != 0) <==> Extract(v, i) == 0 || Extract(v, i) == -1)
  {
  }

  /** `a.eq(b)` is all-true exactly when the operands are equal, so
      `a.eq(a).all()` holds for every a. */
  lemma EqAllIffEqual(a: Vec, b: Vec)
    requires Arith.SameIntType(a, b)
    ensures All(Arith.Eq(a, b)) <==> a == b
    ensures All(Arith.Eq(a, a))
  {
    if All(Arith.Eq(a, b)) {
      forall i | 0 <= i < a.shape.count
        ensures a.lanes[i] == b.lanes[i]
      {
        assert Extract(Arith.Eq(a, b), i) != 0;
      }
      assert a.lanes == b.lanes;
    }
  }

  /** `a.ne(b)` is any-true exactly when the operands differ. */
  lemma NeAnyIffDifferent(a: Vec, b: Vec)
    requires Arith.SameIntType(a, b)
    ensures Any(Arith.Ne(a, b)) <==> a != b
  {
    if a != b {
      assert a.lanes != b.lanes;
      var i :| 0 <= i < a.shape.count && a.lanes[i] != b.lanes[i];
      assert Extract(Arith.Ne(a, b), i) != 0;
    }
  }

  /** `a.lt(b).any()` holds exactly when some lane of a is below the
      lane of b, and `a.le(b).all()` exactly when every lane is at most
      the lane of b. */
  lemma OrderAnyAll(a: Vec, b: Vec)
    requires Arith.SameIntType(a, b)
    ensures Any(Arith.Lt(a, b)) <==> exists i :: 0 <= i < a.shape.count && Extract(a, i) < Extract(b, i)
    ensures All(Arith.Le(a, b)) <==> forall i :: 0 <= i < a.shape.count ==> Extract(a, i) <= Extract(b, i)
  {
  }

  /** Negating a comparison with `!` does not give its complement: for
      any two operands, `!a.eq(b)` is all-true. */
  lemma NotOfComparisonIsAllTrue(a: Vec, b: Vec)
    requires Arith.SameIntType(a, b)
    ensures All(Not(Arith.Eq(a, b)))
  {
    NotOfFlags(Arith.Eq(a, b));
  }

  /** The logical negation of a comparison is the opposite comparison, and
      negating twice gives back a vector of 0/1 lanes. */
  lemma LogicalNotOfComparison(a: Vec, b: Vec)
    requires Arith.SameIntType(a, b)
    ensures LogicalNot(Arith.Eq(a, b)) == Arith.Ne(a, b)
    ensures LogicalNot(Arith.Lt(a, b)) == Arith.Ge(a, b)
    ensures LogicalNot(Arith.Gt(a, b)) == Arith.Le(a, b)
  {
    assert LogicalNot(Arith.Eq(a, b)).lanes == Arith.Ne(a, b).lanes;
    assert LogicalNot(Arith.Lt(a, b)).lanes == Arith.Ge(a, b).lanes;
    assert LogicalNot(Arith.Gt(a, b)).lanes == Arith.Le(a, b).lanes;
  }

  lemma LogicalNotTwice(v: Vec)
    requires IsBoolVec(v)
    requires forall i :: 0 <= i < v.shape.count ==> Extract(v, i) == 0 || Extract(v, i) == 1
    ensures LogicalNot(LogicalNot(v)) == v
  {
    var w := LogicalNot(v);
    var u := LogicalNot(w);
    forall i | 0 <= i < v.shape.count
      ensures u.lanes[i] == v.lanes[i]
    {
      assert Extract(u, i) != 0 <==> Extract(w, i) == 0;
      assert Extract(w, i) != 0 <==> Extract(v, i) == 0;
    }
    assert u.lanes == v.lanes;
  }
}
