/** Construction and lane access, shared by the integer vectors
    (`basic_impls`) and the boolean vectors (`bool_impls`): `new`, `splat`,
    `extract`, `replace`, `load` and `store`.  Lane `idx` of the packed
    tuple is modelled as element `idx` of the lane sequence. */
module Access {
  import opened Lane
  import opened Shapes

  /** `T::new(x0, .., xN-1)`: lane i is the i-th argument. */
  function New(t: Shape, xs: seq<int>): (v: Vec)
    requires t.Declared() && |xs| == t.count
    requires forall i :: 0 <= i < |xs| ==> InRange(t.Elem(), xs[i])
    ensures v.Valid() && v.shape == t
    ensures forall i :: 0 <= i < t.count ==> Extract(v, i) == xs[i]
  {
    Vec(t, xs)
  }

  /** `T::splat(x)`: every lane holds x. */
  function Splat(t: Shape, x: int): (v: Vec)
    requires t.Declared() && InRange(t.Elem(), x)
    ensures v.Valid() && v.shape == t
    ensures forall i :: 0 <= i < t.count ==> Extract(v, i) == x
  {
    Vec(t, seq(t.count, _ => x))
  }

  /** `v.extract(idx)`; the source asserts idx < N and panics otherwise. */
  function Extract(v: Vec, idx: nat): (x: int)
    requires v.Valid() && idx < v.shape.count
    ensures InRange(v.shape.Elem(), x)
  {
    v.lanes[idx]
  }

  /** `v.replace(idx, x)`: a copy of v whose lane idx is x; the source
      asserts idx < N and panics otherwise. */
  function Replace(v: Vec, idx: nat, x: int): (r: Vec)
    requires v.Valid() && idx < v.shape.count && InRange(v.shape.Elem(), x)
    ensures r.Valid() && r.shape == v.shape
    ensures Extract(r, idx) == x
    ensures forall j :: 0 <= j < v.shape.count && j != idx ==> Extract(r, j) == Extract(v, j)
  {
    Vec(v.shape, v.lanes[idx := x])
  }

  /** `T::load(a, idx)`: lane k is a[idx + k]; indexing the slice panics
      unless idx + N <= |a|. */
  function Load(t: Shape, a: seq<int>, idx: nat): (v: Vec)
    requires t.Declared() && idx + t.count <= |a|
    requires forall j :: idx <= j < idx + t.count ==> InRange(t.Elem(), a[j])
    ensures v.Valid() && v.shape == t
    ensures forall k :: 0 <= k < t.count ==> Extract(v, k) == a[idx + k]
  {
    Vec(t, a[idx..idx + t.count])
  }

  /** The contents of a buffer after `v.store(a, idx)`: the N lanes of v
      at idx .. idx + N, every other element as before. */
  function Stored(a: seq<int>, v: Vec, idx: nat): (r: seq<int>)
    requires v.Valid() && idx + v.shape.count <= |a|
    ensures |r| == |a|
    ensures forall j :: 0 <= j < |a| && !(idx <= j < idx + v.shape.count) ==> r[j] == a[j]
    ensures forall k :: 0 <= k < v.shape.count ==> r[idx + k] == Extract(v, k)
  {
    a[..idx] + v.lanes + a[idx + v.shape.count..]
  }

  /** `v.store(a, idx)`: writes lane k to a[idx + k], one lane at a time. */
  method Store(v: Vec, a: array<int>, idx: nat)
    requires v.Valid() && idx + v.shape.count <= a.Length
    modifies a
    ensures a[..] == Stored(old(a[..]), v, idx)
  {
    var k := 0;
    while k < v.shape.count
      invariant 0 <= k <= v.shape.count
      invariant forall j :: 0 <= j < a.Length && !(idx <= j < idx + k) ==> a[j] == old(a[j])
      invariant forall j :: 0 <= j < k ==> a[idx + j] == v.lanes[j]
    {
      a[idx + k] := v.lanes[k];
      k := k + 1;
    }
    assert a[..] == Stored(old(a[..]), v, idx);
  }

  /** Loading at idx after storing v at idx gives back v. */
  lemma LoadAfterStore(a: seq<int>, v: Vec, idx: nat)
    requires v.Valid() && idx + v.shape.count <= |a|
    ensures Load(v.shape, Stored(a, v, idx), idx) == v
  {
    var r := Load(v.shape, Stored(a, v, idx), idx);
    assert r.lanes == v.lanes;
  }

  /** Storing what was just loaded leaves the buffer as it was. */
  lemma StoreAfterLoad(t: Shape, a: seq<int>, idx: nat)
    requires t.Declared() && idx + t.count <= |a|
    requires forall j :: idx <= j < idx + t.count ==> InRange(t.Elem(), a[j])
    ensures Stored(a, Load(t, a, idx), idx) == a
  {
    var r := Stored(a, Load(t, a, idx), idx);
    assert forall j :: 0 <= j < |a| ==> r[j] == a[j] by {
      forall j | 0 <= j < |a|
        ensures r[j] == a[j]
      {
        if idx <= j < idx + t.count {
          assert r[idx + (j - idx)] == a[idx + (j - idx)];
        }
      }
    }
  }

  /** Replacing a lane by its own value changes nothing, and a second
      replace of the same lane overrides the first. */
  lemma ReplaceExtract(v: Vec, idx: nat, x: int, y: int)
    requires v.Valid() && idx < v.shape.count
    requires InRange(v.shape.Elem(), x) && InRange(v.shape.Elem(), y)
    ensures Replace(v, idx, Extract(v, idx)) == v
    ensures Replace(Replace(v, idx, x), idx, y) == Replace(v, idx, y)
  {
    assert Replace(v, idx, Extract(v, idx)).lanes == v.lanes;
    assert Replace(Replace(v, idx, x), idx, y).lanes == Replace(v, idx, y).lanes;
  }
}
