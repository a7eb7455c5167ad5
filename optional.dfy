/** The optional value the converter uses for Python's `None`, and the
    map and filter-and-map over a sequence that its line and row loops
    perform. */
module Optional {

  datatype Option<+T> = None | Some(value: T) {

    /** The value as a sequence of at most one element. */
    function ToSeq(): (r: seq<T>)
      ensures Some? ==> r == [value]
      ensures None? ==> r == []
    {
      match this
      case Some(v) => [v]
      case None => []
    }
  }

  /** `f` applied to each element, in order. */
  function Map<X, Y>(xs: seq<X>, f: X -> Y): (ys: seq<Y>)
    ensures |ys| == |xs|
  {
    if xs == [] then [] else Map(xs[..|xs| - 1], f) + [f(xs[|xs| - 1])]
  }

  lemma MapSnoc<X, Y>(xs: seq<X>, i: nat, f: X -> Y)
    requires i < |xs|
    ensures Map(xs[..i + 1], f) == Map(xs[..i], f) + [f(xs[i])]
  {
    assert xs[..i + 1][..i] == xs[..i];
  }

  /** Element i of the map is `f` of element i. */
  lemma {:induction false} MapAt<X, Y>(xs: seq<X>, f: X -> Y, i: nat)
    requires i < |xs|
    ensures Map(xs, f)[i] == f(xs[i])
  {
    if i < |xs| - 1 {
      MapAt(xs[..|xs| - 1], f, i);
    }
  }

  /** Each element of the map is `f` of the element at the same place. */
  lemma MapAll<X, Y>(xs: seq<X>, f: X -> Y)
    ensures forall i :: 0 <= i < |xs| ==> Map(xs, f)[i] == f(xs[i])
  {
    forall i | 0 <= i < |xs|
      ensures Map(xs, f)[i] == f(xs[i])
    {
      MapAt(xs, f, i);
    }
  }

  /** The values `f` gives, in the order of the elements that give one. */
  function FilterMap<X, Y>(xs: seq<X>, f: X -> Option<Y>): (ys: seq<Y>)
    ensures |ys| <= |xs|
  {
    if xs == [] then [] else FilterMap(xs[..|xs| - 1], f) + f(xs[|xs| - 1]).ToSeq()
  }

  lemma FilterMapSnoc<X, Y>(xs: seq<X>, x: X, f: X -> Option<Y>)
    ensures FilterMap(xs + [x], f) == FilterMap(xs, f) + f(x).ToSeq()
  {
    assert (xs + [x])[..|xs|] == xs;
  }

  /** Filter-and-map works element by element: on a concatenation it gives
      the results for the first part followed by those for the second. */
  lemma {:induction false} FilterMapAppend<X, Y>(xs: seq<X>, zs: seq<X>, f: X -> Option<Y>)
    ensures FilterMap(xs + zs, f) == FilterMap(xs, f) + FilterMap(zs, f)
    decreases |zs|
  {
    if zs == [] {
      assert xs + zs == xs;
    } else {
      var init, last := zs[..|zs| - 1], zs[|zs| - 1];
      assert xs + zs == (xs + init) + [last];
      assert zs == init + [last];
      FilterMapSnoc(xs + init, last, f);
      FilterMapAppend(xs, init, f);
      FilterMapSnoc(init, last, f);
    }
  }

  /** Every value produced comes from some element. */
  lemma {:induction false} FilterMapFrom<X, Y>(xs: seq<X>, f: X -> Option<Y>, y: Y)
    requires y in FilterMap(xs, f)
    ensures exists i :: 0 <= i < |xs| && f(xs[i]) == Some(y)
  {
    var init, last := xs[..|xs| - 1], xs[|xs| - 1];
    if y in FilterMap(init, f) {
      FilterMapFrom(init, f, y);
      var i :| 0 <= i < |init| && f(init[i]) == Some(y);
      assert xs[i] == init[i];
    } else {
      assert f(xs[|xs| - 1]) == Some(y);
    }
  }

  /** Every value an element gives is produced. */
  lemma {:induction false} FilterMapTo<X, Y>(xs: seq<X>, f: X -> Option<Y>, i: nat)
    requires i < |xs| && f(xs[i]).Some?
    ensures f(xs[i]).value in FilterMap(xs, f)
  {
    var init := xs[..|xs| - 1];
    if i < |xs| - 1 {
      assert init[i] == xs[i];
      FilterMapTo(init, f, i);
    }
  }

  /** A value is produced exactly when some element gives it. */
  lemma FilterMapMember<X, Y>(xs: seq<X>, f: X -> Option<Y>, y: Y)
    ensures y in FilterMap(xs, f) <==> exists i :: 0 <= i < |xs| && f(xs[i]) == Some(y)
  {
    if y in FilterMap(xs, f) {
      FilterMapFrom(xs, f, y);
    }
    if exists i :: 0 <= i < |xs| && f(xs[i]) == Some(y) {
      var i :| 0 <= i < |xs| && f(xs[i]) == Some(y);
      FilterMapTo(xs, f, i);
    }
  }

  /** A property of every value the elements give is a property of every
      value produced. */
  lemma FilterMapKeeps<X, Y>(xs: seq<X>, f: X -> Option<Y>, p: Y -> bool)
    requires forall i :: 0 <= i < |xs| && f(xs[i]).Some? ==> p(f(xs[i]).value)
    ensures forall y :: y in FilterMap(xs, f) ==> p(y)
  {
    forall y | y in FilterMap(xs, f)
      ensures p(y)
    {
      FilterMapFrom(xs, f, y);
    }
  }
}
