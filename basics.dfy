/** An optional value and the three traversals that the extractor and the classifier are built
 *  from: keep the images of the elements a function selects (a loop that appends), take the union
 *  of per-element sets (a loop that updates a set), and take the first element a function
 *  selects (a loop with an early return). */
module Basics {

  datatype Option<+T> = None | Some(value: T)

  /** The list an optional value contributes when it is appended only if present. */
  function Keep<T>(o: Option<T>): (r: seq<T>)
    ensures |r| <= 1
  {
    match o
    case None => []
    case Some(v) => [v]
  }

  /** A prefix one longer is the prefix and the next element. */
  lemma PrefixSnoc<T>(xs: seq<T>, i: nat)
    requires i < |xs|
    ensures xs[..i + 1] == xs[..i] + [xs[i]]
  {
  }

  /** A slice of the tail is a slice of the sequence, shifted by one. */
  lemma TailSlice<T>(xs: seq<T>, a: nat, b: nat)
    requires 1 <= a <= b <= |xs|
    ensures xs[1..][a - 1..b - 1] == xs[a..b]
  {
  }

  /** The images under `f` of the elements `f` selects, in the order of `xs`. */
  function FilterMap<A, B>(xs: seq<A>, f: A -> Option<B>): (ys: seq<B>)
    ensures |ys| <= |xs|
  {
    if xs == [] then [] else FilterMap(xs[..|xs| - 1], f) + Keep(f(xs[|xs| - 1]))
  }

  /** Selecting over a concatenation selects over each part: the selection is independent of how
      the input is split into batches. */
  lemma {:induction false} FilterMapAppend<A, B>(xs: seq<A>, ys: seq<A>, f: A -> Option<B>)
    ensures FilterMap(xs + ys, f) == FilterMap(xs, f) + FilterMap(ys, f)
    decreases |ys|
  {
    if ys == [] {
      assert xs + ys == xs;
    } else {
      var init := ys[..|ys| - 1];
      assert (xs + ys)[..|xs + ys| - 1] == xs + init;
      assert (xs + ys)[|xs + ys| - 1] == ys[|ys| - 1];
      FilterMapAppend(xs, init, f);
    }
  }

  /** One more element contributes its own selection: the step of a loop that appends. */
  lemma FilterMapSnoc<A, B>(xs: seq<A>, x: A, f: A -> Option<B>)
    ensures FilterMap(xs + [x], f) == FilterMap(xs, f) + Keep(f(x))
  {
    assert (xs + [x])[..|xs|] == xs;
  }

  /** `idx` lists, in increasing order, the positions of `xs` whose selections make up `ys`. */
  ghost predicate SelectedAt<A, B>(xs: seq<A>, f: A -> Option<B>, ys: seq<B>, idx: seq<nat>)
  {
    && |idx| == |ys|
    && (forall k :: 0 <= k < |idx| ==> idx[k] < |xs| && f(xs[idx[k]]) == Some(ys[k]))
    && (forall k, l :: 0 <= k < l < |idx| ==> idx[k] < idx[l])
    && (forall i :: 0 <= i < |xs| && f(xs[i]).Some? ==> i in idx)
  }

  /** The selection is a subsequence of the input: every output comes from a selected input
      element, in increasing input position, and every selected element is output. */
  lemma {:induction false} FilterMapIndices<A, B>(xs: seq<A>, f: A -> Option<B>) returns (idx: seq<nat>)
    ensures SelectedAt(xs, f, FilterMap(xs, f), idx)
  {
    if xs == [] {
      idx := [];
    } else {
      var n := |xs| - 1;
      var prev := FilterMapIndices(xs[..n], f);
      idx := SelectedAtSnoc(xs[..n], xs[n], f, FilterMap(xs[..n], f), prev);
      assert xs[..n] + [xs[n]] == xs;
    }
  }

  lemma SelectedAtSnoc<A, B>(xs: seq<A>, x: A, f: A -> Option<B>, ys: seq<B>, prev: seq<nat>) returns (idx: seq<nat>)
    requires SelectedAt(xs, f, ys, prev)
    ensures SelectedAt(xs + [x], f, ys + Keep(f(x)), idx)
  {
    var all := xs + [x];
    assert forall i :: 0 <= i < |xs| ==> all[i] == xs[i];
    if f(x).Some? {
      idx := prev + [|xs|];
      assert all[|xs|] == x;
    } else {
      idx := prev;
    }
  }

  lemma {:induction false} FilterMapMember<A, B>(xs: seq<A>, f: A -> Option<B>, y: B)
    ensures y in FilterMap(xs, f) <==> exists i :: 0 <= i < |xs| && f(xs[i]) == Some(y)
  {
    var idx := FilterMapIndices(xs, f);
    var ys := FilterMap(xs, f);
    assert SelectedAt(xs, f, ys, idx);
    if y in ys {
      var k :| 0 <= k < |ys| && ys[k] == y;
      assert f(xs[idx[k]]) == Some(y);
    }
    if i :| 0 <= i < |xs| && f(xs[i]) == Some(y) {
      assert i in idx;
      var k :| 0 <= k < |idx| && idx[k] == i;
      assert ys[k] == y;
    }
  }

  lemma {:induction false} FilterMapEmpty<A, B>(xs: seq<A>, f: A -> Option<B>)
    ensures FilterMap(xs, f) == [] <==> forall i :: 0 <= i < |xs| ==> f(xs[i]).None?
  {
    if xs != [] {
      var n := |xs| - 1;
      FilterMapEmpty(xs[..n], f);
      assert forall i :: 0 <= i < n ==> xs[..n][i] == xs[i];
    }
  }

  /** The union of the sets `f` gives for the elements of `xs`. */
  function UnionMap<A, B>(xs: seq<A>, f: A -> set<B>): set<B>
  {
    if xs == [] then {} else UnionMap(xs[..|xs| - 1], f) + f(xs[|xs| - 1])
  }

  /** One more element contributes its own set: the step of a loop that updates a set. */
  lemma UnionMapSnoc<A, B>(xs: seq<A>, x: A, f: A -> set<B>)
    ensures UnionMap(xs + [x], f) == UnionMap(xs, f) + f(x)
    ensures f(x) == {} ==> UnionMap(xs + [x], f) == UnionMap(xs, f)
  {
    assert (xs + [x])[..|xs|] == xs;
  }

  lemma {:induction false} UnionMapMember<A, B>(xs: seq<A>, f: A -> set<B>, y: B)
    ensures y in UnionMap(xs, f) <==> exists i :: 0 <= i < |xs| && y in f(xs[i])
  {
    if xs != [] {
      var n := |xs| - 1;
      UnionMapMember(xs[..n], f, y);
      assert forall i :: 0 <= i < n ==> xs[..n][i] == xs[i];
      if y in UnionMap(xs[..n], f) {
        var i :| 0 <= i < n && y in f(xs[..n][i]);
        assert y in f(xs[i]);
      }
    }
  }

  lemma {:induction false} UnionMapAppend<A, B>(xs: seq<A>, ys: seq<A>, f: A -> set<B>)
    ensures UnionMap(xs + ys, f) == UnionMap(xs, f) + UnionMap(ys, f)
    decreases |ys|
  {
    if ys == [] {
      assert xs + ys == xs;
    } else {
      var init := ys[..|ys| - 1];
      assert (xs + ys)[..|xs + ys| - 1] == xs + init;
      assert (xs + ys)[|xs + ys| - 1] == ys[|ys| - 1];
      UnionMapAppend(xs, init, f);
    }
  }

  /** The image of the first element `f` selects: a scan that returns at the first hit. */
  function FirstSome<A, B>(xs: seq<A>, f: A -> Option<B>): (r: Option<B>)
    ensures r.None? <==> forall i :: 0 <= i < |xs| ==> f(xs[i]).None?
    ensures r.Some? ==> exists k :: 0 <= k < |xs| && f(xs[k]) == r && forall j :: 0 <= j < k ==> f(xs[j]).None?
  {
    if xs == [] then None
    else if f(xs[0]).Some? then f(xs[0])
    else
      var r := FirstSome(xs[1..], f);
      assert forall i :: 1 <= i < |xs| ==> xs[1..][i - 1] == xs[i];
      r
  }

  /** When the hit at position `k` is the first one, the scan returns it. */
  lemma FirstSomeAt<A, B>(xs: seq<A>, f: A -> Option<B>, k: nat)
    requires k < |xs| && f(xs[k]).Some?
    requires forall j :: 0 <= j < k ==> f(xs[j]).None?
    ensures FirstSome(xs, f) == f(xs[k])
  {
    var r := FirstSome(xs, f);
    var k' :| 0 <= k' < |xs| && f(xs[k']) == r && forall j :: 0 <= j < k' ==> f(xs[j]).None?;
    assert k' == k;
  }
}
