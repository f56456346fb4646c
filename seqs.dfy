/** Column-level operations of a data frame, stated over sequences:
    mapping a column, boolean-mask filtering, `dropna` and `unique`. */
module Seqs {
  import opened Wrappers

  /** Applies `f` to every element, keeping positions. */
  function MapSeq<T, U>(s: seq<T>, f: T -> U): (r: seq<U>)
    ensures |r| == |s|
    ensures forall i :: 0 <= i < |s| ==> r[i] == f(s[i])
  {
    if s == [] then [] else MapSeq(s[..|s| - 1], f) + [f(s[|s| - 1])]
  }

  /** Keeps the elements satisfying `p`, in their original order
      (a boolean mask applied to the rows of a frame). */
  function Filter<T(==)>(s: seq<T>, p: T -> bool): (r: seq<T>)
    ensures |r| <= |s|
    ensures forall i :: 0 <= i < |r| ==> p(r[i])
    ensures forall x :: x in r ==> x in s && p(x)
    ensures forall x :: x in s && p(x) ==> x in r
  {
    if s == [] then []
    else
      var last := s[|s| - 1];
      var rest := Filter(s[..|s| - 1], p);
      assert s == s[..|s| - 1] + [last];
      if p(last) then rest + [last] else rest
  }

  /** Drops missing entries (`dropna` on one column). */
  function Present<T(==)>(cells: seq<Option<T>>): (r: seq<T>)
    ensures |r| <= |cells|
    ensures forall x :: x in r ==> Some(x) in cells
    ensures forall i :: 0 <= i < |cells| && cells[i].Some? ==> cells[i].value in r
  {
    if cells == [] then []
    else
      var rest := Present(cells[..|cells| - 1]);
      assert cells == cells[..|cells| - 1] + [cells[|cells| - 1]];
      match cells[|cells| - 1]
      case Some(x) => rest + [x]
      case None => rest
  }

  predicate NoDup<T(==)>(s: seq<T>) {
    forall i, j :: 0 <= i < j < |s| ==> s[i] != s[j]
  }

  /** The distinct elements in order of first appearance (pandas `unique`,
      `drop_duplicates` keeping the first occurrence). */
  function Distinct<T(==)>(s: seq<T>): (r: seq<T>)
    ensures NoDup(r)
    ensures forall x :: x in r ==> x in s
    ensures forall x :: x in s ==> x in r
    ensures |r| <= |s|
  {
    if s == [] then []
    else
      var last := s[|s| - 1];
      var rest := Distinct(s[..|s| - 1]);
      assert s == s[..|s| - 1] + [last];
      if last in rest then rest else rest + [last]
  }

  function Elements<T>(s: seq<T>): set<T> {
    set x | x in s
  }

  /** A duplicate-free sequence has as many elements as its set. */
  lemma {:induction false} NoDupCardinality<T>(s: seq<T>)
    requires NoDup(s)
    ensures |Elements(s)| == |s|
  {
    if s != [] {
      var init := s[..|s| - 1];
      var last := s[|s| - 1];
      assert NoDup(init);
      NoDupCardinality(init);
      assert s == init + [last];
      assert last !in init;
      assert Elements(s) == Elements(init) + {last};
    }
  }

  ghost predicate Increasing(idx: seq<nat>) {
    forall i, j :: 0 <= i < j < |idx| ==> idx[i] < idx[j]
  }

  /** `sub` is `s` restricted to the positions `idx`, taken in order. */
  ghost predicate SubsequenceAt<T>(sub: seq<T>, s: seq<T>, idx: seq<nat>) {
    && |idx| == |sub|
    && Increasing(idx)
    && forall k :: 0 <= k < |idx| ==> idx[k] < |s| && sub[k] == s[idx[k]]
  }

  lemma {:induction false} FilterConcat<T>(a: seq<T>, b: seq<T>, p: T -> bool)
    ensures Filter(a + b, p) == Filter(a, p) + Filter(b, p)
  {
    if b == [] {
      assert a + b == a;
    } else {
      var init := b[..|b| - 1];
      FilterConcat(a, init, p);
      assert (a + b)[..|a + b| - 1] == a + init;
    }
  }

  lemma {:induction false} MapConcat<T, U>(a: seq<T>, b: seq<T>, f: T -> U)
    ensures MapSeq(a + b, f) == MapSeq(a, f) + MapSeq(b, f)
  {
  }

  lemma FilterLast<T>(s: seq<T>, p: T -> bool)
    requires s != []
    ensures Filter(s, p) == if p(s[|s| - 1]) then Filter(s[..|s| - 1], p) + [s[|s| - 1]] else Filter(s[..|s| - 1], p)
  {
  }

  /** The positions that a filter keeps, in increasing order. */
  ghost function FilterIndices<T>(s: seq<T>, p: T -> bool): (idx: seq<nat>)
    ensures forall k :: 0 <= k < |idx| ==> idx[k] < |s|
  {
    if s == [] then []
    else
      var rest := FilterIndices(s[..|s| - 1], p);
      if p(s[|s| - 1]) then rest + [|s| - 1] else rest
  }

  /** The filter is stable: it is its input restricted to FilterIndices. */
  lemma {:induction false} FilterIsSubsequence<T>(s: seq<T>, p: T -> bool)
    ensures SubsequenceAt(Filter(s, p), s, FilterIndices(s, p))
  {
    if s != [] {
      var n := |s| - 1;
      FilterIsSubsequence(s[..n], p);
      FilterLast(s, p);
    }
  }

  /** The filter keeps exactly the positions whose element satisfies `p`. */
  lemma {:induction false} FilterIndicesExact<T>(s: seq<T>, p: T -> bool)
    ensures forall i :: 0 <= i < |s| ==> (i in FilterIndices(s, p) <==> p(s[i]))
  {
    if s != [] {
      var n := |s| - 1;
      FilterIndicesExact(s[..n], p);
      var rest := FilterIndices(s[..n], p);
      assert n !in rest;
      forall i | 0 <= i < n
        ensures i in FilterIndices(s, p) <==> p(s[i])
      {
        assert s[i] == s[..n][i];
      }
    }
  }

  /** Filtering a sequence whose elements all pass changes nothing. */
  lemma {:induction false} FilterKeepsAll<T>(s: seq<T>, p: T -> bool)
    requires forall i :: 0 <= i < |s| ==> p(s[i])
    ensures Filter(s, p) == s
  {
    if s != [] {
      FilterKeepsAll(s[..|s| - 1], p);
    }
  }

  /** Applying the same mask twice is the same as applying it once. */
  lemma FilterIdempotent<T>(s: seq<T>, p: T -> bool)
    ensures Filter(Filter(s, p), p) == Filter(s, p)
  {
    FilterKeepsAll(Filter(s, p), p);
  }

  /** Two masks that agree on every element select the same rows. */
  lemma {:induction false} FilterAgree<T>(s: seq<T>, p: T -> bool, q: T -> bool)
    requires forall i :: 0 <= i < |s| ==> p(s[i]) == q(s[i])
    ensures Filter(s, p) == Filter(s, q)
  {
    if s != [] {
      FilterAgree(s[..|s| - 1], p, q);
    }
  }

  /** One more input element to a map-filter-map-map-filter pipeline adds
      its image exactly when it passes both filters. */
  lemma PipelineLast<A, B, C, D>(init: seq<A>, x: A, f: A -> B, p: B -> bool, g: B -> C, h: C -> D, q: D -> bool)
    ensures Filter(MapSeq(MapSeq(Filter(MapSeq(init + [x], f), p), g), h), q)
         == Filter(MapSeq(MapSeq(Filter(MapSeq(init, f), p), g), h), q)
          + (if p(f(x)) && q(h(g(f(x)))) then [h(g(f(x)))] else [])
  {
    var s := init + [x];
    assert s[..|s| - 1] == init;
    var m0 := MapSeq(init, f);
    assert MapSeq(s, f) == m0 + [f(x)];
    var f0 := Filter(m0, p);
    var fTail := if p(f(x)) then [f(x)] else [];
    FilterConcat(m0, [f(x)], p);
    MapConcat(f0, fTail, g);
    var g0 := MapSeq(f0, g);
    var gTail := MapSeq(fTail, g);
    MapConcat(g0, gTail, h);
    FilterConcat(MapSeq(g0, h), MapSeq(gTail, h), q);
  }

  /** Mapping after a filter: the k-th result is the image of the input at
      the k-th kept position, and a position is kept exactly when it passes. */
  lemma MapFilterTracksInput<T, U>(s: seq<T>, p: T -> bool, f: T -> U)
    ensures var out := MapSeq(Filter(s, p), f);
            var idx := FilterIndices(s, p);
            && |out| == |idx| <= |s|
            && Increasing(idx)
            && (forall k :: 0 <= k < |idx| ==> idx[k] < |s| && out[k] == f(s[idx[k]]))
            && (forall i :: 0 <= i < |s| ==> (i in idx <==> p(s[i])))
  {
    FilterIsSubsequence(s, p);
    FilterIndicesExact(s, p);
  }

  /** The positions where a value occurs for the first time, in increasing order. */
  ghost function FirstIndices<T>(s: seq<T>): (idx: seq<nat>)
    ensures forall k :: 0 <= k < |idx| ==> idx[k] < |s|
  {
    if s == [] then []
    else
      var n := |s| - 1;
      var rest := FirstIndices(s[..n]);
      if s[n] in s[..n] then rest else rest + [n]
  }

  /** A selection from a sequence stays one when the sequence grows, and
      selecting the new last element extends it. */
  lemma SubsequenceSnoc<T>(sub: seq<T>, s: seq<T>, idx: seq<nat>, x: T)
    requires SubsequenceAt(sub, s, idx)
    ensures SubsequenceAt(sub, s + [x], idx)
    ensures SubsequenceAt(sub + [x], s + [x], idx + [|s|])
  {
  }

  /** `unique` keeps the first occurrence of each value, in input order: its
      result is the input restricted to the first-occurrence positions. */
  lemma {:induction false} DistinctKeepsFirstOccurrences<T>(s: seq<T>)
    ensures SubsequenceAt(Distinct(s), s, FirstIndices(s))
  {
    if s != [] {
      var n := |s| - 1;
      var init := s[..n];
      DistinctKeepsFirstOccurrences(init);
      assert init + [s[n]] == s;
      SubsequenceSnoc(Distinct(init), init, FirstIndices(init), s[n]);
    }
  }

  /** A position is a first-occurrence position exactly when its value does
      not occur earlier. */
  lemma {:induction false} FirstIndicesExact<T>(s: seq<T>, i: nat)
    requires i < |s|
    ensures i in FirstIndices(s) <==> s[i] !in s[..i]
  {
    var n := |s| - 1;
    var init := s[..n];
    var rest := FirstIndices(init);
    assert n !in rest;
    if i < n {
      FirstIndicesExact(init, i);
      assert s[i] == init[i] && s[..i] == init[..i];
    }
  }
}
