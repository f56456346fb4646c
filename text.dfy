/** ASCII models of Python's `str.strip`, `str.lower` and `sorted` over strings. */
module Text {
  import opened Seqs

  /** Python's `str.isspace` restricted to ASCII: space, \t \n \v \f \r and
      the four separators U+001C..U+001F. */
  predicate IsSpace(c: char) {
    c == ' ' || ('\t' <= c <= '\r') || ('\U{1C}' <= c <= '\U{1F}')
  }

  /** No whitespace at either end. */
  predicate IsStripped(s: string) {
    s == [] || (!IsSpace(s[0]) && !IsSpace(s[|s| - 1]))
  }

  /** The number of whitespace characters at the start of `s`. */
  function LeadingSpaces(s: string): (n: nat)
    ensures n <= |s|
  {
    if s != [] && IsSpace(s[0]) then 1 + LeadingSpaces(s[1..]) else 0
  }

  /** LeadingSpaces counts the whole whitespace prefix and no more. */
  lemma {:induction false} LeadingSpacesSpec(s: string)
    ensures forall i :: 0 <= i < LeadingSpaces(s) ==> IsSpace(s[i])
    ensures LeadingSpaces(s) == |s| || !IsSpace(s[LeadingSpaces(s)])
  {
    if s != [] && IsSpace(s[0]) {
      LeadingSpacesSpec(s[1..]);
    }
  }

  /** The number of whitespace characters at the end of `s`. */
  function TrailingSpaces(s: string): (n: nat)
    ensures n <= |s|
  {
    if s != [] && IsSpace(s[|s| - 1]) then 1 + TrailingSpaces(s[..|s| - 1]) else 0
  }

  /** TrailingSpaces counts the whole whitespace suffix and no more. */
  lemma {:induction false} TrailingSpacesSpec(s: string)
    ensures forall i :: |s| - TrailingSpaces(s) <= i < |s| ==> IsSpace(s[i])
    ensures TrailingSpaces(s) == |s| || !IsSpace(s[|s| - TrailingSpaces(s) - 1])
  {
    if s != [] && IsSpace(s[|s| - 1]) {
      TrailingSpacesSpec(s[..|s| - 1]);
    }
  }

  /** `str.lstrip()`. */
  function StripStart(s: string): string {
    s[LeadingSpaces(s)..]
  }

  /** `str.rstrip()`. */
  function StripEnd(s: string): string {
    s[..|s| - TrailingSpaces(s)]
  }

  /** `str.strip()`. */
  function Strip(s: string): string {
    StripEnd(StripStart(s))
  }

  /** Strip yields the middle slice of `s` with no whitespace at either end;
      everything it cuts off is whitespace. */
  lemma StripSpec(s: string)
    ensures IsStripped(Strip(s))
    ensures exists i, j :: 0 <= i <= j <= |s| && Strip(s) == s[i..j]
                           && (forall k :: 0 <= k < i ==> IsSpace(s[k]))
                           && (forall k :: j <= k < |s| ==> IsSpace(s[k]))
  {
    var i := LeadingSpaces(s);
    LeadingSpacesSpec(s);
    var t := s[i..];
    TrailingSpacesSpec(t);
    var j := i + |t| - TrailingSpaces(t);
    assert t[..|t| - TrailingSpaces(t)] == s[i..j];
    assert forall k :: j <= k < |s| ==> s[k] == t[k - i];
  }

  /** A string with no space at either end is its own strip. */
  lemma StripStripped(s: string)
    requires IsStripped(s)
    ensures Strip(s) == s
  {
    assert LeadingSpaces(s) == 0;
    assert TrailingSpaces(s) == 0;
  }

  function LowerChar(c: char): (d: char)
    ensures !('A' <= d <= 'Z')
    ensures IsSpace(d) == IsSpace(c)
  {
    if 'A' <= c <= 'Z' then (c as int + 32) as char else c
  }

  predicate IsLower(s: string) {
    forall i :: 0 <= i < |s| ==> !('A' <= s[i] <= 'Z')
  }

  /** `str.lower()` on ASCII letters; every other character is kept. */
  function Lower(s: string): string {
    seq(|s|, i requires 0 <= i < |s| => LowerChar(s[i]))
  }

  /** Lower leaves no upper-case letter and keeps whitespace where it was. */
  lemma LowerSpec(s: string)
    ensures |Lower(s)| == |s|
    ensures IsLower(Lower(s))
    ensures IsStripped(s) ==> IsStripped(Lower(s))
  {
  }

  lemma LowerOfLower(s: string)
    requires IsLower(s)
    ensures Lower(s) == s
  {
    LowerSpec(s);
  }

  lemma StripLowerCommute(s: string)
    ensures Strip(Lower(s)) == Lower(Strip(s))
  {
    StripStartLower(s);
    StripEndLower(StripStart(s));
  }

  lemma StripStartLower(s: string)
    ensures StripStart(Lower(s)) == Lower(StripStart(s))
  {
    LeadingSpacesOfLower(s);
    LowerSlice(s, LeadingSpaces(s), |s|);
    assert s[LeadingSpaces(s)..|s|] == StripStart(s);
    assert Lower(s)[LeadingSpaces(s)..|s|] == StripStart(Lower(s));
  }

  lemma StripEndLower(s: string)
    ensures StripEnd(Lower(s)) == Lower(StripEnd(s))
  {
    TrailingSpacesOfLower(s);
    LowerSlice(s, 0, |s| - TrailingSpaces(s));
    assert s[0..|s| - TrailingSpaces(s)] == StripEnd(s);
    assert Lower(s)[0..|s| - TrailingSpaces(s)] == StripEnd(Lower(s));
  }

  lemma LowerSlice(s: string, i: nat, j: nat)
    requires i <= j <= |s|
    ensures Lower(s)[i..j] == Lower(s[i..j])
  {
  }

  lemma {:induction false} LeadingSpacesOfLower(s: string)
    ensures LeadingSpaces(Lower(s)) == LeadingSpaces(s)
  {
    if s != [] {
      assert Lower(s)[1..] == Lower(s[1..]);
      LeadingSpacesOfLower(s[1..]);
    }
  }

  lemma {:induction false} TrailingSpacesOfLower(s: string)
    ensures TrailingSpaces(Lower(s)) == TrailingSpaces(s)
  {
    if s != [] {
      assert Lower(s)[..|s| - 1] == Lower(s[..|s| - 1]);
      TrailingSpacesOfLower(s[..|s| - 1]);
    }
  }

  /** Python's `<=` on strings: lexicographic by code point. */
  predicate Below(a: string, b: string) {
    a == [] || (b != [] && (a[0] < b[0] || (a[0] == b[0] && Below(a[1..], b[1..]))))
  }

  lemma {:induction false} BelowReflexive(a: string)
    ensures Below(a, a)
  {
    if a != [] {
      BelowReflexive(a[1..]);
    }
  }

  lemma {:induction false} BelowTotal(a: string, b: string)
    ensures Below(a, b) || Below(b, a)
  {
    if a != [] && b != [] && a[0] == b[0] {
      BelowTotal(a[1..], b[1..]);
    }
  }

  lemma {:induction false} BelowAntisymmetric(a: string, b: string)
    requires Below(a, b) && Below(b, a)
    ensures a == b
  {
    if a != [] {
      BelowAntisymmetric(a[1..], b[1..]);
      assert a == [a[0]] + a[1..] && b == [b[0]] + b[1..];
    }
  }

  lemma {:induction false} BelowTransitive(a: string, b: string, c: string)
    requires Below(a, b) && Below(b, c)
    ensures Below(a, c)
  {
    if a != [] && a[0] == b[0] && b[0] == c[0] {
      BelowTransitive(a[1..], b[1..], c[1..]);
    }
  }

  predicate Sorted(s: seq<string>) {
    forall i, j :: 0 <= i < j < |s| ==> Below(s[i], s[j])
  }

  /** Ascending with no repeats. */
  predicate StrictlySorted(s: seq<string>) {
    forall i, j :: 0 <= i < j < |s| ==> Below(s[i], s[j]) && s[i] != s[j]
  }

  /** Inserts `x` before the first element it is below. */
  function Insert(s: seq<string>, x: string): (r: seq<string>)
    ensures multiset(r) == multiset(s) + multiset{x}
    ensures Sorted(s) ==> Sorted(r)
    ensures StrictlySorted(s) && x !in s ==> StrictlySorted(r)
  {
    if s == [] then [x]
    else if Below(x, s[0]) then
      InsertFront(s, x);
      [x] + s
    else
      var r := [s[0]] + Insert(s[1..], x);
      BelowTotal(x, s[0]);
      assert s == [s[0]] + s[1..];
      InsertBehind(s, x, r);
      r
  }

  lemma InsertFront(s: seq<string>, x: string)
    requires s != [] && Below(x, s[0])
    ensures Sorted(s) ==> Sorted([x] + s)
    ensures StrictlySorted(s) && x !in s ==> StrictlySorted([x] + s)
  {
    if Sorted(s) {
      forall j | 0 < j < |s| ensures Below(x, s[j]) {
        BelowTransitive(x, s[0], s[j]);
      }
    }
  }

  lemma InsertBehind(s: seq<string>, x: string, r: seq<string>)
    requires s != [] && Below(s[0], x)
    requires r == [s[0]] + Insert(s[1..], x)
    ensures Sorted(s) ==> Sorted(r)
    ensures StrictlySorted(s) && x !in s ==> StrictlySorted(r)
  {
    var tail := Insert(s[1..], x);
    InsertMembers(tail, s[1..], x);
    if Sorted(s) {
      InsertBehindSorted(s, x, tail);
    }
    if StrictlySorted(s) && x !in s {
      InsertBehindStrict(s, x, tail);
    }
  }

  /** A sequence holding `s` plus `x` holds nothing else. */
  lemma InsertMembers(r: seq<string>, s: seq<string>, x: string)
    requires multiset(r) == multiset(s) + multiset{x}
    ensures forall y :: y in r ==> y == x || y in s
  {
    forall y | y in r ensures y == x || y in s {
      assert y in multiset(r);
    }
  }

  lemma InsertBehindSorted(s: seq<string>, x: string, tail: seq<string>)
    requires s != [] && Below(s[0], x) && Sorted(s) && Sorted(tail)
    requires forall y :: y in tail ==> y == x || y in s[1..]
    ensures Sorted([s[0]] + tail)
  {
    assert forall y :: y in s[1..] ==> Below(s[0], y);
    assert forall k :: 0 <= k < |tail| ==> Below(s[0], tail[k]);
  }

  lemma InsertBehindStrict(s: seq<string>, x: string, tail: seq<string>)
    requires s != [] && Below(s[0], x) && StrictlySorted(s) && x !in s
    requires StrictlySorted(tail)
    requires forall y :: y in tail ==> y == x || y in s[1..]
    ensures StrictlySorted([s[0]] + tail)
  {
    assert s[0] != x by { assert s[0] in s; }
    assert forall y :: y in s[1..] ==> Below(s[0], y) && s[0] != y;
    assert forall k :: 0 <= k < |tail| ==> Below(s[0], tail[k]) && s[0] != tail[k] by {
      forall k | 0 <= k < |tail| ensures Below(s[0], tail[k]) && s[0] != tail[k] {
        assert tail[k] in tail;
      }
    }
  }

  /** Python's `sorted` on a list of strings (insertion sort). */
  function Sort(s: seq<string>): (r: seq<string>)
    ensures multiset(r) == multiset(s)
    ensures Sorted(r)
    ensures NoDup(s) ==> StrictlySorted(r)
  {
    if s == [] then []
    else
      var init := s[..|s| - 1];
      var last := s[|s| - 1];
      assert s == init + [last];
      var sortedInit := Sort(init);
      assert last in multiset(sortedInit) <==> last in multiset(init);
      Insert(sortedInit, last)
  }

  /** `sorted(xs.unique())`: every string of `xs` once, in ascending order. */
  function SortedUnique(xs: seq<string>): (r: seq<string>)
    ensures StrictlySorted(r)
    ensures forall x :: x in r <==> x in xs
  {
    var d := Distinct(xs);
    SortDistinct(d);
    Sort(d)
  }

  /** Sorting a list without repeats keeps its length and its elements and
      leaves it strictly ascending. */
  lemma SortDistinct(s: seq<string>)
    requires NoDup(s)
    ensures StrictlySorted(Sort(s))
    ensures |Sort(s)| == |s|
    ensures forall x :: x in Sort(s) <==> x in s
  {
    var r := Sort(s);
    assert |multiset(r)| == |multiset(s)|;
    assert forall x :: x in r <==> x in multiset(s);
  }
}
