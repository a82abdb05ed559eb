/** Sorted integer sequences: what `sort.Ints` and `sort.Search` deliver. */
module Sorting {

  predicate Sorted(s: seq<int>) { forall i, j :: 0 <= i < j < |s| ==> s[i] <= s[j] }

  predicate StrictlySorted(s: seq<int>) { forall i, j :: 0 <= i < j < |s| ==> s[i] < s[j] }

  function Insert(s: seq<int>, x: int): (r: seq<int>)
    requires Sorted(s)
    ensures Sorted(r) && multiset(r) == multiset(s) + multiset{x}
  {
    if s == [] || x <= s[0] then [x] + s
    else
      var rest := Insert(s[1..], x);
      InsertedBehind(rest, s, x);
      [s[0]] + rest
  }

  lemma InsertedBehind(r: seq<int>, s: seq<int>, x: int)
    requires Sorted(s) && s != [] && s[0] <= x && Sorted(r) && multiset(r) == multiset(s[1..]) + multiset{x}
    ensures Sorted([s[0]] + r) && multiset([s[0]] + r) == multiset(s) + multiset{x}
  {
    InsertedAbove(r, s, x);
    DropHead(s);
    hide Sorted;
    SortedBehind(s[0], r);
  }

  lemma SortedBehind(x: int, r: seq<int>)
    requires Sorted(r) && forall i :: 0 <= i < |r| ==> x <= r[i]
    ensures Sorted([x] + r)
  {
  }

  lemma InsertedAbove(r: seq<int>, s: seq<int>, x: int)
    requires Sorted(s) && s != [] && s[0] <= x && multiset(r) == multiset(s[1..]) + multiset{x}
    ensures forall i :: 0 <= i < |r| ==> s[0] <= r[i]
  {
    forall i | 0 <= i < |r|
      ensures s[0] <= r[i]
    {
      assert r[i] in multiset(r);
      assert r[i] == x || r[i] in s[1..];
    }
  }

  /** `sort.Ints`. */
  function Sort(s: seq<int>): (r: seq<int>)
    ensures Sorted(r) && multiset(r) == multiset(s)
  {
    if s == [] then []
    else
      assert s == s[..|s| - 1] + [s[|s| - 1]];
      Insert(Sort(s[..|s| - 1]), s[|s| - 1])
  }

  lemma HeadIsLeast(s: seq<int>, t: seq<int>)
    requires Sorted(s) && s != [] && t != [] && multiset(s) == multiset(t)
    ensures s[0] <= t[0]
  {
    assert t[0] in multiset(s);
  }

  lemma DropHead(s: seq<int>)
    requires s != []
    ensures multiset(s[1..]) == multiset(s) - multiset{s[0]}
  {
    assert s == [s[0]] + s[1..];
  }

  /** A sorted sequence is determined by its elements. */
  lemma {:induction false} SortedIsUnique(s: seq<int>, t: seq<int>)
    requires Sorted(s) && Sorted(t) && multiset(s) == multiset(t)
    ensures s == t
  {
    assert |s| == |multiset(s)| && |t| == |multiset(t)|;
    if s != [] {
      HeadIsLeast(s, t);
      HeadIsLeast(t, s);
      DropHead(s);
      DropHead(t);
      SortedIsUnique(s[1..], t[1..]);
      assert s == [s[0]] + s[1..] && t == [t[0]] + t[1..];
    }
  }

  predicate Distinct(s: seq<int>) { forall i, j :: 0 <= i < j < |s| ==> s[i] != s[j] }

  lemma {:induction false} DistinctCounts(s: seq<int>)
    requires Distinct(s)
    ensures forall x :: multiset(s)[x] == if x in s then 1 else 0
  {
    if s != [] {
      assert s == [s[0]] + s[1..];
      DistinctCounts(s[1..]);
    }
  }

  lemma TwiceCounts(s: seq<int>, i: nat, j: nat)
    requires i < j < |s| && s[i] == s[j]
    ensures multiset(s)[s[i]] >= 2
  {
    var front, back := s[..j], s[j..];
    assert s == front + back && front[i] == s[i] && back[0] == s[i];
  }

  /** A sequence has no repeated element exactly when no element counts twice. */
  lemma DistinctIffNoRepeats(s: seq<int>)
    ensures Distinct(s) <==> forall x :: multiset(s)[x] <= 1
  {
    if Distinct(s) {
      DistinctCounts(s);
    } else {
      var i, j :| 0 <= i < j < |s| && s[i] == s[j];
      TwiceCounts(s, i, j);
    }
  }

  lemma StrictIsUnique(s: seq<int>, t: seq<int>)
    requires StrictlySorted(s) && StrictlySorted(t) && forall x :: x in s <==> x in t
    ensures s == t
  {
    DistinctCounts(s);
    DistinctCounts(t);
    assert multiset(s) == multiset(t);
    SortedIsUnique(s, t);
  }

  /** `sort.SearchInts`: the first position holding at least `x`. */
  method SearchInts(s: seq<int>, x: int) returns (idx: nat)
    requires Sorted(s)
    ensures idx == LowerBound(s, x)
  {
    var i, j := 0, |s|;
    while i < j
      invariant 0 <= i <= j <= |s|
      invariant forall k :: 0 <= k < i ==> s[k] < x
      invariant forall k :: j <= k < |s| ==> s[k] >= x
    {
      var h := (i + j) / 2;
      if s[h] >= x {
        j := h;
      } else {
        i := h + 1;
      }
    }
    LowerBoundUnique(s, x, i);
    idx := i;
  }

  /** The number of elements below `x` at the front of the sequence. */
  function LowerBound(s: seq<int>, x: int): (idx: nat)
    ensures idx <= |s| && (forall k :: 0 <= k < idx ==> s[k] < x) && (idx < |s| ==> s[idx] >= x)
  {
    if s == [] || s[0] >= x then 0
    else
      var rest := LowerBound(s[1..], x);
      assert forall k :: 0 < k < |s| ==> s[k] == s[1..][k - 1];
      rest + 1
  }

  lemma LowerBoundUnique(s: seq<int>, x: int, i: nat)
    requires i <= |s| && (forall k :: 0 <= k < i ==> s[k] < x) && (i < |s| ==> s[i] >= x)
    ensures LowerBound(s, x) == i
  {
  }
}
