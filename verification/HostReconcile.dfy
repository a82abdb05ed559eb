/**
 * Bringing a prefix's host list in line with what service discovery reports: REMOVE_HOSTS followed by one ADD_HOST a
 * child. The round-robin balancer deletes in place, in the array that the REMOVE_HOSTS loop is ranging over.
 */
module HostReconcile {
  import opened Text
  import opened RoundRobin

  lemma SplicedOut(b: seq<string>, a: seq<string>, i: nat, len: nat)
    requires i < len <= |a| == |b|
    requires forall j :: 0 <= j < i ==> b[j] == a[j]
    requires forall j :: i <= j < len - 1 ==> b[j] == a[j + 1]
    requires forall j :: len - 1 <= j < |a| ==> b[j] == a[j]
    ensures b == a[..i] + a[i + 1..len] + a[len - 1..]
  {
  }

  /**
   * `append(hosts[:i], hosts[i+1:]...)` on the slice `a[..len]`: later hosts move down, the last place keeps its
   * value.
   */
  method ShiftDown(a: array<string>, i: nat, len: nat)
    requires i < len <= a.Length
    modifies a
    ensures a[..] == old(a[..i] + a[i + 1..len] + a[len - 1..])
  {
    var k := i;
    while k < len - 1
      invariant i <= k <= len - 1
      invariant forall j :: 0 <= j < i ==> a[j] == old(a[j])
      invariant forall j :: i <= j < k ==> a[j] == old(a[j + 1])
      invariant forall j :: k <= j < a.Length ==> a[j] == old(a[j])
    {
      a[k] := a[k + 1];
      k := k + 1;
    }
    SplicedOut(a[..], old(a[..]), i, len);
  }

  /** RoundRobin.Remove on the slice `a[..len]`. */
  method RemoveInPlace(a: array<string>, len: nat, host: string) returns (len': nat)
    requires len <= a.Length
    modifies a
    ensures a[..] == ShiftedOut(old(a[..]), len, host) && len' == if host in old(a[..len]) then len - 1 else len
  {
    for i := 0 to len
      invariant forall j :: 0 <= j < i ==> a[j] != host
      invariant a[..] == old(a[..])
    {
      if a[i] == host {
        FirstAt(a[..len], i);
        ShiftDown(a, i, len);
        return len - 1;
      }
    }
    return len;
  }

  /** Position of the first occurrence. */
  function First(s: seq<string>, x: string): (i: nat)
    requires x in s
    ensures i < |s| && s[i] == x && forall j :: 0 <= j < i ==> s[j] != x
  {
    if s[0] == x then 0 else First(s[1..], x) + 1
  }

  lemma FirstAt(s: seq<string>, i: nat)
    requires i < |s| && forall j :: 0 <= j < i ==> s[j] != s[i]
    ensures First(s, s[i]) == i
  {
  }

  /** The array after the first `host` among its first `len` places has been overwritten by its successors. */
  function ShiftedOut(a: seq<string>, len: nat, host: string): (b: seq<string>)
    requires len <= |a|
    ensures |b| == |a|
  {
    if host !in a[..len] then a
    else var i := First(a[..len], host); a[..i] + a[i + 1..len] + a[len - 1..]
  }

  predicate Departs(children: set<string>, host: string) { host !in children }

  /** The hosts passed over by a loop that looks at host `q` next: removing a host hides its successor from it. */
  function Scan(h: seq<string>, children: set<string>, q: nat): seq<string>
    decreases |h| - q
  {
    if q >= |h| then []
    else if Departs(children, h[q]) then (if q + 1 < |h| then [h[q + 1]] else []) + Scan(h, children, q + 2)
    else [h[q]] + Scan(h, children, q + 1)
  }

  /**
   * The hosts a loop leaves in the list that looks at host `q` of `h` next and has the hosts `s` behind it: a departing
   * host is removed at its first place, and the next one moves behind the loop unseen.
   */
  function Onwards(h: seq<string>, children: set<string>, q: nat, s: seq<string>): seq<string>
    decreases |h| - q
  {
    if q >= |h| then s
    else if Departs(children, h[q]) then
      Onwards(h, children, q + 2, RemoveFirst(s + [h[q]], h[q]) + if q + 1 < |h| then [h[q + 1]] else [])
    else Onwards(h, children, q + 1, s + [h[q]])
  }

  /** The list without any copy of `x`. */
  function Without(s: seq<string>, x: string): seq<string> {
    if s == [] then [] else (if s[0] == x then [] else [s[0]]) + Without(s[1..], x)
  }

  function Last(h: seq<string>): string
    requires h != []
  {
    h[|h| - 1]
  }

  /**
   * What REMOVE_HOSTS really leaves. Behind the list the array repeats its last host, so that the tail of the loop
   * removes every copy of that host if it departs.
   */
  function LeftBehind(h: seq<string>, children: set<string>): seq<string> {
    var s := Onwards(h, children, 0, []);
    if h != [] && Departs(children, Last(h)) then Without(s, Last(h)) else s
  }

  // ---------------------------------------------------------------- counting hosts

  /** `Share` counts how often a host is listed. */
  lemma {:induction false} SharePositive(hosts: seq<string>, x: string)
    ensures Share(hosts, x) > 0 <==> x in hosts
  {
    if hosts != [] {
      SharePositive(hosts[1..], x);
      assert hosts == [hosts[0]] + hosts[1..];
    }
  }

  lemma ShareOfOne(h: string, x: string)
    ensures Share([h], x) == if h == x then 1 else 0
  {
    assert [h][1..] == [];
  }

  lemma {:induction false} RemoveFirstShare(hosts: seq<string>, x: string, y: string)
    ensures Share(RemoveFirst(hosts, x), y)
         == if x == y && Share(hosts, y) > 0 then Share(hosts, y) - 1 else Share(hosts, y)
  {
    if hosts != [] && hosts[0] != x {
      RemoveFirstShare(hosts[1..], x, y);
      assert RemoveFirst(hosts, x)[1..] == RemoveFirst(hosts[1..], x);
    }
  }

  lemma {:induction false} WithoutShare(s: seq<string>, x: string, y: string)
    ensures Share(Without(s, x), y) == if x == y then 0 else Share(s, y)
  {
    if s != [] {
      WithoutShare(s[1..], x, y);
      ShareOfBoth(if s[0] == x then [] else [s[0]], Without(s[1..], x), y);
      ShareOfOne(s[0], y);
    }
  }

  lemma {:induction false} WithoutAbsent(s: seq<string>, x: string)
    requires Share(s, x) == 0
    ensures Without(s, x) == s
  {
    if s != [] {
      WithoutAbsent(s[1..], x);
      assert [s[0]] + s[1..] == s;
    }
  }

  lemma {:induction false} WithoutRemoved(s: seq<string>, x: string)
    ensures Without(RemoveFirst(s, x), x) == Without(s, x)
  {
    if s != [] && s[0] != x {
      WithoutRemoved(s[1..], x);
      assert RemoveFirst(s, x)[1..] == RemoveFirst(s[1..], x);
    }
  }

  // ---------------------------------------------------------------- the loop

  /** What the loop has behind it after looking at host `q`. */
  function Behind(h: seq<string>, children: set<string>, q: nat, s: seq<string>): seq<string>
    requires q < |h|
  {
    if Departs(children, h[q]) then RemoveFirst(s + [h[q]], h[q]) + if q + 1 < |h| then [h[q + 1]] else []
    else s + [h[q]]
  }

  /**
   * The loop at place `i`, with host `q` of the list `h` to come next and `s` behind it, or at the places past the
   * list.
   */
  ghost predicate Ranging(h: seq<string>, children: set<string>, a: seq<string>, len: nat, i: nat, q: nat,
                          s: seq<string>)
  {
    && h != [] && |a| == |h| && i <= |h| && len <= |h|
    && Onwards(h, children, q, s) == Onwards(h, children, 0, [])
    && (forall k :: i <= k && len <= k < |h| ==> a[k] == Last(h))
    && if q < |h| then InScan(h, children, a, len, i, q, s) else InTail(h, children, a, len, i, s)
  }

  ghost predicate InScan(h: seq<string>, children: set<string>, a: seq<string>, len: nat, i: nat, q: nat,
                         s: seq<string>)
    requires h != [] && |a| == |h| && i <= |h| && len <= |h| && q < |h|
  {
    && i <= len && q == i + |h| - len && a[..i] == s && a[i..len] == h[q..]
    && (Departs(children, Last(h)) ==> Share(s, Last(h)) + i <= q)
  }

  /** Past the list every place repeats the last host, and there are enough places left to remove all its copies. */
  ghost predicate InTail(h: seq<string>, children: set<string>, a: seq<string>, len: nat, i: nat, s: seq<string>)
    requires h != [] && |a| == |h| && i <= |h| && len <= |h|
  {
    && i >= len
    && if Departs(children, Last(h))
       then Without(a[..len], Last(h)) == Without(s, Last(h)) && Share(a[..len], Last(h)) + i <= |h|
       else a[..len] == s
  }

  lemma RangeStart(h: seq<string>, children: set<string>)
    requires h != []
    ensures Ranging(h, children, h, |h|, 0, 0, [])
  {
  }

  /** Counting copies of the last host: each departure brings at most one of them behind the loop. */
  lemma BehindShare(h: seq<string>, children: set<string>, q: nat, s: seq<string>)
    requires q < |h| && Departs(children, Last(h))
    ensures Share(Behind(h, children, q, s), Last(h)) <= Share(s, Last(h)) + if Departs(children, h[q]) then 1 else 0
    ensures q + 1 == |h| ==> Share(Behind(h, children, q, s), Last(h)) == Share(s, Last(h))
  {
    var x, y := h[q], Last(h);
    ShareOfBoth(s, [x], y);
    ShareOfOne(x, y);
    if Departs(children, x) {
      RemoveFirstShare(s + [x], x, y);
      var next := if q + 1 < |h| then [h[q + 1]] else [];
      ShareOfBoth(RemoveFirst(s + [x], x), next, y);
      if q + 1 < |h| {
        ShareOfOne(h[q + 1], y);
      }
      hide RemoveFirst, Share;
    }
  }

  lemma SuffixAt(h: seq<string>, a: seq<string>, len: nat, i: nat, q: nat)
    requires i < len <= |a| && q <= |h| && a[i..len] == h[q..]
    ensures q < |h| && a[i] == h[q] && a[len - 1] == h[|h| - 1] && a[i + 1..len] == h[q + 1..]
  {
    assert |a[i..len]| == |h[q..]|;
    assert a[i..len][0] == h[q..][0];
    assert a[i..len][len - 1 - i] == h[q..][len - 1 - i];
    assert a[i + 1..len] == a[i..len][1..] && h[q + 1..] == h[q..][1..];
  }

  /** A host that stays is left where it is. */
  lemma RangeKeeps(h: seq<string>, children: set<string>, a: seq<string>, len: nat, i: nat, q: nat, s: seq<string>)
    requires Ranging(h, children, a, len, i, q, s) && i < |h| && !Departs(children, a[i])
    ensures Ranging(h, children, a, len, i + 1, if q < |h| then q + 1 else q,
                    if q < |h| then Behind(h, children, q, s) else s)
  {
    if q < |h| {
      SuffixAt(h, a, len, i, q);
      assert a[..i + 1] == s + [h[q]];
      if Departs(children, Last(h)) {
        BehindShare(h, children, q, s);
      }
      hide RemoveFirst, Share, Without;
    }
  }

  lemma ShiftedSlices(a: seq<string>, len: nat, host: string)
    requires len <= |a| && host in a[..len]
    ensures var b := ShiftedOut(a, len, host);
            b[..len - 1] == RemoveFirst(a[..len], host) && b[len - 1..] == a[len - 1..]
  {
    var i := First(a[..len], host);
    RemoveFirstAt(a[..len], i);
    assert a[..len][..i] + a[..len][i + 1..] == a[..i] + a[i + 1..len];
  }

  lemma OnwardsStep(h: seq<string>, children: set<string>, q: nat, s: seq<string>)
    requires q < |h|
    ensures Onwards(h, children, q, s) == Onwards(h, children, NextHost(h, children, q), Behind(h, children, q, s))
  {
  }

  /** The list with the host at place `i` removed at its first place. */
  lemma RemovedParts(h: seq<string>, a: seq<string>, len: nat, i: nat, q: nat, s: seq<string>)
    requires |a| == |h| && i < len <= |a| && q < |h| && a[..i] == s && a[i..len] == h[q..]
    ensures a[i] in a[..len] && a[i] == h[q] && |s + [h[q]]| == i + 1 && |RemoveFirst(s + [h[q]], h[q])| == i
    ensures var b := ShiftedOut(a, len, a[i]);
            b[..len - 1] == RemoveFirst(s + [h[q]], h[q]) + h[q + 1..] && b[len - 1..] == a[len - 1..]
  {
    SuffixAt(h, a, len, i, q);
    var v := a[i];
    assert a[..len][i] == v;
    ShiftedSlices(a, len, v);
    assert a[..len] == (s + [v]) + h[q + 1..] by { assert a[..len] == a[..i] + [a[i]] + a[i + 1..len]; }
    assert (s + [v])[i] == v;
    hide RemoveFirst, ShiftedOut;
    RemoveFirstOfBoth(s + [v], h[q + 1..], v);
  }

  lemma PrefixAndSuffix(b: seq<string>, r: seq<string>, t: seq<string>, n: nat)
    requires n <= |b| && b[..n] == r + t
    ensures t != [] ==> b[..|r| + 1] == r + [t[0]] && b[|r| + 1..n] == t[1..]
  {
    if t != [] {
      assert b[..|r| + 1] == b[..n][..|r| + 1];
      assert b[|r| + 1..n] == b[..n][|r| + 1..];
    }
  }

  lemma StaleStays(h: seq<string>, a: seq<string>, b: seq<string>, len: nat, i: nat)
    requires h != [] && |a| == |b| == |h| && 0 < len <= |h| && b[len - 1..] == a[len - 1..] && i < len
    requires (forall k :: i <= k && len <= k < |h| ==> a[k] == Last(h)) && a[len - 1] == Last(h)
    ensures forall k :: i + 1 <= k && len - 1 <= k < |h| ==> b[k] == Last(h)
  {
    forall k | i + 1 <= k && len - 1 <= k < |h|
      ensures b[k] == Last(h)
    {
      assert b[len - 1..][k - (len - 1)] == a[len - 1..][k - (len - 1)] == a[k];
    }
  }

  /** In the list proper the loop removes the host it looks at, and the next one moves behind it. */
  lemma ScanRemoves(h: seq<string>, children: set<string>, a: seq<string>, len: nat, i: nat, q: nat, s: seq<string>)
    requires Ranging(h, children, a, len, i, q, s) && i < |h| && Departs(children, a[i]) && q < |h|
    ensures a[i] in a[..len]
    ensures Ranging(h, children, ShiftedOut(a, len, a[i]), len - 1, i + 1, q + 2, Behind(h, children, q, s))
  {
    hide RemoveFirst, Share, ShiftedOut, Without, Onwards, Departs, LeftBehind;
    SuffixAt(h, a, len, i, q);
    RemovedParts(h, a, len, i, q, s);
    var b := ShiftedOut(a, len, a[i]);
    StaleStays(h, a, b, len, i);
    OnwardsStep(h, children, q, s);
    if Departs(children, Last(h)) {
      BehindShare(h, children, q, s);
    }
    var r := RemoveFirst(s + [h[q]], h[q]);
    PrefixAndSuffix(b, r, h[q + 1..], len - 1);
    if q + 1 < |h| {
      assert h[q + 1..][0] == h[q + 1] && h[q + 1..][1..] == h[q + 2..];
      TailBegins(h, children, b, len - 1, i + 1, q + 2, r + [h[q + 1]]);
    } else {
      assert b[..len - 1] == r;
    }
  }

  /** The list proper can end with this step. */
  lemma TailBegins(h: seq<string>, children: set<string>, a: seq<string>, len: nat, i: nat, q: nat, s: seq<string>)
    requires h != [] && |a| == |h| && i <= len <= |h| && q == i + |h| - len && q <= |h| && a[..i] == s
    requires Departs(children, Last(h)) ==> Share(s, Last(h)) + i <= q
    ensures q == |h| ==> InTail(h, children, a, len, i, s)
  {
  }

  lemma TailRemoves(h: seq<string>, children: set<string>, a: seq<string>, len: nat, i: nat, q: nat, s: seq<string>)
    requires Ranging(h, children, a, len, i, q, s) && i < |h| && Departs(children, a[i]) && q >= |h|
    ensures var b, len' := ShiftedOut(a, len, a[i]), if a[i] in a[..len] then len - 1 else len;
            Ranging(h, children, b, len', i + 1, q, s)
  {
    var v := a[i];
    assert v == Last(h);
    SharePositive(a[..len], v);
    if v in a[..len] {
      ShiftedSlices(a, len, v);
      WithoutRemoved(a[..len], v);
      RemoveFirstShare(a[..len], v, v);
      var b := ShiftedOut(a, len, v);
      hide RemoveFirst, Share, Without, ShiftedOut;
      forall k | i + 1 <= k < |h|
        ensures b[k] == Last(h)
      {
        assert b[len - 1..][k - (len - 1)] == a[len - 1..][k - (len - 1)] == a[k];
      }
    }
  }

  /** The places and hosts after one turn of the loop. */
  function NextLen(a: seq<string>, len: nat, i: nat, children: set<string>): nat
    requires i < |a| && len <= |a|
  {
    if Departs(children, a[i]) && a[i] in a[..len] then len - 1 else len
  }

  function NextArray(a: seq<string>, len: nat, i: nat, children: set<string>): (b: seq<string>)
    requires i < |a| && len <= |a|
    ensures |b| == |a|
  {
    if Departs(children, a[i]) then ShiftedOut(a, len, a[i]) else a
  }

  function NextHost(h: seq<string>, children: set<string>, q: nat): nat {
    if q >= |h| then q else if Departs(children, h[q]) then q + 2 else q + 1
  }

  /** One turn of the loop. */
  lemma RangeStep(h: seq<string>, children: set<string>, a: seq<string>, len: nat, i: nat, q: nat, s: seq<string>)
    requires Ranging(h, children, a, len, i, q, s) && i < |h|
    ensures Ranging(h, children, NextArray(a, len, i, children), NextLen(a, len, i, children), i + 1,
                    NextHost(h, children, q), if q < |h| then Behind(h, children, q, s) else s)
  {
    if q < |h| {
      SuffixAt(h, a, len, i, q);
    }
    hide Ranging;
    if !Departs(children, a[i]) {
      RangeKeeps(h, children, a, len, i, q, s);
    } else if q < |h| {
      ScanRemoves(h, children, a, len, i, q, s);
    } else {
      TailRemoves(h, children, a, len, i, q, s);
    }
  }

  lemma RangeEnd(h: seq<string>, children: set<string>, a: seq<string>, len: nat, q: nat, s: seq<string>)
    requires Ranging(h, children, a, len, |h|, q, s)
    ensures a[..len] == LeftBehind(h, children)
  {
    if Departs(children, Last(h)) {
      WithoutAbsent(a[..len], Last(h));
    }
  }

  /** The REMOVE_HOSTS loop (http_proxy.go:522-530): it ranges over the places the list had at the start. */
  method RemoveHosts(a: array<string>, children: set<string>) returns (len: nat)
    modifies a
    ensures len <= a.Length
    ensures a[..len] == LeftBehind(old(a[..]), children)
  {
    len := a.Length;
    if a.Length == 0 {
      return;
    }
    hide Ranging, LeftBehind, Behind, NextHost, ShiftedOut, Onwards;
    ghost var h, s := a[..], [];
    ghost var q: nat := 0;
    RangeStart(h, children);
    assert a[..len] == a[..];
    for i := 0 to a.Length
      invariant len <= a.Length == |h| && Ranging(h, children, a[..], len, i, q, s)
    {
      ghost var was := a[..];
      RangeStep(h, children, was, len, i, q, s);
      s := if q < |h| then Behind(h, children, q, s) else s;
      q := NextHost(h, children, q);
      var v := a[i];
      assert v == was[i] && a[..len] == was[..len];
      if v !in children {
        len := RemoveInPlace(a, len, v);
      }
    }
    RangeEnd(h, children, a[..], len, q, s);
  }

  // ---------------------------------------------------------------- when the loop does its job

  /** The loop leaves what it had behind it and what it passes over, counted with repetitions. */
  lemma {:induction false} OnwardsShare(h: seq<string>, children: set<string>, q: nat, s: seq<string>, x: string)
    ensures Share(Onwards(h, children, q, s), x) == Share(s, x) + Share(Scan(h, children, q), x)
    decreases |h| - q
  {
    if q < |h| {
      OnwardsShare(h, children, NextHost(h, children, q), Behind(h, children, q, s), x);
      var rest := Scan(h, children, NextHost(h, children, q));
      ShareOfBoth(s, [h[q]], x);
      ShareOfOne(h[q], x);
      if Departs(children, h[q]) {
        var next := if q + 1 < |h| then [h[q + 1]] else [];
        RemoveFirstShare(s + [h[q]], h[q], x);
        ShareOfBoth(RemoveFirst(s + [h[q]], h[q]), next, x);
        ShareOfBoth(next, rest, x);
      } else {
        ShareOfBoth([h[q]], rest, x);
      }
    }
  }

  lemma LeftBehindShare(h: seq<string>, children: set<string>, x: string)
    requires h != []
    ensures Share(LeftBehind(h, children), x)
         == if x == Last(h) && Departs(children, x) then 0 else Share(Scan(h, children, 0), x)
  {
    OnwardsShare(h, children, 0, [], x);
    WithoutShare(Onwards(h, children, 0, []), Last(h), x);
  }

  /** The scan passes over hosts of the list only, over none more often than it is listed, and over all that stay. */
  lemma {:induction false} ScanShare(h: seq<string>, children: set<string>, q: nat, x: string)
    requires q <= |h| + 1
    ensures Share(Scan(h, children, q), x) <= Share(if q <= |h| then h[q..] else [], x)
    ensures !Departs(children, x) ==> Share(Scan(h, children, q), x) == Share(if q <= |h| then h[q..] else [], x)
    decreases |h| - q
  {
    if q < |h| {
      assert h[q..] == [h[q]] + h[q + 1..];
      ShareOfBoth([h[q]], h[q + 1..], x);
      ShareOfOne(h[q], x);
      var next := NextHost(h, children, q);
      ScanShare(h, children, next, x);
      if Departs(children, h[q]) {
        if q + 1 < |h| {
          assert h[q + 1..] == [h[q + 1]] + h[q + 2..];
          ShareOfBoth([h[q + 1]], h[q + 2..], x);
          ShareOfBoth([h[q + 1]], Scan(h, children, next), x);
        } else {
          assert h[q + 1..] == [];
          assert [] + Scan(h, children, next) == Scan(h, children, next);
        }
      } else {
        ShareOfBoth([h[q]], Scan(h, children, next), x);
      }
    } else if q == |h| {
      assert h[q..] == [];
    }
  }

  /** A host that departs is passed over, and it is not the last host of the list. */
  ghost predicate Strays(h: seq<string>, children: set<string>, s: seq<string>)
    requires h != []
  {
    exists x :: x in s && Departs(children, x) && x != Last(h)
  }

  /** Two neighbours depart and neither is the last host of the list. */
  ghost predicate Neighbours(h: seq<string>, children: set<string>, q: nat) {
    exists p :: q <= p && p + 2 < |h| && Departs(children, h[p]) && Departs(children, h[p + 1])
  }

  /** In a list without repetition hosts stray exactly where two neighbours depart. */
  lemma {:induction false} ScanStrays(h: seq<string>, children: set<string>, q: nat)
    requires h != [] && NoRepeats(h)
    ensures Strays(h, children, Scan(h, children, q)) <==> Neighbours(h, children, q)
    decreases |h| - q
  {
    if q < |h| {
      var s := Scan(h, children, q);
      if !Departs(children, h[q]) {
        ScanStrays(h, children, q + 1);
        assert Strays(h, children, s) <==> Strays(h, children, Scan(h, children, q + 1));
        assert Neighbours(h, children, q) <==> Neighbours(h, children, q + 1);
      } else {
        ScanStrays(h, children, q + 2);
        if q + 2 < |h| && Departs(children, h[q + 1]) {
          assert h[q + 1] in s && h[q + 1] != h[|h| - 1];
        } else {
          assert Neighbours(h, children, q) <==> Neighbours(h, children, q + 2);
          assert Strays(h, children, s) <==> Strays(h, children, Scan(h, children, q + 2));
        }
      }
    }
  }

  /**
   * For every list, repetitions included: REMOVE_HOSTS keeps each host that stays as often as it is listed, invents
   * none, and removes every host that departs exactly when it passes over none but the last host of the list; in a
   * list without repetition that is when no two neighbours depart, except that the final two may.
   */
  lemma LeftBehindMembers(h: seq<string>, children: set<string>)
    requires h != []
    ensures var left := LeftBehind(h, children);
            && (forall x :: Share(left, x) <= Share(h, x))
            && (forall x :: x in children ==> Share(left, x) == Share(h, x))
            && ((forall x :: x in left ==> x in children) <==> !Strays(h, children, Scan(h, children, 0)))
    ensures forall x :: x in LeftBehind(h, children) ==> x in h
    ensures forall x :: x in h && x in children ==> x in LeftBehind(h, children)
    ensures NoRepeats(h) ==> NoRepeats(LeftBehind(h, children))
    ensures NoRepeats(h) ==> (Strays(h, children, Scan(h, children, 0)) <==> Neighbours(h, children, 0))
  {
    var left, s := LeftBehind(h, children), Scan(h, children, 0);
    forall x
      ensures Share(left, x) <= Share(h, x)
      ensures x in children ==> Share(left, x) == Share(h, x)
      ensures x in left <==> x in s && !(x == Last(h) && Departs(children, x))
    {
      LeftBehindShare(h, children, x);
      ScanShare(h, children, 0, x);
      assert h[0..] == h;
      SharePositive(left, x);
      SharePositive(s, x);
    }
    forall x
      ensures x in left ==> x in h
      ensures x in h && x in children ==> x in left
    {
      SharePositive(left, x);
      SharePositive(h, x);
    }
    if NoRepeats(h) {
      ScanStrays(h, children, 0);
      FewerRepeats(left, h);
    }
    hide Scan, LeftBehind, Share, Neighbours;
    NoStrays(h, children, s, left);
  }

  /** A list is without repetition exactly when every host is counted at most once. */
  lemma {:induction false} NoRepeatsByShare(s: seq<string>)
    ensures NoRepeats(s) <==> forall x :: Share(s, x) <= 1
  {
    if s != [] {
      var rest := s[1..];
      NoRepeatsByShare(rest);
      assert s == [s[0]] + rest;
      SharePositive(rest, s[0]);
      assert NoRepeats(s) <==> NoRepeats(rest) && s[0] !in rest;
      forall x
        ensures Share(s, x) == Share(rest, x) + if s[0] == x then 1 else 0
      {
      }
      if NoRepeats(s) {
        forall x
          ensures Share(s, x) <= 1
        {
          assert Share(rest, x) <= 1;
        }
      } else {
        var x :| (x == s[0] && x in rest) || Share(rest, x) > 1;
        assert Share(s, x) > 1;
      }
    }
  }

  lemma FewerRepeats(left: seq<string>, h: seq<string>)
    requires NoRepeats(h) && forall x :: Share(left, x) <= Share(h, x)
    ensures NoRepeats(left)
  {
    NoRepeatsByShare(h);
    NoRepeatsByShare(left);
    hide Share, NoRepeats;
    assert forall x :: Share(left, x) <= 1 by { forall x ensures Share(left, x) <= 1 { assert Share(h, x) <= 1; } }
  }

  lemma NoStrays(h: seq<string>, children: set<string>, s: seq<string>, left: seq<string>)
    requires h != [] && forall x :: x in left <==> x in s && !(x == Last(h) && Departs(children, x))
    ensures (forall x :: x in left ==> x in children) <==> !Strays(h, children, s)
  {
  }

  // ---------------------------------------------------------------- a whole reconciliation

  /** ADD_HOST for each child in turn. */
  function AddAll(hosts: seq<string>, children: seq<string>): seq<string>
    decreases |children|
  {
    if children == [] then hosts else AddAll(Added(hosts, children[0]), children[1..])
  }

  lemma {:induction false} AddAllMembers(hosts: seq<string>, children: seq<string>)
    ensures forall x :: x in AddAll(hosts, children) <==> x in hosts || x in children
    ensures NoRepeats(hosts) ==> NoRepeats(AddAll(hosts, children))
    decreases |children|
  {
    if children != [] {
      assert children == [children[0]] + children[1..];
      AddAllMembers(Added(hosts, children[0]), children[1..]);
    }
  }

  /** The proxy's own event loop converges to the reported children exactly when no host strays. */
  lemma ReconcileConverges(h: seq<string>, children: seq<string>)
    ensures var after := AddAll(LeftBehind(h, Members(children)), children);
            && (Members(after) == Members(children)
                <==> h == [] || !Strays(h, Members(children), Scan(h, Members(children), 0)))
            && (NoRepeats(h) ==> NoRepeats(after))
    ensures h != [] && NoRepeats(h) ==>
              (Strays(h, Members(children), Scan(h, Members(children), 0)) <==> Neighbours(h, Members(children), 0))
  {
    var left := LeftBehind(h, Members(children));
    AddAllMembers(left, children);
    assert forall x :: x in AddAll(left, children) <==> x in left || x in Members(children);
    if h != [] {
      LeftBehindMembers(h, Members(children));
    }
    hide LeftBehind, Scan, Strays, AddAll;
    assert (forall x :: x in left ==> x in Members(children)) <==> Members(AddAll(left, children)) == Members(children);
  }

  /** Three hosts all depart, and the middle one stays. */
  lemma SkippedHostStays(a: string, b: string, c: string)
    requires a != b && b != c && a != c
    ensures LeftBehind([a, b, c], {}) == [b]
  {
    var h := [a, b, c];
    assert RemoveFirst([] + [a], a) + [b] == [b] by { assert [] + [a] == [a]; }
    assert RemoveFirst([b] + [c], c) + [] == [b] by { assert ([b] + [c])[1..] == [c]; }
    assert Onwards(h, {}, 4, [b]) == [b];
    assert Onwards(h, {}, 2, [b]) == [b];
    assert Without([b], c) == [b] by { assert [b][1..] == []; }
  }

  /** Ranging over a copy: each departing host of the original list is removed. */
  function RemoveEach(hosts: seq<string>, copy: seq<string>, children: set<string>): seq<string>
    decreases |copy|
  {
    if copy == [] then hosts
    else RemoveEach(if copy[0] in children then hosts else RemoveFirst(hosts, copy[0]), copy[1..], children)
  }

  lemma {:induction false} RemoveEachShare(hosts: seq<string>, copy: seq<string>, children: set<string>, y: string)
    ensures var left := RemoveEach(hosts, copy, children);
            if y in children then Share(left, y) == Share(hosts, y)
            else Share(left, y) == if Share(copy, y) < Share(hosts, y) then Share(hosts, y) - Share(copy, y) else 0
    decreases |copy|
  {
    if copy != [] {
      RemoveFirstShare(hosts, copy[0], y);
      RemoveEachShare(if copy[0] in children then hosts else RemoveFirst(hosts, copy[0]), copy[1..], children, y);
    }
  }

  lemma {:induction false} RemoveEachNoRepeats(hosts: seq<string>, copy: seq<string>, children: set<string>)
    requires NoRepeats(hosts)
    ensures NoRepeats(RemoveEach(hosts, copy, children))
    decreases |copy|
  {
    if copy != [] {
      RemoveFirstMembers(hosts, copy[0]);
      RemoveEachNoRepeats(if copy[0] in children then hosts else RemoveFirst(hosts, copy[0]), copy[1..], children);
    }
  }

  /**
   * Ranging over a copy of the list itself leaves exactly the hosts that stay, also where hosts are listed
   * repeatedly.
   */
  lemma RemoveEachMembers(hosts: seq<string>, children: set<string>)
    ensures forall x :: x in RemoveEach(hosts, hosts, children) <==> x in hosts && x in children
    ensures NoRepeats(hosts) ==> NoRepeats(RemoveEach(hosts, hosts, children))
  {
    forall x
      ensures x in RemoveEach(hosts, hosts, children) <==> x in hosts && x in children
    {
      RemoveEachShare(hosts, hosts, children, x);
      SharePositive(hosts, x);
      SharePositive(RemoveEach(hosts, hosts, children), x);
    }
    if NoRepeats(hosts) {
      RemoveEachNoRepeats(hosts, hosts, children);
    }
  }

  /** Over a copy of the list the reconciliation always converges. */
  lemma CopyConverges(h: seq<string>, children: seq<string>)
    ensures var after := AddAll(RemoveEach(h, h, Members(children)), children);
            Members(after) == Members(children) && (NoRepeats(h) ==> NoRepeats(after))
  {
    var left := RemoveEach(h, h, Members(children));
    RemoveEachMembers(h, Members(children));
    AddAllMembers(left, children);
    assert forall x :: x in AddAll(left, children) <==> x in Members(children);
  }

  /** The state manager's guard before a removal (vermouth_state_manager.go:60): a host that is there is refused. */
  function GuardedRemove(hosts: seq<string>, host: string): seq<string> {
    if host in hosts then hosts else RemoveFirst(hosts, host)
  }

  function GuardedRemoveEach(hosts: seq<string>, copy: seq<string>, children: set<string>): seq<string>
    decreases |copy|
  {
    if copy == [] then hosts
    else GuardedRemoveEach(if copy[0] in children then hosts else GuardedRemove(hosts, copy[0]), copy[1..], children)
  }

  lemma {:induction false} GuardRemovesNothing(hosts: seq<string>, copy: seq<string>, children: set<string>)
    ensures GuardedRemoveEach(hosts, copy, children) == hosts
    decreases |copy|
  {
    if copy != [] {
      GuardRemovesNothing(hosts, copy[1..], children);
    }
  }

  /** The event loop that is wired up removes nothing, so it converges exactly when no host departs. */
  lemma WiredConverges(h: seq<string>, children: seq<string>)
    ensures Members(AddAll(GuardedRemoveEach(h, h, Members(children)), children)) == Members(children)
       <==> Members(h) <= Members(children)
  {
    GuardRemovesNothing(h, h, Members(children));
    AddAllMembers(h, children);
    assert forall x :: x in AddAll(h, children) <==> x in Members(h) || x in Members(children);
  }
}
