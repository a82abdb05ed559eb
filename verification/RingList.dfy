/**
 * The ring beside its host list, for any list: hosts may be listed repeatedly and their points may collide. When does
 * Remove leave the ring that the shorter list builds?
 */
module RingList {
  import opened Text
  import opened Sorting
  import opened ConsistentHash

  /** The points of all listed hosts, host by host. */
  function AllPoints(hash: Hash, list: seq<string>): seq<int> {
    if list == [] then [] else AllPoints(hash, list[..|list| - 1]) + Points(hash, list[|list| - 1])
  }

  /** Two hosts have a point in common. */
  predicate Share(hash: Hash, g: string, h: string) { exists p :: p in Points(hash, g) && p in Points(hash, h) }

  /** The host is listed, and none of the hosts listed besides, itself included, has a point in common with it. */
  predicate Removable(hash: Hash, list: seq<string>, host: string) {
    host in list && forall g :: g in RemoveFirst(list, host) ==> !Share(hash, g, host)
  }

  // ---------------------------------------------------------------- keys

  lemma {:induction false} BuiltKeys(hash: Hash, list: seq<string>)
    ensures Sorted(Build(hash, list).keys) && multiset(Build(hash, list).keys) == multiset(AllPoints(hash, list))
  {
    hide Points;
    if list != [] {
      BuiltKeys(hash, list[..|list| - 1]);
      AddedKeys(Build(hash, list[..|list| - 1]), Points(hash, list[|list| - 1]), list[|list| - 1]);
    }
  }

  lemma CutKey(s: seq<int>, i: nat)
    requires Sorted(s) && i < |s|
    ensures Sorted(s[..i] + s[i + 1..]) && multiset(s[..i] + s[i + 1..]) == multiset(s) - multiset{s[i]}
  {
    assert s == s[..i] + [s[i]] + s[i + 1..];
    assert multiset(s) == multiset(s[..i]) + multiset{s[i]} + multiset(s[i + 1..]);
  }

  lemma KeyFound(s: seq<int>, x: int)
    requires Sorted(s) && x in s
    ensures LowerBound(s, x) < |s| && s[LowerBound(s, x)] == x
  {
    var i :| 0 <= i < |s| && s[i] == x;
    assert LowerBound(s, x) <= i;
  }

  /** Taking out a key that is there. */
  lemma PointTakenOut(r: Ring, p: int)
    requires Sorted(r.keys) && p in r.keys
    ensures RemovePoint(r, p).Some?
    ensures var t := RemovePoint(r, p).value;
            Sorted(t.keys) && multiset(t.keys) == multiset(r.keys) - multiset{p} && t.hosts == r.hosts - {p}
  {
    KeyFound(r.keys, p);
    CutKey(r.keys, LowerBound(r.keys, p));
    hide Sorted;
  }

  function Listed(points: seq<int>): set<int> { set p | p in points }

  lemma GoneBoth(hosts: map<int, string>, points: seq<int>)
    requires points != []
    ensures hosts - {points[0]} - Listed(points[1..]) == hosts - Listed(points)
  {
    assert points == [points[0]] + points[1..];
    forall k
      ensures k in Listed(points) <==> k == points[0] || k in Listed(points[1..])
    {
    }
    assert Listed(points) == {points[0]} + Listed(points[1..]);
  }

  lemma CountsInside(points: seq<int>, keys: multiset<int>)
    requires points != [] && multiset(points) <= keys
    ensures points[0] in keys && multiset(points[1..]) <= keys - multiset{points[0]}
    ensures keys - multiset{points[0]} - multiset(points[1..]) == keys - multiset(points)
  {
    assert points == [points[0]] + points[1..];
    assert multiset(points) == multiset{points[0]} + multiset(points[1..]);
    assert points[0] in multiset(points);
  }

  /** Taking out keys that are all there, with their repetitions. */
  lemma {:induction false} PointsTakenOut(r: Ring, points: seq<int>)
    requires Sorted(r.keys) && multiset(points) <= multiset(r.keys)
    ensures RemovePoints(r, points).Some?
    ensures var t := RemovePoints(r, points).value;
            && Sorted(t.keys) && multiset(t.keys) == multiset(r.keys) - multiset(points)
            && t.hosts == r.hosts - Listed(points)
    decreases |points|
  {
    if points == [] {
      assert r.hosts - Listed(points) == r.hosts;
    } else {
      CountsInside(points, multiset(r.keys));
      assert points[0] in multiset(r.keys);
      PointTakenOut(r, points[0]);
      GoneBoth(r.hosts, points);
      hide RemovePoint, Listed, Sorted;
      PointsTakenOut(RemovePoint(r, points[0]).value, points[1..]);
    }
  }

  /** Dropping a listed host takes its points out once. */
  lemma {:induction false} PointsDropped(hash: Hash, list: seq<string>, host: string)
    requires host in list
    ensures multiset(AllPoints(hash, list))
         == multiset(AllPoints(hash, RemoveFirst(list, host))) + multiset(Points(hash, host))
  {
    hide Points;
    var init, last := list[..|list| - 1], list[|list| - 1];
    assert list == init + [last];
    if host in init {
      PointsDropped(hash, init, host);
      RemoveFirstOfBoth(init, [last], host);
      var rest := RemoveFirst(init, host) + [last];
      assert rest[..|rest| - 1] == RemoveFirst(init, host);
    } else {
      LastOut(init, host);
    }
  }

  // ---------------------------------------------------------------- owners

  lemma {:induction false} OwnedPoints(hash: Hash, list: seq<string>)
    ensures forall k :: k in Build(hash, list).hosts <==> exists h :: h in list && k in Points(hash, h)
  {
    hide Points;
    if list != [] {
      var init, last := list[..|list| - 1], list[|list| - 1];
      assert list == init + [last];
      OwnedPoints(hash, init);
      OwnAdds(Build(hash, init).hosts, Points(hash, last), last);
    }
  }

  /** Away from the points of the dropped host every point keeps its owner. */
  lemma {:induction false} OwnersStay(hash: Hash, list: seq<string>, host: string, k: int)
    requires host in list && k !in Points(hash, host)
    ensures var m, n := Build(hash, list).hosts, Build(hash, RemoveFirst(list, host)).hosts;
            (k in m <==> k in n) && (k in m ==> m[k] == n[k])
  {
    hide Points, Own, RemoveFirst;
    var init, last := list[..|list| - 1], list[|list| - 1];
    assert list == init + [last];
    OwnAdds(Build(hash, init).hosts, Points(hash, last), last);
    if host in init {
      OwnersStay(hash, init, host, k);
      RemoveFirstOfBoth(init, [last], host);
      var rest := RemoveFirst(init, host) + [last];
      assert rest[..|rest| - 1] == RemoveFirst(init, host);
      OwnAdds(Build(hash, RemoveFirst(init, host)).hosts, Points(hash, last), last);
    } else {
      LastOut(init, host);
    }
  }

  // ---------------------------------------------------------------- the exact condition

  /** Removing a listed host always leaves the right keys, and all owners but those of the host's points. */
  lemma ListedRemoval(hash: Hash, list: seq<string>, host: string)
    requires host in list
    ensures RemoveHost(hash, Build(hash, list), host).Some?
    ensures var t := RemoveHost(hash, Build(hash, list), host).value;
            && t.keys == Build(hash, RemoveFirst(list, host)).keys
            && t.hosts == Build(hash, list).hosts - Listed(Points(hash, host))
  {
    hide Points, Build, AllPoints, RemoveFirst, RemovePoints;
    BuiltKeys(hash, list);
    BuiltKeys(hash, RemoveFirst(list, host));
    PointsDropped(hash, list, host);
    PointsTakenOut(Build(hash, list), Points(hash, host));
    SortedIsUnique(RemoveHost(hash, Build(hash, list), host).value.keys, Build(hash, RemoveFirst(list, host)).keys);
  }

  lemma RemovableOwners(hash: Hash, list: seq<string>, host: string)
    requires host in list
    ensures Build(hash, list).hosts - Listed(Points(hash, host)) == Build(hash, RemoveFirst(list, host)).hosts
       <==> forall g :: g in RemoveFirst(list, host) ==> !Share(hash, g, host)
  {
    hide Points, Build, RemoveFirst;
    var rest := RemoveFirst(list, host);
    var gone := Listed(Points(hash, host));
    var m, n := Build(hash, list).hosts - gone, Build(hash, rest).hosts;
    OwnedPoints(hash, rest);
    if forall g :: g in rest ==> !Share(hash, g, host) {
      forall k
        ensures k in m <==> k in n
        ensures k in m ==> m[k] == n[k]
      {
        if k in Points(hash, host) {
          assert k !in n;
        } else {
          OwnersStay(hash, list, host, k);
        }
      }
      assert m == n;
    } else {
      var g :| g in rest && Share(hash, g, host);
      var p :| p in Points(hash, g) && p in Points(hash, host);
      assert p in n && p !in m;
    }
  }

  /**
   * Remove leaves the ring of the shorter list exactly when the host is removable; a host that is not listed never
   * is, for Remove then takes out keys of other hosts or runs off the end.
   */
  lemma RemoveKeepsBuild(hash: Hash, list: seq<string>, host: string)
    ensures RemoveHost(hash, Build(hash, list), host) == Some(Build(hash, RemoveFirst(list, host)))
       <==> Removable(hash, list, host)
  {
    if host in list {
      ListedRemoval(hash, list, host);
      RemovableOwners(hash, list, host);
      hide Points, Build, RemoveFirst, RemovePoints, RemoveHost;
      var t, u := RemoveHost(hash, Build(hash, list), host).value, Build(hash, RemoveFirst(list, host));
      assert t == u <==> t.hosts == u.hosts;
    } else if RemoveHost(hash, Build(hash, list), host).Some? {
      RemoveCounts(Build(hash, list), Points(hash, host));
      hide Points, Build, RemovePoints;
      assert RemoveFirst(list, host) == list;
    }
  }

  /** With distinct hosts whose points do not collide every listed host is removable. */
  lemma CollisionFreeRemovable(hash: Hash, list: seq<string>, host: string, known: set<string>)
    requires host in list && NoRepeats(list) && Members(list) <= known && CollisionFree(hash, known)
    ensures Removable(hash, list, host)
  {
    RemoveFirstMembers(list, host);
    hide Points, RemoveFirst;
    forall g | g in RemoveFirst(list, host)
      ensures !Share(hash, g, host)
    {
      assert g in Members(list) && host in Members(list);
    }
  }

  // ---------------------------------------------------------------- when Remove runs off the end

  /** How many numbers are at least `t`, counted with repetition. */
  function AtLeast(s: seq<int>, t: int): nat {
    if s == [] then 0 else (if s[0] >= t then 1 else 0) + AtLeast(s[1..], t)
  }

  lemma {:induction false} AtLeastBoth(a: seq<int>, b: seq<int>, t: int)
    ensures AtLeast(a + b, t) == AtLeast(a, t) + AtLeast(b, t)
  {
    if a == [] {
      assert a + b == b;
    } else {
      assert (a + b)[1..] == a[1..] + b;
      AtLeastBoth(a[1..], b, t);
    }
  }

  /** Between `t` and a larger `u` the count falls, and stays if no number lies between them. */
  lemma {:induction false} AtLeastFalls(s: seq<int>, t: int, u: int)
    requires t <= u
    ensures AtLeast(s, u) <= AtLeast(s, t)
    ensures (forall x :: x in s ==> !(t <= x < u)) ==> AtLeast(s, u) == AtLeast(s, t)
  {
    if s != [] {
      AtLeastFalls(s[1..], t, u);
      assert s[0] in s && forall x :: x in s[1..] ==> x in s;
    }
  }

  lemma AtLeastCut(s: seq<int>, idx: nat, t: int)
    requires idx < |s|
    ensures AtLeast(s, t) == AtLeast(s[..idx] + s[idx + 1..], t) + if s[idx] >= t then 1 else 0
  {
    assert s == s[..idx] + ([s[idx]] + s[idx + 1..]);
    AtLeastBoth(s[..idx], [s[idx]] + s[idx + 1..], t);
    AtLeastBoth([s[idx]], s[idx + 1..], t);
    AtLeastBoth(s[..idx], s[idx + 1..], t);
    assert [s[idx]][1..] == [];
  }

  lemma {:induction false} NoneAtLeast(s: seq<int>, t: int)
    ensures AtLeast(s, t) == 0 <==> forall x :: x in s ==> x < t
  {
    if s != [] {
      NoneAtLeast(s[1..], t);
      assert s[0] in s && (forall x :: x in s[1..] ==> x in s) && (forall x :: x in s ==> x == s[0] || x in s[1..]);
    }
  }

  /** Above every bound there are no more points than keys. */
  ghost predicate Enough(points: seq<int>, keys: seq<int>) {
    forall t :: AtLeast(points, t) <= AtLeast(keys, t)
  }

  /** The first key from `p` on is the one to give up. */
  lemma EnoughStep(points: seq<int>, keys: seq<int>, idx: nat)
    requires points != [] && Sorted(keys) && idx == LowerBound(keys, points[0]) && idx < |keys|
    ensures Enough(points, keys) <==> Enough(points[1..], keys[..idx] + keys[idx + 1..])
  {
    var p, k, rest, left := points[0], keys[idx], points[1..], keys[..idx] + keys[idx + 1..];
    forall t
      ensures AtLeast(points, t) == AtLeast(rest, t) + if p >= t then 1 else 0
      ensures AtLeast(keys, t) == AtLeast(left, t) + if k >= t then 1 else 0
    {
      AtLeastCut(keys, idx, t);
    }
    hide AtLeast;
    if Enough(points, keys) {
      forall t
        ensures AtLeast(rest, t) <= AtLeast(left, t)
      {
        assert AtLeast(points, t) <= AtLeast(keys, t) && AtLeast(points, p) <= AtLeast(keys, p);
        if p < t <= k {
          AtLeastFalls(rest, p, t);
          NoKeyBetween(keys, p, idx);
          AtLeastFalls(keys, p, t);
        }
      }
    }
    if Enough(rest, left) {
      forall t
        ensures AtLeast(points, t) <= AtLeast(keys, t)
      {
        assert AtLeast(rest, t) <= AtLeast(left, t);
      }
    }
  }

  lemma NoKeyBetween(keys: seq<int>, p: int, idx: nat)
    requires Sorted(keys) && idx == LowerBound(keys, p) && idx < |keys|
    ensures forall x :: x in keys ==> !(p <= x < keys[idx])
  {
  }

  /** Remove gets through exactly when above every bound there are no more points of the host than keys. */
  lemma {:induction false} RemoveRunsOut(r: Ring, points: seq<int>)
    requires Sorted(r.keys)
    ensures RemovePoints(r, points).Some? <==> Enough(points, r.keys)
    decreases |points|
  {
    hide Enough;
    if points == [] {
      assert Enough(points, r.keys) by { NothingWanted(r.keys); }
    } else {
      var idx := LowerBound(r.keys, points[0]);
      if idx == |r.keys| {
        TooHigh(points, r.keys);
      } else {
        EnoughStep(points, r.keys, idx);
        RemoveRunsOut(RemovePoint(r, points[0]).value, points[1..]);
      }
    }
  }

  lemma NothingWanted(keys: seq<int>)
    ensures Enough([], keys)
  {
  }

  lemma TooHigh(points: seq<int>, keys: seq<int>)
    requires points != [] && forall x :: x in keys ==> x < points[0]
    ensures !Enough(points, keys)
  {
    NoneAtLeast(keys, points[0]);
    assert AtLeast(points, points[0]) > AtLeast(keys, points[0]);
  }

  /** An empty ring has no key to give up. */
  lemma EmptyRunsOut(hash: Hash, host: string)
    ensures RemoveHost(hash, EMPTY_RING, host).None? && !Enough(Points(hash, host), EMPTY_RING.keys)
  {
    TooHigh(Points(hash, host), EMPTY_RING.keys);
    RemoveRunsOut(EMPTY_RING, Points(hash, host));
  }

  lemma {:induction false} RemoveKeepsSorted(r: Ring, points: seq<int>)
    requires Sorted(r.keys) && RemovePoints(r, points).Some?
    ensures Sorted(RemovePoints(r, points).value.keys)
    decreases |points|
  {
    if points != [] {
      RemoveKeepsSorted(RemovePoint(r, points[0]).value, points[1..]);
    }
  }
}
