/** balancer/consist-hash.go: a ring of hash points, three per host, searched clockwise. */
module ConsistentHash {
  import opened Text
  import opened Word
  import opened Sorting

  const REPLICAS: nat := 3

  /** The hash function (CRC-32 in the committed code) is left open. */
  type Hash = string -> uint32

  function Point(hash: Hash, host: string, i: nat): int { hash(Itoa(i) + host) }

  /** The points of one host, in the order Add and Remove visit them. */
  function Points(hash: Hash, host: string): (p: seq<int>)
    ensures |p| == REPLICAS
  {
    [Point(hash, host, 0), Point(hash, host, 1), Point(hash, host, 2)]
  }

  datatype Ring = Ring(keys: seq<int>, hosts: map<int, string>)

  const EMPTY_RING := Ring([], map[])

  // ---------------------------------------------------------------- Add and Remove as functions of the ring

  function Own(hosts: map<int, string>, points: seq<int>, host: string): map<int, string> {
    if points == [] then hosts else Own(hosts, points[..|points| - 1], host)[points[|points| - 1] := host]
  }

  function AddPoints(r: Ring, points: seq<int>, host: string): Ring {
    Ring(Sort(r.keys + points), Own(r.hosts, points, host))
  }

  /** Taking out one point; None when the search runs off the end and the slice expression panics. */
  function RemovePoint(r: Ring, point: int): Option<Ring> {
    var idx := LowerBound(r.keys, point);
    if idx == |r.keys| then None
    else Some(Ring(r.keys[..idx] + r.keys[idx + 1..], r.hosts - {point}))
  }

  function RemovePoints(r: Ring, points: seq<int>): Option<Ring>
    decreases |points|
  {
    if points == [] then Some(r)
    else match RemovePoint(r, points[0])
         case None => None
         case Some(r') => RemovePoints(r', points[1..])
  }

  function AddHost(hash: Hash, r: Ring, host: string): Ring { AddPoints(r, Points(hash, host), host) }

  function RemoveHost(hash: Hash, r: Ring, host: string): Option<Ring> { RemovePoints(r, Points(hash, host)) }

  /** The ring NewConsistenceHash builds. */
  function Build(hash: Hash, hosts: seq<string>): Ring {
    if hosts == [] then EMPTY_RING else AddHost(hash, Build(hash, hosts[..|hosts| - 1]), hosts[|hosts| - 1])
  }

  /** The host a request with this hash is sent to; a key without owner yields Go's empty string. */
  function Owner(r: Ring, request: int): string
    requires r.keys != []
  {
    var key := r.keys[LowerBound(r.keys, request) % |r.keys|];
    if key in r.hosts then r.hosts[key] else ""
  }

  // ---------------------------------------------------------------- when Add and Remove keep the ring consistent

  /** `keys` is strictly sorted and lists exactly the points that have an owner. */
  ghost predicate Consistent(r: Ring) {
    StrictlySorted(r.keys) && forall k :: k in r.keys <==> k in r.hosts
  }

  lemma {:induction false} OwnAdds(hosts: map<int, string>, points: seq<int>, host: string)
    ensures forall k :: k in Own(hosts, points, host) <==> k in hosts || k in points
    ensures forall k :: k in Own(hosts, points, host) ==>
                          Own(hosts, points, host)[k] == if k in points then host else hosts[k]
  {
    if points != [] {
      var init := points[..|points| - 1];
      assert points == init + [points[|points| - 1]];
      OwnAdds(hosts, init, host);
    }
  }

  lemma AddedKeys(r: Ring, points: seq<int>, host: string)
    ensures var t := AddPoints(r, points, host);
            && multiset(t.keys) == multiset(r.keys) + multiset(points)
            && forall k :: k in t.keys <==> k in r.keys || k in points
  {
    var t := AddPoints(r, points, host);
    forall k
      ensures k in t.keys <==> k in r.keys || k in points
    {
      assert k in t.keys <==> k in multiset(t.keys);
      assert k in r.keys + points <==> k in multiset(r.keys + points);
    }
  }

  lemma JoinedNoRepeats(a: seq<int>, b: seq<int>)
    requires Distinct(a)
    ensures Distinct(a + b) <==> Distinct(b) && forall x :: x in b ==> x !in a
  {
    if Distinct(a + b) {
      forall i, j | 0 <= i < j < |b|
        ensures b[i] != b[j]
      {
        assert (a + b)[|a| + i] == b[i] && (a + b)[|a| + j] == b[j];
      }
      forall x | x in b
        ensures x !in a
      {
        var j :| 0 <= j < |b| && b[j] == x;
        assert forall i :: 0 <= i < |a| ==> a[i] == (a + b)[i] != (a + b)[|a| + j];
      }
    } else {
      var i, j :| 0 <= i < j < |a + b| && (a + b)[i] == (a + b)[j];
      if |a| <= i {
        assert b[i - |a|] == b[j - |a|];
      } else {
        assert j >= |a| && b[j - |a|] in b;
      }
    }
  }

  lemma SameCountsSameDistinct(s: seq<int>, t: seq<int>)
    requires multiset(s) == multiset(t)
    ensures Distinct(s) <==> Distinct(t)
  {
    DistinctIffNoRepeats(s);
    DistinctIffNoRepeats(t);
  }

  /** Adding keeps the ring consistent exactly when the new points are distinct and none is on the ring already. */
  lemma AddKeepsConsistent(r: Ring, points: seq<int>, host: string)
    requires Consistent(r)
    ensures Consistent(AddPoints(r, points, host)) <==> Distinct(points) && forall p :: p in points ==> p !in r.hosts
  {
    var t := AddPoints(r, points, host);
    OwnAdds(r.hosts, points, host);
    AddedKeys(r, points, host);
    SameCountsSameDistinct(t.keys, r.keys + points);
    JoinedNoRepeats(r.keys, points);
    assert StrictlySorted(t.keys) <==> Distinct(t.keys);
  }

  // ---------------------------------------------------------------- removal

  lemma {:induction false} StrictSearch(s: seq<int>, x: int)
    requires StrictlySorted(s) && x in s
    ensures LowerBound(s, x) < |s| && s[LowerBound(s, x)] == x
  {
    var i :| 0 <= i < |s| && s[i] == x;
    LowerBoundUnique(s, x, i);
  }

  /** Cutting one position out of a strictly sorted sequence. */
  lemma CutOne(s: seq<int>, i: nat)
    requires StrictlySorted(s) && i < |s|
    ensures var t := s[..i] + s[i + 1..];
            StrictlySorted(t) && |t| == |s| - 1 && forall x :: x in t <==> x in s && x != s[i]
  {
    var t := s[..i] + s[i + 1..];
    forall x
      ensures x in t <==> x in s && x != s[i]
    {
      if x in s && x != s[i] {
        var j :| 0 <= j < |s| && s[j] == x;
        assert t[if j < i then j else j - 1] == x;
      }
    }
  }

  /** A strictly sorted sequence has as many elements as positions. */
  lemma {:induction false} StrictSize(s: seq<int>, m: set<int>)
    requires StrictlySorted(s) && forall x :: x in s <==> x in m
    ensures |s| == |m|
  {
    if s == [] {
      assert forall x :: x in m ==> x in s;
    } else {
      StrictSize(s[1..], m - {s[0]});
    }
  }

  /** Removing points that are all on the ring and distinct takes out exactly those points. */
  lemma {:induction false} RemovePresent(r: Ring, points: seq<int>)
    requires Consistent(r) && Distinct(points) && forall p :: p in points ==> p in r.hosts
    ensures var t := RemovePoints(r, points);
            && t.Some? && Consistent(t.value)
            && (forall k :: k in t.value.hosts <==> k in r.hosts && k !in points)
            && (forall k :: k in t.value.hosts ==> t.value.hosts[k] == r.hosts[k])
    decreases |points|
  {
    if points != [] {
      StrictSearch(r.keys, points[0]);
      CutOne(r.keys, LowerBound(r.keys, points[0]));
      RemovePresent(RemovePoint(r, points[0]).value, points[1..]);
    }
  }

  /** However a removal goes, it drops one key a point, and no owners but those of the points. */
  lemma {:induction false} RemoveCounts(r: Ring, points: seq<int>)
    requires RemovePoints(r, points).Some?
    ensures var t := RemovePoints(r, points).value;
            && |t.keys| == |r.keys| - |points|
            && t.hosts.Keys == r.hosts.Keys - set p | p in points
    decreases |points|
  {
    if points != [] {
      RemoveCounts(RemovePoint(r, points[0]).value, points[1..]);
      assert points == [points[0]] + points[1..];
    }
  }

  /** Removing succeeds and keeps the ring consistent exactly when all the points are on the ring and distinct. */
  lemma RemoveKeepsConsistent(r: Ring, points: seq<int>)
    requires Consistent(r)
    ensures (RemovePoints(r, points).Some? && Consistent(RemovePoints(r, points).value))
       <==> Distinct(points) && forall p :: p in points ==> p in r.hosts
  {
    hide RemovePoints, Consistent, Distinct;
    if Distinct(points) && forall p :: p in points ==> p in r.hosts {
      RemovePresent(r, points);
    } else if RemovePoints(r, points).Some? && Consistent(RemovePoints(r, points).value) {
      var t := RemovePoints(r, points).value;
      RemoveCounts(r, points);
      ConsistentSize(r);
      ConsistentSize(t);
      var gone := r.hosts.Keys - t.hosts.Keys;
      assert r.hosts.Keys == t.hosts.Keys + gone;
      FewerThanPositions(points, gone);
    }
  }

  lemma ConsistentSize(r: Ring)
    requires Consistent(r)
    ensures |r.keys| == |r.hosts.Keys|
  {
    StrictSize(r.keys, r.hosts.Keys);
  }

  /** A set of elements of a sequence that is as large as the sequence is all of it, without repetition. */
  lemma {:induction false} FewerThanPositions(points: seq<int>, some: set<int>)
    requires forall x :: x in some ==> x in points
    ensures |some| <= |points|
    ensures |some| == |points| ==> Distinct(points) && forall p :: p in points ==> p in some
  {
    if points == [] {
      assert forall x :: x in some ==> x in points;
    } else {
      var head, rest := points[0], some - {points[0]};
      assert points == [head] + points[1..];
      FewerThanPositions(points[1..], rest);
      if head !in some {
        assert rest == some;
      } else if |some| == |points| {
        assert head !in points[1..];
      }
    }
  }

  // ---------------------------------------------------------------- the ring of a set of hosts

  /** The ring holds the points of the hosts in `members`, each owned by its host, and nothing else. */
  ghost predicate RingOf(hash: Hash, r: Ring, members: set<string>) {
    && Consistent(r)
    && (forall k :: k in r.hosts ==> r.hosts[k] in members && k in Points(hash, r.hosts[k]))
    && (forall h, p :: h in members && p in Points(hash, h) ==> p in r.hosts && r.hosts[p] == h)
  }

  ghost predicate CollisionFree(hash: Hash, members: set<string>) {
    && (forall h :: h in members ==> Distinct(Points(hash, h)))
    && (forall h, g, p :: h in members && g in members && p in Points(hash, h) && p in Points(hash, g) ==> h == g)
  }

  /** The texts that are hashed for the hosts: each host led by the number of the replica. */
  function PointTexts(members: set<string>): set<string> {
    set h, digit | h in members && digit in {"0", "1", "2"} :: digit + h
  }

  predicate InjectiveOn(hash: Hash, texts: set<string>) {
    forall s, t :: s in texts && t in texts && hash(s) == hash(t) ==> s == t
  }

  lemma PointsAre(hash: Hash, h: string)
    ensures Points(hash, h) == [hash("0" + h), hash("1" + h), hash("2" + h)]
  {
    assert Itoa(0) == "0" && Itoa(1) == "1" && Itoa(2) == "2";
  }

  lemma DigitOff(d: string, h: string, e: string, g: string)
    requires |d| == 1 && |e| == 1
    ensures d + h == e + g <==> d == e && h == g
  {
    assert (d + h)[..1] == d && (d + h)[1..] == h && (e + g)[..1] == e && (e + g)[1..] == g;
  }

  predicate Digit(d: string) { d == "0" || d == "1" || d == "2" }

  lemma TextOf(members: set<string>, d: string, h: string)
    requires h in members && Digit(d)
    ensures d + h in PointTexts(members)
  {
  }

  lemma DigitFor(hash: Hash, h: string, p: int) returns (d: string)
    requires p in Points(hash, h)
    ensures Digit(d) && p == hash(d + h)
  {
    PointsAre(hash, h);
    hide Points;
    d := if p == hash("0" + h) then "0" else if p == hash("1" + h) then "1" else "2";
  }

  lemma PointAt(hash: Hash, h: string, d: string)
    requires Digit(d)
    ensures hash(d + h) in Points(hash, h)
  {
    PointsAre(hash, h);
    hide Points;
  }

  lemma InjectiveSeparates(hash: Hash, members: set<string>, h: string, g: string, p: int)
    requires InjectiveOn(hash, PointTexts(members)) && h in members && g in members
    ensures Distinct(Points(hash, h))
    ensures p in Points(hash, h) && p in Points(hash, g) ==> h == g
  {
    TextOf(members, "0", h);
    TextOf(members, "1", h);
    TextOf(members, "2", h);
    PointsAre(hash, h);
    DigitOff("0", h, "1", h);
    DigitOff("0", h, "2", h);
    DigitOff("1", h, "2", h);
    hide Points, PointTexts;
    if p in Points(hash, h) && p in Points(hash, g) {
      var d := DigitFor(hash, h, p);
      var e := DigitFor(hash, g, p);
      TextOf(members, d, h);
      TextOf(members, e, g);
      DigitOff(d, h, e, g);
    }
  }

  lemma SeparateTexts(hash: Hash, members: set<string>, d: string, h: string, e: string, g: string)
    requires CollisionFree(hash, members) && h in members && g in members && Digit(d) && Digit(e)
    requires hash(d + h) == hash(e + g)
    ensures d + h == e + g
  {
    PointAt(hash, h, d);
    PointAt(hash, g, e);
    hide Points;
    assert h == g && Distinct(Points(hash, h));
    PointsAre(hash, h);
    hide CollisionFree;
    assert Points(hash, h)[0] == hash("0" + h) && Points(hash, h)[1] == hash("1" + h);
    assert Points(hash, h)[2] == hash("2" + h);
  }

  /** Hosts are free of collisions exactly when the hash tells apart all texts that are hashed for them. */
  lemma InjectiveIffCollisionFree(hash: Hash, members: set<string>)
    ensures CollisionFree(hash, members) <==> InjectiveOn(hash, PointTexts(members))
  {
    if CollisionFree(hash, members) {
      forall s, t | s in PointTexts(members) && t in PointTexts(members) && hash(s) == hash(t)
        ensures s == t
      {
        var h, d :| h in members && d in {"0", "1", "2"} && s == d + h;
        var g, e :| g in members && e in {"0", "1", "2"} && t == e + g;
        SeparateTexts(hash, members, d, h, e, g);
      }
    }
    if InjectiveOn(hash, PointTexts(members)) {
      hide Points, PointTexts, InjectiveOn;
      forall h, g, p | h in members && g in members
        ensures Distinct(Points(hash, h)) && (p in Points(hash, h) && p in Points(hash, g) ==> h == g)
      {
        InjectiveSeparates(hash, members, h, g, p);
      }
      assert forall h :: h in members ==> Distinct(Points(hash, h)) by {
        forall h | h in members
          ensures Distinct(Points(hash, h))
        {
          InjectiveSeparates(hash, members, h, h, 0);
        }
      }
    }
  }

  /** Every host, listed repeatedly or not, has as many keys as there are replicas. */
  lemma {:induction false} RingSize(hash: Hash, hosts: seq<string>)
    ensures |Build(hash, hosts).keys| == 3 * |hosts|
  {
    if hosts != [] {
      RingSize(hash, hosts[..|hosts| - 1]);
      AddedSize(Build(hash, hosts[..|hosts| - 1]), Points(hash, hosts[|hosts| - 1]), hosts[|hosts| - 1]);
      hide Points, AddPoints;
    }
  }

  lemma AddedSize(r: Ring, points: seq<int>, host: string)
    ensures |AddPoints(r, points, host).keys| == |r.keys| + |points|
  {
    var all := r.keys + points;
    assert |multiset(Sort(all))| == |multiset(all)|;
  }

  /** A set of hosts has one ring. */
  lemma RingIsUnique(hash: Hash, r: Ring, t: Ring, members: set<string>)
    requires RingOf(hash, r, members) && RingOf(hash, t, members)
    ensures r == t
  {
    forall k
      ensures k in r.hosts <==> k in t.hosts
      ensures k in r.hosts ==> r.hosts[k] == t.hosts[k]
    {
      if k in r.hosts {
        assert r.hosts[k] in members && k in Points(hash, r.hosts[k]);
      }
      if k in t.hosts {
        assert t.hosts[k] in members && k in Points(hash, t.hosts[k]);
      }
    }
    SameOwnersSameRing(r, t);
  }

  /** Adding a new host gives the ring of the larger set exactly when its points are distinct and free. */
  lemma AddExtendsRing(hash: Hash, r: Ring, members: set<string>, host: string)
    requires RingOf(hash, r, members) && host !in members
    ensures RingOf(hash, AddHost(hash, r, host), members + {host})
       <==> Distinct(Points(hash, host)) && forall p :: p in Points(hash, host) ==> p !in r.hosts
  {
    AddKeepsConsistent(r, Points(hash, host), host);
    OwnAdds(r.hosts, Points(hash, host), host);
    hide Consistent, Points, Own, Sort, Distinct;
  }

  /** Removing a member without colliding points gives the ring of the smaller set. */
  lemma RemoveShrinksRing(hash: Hash, r: Ring, members: set<string>, host: string)
    requires RingOf(hash, r, members) && host in members && Distinct(Points(hash, host))
    ensures RemoveHost(hash, r, host).Some? && RingOf(hash, RemoveHost(hash, r, host).value, members - {host})
  {
    hide RemovePoints, Points, Consistent;
    assert forall p :: p in Points(hash, host) ==> p in r.hosts;
    RemovePresent(r, Points(hash, host));
    RingWithout(hash, r, RemoveHost(hash, r, host).value, members, host);
  }

  lemma RingWithout(hash: Hash, r: Ring, t: Ring, members: set<string>, host: string)
    requires RingOf(hash, r, members) && host in members && Consistent(t)
    requires forall k :: k in t.hosts <==> k in r.hosts && k !in Points(hash, host)
    requires forall k :: k in t.hosts ==> t.hosts[k] == r.hosts[k]
    ensures RingOf(hash, t, members - {host})
  {
    hide Points, Consistent;
    forall k | k in t.hosts
      ensures t.hosts[k] in members - {host} && k in Points(hash, t.hosts[k])
    {
      assert r.hosts[k] in members && k in Points(hash, r.hosts[k]);
    }
    forall h, p | h in members - {host} && p in Points(hash, h)
      ensures p in t.hosts && t.hosts[p] == h
    {
      assert r.hosts[p] == h && p !in Points(hash, host);
    }
  }

  lemma RemovePointsUndoesAdd(r: Ring, points: seq<int>, host: string)
    requires Consistent(r) && Distinct(points) && forall p :: p in points ==> p !in r.hosts
    ensures RemovePoints(AddPoints(r, points, host), points) == Some(r)
  {
    AddKeepsConsistent(r, points, host);
    OwnAdds(r.hosts, points, host);
    RemovePresent(AddPoints(r, points, host), points);
    SameOwnersSameRing(RemovePoints(AddPoints(r, points, host), points).value, r);
  }

  lemma SameOwnersSameRing(t: Ring, r: Ring)
    requires Consistent(t) && Consistent(r)
    requires forall k :: k in t.hosts <==> k in r.hosts
    requires forall k :: k in r.hosts ==> t.hosts[k] == r.hosts[k]
    ensures t == r
  {
    forall k
      ensures k in t.hosts <==> k in r.hosts
      ensures k in r.hosts ==> t.hosts[k] == r.hosts[k]
    {
    }
    assert t.hosts == r.hosts;
    StrictIsUnique(t.keys, r.keys);
  }

  /** Remove undoes Add, on every consistent ring, for a host whose points are distinct and free. */
  lemma RemoveUndoesAdd(hash: Hash, r: Ring, host: string)
    requires Consistent(r) && Distinct(Points(hash, host)) && forall p :: p in Points(hash, host) ==> p !in r.hosts
    ensures RemoveHost(hash, AddHost(hash, r, host), host) == Some(r)
  {
    RemovePointsUndoesAdd(r, Points(hash, host), host);
  }

  /** NewConsistenceHash builds the ring of its hosts, so the order of the hosts does not matter. */
  lemma {:induction false} BuildIsRing(hash: Hash, hosts: seq<string>)
    requires CollisionFree(hash, Members(hosts)) && NoRepeats(hosts)
    ensures RingOf(hash, Build(hash, hosts), Members(hosts))
  {
    if hosts != [] {
      var init, last := hosts[..|hosts| - 1], hosts[|hosts| - 1];
      assert hosts == init + [last];
      assert Members(hosts) == Members(init) + {last};
      BuildIsRing(hash, init);
      AddExtendsRing(hash, Build(hash, init), Members(init), last);
    }
  }

  lemma BuildIgnoresOrder(hash: Hash, hosts: seq<string>, other: seq<string>)
    requires Members(hosts) == Members(other) && NoRepeats(hosts) && NoRepeats(other)
    requires CollisionFree(hash, Members(hosts))
    ensures Build(hash, hosts) == Build(hash, other)
  {
    BuildIsRing(hash, hosts);
    BuildIsRing(hash, other);
    RingIsUnique(hash, Build(hash, hosts), Build(hash, other), Members(hosts));
  }

  // ---------------------------------------------------------------- who serves a request

  /** `k` is the first key at or after the request going clockwise, starting over at the least key. */
  ghost predicate Successor(keys: seq<int>, request: int, k: int) {
    && k in keys
    && (k >= request ==> forall j :: j in keys && j >= request ==> k <= j)
    && (k < request ==> forall j :: j in keys ==> k <= j < request)
  }

  lemma SuccessorIsUnique(keys: seq<int>, request: int, k: int, j: int)
    requires Successor(keys, request, k) && Successor(keys, request, j)
    ensures k == j
  {
  }

  /** The binary search with wrap-around finds the clockwise successor. */
  lemma SearchFindsSuccessor(keys: seq<int>, request: int)
    requires Sorted(keys) && keys != []
    ensures Successor(keys, request, keys[LowerBound(keys, request) % |keys|])
  {
    var idx := LowerBound(keys, request);
    forall j | j in keys
      ensures j >= request ==> idx < |keys| && keys[idx] <= j
      ensures keys[0] <= j
    {
      var i :| 0 <= i < |keys| && keys[i] == j;
    }
    WrapOnce(idx, |keys|);
  }

  lemma WrapOnce(idx: nat, n: nat)
    requires idx <= n && n > 0
    ensures idx % n == if idx < n then idx else 0
  {
  }

  /** Balance names the owner of the clockwise successor, "" if that key has lost its owner to another host. */
  lemma OwnerIsSuccessor(r: Ring, request: int) returns (k: int)
    requires Sorted(r.keys) && r.keys != []
    ensures Successor(r.keys, request, k) && Owner(r, request) == if k in r.hosts then r.hosts[k] else ""
  {
    k := r.keys[LowerBound(r.keys, request) % |r.keys|];
    SearchFindsSuccessor(r.keys, request);
  }

  /** Adding a host moves requests only to that host. */
  lemma AddDisturbsLittle(hash: Hash, r: Ring, host: string, request: int)
    requires Consistent(r) && r.keys != []
    requires Distinct(Points(hash, host)) && forall p :: p in Points(hash, host) ==> p !in r.hosts
    ensures AddHost(hash, r, host).keys != []
    ensures Owner(AddHost(hash, r, host), request) in {host, Owner(r, request)}
  {
    var points, t := Points(hash, host), AddHost(hash, r, host);
    AddKeepsConsistent(r, points, host);
    OwnAdds(r.hosts, points, host);
    AddedKeys(r, points, host);
    assert r.keys[0] in r.keys;
    assert r.keys[0] in t.keys;
    var k := OwnerIsSuccessor(r, request);
    var k' := OwnerIsSuccessor(t, request);
    if k' !in points {
      SuccessorIsUnique(r.keys, request, k, k');
    }
  }

  lemma AddUndoesRemove(r: Ring, points: seq<int>, host: string)
    requires Consistent(r) && Distinct(points) && forall p :: p in points ==> p in r.hosts && r.hosts[p] == host
    ensures RemovePoints(r, points).Some?
    ensures var t := RemovePoints(r, points).value;
            && Consistent(t) && (forall k :: k in t.hosts <==> k in r.hosts && k !in points)
            && AddPoints(t, points, host) == r
  {
    RemovePresent(r, points);
    var t := RemovePoints(r, points).value;
    hide RemovePoints;
    AddKeepsConsistent(t, points, host);
    OwnAdds(t.hosts, points, host);
    SameOwnersSameRing(AddPoints(t, points, host), r);
  }

  /** Removing a host moves only the requests that host served. */
  lemma RemoveDisturbsLittle(hash: Hash, r: Ring, members: set<string>, host: string, request: int)
    requires RingOf(hash, r, members) && host in members && Distinct(Points(hash, host))
    requires r.keys != [] && Owner(r, request) != host
    ensures RemoveHost(hash, r, host).Some?
    ensures var t := RemoveHost(hash, r, host).value; t.keys != [] && Owner(t, request) == Owner(r, request)
  {
    AddUndoesRemove(r, Points(hash, host), host);
    var t := RemoveHost(hash, r, host).value;
    var k := OwnerIsSuccessor(r, request);
    assert r.hosts[k] != host;
    hide RemovePoints, Points, Owner, AddPoints;
    assert k in t.hosts;
    AddDisturbsLittle(hash, t, host, request);
  }

  // ---------------------------------------------------------------- the balancer object

  lemma OwnNone(hosts: map<int, string>, points: seq<int>, host: string)
    ensures Own(hosts, points[..0], host) == hosts
  {
  }

  lemma OwnNext(hash: Hash, hosts: map<int, string>, host: string, i: nat)
    requires i < REPLICAS
    ensures Points(hash, host)[..i + 1] == Points(hash, host)[..i] + [Point(hash, host, i)]
    ensures Own(hosts, Points(hash, host)[..i + 1], host)
         == Own(hosts, Points(hash, host)[..i], host)[Point(hash, host, i) := host]
  {
    var points := Points(hash, host);
    assert points[..i + 1][..i] == points[..i] && points[..i + 1][i] == Point(hash, host, i);
  }

  lemma RemoveNext(hash: Hash, r: Ring, host: string, i: nat)
    requires i < REPLICAS
    ensures RemovePoints(r, Points(hash, host)[i..])
         == match RemovePoint(r, Point(hash, host, i))
            case None => None
            case Some(t) => RemovePoints(t, Points(hash, host)[i + 1..])
  {
    var points := Points(hash, host);
    assert points[i..][0] == Point(hash, host, i) && points[i..][1..] == points[i + 1..];
  }

  class ConsistenceHash {
    const hash: Hash
    var keys: seq<int>
    var hosts: map<int, string>
    var list: seq<string>

    ghost predicate Valid()
      reads this
    {
      Sorted(keys)
    }

    function State(): Ring
      reads this
    {
      Ring(keys, hosts)
    }

    /** NewConsistenceHash(hosts). */
    constructor (hash: Hash, hosts: seq<string>)
      ensures Valid() && this.hash == hash
      ensures State() == Build(hash, hosts) && list == hosts
    {
      this.hash := hash;
      keys, this.hosts, list := [], map[], [];
      new;
      hide AddHost;
      for i := 0 to |hosts|
        invariant Valid() && State() == Build(hash, hosts[..i]) && list == hosts[..i]
      {
        assert hosts[..i + 1][..i] == hosts[..i];
        Add(hosts[i]);
        list := list + [hosts[i]];
      }
      assert hosts[..|hosts|] == hosts;
    }

    /** Add(host): three more points; `list` is not extended here. */
    method Add(host: string)
      modifies this`keys, this`hosts
      ensures Valid() && State() == AddHost(hash, old(State()), host)
    {
      hide Points, Sort, Point, Own;
      ghost var points := Points(hash, host);
      assert keys == keys + points[..0];
      OwnNone(hosts, points, host);
      for i := 0 to REPLICAS
        invariant keys == old(keys) + points[..i] && hosts == Own(old(hosts), points[..i], host)
      {
        var h := Point(hash, host, i);
        OwnNext(hash, old(hosts), host, i);
        keys := keys + [h];
        hosts := hosts[h := host];
      }
      assert points[..REPLICAS] == points;
      keys := Sort(keys);
    }

    /** One turn of Remove's first loop. */
    method TakeOut(h: int) returns (ok: bool)
      requires Valid()
      modifies this`keys, this`hosts
      ensures Valid() && ok == RemovePoint(old(State()), h).Some?
      ensures ok ==> State() == RemovePoint(old(State()), h).value
    {
      var idx := SearchInts(keys, h);
      if idx == |keys| {
        return false;
      }
      keys := keys[..idx] + keys[idx + 1..];
      hosts := hosts - {h};
      return true;
    }

    /** Remove(host): false when the search runs past the last key, where the slice expression panics. */
    method Remove(host: string) returns (ok: bool)
      requires Valid()
      modifies this`keys, this`hosts, this`list
      ensures Valid() && ok == RemoveHost(hash, old(State()), host).Some?
      ensures ok ==> State() == RemoveHost(hash, old(State()), host).value && list == RemoveFirst(old(list), host)
    {
      hide Point, RemovePoint, Sorted;
      for i := 0 to REPLICAS
        invariant Valid() && list == old(list)
        invariant RemoveHost(hash, old(State()), host) == RemovePoints(State(), Points(hash, host)[i..])
      {
        RemoveNext(hash, State(), host, i);
        ok := TakeOut(Point(hash, host, i));
        if !ok {
          return;
        }
      }
      DropFromList(host);
      ok := true;
    }

    /** Remove's second loop. */
    method DropFromList(host: string)
      modifies this`list
      ensures list == RemoveFirst(old(list), host)
    {
      for i := 0 to |list|
        invariant forall j :: 0 <= j < i ==> list[j] != host
        invariant list == old(list)
      {
        if list[i] == host {
          RemoveFirstAt(list, i);
          list := list[..i] + list[i + 1..];
          return;
        }
      }
    }

    /** Balance for a request whose balancing key is `url`. */
    method Balance(url: string) returns (host: Option<string>)
      requires Valid()
      ensures host == if keys == [] then None else Some(Owner(State(), hash(url)))
    {
      if |keys| == 0 {
        return None;
      }
      var idx := SearchInts(keys, hash(url));
      var key := keys[idx % |keys|];
      host := Some(if key in hosts then hosts[key] else "");
    }
  }
}
