/** The trie against the plain table, over whole runs. */
module AclRuns {
  import opened Text
  import opened Word
  import opened Cidr
  import opened AclSpec
  import opened AclIndex
  import opened TrieShape
  import opened TrieWalk
  import Trie = RadixTree

  /** A call of Add or of Delete. */
  datatype Call = Put(ipNet: string, value: string) | Take(ipNet: string)

  /** Values are not empty, as the proxy's are. */
  predicate Proper(c: Call) { c.Put? ==> c.value != NO_VALUE }

  predicate AllProper(calls: seq<Call>) { forall i :: 0 <= i < |calls| ==> Proper(calls[i]) }

  function Called(a: Acl, c: Call): Acl {
    match c
    case Put(ipNet, value) => AddNet(a, ipNet, value)
    case Take(ipNet) => DeleteNet(a, ipNet)
  }

  function After(a: Acl, calls: seq<Call>): Acl
    decreases |calls|
  {
    if calls == [] then a else After(Called(a, calls[0]), calls[1..])
  }

  // ---------------------------------------------------------------- what can be seen without the tree

  predicate AroundStored(t: Table, p: Prefix) { exists q :: q in t && Covers(p, q) }

  /** How far down the way to `path` there are nodes in a tree that stores `t`. */
  function Depth(t: Table, path: Prefix): (d: nat)
    ensures d <= path.Length()
  {
    if path == Top || AroundStored(t, path) then path.Length() else Depth(t, path.up)
  }

  /** In a pruned tree what is stored tells how far down there are nodes. */
  lemma {:induction false} DepthIs(s: Shape, path: Prefix)
    requires s.Valid() && s.Pruned()
    ensures Deepest(s.nodes, path).Length() == Depth(s.Stored(), path)
  {
    ShapeIsCanonical(s);
    hide Shape.Valid, Shape.Pruned, Shape.Stored, Covers;
    assert path != Top ==> (path in s.nodes <==> AroundStored(s.Stored(), path));
    if path != Top && path !in s.nodes {
      DepthIs(s, path.up);
    }
  }

  /** The length of the free list after a call. */
  function FreeAfter(a: Acl, free: nat, c: Call): nat {
    match c
    case Put(ipNet, _) =>
      if AddResult(ipNet).Done? then Left(free, ParseNet(ipNet).cidr - Depth(a.stored, PathOf(ipNet))) else free
    case Take(ipNet) =>
      if DeleteResult(a, ipNet).Done?
      then free + PathOf(ipNet).Length() - Depth(a.stored - {PathOf(ipNet)}, PathOf(ipNet))
      else free
  }

  /** Whether a call that finds `free` nodes on the free list leaves the tree proper. */
  predicate SafeCall(repaired: bool, a: Acl, free: nat, c: Call) {
    c.Put? && AddResult(c.ipNet).Done? ==>
      Safe(ParseNet(c.ipNet).ip, repaired, Depth(a.stored, PathOf(c.ipNet)), ParseNet(c.ipNet).cidr, free)
  }

  /** Whether all calls do. */
  predicate SafeRun(repaired: bool, a: Acl, free: nat, calls: seq<Call>)
    decreases |calls|
  {
    calls == []
    || (&& SafeCall(repaired, a, free, calls[0])
        && SafeRun(repaired, Called(a, calls[0]), FreeAfter(a, free, calls[0]), calls[1..]))
  }

  /** With recycled nodes' links cleared every run is safe. */
  lemma {:induction false} RepairedIsSafe(a: Acl, free: nat, calls: seq<Call>)
    ensures SafeRun(true, a, free, calls)
    decreases |calls|
  {
    hide Called, FreeAfter;
    if calls != [] {
      RepairedIsSafe(Called(a, calls[0]), FreeAfter(a, free, calls[0]), calls[1..]);
    }
  }

  // ---------------------------------------------------------------- runs of the tree

  /** The tree is proper and pruned, stores `a` and has `free` free nodes. */
  ghost predicate Holds(tree: Trie.RadixTree, a: Acl, free: nat)
    reads tree, tree.pool
  {
    tree.Valid() && tree.Pruned() && tree.View() == a && |tree.freed| == free
  }

  /** One call on a proper tree: it stays proper exactly when the call is safe. */
  method CallOne(tree: Trie.RadixTree, c: Call, ghost a: Acl, ghost free: nat) returns (r: AclResult)
    requires Holds(tree, a, free) && Proper(c)
    modifies tree, tree.pool
    ensures tree.Closed() && fresh(tree.pool - old(tree.pool))
    ensures r == if c.Put? then AddResult(c.ipNet) else DeleteResult(a, c.ipNet)
    ensures tree.Valid() <==> SafeCall(tree.repaired, a, free, c)
    ensures tree.Valid() ==> Holds(tree, Called(a, c), FreeAfter(a, free, c))
  {
    hide Shape.Valid, Shape.Pruned, Shape.Stored, Deepest, Safe, Left, ParseNet, AnswersRight, Depth;
    match c {
      case Put(ipNet, value) =>
        if IsNet(ipNet) {
          DepthIs(tree.Now(), PathOf(ipNet));
        }
        ghost var made;
        r, made := tree.Add(ipNet, value);
      case Take(ipNet) =>
        r := tree.Delete(ipNet);
        if IsNet(ipNet) {
          DepthIs(tree.Now(), PathOf(ipNet));
        }
    }
  }

  lemma ValidIsClosed(tree: Trie.RadixTree)
    requires tree.Valid()
    ensures tree.Closed()
  {
  }

  /**
   * The calls one after the other, up to the first that damages the tree, in either variant. That none does can be told
   * from what is stored and from the length of the free list alone.
   */
  method Play(repaired: bool, calls: seq<Call>) returns (tree: Trie.RadixTree, done: nat)
    requires AllProper(calls)
    ensures fresh(tree) && fresh(tree.pool) && tree.Closed() && done <= |calls|
    ensures done == |calls| <==> SafeRun(repaired, EMPTY_ACL, 0, calls)
    ensures tree.Valid() <==> done == |calls|
    ensures tree.Valid() ==> tree.Pruned() && tree.View() == After(EMPTY_ACL, calls)
  {
    hide Called, SafeCall, FreeAfter, Trie.RadixTree.Valid, Trie.RadixTree.Closed, Trie.RadixTree.Pruned;
    tree := new Trie.RadixTree(repaired);
    assert tree.Closed() by { ValidIsClosed(tree); }
    var table, nodes := EMPTY_ACL, 0;
    done := 0;
    while done < |calls|
      invariant done <= |calls| && tree.repaired == repaired && tree.Closed() && fresh(tree) && fresh(tree.pool)
      invariant Holds(tree, table, nodes)
      invariant After(table, calls[done..]) == After(EMPTY_ACL, calls)
      invariant SafeRun(repaired, table, nodes, calls[done..]) <==> SafeRun(repaired, EMPTY_ACL, 0, calls)
    {
      var c := calls[done];
      assert Proper(c);
      assert calls[done..][0] == c && calls[done..][1..] == calls[done + 1..];
      var safe := SafeCall(repaired, table, nodes, c);
      var r := CallOne(tree, c, table, nodes);
      if !safe {
        return;
      }
      table, nodes := Called(table, c), FreeAfter(table, nodes, c);
      done := done + 1;
    }
  }

  /**
   * Any sequence of additions and deletions, with recycled nodes' links cleared: the tree built from nothing answers
   * every lookup as a scan of the table does that the same sequence leaves. A call that panics changes nothing.
   */
  method SearchAfter(calls: seq<Call>, key: uint32) returns (value: string)
    requires AllProper(calls)
    ensures value == LongestMatch(After(EMPTY_ACL, calls).stored, Bits(key, ADDRESS_BITS))
    ensures value != NO_VALUE
       <==> exists p :: p in After(EMPTY_ACL, calls).stored && Covers(p, Bits(key, ADDRESS_BITS))
  {
    RepairedIsSafe(EMPTY_ACL, 0, calls);
    value := SearchSafely(true, calls, key);
  }

  /** The same in either variant, for runs that are safe. */
  method SearchSafely(repaired: bool, calls: seq<Call>, key: uint32) returns (value: string)
    requires AllProper(calls) && SafeRun(repaired, EMPTY_ACL, 0, calls)
    ensures value == LongestMatch(After(EMPTY_ACL, calls).stored, Bits(key, ADDRESS_BITS))
    ensures value != NO_VALUE
       <==> exists p :: p in After(EMPTY_ACL, calls).stored && Covers(p, Bits(key, ADDRESS_BITS))
  {
    hide After, SafeRun, LongestMatch, Covers, Shape.Valid, Shape.Pruned, Ends, Found;
    var tree, done := Play(repaired, calls);
    MatchIffCovered(tree.View().stored, Bits(key, ADDRESS_BITS));
    value := tree.search(key);
  }
}
