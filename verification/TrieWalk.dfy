/**
 * search's loop on whatever links the nodes have (acl/radix_tree.go:144-160): on a proper tree it is the scan of the
 * table, and on one that an insert has damaged it turns away too many addresses.
 */
module TrieWalk {
  import opened Text
  import opened Word
  import opened Cidr
  import opened AclSpec
  import opened TrieShape

  /** The last value on the way down; None if the way does not end within so many nodes. */
  ghost function Walk(cells: map<RadixNode, Cell>, node: RadixNode?, key: uint32, d: nat, seen: string,
                      steps: nat): Option<string>
    decreases steps
  {
    if node == null then Some(seen)
    else if steps == 0 || node !in cells then None
    else
      var c := cells[node];
      Walk(cells, if HasBit(key, d) then c.right else c.left, key, d + 1,
           if c.value != NO_VALUE then c.value else seen, steps - 1)
  }

  ghost predicate EndsIn(s: Shape, key: uint32, steps: nat) { Walk(s.cells, s.root, key, 0, NO_VALUE, steps).Some? }

  /** The search for an address comes to an end. */
  ghost predicate Ends(s: Shape, key: uint32) { exists steps: nat :: EndsIn(s, key, steps) }

  /** What it then finds. */
  ghost function Found(s: Shape, key: uint32): string
    requires Ends(s, key)
  {
    var steps: nat :| EndsIn(s, key, steps);
    Walk(s.cells, s.root, key, 0, NO_VALUE, steps).value
  }

  lemma {:induction false} WalkIsOne(cells: map<RadixNode, Cell>, node: RadixNode?, key: uint32, d: nat, seen: string,
                                     m: nat, n: nat)
    requires Walk(cells, node, key, d, seen, m).Some? && Walk(cells, node, key, d, seen, n).Some?
    ensures Walk(cells, node, key, d, seen, m) == Walk(cells, node, key, d, seen, n)
    decreases m
  {
    if node != null {
      var c := cells[node];
      WalkIsOne(cells, if HasBit(key, d) then c.right else c.left, key, d + 1,
                if c.value != NO_VALUE then c.value else seen, m - 1, n - 1);
    }
  }

  lemma FoundIs(s: Shape, key: uint32, steps: nat)
    requires EndsIn(s, key, steps)
    ensures Ends(s, key) && Some(Found(s, key)) == Walk(s.cells, s.root, key, 0, NO_VALUE, steps)
  {
    var n: nat :| EndsIn(s, key, n) && Found(s, key) == Walk(s.cells, s.root, key, 0, NO_VALUE, n).value;
    WalkIsOne(s.cells, s.root, key, 0, NO_VALUE, n, steps);
  }

  // ---------------------------------------------------------------- a proper tree

  lemma {:induction false} WalkScans(s: Shape, key: uint32, d: nat, node: RadixNode?, seen: string, steps: nat)
    requires s.Valid() && d <= 33 && node == s.At(Bits(key, d)) && (d == 0 || Bits(key, d - 1) in s.nodes)
    requires seen == SeenBefore(s, key, d) && steps + d >= 33
    ensures Walk(s.cells, node, key, d, seen, steps) == Some(LongestMatch(s.Stored(), Bits(key, ADDRESS_BITS)))
    decreases 33 - d
  {
    hide Shape.ValidBut, SeenBefore, LongestMatch, Shape.Stored, Bits, HasBit;
    RootIsTop(s);
    if node == null {
      assert Bits(key, 0) == Top by { NoBits(key); }
      SeenAll(s, key, d);
    } else {
      Descend(s, key, d);
      SeeNode(s, key, d);
      var c := s.cells[node];
      WalkScans(s, key, d + 1, if HasBit(key, d) then c.right else c.left,
                if c.value != NO_VALUE then c.value else seen, steps - 1);
    }
  }

  lemma NoBits(key: uint32)
    ensures Bits(key, 0) == Top
  {
  }

  /** On a proper tree every search ends, and with what the scan of the table gives. */
  lemma ProperFinds(s: Shape, key: uint32)
    requires s.Valid()
    ensures Ends(s, key) && Found(s, key) == LongestMatch(s.Stored(), Bits(key, ADDRESS_BITS))
  {
    RootIsTop(s);
    SeenEnds(s, key);
    WalkScans(s, key, 0, s.root, NO_VALUE, 33);
    hide Shape.ValidBut, LongestMatch;
    FoundIs(s, key, 33);
  }

  // ---------------------------------------------------------------- a damaged tree

  /** What insert makes of the proper tree `s0`: broken nodes, and a stored network that may have a free-list link. */
  ghost predicate Crooked(s0: Shape, t: Shape, key: uint32, depth: nat, cidr: nat, repaired: bool) {
    var path, broken := Bits(key, cidr), Broken(key, repaired, depth, cidr, |s0.freed|);
    && s0.Valid() && depth <= cidr <= 32 && (depth < cidr ==> Bits(key, depth + 1) !in s0.nodes)
    && t.ValidBut(broken + {path}) && (forall q :: q in broken ==> q in t.nodes && t.TwoSided(t.CellAt(q)))
    && (forall q :: q in t.nodes <==> q in s0.nodes || Covers(q, path))
    && (t.RightOf(path) == t.At(Sub(path, true)) || t.RightOf(path) == t.free)
    && t.Value(path) != NO_VALUE && t.Stored() == s0.Stored()[path := t.Value(path)]
  }

  /** The network whose way the search takes: at a broken node both ways lead to the left. */
  ghost function Led(broken: set<Prefix>, x: uint32, n: nat): (p: Prefix)
    ensures p.Length() == n
  {
    if n == 0 then Top
    else
      var up := Led(broken, x, n - 1);
      Sub(up, HasBit(x, n - 1) && up !in broken)
  }

  /** On the free list the search ends, whatever old values it comes across. */
  lemma {:induction false} WalkFreeList(t: Shape, i: nat, x: uint32, d: nat, seen: string, steps: nat)
    requires t.FreeList() && i <= |t.freed| && seen != NO_VALUE && steps >= |t.freed| - i
    ensures var r := Walk(t.cells, if i < |t.freed| then t.freed[i] else null, x, d, seen, steps);
            r.Some? && r.value != NO_VALUE
    decreases |t.freed| - i
  {
    if i < |t.freed| {
      var c := t.cells[t.freed[i]];
      assert c.right == NodeAfter(t.freed, i) && t.freed[i] in t.freed;
      var value := if c.value != NO_VALUE then c.value else seen;
      if HasBit(x, d) {
        WalkFreeList(t, i + 1, x, d + 1, value, steps - 1);
      }
    }
  }

  /** One step of the walk: it stays on the way it is led, or leaves the stored network for the free list. */
  lemma LedOn(s0: Shape, t: Shape, key: uint32, depth: nat, cidr: nat, repaired: bool, x: uint32, d: nat)
    requires Crooked(s0, t, key, depth, cidr, repaired)
    requires Led(Broken(key, repaired, depth, cidr, |s0.freed|), x, d) in t.nodes
    ensures var broken := Broken(key, repaired, depth, cidr, |s0.freed|);
            var p := Led(broken, x, d);
            var next := if HasBit(x, d) then t.CellAt(p).right else t.CellAt(p).left;
            && d <= 32 && t.nodes[p] in t.cells
            && (next == t.At(Led(broken, x, d + 1)) || (p == Bits(key, cidr) && next == t.free))
  {
    hide Shape.Placed, Shape.LinkedLeftAndUp, Shape.LinkedRight, Shape.FreeList, Shape.AllAccounted, Shape.Stored,
         Covers, Broken, HasBit, Shape.CellAt, Bits;
    var broken := Broken(key, repaired, depth, cidr, |s0.freed|);
    var p := Led(broken, x, d);
    assert Led(broken, x, d + 1) == Sub(p, HasBit(x, d) && p !in broken);
    NodeLinks(t, broken + {Bits(key, cidr)}, p);
    hide Led;
  }

  /** The links of one node. */
  lemma NodeLinks(t: Shape, loose: set<Prefix>, p: Prefix)
    requires t.Placed() && t.Linked(loose) && p in t.nodes
    ensures p.Length() <= 32 && t.nodes[p] in t.cells && t.CellAt(p).left == t.At(Sub(p, false))
    ensures p !in loose ==> t.CellAt(p).right == t.At(Sub(p, true))
  {
    assert p !in loose ==> t.RightOf(p) == t.At(Sub(p, true));
  }

  /** The best value on the first `d` nodes of the way. */
  ghost function SeenOn(t: Shape, broken: set<Prefix>, x: uint32, d: nat): string {
    if d == 0 then NO_VALUE else LongestMatch(t.Stored(), Led(broken, x, d - 1))
  }

  lemma SeeOn(t: Shape, broken: set<Prefix>, x: uint32, d: nat)
    requires Led(broken, x, d) in t.nodes
    ensures var v := t.Value(Led(broken, x, d));
            && SeenOn(t, broken, x, d + 1) == (if v != NO_VALUE then v else SeenOn(t, broken, x, d))
            && (v != NO_VALUE ==> Led(broken, x, d) in t.Stored())
  {
  }

  /** Past the last node of the way nothing is stored. */
  lemma {:induction false} NothingOn(t: Shape, broken: set<Prefix>, x: uint32, d: nat, e: nat)
    requires t.Placed() && d <= e && (d > 0 ==> Led(broken, x, d) !in t.nodes)
    ensures d > 0 ==> Led(broken, x, e) !in t.nodes
                      && LongestMatch(t.Stored(), Led(broken, x, e)) == SeenOn(t, broken, x, d)
    decreases e
  {
    hide Shape.CellAt;
    if d > 0 {
      assert Led(broken, x, e) == Sub(Led(broken, x, e - 1), HasBit(x, e - 1) && Led(broken, x, e - 1) !in broken);
      if d < e {
        NothingOn(t, broken, x, d, e - 1);
      }
    }
  }

  /** What is stored around a network stored on the way is found at its end. */
  lemma {:induction false} StoredOn(t: Shape, broken: set<Prefix>, x: uint32, d: nat, e: nat)
    requires d <= e && Led(broken, x, d) in t.Stored()
    ensures LongestMatch(t.Stored(), Led(broken, x, e)) != NO_VALUE
    decreases e
  {
    hide Shape.Stored;
    if d < e {
      StoredOn(t, broken, x, d, e - 1);
    }
  }

  lemma CrookedParts(s0: Shape, t: Shape, key: uint32, depth: nat, cidr: nat, repaired: bool)
    requires Crooked(s0, t, key, depth, cidr, repaired)
    ensures t.Placed() && t.FreeList() && Bits(key, cidr) in t.Stored() && cidr <= 32
    ensures t.root == t.At(Top)
  {
  }

  /** The search ends, and finds something exactly when something is stored around the address it is led to. */
  lemma {:induction false} WalkCrooked(s0: Shape, t: Shape, key: uint32, depth: nat, cidr: nat, repaired: bool,
                                       x: uint32, d: nat, node: RadixNode?, seen: string, steps: nat)
    requires Crooked(s0, t, key, depth, cidr, repaired)
    requires var broken := Broken(key, repaired, depth, cidr, |s0.freed|);
             && d <= 33 && node == t.At(Led(broken, x, d)) && (d == 0 || Led(broken, x, d - 1) in t.nodes)
             && seen == SeenOn(t, broken, x, d) && steps + d >= 33 + |t.freed|
    ensures var broken := Broken(key, repaired, depth, cidr, |s0.freed|);
            var r := Walk(t.cells, node, x, d, seen, steps);
            r.Some? && (r.value != NO_VALUE <==> LongestMatch(t.Stored(), Led(broken, x, ADDRESS_BITS)) != NO_VALUE)
    decreases 33 - d
  {
    hide Crooked, Broken, Led, SeenOn, LongestMatch, Shape.Stored, Shape.Placed, Shape.FreeList, HasBit, Bits;
    var broken := Broken(key, repaired, depth, cidr, |s0.freed|);
    CrookedParts(s0, t, key, depth, cidr, repaired);
    if node == null {
      WayEnds(t, broken, x, d);
    } else {
      LedOn(s0, t, key, depth, cidr, repaired, x, d);
      SeeOn(t, broken, x, d);
      var c := t.cells[node];
      var next := if HasBit(x, d) then c.right else c.left;
      var value := if c.value != NO_VALUE then c.value else seen;
      if next == t.At(Led(broken, x, d + 1)) {
        WalkCrooked(s0, t, key, depth, cidr, repaired, x, d + 1, next, value, steps - 1);
      } else {
        StoredOn(t, broken, x, d, ADDRESS_BITS);
        FreeHead(t);
        assert c.value != NO_VALUE by { StoredHere(t, Bits(key, cidr)); }
        WalkFreeList(t, 0, x, d + 1, value, steps - 1);
      }
    }
  }

  lemma WayEnds(t: Shape, broken: set<Prefix>, x: uint32, d: nat)
    requires t.Placed() && d <= 33 && Led(broken, x, d) !in t.nodes
    ensures d > 0 && SeenOn(t, broken, x, d) == LongestMatch(t.Stored(), Led(broken, x, ADDRESS_BITS))
  {
    assert Led(broken, x, 0) == Top;
    if d <= ADDRESS_BITS {
      NothingOn(t, broken, x, d, ADDRESS_BITS);
    }
  }

  lemma FreeHead(t: Shape)
    requires t.FreeList()
    ensures t.free == if t.freed == [] then null else t.freed[0]
  {
  }

  lemma StoredHere(t: Shape, p: Prefix)
    requires p in t.Stored()
    ensures t.CellAt(p).value != NO_VALUE
  {
  }

  lemma WayStarts(t: Shape, broken: set<Prefix>, x: uint32)
    ensures Led(broken, x, 0) == Top && SeenOn(t, broken, x, 0) == NO_VALUE
  {
  }

  lemma CrookedFinds(s0: Shape, t: Shape, key: uint32, depth: nat, cidr: nat, repaired: bool, x: uint32)
    requires Crooked(s0, t, key, depth, cidr, repaired)
    ensures var broken := Broken(key, repaired, depth, cidr, |s0.freed|);
            && Ends(t, x)
            && (Found(t, x) != NO_VALUE <==> LongestMatch(t.Stored(), Led(broken, x, ADDRESS_BITS)) != NO_VALUE)
  {
    hide Crooked, Broken, Led, SeenOn, LongestMatch, Shape.Stored, Shape.Placed, Shape.FreeList, Shape.At, Bits;
    var broken := Broken(key, repaired, depth, cidr, |s0.freed|);
    CrookedParts(s0, t, key, depth, cidr, repaired);
    WayStarts(t, broken, x);
    WalkCrooked(s0, t, key, depth, cidr, repaired, x, 0, t.root, NO_VALUE, 33 + |t.freed|);
    FoundIs(t, x, 33 + |t.freed|);
  }

  // ---------------------------------------------------------------- whom a damaged tree turns away

  /** The address differs from the network's only where a broken node leads astray. */
  predicate Mimics(x: uint32, key: uint32, repaired: bool, depth: nat, n: nat, recycled: nat) {
    forall i: nat :: i < n ==> HasBit(x, i) == HasBit(key, i) || Breaks(key, repaired, depth, i, recycled)
  }

  /** Such addresses are led to the network. */
  lemma {:induction false} LedToPath(x: uint32, key: uint32, repaired: bool, depth: nat, n: nat, cidr: nat,
                                     recycled: nat)
    requires n <= cidr
    ensures Led(Broken(key, repaired, depth, cidr, recycled), x, n) == Bits(key, n)
       <==> Mimics(x, key, repaired, depth, n, recycled)
  {
    hide Breaks, HasBit, Broken;
    if n > 0 {
      LedToPath(x, key, repaired, depth, n - 1, cidr, recycled);
      BrokenIs(key, repaired, depth, cidr, recycled, Bits(key, n - 1));
      BreaksLeft(key, repaired, depth, n - 1, recycled);
    }
  }

  lemma BreaksLeft(key: uint32, repaired: bool, depth: nat, d: nat, recycled: nat)
    ensures Breaks(key, repaired, depth, d, recycled) ==> !HasBit(key, d)
  {
  }

  /** In the tree that was there before nobody is led astray. */
  lemma {:induction false} LedBefore(s0: Shape, broken: set<Prefix>, x: uint32, n: nat)
    requires s0.Placed() && forall q :: q in broken ==> q !in s0.nodes
    ensures (Led(broken, x, n) in s0.nodes || Bits(x, n) in s0.nodes) ==> Led(broken, x, n) == Bits(x, n)
  {
    hide Shape.CellAt, HasBit;
    if n > 0 {
      LedBefore(s0, broken, x, n - 1);
    }
  }

  lemma {:induction false} LedCovers(broken: set<Prefix>, x: uint32, n: nat, p: Prefix)
    ensures Covers(p, Led(broken, x, n)) <==> p.Length() <= n && p == Led(broken, x, p.Length())
  {
    if n > 0 {
      LedCovers(broken, x, n - 1, p);
    }
  }

  lemma BrokenIsNew(s0: Shape, key: uint32, depth: nat, cidr: nat, repaired: bool, q: Prefix)
    requires s0.Valid() && (depth < cidr ==> Bits(key, depth + 1) !in s0.nodes)
    requires q in Broken(key, repaired, depth, cidr, |s0.freed|)
    ensures q !in s0.nodes
  {
    BrokenIs(key, repaired, depth, cidr, |s0.freed|, q);
    hide Shape.ValidBut, Broken;
    NothingBelow(s0, key, depth + 1, q.Length());
  }

  /** A network stored before covers the way an address is led exactly when it covers the address. */
  lemma OldNetworks(s0: Shape, t: Shape, key: uint32, depth: nat, cidr: nat, repaired: bool, x: uint32, p: Prefix)
    requires Crooked(s0, t, key, depth, cidr, repaired) && p in s0.Stored()
    ensures Covers(p, Led(Broken(key, repaired, depth, cidr, |s0.freed|), x, ADDRESS_BITS))
       <==> Covers(p, Bits(x, ADDRESS_BITS))
  {
    var broken := Broken(key, repaired, depth, cidr, |s0.freed|);
    assert s0.Placed() && p in s0.nodes && forall q :: q in broken ==> q !in s0.nodes by {
      forall q | q in broken
        ensures q !in s0.nodes
      {
        BrokenIsNew(s0, key, depth, cidr, repaired, q);
      }
    }
    hide Crooked, Broken, Led, Bits, Shape.Placed, Shape.Stored, Covers;
    LedBefore(s0, broken, x, p.Length());
    LedCovers(broken, x, ADDRESS_BITS, p);
    AroundBits(x, ADDRESS_BITS, p);
  }

  /** The new network covers the way an address is led exactly when the address mimics the network. */
  lemma NewNetwork(key: uint32, repaired: bool, depth: nat, cidr: nat, recycled: nat, x: uint32)
    requires cidr <= 32
    ensures Covers(Bits(key, cidr), Led(Broken(key, repaired, depth, cidr, recycled), x, ADDRESS_BITS))
       <==> Mimics(x, key, repaired, depth, cidr, recycled)
  {
    hide Broken, Led, Bits, Covers, Mimics;
    LedCovers(Broken(key, repaired, depth, cidr, recycled), x, ADDRESS_BITS, Bits(key, cidr));
    LedToPath(x, key, repaired, depth, cidr, cidr, recycled);
  }

  lemma {:induction false} SameBits(x: uint32, key: uint32, n: nat)
    ensures Bits(x, n) == Bits(key, n) <==> forall i: nat :: i < n ==> HasBit(x, i) == HasBit(key, i)
  {
    hide HasBit;
    if n > 0 {
      SameBits(x, key, n - 1);
    }
  }

  /**
   * After an insert that reused freed nodes badly, the search still ends for every address, and turns away whom the
   * stored networks cover, and besides them just the addresses that mimic the inserted network.
   */
  lemma CrookedForbids(s0: Shape, t: Shape, key: uint32, depth: nat, cidr: nat, repaired: bool, x: uint32)
    requires Crooked(s0, t, key, depth, cidr, repaired)
    ensures Ends(t, x)
    ensures Found(t, x) != NO_VALUE
       <==> Forbidden(t.Stored(), x) || Mimics(x, key, repaired, depth, cidr, |s0.freed|)
  {
    var path, broken := Bits(key, cidr), Broken(key, repaired, depth, cidr, |s0.freed|);
    var way := Led(broken, x, ADDRESS_BITS);
    assert cidr <= 32 && t.Stored().Keys == s0.Stored().Keys + {path};
    CrookedFinds(s0, t, key, depth, cidr, repaired, x);
    MatchIffCovered(t.Stored(), way);
    ForbiddenIffCovered(t.Stored(), x);
    NewNetwork(key, repaired, depth, cidr, |s0.freed|, x);
    assert Covers(path, Bits(x, ADDRESS_BITS)) ==> Mimics(x, key, repaired, depth, cidr, |s0.freed|) by {
      AroundBits(x, ADDRESS_BITS, path);
      SameBits(x, key, cidr);
    }
    assert path in t.Stored();
    forall p | p in s0.Stored()
      ensures p in t.Stored() && (Covers(p, way) <==> Covers(p, Bits(x, ADDRESS_BITS)))
    {
      OldNetworks(s0, t, key, depth, cidr, repaired, x, p);
    }
    hide Crooked, Broken, Led, Bits, Covers, Mimics, Shape.Stored, Found, Ends, Forbidden, LongestMatch;
  }

  // ---------------------------------------------------------------- when damage does harm

  ghost predicate Covered(t: Table, p: Prefix) { exists q :: q in t && Covers(q, p) }

  /** The bits of `key` with bit `i` set. */
  function WithBit(key: uint32, i: nat, n: nat): (p: Prefix)
    ensures p.Length() == n
  {
    if n == 0 then Top else Sub(WithBit(key, i, n - 1), n - 1 == i || HasBit(key, n - 1))
  }

  lemma {:induction false} WithBitTests(x: uint32, key: uint32, i: nat, n: nat, j: nat)
    requires Bits(x, n) == WithBit(key, i, n) && j < n
    ensures HasBit(x, j) <==> j == i || HasBit(key, j)
  {
    hide HasBit;
    if j < n - 1 {
      WithBitTests(x, key, i, n - 1, j);
    }
  }

  /** An address that a broken node leads astray. */
  lemma Astray(key: uint32, repaired: bool, depth: nat, cidr: nat, recycled: nat, i: nat) returns (x: uint32)
    requires cidr <= 32 && i < cidr && Breaks(key, repaired, depth, i, recycled)
    ensures Mimics(x, key, repaired, depth, cidr, recycled)
    ensures Bits(x, cidr) != Bits(key, cidr) && forall n: nat :: n <= i ==> Bits(x, n) == Bits(key, n)
  {
    x := NetworkAddress(WithBit(key, i, cidr));
    BitsOfNetworkAddress(WithBit(key, i, cidr));
    forall j: nat | j < cidr
      ensures HasBit(x, j) <==> j == i || HasBit(key, j)
    {
      WithBitTests(x, key, i, cidr, j);
    }
    SameBits(x, key, cidr);
    hide HasBit, Bits, WithBit, NetworkAddress;
    forall n: nat | n <= i
      ensures Bits(x, n) == Bits(key, n)
    {
      SameBits(x, key, n);
    }
  }

  /** An address led astray that nothing stored covers, unless something covers the last old node of the way. */
  lemma AstrayIsFree(s0: Shape, t: Shape, key: uint32, depth: nat, cidr: nat, repaired: bool, x: uint32)
    requires Crooked(s0, t, key, depth, cidr, repaired) && depth < cidr
    requires Bits(x, cidr) != Bits(key, cidr) && Bits(x, depth) == Bits(key, depth)
    requires Bits(x, depth + 1) == Bits(key, depth + 1)
    ensures Forbidden(t.Stored(), x) ==> Covered(s0.Stored(), Bits(key, depth))
  {
    var path := Bits(key, cidr);
    assert cidr <= 32 && s0.Placed() && Bits(key, depth + 1) !in s0.nodes;
    assert t.Stored().Keys == s0.Stored().Keys + {path};
    ForbiddenIffCovered(t.Stored(), x);
    assert forall q :: q in s0.Stored() ==> q in s0.nodes;
    hide Crooked, Bits, Covers, Shape.Stored, Forbidden, Shape.Placed;
    if Forbidden(t.Stored(), x) {
      var p :| p in t.Stored() && Covers(p, Bits(x, ADDRESS_BITS));
      AroundBits(x, ADDRESS_BITS, p);
      assert p in s0.Stored();
      var m := p.Length();
      if m <= depth {
        AroundBits(x, depth, p);
      } else {
        AroundBits(x, m, Bits(x, depth + 1));
        CoversPlaced(s0, Bits(x, depth + 1), p);
      }
    }
  }

  /** Where a stored network covers the last old node of the way, mimics of the new network are turned away anyway. */
  lemma CoveredAnyway(s0: Shape, t: Shape, key: uint32, depth: nat, cidr: nat, repaired: bool, x: uint32)
    requires Crooked(s0, t, key, depth, cidr, repaired) && Mimics(x, key, repaired, depth, cidr, |s0.freed|)
    requires Covered(s0.Stored(), Bits(key, depth))
    ensures Forbidden(t.Stored(), x)
  {
    assert depth <= cidr <= 32 && t.Stored().Keys == s0.Stored().Keys + {Bits(key, cidr)};
    ForbiddenIffCovered(t.Stored(), x);
    SameBits(x, key, depth);
    hide Crooked, Bits, Covers, Shape.Stored, Forbidden;
    var q :| q in s0.Stored() && Covers(q, Bits(key, depth));
    AroundBits(x, ADDRESS_BITS, Bits(x, depth));
    CoversThrough(q, Bits(key, depth), Bits(x, ADDRESS_BITS));
    assert q in t.Stored();
  }

  lemma UnbrokenIsExact(s0: Shape, t: Shape, key: uint32, depth: nat, cidr: nat, repaired: bool, x: uint32)
    requires Crooked(s0, t, key, depth, cidr, repaired) && Mimics(x, key, repaired, depth, cidr, |s0.freed|)
    requires Broken(key, repaired, depth, cidr, |s0.freed|) == {}
    ensures Forbidden(t.Stored(), x)
  {
    var path := Bits(key, cidr);
    assert cidr <= 32 && path in t.Stored();
    ForbiddenIffCovered(t.Stored(), x);
    forall i: nat | i < cidr
      ensures HasBit(x, i) == HasBit(key, i)
    {
      BrokenIs(key, repaired, depth, cidr, |s0.freed|, Bits(key, i));
    }
    SameBits(x, key, cidr);
    AroundBits(x, ADDRESS_BITS, path);
    hide Crooked, Bits, Covers, Shape.Stored, Forbidden, Broken, Mimics;
  }

  /** Every address is answered for as the table says. */
  ghost predicate AnswersRight(t: Shape) {
    forall x: uint32 :: Ends(t, x) && (Found(t, x) != NO_VALUE <==> Forbidden(t.Stored(), x))
  }

  /**
   * What can be seen before an insert: every recycled node of the new path but its last gets its child on the right,
   * or a stored network covers the node the new path starts from.
   */
  ghost predicate Harmless(s0: Shape, key: uint32, repaired: bool, depth: nat, cidr: nat) {
    || repaired || Covered(s0.Stored(), Bits(key, depth))
    || AllRight(key, depth + 1, if cidr < depth + |s0.freed| then cidr else depth + |s0.freed|)
  }

  /** Which inserts do harm: this decides whether all answers stay right. */
  lemma CrookedHarms(s0: Shape, t: Shape, key: uint32, depth: nat, cidr: nat, repaired: bool)
    requires Crooked(s0, t, key, depth, cidr, repaired)
    ensures AnswersRight(t) <==> Harmless(s0, key, repaired, depth, cidr)
  {
    var recycled := |s0.freed|;
    NoneBroken(key, repaired, depth, cidr, recycled);
    assert depth <= cidr <= 32;
    hide Crooked, Bits, Covered, Shape.Stored, Forbidden, Broken, Mimics, Found, Ends, HasBit;
    if Broken(key, repaired, depth, cidr, recycled) == {} || Covered(s0.Stored(), Bits(key, depth)) {
      forall x: uint32
        ensures Ends(t, x) && (Found(t, x) != NO_VALUE <==> Forbidden(t.Stored(), x))
      {
        CrookedForbids(s0, t, key, depth, cidr, repaired, x);
        if Mimics(x, key, repaired, depth, cidr, recycled) {
          if Broken(key, repaired, depth, cidr, recycled) == {} {
            UnbrokenIsExact(s0, t, key, depth, cidr, repaired, x);
          } else {
            CoveredAnyway(s0, t, key, depth, cidr, repaired, x);
          }
        }
      }
    } else {
      var i: nat :| depth + 1 <= i < (if cidr < depth + recycled then cidr else depth + recycled) && !HasBit(key, i);
      var x := Astray(key, repaired, depth, cidr, recycled, i);
      CrookedForbids(s0, t, key, depth, cidr, repaired, x);
      AstrayIsFree(s0, t, key, depth, cidr, repaired, x);
    }
  }

  // ---------------------------------------------------------------- what insert leaves

  /** What is left of a free list of length `recycled` when `taken` nodes are needed. */
  function Left(recycled: nat, taken: int): nat { if recycled <= taken then 0 else recycled - taken }

  lemma GrownIsCrooked(s0: Shape, s: Shape, key: uint32, depth: nat, cidr: nat, repaired: bool, value: string)
    requires Growing(s0, s, key, depth, cidr, cidr, repaired) && s0.Valid() && value != NO_VALUE
    requires depth < cidr ==> Bits(key, depth + 1) !in s0.nodes
    ensures Bits(key, cidr) in s.nodes && Crooked(s0, Assign(s, Bits(key, cidr), value), key, depth, cidr, repaired)
  {
    hide Shape.ValidBut, Shape.Valid, Broken, Covers, Bits, GrowingValues, Shape.Stored, Assign, Shape.CellAt;
    var path, broken := Bits(key, cidr), Broken(key, repaired, depth, cidr, |s0.freed|);
    var t := Assign(s, path, value);
    AssignKeeps(s, path, value, broken + {path});
    CellsAfterAssign(s, path, value, broken + {path});
    StoredAfterAssign(s, path, value, broken + {path});
    SameNodes(s, path, value);
    BrokenSides(s0, s, path, broken);
  }

  lemma SameNodes(s: Shape, p: Prefix, value: string)
    requires p in s.nodes
    ensures Assign(s, p, value).nodes == s.nodes && Assign(s, p, value).free == s.free
  {
  }

  lemma BrokenSides(s0: Shape, s: Shape, cur: Prefix, broken: set<Prefix>)
    requires GrowingValues(s0, s, cur, broken)
    ensures s.Stored() == s0.Stored() && forall q :: q in broken ==> s.TwoSided(s.CellAt(q))
    ensures forall q :: q in s.nodes <==> q in s0.nodes || Covers(q, cur)
  {
  }

  /** What inserting `value` makes of the proper tree `s0`, whose way down ended at `depth`. */
  ghost predicate Inserted(s0: Shape, t: Shape, key: uint32, depth: nat, cidr: nat, repaired: bool, value: string) {
    && t.Stored() == Store(s0.Stored(), Bits(key, cidr), value)
    && (s0.Pruned() && value != NO_VALUE ==> t.Pruned())
    && (Safe(key, repaired, depth, cidr, |s0.freed|) ==> t.Valid())
    && (!Safe(key, repaired, depth, cidr, |s0.freed|) ==> t.Damaged() && !t.Valid())
    && |t.freed| == Left(|s0.freed|, cidr - depth)
    && (value != NO_VALUE ==> Crooked(s0, t, key, depth, cidr, repaired))
  }

  lemma GrowEnds(s0: Shape, s: Shape, key: uint32, depth: nat, cidr: nat, repaired: bool, value: string)
    requires Growing(s0, s, key, depth, cidr, cidr, repaired) && s0.Valid()
    requires depth < cidr ==> Bits(key, depth + 1) !in s0.nodes
    ensures Bits(key, cidr) in s.nodes
    ensures Inserted(s0, Assign(s, Bits(key, cidr), value), key, depth, cidr, repaired, value)
  {
    GrowReady(s0, s, key, depth, cidr, cidr, repaired);
    hide Growing, Crooked, Shape.ValidBut, Assign, Bits, Safe, Shape.Damaged, Shape.Stored, Shape.Pruned;
    GrowEnd(s0, s, key, depth, cidr, repaired, value);
    if value != NO_VALUE {
      GrownIsCrooked(s0, s, key, depth, cidr, repaired, value);
    }
  }

  lemma InsertedIs(s0: Shape, t: Shape, key: uint32, depth: nat, cidr: nat, repaired: bool, value: string)
    requires Inserted(s0, t, key, depth, cidr, repaired, value)
    ensures t.Stored() == Store(s0.Stored(), Bits(key, cidr), value)
    ensures s0.Pruned() && value != NO_VALUE ==> t.Pruned()
    ensures Safe(key, repaired, depth, cidr, |s0.freed|) ==> t.Valid()
    ensures !Safe(key, repaired, depth, cidr, |s0.freed|) ==> t.Damaged() && !t.Valid()
    ensures |t.freed| == Left(|s0.freed|, cidr - depth)
    ensures value != NO_VALUE ==> Crooked(s0, t, key, depth, cidr, repaired)
    ensures value != NO_VALUE ==> (AnswersRight(t) <==> Harmless(s0, key, repaired, depth, cidr))
  {
    hide Crooked, Shape.Valid, Bits, Safe, Shape.Damaged, Shape.Stored, Shape.Pruned, AnswersRight, Harmless;
    if value != NO_VALUE {
      CrookedHarms(s0, t, key, depth, cidr, repaired);
    }
  }
}
