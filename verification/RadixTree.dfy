/** acl/radix_tree.go: the binary trie over IPv4 networks, its free list and its text index. */
module RadixTree {
  import opened Text
  import opened Word
  import opened Cidr
  import opened AclSpec
  import opened TrieShape
  import opened TrieLinks
  import opened TrieWalk

  class RadixTree {
    var root: RadixNode
    var free: RadixNode?
    var Record: set<string>
    /** False: `newNode` as committed. True: with `node.right = nil` added before a recycled node is returned. */
    const repaired: bool

    ghost var nodes: map<Prefix, RadixNode>
    ghost var place: map<RadixNode, Prefix>
    ghost var freed: seq<RadixNode>
    ghost var pool: set<RadixNode>           // every node this tree ever allocated

    ghost function Cells(): (c: map<RadixNode, Cell>)
      reads this`pool, pool
      ensures c.Keys == pool
    {
      map n | n in pool :: Cell(n.left, n.right, n.parent, n.value)
    }

    /** The shape the nodes have now. */
    ghost function Now(): Shape
      reads this, pool
    {
      Shape(root, free, nodes, place, freed, Cells())
    }

    /** The links alone. */
    ghost function NowLinks(): (l: Links)
      reads this, pool
      ensures l == LinksOf(Now())
    {
      Links(root, free, Cells())
    }

    /** No link leads out of the tree's own nodes: this holds of damaged trees too. */
    ghost predicate Closed()
      reads this, pool
    {
      NowLinks().Closed()
    }

    ghost predicate Valid()
      reads this, pool
    {
      Closed() && Now().Valid()
    }

    ghost predicate Pruned()
      reads this, pool
    {
      Now().Pruned()
    }

    /** What the tree stores, and its text index. */
    ghost function View(): Acl
      reads this, pool
    {
      Acl(Now().Stored(), Record)
    }

    constructor (repaired: bool)
      ensures Valid() && Pruned() && fresh(pool)
      ensures View() == EMPTY_ACL && this.repaired == repaired && freed == []
    {
      this.repaired := repaired;
      var node := new RadixNode();
      root, free, Record := node, null, {};
      nodes, place, freed, pool := map[Top := node], map[node := Top], [], {node};
      new;
      assert Cells() == map[node := FRESH_CELL];
      hide Shape.Valid, Shape.Pruned, Shape.Stored;
      BareRoot(node);
    }

    /** A tree as it is read from a snapshot: the index came along, the nodes did not. */
    constructor Unmarshalled(repaired: bool, record: set<string>)
      ensures Valid() && Pruned() && fresh(pool)
      ensures View() == Acl(map[], record) && this.repaired == repaired
    {
      this.repaired := repaired;
      var node := new RadixNode();
      root, free, Record := node, null, record;
      nodes, place, freed, pool := map[Top := node], map[node := Top], [], {node};
      new;
      assert Cells() == map[node := FRESH_CELL];
      hide Shape.Valid, Shape.Pruned, Shape.Stored;
      BareRoot(node);
    }

    /**
     * search(key), on any links that come to an end; on a proper tree the value of the longest stored network covering
     * the address.
     */
    method search(key: uint32) returns (value: string)
      requires Valid() || Ends(Now(), key)
      ensures Ends(Now(), key) && value == Found(Now(), key)
      ensures Valid() ==> value == LongestMatch(Now().Stored(), Bits(key, ADDRESS_BITS))
    {
      hide Shape.Valid, LongestMatch, Shape.Stored, Bits, Found;
      ghost var s := Now();
      if Valid() {
        ProperFinds(s, key);
      }
      ghost var steps: nat :| EndsIn(s, key, steps);
      FoundIs(s, key, steps);
      hide Ends;
      var bit := MAX_IPV4_BIT;
      var node: RadixNode? := root;
      value := NO_VALUE;
      ghost var d, left := 0, steps;
      while node != null
        invariant bit == BitAt(d)
        invariant Walk(s.cells, node, key, d, value, left) == Some(Found(s, key))
        decreases left
      {
        if node.value != NO_VALUE {
          value := node.value;
        }
        if And(key, bit) != 0 {
          node := node.right;
        } else {
          node := node.left;
        }
        bit := bit / 2;
        d, left := d + 1, left - 1;
      }
    }

    ghost function Head(): set<RadixNode>
      reads this
    {
      if free == null then {} else {free}
    }

    method newNode() returns (node: RadixNode)
      requires NowLinks().In(free)
      modifies this`free, this`pool, Head()
      ensures HandedOut(old(NowLinks()), node) && NowLinks() == Popped(old(NowLinks()), node, repaired)
      ensures pool == old(pool) + {node} && (node in old(pool) || fresh(node))
    {
      ghost var l := NowLinks();
      if free != null {
        node := free;
        free := free.right;
        if repaired {
          node.right := null;
        }
        assert Cells() == if repaired then l.cells[node := l.cells[node].(right := null)] else l.cells;
        return;
      }
      node := new RadixNode();
      pool := pool + {node};
      assert Cells() == l.cells[node := FRESH_CELL];
    }

    // -------------------------------------------------------------- insert

    /** The links of one turn of insert's second loop (radix_tree.go:102-109). */
    method Link(node: RadixNode, next: RadixNode, goRight: bool)
      requires node in pool && next in pool
      modifies next, node
      ensures Cells() == Joined(old(Cells()), node, next, goRight)
    {
      next.parent := node;
      next.value := NO_VALUE;
      if goRight {
        node.right := next;
      } else {
        node.left := next;
      }
    }

    /** One turn of insert's second loop (radix_tree.go:98-111). */
    method Grow(node: RadixNode, goRight: bool) returns (next: RadixNode)
      requires Closed() && node in pool
      modifies this`free, this`pool, pool
      ensures HandedOut(old(NowLinks()), next) && NowLinks() == Dug(old(NowLinks()), node, next, goRight, repaired)
      ensures Closed() && pool == old(pool) + {next} && (next in old(pool) || fresh(next))
    {
      ghost var l := NowLinks();
      assert node in l.cells;
      next := newNode();
      DugClosed(l, node, next, goRight, repaired);
      hide Popped, Links.Closed, Joined;
      Link(node, next, goRight);
    }

    /**
     * When inserting leaves a proper tree: no node is created, or the free list is used up and every recycled node
     * but the last gets its child on the right, where its uncleared link already points.
     */
    ghost predicate RecycleSafe(key: uint32, cidr: nat)
      reads this
    {
      var depth := Deepest(nodes, Bits(key, cidr)).Length();
      Safe(key, repaired, depth, cidr, |freed|)
    }

    /** When all answers are right after inserting a value, of a damaged tree too. */
    ghost predicate RecycleHarmless(key: uint32, cidr: nat)
      reads this, pool
    {
      Harmless(Now(), key, repaired, Deepest(nodes, Bits(key, cidr)).Length(), cidr)
    }

    /** The first loop of insert and of delete: down the nodes, as far as the network's bits go. */
    method WalkDown(key: uint32, mask: nat, ghost cidr: nat)
      returns (node: RadixNode, next: RadixNode?, bit: uint32, ghost d: nat)
      requires Closed() && cidr <= 32 && mask == NetMask(cidr)
      ensures (node, d) == Down(Cells(), root, key, 0, cidr) && node in pool
      ensures d <= cidr && bit == BitAt(d) && if d == cidr then next == node else next == null
    {
      hide And, NetMask;
      node, next, bit, d := root, root, MAX_IPV4_BIT, 0;
      while And(bit, mask) != 0
        invariant d <= cidr && bit == BitAt(d) && node == next && node in pool
        invariant Down(Cells(), node, key, d, cidr) == Down(Cells(), root, key, 0, cidr)
        decreases cidr - d
      {
        MaskSelectsPrefix(d, cidr);
        assert node in NowLinks().cells;
        if And(key, bit) != 0 {
          next := node.right;
        } else {
          next := node.left;
        }
        if next == null {
          return;
        }
        bit := bit / 2;
        node := next;
        d := d + 1;
      }
      MaskSelectsPrefix(d, cidr);
    }

    /** insert's second loop: hang new nodes for the rest of the network's bits. `made` is what newNode hands out. */
    method Extend(start: RadixNode, from: uint32, key: uint32, mask: nat, ghost depth: nat, ghost cidr: nat)
      returns (node: RadixNode, ghost made: seq<RadixNode>)
      requires Closed() && cidr <= 32 && mask == NetMask(cidr) && depth <= cidr && from == BitAt(depth) && start in pool
      modifies this`free, this`pool, pool
      ensures Closed() && fresh(pool - old(pool)) && old(pool) <= pool && node in pool
      ensures depth + |made| == cidr && forall n :: n in made ==> n in old(pool) || fresh(n)
      ensures DugTo(old(NowLinks()), start, key, depth, made, repaired) == Some((NowLinks(), node))
    {
      hide And, NetMask, BitAt, Dug, HandedOut, Links.Closed;
      ghost var l := NowLinks();
      var bit;
      node, bit, made := start, from, [];
      while And(bit, mask) != 0
        invariant depth + |made| <= cidr && bit == BitAt(depth + |made|)
        invariant Closed() && node in pool && fresh(pool - old(pool)) && old(pool) <= pool
        invariant forall n :: n in made ==> n in old(pool) || fresh(n)
        invariant DugTo(l, start, key, depth, made, repaired) == Some((NowLinks(), node))
        decreases cidr - |made|
      {
        ghost var d := depth + |made|;
        MaskSelectsPrefix(d, cidr);
        var next := Grow(node, And(key, bit) != 0);
        assert (made + [next])[..|made|] == made;
        made := made + [next];
        node := next;
        bit := NextBit(bit, d);
      }
      MaskSelectsPrefix(depth + |made|, cidr);
    }

    static function NextBit(bit: uint32, ghost d: nat): (next: uint32)
      requires bit == BitAt(d)
      ensures next == BitAt(d + 1)
    {
      bit / 2
    }

    method AssignValue(node: RadixNode, value: string)
      requires node in pool
      modifies node
      ensures NowLinks() == old(NowLinks()).(cells := old(Cells())[node := old(Cells())[node].(value := value)])
    {
      node.value := value;
    }

    /** insert's loops and its assignment, on the links alone. */
    method InsertLinks(key: uint32, mask: nat, value: string, ghost cidr: nat) returns (ghost made: seq<RadixNode>)
      requires Closed() && cidr <= 32 && mask == NetMask(cidr)
      modifies this`free, this`pool, pool
      ensures Closed() && fresh(pool - old(pool)) && old(pool) <= pool
      ensures InsertedIn(old(NowLinks()), key, cidr, value, made, repaired) == Some(NowLinks())
      ensures forall n :: n in made ==> n in old(pool) || fresh(n)
    {
      hide NetMask, Down, DugTo, Links.Closed;
      ghost var l := NowLinks();
      var node, next, bit, depth := WalkDown(key, mask, cidr);
      made := [];
      assert DugTo(l, node, key, depth, made, repaired) == Some((l, node)) by {
        NothingDug(l, node, key, depth, repaired);
      }
      if next == null {
        node, made := Extend(node, bit, key, mask, depth, cidr);
      }
      AssignValue(node, value);
      InsertKeepsClosed(l, key, cidr, value, made, repaired);
    }

    /**
     * insert(key, mask, value), called with the mask of `cidr` leading ones, on any tree; and what it makes of a proper
     * one.
     */
    method insert(key: uint32, mask: nat, value: string, ghost cidr: nat) returns (ghost made: seq<RadixNode>)
      requires Closed() && cidr <= 32 && mask == NetMask(cidr)
      modifies this`free, this`freed, this`pool, this`nodes, this`place, pool
      ensures Closed() && fresh(pool - old(pool)) && old(pool) <= pool
      ensures InsertedIn(old(NowLinks()), key, cidr, value, made, repaired) == Some(NowLinks())
      ensures old(Valid()) ==> Now().Stored() == Store(old(Now()).Stored(), Bits(key, cidr), value)
      ensures old(Valid()) && old(RecycleSafe(key, cidr)) ==> Valid()
      ensures old(Valid()) && !old(RecycleSafe(key, cidr)) ==> Now().Damaged() && !Valid()
      ensures old(Valid()) && old(Pruned()) && value != NO_VALUE ==> Pruned()
      ensures old(Valid()) ==>
                |freed| == Left(|old(freed)|, cidr - Deepest(old(nodes), Bits(key, cidr)).Length())
      ensures old(Valid()) && value != NO_VALUE ==>
                && Crooked(old(Now()), Now(), key, Deepest(old(nodes), Bits(key, cidr)).Length(), cidr, repaired)
                && (AnswersRight(Now()) <==> old(RecycleHarmless(key, cidr)))
    {
      hide Shape.Valid, NetMask, Shape.PrunedBut, Shape.Damaged, Shape.Stored, Deepest, Safe, Harmless, Store, Left,
           Shape.Pruned, Inserted, AnswersRight, Crooked, Links.Closed, InsertedIn, Bits;
      ghost var s0, proper := Now(), Valid();
      made := InsertLinks(key, mask, value, cidr);
      hide Cells;
      if proper {
        ghost var t := InsertsAs(s0, key, cidr, value, made, repaired);
        nodes, place, freed := t.nodes, t.place, t.freed;
        assert Now() == t;
        InsertedIs(s0, t, key, Deepest(s0.nodes, Bits(key, cidr)).Length(), cidr, repaired, value);
      }
    }

    // -------------------------------------------------------------- delete

    /** The links of one turn of delete's climbing loop (radix_tree.go:212-218). */
    method Cut(node: RadixNode, up: RadixNode)
      requires node in pool && up in pool
      modifies this`free, node, up
      ensures NowLinks() == Unhook(old(NowLinks()), node, up)
    {
      if up.right == node {
        up.right := null;
      } else {
        up.left := null;
      }
      node.right := free;
      free := node;
    }

    /** delete's climbing loop: free the leaf and every ancestor left without children and value, but not the root. */
    method Climb(start: RadixNode, ghost steps: nat)
      requires Closed() && start in pool && Climbed(NowLinks(), start, steps).Some?
      modifies this`free, pool
      ensures Closed() && Climbed(old(NowLinks()), start, steps) == Some(NowLinks())
    {
      hide Unhook, Links.Closed;
      ghost var l := NowLinks();
      var node := start;
      ghost var left := steps;
      while true
        invariant Closed() && node in pool && Climbed(NowLinks(), node, left).Some?
        invariant Climbed(NowLinks(), node, left) == Climbed(l, start, steps)
        decreases left
      {
        ghost var before := NowLinks();
        var up := node.parent;
        assert up == before.cells[node].parent && up in before.cells;
        UnhookClosed(before, node, up);
        Cut(node, up);
        node := up;
        left := left - 1;
        assert NowLinks().cells[node] == Cell(node.left, node.right, node.parent, node.value);
        if node.right != null || node.left != null {
          break;
        }
        if node.value != NO_VALUE {
          break;
        }
        if node.parent == null {
          break;
        }
      }
    }

    /** delete's loops, on the links alone. */
    method DeleteLinks(key: uint32, mask: nat, ghost cidr: nat, ghost steps: nat) returns (r: DeleteOutcome)
      requires Closed() && cidr <= 32 && mask == NetMask(cidr) && DeletedIn(NowLinks(), key, cidr, steps).Some?
      modifies this`free, pool
      ensures Closed() && DeletedIn(old(NowLinks()), key, cidr, steps) == Some((r, NowLinks()))
    {
      hide NetMask, Down, Climbed, Links.Closed;
      ghost var l := NowLinks();
      DeleteKeepsClosed(l, key, cidr, steps);
      var node, next, bit, d := WalkDown(key, mask, cidr);
      if next == null {
        return NotFound;
      }
      assert l.cells[node] == Cell(node.left, node.right, node.parent, node.value);
      if node.right != null || node.left != null {
        if node.value != NO_VALUE {
          AssignValue(node, NO_VALUE);
          return Removed;
        }
        return NotFound;
      }
      if node.parent == null {
        return NilDereference;   // node.parent.right, radix_tree.go:212
      }
      Climb(node, steps);
      return Removed;
    }

    /**
     * delete(key, mask), called with the mask of `cidr` leading ones, on any tree on which it ends; and what it makes
     * of a proper one.
     */
    method delete(key: uint32, mask: nat, ghost cidr: nat) returns (r: DeleteOutcome)
      requires Closed() && cidr <= 32 && mask == NetMask(cidr) && (Valid() || DeleteEnds(NowLinks(), key, cidr))
      modifies this`free, this`freed, this`nodes, this`place, pool
      ensures Closed() && DeleteEnds(old(NowLinks()), key, cidr)
      ensures (r, NowLinks()) == Deleted(old(NowLinks()), key, cidr)
      ensures old(Valid()) ==> Valid() && DeletedFrom(old(Now()), Now(), Bits(key, cidr), r)
    {
      hide Shape.Valid, NetMask, DeletedIn, DeletedFrom, Links.Closed, Deleted, Bits;
      ghost var s, t, proper := Now(), Now(), Valid();
      ghost var steps: nat;
      ghost var result;
      if proper {
        result, t := DeletesAs(s, key, cidr);
        steps := 33;
      } else {
        steps :| DeletedIn(NowLinks(), key, cidr, steps).Some?;
      }
      ghost var l := NowLinks();
      r := DeleteLinks(key, mask, cidr, steps);
      DeletedIs(l, key, cidr, steps);
      ghost var after := NowLinks();
      hide Cells;
      if proper {
        nodes, place, freed := t.nodes, t.place, t.freed;
        DeletedIsProper(s, t, Bits(key, cidr), r);
      }
      assert NowLinks() == after;
    }

    // -------------------------------------------------------------- the text interface

    /** Add(ipNet, value), on any tree; and what it makes of a proper one. */
    method Add(ipNet: string, value: string) returns (r: AclResult, ghost made: seq<RadixNode>)
      requires Closed()
      modifies this`free, this`freed, this`pool, this`nodes, this`place, this`Record, pool
      ensures Closed() && fresh(pool - old(pool)) && old(pool) <= pool
      ensures r == AddResult(ipNet) && Record == old(Record) + if r.Done? then {ipNet} else {}
      ensures var net := ParseNet(ipNet);
              if r.Done?
              then InsertedIn(old(NowLinks()), net.ip, net.cidr, value, made, repaired) == Some(NowLinks())
              else NowLinks() == old(NowLinks())
      ensures old(Valid()) ==> View() == AddNet(old(View()), ipNet, value)
      ensures old(Valid()) ==>
                (Valid() <==> !r.Done? || old(RecycleSafe(ParseNet(ipNet).ip, ParseNet(ipNet).cidr)))
      ensures old(Valid()) && r.Done? ==>
                |freed| == Left(|old(freed)|, ParseNet(ipNet).cidr - Deepest(old(nodes), PathOf(ipNet)).Length())
      ensures old(Valid()) && r.Done? && value != NO_VALUE ==>
                (AnswersRight(Now()) <==> old(RecycleHarmless(ParseNet(ipNet).ip, ParseNet(ipNet).cidr)))
      ensures !r.Done? ==> Now() == old(Now())
      ensures old(Valid()) && old(Pruned()) && (value != NO_VALUE || !r.Done?) ==> Pruned()
    {
      hide Shape.Valid, Shape.Pruned, Shape.Stored, Shape.Damaged, ParseNet, NetMask, Crooked, AnswersRight, Harmless,
           Links.Closed, InsertedIn, Deepest, Left, Safe;
      made := [];
      var net := ReadNet(ipNet);
      match net {
        case AddressPanic => r := Crashed;
        case BadAddress => r := InvalidIpAddress;
        case MaskNotANumber => r := MaskSyntax;
        case BadMask => r := InvalidNetMask;
        case Net(ip, cidr) =>
          made := insert(ip, NetMask(cidr), value, cidr);
          Record := Record + {ipNet};
          r := Done;
      }
    }

    /** Delete(ipNet), on any tree on which it ends; and what it makes of a proper and pruned one. */
    method Delete(ipNet: string) returns (r: AclResult)
      requires Closed()
      requires Valid() || (ParseNet(ipNet).Net? ==> DeleteEnds(NowLinks(), ParseNet(ipNet).ip, ParseNet(ipNet).cidr))
      modifies this`free, this`freed, this`nodes, this`place, this`Record, pool
      ensures Closed() && Record == old(Record) - if r.Done? then {ipNet} else {}
      ensures match ParseNet(ipNet)
              case Net(ip, cidr) =>
                && DeleteEnds(old(NowLinks()), ip, cidr) && NowLinks() == Deleted(old(NowLinks()), ip, cidr).1
                && r == (match Deleted(old(NowLinks()), ip, cidr).0
                         case Removed => Done
                         case NotFound => CantFindIpNet
                         case NilDereference => Crashed)
              case AddressPanic => r == Crashed && NowLinks() == old(NowLinks())
              case BadAddress => r == InvalidIpAddress && NowLinks() == old(NowLinks())
              case _ => r == InvalidNetMask && NowLinks() == old(NowLinks())
      ensures old(Valid()) ==> Valid()
      ensures old(Valid() && Pruned()) ==>
                Pruned() && r == DeleteResult(old(View()), ipNet) && View() == DeleteNet(old(View()), ipNet)
      ensures old(Valid()) ==>
                |freed| == |old(freed)|
                           + if r.Done? then ParseNet(ipNet).cidr - Deepest(nodes, PathOf(ipNet)).Length() else 0
    {
      hide Shape.Valid, Shape.Pruned, Shape.Stored, ParseNet, NetMask, Within, Links.Closed, Deleted, DeleteEnds,
           Deepest, DeleteNet, DeleteResult, DeletedFrom;
      if !ParseNet(ipNet).Net? {
        NoTextDeleted(View(), ipNet);
      }
      var net := ReadNet(ipNet);
      match net {
        case AddressPanic => r := Crashed;
        case BadAddress => r := InvalidIpAddress;
        case MaskNotANumber => r := InvalidNetMask;
        case BadMask => r := InvalidNetMask;
        case Net(ip, cidr) =>
          ghost var s, proper, pruned := Now(), Valid(), Pruned();
          var ret := delete(ip, NetMask(cidr), cidr);
          ghost var after, left := NowLinks(), Now();
          hide Cells;
          if proper {
            CountDeleted(s, Now(), PathOf(ipNet), ret);
            if pruned {
              TextDeleted(s, Now(), Record, ipNet, ret);
            }
          }
          match ret {
            case NilDereference => r := Crashed;
            case NotFound => r := CantFindIpNet;
            case Removed =>
              Record := Record - {ipNet};
              assert NowLinks() == after && Now() == left;
              r := Done;
          }
      }
    }

    /**
     * AccessControl(ipAddress): whether the caller is turned away; None when reading the address panics. Any tree will
     * do on which the search for the address ends.
     */
    method AccessControl(ipAddress: string) returns (r: Option<bool>)
      requires Valid() || (AddressSearched(ipAddress).Some? ==> Ends(Now(), AddressSearched(ipAddress).value))
      ensures r.Some? <==> AddressSearched(ipAddress).Some?
      ensures r.Some? ==>
                var key := AddressSearched(ipAddress).value;
                && Ends(Now(), key) && r.value == (Found(Now(), key) != NO_VALUE)
                && (Valid() ==> r.value == Forbidden(Now().Stored(), key))
      ensures forall v: uint32, port: string :: Valid() && CallsFrom(ipAddress, v, port) ==>
                r == Some(Covered(Now().Stored(), Bits(v, ADDRESS_BITS)))
    {
      hide Shape.Valid, Shape.Stored, LongestMatch, Found, Ends, CallsFrom, Covered;
      CallerIsJudged(Now().Stored(), ipAddress);
      var ipWithPort := Split(ipAddress, ':');
      var i := InetToi(ipWithPort[0]);
      match i {
        case NegativeShift =>
          return None;
        case NotANumber =>
          var value := search(0);   // Search ignores the error and looks up the zero it got
          return Some(value != NO_VALUE);
        case Address(key) =>
          var value := search(key);
          return Some(value != NO_VALUE);
      }
    }
  }

  /** 64.0.0.0, the first address behind 0.0.0.0/2. */
  const BEHIND: uint32 := 0x4000_0000

  lemma BehindBits()
    ensures !HasBit(BEHIND, 0) && HasBit(BEHIND, 1) && !HasBit(0, 0) && !HasBit(0, 1)
  {
    Pow2Values();
    assert Pow2(31) - Pow2(30) == BEHIND;
    OnesBlock(31, 30, 31);
    OnesBlock(31, 30, 30);
    HasBitTests(BEHIND, 0);
    HasBitTests(BEHIND, 1);
    HasBitTests(0, 0);
    HasBitTests(0, 1);
    ZeroHasNoBit(31);
    ZeroHasNoBit(30);
  }

  lemma BehindIsFree(value: string)
    requires value != NO_VALUE
    ensures !Forbidden(map[Bits(0, 2) := value], BEHIND) && Mimics(BEHIND, 0, false, 0, 2, 2)
  {
    BehindBits();
    hide HasBit;
    ForbiddenIffCovered(map[Bits(0, 2) := value], BEHIND);
    AroundBits(BEHIND, ADDRESS_BITS, Bits(0, 2));
    SameBits(BEHIND, 0, 2);
  }

  lemma CountDeleted(s: Shape, t: Shape, path: Prefix, r: DeleteOutcome)
    requires DeletedFrom(s, t, path, r)
    ensures t.Valid()
    ensures |t.freed| == |s.freed| + if r.Removed? then path.Length() - Deepest(t.nodes, path).Length() else 0
  {
    hide Shape.Valid, Deepest;
  }

  lemma RootAlone(s: Shape)
    requires s.Valid() && s.Pruned()
    ensures s.Leaf(Top) <==> OnlyRoot(s.Stored())
  {
    ShapeIsCanonical(s);
    hide Shape.Valid, Shape.Pruned, Shape.Stored, Shape.Leaf, OnlyRoot;
  }

  /** The outcome can be told from what is stored. */
  lemma OutcomeSeen(s: Shape, t: Shape, path: Prefix, r: DeleteOutcome)
    requires s.Valid() && s.Pruned() && DeletedFrom(s, t, path, r)
    ensures r.NilDereference? <==> path == Top && OnlyRoot(s.Stored())
    ensures !r.NilDereference? ==> (r.Removed? <==> path in s.Stored())
    ensures t.Pruned() && t.Stored() == if r.Removed? then s.Stored() - {path} else s.Stored()
  {
    hide Shape.Valid, Shape.Pruned, Shape.Stored, Shape.Leaf, Shape.Value, OnlyRoot, Within, Deepest;
    RootAlone(s);
    PrunedStored(s, path);
  }

  lemma TextDeleted(s: Shape, t: Shape, record: set<string>, ipNet: string, r: DeleteOutcome)
    requires s.Valid() && s.Pruned() && ParseNet(ipNet).Net? && DeletedFrom(s, t, PathOf(ipNet), r)
    ensures t.Pruned()
    ensures DeleteResult(Acl(s.Stored(), record), ipNet)
         == match r case Removed => Done case NotFound => CantFindIpNet case NilDereference => Crashed
    ensures DeleteNet(Acl(s.Stored(), record), ipNet)
         == Acl(t.Stored(), record - if r.Removed? then {ipNet} else {})
  {
    hide Shape.Valid, Shape.Pruned, Shape.Stored, ParseNet, Bits, DeletedFrom, OnlyRoot;
    OutcomeSeen(s, t, PathOf(ipNet), r);
  }

  lemma NoTextDeleted(a: Acl, ipNet: string)
    requires !ParseNet(ipNet).Net?
    ensures DeleteNet(a, ipNet) == a
    ensures DeleteResult(a, ipNet) == if ParseNet(ipNet).AddressPanic? then Crashed
                                      else if ParseNet(ipNet).BadAddress? then InvalidIpAddress else InvalidNetMask
  {
    hide ParseNet;
  }

  /** A bare tree with two freed nodes. */
  method AddedAndDeleted(value: string) returns (tree: RadixTree)
    requires value != NO_VALUE
    ensures fresh(tree) && fresh(tree.pool) && !tree.repaired && tree.Valid() && tree.Pruned()
    ensures tree.Now().Stored() == map[] && |tree.freed| == 2 && Deepest(tree.nodes, Bits(0, 2)) == Top
  {
    hide Shape.Valid, Shape.Pruned, Shape.Stored, Shape.Damaged, Shape.Leaf, Deepest, NetMask, Within, Crooked,
         AnswersRight, Harmless, InsertedIn, Deleted, DeleteEnds, Links.Closed, Bits, Shape.Value, Safe, DeletedFrom;
    ghost var path := Bits(0, 2);
    tree := new RadixTree(false);
    BareTree(tree.Now(), path);
    NothingRecycled(0, false, 0, 2);
    ghost var made := tree.insert(0, NetMask(2), value, 2);
    ghost var s := tree.Now();
    var outcome := tree.delete(0, NetMask(2), 2);
    LoneRemoved(s, tree.Now(), path, value, outcome);
  }

  lemma LoneRemoved(s: Shape, t: Shape, path: Prefix, value: string, r: DeleteOutcome)
    requires s.Valid() && s.Pruned() && s.Stored() == map[path := value] && value != NO_VALUE && path != Top
    requires DeletedFrom(s, t, path, r)
    ensures t.Pruned() && t.Stored() == map[] && |t.freed| == |s.freed| + path.Length() && Deepest(t.nodes, path) == Top
  {
    hide Shape.Valid, Shape.Pruned, Shape.Leaf, Deepest, Within;
    LoneNetwork(s, path, value);
    assert path in s.Stored();
    hide Shape.Stored, Shape.Value;
    BareTree(t, path);
  }

  /**
   * The committed newNode: ban 0.0.0.0/2, lift the ban, ban it again. The second insert reuses both freed nodes, and
   * the upper one keeps its free-list link beside the new left link: 64.0.0.0, which no ban covers, is turned away.
   */
  method RecyclingDamagesTheTree(value: string) returns (tree: RadixTree, found: string)
    requires value != NO_VALUE
    ensures !tree.Valid() && tree.Now().Damaged()
    ensures found != NO_VALUE && !Forbidden(tree.Now().Stored(), BEHIND)
  {
    hide Shape.Valid, Shape.Pruned, Shape.Stored, Shape.Damaged, Deepest, NetMask, Crooked, Found, Ends, Mimics,
         AnswersRight, Harmless, Bits, Forbidden, InsertedIn, Links.Closed;
    tree := AddedAndDeleted(value);
    ghost var s0 := tree.Now();
    BehindBits();
    ghost var made := tree.insert(0, NetMask(2), value, 2);
    assert tree.Now().Stored() == map[Bits(0, 2) := value];
    BehindIsFree(value);
    CrookedForbids(s0, tree.Now(), 0, 0, 2, false, BEHIND);
    found := tree.search(BEHIND);
  }

  /** A bare root and two free nodes. */
  ghost predicate TwoFree(l: Links, a: RadixNode, b: RadixNode) {
    && l.root in l.cells && a in l.cells && b in l.cells && l.root != a && l.root != b && a != b && l.free == a
    && l.cells[l.root].left == null && l.cells[l.root].right == null
    && l.cells[a].right == b && l.cells[a].left == null && l.cells[b].right == null && l.cells[b].left == null
  }

  lemma FreedTwo(s: Shape) returns (a: RadixNode, b: RadixNode)
    requires s.Valid() && s.Pruned() && s.Stored() == map[] && |s.freed| == 2
    ensures TwoFree(LinksOf(s), a, b)
  {
    a, b := s.freed[0], s.freed[1];
    ShapeIsCanonical(s);
    assert a in s.freed && b in s.freed && s.root in s.place;
    assert NodeAfter(s.freed, 0) == b && NodeAfter(s.freed, 1) == null;
    assert s.Leaf(Top);
    ClimbTests(s, Top);
  }

  /** 0.0.0.0/1 takes the first free node, whose link to the second one stays. */
  ghost predicate HalfTaken(l: Links, a: RadixNode, b: RadixNode) {
    && l.root in l.cells && a in l.cells && b in l.cells && l.root != a && l.root != b && a != b && l.free == b
    && l.cells[l.root].left == a && l.cells[a].right == b && l.cells[b].right == null && l.cells[b].left == null
  }

  lemma HalfIsTaken(l: Links, a: RadixNode, b: RadixNode, value: string, made: seq<RadixNode>)
    requires TwoFree(l, a, b) && InsertedIn(l, 0, 1, value, made, false).Some?
    ensures HalfTaken(InsertedIn(l, 0, 1, value, made, false).value, a, b)
  {
    BehindBits();
    hide HasBit;
    assert Down(l.cells, l.root, 0, 0, 1) == (l.root, 0);
    assert |made| == 1 && made[..0] == [];
    NothingDug(l, l.root, 0, 0, false);
  }

  /** 64.0.0.0/3 walks into the free node and hangs it below itself. */
  ghost predicate Looped(l: Links, a: RadixNode, b: RadixNode) {
    && l.root in l.cells && a in l.cells && b in l.cells
    && l.cells[l.root].left == a && l.cells[a].right == b && l.cells[b].left == b
  }

  lemma ItLoops(l: Links, a: RadixNode, b: RadixNode, value: string, made: seq<RadixNode>)
    requires HalfTaken(l, a, b) && InsertedIn(l, BEHIND, 3, value, made, false).Some?
    ensures Looped(InsertedIn(l, BEHIND, 3, value, made, false).value, a, b)
  {
    BehindBits();
    NoBitsBehind(2);
    hide HasBit;
    assert Down(l.cells, b, BEHIND, 2, 3) == (b, 2);
    assert Down(l.cells, a, BEHIND, 1, 3) == (b, 2);
    assert Down(l.cells, l.root, BEHIND, 0, 3) == (b, 2);
    assert |made| == 1 && made[..0] == [];
    NothingDug(l, b, BEHIND, 2, false);
  }

  lemma NoBitsBehind(d: nat)
    requires d >= 2
    ensures !HasBit(BEHIND, d)
  {
    Pow2Values();
    assert Pow2(31) - Pow2(30) == BEHIND;
    HasBitTests(BEHIND, d);
    if d < 32 {
      OnesBlock(31, 30, 31 - d);
    }
  }

  lemma {:induction false} RoundAndRound(cells: map<RadixNode, Cell>, b: RadixNode, d: nat, seen: string, steps: nat)
    requires b in cells && cells[b].left == b && d >= 2
    ensures Walk(cells, b, BEHIND, d, seen, steps).None?
    decreases steps
  {
    hide HasBit;
    NoBitsBehind(d);
    if steps > 0 {
      RoundAndRound(cells, b, d + 1, if cells[b].value != NO_VALUE then cells[b].value else seen, steps - 1);
    }
  }

  lemma NeverEnds(s: Shape, a: RadixNode, b: RadixNode)
    requires Looped(LinksOf(s), a, b)
    ensures !Ends(s, BEHIND)
  {
    BehindBits();
    hide HasBit;
    forall steps: nat
      ensures !EndsIn(s, BEHIND, steps)
    {
      var c := s.cells[s.root];
      var seen := if c.value != NO_VALUE then c.value else NO_VALUE;
      var next := if s.cells[a].value != NO_VALUE then s.cells[a].value else seen;
      if steps > 2 {
        RoundAndRound(s.cells, b, 2, next, steps - 2);
        assert Walk(s.cells, a, BEHIND, 1, seen, steps - 1).None?;
      }
    }
  }

  /**
   * A second failing run of the committed newNode: ban 0.0.0.0/2, lift the ban, ban 0.0.0.0/1 and 64.0.0.0/3. After the
   * third call all answers are right, but the left-over link of its node leads to the free list. The fourth call walks
   * there, takes the very node it stands on and hangs it below itself: the search for 64.0.0.0 never ends.
   */
  method HangingRun(value: string) returns (tree: RadixTree)
    requires value != NO_VALUE
    ensures tree.Closed() && !Ends(tree.Now(), BEHIND)
  {
    hide Shape.Valid, Shape.Pruned, Shape.Stored, Shape.Damaged, Deepest, NetMask, Crooked, AnswersRight, InsertedIn,
         Links.Closed, TwoFree, HalfTaken, Looped, Ends, Bits;
    tree := AddedAndDeleted(value);
    ghost var a, b := FreedTwo(tree.Now());
    ghost var l := tree.NowLinks();
    assert Deepest(tree.nodes, Bits(0, 1)) == Top by { BareTree(tree.Now(), Bits(0, 1)); }
    ghost var made := tree.insert(0, NetMask(1), value, 1);
    assert AnswersRight(tree.Now());
    HalfIsTaken(l, a, b, value, made);
    l := tree.NowLinks();
    made := tree.insert(BEHIND, NetMask(3), value, 3);
    ItLoops(l, a, b, value, made);
    NeverEnds(tree.Now(), a, b);
  }

  /** The address AccessControl looks up: text that is not an address counts as 0.0.0.0. */
  function AddressSearched(ipAddress: string): Option<uint32> {
    match ParseAddress(Split(ipAddress, ':')[0])
    case NegativeShift => None
    case NotANumber => Some(0)
    case Address(key) => Some(key)
  }

  /** A caller as net/http names it: an address and a port. */
  predicate CallsFrom(ipAddress: string, v: uint32, port: string) { ipAddress == QuadText(v) + [':'] + port }

  /** The port of a caller is cut off, whatever it says, and the address is the one that is looked up. */
  lemma CallerSearched(v: uint32, port: string)
    ensures AddressSearched(QuadText(v) + [':'] + port) == Some(v)
  {
    hide Split, QuadText, ParseAddress;
    QuadTextValue(v);
    SplitAtFirst(QuadText(v), ':', port);
  }

  lemma CallerIsJudged(t: Table, ipAddress: string)
    requires Valued(t)
    ensures forall v: uint32, port: string :: CallsFrom(ipAddress, v, port) ==>
              AddressSearched(ipAddress) == Some(v) && (Forbidden(t, v) <==> Covered(t, Bits(v, ADDRESS_BITS)))
  {
    hide AddressSearched, Forbidden, QuadText, Covers;
    forall v: uint32, port: string | CallsFrom(ipAddress, v, port)
      ensures AddressSearched(ipAddress) == Some(v) && (Forbidden(t, v) <==> Covered(t, Bits(v, ADDRESS_BITS)))
    {
      CallerSearched(v, port);
      ForbiddenIffCovered(t, v);
    }
  }

  /**
   * Any other text: only what comes before the first colon counts. Reading panics exactly for five numeric segments in
   * a row, and a text that does not read as an address counts as 0.0.0.0.
   */
  lemma TextSearched(text: string, rest: string)
    requires ':' !in text
    ensures AddressSearched(text + [':'] + rest) == AddressSearched(text)
    ensures var segs := Split(text, '.');
            && (AddressSearched(text).None? <==> |segs| > 4 && forall i :: 0 <= i <= 4 ==> Numeric(segs[i]))
            && (AddressSearched(text).Some? && !(forall i :: 0 <= i < |segs| ==> Numeric(segs[i])) ==>
                  AddressSearched(text) == Some(0))
  {
    SplitAtFirst(text, ':', rest);
    SplitWhole(text, ':');
    ReadOutcomes(Split(text, '.'), 0, 4);
    hide Split, ReadSegments, Numeric;
  }

  lemma PrunedStored(s: Shape, p: Prefix)
    requires s.Valid() && s.Pruned()
    ensures p in s.Stored() <==> p in s.nodes && s.Value(p) != NO_VALUE
    ensures p != Top && p in s.nodes && s.Leaf(p) ==> s.Value(p) != NO_VALUE
  {
  }
}
