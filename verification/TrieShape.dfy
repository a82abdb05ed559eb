/** The shapes a trie of acl/radix_tree.go can take, and what each step of insert and delete does to them. */
module TrieShape {
  import opened Word
  import opened Cidr
  import opened AclSpec

  class RadixNode {
    var right: RadixNode?
    var left: RadixNode?
    var parent: RadixNode?
    var value: string

    constructor ()
      ensures right == null && left == null && parent == null && value == NO_VALUE
    {
      right, left, parent, value := null, null, null, NO_VALUE;
    }
  }

  /** The fields of one node. */
  datatype Cell = Cell(left: RadixNode?, right: RadixNode?, parent: RadixNode?, value: string)

  const FRESH_CELL := Cell(null, null, null, NO_VALUE)

  function NodeAfter(list: seq<RadixNode>, i: nat): RadixNode? {
    if i + 1 < |list| then list[i + 1] else null
  }

  /** The cells after `next` has been made a child of `node`. */
  function Joined(cells: map<RadixNode, Cell>, node: RadixNode, next: RadixNode, goRight: bool): map<RadixNode, Cell>
    requires node in cells && next in cells
  {
    var linked := cells[next := cells[next].(parent := node, value := NO_VALUE)];
    linked[node := if goRight then linked[node].(right := next) else linked[node].(left := next)]
  }

  /**
   * Everything a tree's nodes say at one moment: the node at each path and the path of each node in the tree, the
   * free list from its head on, and the fields of every node ever allocated.
   */
  datatype Shape = Shape(root: RadixNode, free: RadixNode?, nodes: map<Prefix, RadixNode>,
                         place: map<RadixNode, Prefix>, freed: seq<RadixNode>, cells: map<RadixNode, Cell>)
  {
    ghost function At(p: Prefix): RadixNode? {
      if p in nodes then nodes[p] else null
    }

    /** The fields of the node at `p`. */
    ghost function CellAt(p: Prefix): Cell {
      if p in nodes && nodes[p] in cells then cells[nodes[p]] else FRESH_CELL
    }

    ghost function RightOf(p: Prefix): RadixNode? { CellAt(p).right }

    ghost function Value(p: Prefix): string { CellAt(p).value }

    /** The free list is threaded through `right`, ends in nil and holds no node of the tree. */
    ghost predicate FreeList() {
      && (free == if freed == [] then null else freed[0])
      && (forall n :: n in freed ==> n in cells && n !in place && cells[n].left == null)
      && (forall i {:trigger NodeAfter(freed, i)} :: 0 <= i < |freed| ==>
            freed[i] in cells && cells[freed[i]].right == NodeAfter(freed, i))
      && (forall i, j :: 0 <= i < j < |freed| ==> freed[i] != freed[j])
    }

    /** What taking a node off the free list relies on. */
    ghost predicate HeadOk() {
      && (free == if freed == [] then null else freed[0])
      && (freed != [] ==> freed[0] in cells && freed[0] !in place && cells[freed[0]].right == NodeAfter(freed, 0))
    }

    /** Each path has one node and each node of the tree one path; paths are closed under "up" and at most 32 long. */
    ghost predicate Placed() {
      && Top in nodes && nodes[Top] == root
      && (forall p :: p in nodes ==> p.Length() <= 32 && nodes[p] in cells && nodes[p] in place && place[nodes[p]] == p)
      && (forall p, b {:trigger Sub(p, b)} :: Sub(p, b) in nodes ==> p in nodes)
    }

    /** Child and parent links say what the paths say, except for the right links of the paths in `loose`. */
    ghost predicate Linked(loose: set<Prefix>) {
      LinkedLeftAndUp() && LinkedRight(loose)
    }

    ghost predicate LinkedLeftAndUp() {
      && CellAt(Top).parent == null
      && (forall p {:trigger Sub(p, false)} :: p in nodes ==> CellAt(p).left == At(Sub(p, false)))
      && (forall p, b {:trigger Sub(p, b)} :: Sub(p, b) in nodes ==> CellAt(Sub(p, b)).parent == At(p))
    }

    ghost predicate LinkedRight(loose: set<Prefix>) {
      forall p {:trigger Sub(p, true)} :: p in nodes && p !in loose ==> RightOf(p) == At(Sub(p, true))
    }

    /** Tree nodes and free nodes together are all the nodes ever allocated. */
    ghost predicate AllAccounted() {
      forall n :: n in cells ==> if n in place then place[n] in nodes && nodes[place[n]] == n else n in freed
    }

    ghost predicate ValidBut(loose: set<Prefix>) {
      Placed() && Linked(loose) && FreeList() && AllAccounted()
    }

    ghost predicate Valid() { ValidBut({}) }

    ghost predicate Leaf(p: Prefix) {
      p in nodes && Sub(p, false) !in nodes && Sub(p, true) !in nodes
    }

    /** Every leaf below the root carries a value, with one exception allowed. */
    ghost predicate PrunedBut(spare: Prefix) {
      forall p :: Leaf(p) && p != Top && p != spare ==> Value(p) != NO_VALUE
    }

    /** Every leaf below the root carries a value. */
    ghost predicate Pruned() { PrunedBut(Top) }

    /** The networks that have a value. */
    ghost function Stored(): (t: Table)
      ensures Valued(t)
    {
      map p | p in nodes && Value(p) != NO_VALUE :: Value(p)
    }

    /** A node of the tree whose right link is its left child, or the head of the free list. */
    ghost predicate Damaged() {
      exists p :: p in nodes && DamagedCell(CellAt(p))
    }

    predicate DamagedCell(c: Cell) { TwoSided(c) || (c.right != null && c.right == free) }

    /** The same child on both sides. */
    predicate TwoSided(c: Cell) { c.right != null && c.right == c.left }

    lemma ValidIsUndamaged()
      requires Valid()
      ensures !Damaged()
    {
      forall p | p in nodes
        ensures !DamagedCell(CellAt(p))
      {
        assert CellAt(p).left == At(Sub(p, false)) && RightOf(p) == At(Sub(p, true));
      }
    }

    /** A node is taken for use: the head of the free list, or else a new one. */
    ghost function Pop(node: RadixNode, clear: bool): Shape {
      if freed == [] then this.(cells := cells[node := FRESH_CELL])
      else
        this.(free := NodeAfter(freed, 0), freed := freed[1..],
              cells := if clear && node in cells then cells[node := cells[node].(right := null)] else cells)
    }

    /** `next` is hung below the node at `cur`. */
    ghost function Hang(next: RadixNode, cur: Prefix, goRight: bool): Shape
      requires cur in nodes && nodes[cur] in cells && next in cells && next != nodes[cur]
    {
      this.(nodes := nodes[Sub(cur, goRight) := next], place := place[next := Sub(cur, goRight)],
            cells := Joined(cells, nodes[cur], next, goRight))
    }
  }

  /** `next` is what newNode hands out. */
  ghost predicate Handed(s: Shape, next: RadixNode) {
    && next !in s.place
    && if s.freed == [] then next !in s.cells else next == s.freed[0] && next in s.cells
  }

  ghost predicate HangReady(s: Shape, cur: Prefix, goRight: bool, broken: set<Prefix>) {
    && s.ValidBut(broken + {cur}) && cur in s.nodes && cur !in broken
    && cur.Length() < 32 && Sub(cur, goRight) !in s.nodes
    && (s.RightOf(cur) == s.At(Sub(cur, true)) || (s.RightOf(cur) == s.free && Sub(cur, true) !in s.nodes))
  }

  lemma PopKeepsFreeList(s: Shape, next: RadixNode, clear: bool)
    requires s.FreeList() && Handed(s, next)
    ensures s.Pop(next, clear).FreeList()
    ensures next !in s.Pop(next, clear).freed && next !in s.place && next in s.Pop(next, clear).cells
    ensures s.Pop(next, clear).cells[next].left == null
    ensures s.Pop(next, clear).cells[next].right == if clear then null else s.Pop(next, clear).free
  {
    var t := s.Pop(next, clear);
    if s.freed != [] {
      assert s.cells[s.freed[0]].right == NodeAfter(s.freed, 0);
      forall i | 0 <= i < |t.freed|
        ensures t.cells[t.freed[i]].right == NodeAfter(t.freed, i)
      {
        assert t.freed[i] == s.freed[i + 1] && NodeAfter(t.freed, i) == NodeAfter(s.freed, i + 1);
      }
    }
  }

  lemma FreeListHead(s: Shape)
    requires s.FreeList()
    ensures s.HeadOk()
  {
    if s.freed != [] {
      assert s.cells[s.freed[0]].right == NodeAfter(s.freed, 0);
    }
  }

  /** The shape after one turn of insert's second loop. */
  ghost function Hung(s: Shape, next: RadixNode, clear: bool, cur: Prefix, goRight: bool): Shape
    requires Handed(s, next) && cur in s.nodes && s.nodes[cur] in s.cells && s.nodes[cur] in s.place
  {
    s.Pop(next, clear).Hang(next, cur, goRight)
  }

  lemma HungIsPlaced(s: Shape, next: RadixNode, clear: bool, cur: Prefix, goRight: bool, broken: set<Prefix>)
    requires HangReady(s, cur, goRight, broken) && Handed(s, next)
    ensures Hung(s, next, clear, cur, goRight).Placed()
  {
    HangFits(s, cur, goRight, broken);
    HungNodes(s, next, clear, cur, goRight);
    hide Shape.Linked, Shape.FreeList, Shape.AllAccounted, Shape.Placed, Hung, Shape.CellAt, Shape.At;
    MorePlaced(s, Hung(s, next, clear, cur, goRight), next, cur, goRight);
  }

  lemma MorePlaced(s: Shape, t: Shape, next: RadixNode, cur: Prefix, goRight: bool)
    requires s.Placed() && cur in s.nodes && cur.Length() < 32 && Sub(cur, goRight) !in s.nodes && next !in s.place
    requires t.root == s.root && t.nodes == s.nodes[Sub(cur, goRight) := next]
    requires t.place == s.place[next := Sub(cur, goRight)] && t.cells.Keys == s.cells.Keys + {next}
    ensures t.Placed()
  {
    forall p | p in t.nodes
      ensures p.Length() <= 32 && t.nodes[p] in t.cells && t.nodes[p] in t.place && t.place[t.nodes[p]] == p
    {
      assert p == Sub(cur, goRight) || p in s.nodes;
    }
    forall p, b | Sub(p, b) in t.nodes
      ensures p in t.nodes
    {
      assert Sub(p, b) == Sub(cur, goRight) || Sub(p, b) in s.nodes;
    }
  }

  /** Which nodes there are after a turn, and where. */
  lemma HungNodes(s: Shape, next: RadixNode, clear: bool, cur: Prefix, goRight: bool)
    requires Handed(s, next) && cur in s.nodes && s.nodes[cur] in s.cells && s.nodes[cur] in s.place
    ensures var t := Hung(s, next, clear, cur, goRight);
            && t.root == s.root && t.nodes == s.nodes[Sub(cur, goRight) := next]
            && t.place == s.place[next := Sub(cur, goRight)] && t.cells.Keys == s.cells.Keys + {next}
  {
  }

  lemma HungIsAccounted(s: Shape, next: RadixNode, clear: bool, cur: Prefix, goRight: bool, broken: set<Prefix>)
    requires HangReady(s, cur, goRight, broken) && Handed(s, next)
    ensures Hung(s, next, clear, cur, goRight).AllAccounted()
  {
    hide Shape.Linked;
  }

  lemma HungIsFreeList(s: Shape, next: RadixNode, clear: bool, cur: Prefix, goRight: bool)
    requires s.FreeList() && Handed(s, next) && cur in s.nodes && s.nodes[cur] in s.cells && s.nodes[cur] in s.place
    ensures Hung(s, next, clear, cur, goRight).FreeList()
  {
    PopKeepsFreeList(s, next, clear);
    var t := Hung(s, next, clear, cur, goRight);
    forall i | 0 <= i < |t.freed|
      ensures t.cells[t.freed[i]].right == NodeAfter(t.freed, i)
    {
      assert t.freed[i] in t.freed;
    }
  }

  /** What hanging `next` changes: only `next` itself and one child link of the node at `cur`. */
  ghost predicate Extends(s: Shape, t: Shape, next: RadixNode, cur: Prefix, goRight: bool)
    requires cur in s.nodes && s.nodes[cur] in s.cells
  {
    var node := s.nodes[cur];
    && t.root == s.root && t.nodes == s.nodes[Sub(cur, goRight) := next] && next !in s.place
    && (forall n :: n in s.cells && n != next && n != node ==> n in t.cells && t.cells[n] == s.cells[n])
    && next in t.cells && t.cells[next].parent == node && t.cells[next].left == null && t.cells[next].value == NO_VALUE
    && node in t.cells && t.cells[node].parent == s.cells[node].parent && t.cells[node].value == s.cells[node].value
    && t.cells[node].left == (if goRight then s.cells[node].left else next)
    && t.cells[node].right == (if goRight then next else s.cells[node].right)
  }

  lemma HungExtends(s: Shape, next: RadixNode, clear: bool, cur: Prefix, goRight: bool)
    requires s.Placed() && s.FreeList() && Handed(s, next) && cur in s.nodes
    ensures Extends(s, Hung(s, next, clear, cur, goRight), next, cur, goRight)
    ensures var t := Hung(s, next, clear, cur, goRight); t.cells[next].right == if clear then null else t.free
  {
    PopKeepsFreeList(s, next, clear);
  }

  lemma CellsAfterHang(s: Shape, t: Shape, next: RadixNode, cur: Prefix, goRight: bool)
    requires s.Placed() && cur in s.nodes && Sub(cur, goRight) !in s.nodes
    requires Extends(s, t, next, cur, goRight)
    ensures forall q :: q in s.nodes && q != cur ==> t.CellAt(q) == s.CellAt(q)
    ensures t.CellAt(cur).parent == s.CellAt(cur).parent
    ensures t.CellAt(cur).left == if goRight then s.CellAt(cur).left else next
    ensures t.CellAt(Sub(cur, goRight)) == t.cells[next]
  {
    assert forall q :: q in s.nodes && q != cur ==> s.place[s.nodes[q]] != s.place[s.nodes[cur]];
  }

  lemma LeftAfterHang(s: Shape, t: Shape, next: RadixNode, cur: Prefix, goRight: bool)
    requires s.Placed() && s.LinkedLeftAndUp() && cur in s.nodes && Sub(cur, goRight) !in s.nodes
    requires t.Placed() && Extends(s, t, next, cur, goRight)
    ensures t.LinkedLeftAndUp()
  {
    CellsAfterHang(s, t, next, cur, goRight);
    hide Shape.CellAt;
    assert Sub(Sub(cur, goRight), false) !in s.nodes;
    forall p | p in t.nodes
      ensures t.CellAt(p).left == t.At(Sub(p, false))
    {
      assert p in s.nodes ==> s.CellAt(p).left == s.At(Sub(p, false));
    }
    forall p, b | Sub(p, b) in t.nodes
      ensures t.CellAt(Sub(p, b)).parent == t.At(p)
    {
      assert Sub(p, b) in s.nodes ==> s.CellAt(Sub(p, b)).parent == s.At(p) && p in s.nodes;
      assert p != Sub(cur, goRight);
    }
  }

  lemma RightAfterHang(s: Shape, t: Shape, next: RadixNode, cur: Prefix, goRight: bool, broken: set<Prefix>, bad: bool)
    requires s.Placed() && s.LinkedRight(broken + {cur}) && cur in s.nodes && Sub(cur, goRight) !in s.nodes
    requires t.Placed() && Extends(s, t, next, cur, goRight)
    requires bad <==> !goRight && s.RightOf(cur) != s.At(Sub(cur, true))
    ensures t.LinkedRight((if bad then broken + {cur} else broken) + {Sub(cur, goRight)})
  {
  }

  /**
   * One turn of insert's second loop. Only the right link of the node at `cur` may be off, when it still is the old
   * free-list link; it comes right by itself exactly when the new node is hung on the right.
   */
  lemma HangKeeps(s: Shape, next: RadixNode, clear: bool, cur: Prefix, goRight: bool, broken: set<Prefix>)
    requires HangReady(s, cur, goRight, broken) && Handed(s, next)
    ensures var t := Hung(s, next, clear, cur, goRight);
            var bad := !goRight && s.RightOf(cur) != s.At(Sub(cur, true));
            && t.ValidBut((if bad then broken + {cur} else broken) + {Sub(cur, goRight)})
            && (bad ==> t.TwoSided(t.CellAt(cur)))
            && t.RightOf(Sub(cur, goRight)) == (if clear then null else t.free)
            && |t.freed| == (if s.freed == [] then 0 else |s.freed| - 1)
            && t.nodes == s.nodes[Sub(cur, goRight) := next]
            && Sub(Sub(cur, goRight), true) !in t.nodes && Sub(Sub(cur, goRight), false) !in t.nodes
  {
    var t := Hung(s, next, clear, cur, goRight);
    HungIsPlaced(s, next, clear, cur, goRight, broken);
    HungIsAccounted(s, next, clear, cur, goRight, broken);
    HungIsFreeList(s, next, clear, cur, goRight);
    HungExtends(s, next, clear, cur, goRight);
    LeftAfterHang(s, t, next, cur, goRight);
    RightAfterHang(s, t, next, cur, goRight, broken, !goRight && s.RightOf(cur) != s.At(Sub(cur, true)));
    if s.RightOf(cur) != s.At(Sub(cur, true)) {
      assert s.freed != [] && next == s.free;
    }
  }

  /** New nodes carry no value, so hanging them stores nothing; only the last one may be a leaf without a value. */
  lemma ValuesAfterHang(s: Shape, t: Shape, next: RadixNode, cur: Prefix, goRight: bool)
    requires s.Placed() && cur in s.nodes && Sub(cur, goRight) !in s.nodes
    requires t.Placed() && Extends(s, t, next, cur, goRight)
    ensures t.Stored() == s.Stored()
    ensures s.PrunedBut(cur) ==> t.PrunedBut(Sub(cur, goRight))
  {
    CellsAfterHang(s, t, next, cur, goRight);
    assert t.nodes == s.nodes[Sub(cur, goRight) := next];
    assert t.Value(cur) == s.Value(cur);
    hide Shape.Placed, Extends;
    assert forall p :: t.Value(p) == s.Value(p);
    hide Shape.CellAt, Shape.Value;
    if s.PrunedBut(cur) {
      forall p | t.Leaf(p) && p != Top && p != Sub(cur, goRight)
        ensures t.Value(p) != NO_VALUE
      {
        assert s.Leaf(p);
      }
    }
  }

  /** What one turn of insert's second loop leaves alone. */
  lemma HangValues(s: Shape, next: RadixNode, clear: bool, cur: Prefix, goRight: bool, broken: set<Prefix>)
    requires HangReady(s, cur, goRight, broken) && Handed(s, next)
    ensures var t := Hung(s, next, clear, cur, goRight);
            && t.Stored() == s.Stored()
            && (s.PrunedBut(cur) ==> t.PrunedBut(Sub(cur, goRight)))
            && (forall q :: q in s.nodes && q != cur ==> t.CellAt(q) == s.CellAt(q))
    ensures s.free == null <==> s.freed == []
  {
    var t := Hung(s, next, clear, cur, goRight);
    HungIsPlaced(s, next, clear, cur, goRight, broken);
    HungExtends(s, next, clear, cur, goRight);
    ValuesAfterHang(s, t, next, cur, goRight);
    CellsAfterHang(s, t, next, cur, goRight);
  }

  /** The right child of one node is what its path says: that path need not be named any more. */
  lemma NoLongerLoose(s: Shape, loose: set<Prefix>, p: Prefix)
    requires s.ValidBut(loose + {p}) && p in s.nodes && s.RightOf(p) == s.At(Sub(p, true))
    ensures s.ValidBut(loose)
  {
  }

  /** Assigning a value to the node at `p`. */
  ghost function Assign(s: Shape, p: Prefix, value: string): Shape
    requires p in s.nodes
  {
    s.(cells := s.cells[s.nodes[p] := s.CellAt(p).(value := value)])
  }

  lemma AssignKeepsLinks(s: Shape, p: Prefix, value: string, loose: set<Prefix>)
    requires s.ValidBut(loose) && p in s.nodes
    ensures var t := Assign(s, p, value); t.Placed() && t.Linked(loose) && t.AllAccounted()
  {
  }

  lemma AssignKeepsFreeList(s: Shape, p: Prefix, value: string)
    requires s.Placed() && s.FreeList() && p in s.nodes
    ensures Assign(s, p, value).FreeList()
  {
    var t := Assign(s, p, value);
    forall i | 0 <= i < |t.freed|
      ensures t.freed[i] in t.cells && t.cells[t.freed[i]].right == NodeAfter(t.freed, i)
    {
      assert t.freed[i] in t.freed;
    }
  }

  lemma AssignKeeps(s: Shape, p: Prefix, value: string, loose: set<Prefix>)
    requires s.ValidBut(loose) && p in s.nodes
    ensures Assign(s, p, value).ValidBut(loose)
  {
    AssignKeepsLinks(s, p, value, loose);
    AssignKeepsFreeList(s, p, value);
  }

  lemma CellsAfterAssign(s: Shape, p: Prefix, value: string, loose: set<Prefix>)
    requires s.ValidBut(loose) && p in s.nodes
    ensures var t := Assign(s, p, value);
            && (forall q :: q != p ==> t.CellAt(q) == s.CellAt(q))
            && t.CellAt(p) == s.CellAt(p).(value := value)
  {
  }

  lemma StoredIs(s: Shape, t: Shape, p: Prefix, value: string)
    requires p in s.nodes && t.nodes == s.nodes
    requires forall q :: t.Value(q) == if q == p then value else s.Value(q)
    ensures t.Stored() == Store(s.Stored(), p, value)
  {
    hide Shape.Value;
    forall q
      ensures q in t.Stored() <==> q in Store(s.Stored(), p, value)
      ensures q in t.Stored() ==> t.Stored()[q] == Store(s.Stored(), p, value)[q]
    {
      assert t.Value(q) == if q == p then value else s.Value(q);
    }
  }

  lemma StoredAfterAssign(s: Shape, p: Prefix, value: string, loose: set<Prefix>)
    requires s.ValidBut(loose) && p in s.nodes
    ensures Assign(s, p, value).Stored() == Store(s.Stored(), p, value)
  {
    var t := Assign(s, p, value);
    CellsAfterAssign(s, p, value, loose);
    assert t.nodes == s.nodes;
    hide Shape.ValidBut, Assign, Shape.CellAt, Shape.Stored;
    StoredIs(s, t, p, value);
  }

  lemma PrunedAfterAssign(s: Shape, p: Prefix, value: string, loose: set<Prefix>)
    requires s.ValidBut(loose) && p in s.nodes
    requires s.PrunedBut(p) && (value != NO_VALUE || !s.Leaf(p))
    ensures Assign(s, p, value).Pruned()
  {
    CellsAfterAssign(s, p, value, loose);
    hide Shape.ValidBut;
    assert forall q :: Assign(s, p, value).Leaf(q) <==> s.Leaf(q);
  }

  lemma ValuesAfterAssign(s: Shape, p: Prefix, value: string, loose: set<Prefix>)
    requires s.ValidBut(loose) && p in s.nodes
    ensures Assign(s, p, value).Stored() == Store(s.Stored(), p, value)
    ensures s.PrunedBut(p) && (value != NO_VALUE || !s.Leaf(p)) ==> Assign(s, p, value).Pruned()
    ensures s.Damaged() ==> Assign(s, p, value).Damaged()
  {
    StoredAfterAssign(s, p, value, loose);
    CellsAfterAssign(s, p, value, loose);
    hide Shape.ValidBut, Shape.Stored, Shape.PrunedBut, Assign, Shape.CellAt;
    if s.PrunedBut(p) && (value != NO_VALUE || !s.Leaf(p)) {
      PrunedAfterAssign(s, p, value, loose);
    }
    if s.Damaged() {
      var q :| q in s.nodes && s.DamagedCell(s.CellAt(q));
      DamageStays(s, p, value, q);
    }
  }

  lemma DamageStays(s: Shape, p: Prefix, value: string, q: Prefix)
    requires p in s.nodes && q in s.nodes && s.DamagedCell(s.CellAt(q))
    requires Assign(s, p, value).CellAt(q) == s.CellAt(q).(value := Assign(s, p, value).CellAt(q).value)
    ensures Assign(s, p, value).Damaged()
  {
    assert Assign(s, p, value).DamagedCell(Assign(s, p, value).CellAt(q));
  }

  /** Deepest existing node on the way to `path`. */
  ghost function Deepest(nodes: map<Prefix, RadixNode>, path: Prefix): (p: Prefix)
    ensures Covers(p, path) && (Top in nodes ==> p in nodes)
  {
    if path in nodes || path == Top then path else Deepest(nodes, path.up)
  }

  lemma {:induction false} DeepestIs(s: Shape, key: uint32, d: nat, cidr: nat)
    requires s.Valid() && d <= cidr && Bits(key, d) in s.nodes
    requires d < cidr ==> Bits(key, d + 1) !in s.nodes
    ensures Deepest(s.nodes, Bits(key, cidr)) == Bits(key, d)
  {
    hide Shape.ValidBut;
    if d < cidr {
      assert Bits(key, cidr) !in s.nodes by { NothingBelow(s, key, d + 1, cidr); }
      DeepestIs(s, key, d, cidr - 1);
    }
  }

  predicate AllRight(key: uint32, from: nat, to: nat) { forall d :: from <= d < to ==> HasBit(key, d) }

  // ---------------------------------------------------------------- the growing path of an insert

  /** A recycled node at depth `d` of the new path whose left-over link is not overwritten by its child. */
  predicate Breaks(key: uint32, repaired: bool, depth: nat, d: nat, recycled: nat) {
    !repaired && depth < d < depth + recycled && !HasBit(key, d)
  }

  /** The nodes above depth `d` that are so left with their child on both sides. */
  function Broken(key: uint32, repaired: bool, depth: nat, d: nat, recycled: nat): set<Prefix> {
    if d == 0 then {}
    else if Breaks(key, repaired, depth, d - 1, recycled)
    then Broken(key, repaired, depth, d - 1, recycled) + {Bits(key, d - 1)}
    else Broken(key, repaired, depth, d - 1, recycled)
  }

  lemma {:induction false} BrokenIs(key: uint32, repaired: bool, depth: nat, d: nat, recycled: nat, p: Prefix)
    ensures p in Broken(key, repaired, depth, d, recycled)
       <==> p.Length() < d && p == Bits(key, p.Length()) && Breaks(key, repaired, depth, p.Length(), recycled)
  {
    if d > 0 {
      BrokenIs(key, repaired, depth, d - 1, recycled, p);
    }
  }

  lemma {:induction false} NoneBroken(key: uint32, repaired: bool, depth: nat, d: nat, recycled: nat)
    ensures Broken(key, repaired, depth, d, recycled) == {}
       <==> repaired || AllRight(key, depth + 1, if d < depth + recycled then d else depth + recycled)
  {
    if d > 0 {
      NoneBroken(key, repaired, depth, d - 1, recycled);
      assert Breaks(key, repaired, depth, d - 1, recycled) ==>
          Bits(key, d - 1) in Broken(key, repaired, depth, d, recycled);
    }
  }

  /**
   * The links in insert's second loop at depth `d`, grown from `s0`, whose way down ended at `depth`. Besides the
   * broken nodes, only the last one may still have its old free-list link.
   */
  ghost predicate GrowingLinks(s0: Shape, s: Shape, key: uint32, depth: nat, d: nat, cidr: nat, broken: set<Prefix>,
                               repaired: bool)
  {
    var cur := Bits(key, d);
    && depth <= d <= cidr <= 32 && cur in s.nodes && (d < cidr ==> Bits(key, d + 1) !in s.nodes)
    && s.ValidBut(broken + {cur}) && cur !in broken && broken <= s.nodes.Keys
    && (if d == depth then s.RightOf(cur) == s.At(Sub(cur, true))
        else Sub(cur, true) !in s.nodes && s.RightOf(cur) == if repaired then null else s.free)
    && |s.freed| == (if |s0.freed| <= d - depth then 0 else |s0.freed| - (d - depth))
  }

  /** What the loop has done so far: the way down is longer, nothing is stored yet, and the broken nodes are damaged. */
  ghost predicate GrowingValues(s0: Shape, s: Shape, cur: Prefix, broken: set<Prefix>) {
    && (forall q :: q in s.nodes <==> q in s0.nodes || Covers(q, cur))
    && (forall q :: q in broken ==> s.TwoSided(s.CellAt(q)))
    && s.Stored() == s0.Stored() && (s0.Pruned() ==> s.PrunedBut(cur))
  }

  ghost predicate Growing(s0: Shape, s: Shape, key: uint32, depth: nat, d: nat, cidr: nat, repaired: bool) {
    var broken := Broken(key, repaired, depth, d, |s0.freed|);
    GrowingLinks(s0, s, key, depth, d, cidr, broken, repaired) && GrowingValues(s0, s, Bits(key, d), broken)
  }

  lemma {:induction false} CoversPlaced(s: Shape, p: Prefix, q: Prefix)
    requires s.Placed() && q in s.nodes && Covers(p, q)
    ensures p in s.nodes
  {
    if p != q {
      assert q == Sub(q.up, q.bit);
      CoversPlaced(s, p, q.up);
    }
  }

  lemma GrowStart(s0: Shape, key: uint32, d: nat, cidr: nat, repaired: bool)
    requires s0.Valid() && d <= cidr <= 32 && Bits(key, d) in s0.nodes
    requires d < cidr ==> Bits(key, d + 1) !in s0.nodes
    ensures Growing(s0, s0, key, d, d, cidr, repaired)
  {
    NoneBroken(key, repaired, d, d, |s0.freed|);
    forall q | Covers(q, Bits(key, d))
      ensures q in s0.nodes
    {
      CoversPlaced(s0, q, Bits(key, d));
    }
    hide Covers, Broken, AllRight;
  }

  ghost function NowBroken(s: Shape, key: uint32, d: nat, broken: set<Prefix>): set<Prefix> {
    if !HasBit(key, d) && s.RightOf(Bits(key, d)) != s.At(Sub(Bits(key, d), true)) then broken + {Bits(key, d)}
    else broken
  }

  /** A turn breaks a node just as foretold. */
  lemma BreaksNow(s0: Shape, s: Shape, key: uint32, depth: nat, d: nat, cidr: nat, broken: set<Prefix>, repaired: bool)
    requires GrowingLinks(s0, s, key, depth, d, cidr, broken, repaired)
    ensures Breaks(key, repaired, depth, d, |s0.freed|)
       <==> !HasBit(key, d) && s.RightOf(Bits(key, d)) != s.At(Sub(Bits(key, d), true))
  {
    FreeIsNull(s, broken + {Bits(key, d)});
    hide Shape.ValidBut;
  }

  lemma GrowStepLinks(s0: Shape, s: Shape, next: RadixNode, key: uint32, depth: nat, d: nat, cidr: nat,
                      broken: set<Prefix>, repaired: bool)
    requires GrowingLinks(s0, s, key, depth, d, cidr, broken, repaired) && d < cidr && Handed(s, next)
    ensures GrowingLinks(s0, Hung(s, next, repaired, Bits(key, d), HasBit(key, d)), key, depth, d + 1, cidr,
                         NowBroken(s, key, d, broken), repaired)
  {
    var cur, goRight := Bits(key, d), HasBit(key, d);
    hide Shape.ValidBut;
    assert Bits(key, d + 1) == Sub(cur, goRight);
    HangKeeps(s, next, repaired, cur, goRight, broken);
    assert Bits(key, d + 2) == Sub(Bits(key, d + 1), HasBit(key, d + 1));
  }

  lemma WayGrows(s0: Shape, s: Shape, t: Shape, cur: Prefix, goRight: bool, next: RadixNode)
    requires forall q :: q in s.nodes <==> q in s0.nodes || Covers(q, cur)
    requires t.nodes == s.nodes[Sub(cur, goRight) := next]
    ensures forall q :: q in t.nodes <==> q in s0.nodes || Covers(q, Sub(cur, goRight))
  {
    forall q
      ensures q in t.nodes <==> q in s0.nodes || Covers(q, Sub(cur, goRight))
    {
      assert q in t.nodes <==> q == Sub(cur, goRight) || q in s.nodes;
    }
  }

  lemma ValuesGrow(s0: Shape, s: Shape, t: Shape, cur: Prefix, goRight: bool, next: RadixNode, broken: set<Prefix>,
                   bad: bool)
    requires GrowingValues(s0, s, cur, broken) && cur !in broken && broken <= s.nodes.Keys
    requires t.nodes == s.nodes[Sub(cur, goRight) := next] && t.Stored() == s.Stored()
    requires s.PrunedBut(cur) ==> t.PrunedBut(Sub(cur, goRight))
    requires forall q :: q in s.nodes && q != cur ==> t.CellAt(q) == s.CellAt(q)
    requires bad ==> t.TwoSided(t.CellAt(cur))
    ensures GrowingValues(s0, t, Sub(cur, goRight), if bad then broken + {cur} else broken)
  {
    WayGrows(s0, s, t, cur, goRight, next);
    hide Shape.Stored, Shape.PrunedBut, Shape.CellAt, Covers, Shape.TwoSided;
  }

  lemma HangFits(s: Shape, cur: Prefix, goRight: bool, broken: set<Prefix>)
    requires HangReady(s, cur, goRight, broken)
    ensures cur in s.nodes && s.nodes[cur] in s.cells && s.nodes[cur] in s.place
  {
  }

  lemma GrowStepValues(s0: Shape, s: Shape, next: RadixNode, key: uint32, depth: nat, d: nat, cidr: nat,
                       broken: set<Prefix>, repaired: bool)
    requires GrowingLinks(s0, s, key, depth, d, cidr, broken, repaired) && d < cidr && Handed(s, next)
    requires GrowingValues(s0, s, Bits(key, d), broken)
    ensures Bits(key, d) in s.nodes && s.nodes[Bits(key, d)] in s.cells && s.nodes[Bits(key, d)] in s.place
    ensures GrowingValues(s0, Hung(s, next, repaired, Bits(key, d), HasBit(key, d)), Bits(key, d + 1),
                          NowBroken(s, key, d, broken))
  {
    var cur, goRight := Bits(key, d), HasBit(key, d);
    assert Bits(key, d + 1) == Sub(cur, goRight);
    assert HangReady(s, cur, goRight, broken) by {
      hide Shape.ValidBut;
    }
    hide Hung, Shape.Stored, Shape.PrunedBut, GrowingLinks, Bits, HangReady, Covers, Shape.ValidBut, Shape.TwoSided,
         Shape.CellAt, GrowingValues, Handed;
    HangFits(s, cur, goRight, broken);
    HangKeeps(s, next, repaired, cur, goRight, broken);
    HangValues(s, next, repaired, cur, goRight, broken);
    assert cur !in broken && broken <= s.nodes.Keys by { LooseAreNodes(s0, s, key, depth, d, cidr, broken, repaired); }
    ValuesGrow(s0, s, Hung(s, next, repaired, cur, goRight), cur, goRight, next, broken,
               !goRight && s.RightOf(cur) != s.At(Sub(cur, true)));
  }

  lemma LooseAreNodes(s0: Shape, s: Shape, key: uint32, depth: nat, d: nat, cidr: nat, broken: set<Prefix>,
                      repaired: bool)
    requires GrowingLinks(s0, s, key, depth, d, cidr, broken, repaired)
    ensures Bits(key, d) !in broken && broken <= s.nodes.Keys
  {
  }

  lemma GrowStep(s0: Shape, s: Shape, next: RadixNode, key: uint32, depth: nat, d: nat, cidr: nat, repaired: bool)
    requires Growing(s0, s, key, depth, d, cidr, repaired) && d < cidr && Handed(s, next)
    ensures Growing(s0, Hung(s, next, repaired, Bits(key, d), HasBit(key, d)), key, depth, d + 1, cidr, repaired)
  {
    var broken := Broken(key, repaired, depth, d, |s0.freed|);
    BreaksNow(s0, s, key, depth, d, cidr, broken, repaired);
    GrowStepLinks(s0, s, next, key, depth, d, cidr, broken, repaired);
    GrowStepValues(s0, s, next, key, depth, d, cidr, broken, repaired);
    hide GrowingLinks, GrowingValues, Hung, Breaks, Bits;
  }

  lemma GrowReady(s0: Shape, s: Shape, key: uint32, depth: nat, d: nat, cidr: nat, repaired: bool)
    requires Growing(s0, s, key, depth, d, cidr, repaired)
    ensures s.HeadOk() && Bits(key, d) in s.nodes
    ensures s.nodes[Bits(key, d)] in s.place && s.nodes[Bits(key, d)] in s.cells
    ensures s.free != null ==> s.free in s.cells
  {
    FreeListHead(s);
    hide Broken;
  }

  lemma HungNode(s: Shape, next: RadixNode, clear: bool, key: uint32, d: nat)
    requires Handed(s, next) && Bits(key, d) in s.nodes
    requires s.nodes[Bits(key, d)] in s.cells && s.nodes[Bits(key, d)] in s.place
    ensures Hung(s, next, clear, Bits(key, d), HasBit(key, d)).At(Bits(key, d + 1)) == next
  {
    assert Bits(key, d + 1) == Sub(Bits(key, d), HasBit(key, d));
  }

  predicate Safe(key: uint32, repaired: bool, depth: nat, cidr: nat, recycled: nat) {
    repaired || depth == cidr || (recycled <= cidr - depth && AllRight(key, depth + 1, depth + recycled))
  }

  lemma NothingRecycled(key: uint32, repaired: bool, depth: nat, cidr: nat)
    requires depth <= cidr
    ensures Safe(key, repaired, depth, cidr, 0)
  {
  }

  /** At the end of the growing path the tree is proper exactly if the free list was used safely. */
  lemma GrownWell(s0: Shape, s: Shape, key: uint32, depth: nat, cidr: nat, repaired: bool)
    requires Growing(s0, s, key, depth, cidr, cidr, repaired)
    ensures Safe(key, repaired, depth, cidr, |s0.freed|) ==> s.Valid()
    ensures !Safe(key, repaired, depth, cidr, |s0.freed|) ==> s.Damaged()
  {
    hide Shape.ValidBut, Broken;
    var cur, broken := Bits(key, cidr), Broken(key, repaired, depth, cidr, |s0.freed|);
    NoneBroken(key, repaired, depth, cidr, |s0.freed|);
    FreeIsNull(s, broken + {cur});
    if Safe(key, repaired, depth, cidr, |s0.freed|) {
      assert broken == {};
      NoLongerLoose(s, {}, cur);
    } else if broken != {} {
      var q :| q in broken;
      assert s.DamagedCell(s.CellAt(q));
    } else {
      assert s.DamagedCell(s.CellAt(cur));
    }
  }

  lemma FreeIsNull(s: Shape, loose: set<Prefix>)
    requires s.ValidBut(loose)
    ensures s.free == null <==> s.freed == []
  {
  }

  lemma GrowEnd(s0: Shape, s: Shape, key: uint32, depth: nat, cidr: nat, repaired: bool, value: string)
    requires Growing(s0, s, key, depth, cidr, cidr, repaired)
    ensures var t := Assign(s, Bits(key, cidr), value);
            && t.Stored() == Store(s0.Stored(), Bits(key, cidr), value)
            && (s0.Pruned() && value != NO_VALUE ==> t.Pruned())
            && (Safe(key, repaired, depth, cidr, |s0.freed|) ==> t.Valid())
            && (!Safe(key, repaired, depth, cidr, |s0.freed|) ==> t.Damaged() && !t.Valid())
            && |t.freed| == (if |s0.freed| <= cidr - depth then 0 else |s0.freed| - (cidr - depth))
  {
    hide Shape.ValidBut, Broken;
    var cur := Bits(key, cidr);
    var t := Assign(s, cur, value);
    GrownWell(s0, s, key, depth, cidr, repaired);
    ValuesAfterAssign(s, cur, value, Broken(key, repaired, depth, cidr, |s0.freed|) + {cur});
    if Safe(key, repaired, depth, cidr, |s0.freed|) {
      AssignKeeps(s, cur, value, {});
    } else if t.Valid() {
      t.ValidIsUndamaged();
    }
  }

  // ---------------------------------------------------------------- pruning a delete's path

  /** The cells after the childless `node` has been unhooked from `up` and threaded onto the free list. */
  function Unhooked(cells: map<RadixNode, Cell>, up: RadixNode, node: RadixNode, free: RadixNode?): map<RadixNode, Cell>
    requires up in cells && node in cells
  {
    var cut := cells[up := if cells[up].right == node then cells[up].(right := null) else cells[up].(left := null)];
    cut[node := cut[node].(right := free)]
  }

  /** The shape after the leaf at `p` has been freed. */
  ghost function Freed(s: Shape, p: Prefix): Shape
    requires p.Sub? && p in s.nodes && p.up in s.nodes && s.nodes[p] in s.cells && s.nodes[p.up] in s.cells
  {
    var node := s.nodes[p];
    s.(nodes := s.nodes - {p}, place := s.place - {node}, free := node, freed := [node] + s.freed,
       cells := Unhooked(s.cells, s.nodes[p.up], node, s.free))
  }

  ghost predicate Freeable(s: Shape, p: Prefix) {
    s.Valid() && s.Leaf(p) && p != Top
  }

  lemma FreeableParent(s: Shape, p: Prefix)
    requires Freeable(s, p)
    ensures p.up in s.nodes && s.nodes[p] in s.cells && s.nodes[p.up] in s.cells && s.nodes[p] != s.nodes[p.up]
    ensures s.CellAt(p).parent == s.nodes[p.up] && s.nodes[p] in s.place
    ensures s.RightOf(p.up) == s.nodes[p] <==> p.bit
  {
    assert p == Sub(p.up, p.bit);
    assert s.RightOf(p.up) == s.At(Sub(p.up, true));
  }

  lemma FreedFreeList(s: Shape, p: Prefix)
    requires Freeable(s, p) && p.up in s.nodes
    ensures s.nodes[p] in s.cells && s.nodes[p.up] in s.cells
    ensures Freed(s, p).FreeList()
  {
    FreeableParent(s, p);
    var t := Freed(s, p);
    assert s.CellAt(p).left == s.At(Sub(p, false));
    forall i | 0 <= i < |t.freed|
      ensures t.freed[i] in t.cells && t.cells[t.freed[i]].right == NodeAfter(t.freed, i)
    {
      if i > 0 {
        assert t.freed[i] == s.freed[i - 1] && s.freed[i - 1] in s.freed;
        assert NodeAfter(t.freed, i) == NodeAfter(s.freed, i - 1);
      }
    }
  }

  lemma FreedPlaced(s: Shape, p: Prefix)
    requires Freeable(s, p) && p.up in s.nodes && s.nodes[p] in s.cells && s.nodes[p.up] in s.cells
    ensures var t := Freed(s, p); t.Placed() && t.AllAccounted()
    ensures forall q :: q in Freed(s, p).nodes && q != p.up ==> Freed(s, p).CellAt(q) == s.CellAt(q)
    ensures Freed(s, p).CellAt(p.up) == (if p.bit then s.CellAt(p.up).(right := null)
        else s.CellAt(p.up).(left := null))
  {
    FreeableParent(s, p);
    assert Sub(p, false) !in s.nodes && Sub(p, true) !in s.nodes;
  }

  /** A childless node is gone and its parent's link to it is cut; all other cells are as before. */
  ghost predicate Cut(s: Shape, t: Shape, p: Prefix) {
    && p.Sub? && s.Leaf(p) && t.nodes == s.nodes - {p}
    && (forall q :: q in t.nodes && q != p.up ==> t.CellAt(q) == s.CellAt(q))
    && t.CellAt(p.up) == (if p.bit then s.CellAt(p.up).(right := null) else s.CellAt(p.up).(left := null))
  }

  lemma CutKeepsRight(s: Shape, t: Shape, p: Prefix)
    requires s.LinkedRight({}) && Cut(s, t, p)
    ensures t.LinkedRight({})
  {
    hide Shape.CellAt;
    assert p == Sub(p.up, p.bit);
  }

  lemma CutKeepsLeftAndUp(s: Shape, t: Shape, p: Prefix)
    requires s.LinkedLeftAndUp() && Cut(s, t, p) && Top in s.nodes
    ensures t.LinkedLeftAndUp()
  {
    hide Shape.CellAt;
    assert p == Sub(p.up, p.bit);
    forall q | q in t.nodes
      ensures t.CellAt(q).left == t.At(Sub(q, false)) && t.CellAt(q).parent == s.CellAt(q).parent
    {
      assert s.CellAt(q).left == s.At(Sub(q, false));
    }
    forall q, b | Sub(q, b) in t.nodes
      ensures t.CellAt(Sub(q, b)).parent == t.At(q)
    {
      assert q != p by { assert Sub(p, b) !in s.nodes; }
      assert s.CellAt(Sub(q, b)).parent == s.At(q);
    }
  }

  lemma FreedLinks(s: Shape, p: Prefix)
    requires Freeable(s, p) && p.up in s.nodes && s.nodes[p] in s.cells && s.nodes[p.up] in s.cells
    ensures Freed(s, p).Linked({})
  {
    FreedPlaced(s, p);
    assert Cut(s, Freed(s, p), p);
    CutKeepsRight(s, Freed(s, p), p);
    CutKeepsLeftAndUp(s, Freed(s, p), p);
  }

  lemma FreedValue(s: Shape, p: Prefix, q: Prefix)
    requires Freeable(s, p) && p.up in s.nodes && s.nodes[p] in s.cells && s.nodes[p.up] in s.cells
    ensures q != p ==> Freed(s, p).Value(q) == s.Value(q)
    ensures q != p && q != Top && q != p.up && Freed(s, p).Leaf(q) ==> s.Leaf(q)
  {
    FreeableParent(s, p);
  }

  lemma FreedValues(s: Shape, p: Prefix)
    requires Freeable(s, p) && p.up in s.nodes && s.nodes[p] in s.cells && s.nodes[p.up] in s.cells
    ensures var t := Freed(s, p);
            t.Stored() == s.Stored() - {p} && (s.PrunedBut(p) ==> t.PrunedBut(p.up))
  {
    var t := Freed(s, p);
    forall q
      ensures q != p ==> t.Value(q) == s.Value(q)
      ensures q != p && q != Top && q != p.up && t.Leaf(q) ==> s.Leaf(q)
    {
      FreedValue(s, p, q);
    }
    assert t.nodes == s.nodes - {p};
    hide Freed, Shape.Value, Shape.Leaf;
  }

  /** One turn of delete's climbing loop, from one proper tree to the next. */
  lemma FreedKeeps(s: Shape, p: Prefix)
    requires Freeable(s, p)
    ensures p.up in s.nodes && s.nodes[p] in s.cells && s.nodes[p.up] in s.cells && s.nodes[p] != s.nodes[p.up]
    ensures s.CellAt(p).parent == s.nodes[p.up]
    ensures Freed(s, p).Valid() && Freed(s, p).Stored() == s.Stored() - {p}
    ensures s.PrunedBut(p) ==> Freed(s, p).PrunedBut(p.up)
  {
    FreeableParent(s, p);
    FreedFreeList(s, p);
    FreedPlaced(s, p);
    FreedLinks(s, p);
    FreedValues(s, p);
  }

  /** Where delete's climbing loop stands: at the leaf `cur`, with the value at `path` gone once it has moved. */
  ghost predicate Climbing(s0: Shape, s: Shape, path: Prefix, cur: Prefix) {
    && Freeable(s, cur) && Within(s, s0)
    && Deepest(s.nodes, path) == cur && |s.freed| == |s0.freed| + path.Length() - cur.Length()
    && (if cur == path then s.Stored() == s0.Stored()
        else path !in s.nodes && s.Value(cur) == NO_VALUE && s.Stored() == s0.Stored() - {path})
    && (s0.PrunedBut(path) ==> s.PrunedBut(cur))
  }

  /** No node has been added or moved, and none has been allocated. */
  ghost predicate Within(s: Shape, s0: Shape) {
    && (forall p :: p in s.nodes ==> p in s0.nodes && s.nodes[p] == s0.nodes[p])
    && s.cells.Keys == s0.cells.Keys
  }

  lemma ClimbStep(s0: Shape, s: Shape, path: Prefix, cur: Prefix)
    requires Climbing(s0, s, path, cur)
    ensures cur in s.nodes && cur != Top && cur.up in s.nodes
    ensures s.nodes[cur] in s.cells && s.nodes[cur.up] in s.cells && s.nodes[cur] != s.nodes[cur.up]
    ensures s.CellAt(cur).parent == s.nodes[cur.up]
    ensures var t := Freed(s, cur);
            && t.Valid() && Within(t, s0) && path !in t.nodes && t.Stored() == s0.Stored() - {path}
            && (s0.PrunedBut(path) ==> t.PrunedBut(cur.up))
            && Deepest(t.nodes, path) == cur.up
            && |t.freed| == |s0.freed| + path.Length() - cur.up.Length()
            && cur.up in t.nodes && t.nodes[cur.up] == s.nodes[cur.up] && t.nodes[cur.up] in t.cells
  {
    hide Shape.ValidBut;
    hide Shape.PrunedBut;
    FreedKeeps(s, cur);
    RootIsTop(s);
    DeepestUp(s.nodes, cur, path);
    assert cur != path ==> cur !in s.Stored();
  }

  lemma {:induction false} DeepestUp(nodes: map<Prefix, RadixNode>, cur: Prefix, path: Prefix)
    requires Deepest(nodes, path) == cur && cur != Top && cur.up in nodes
    ensures Deepest(nodes - {cur}, path) == cur.up
  {
    if path != cur {
      DeepestUp(nodes, cur, path.up);
    } else {
      assert cur.Length() == cur.up.Length() + 1;
    }
  }

  /** The loop's three tests: it stops at a node with a child or a value, and at the root. */
  lemma ClimbTests(s: Shape, p: Prefix)
    requires s.Valid() && p in s.nodes
    ensures s.CellAt(p).left == null && s.CellAt(p).right == null <==> s.Leaf(p)
    ensures s.CellAt(p).parent == null <==> p == Top
    ensures s.PrunedBut(p) && (p == Top || !s.Leaf(p) || s.Value(p) != NO_VALUE) ==> s.Pruned()
  {
    assert s.CellAt(p).left == s.At(Sub(p, false)) && s.RightOf(p) == s.At(Sub(p, true));
    if p.Sub? {
      assert p == Sub(p.up, p.bit);
    }
  }

  lemma ClimbStart(s0: Shape, path: Prefix)
    requires Freeable(s0, path)
    ensures Climbing(s0, s0, path, path)
  {
  }

  lemma ClimbOn(s0: Shape, s: Shape, path: Prefix, cur: Prefix)
    requires s.Valid() && Within(s, s0) && path !in s.nodes && s.Stored() == s0.Stored() - {path}
    requires s0.PrunedBut(path) ==> s.PrunedBut(cur)
    requires s.Leaf(cur) && cur != Top && s.Value(cur) == NO_VALUE
    requires Deepest(s.nodes, path) == cur && |s.freed| == |s0.freed| + path.Length() - cur.Length()
    ensures Climbing(s0, s, path, cur)
  {
  }

  lemma WithinItself(s: Shape)
    ensures Within(s, s)
  {
  }

  lemma AssignWithin(s: Shape, p: Prefix, value: string)
    requires p in s.nodes && s.nodes[p] in s.cells
    ensures Within(Assign(s, p, value), s)
  {
  }

  lemma PrunedExceptHere(s: Shape, p: Prefix)
    ensures s.Pruned() ==> s.PrunedBut(p)
  {
  }

  // ---------------------------------------------------------------- the shape is determined by what is stored

  /** Below every node of a pruned tree, or at it, something is stored. */
  lemma {:induction false} StoredBelow(s: Shape, p: Prefix) returns (q: Prefix)
    requires s.Valid() && s.Pruned() && p in s.nodes && (p != Top || !s.Leaf(Top))
    ensures q in s.Stored() && Covers(p, q) && (p == Top ==> q != Top)
    decreases 32 - p.Length()
  {
    if s.Leaf(p) {
      q := p;
    } else {
      var b := Sub(p, true) in s.nodes;
      q := StoredBelow(s, Sub(p, b));
      CoversUp(p, b, q);
    }
  }

  lemma {:induction false} CoversUp(p: Prefix, b: bool, q: Prefix)
    requires Covers(Sub(p, b), q)
    ensures Covers(p, q) && q != Top
  {
    if q != Sub(p, b) {
      CoversUp(p, b, q.up);
    }
  }

  /**
   * A pruned tree holds exactly the root and the networks around stored networks, whatever the order of the
   * insertions and deletions that led to it: deleting frees every node that is not needed any more, and no other.
   */
  lemma ShapeIsCanonical(s: Shape)
    requires s.Valid() && s.Pruned()
    ensures forall p :: p in s.nodes <==> p == Top || exists q :: q in s.Stored() && Covers(p, q)
    ensures s.Leaf(Top) <==> OnlyRoot(s.Stored())
  {
    forall p
      ensures p in s.nodes <==> p == Top || exists q :: q in s.Stored() && Covers(p, q)
    {
      if p in s.nodes && p != Top {
        var q := StoredBelow(s, p);
      }
      if q :| q in s.Stored() && Covers(p, q) {
        CoversPlaced(s, p, q);
      }
    }
    if !s.Leaf(Top) {
      var q := StoredBelow(s, Top);
    } else {
      forall q | q in s.Stored()
        ensures q == Top
      {
        if q != Top {
          OnTheWay(s, q);
        }
      }
    }
  }

  lemma {:induction false} OnTheWay(s: Shape, q: Prefix)
    requires s.Placed() && q in s.nodes && q != Top
    ensures !s.Leaf(Top)
  {
    assert q == Sub(q.up, q.bit);
    if q.up != Top {
      OnTheWay(s, q.up);
    }
  }

  /** The best value on the first `d` nodes of the way down. */
  ghost function SeenBefore(s: Shape, key: uint32, d: nat): string {
    if d == 0 then NO_VALUE else LongestMatch(s.Stored(), Bits(key, d - 1))
  }

  lemma SeeNode(s: Shape, key: uint32, d: nat)
    requires Bits(key, d) in s.nodes
    ensures SeenBefore(s, key, d + 1)
         == if s.Value(Bits(key, d)) != NO_VALUE then s.Value(Bits(key, d)) else SeenBefore(s, key, d)
  {
  }

  lemma SeenEnds(s: Shape, key: uint32)
    ensures SeenBefore(s, key, 0) == NO_VALUE
  {
  }

  lemma SeenAll(s: Shape, key: uint32, d: nat)
    requires s.Valid() && 0 < d <= 33 && Bits(key, d) !in s.nodes
    ensures SeenBefore(s, key, d) == LongestMatch(s.Stored(), Bits(key, ADDRESS_BITS))
  {
    NothingBelow(s, key, d, ADDRESS_BITS);
  }

  lemma RootIsTop(s: Shape)
    requires s.Valid()
    ensures Top in s.nodes && s.nodes[Top] == s.root
    ensures forall p :: p in s.nodes ==> s.nodes[p] in s.cells
  {
  }

  lemma Descend(s: Shape, key: uint32, d: nat)
    requires s.Valid() && Bits(key, d) in s.nodes
    ensures d <= 32 && s.nodes[Bits(key, d)] in s.cells
    ensures var c := s.cells[s.nodes[Bits(key, d)]];
            s.At(Bits(key, d + 1)) == if HasBit(key, d) then c.right else c.left
  {
    assert Bits(key, d + 1) == Sub(Bits(key, d), HasBit(key, d));
  }

  /** Past the last node of the way down nothing is stored. */
  lemma {:induction false} NothingBelow(s: Shape, key: uint32, d: nat, e: nat)
    requires s.Valid() && 0 < d <= e + 1
    requires Bits(key, d) !in s.nodes
    ensures d <= e ==> Bits(key, e) !in s.nodes
    ensures LongestMatch(s.Stored(), Bits(key, e)) == LongestMatch(s.Stored(), Bits(key, d - 1))
  {
    hide Shape.Linked, Shape.FreeList, Shape.AllAccounted;
    if d <= e {
      NothingBelow(s, key, d, e - 1);
      assert Bits(key, e) == Sub(Bits(key, e - 1), HasBit(key, e - 1));
    }
  }

  /** A root alone is a proper tree. */
  lemma BareRoot(node: RadixNode)
    ensures var s := Shape(node, null, map[Top := node], map[node := Top], [], map[node := FRESH_CELL]);
            s.Valid() && s.Pruned() && s.Stored() == map[]
  {
  }

  /** A pruned tree that stores nothing is a bare root. */
  lemma BareTree(s: Shape, path: Prefix)
    requires s.Valid() && s.Pruned() && s.Stored() == map[]
    ensures Deepest(s.nodes, path) == Top
  {
    ShapeIsCanonical(s);
    assert forall p :: p in s.nodes <==> p == Top;
    OnlyTop(s.nodes, path);
  }

  lemma {:induction false} OnlyTop(nodes: map<Prefix, RadixNode>, path: Prefix)
    requires forall p :: p in nodes <==> p == Top
    ensures Deepest(nodes, path) == Top
  {
    if path.Sub? {
      OnlyTop(nodes, path.up);
    }
  }

  /** The only network stored in a pruned tree is a leaf. */
  lemma LoneNetwork(s: Shape, path: Prefix, value: string)
    requires s.Valid() && s.Pruned() && s.Stored() == map[path := value]
    ensures s.Leaf(path)
  {
    ShapeIsCanonical(s);
    assert path in s.Stored();
    forall b
      ensures Sub(path, b) !in s.nodes
    {
      if Covers(Sub(path, b), path) {
        CoverIsNoLonger(Sub(path, b), path);
      }
    }
  }
}
