/**
 * The links alone: what insert and delete do to the nodes of any tree, a damaged one included (acl/radix_tree.go:58-114
 * and :190-232), and that on a proper tree this is what module TrieShape says.
 */
module TrieLinks {
  import opened Text
  import opened Word
  import opened Cidr
  import opened AclSpec
  import opened TrieShape
  import opened TrieWalk

  datatype Links = Links(root: RadixNode, free: RadixNode?, cells: map<RadixNode, Cell>) {
    predicate In(n: RadixNode?) { n == null || n in cells }

    /** All links lead to nodes of the tree's own. */
    ghost predicate Closed() {
      && root in cells && In(free)
      && forall n :: n in cells ==> In(cells[n].left) && In(cells[n].right) && In(cells[n].parent)
    }
  }

  function LinksOf(s: Shape): Links { Links(s.root, s.free, s.cells) }

  // ---------------------------------------------------------------- insert

  /** insert's first loop: the last node on the way down, and its depth. */
  function Down(cells: map<RadixNode, Cell>, node: RadixNode, key: uint32, d: nat, cidr: nat): (RadixNode, nat)
    decreases cidr - d
  {
    if d >= cidr || node !in cells then (node, d)
    else
      var next := if HasBit(key, d) then cells[node].right else cells[node].left;
      if next == null then (node, d) else Down(cells, next, key, d + 1, cidr)
  }

  /** newNode: what it may hand out, and what is left. */
  predicate HandedOut(l: Links, node: RadixNode) {
    if l.free == null then node !in l.cells else node == l.free && node in l.cells
  }

  function Popped(l: Links, node: RadixNode, clear: bool): Links
    requires HandedOut(l, node)
  {
    if l.free == null then l.(cells := l.cells[node := FRESH_CELL])
    else
      l.(free := l.cells[node].right,
         cells := if clear then l.cells[node := l.cells[node].(right := null)] else l.cells)
  }

  /** A turn of the second loop, from `node`. */
  function Dug(l: Links, node: RadixNode, next: RadixNode, goRight: bool, clear: bool): Links
    requires HandedOut(l, next) && node in l.cells
  {
    var popped := Popped(l, next, clear);
    popped.(cells := Joined(popped.cells, node, next, goRight))
  }

  /** The second loop from `start` at `depth`, when newNode hands out the nodes `made`; None when it cannot. */
  function DugTo(l: Links, start: RadixNode, key: uint32, depth: nat, made: seq<RadixNode>,
                 clear: bool): Option<(Links, RadixNode)>
  {
    if made == [] then Some((l, start))
    else match DugTo(l, start, key, depth, made[..|made| - 1], clear)
         case None => None
         case Some((mid, node)) =>
           var next := made[|made| - 1];
           if HandedOut(mid, next) && node in mid.cells
           then Some((Dug(mid, node, next, HasBit(key, depth + |made| - 1), clear), next))
           else None
  }

  /** The whole insert. */
  function InsertedIn(l: Links, key: uint32, cidr: nat, value: string, made: seq<RadixNode>,
                      clear: bool): Option<Links>
  {
    var (start, depth) := Down(l.cells, l.root, key, 0, cidr);
    match DugTo(l, start, key, depth, made, clear)
    case None => None
    case Some((mid, node)) =>
      if depth + |made| == cidr && node in mid.cells
      then Some(mid.(cells := mid.cells[node := mid.cells[node].(value := value)]))
      else None
  }

  lemma {:induction false} DownIs(s: Shape, key: uint32, d: nat, cidr: nat)
    requires s.Valid() && d <= cidr && Bits(key, d) in s.nodes
    ensures var (node, e) := Down(s.cells, s.nodes[Bits(key, d)], key, d, cidr);
            && d <= e <= cidr && Bits(key, e) in s.nodes && node == s.nodes[Bits(key, e)]
            && (e < cidr ==> Bits(key, e + 1) !in s.nodes)
    decreases cidr - d
  {
    hide Shape.ValidBut, Bits, HasBit;
    Descend(s, key, d);
    if d < cidr && s.At(Bits(key, d + 1)) != null {
      DownIs(s, key, d + 1, cidr);
    }
  }

  lemma DugIsHung(s0: Shape, s: Shape, key: uint32, depth: nat, d: nat, cidr: nat, repaired: bool, next: RadixNode)
    requires Growing(s0, s, key, depth, d, cidr, repaired) && Bits(key, d) in s.nodes
    requires HandedOut(LinksOf(s), next) && (next in s.cells || next !in s.place)
    ensures Handed(s, next) && s.nodes[Bits(key, d)] in s.cells && s.nodes[Bits(key, d)] in s.place
    ensures LinksOf(Hung(s, next, repaired, Bits(key, d), HasBit(key, d)))
         == Dug(LinksOf(s), s.nodes[Bits(key, d)], next, HasBit(key, d), repaired)
  {
    GrowReady(s0, s, key, depth, d, cidr, repaired);
    hide Growing, HasBit, Bits, Joined;
  }

  /** On a proper tree the second loop grows the path as TrieShape says. */
  lemma {:induction false} GrowsAs(s0: Shape, key: uint32, depth: nat, cidr: nat, made: seq<RadixNode>,
                                   repaired: bool) returns (s: Shape)
    requires s0.Valid() && depth + |made| <= cidr <= 32 && Bits(key, depth) in s0.nodes
    requires depth < cidr ==> Bits(key, depth + 1) !in s0.nodes
    requires forall n :: n in made ==> n in s0.cells || n !in s0.place
    requires DugTo(LinksOf(s0), s0.nodes[Bits(key, depth)], key, depth, made, repaired).Some?
    ensures Growing(s0, s, key, depth, depth + |made|, cidr, repaired)
    ensures DugTo(LinksOf(s0), s0.nodes[Bits(key, depth)], key, depth, made, repaired)
         == Some((LinksOf(s), s.At(Bits(key, depth + |made|))))
    ensures s0.cells.Keys <= s.cells.Keys && forall n :: n in s.place ==> n in s0.place || n in s.cells
  {
    hide Growing, Bits, HasBit, Shape.ValidBut, Dug, HandedOut, Hung;
    if made == [] {
      GrowStart(s0, key, depth, cidr, repaired);
      s := s0;
    } else {
      var init, next := made[..|made| - 1], made[|made| - 1];
      assert made == init + [next];
      var prev := GrowsAs(s0, key, depth, cidr, init, repaired);
      var d := depth + |init|;
      GrowReady(s0, prev, key, depth, d, cidr, repaired);
      DugIsHung(s0, prev, key, depth, d, cidr, repaired, next);
      GrowStep(s0, prev, next, key, depth, d, cidr, repaired);
      HungNode(prev, next, repaired, key, d);
      s := Hung(prev, next, repaired, Bits(key, d), HasBit(key, d));
      HungNodes(prev, next, repaired, Bits(key, d), HasBit(key, d));
    }
  }

  /** On a proper tree insert does what TrieWalk says. */
  lemma InsertsAs(s0: Shape, key: uint32, cidr: nat, value: string, made: seq<RadixNode>, repaired: bool)
    returns (t: Shape)
    requires s0.Valid() && cidr <= 32 && forall n :: n in made ==> n in s0.cells || n !in s0.place
    requires InsertedIn(LinksOf(s0), key, cidr, value, made, repaired).Some?
    ensures InsertedIn(LinksOf(s0), key, cidr, value, made, repaired) == Some(LinksOf(t))
    ensures Inserted(s0, t, key, Deepest(s0.nodes, Bits(key, cidr)).Length(), cidr, repaired, value)
  {
    hide Bits, HasBit, Shape.ValidBut, Inserted, Growing, Deepest;
    RootIsTop(s0);
    assert Bits(key, 0) == Top by { NoBits(key); }
    DownIs(s0, key, 0, cidr);
    var (start, depth) := Down(s0.cells, s0.root, key, 0, cidr);
    DeepestIs(s0, key, depth, cidr);
    var s := GrowsAs(s0, key, depth, cidr, made, repaired);
    GrowReady(s0, s, key, depth, cidr, cidr, repaired);
    GrowEnds(s0, s, key, depth, cidr, repaired, value);
    t := Assign(s, Bits(key, cidr), value);
  }

  lemma {:induction false} DugKeepsClosed(l: Links, start: RadixNode, key: uint32, depth: nat, made: seq<RadixNode>,
                                          clear: bool)
    requires l.Closed() && start in l.cells && DugTo(l, start, key, depth, made, clear).Some?
    ensures var (mid, node) := DugTo(l, start, key, depth, made, clear).value;
            mid.Closed() && node in mid.cells && mid.root == l.root && l.cells.Keys <= mid.cells.Keys
  {
    hide HasBit, Dug, Links.Closed;
    if made != [] {
      var init, next := made[..|made| - 1], made[|made| - 1];
      DugKeepsClosed(l, start, key, depth, init, clear);
      var (mid, node) := DugTo(l, start, key, depth, init, clear).value;
      DugClosed(mid, node, next, HasBit(key, depth + |init|), clear);
    }
  }

  lemma PoppedClosed(l: Links, node: RadixNode, clear: bool)
    requires l.Closed() && HandedOut(l, node)
    ensures var p := Popped(l, node, clear); p.Closed() && p.root == l.root && p.cells.Keys == l.cells.Keys + {node}
  {
  }

  lemma DugClosed(l: Links, node: RadixNode, next: RadixNode, goRight: bool, clear: bool)
    requires l.Closed() && HandedOut(l, next) && node in l.cells
    ensures var dug := Dug(l, node, next, goRight, clear);
            dug.Closed() && next in dug.cells && dug.root == l.root && l.cells.Keys <= dug.cells.Keys
  {
    PoppedClosed(l, next, clear);
    hide Popped, HandedOut;
    var p, dug := Popped(l, next, clear), Dug(l, node, next, goRight, clear);
    assert dug.cells.Keys == p.cells.Keys && node in p.cells && next in p.cells;
    forall n | n in dug.cells
      ensures dug.In(dug.cells[n].left) && dug.In(dug.cells[n].right) && dug.In(dug.cells[n].parent)
    {
      assert p.In(p.cells[n].left) && p.In(p.cells[n].right) && p.In(p.cells[n].parent);
    }
  }

  lemma {:induction false} DownStays(l: Links, node: RadixNode, key: uint32, d: nat, cidr: nat)
    requires l.Closed() && node in l.cells
    ensures Down(l.cells, node, key, d, cidr).0 in l.cells
    ensures d <= cidr ==> d <= Down(l.cells, node, key, d, cidr).1 <= cidr
    decreases cidr - d
  {
    hide HasBit;
    if d < cidr {
      var next := if HasBit(key, d) then l.cells[node].right else l.cells[node].left;
      if next != null {
        DownStays(l, next, key, d + 1, cidr);
      }
    }
  }

  lemma InsertKeepsClosed(l: Links, key: uint32, cidr: nat, value: string, made: seq<RadixNode>, clear: bool)
    requires l.Closed() && InsertedIn(l, key, cidr, value, made, clear).Some?
    ensures InsertedIn(l, key, cidr, value, made, clear).value.Closed()
  {
    hide Down, DugTo;
    DownStays(l, l.root, key, 0, cidr);
    var (start, depth) := Down(l.cells, l.root, key, 0, cidr);
    DugKeepsClosed(l, start, key, depth, made, clear);
  }

  lemma NothingDug(l: Links, node: RadixNode, key: uint32, depth: nat, clear: bool)
    ensures DugTo(l, node, key, depth, [], clear) == Some((l, node))
  {
  }

  // ---------------------------------------------------------------- delete

  datatype DeleteOutcome = Removed | NotFound | NilDereference

  /** One turn of the climbing loop, at a node with a parent. */
  function Unhook(l: Links, node: RadixNode, up: RadixNode): (next: Links)
    requires node in l.cells && up in l.cells
    ensures next.cells.Keys == l.cells.Keys && up in next.cells
  {
    l.(cells := Unhooked(l.cells, up, node, l.free), free := node)
  }

  /** Whether the loop stops at a node: it has a child, a value or no parent. */
  predicate Stops(c: Cell) { c.right != null || c.left != null || c.value != NO_VALUE || c.parent == null }

  /** The climbing loop; None when it does not end within so many turns. */
  function Climbed(l: Links, node: RadixNode, steps: nat): Option<Links>
    decreases steps
  {
    if steps == 0 || node !in l.cells || l.cells[node].parent == null || l.cells[node].parent !in l.cells then None
    else
      var up: RadixNode := l.cells[node].parent;
      var next := Unhook(l, node, up);
      if Stops(next.cells[up]) then Some(next) else Climbed(next, up, steps - 1)
  }

  /** The whole delete. */
  function DeletedIn(l: Links, key: uint32, cidr: nat, steps: nat): Option<(DeleteOutcome, Links)> {
    var (node, d) := Down(l.cells, l.root, key, 0, cidr);
    if d < cidr then Some((NotFound, l))
    else if node !in l.cells then None
    else
      var c := l.cells[node];
      if c.right != null || c.left != null then
        if c.value == NO_VALUE then Some((NotFound, l))
        else Some((Removed, l.(cells := l.cells[node := c.(value := NO_VALUE)])))
      else if c.parent == null then Some((NilDereference, l))
      else match Climbed(l, node, steps) case None => None case Some(next) => Some((Removed, next))
  }

  ghost predicate DeleteEnds(l: Links, key: uint32, cidr: nat) {
    exists steps: nat :: DeletedIn(l, key, cidr, steps).Some?
  }

  ghost function Deleted(l: Links, key: uint32, cidr: nat): (DeleteOutcome, Links)
    requires DeleteEnds(l, key, cidr)
  {
    var steps: nat :| DeletedIn(l, key, cidr, steps).Some?;
    DeletedIn(l, key, cidr, steps).value
  }

  lemma {:induction false} ClimbIsOne(l: Links, node: RadixNode, m: nat, n: nat)
    requires Climbed(l, node, m).Some? && Climbed(l, node, n).Some?
    ensures Climbed(l, node, m) == Climbed(l, node, n)
    decreases m
  {
    hide Unhook, Stops;
    var up: RadixNode := l.cells[node].parent;
    var next := Unhook(l, node, up);
    if !Stops(next.cells[up]) {
      ClimbIsOne(next, up, m - 1, n - 1);
    }
  }

  lemma DeletedIs(l: Links, key: uint32, cidr: nat, steps: nat)
    requires DeletedIn(l, key, cidr, steps).Some?
    ensures DeleteEnds(l, key, cidr) && Some(Deleted(l, key, cidr)) == DeletedIn(l, key, cidr, steps)
  {
    hide Down, Climbed;
    var n: nat :| DeletedIn(l, key, cidr, n).Some? && Deleted(l, key, cidr) == DeletedIn(l, key, cidr, n).value;
    var node := Down(l.cells, l.root, key, 0, cidr).0;
    if Climbed(l, node, n).Some? && Climbed(l, node, steps).Some? {
      ClimbIsOne(l, node, n, steps);
    }
  }

  lemma {:induction false} ClimbKeepsClosed(l: Links, node: RadixNode, steps: nat)
    requires l.Closed() && Climbed(l, node, steps).Some?
    ensures Climbed(l, node, steps).value.Closed() && Climbed(l, node, steps).value.cells.Keys == l.cells.Keys
    decreases steps
  {
    hide Unhook, Links.Closed;
    var up: RadixNode := l.cells[node].parent;
    UnhookClosed(l, node, up);
    if !Stops(Unhook(l, node, up).cells[up]) {
      ClimbKeepsClosed(Unhook(l, node, up), up, steps - 1);
    }
  }

  lemma UnhookClosed(l: Links, node: RadixNode, up: RadixNode)
    requires l.Closed() && node in l.cells && up in l.cells
    ensures Unhook(l, node, up).Closed()
  {
    var next := Unhook(l, node, up);
    forall n | n in next.cells
      ensures next.In(next.cells[n].left) && next.In(next.cells[n].right) && next.In(next.cells[n].parent)
    {
      assert n in l.cells && l.In(l.cells[n].left) && l.In(l.cells[n].right) && l.In(l.cells[n].parent);
    }
  }

  lemma DeleteKeepsClosed(l: Links, key: uint32, cidr: nat, steps: nat)
    requires l.Closed() && DeletedIn(l, key, cidr, steps).Some?
    ensures var next := DeletedIn(l, key, cidr, steps).value.1; next.Closed() && next.cells.Keys == l.cells.Keys
  {
    hide Down, Climbed;
    var node := Down(l.cells, l.root, key, 0, cidr).0;
    if Climbed(l, node, steps).Some? {
      ClimbKeepsClosed(l, node, steps);
    }
  }

  lemma UnhookIsFreed(s: Shape, cur: Prefix)
    requires Freeable(s, cur)
    ensures cur.up in s.nodes && s.nodes[cur] in s.cells && s.nodes[cur.up] in s.cells
    ensures s.cells[s.nodes[cur]].parent == s.nodes[cur.up]
    ensures LinksOf(Freed(s, cur)) == Unhook(LinksOf(s), s.nodes[cur], s.nodes[cur.up])
  {
    FreeableParent(s, cur);
  }

  /** On a proper tree the climbing loop ends, with what TrieShape says. */
  lemma {:induction false} ClimbsAs(s0: Shape, s: Shape, path: Prefix, cur: Prefix, steps: nat) returns (t: Shape)
    requires Climbing(s0, s, path, cur) && cur in s.nodes && steps >= cur.Length()
    ensures Climbed(LinksOf(s), s.nodes[cur], steps) == Some(LinksOf(t))
    ensures t.Valid() && Within(t, s0) && path !in t.nodes && t.Stored() == s0.Stored() - {path}
    ensures s0.PrunedBut(path) ==> t.Pruned()
    ensures |t.freed| == |s0.freed| + path.Length() - Deepest(t.nodes, path).Length()
    decreases steps
  {
    hide Climbing, Freed, Shape.ValidBut, Shape.PrunedBut, Shape.Stored, Within, Unhook, Deepest;
    ClimbStep(s0, s, path, cur);
    assert Freeable(s, cur) by { StillFreeable(s0, s, path, cur); }
    UnhookIsFreed(s, cur);
    t := Freed(s, cur);
    ClimbTests(t, cur.up);
    if !Stops(t.CellAt(cur.up)) {
      ClimbOn(s0, t, path, cur.up);
      t := ClimbsAs(s0, t, path, cur.up, steps - 1);
    }
  }

  lemma StillFreeable(s0: Shape, s: Shape, path: Prefix, cur: Prefix)
    requires Climbing(s0, s, path, cur)
    ensures Freeable(s, cur)
  {
  }

  /** What deleting a network makes of the proper tree `s`. */
  ghost predicate DeletedFrom(s: Shape, t: Shape, path: Prefix, r: DeleteOutcome) {
    && t.Valid() && Within(t, s)
    && (r.NilDereference? <==> path == Top && s.Leaf(Top))
    && (r.NotFound? <==> path !in s.nodes || (!s.Leaf(path) && s.Value(path) == NO_VALUE))
    && t.Stored() == (if r.Removed? then s.Stored() - {path} else s.Stored())
    && (r.Removed? || t == s)
    && (r.Removed? ==> |t.freed| == |s.freed| + path.Length() - Deepest(t.nodes, path).Length())
    && (s.Pruned() ==> t.Pruned())
  }

  lemma ValueRemoved(s: Shape, path: Prefix)
    requires s.Valid() && path in s.nodes && !s.Leaf(path) && s.Value(path) != NO_VALUE
    ensures DeletedFrom(s, Assign(s, path, NO_VALUE), path, Removed)
  {
    hide Shape.ValidBut, Shape.PrunedBut, Shape.Stored, Within;
    PrunedExceptHere(s, path);
    AssignKeeps(s, path, NO_VALUE, {});
    ValuesAfterAssign(s, path, NO_VALUE, {});
    RootIsTop(s);
    AssignWithin(s, path, NO_VALUE);
    SameNodes(s, path, NO_VALUE);
    hide Assign, Shape.Leaf, Shape.Value;
  }

  lemma NothingRemoved(s: Shape, path: Prefix, r: DeleteOutcome)
    requires s.Valid()
    requires r == if path !in s.nodes || (!s.Leaf(path) && s.Value(path) == NO_VALUE) then NotFound else NilDereference
    requires r.NilDereference? ==> path == Top && s.Leaf(Top)
    ensures DeletedFrom(s, s, path, r)
  {
    hide Shape.ValidBut, Shape.PrunedBut, Shape.Stored, Shape.Value;
    WithinItself(s);
  }

  lemma LeafRemoved(s: Shape, path: Prefix) returns (t: Shape)
    requires s.Valid() && s.Leaf(path) && path != Top && path.Length() <= 32
    ensures DeletedFrom(s, t, path, Removed) && path in s.nodes
    ensures Climbed(LinksOf(s), s.nodes[path], 33) == Some(LinksOf(t))
  {
    ClimbStart(s, path);
    PrunedExceptHere(s, path);
    hide Climbing, Shape.ValidBut, Shape.PrunedBut, Shape.Stored, Within, Deepest, Shape.Value;
    t := ClimbsAs(s, s, path, path, 33);
  }

  /** On a proper tree delete ends, and does what TrieShape says. */
  lemma DeletesAs(s: Shape, key: uint32, cidr: nat) returns (r: DeleteOutcome, t: Shape)
    requires s.Valid() && cidr <= 32
    ensures DeletedIn(LinksOf(s), key, cidr, 33) == Some((r, LinksOf(t)))
    ensures DeletedFrom(s, t, Bits(key, cidr), r)
  {
    hide Bits, HasBit, Shape.ValidBut, DeletedFrom, Climbed, Shape.Stored, Assign;
    var path := Bits(key, cidr);
    RootIsTop(s);
    assert Bits(key, 0) == Top by { NoBits(key); }
    DownIs(s, key, 0, cidr);
    var d := Down(s.cells, s.root, key, 0, cidr).1;
    r, t := NotFound, s;
    if d < cidr {
      NothingBelow(s, key, d + 1, cidr);
      NothingRemoved(s, path, r);
    } else {
      ClimbTests(s, path);
      if !s.Leaf(path) {
        if s.Value(path) == NO_VALUE {
          NothingRemoved(s, path, r);
        } else {
          ValueRemoved(s, path);
          r, t := Removed, Assign(s, path, NO_VALUE);
          assert LinksOf(t) == LinksOf(s).(cells := s.cells[s.nodes[path] := s.CellAt(path).(value := NO_VALUE)]) by {
            AssignedLinks(s, path);
          }
        }
      } else if path == Top {
        r := NilDereference;
        NothingRemoved(s, path, r);
      } else {
        r := Removed;
        t := LeafRemoved(s, path);
      }
    }
  }

  lemma AssignedLinks(s: Shape, path: Prefix)
    requires path in s.nodes
    ensures LinksOf(Assign(s, path, NO_VALUE))
         == LinksOf(s).(cells := s.cells[s.nodes[path] := s.CellAt(path).(value := NO_VALUE)])
  {
  }

  lemma DeletedIsProper(s: Shape, t: Shape, path: Prefix, r: DeleteOutcome)
    requires DeletedFrom(s, t, path, r)
    ensures t.Valid()
  {
  }
}
