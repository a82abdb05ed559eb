/**
 * The text index of an access control list. `Record` keeps the CIDR texts that were added; a restored proxy rebuilds
 * its list from them. The index is keyed by text and the tree by network, so the two can drift apart.
 */
module AclIndex {
  import opened Text
  import opened Word
  import opened Cidr
  import opened AclSpec

  /** Some text of the index denotes network `p`. */
  ghost predicate Indexed(record: set<string>, p: Prefix) {
    exists t :: t in record && IsNet(t) && PathOf(t) == p
  }

  /** Everything stored is indexed: all a run of Add and Delete is sure to keep. */
  ghost predicate IndexCovers(a: Acl) {
    && Valued(a.stored)
    && (forall t :: t in a.record ==> IsNet(t))
    && (forall p :: p in a.stored ==> Indexed(a.record, p))
  }

  /** The index denotes exactly the stored networks. */
  ghost predicate IndexAgrees(a: Acl) {
    IndexCovers(a) && forall t :: t in a.record ==> PathOf(t) in a.stored
  }

  /** Another text of the index denotes the same network. */
  ghost predicate Aliased(record: set<string>, text: string)
    requires IsNet(text)
  {
    exists t :: t in record && t != text && IsNet(t) && PathOf(t) == PathOf(text)
  }

  /** The proxy's calls: a black-list entry is its own value (http_proxy.go:401, 410). */
  datatype AclOp = AddIp(ip: string) | DeleteIp(ip: string)

  function Step(a: Acl, op: AclOp): Acl {
    match op
    case AddIp(ip) => AddNet(a, ip, ip)
    case DeleteIp(ip) => DeleteNet(a, ip)
  }

  function Run(a: Acl, ops: seq<AclOp>): Acl
    decreases |ops|
  {
    if ops == [] then a else Run(Step(a, ops[0]), ops[1..])
  }

  lemma AddKeepsIndex(a: Acl, ip: string)
    ensures IndexCovers(a) ==> IndexCovers(AddNet(a, ip, ip))
    ensures IndexAgrees(a) ==> IndexAgrees(AddNet(a, ip, ip))
  {
    var b := AddNet(a, ip, ip);
    if IsNet(ip) {
      if IndexCovers(a) {
        forall p | p in b.stored
          ensures Indexed(b.record, p)
        {
          if p == PathOf(ip) {
            assert ip in b.record;
          } else {
            var t :| t in a.record && IsNet(t) && PathOf(t) == p;
            assert t in b.record;
          }
        }
      }
    }
  }

  /** A text that denotes a stored network is taken away, from the list and from the index. */
  ghost predicate Removes(a: Acl, b: Acl, ip: string) {
    IsNet(ip) && PathOf(ip) in a.stored && b == Acl(a.stored - {PathOf(ip)}, a.record - {ip})
  }

  lemma DeletionIs(a: Acl, ip: string)
    ensures DeleteResult(a, ip).Done? ==> Removes(a, DeleteNet(a, ip), ip)
    ensures !DeleteResult(a, ip).Done? ==> DeleteNet(a, ip) == a
  {
  }

  lemma RemovalKeepsCovering(a: Acl, b: Acl, ip: string)
    requires IndexCovers(a) && Removes(a, b, ip)
    ensures IndexCovers(b)
  {
    hide ParseNet, PathOf;
    forall p | p in b.stored
      ensures Indexed(b.record, p)
    {
      var t :| t in a.record && IsNet(t) && PathOf(t) == p;
      assert t in b.record;
    }
  }

  lemma RemovalKeepsAgreement(a: Acl, b: Acl, ip: string)
    requires IndexAgrees(a) && Removes(a, b, ip)
    ensures IndexAgrees(b) <==> !Aliased(a.record, ip)
  {
    RemovalKeepsCovering(a, b, ip);
    hide ParseNet, PathOf, IndexCovers;
    assert forall t :: t in a.record ==> IsNet(t) by { assert IndexCovers(a); CoveredAreNets(a); }
    if Aliased(a.record, ip) {
      var t :| t in a.record && t != ip && IsNet(t) && PathOf(t) == PathOf(ip);
      assert t in b.record && PathOf(t) !in b.stored;
    } else {
      forall t | t in b.record
        ensures PathOf(t) in b.stored
      {
        assert t in a.record && t != ip;
      }
    }
  }

  lemma CoveredAreNets(a: Acl)
    requires IndexCovers(a)
    ensures forall t :: t in a.record ==> IsNet(t)
  {
  }

  /** Deleting never loses an index entry of another network; the index stays exact iff the text had no alias. */
  lemma DeleteKeepsIndex(a: Acl, ip: string)
    ensures IndexCovers(a) ==> IndexCovers(DeleteNet(a, ip))
    ensures IndexAgrees(a) && DeleteResult(a, ip).Done? ==> (IndexAgrees(DeleteNet(a, ip)) <==> !Aliased(a.record, ip))
  {
    DeletionIs(a, ip);
    hide DeleteNet, DeleteResult, IndexCovers, ParseNet, Aliased, Removes;
    if DeleteResult(a, ip).Done? {
      if IndexCovers(a) {
        RemovalKeepsCovering(a, DeleteNet(a, ip), ip);
      }
      if IndexAgrees(a) {
        RemovalKeepsAgreement(a, DeleteNet(a, ip), ip);
      }
    }
  }

  lemma StepKeepsIndex(a: Acl, op: AclOp)
    ensures IndexCovers(a) ==> IndexCovers(Step(a, op))
    ensures IndexAgrees(a) && !(op.DeleteIp? && IsNet(op.ip) && Aliased(a.record, op.ip)) ==> IndexAgrees(Step(a, op))
    ensures Step(a, op).record <= a.record + {op.ip}
  {
    hide ParseNet, IndexCovers, IndexAgrees, Aliased;
    AddKeepsIndex(a, op.ip);
    DeleteKeepsIndex(a, op.ip);
  }

  /** Over every run whatsoever the index denotes at least what is stored. */
  lemma {:induction false} IndexCoversOverRuns(a: Acl, ops: seq<AclOp>)
    requires IndexCovers(a)
    ensures IndexCovers(Run(a, ops))
    decreases |ops|
  {
    hide ParseNet, AddResult, DeleteResult, IndexCovers;
    if ops != [] {
      StepKeepsIndex(a, ops[0]);
      IndexCoversOverRuns(Step(a, ops[0]), ops[1..]);
    }
  }

  /** No text of the run that denotes a network denotes it in a second way. */
  ghost predicate Unambiguous(texts: set<string>) {
    forall t, u :: t in texts && u in texts && IsNet(t) && IsNet(u) && PathOf(t) == PathOf(u) ==> t == u
  }

  function Texts(ops: seq<AclOp>): set<string> { set i | 0 <= i < |ops| :: ops[i].ip }

  lemma NotAliased(a: Acl, ip: string, texts: set<string>)
    requires Unambiguous(texts) && a.record <= texts && ip in texts
    ensures !(IsNet(ip) && Aliased(a.record, ip))
  {
    hide ParseNet, PathOf;
  }

  /** Over every run in which each network is written in one way only, the index is exact. */
  lemma {:induction false} IndexAgreesOverRuns(a: Acl, ops: seq<AclOp>)
    requires IndexAgrees(a) && Unambiguous(a.record + Texts(ops))
    ensures IndexAgrees(Run(a, ops))
    decreases |ops|
  {
    hide ParseNet, IndexCovers, IndexAgrees, Aliased, IsNet, PathOf, Step;
    if ops != [] {
      var b := Step(a, ops[0]);
      assert ops[0].ip in Texts(ops);
      assert Texts(ops[1..]) <= Texts(ops) by {
        forall i | 0 <= i < |ops[1..]| ensures ops[1..][i].ip in Texts(ops) { assert ops[1..][i] == ops[i + 1]; }
      }
      StepKeepsIndex(a, ops[0]);
      NotAliased(a, ops[0].ip, a.record + Texts(ops));
      IndexAgreesOverRuns(b, ops[1..]);
    }
  }

  /** Canonical texts are one way of writing each network. */
  lemma CanonicalIsUnambiguous(texts: set<string>)
    requires forall t :: t in texts && IsNet(t) ==> Canonical(t)
    ensures Unambiguous(texts)
  {
  }

  // ---------------------------------------------------------------- rebuilding

  /** Adding the texts to an empty list one by one. */
  function Rebuild(texts: seq<string>): Acl {
    if texts == [] then EMPTY_ACL
    else var last := texts[|texts| - 1]; AddNet(Rebuild(texts[..|texts| - 1]), last, last)
  }

  lemma {:induction false} RebuildStores(texts: seq<string>)
    requires forall t :: t in texts ==> IsNet(t)
    ensures IndexAgrees(Rebuild(texts))
    ensures Rebuild(texts).record == Members(texts)
  {
    if texts != [] {
      var init, last := texts[..|texts| - 1], texts[|texts| - 1];
      assert texts == init + [last];
      RebuildStores(init);
      AddKeepsIndex(Rebuild(init), last);
    }
  }

  /** Whom the rebuilt list turns away: the addresses of the networks its texts denote. */
  lemma RebuildForbids(texts: seq<string>, key: uint32)
    requires forall t :: t in texts ==> IsNet(t)
    ensures Forbidden(Rebuild(texts).stored, key)
       <==> exists t :: t in texts && Covers(PathOf(t), Bits(key, ADDRESS_BITS))
  {
    RebuildStores(texts);
    ForbiddenIffCovered(Rebuild(texts).stored, key);
    hide ParseNet, PathOf, Covers, Bits, Forbidden, Rebuild;
    var b := Rebuild(texts);
    if exists t :: t in texts && Covers(PathOf(t), Bits(key, ADDRESS_BITS)) {
      var t :| t in texts && Covers(PathOf(t), Bits(key, ADDRESS_BITS));
      assert t in b.record;
    }
    if q :| q in b.stored && Covers(q, Bits(key, ADDRESS_BITS)) {
      assert Indexed(b.record, q);
      var t :| t in b.record && IsNet(t) && PathOf(t) == q;
      assert t in texts;
    }
  }

  /** A list answers like the one rebuilt from its index: every network in the index is turned away as a whole. */
  ghost predicate AnswersLikeRebuilt(a: Acl, texts: seq<string>) {
    forall key: uint32 :: Forbidden(a.stored, key) == Forbidden(Rebuild(texts).stored, key)
  }

  /**
   * A list rebuilt from its index, in any order, turns away at least whom the live list turns away. It stores the
   * same networks exactly when the index is exact. It gives the same answer for every address exactly when each
   * network left in the index is turned away as a whole by the live list.
   */
  lemma RebuildAnswers(a: Acl, texts: seq<string>)
    requires IndexCovers(a) && Enumerates(texts, a.record)
    ensures var b := Rebuild(texts);
            && b.record == a.record
            && (forall key: uint32 :: Forbidden(a.stored, key) ==> Forbidden(b.stored, key))
            && (b.stored.Keys == a.stored.Keys <==> IndexAgrees(a))
    ensures IndexAgrees(a) ==> AnswersLikeRebuilt(a, texts)
    ensures AnswersLikeRebuilt(a, texts) <==> forall t :: t in a.record ==> Blanketed(a.stored, PathOf(t))
  {
    forall t | t in texts
      ensures IsNet(t)
    {
      assert t in Members(texts);
    }
    RebuildKeys(a, texts);
    forall key: uint32
      ensures Forbidden(a.stored, key) ==> Forbidden(Rebuild(texts).stored, key)
    {
      MoreForbidden(a, texts, key);
    }
    assert IndexAgrees(a) ==>
        forall t :: t in a.record ==> Covers(PathOf(t), PathOf(t)) && Blanketed(a.stored, PathOf(t));
    hide ParseNet, Blanketed, Covers, Bits, Rebuild, IndexAgrees, Forbidden, PathOf;
    if AnswersLikeRebuilt(a, texts) {
      forall t | t in a.record
        ensures Blanketed(a.stored, PathOf(t))
      {
        LeftBlanketed(a, texts, t);
      }
    }
    if forall t :: t in a.record ==> Blanketed(a.stored, PathOf(t)) {
      forall key: uint32
        ensures Forbidden(Rebuild(texts).stored, key) ==> Forbidden(a.stored, key)
      {
        NoneMoreForbidden(a, texts, key);
      }
    }
  }

  lemma RebuildKeys(a: Acl, texts: seq<string>)
    requires IndexCovers(a) && Enumerates(texts, a.record) && forall t :: t in texts ==> IsNet(t)
    ensures Rebuild(texts).record == a.record
    ensures Rebuild(texts).stored.Keys == a.stored.Keys <==> IndexAgrees(a)
  {
    RebuildStores(texts);
    hide ParseNet, PathOf, Rebuild;
    var b := Rebuild(texts);
    assert forall p :: p in b.stored <==> Indexed(a.record, p);
    assert forall p :: p in a.stored ==> p in b.stored;
  }

  lemma MoreForbidden(a: Acl, texts: seq<string>, key: uint32)
    requires IndexCovers(a) && Enumerates(texts, a.record) && forall t :: t in texts ==> IsNet(t)
    ensures Forbidden(a.stored, key) ==> Forbidden(Rebuild(texts).stored, key)
  {
    ForbiddenIffCovered(a.stored, key);
    RebuildForbids(texts, key);
    hide ParseNet, PathOf, Covers, Bits, Forbidden, Rebuild;
    if q :| q in a.stored && Covers(q, Bits(key, ADDRESS_BITS)) {
      var t :| t in a.record && IsNet(t) && PathOf(t) == q;
      assert t in Members(texts);
    }
  }

  lemma LeftBlanketed(a: Acl, texts: seq<string>, t: string)
    requires IndexCovers(a) && Enumerates(texts, a.record) && (forall u :: u in texts ==> IsNet(u))
    requires AnswersLikeRebuilt(a, texts) && t in a.record
    ensures Blanketed(a.stored, PathOf(t))
  {
    BlanketedMeans(a.stored, PathOf(t));
    hide ParseNet, PathOf, Covers, Bits, Forbidden, Rebuild, Blanketed;
    assert t in Members(texts);
    forall key: uint32 | Covers(PathOf(t), Bits(key, ADDRESS_BITS))
      ensures Forbidden(a.stored, key)
    {
      RebuildForbids(texts, key);
    }
  }

  lemma NoneMoreForbidden(a: Acl, texts: seq<string>, key: uint32)
    requires IndexCovers(a) && Enumerates(texts, a.record) && (forall u :: u in texts ==> IsNet(u))
    requires forall t :: t in a.record ==> Blanketed(a.stored, PathOf(t))
    ensures Forbidden(Rebuild(texts).stored, key) ==> Forbidden(a.stored, key)
  {
    RebuildForbids(texts, key);
    if t :| t in texts && Covers(PathOf(t), Bits(key, ADDRESS_BITS)) {
      assert t in Members(texts);
      BlanketedMeans(a.stored, PathOf(t));
    }
    hide ParseNet, PathOf, Covers, Bits, Forbidden, Rebuild, Blanketed;
  }

  /**
   * Two spellings of one network: after adding both and deleting one, the live list admits the network's addresses
   * and the rebuilt list turns them away.
   */
  lemma AliasResurrectsBan(t: string, u: string, texts: seq<string>)
    requires IsNet(t) && IsNet(u) && t != u && PathOf(t) == PathOf(u) && PathOf(t) != Top
    requires Enumerates(texts, Step(Step(Step(EMPTY_ACL, AddIp(t)), AddIp(u)), DeleteIp(t)).record)
    ensures var a := Step(Step(Step(EMPTY_ACL, AddIp(t)), AddIp(u)), DeleteIp(t));
            var key := NetworkAddress(PathOf(t));
            !Forbidden(a.stored, key) && Forbidden(Rebuild(texts).stored, key)
  {
    hide ParseNet, IsNet, Step, NetworkAddress, Rebuild, Forbidden;
    var p := PathOf(t);
    OnlyUIsLeft(t, u);
    forall x | x in texts
      ensures x == u
    {
      assert x in Members(texts);
    }
    RebuildStores(texts);
    assert Indexed({u}, p);
    BitsOfNetworkAddress(p);
    AroundBits(NetworkAddress(p), ADDRESS_BITS, p);
    ForbiddenIffCovered(Rebuild(texts).stored, NetworkAddress(p));
    ForbiddenIffCovered(map[], NetworkAddress(p));
  }

  /**
   * Every two addresses of a network spell it in two ways, so such pairs exist for every network but single
   * addresses.
   */
  lemma TwoSpellings(v: uint32, w: uint32, cidr: nat)
    requires cidr <= 32 && v != w && And(v, NetMask(cidr)) == And(w, NetMask(cidr))
    ensures var t, u := QuadText(v) + ['/'] + Itoa(cidr), QuadText(w) + ['/'] + Itoa(cidr);
            IsNet(t) && IsNet(u) && t != u && PathOf(t) == PathOf(u)
  {
    QuadTextValue(v);
    QuadTextValue(w);
    ParseParts(QuadText(v), v, cidr);
    ParseParts(QuadText(w), w, cidr);
    SameNetwork(v, cidr, w, cidr);
  }

  lemma OnlyUIsLeft(t: string, u: string)
    requires IsNet(t) && IsNet(u) && t != u && PathOf(t) == PathOf(u) && PathOf(t) != Top
    ensures Step(Step(Step(EMPTY_ACL, AddIp(t)), AddIp(u)), DeleteIp(t)) == Acl(map[], {u})
  {
    hide ParseNet, PathOf;
    var a2 := Step(Step(EMPTY_ACL, AddIp(t)), AddIp(u));
    assert a2 == Acl(map[PathOf(t) := u], {t, u});
  }
}
