/**
 * Snapshots: what is saved of the gateway's state and how a replica that starts from a snapshot rebuilds the rest
 * (vermouth/context.go:120-174, vermouth/http_proxy.go:149-178). Balancers and the ban tree are not saved.
 */
module Snapshot {
  import opened Text
  import Cidr
  import opened ConsistentHash
  import opened AclSpec
  import opened AclIndex
  import opened Balancer
  import opened Gateway
  import RingList
  import Sorting

  /** The exported fields of a proxy. */
  datatype Saved = Saved(
    port: int,
    prefixerType: string,
    paths: map<string, seq<string>>,
    balancerType: map<string, string>,
    staticMapping: map<string, bool>,
    record: set<string>,
    available: bool)

  function Save(p: Proxy): Saved {
    Saved(p.port, p.prefixerType, p.paths, p.balancerType, p.staticMapping, p.acl.record, p.available)
  }

  /** Snapshot, Persist and Marshal. */
  function SaveContext(ctx: Context): map<int, Saved> { map port | port in ctx :: Save(ctx[port]) }

  /** Go ranges over maps in no fixed order: the order in which Restore meets the prefixes and the banned texts. */
  datatype Order = Order(prefixes: seq<string>, texts: seq<string>)

  ghost predicate Orders(order: Order, s: Saved) {
    Enumerates(order.prefixes, s.paths.Keys) && Enumerates(order.texts, s.record)
  }

  function Lookup<V>(m: map<string, V>, k: string, missing: V): V { if k in m then m[k] else missing }

  /** A proxy as decoding leaves it, without prefix mapping and tree. */
  function Decoded(s: Saved): Proxy {
    Proxy(s.port, s.prefixerType, s.paths, s.balancerType, s.staticMapping, Acl(map[], s.record), s.available, map[])
  }

  /** The proxy before its prefixes are added again: a fresh prefix mapping and no paths. */
  function Unmapped(s: Saved): Proxy { Decoded(s).(paths := map[]) }

  /** The first loop of the proxy's Restore. */
  function Remapped(code: Code, s: Saved, prefixes: seq<string>): Option<Proxy> {
    if prefixes == [] then Some(Unmapped(s))
    else match Remapped(code, s, prefixes[..|prefixes| - 1])
         case None => None
         case Some(p) =>
           var k := prefixes[|prefixes| - 1];
           WithPrefix(code, p, k, Lookup(s.balancerType, k, ""), Lookup(s.paths, k, []),
                      Lookup(s.staticMapping, k, false))
  }

  /** The proxy's Restore. */
  function Restored(code: Code, s: Saved, order: Order): Option<Proxy> {
    match Remapped(code, s, order.prefixes)
    case None => None
    case Some(p) => WithAcl(p, Listed(EMPTY_ACL, order.texts, true))
  }

  /** Decoding a snapshot over a context: its ports replace those there, and the others stay. */
  function DecodedOver(prior: Context, saved: map<int, Saved>): Context {
    map port | port in prior.Keys + saved.Keys :: if port in saved then Decoded(saved[port]) else prior[port]
  }

  /**
   * One turn of the context's Restore, for a proxy from the snapshot or one that was there before. The committed code
   * first bans every indexed text again, in a tree that in a proxy from the snapshot has no root, and in the end starts
   * the proxy. `clean` leaves both out. A proxy whose prefixer type is unknown is passed over.
   */
  function Turned(code: Code, clean: bool, decoded: bool, p: Proxy, order: Order): Option<Proxy> {
    if decoded && !clean && p.acl.record != {} then None
    else if p.prefixerType != HASH_PREFIXER then
      if clean then Some(p) else WithAcl(p, Listed(p.acl, order.texts, true))
    else match Restored(code, Save(p), order)
         case None => None
         case Some(q) => Some(Reopened(clean, q))
  }

  /** The context's Restore, over the context there is. */
  function RestoredContext(code: Code, clean: bool, prior: Context, saved: map<int, Saved>,
                           orders: map<int, Order>): Option<Context>
    requires orders.Keys == prior.Keys + saved.Keys
  {
    var all := DecodedOver(prior, saved);
    if exists port :: port in all && Turned(code, clean, port in saved, all[port], orders[port]).None? then None
    else Some(map port | port in all :: Turned(code, clean, port in saved, all[port], orders[port]).value)
  }

  /** The committed Restore starts every proxy. */
  function Reopened(clean: bool, p: Proxy): Proxy { if clean then p else p.(available := true) }

  ghost predicate OrdersAll(orders: map<int, Order>, all: Context) {
    orders.Keys == all.Keys && forall port :: port in all ==> Orders(orders[port], Save(all[port]))
  }

  // ---------------------------------------------------------------- one proxy

  /** The balancer that restoring builds from a saved host list. */
  function Rebuilt(hash: Hash, b: Balancer): Balancer {
    if b.Turns? then Turns(0, b.hosts) else Hashed(Build(hash, b.list), b.list)
  }

  function AllRebuilt(hash: Hash, mapping: map<string, Balancer>): map<string, Balancer> {
    map k | k in mapping :: Rebuilt(hash, mapping[k])
  }

  function Only<V>(m: map<string, V>, keys: set<string>): map<string, V> { map k | k in m && k in keys :: m[k] }

  lemma OnlyGrows<V>(m: map<string, V>, keys: set<string>, k: string)
    requires k in m
    ensures Only(m, keys + {k}) == Only(m, keys)[k := m[k]]
  {
  }

  lemma OnlyNone<V>(m: map<string, V>)
    ensures Only(m, {}) == map[]
  {
  }

  /** `p` with the prefixes in `done` mapped anew. */
  function PartlyRebuilt(hash: Hash, p: Proxy, done: set<string>): Proxy {
    p.(paths := Only(p.paths, done), acl := Acl(map[], p.acl.record),
       mapping := Only(AllRebuilt(hash, p.mapping), done))
  }

  lemma PartlyStep(code: Code, p: Proxy, done: set<string>, k: string)
    requires Coherent(p) && k in p.mapping && k !in done
    ensures WithPrefix(code, PartlyRebuilt(code.hash, p, done), k, p.balancerType[k], p.paths[k], p.staticMapping[k])
         == Some(PartlyRebuilt(code.hash, p, done + {k}))
  {
    hide IndexCovers, Rebuilt, BuildBalancer, Balancer.Mode, Balancer.Hosts, Balancer.Like, Balancer.Rebuilds,
         WithPrefix;
    var b, r := Rebuilt(code.hash, p.mapping[k]), PartlyRebuilt(code.hash, p, done);
    RebuiltIs(code.hash, p.mapping[k]);
    assert AllRebuilt(code.hash, p.mapping)[k] == b && k !in r.mapping;
    NewPrefix(code, r, k, p.balancerType[k], p.paths[k], p.staticMapping[k], b);
    PutBack(p.staticMapping, k, p.staticMapping[k]);
    PutBack(p.balancerType, k, p.balancerType[k]);
    OnlyGrows(p.paths, done, k);
    OnlyGrows(AllRebuilt(code.hash, p.mapping), done, k);
    hide Only, AllRebuilt;
  }

  lemma RebuiltIs(hash: Hash, b: Balancer)
    ensures BuildBalancer(hash, b.Mode(), b.Hosts()) == Some(Rebuilt(hash, b))
    ensures Rebuilt(hash, b).Hosts() == b.Hosts()
    ensures b.Like(Rebuilt(hash, b)) <==> b.Rebuilds(hash)
  {
  }

  /** Whatever the order, the prefixes added so far are mapped as their saved hosts and mode say. */
  lemma {:induction false} RemappedIs(code: Code, p: Proxy, prefixes: seq<string>)
    requires Coherent(p) && NoRepeats(prefixes) && Members(prefixes) <= p.mapping.Keys
    ensures Remapped(code, Save(p), prefixes) == Some(PartlyRebuilt(code.hash, p, Members(prefixes)))
  {
    hide IndexCovers, WithPrefix;
    if prefixes == [] {
      assert Members(prefixes) == {};
      OnlyNone(p.paths);
      OnlyNone(AllRebuilt(code.hash, p.mapping));
      hide Only, AllRebuilt;
    } else {
      var init, k := prefixes[..|prefixes| - 1], prefixes[|prefixes| - 1];
      assert prefixes == init + [k] && k in Members(prefixes) && Members(prefixes) == Members(init) + {k};
      assert k !in Members(init);
      RemappedIs(code, p, init);
      PartlyStep(code, p, Members(init), k);
      hide PartlyRebuilt;
    }
  }

  /** Adding the indexed texts to an empty tree never fails. */
  lemma {:induction false} ListedIsRebuild(texts: seq<string>)
    requires forall t :: t in texts ==> Cidr.IsNet(t)
    ensures Listed(EMPTY_ACL, texts, true) == Some(Rebuild(texts))
  {
    hide Cidr.ParseNet;
    if texts != [] {
      var init, last := texts[..|texts| - 1], texts[|texts| - 1];
      assert texts == init + [last];
      ListedIsRebuild(init);
      assert last in texts;
      NetIsAdded(last);
    }
  }

  lemma NetIsAdded(text: string)
    requires Cidr.IsNet(text)
    ensures AddResult(text).Done?
  {
    hide Cidr.ParseNet;
  }

  predicate RingsMatch(hash: Hash, p: Proxy) { forall k :: k in p.mapping ==> p.mapping[k].Rebuilds(hash) }

  lemma RestoredIs(code: Code, p: Proxy, order: Order)
    requires Coherent(p) && Orders(order, Save(p))
    ensures Restored(code, Save(p), order)
         == Some(p.(acl := Rebuild(order.texts), mapping := AllRebuilt(code.hash, p.mapping)))
  {
    assert Members(order.prefixes) == p.mapping.Keys && Members(order.texts) == p.acl.record;
    forall t | t in order.texts
      ensures Cidr.IsNet(t)
    {
      assert t in Members(order.texts);
    }
    RemappedIs(code, p, order.prefixes);
    ListedIsRebuild(order.texts);
    OnlyAll(p.paths, p.mapping.Keys);
    OnlyAll(AllRebuilt(code.hash, p.mapping), p.mapping.Keys);
    hide Remapped, Listed, AllRebuilt, Only, IndexCovers, Rebuild, Cidr.IsNet;
  }

  lemma OnlyAll<V>(m: map<string, V>, keys: set<string>)
    requires m.Keys == keys
    ensures Only(m, keys) == m
  {
  }

  lemma RebuiltLike(hash: Hash, p: Proxy, acl: Acl)
    ensures ProxyLike(p, p.(acl := acl, mapping := AllRebuilt(hash, p.mapping)))
       <==> AclLike(p.acl, acl) && RingsMatch(hash, p)
  {
    hide Rebuilt, Balancer.Rebuilds, Balancer.Like, AclLike;
    var q := p.(acl := acl, mapping := AllRebuilt(hash, p.mapping));
    assert q.mapping.Keys == p.mapping.Keys;
    forall k | k in p.mapping
      ensures p.mapping[k].Like(q.mapping[k]) <==> p.mapping[k].Rebuilds(hash)
    {
      RebuiltIs(hash, p.mapping[k]);
    }
  }

  /** Restoring never fails; it gives a like proxy exactly when each ring fits its list and the index its bans. */
  lemma RestoredIsLike(code: Code, p: Proxy, order: Order)
    requires Coherent(p) && Orders(order, Save(p))
    ensures var q := Restored(code, Save(p), order);
            && q.Some? && q.value.available == p.available
            && (ProxyLike(p, q.value) <==> RingsMatch(code.hash, p) && IndexAgrees(p.acl))
  {
    RestoredIs(code, p, order);
    RebuildAnswers(p.acl, order.texts);
    RebuiltLike(code.hash, p, Rebuild(order.texts));
    hide Restored, IndexCovers, Rebuild, ProxyLike, RingsMatch, AllRebuilt, IndexAgrees, Forbidden;
  }

  // ---------------------------------------------------------------- the whole context

  /** The proxy a port has after the snapshot of `ctx` has been decoded over `prior`. */
  function Source(prior: Context, ctx: Context, port: int): Proxy
    requires port in prior || port in ctx
  {
    if port in ctx then ctx[port] else prior[port]
  }

  lemma DecodedIs(prior: Context, ctx: Context)
    ensures SaveContext(ctx).Keys == ctx.Keys
    ensures DecodedOver(prior, SaveContext(ctx)).Keys == prior.Keys + ctx.Keys
    ensures forall port :: port in prior.Keys + ctx.Keys ==>
              Save(DecodedOver(prior, SaveContext(ctx))[port]) == Save(Source(prior, ctx, port))
  {
  }

  lemma TurnedIs(code: Code, clean: bool, decoded: bool, p: Proxy, q: Proxy, order: Order)
    requires Coherent(p) && Save(q) == Save(p) && Orders(order, Save(p))
    ensures Restored(code, Save(p), order).Some?
    ensures Turned(code, clean, decoded, q, order)
         == if decoded && !clean && p.acl.record != {} then None
            else Some(Reopened(clean, Restored(code, Save(p), order).value))
  {
    assert Save(q).record == q.acl.record && Save(q).prefixerType == q.prefixerType;
    RestoredIsLike(code, p, order);
    hide Restored, Save, Reopened, Orders, IndexCovers, ProxyLike, IndexAgrees, RingsMatch;
  }

  ghost predicate PortRestored(code: Code, clean: bool, p: Proxy, order: Order, q: Proxy) {
    && Orders(order, Save(p))
    && var r := Restored(code, Save(p), order);
       r.Some? && q == Reopened(clean, r.value)
  }

  /** The turn for `port` fails exactly for a banned text on a tree without root, and otherwise restores the port. */
  ghost predicate TurnsWell(code: Code, clean: bool, prior: Context, ctx: Context, orders: map<int, Order>, port: int)
    requires orders.Keys == prior.Keys + ctx.Keys && port in orders
  {
    var q := Turned(code, clean, port in ctx, DecodedOver(prior, SaveContext(ctx))[port], orders[port]);
    && (q.None? <==> port in ctx && !clean && ctx[port].acl.record != {})
    && (q.Some? ==> PortRestored(code, clean, Source(prior, ctx, port), orders[port], q.value))
  }

  lemma PortTurnsWell(code: Code, clean: bool, prior: Context, ctx: Context, orders: map<int, Order>, port: int)
    requires CoherentContext(prior) && CoherentContext(ctx) && OrdersAll(orders, DecodedOver(prior, SaveContext(ctx)))
    requires port in orders
    ensures orders.Keys == prior.Keys + ctx.Keys && TurnsWell(code, clean, prior, ctx, orders, port)
  {
    DecodedIs(prior, ctx);
    hide Restored, Coherent, Orders, Reopened, DecodedOver, Turned, Save, SaveContext;
    TurnedIs(code, clean, port in ctx, Source(prior, ctx, port), DecodedOver(prior, SaveContext(ctx))[port],
             orders[port]);
  }

  lemma KeysAre(prior: Context, ctx: Context, orders: map<int, Order>)
    requires OrdersAll(orders, DecodedOver(prior, SaveContext(ctx)))
    ensures SaveContext(ctx).Keys == ctx.Keys && orders.Keys == prior.Keys + ctx.Keys
  {
    DecodedIs(prior, ctx);
    hide DecodedOver, SaveContext;
  }

  /** A proxy of an unknown prefixer type spoils nothing: it stays as it was decoded, and the others are restored. */
  lemma UnknownIsPassedOver(code: Code, prior: Context, saved: map<int, Saved>, orders: map<int, Order>, port: int)
    requires orders.Keys == prior.Keys + saved.Keys && port in orders
    requires DecodedOver(prior, saved)[port].prefixerType != HASH_PREFIXER
    ensures var r := RestoredContext(code, true, prior, saved, orders);
            && (r.Some? ==> port in r.value && r.value[port] == DecodedOver(prior, saved)[port])
            && (r.Some? <==> forall i :: i in orders && DecodedOver(prior, saved)[i].prefixerType == HASH_PREFIXER ==>
                  Restored(code, Save(DecodedOver(prior, saved)[i]), orders[i]).Some?)
  {
    AllTurned(code, true, prior, saved, orders);
    hide RestoredContext, Restored, DecodedOver, Save;
    assert DecodedOver(prior, saved).Keys == orders.Keys;
  }

  /** The turns do not meddle: the context is restored exactly when each port is. */
  lemma AllTurned(code: Code, clean: bool, prior: Context, saved: map<int, Saved>, orders: map<int, Order>)
    requires orders.Keys == prior.Keys + saved.Keys
    ensures DecodedOver(prior, saved).Keys == orders.Keys
    ensures var r := RestoredContext(code, clean, prior, saved, orders);
            && (r.Some? <==> forall port :: port in orders ==>
                  Turned(code, clean, port in saved, DecodedOver(prior, saved)[port], orders[port]).Some?)
            && (r.Some? ==>
                  && r.value.Keys == orders.Keys
                  && forall port :: port in orders ==>
                       Turned(code, clean, port in saved, DecodedOver(prior, saved)[port], orders[port])
                       == Some(r.value[port]))
  {
    hide Turned;
    assert DecodedOver(prior, saved).Keys == orders.Keys;
    hide DecodedOver;
  }

  lemma RestoredContextIs(code: Code, clean: bool, prior: Context, ctx: Context, orders: map<int, Order>)
    requires CoherentContext(prior) && CoherentContext(ctx) && OrdersAll(orders, DecodedOver(prior, SaveContext(ctx)))
    ensures orders.Keys == prior.Keys + ctx.Keys
    ensures var r := RestoredContext(code, clean, prior, SaveContext(ctx), orders);
            && (r.Some? <==> clean || forall port :: port in ctx ==> ctx[port].acl.record == {})
            && (r.Some? ==> && r.value.Keys == prior.Keys + ctx.Keys
                            && forall port :: port in prior.Keys + ctx.Keys ==>
                                 PortRestored(code, clean, Source(prior, ctx, port), orders[port], r.value[port]))
  {
    hide Turned, DecodedOver, SaveContext, PortRestored, Source, CoherentContext, OrdersAll, RestoredContext;
    assert SaveContext(ctx).Keys == ctx.Keys && orders.Keys == prior.Keys + ctx.Keys by { KeysAre(prior, ctx, orders); }
    AllTurned(code, clean, prior, SaveContext(ctx), orders);
    forall port | port in orders
      ensures TurnsWell(code, clean, prior, ctx, orders, port)
    {
      PortTurnsWell(code, clean, prior, ctx, orders, port);
    }
  }

  /**
   * With a clean Restore the replica is like the one that made the snapshot exactly when no proxy of its own lingers
   * at a port without proxy in the snapshot, and rings and bans are in step.
   */
  lemma CleanRestore(code: Code, prior: Context, ctx: Context, orders: map<int, Order>)
    requires CoherentContext(prior) && CoherentContext(ctx) && OrdersAll(orders, DecodedOver(prior, SaveContext(ctx)))
    ensures orders.Keys == prior.Keys + ctx.Keys
    ensures var r := RestoredContext(code, true, prior, SaveContext(ctx), orders);
            && r.Some?
            && (ContextLike(ctx, r.value)
                <==> && prior.Keys <= ctx.Keys
                     && forall port :: port in ctx ==> RingsMatch(code.hash, ctx[port]) && IndexAgrees(ctx[port].acl))
  {
    hide Restored, Coherent, Orders, RingsMatch, IndexAgrees, ProxyLike, RestoredContext, DecodedOver;
    RestoredContextIs(code, true, prior, ctx, orders);
    assert prior.Keys + ctx.Keys == ctx.Keys <==> prior.Keys <= ctx.Keys;
    forall port | port in ctx
      ensures ProxyLike(ctx[port], RestoredContext(code, true, prior, SaveContext(ctx), orders).value[port])
         <==> RingsMatch(code.hash, ctx[port]) && IndexAgrees(ctx[port].acl)
    {
      RestoredIsLike(code, ctx[port], orders[port]);
    }
  }

  lemma StartedIsLike(code: Code, p: Proxy, order: Order, q: Proxy)
    requires Coherent(p) && p.acl.record == {} && PortRestored(code, false, p, order, q)
    ensures ProxyLike(p, q) <==> RingsMatch(code.hash, p) && p.available
  {
    RestoredIsLike(code, p, order);
    assert IndexAgrees(p.acl);
    hide Restored, IndexAgrees, RingsMatch, Coherent;
  }

  /**
   * The committed Restore panics exactly when the snapshot holds any banned text; when it does not, the replica is
   * like the one that made the snapshot exactly when no old proxy lingers, rings are in step and no proxy had been
   * stopped.
   */
  lemma CommittedRestore(code: Code, prior: Context, ctx: Context, orders: map<int, Order>)
    requires CoherentContext(prior) && CoherentContext(ctx) && OrdersAll(orders, DecodedOver(prior, SaveContext(ctx)))
    ensures orders.Keys == prior.Keys + ctx.Keys
    ensures var r := RestoredContext(code, false, prior, SaveContext(ctx), orders);
            && (r.Some? <==> forall port :: port in ctx ==> ctx[port].acl.record == {})
            && (r.Some? ==> (ContextLike(ctx, r.value)
                             <==> && prior.Keys <= ctx.Keys
                                  && forall port :: port in ctx ==>
                                       RingsMatch(code.hash, ctx[port]) && ctx[port].available))
  {
    hide Restored, Coherent, Orders, RingsMatch, IndexAgrees, ProxyLike, RestoredContext, DecodedOver;
    RestoredContextIs(code, false, prior, ctx, orders);
    var r := RestoredContext(code, false, prior, SaveContext(ctx), orders);
    assert prior.Keys + ctx.Keys == ctx.Keys <==> prior.Keys <= ctx.Keys;
    if forall port :: port in ctx ==> ctx[port].acl.record == {} {
      forall port | port in ctx
        ensures ProxyLike(ctx[port], r.value[port])
           <==> RingsMatch(code.hash, ctx[port]) && ctx[port].available
      {
        assert Source(prior, ctx, port) == ctx[port];
        StartedIsLike(code, ctx[port], orders[port], r.value[port]);
      }
      hide Source, PortRestored, OrdersAll, SaveContext, CoherentContext;
    }
  }

  // ---------------------------------------------------------------- logs that keep rings and bans in step

  /** What a snapshot saves is enough: rings fit their lists and the index fits the bans. */
  ghost predicate InStep(hash: Hash, p: Proxy, texts: set<string>) {
    RingsMatch(hash, p) && IndexAgrees(p.acl) && p.acl.record <= texts
  }

  predicate OnRing(p: Proxy, prefix: string) { prefix in p.mapping && p.mapping[prefix].Hashed? }

  /**
   * All a log has to heed: which hosts it takes off a ring, which texts it uses for networks, and, with the committed
   * Add, that it adds no host to a ring.
   */
  ghost predicate Proper(code: Code, p: Proxy, edit: Edit, texts: set<string>) {
    match edit
    case AddHost(prefix, _) => OnRing(p, prefix) ==> code.extendsList
    case RemoveHost(prefix, host) => OnRing(p, prefix) ==> RingList.Removable(code.hash, p.mapping[prefix].list, host)
    case AddBlackList(ips) => Members(ips) <= texts
    case RemoveBlackList(ips) => Members(ips) <= texts
    case _ => true
  }

  ghost predicate ProperLog(code: Code, ctx: Context, log: seq<Entry>, texts: set<string>)
    decreases |log|
  {
    log == []
    || (&& (log[0].EditProxy? && log[0].port in ctx ==> Proper(code, ctx[log[0].port], log[0].edit, texts))
        && (Apply(code, ctx, log[0]).Some? ==> ProperLog(code, Apply(code, ctx, log[0]).value, log[1..], texts)))
  }

  /** With the list extended, adding any host keeps any balancer in step. */
  lemma AddKeepsRing(hash: Hash, b: Balancer, host: string, extendsList: bool)
    requires b.Rebuilds(hash) && (b.Hashed? ==> extendsList)
    ensures b.Add(hash, host, extendsList).Rebuilds(hash)
  {
    hide ConsistentHash.AddHost;
    if b.Hashed? {
      assert (b.list + [host])[..|b.list|] == b.list;
    }
  }

  /**
   * Removing a host succeeds and keeps a balancer in step exactly when the host is removable from its ring, if it has
   * one.
   */
  lemma RemoveKeepsRing(hash: Hash, b: Balancer, host: string)
    requires b.Rebuilds(hash)
    ensures (b.Remove(hash, host).Some? && b.Remove(hash, host).value.Rebuilds(hash))
       <==> (b.Hashed? ==> RingList.Removable(hash, b.list, host))
  {
    hide RingList.Removable, Build, ConsistentHash.RemoveHost, RemoveFirst;
    if b.Hashed? {
      RingList.RemoveKeepsBuild(hash, b.list, host);
    }
  }

  lemma {:induction false} ListedKeepsStep(a: Acl, ips: seq<string>, ban: bool, texts: set<string>)
    requires IndexAgrees(a) && a.record <= texts && Members(ips) <= texts && Unambiguous(texts)
    requires Listed(a, ips, ban).Some?
    ensures IndexAgrees(Listed(a, ips, ban).value) && Listed(a, ips, ban).value.record <= texts
  {
    hide IndexAgrees, Step, StepCrashes, Unambiguous, Aliased, Cidr.IsNet;
    if ips != [] {
      var init, ip := ips[..|ips| - 1], ips[|ips| - 1];
      assert ip in Members(ips) && Members(init) <= Members(ips);
      ListedKeepsStep(a, init, ban, texts);
      var b := Listed(a, init, ban).value;
      StepKeepsIndex(b, OpOn(ip, ban));
      NotAliased(b, ip, texts);
    }
  }

  lemma PutKeepsStep(hash: Hash, p: Proxy, prefix: string, b: Balancer, texts: set<string>)
    requires InStep(hash, p, texts) && b.Rebuilds(hash)
    ensures InStep(hash, PutBalancer(p, prefix, b), texts)
  {
    hide Balancer.Rebuilds, IndexAgrees;
  }

  lemma PrefixKeepsStep(code: Code, p: Proxy, prefix: string, algo: string, hosts: seq<string>, isStatic: bool,
                        texts: set<string>)
    requires InStep(code.hash, p, texts) && WithPrefix(code, p, prefix, algo, hosts, isStatic).Some?
    ensures InStep(code.hash, WithPrefix(code, p, prefix, algo, hosts, isStatic).value, texts)
  {
    if prefix !in p.mapping {
      BuiltMode(code.hash, algo, hosts);
      PutKeepsStep(code.hash, p, prefix, BuildBalancer(code.hash, algo, hosts).value, texts);
    }
    hide Balancer.Rebuilds, IndexAgrees, BuildBalancer;
  }

  lemma EditKeepsStep(code: Code, p: Proxy, edit: Edit, texts: set<string>)
    requires Unambiguous(texts)
    requires InStep(code.hash, p, texts) && Proper(code, p, edit, texts) && Edited(code, p, edit).Some?
    ensures InStep(code.hash, Edited(code, p, edit).value, texts)
  {
    hide RingList.Removable, Unambiguous, IndexAgrees, Listed, WithPrefix, Balancer.Add, Balancer.Remove,
         Balancer.Rebuilds;
    match edit {
      case AddPrefix(prefix, algo, hosts, isStatic) =>
        PrefixKeepsStep(code, p, prefix, algo, hosts, isStatic, texts);
      case RemovePrefix(prefix) =>
      case AddHost(prefix, host) =>
        AddKeepsRing(code.hash, p.mapping[prefix], host, code.extendsList);
        PutKeepsStep(code.hash, p, prefix, p.mapping[prefix].Add(code.hash, host, code.extendsList), texts);
      case RemoveHost(prefix, host) =>
        RemoveKeepsRing(code.hash, p.mapping[prefix], host);
        PutKeepsStep(code.hash, p, prefix, p.mapping[prefix].Remove(code.hash, host).value, texts);
      case ChangeLb(prefix, lb) =>
        PrefixKeepsStep(code, WithoutPrefix(p, prefix), prefix, lb, p.mapping[prefix].Hosts(), IsStatic(p, prefix),
            texts);
      case AddBlackList(ips) =>
        ListedKeepsStep(p.acl, ips, true, texts);
      case RemoveBlackList(ips) =>
        ListedKeepsStep(p.acl, ips, false, texts);
      case ChangeStatic(_) =>
      case ChangeState(_) =>
    }
  }

  ghost predicate ContextInStep(hash: Hash, ctx: Context, texts: set<string>) {
    forall port :: port in ctx ==> InStep(hash, ctx[port], texts)
  }

  lemma {:induction false} ReplayKeepsStep(code: Code, ctx: Context, log: seq<Entry>, texts: set<string>)
    requires Unambiguous(texts)
    requires ContextInStep(code.hash, ctx, texts) && ProperLog(code, ctx, log, texts)
    requires Replay(code, ctx, log).Some?
    ensures ContextInStep(code.hash, Replay(code, ctx, log).value, texts)
    decreases |log|
  {
    hide Unambiguous, InStep, Edited, Proper;
    if log != [] {
      var next := Apply(code, ctx, log[0]).value;
      if log[0].EditProxy? && !Closes(log[0].edit) {
        EditKeepsStep(code, ctx[log[0].port], log[0].edit, texts);
      } else if log[0].AddProxy? && log[0].port !in ctx {
        NewIsInStep(code.hash, log[0].port, log[0].prefixerType, texts);
      }
      assert ContextInStep(code.hash, next, texts);
      ReplayKeepsStep(code, next, log[1..], texts);
    }
  }

  lemma NewIsInStep(hash: Hash, port: int, prefixerType: string, texts: set<string>)
    ensures NewProxy(port, prefixerType).Some? ==> InStep(hash, NewProxy(port, prefixerType).value, texts)
  {
  }

  // ---------------------------------------------------------------- which logs are proper

  /** No balancer lists a host twice, and all listed hosts are among `known`. */
  ghost predicate Stocked(p: Proxy, known: set<string>) {
    forall k :: k in p.mapping ==> NoRepeats(p.mapping[k].Hosts()) && Members(p.mapping[k].Hosts()) <= known
  }

  ghost predicate ContextStocked(ctx: Context, known: set<string>) {
    forall port :: port in ctx ==> Stocked(ctx[port], known)
  }

  /** What a caller can see to: hosts are new when they are added to a ring and listed when they are removed. */
  ghost predicate Careful(p: Proxy, edit: Edit, texts: set<string>, known: set<string>) {
    match edit
    case AddPrefix(_, _, hosts, _) => NoRepeats(hosts) && Members(hosts) <= known
    case AddHost(prefix, host) => host in known && (OnRing(p, prefix) ==> host !in p.mapping[prefix].list)
    case RemoveHost(prefix, host) => OnRing(p, prefix) ==> host in p.mapping[prefix].list
    case AddBlackList(ips) => Members(ips) <= texts
    case RemoveBlackList(ips) => Members(ips) <= texts
    case _ => true
  }

  ghost predicate CarefulLog(code: Code, ctx: Context, log: seq<Entry>, texts: set<string>, known: set<string>)
    decreases |log|
  {
    log == []
    || (&& (log[0].EditProxy? && log[0].port in ctx ==> Careful(ctx[log[0].port], log[0].edit, texts, known))
        && (Apply(code, ctx, log[0]).Some? ==>
              CarefulLog(code, Apply(code, ctx, log[0]).value, log[1..], texts, known)))
  }

  lemma CarefulIsProper(code: Code, p: Proxy, edit: Edit, texts: set<string>, known: set<string>)
    requires code.extendsList && CollisionFree(code.hash, known)
    requires Stocked(p, known) && Careful(p, edit, texts, known)
    ensures Proper(code, p, edit, texts)
  {
    if edit.RemoveHost? && OnRing(p, edit.prefix) {
      assert p.mapping[edit.prefix].Hosts() == p.mapping[edit.prefix].list;
      RingList.CollisionFreeRemovable(code.hash, p.mapping[edit.prefix].list, edit.host, known);
      hide RingList.Removable;
    }
  }

  lemma LeftMembers(list: seq<string>, host: string)
    requires NoRepeats(list)
    ensures NoRepeats(RemoveFirst(list, host)) && Members(RemoveFirst(list, host)) <= Members(list)
  {
    RemoveFirstMembers(list, host);
  }

  lemma PutKeepsStock(p: Proxy, prefix: string, b: Balancer, known: set<string>)
    requires Stocked(p, known) && NoRepeats(b.Hosts()) && Members(b.Hosts()) <= known
    ensures Stocked(PutBalancer(p, prefix, b), known)
  {
    hide Balancer.Hosts;
  }

  lemma AddKeepsStock(code: Code, p: Proxy, prefix: string, host: string, known: set<string>)
    requires Stocked(p, known) && prefix in p.mapping && host in known
    requires OnRing(p, prefix) ==> host !in p.mapping[prefix].list
    ensures Stocked(PutBalancer(p, prefix, p.mapping[prefix].Add(code.hash, host, code.extendsList)), known)
  {
    var b := p.mapping[prefix];
    assert NoRepeats(b.Hosts()) && Members(b.Hosts()) <= known;
    hide ConsistentHash.AddHost;
    PutKeepsStock(p, prefix, b.Add(code.hash, host, code.extendsList), known);
  }

  lemma RemoveKeepsStock(code: Code, p: Proxy, prefix: string, host: string, known: set<string>)
    requires Stocked(p, known) && prefix in p.mapping && p.mapping[prefix].Remove(code.hash, host).Some?
    ensures Stocked(PutBalancer(p, prefix, p.mapping[prefix].Remove(code.hash, host).value), known)
  {
    var b := p.mapping[prefix];
    LeftMembers(b.Hosts(), host);
    hide ConsistentHash.RemoveHost, RemoveFirst;
    PutKeepsStock(p, prefix, b.Remove(code.hash, host).value, known);
  }

  lemma PrefixKeepsStock(code: Code, p: Proxy, prefix: string, algo: string, hosts: seq<string>, isStatic: bool,
                         known: set<string>)
    requires Stocked(p, known) && NoRepeats(hosts) && Members(hosts) <= known
    requires WithPrefix(code, p, prefix, algo, hosts, isStatic).Some?
    ensures Stocked(WithPrefix(code, p, prefix, algo, hosts, isStatic).value, known)
  {
    BuiltMode(code.hash, algo, hosts);
    hide BuildBalancer, Balancer.Hosts;
  }

  lemma CarefulKeepsStock(code: Code, p: Proxy, edit: Edit, texts: set<string>, known: set<string>)
    requires Stocked(p, known) && Careful(p, edit, texts, known) && Edited(code, p, edit).Some?
    ensures Stocked(Edited(code, p, edit).value, known)
  {
    hide Listed, WithPrefix, Balancer.Add, Balancer.Remove, Balancer.Hosts;
    match edit {
      case AddPrefix(prefix, algo, hosts, isStatic) =>
        PrefixKeepsStock(code, p, prefix, algo, hosts, isStatic, known);
      case AddHost(prefix, host) =>
        AddKeepsStock(code, p, prefix, host, known);
      case RemoveHost(prefix, host) =>
        RemoveKeepsStock(code, p, prefix, host, known);
      case ChangeLb(prefix, lb) =>
        PrefixKeepsStock(code, WithoutPrefix(p, prefix), prefix, lb, p.mapping[prefix].Hosts(), IsStatic(p, prefix),
            known);
      case _ =>
    }
  }

  /** With hosts whose points do not collide and the list extended, every careful log is proper. */
  lemma {:induction false} CarefulLogIsProper(code: Code, ctx: Context, log: seq<Entry>, texts: set<string>,
                                              known: set<string>)
    requires code.extendsList && CollisionFree(code.hash, known)
    requires ContextStocked(ctx, known) && CarefulLog(code, ctx, log, texts, known)
    ensures ProperLog(code, ctx, log, texts)
    decreases |log|
  {
    hide CollisionFree, Stocked, Careful, Proper, Edited;
    if log != [] {
      var e := log[0];
      if e.EditProxy? && e.port in ctx {
        CarefulIsProper(code, ctx[e.port], e.edit, texts, known);
      }
      if Apply(code, ctx, e).Some? {
        if e.EditProxy? && !Closes(e.edit) {
          CarefulKeepsStock(code, ctx[e.port], e.edit, texts, known);
        } else if e.AddProxy? && e.port !in ctx {
          NewIsStocked(e.port, e.prefixerType, known);
        }
        CarefulLogIsProper(code, Apply(code, ctx, e).value, log[1..], texts, known);
      }
    }
  }

  lemma NewIsStocked(port: int, prefixerType: string, known: set<string>)
    ensures NewProxy(port, prefixerType).Some? ==> Stocked(NewProxy(port, prefixerType).value, known)
  {
  }

  // ---------------------------------------------------------------- the theorem

  /**
   * Snapshot and replay agree: cut a log anywhere after a proper part, save the state of the first part, restore it in
   * whatever map order, into an empty context or over one without other ports, apply the rest, and the replica ends up
   * like one that applied the whole log, or both panic.
   */
  lemma SnapshotThenReplay(code: Code, prior: Context, a: seq<Entry>, b: seq<Entry>, orders: map<int, Order>,
                           texts: set<string>)
    requires Unambiguous(texts)
    requires ProperLog(code, map[], a, texts) && Replay(code, map[], a).Some?
    requires CoherentContext(prior) && prior.Keys <= Replay(code, map[], a).value.Keys
    requires OrdersAll(orders, DecodedOver(prior, SaveContext(Replay(code, map[], a).value)))
    ensures var ctx := Replay(code, map[], a).value;
            && orders.Keys == prior.Keys + SaveContext(ctx).Keys
            && var cut := RestoredContext(code, true, prior, SaveContext(ctx), orders);
               && cut.Some?
               && var whole, resumed := Replay(code, map[], a + b), Replay(code, cut.value, b);
                  whole.Some? == resumed.Some? && (whole.Some? ==> ContextLike(whole.value, resumed.value))
  {
    var ctx := Replay(code, map[], a).value;
    ReplayKeepsCoherent(code, map[], a);
    ReplayKeepsStep(code, map[], a, texts);
    assert SaveContext(ctx).Keys == ctx.Keys;
    hide Unambiguous, Replay, RestoredContext, OrdersAll, ProxyLike, IndexAgrees, Coherent, ProperLog, RingsMatch,
         SaveContext, DecodedOver;
    forall port | port in ctx
      ensures RingsMatch(code.hash, ctx[port]) && IndexAgrees(ctx[port].acl)
    {
      assert InStep(code.hash, ctx[port], texts);
    }
    CleanRestore(code, prior, ctx, orders);
    ReplaySplits(code, map[], a, b);
    ReplayLike(code, ctx, RestoredContext(code, true, prior, SaveContext(ctx), orders).value, b);
  }

  /** Every set of texts can be ranged over, so every snapshot has an order to be restored in. */
  lemma {:induction false} SomeEnumeration(record: set<string>) returns (texts: seq<string>)
    ensures Enumerates(texts, record)
  {
    if record == {} {
      texts := [];
    } else {
      var t :| t in record;
      var rest := SomeEnumeration(record - {t});
      texts := rest + [t];
      assert t !in Members(rest);
      forall x
        ensures x in Members(texts) <==> x in record
      {
        assert x in rest <==> x in Members(rest);
        assert x in texts <==> x in rest || x == t;
      }
    }
  }

  // ---------------------------------------------------------------- the committed ring

  /** The committed Add takes a ring out of step with its list, whatever the host: a snapshot then loses the host. */
  lemma CommittedAddLosesStep(hash: Hash, b: Balancer, host: string)
    requires b.Hashed? && b.Rebuilds(hash)
    ensures !b.Add(hash, host, false).Rebuilds(hash) && Rebuilt(hash, b.Add(hash, host, false)) == b
  {
    hide Build, Points, AddPoints;
    AddedSize(b.ring, Points(hash, host), host);
  }
}
