/**
 * What log entries do (vermouth/log_entry_handler.go, vermouth/http_proxy.go), said of the proxies alone: ban lists,
 * the states of a proxy, which entries panic, and what a whole log leaves behind.
 */
module EntryLaws {
  import opened Text
  import opened Word
  import opened Cidr
  import opened AclSpec
  import opened AclIndex
  import opened ConsistentHash
  import opened Balancer
  import opened Gateway
  import opened Lifecycle

  // ---------------------------------------------------------------- lists of bans

  /** The networks that the texts of the list denote. */
  function Denoted(ips: seq<string>): set<Prefix> { set ip | ip in ips && IsNet(ip) :: PathOf(ip) }

  lemma DenotedMore(ips: seq<string>, ip: string)
    ensures Denoted(ips + [ip]) == Denoted(ips) + if IsNet(ip) then {PathOf(ip)} else {}
  {
    hide IsNet, PathOf;
    assert forall x :: x in ips + [ip] <==> x in ips || x == ip;
  }

  /**
   * Banning: afterwards exactly the networks are stored that were stored before or that a text of the list denotes. The
   * others keep their values, and a denoted one has as its value a text of the list that denotes it.
   */
  ghost predicate Banned(a: Acl, ips: seq<string>, b: Acl) {
    && b.stored.Keys == a.stored.Keys + Denoted(ips)
    && (forall p :: p in a.stored && p !in Denoted(ips) ==> b.stored[p] == a.stored[p])
    && (forall p :: p in Denoted(ips) ==> b.stored[p] in ips && IsNet(b.stored[p]) && PathOf(b.stored[p]) == p)
    && (forall t :: t in b.record <==> t in a.record || (t in ips && IsNet(t)))
  }

  /** Lifting bans: exactly the networks go that a text of the list denotes, and the others keep their values. */
  ghost predicate Lifted(a: Acl, ips: seq<string>, b: Acl) {
    && b.stored.Keys == a.stored.Keys - Denoted(ips)
    && (forall p :: p in b.stored ==> b.stored[p] == a.stored[p])
    && (forall t :: t in b.record ==> t in a.record) && (forall t :: t in a.record && t !in ips ==> t in b.record)
  }

  lemma NetAdded(a: Acl, ip: string)
    ensures IsNet(ip) ==> ip != "" && AddNet(a, ip, ip) == Acl(a.stored[PathOf(ip) := ip], a.record + {ip})
    ensures !IsNet(ip) ==> AddNet(a, ip, ip) == a
  {
    hide PathOf;
  }

  lemma NetDeleted(a: Acl, ip: string)
    requires !DeleteResult(a, ip).Crashed?
    ensures var b := DeleteNet(a, ip);
            && b.stored == (if IsNet(ip) then a.stored - {PathOf(ip)} else a.stored)
            && (b.record == a.record || b.record == a.record - {ip})
  {
    hide PathOf, ParseNet, OnlyRoot;
  }

  lemma BanStep(a: Acl, ips: seq<string>, ip: string, b: Acl)
    requires Banned(a, ips, b)
    ensures Banned(a, ips + [ip], AddNet(b, ip, ip))
  {
    DenotedMore(ips, ip);
    NetAdded(b, ip);
    hide Denoted, IsNet, PathOf, AddNet;
    assert forall x :: x in ips + [ip] <==> x in ips || x == ip;
  }

  lemma LiftStep(a: Acl, ips: seq<string>, ip: string, b: Acl)
    requires Lifted(a, ips, b) && !DeleteResult(b, ip).Crashed?
    ensures Lifted(a, ips + [ip], DeleteNet(b, ip))
  {
    DenotedMore(ips, ip);
    NetDeleted(b, ip);
    hide Denoted, IsNet, PathOf, DeleteNet, DeleteResult;
    assert forall x :: x in ips + [ip] <==> x in ips || x == ip;
  }

  /** Every list of texts, banned one after the other, in any ban list. */
  lemma {:induction false} BanningBans(a: Acl, ips: seq<string>)
    requires Listed(a, ips, true).Some?
    ensures Banned(a, ips, Listed(a, ips, true).value)
  {
    hide Banned, AddNet, DeleteNet, AddResult;
    if ips == [] {
      assert Denoted(ips) == {};
      assert Banned(a, [], a) by { NothingNamed(a); }
    } else {
      var init, ip := ips[..|ips| - 1], ips[|ips| - 1];
      assert ips == init + [ip];
      BanningBans(a, init);
      BanStep(a, init, ip, Listed(a, init, true).value);
    }
  }

  lemma NothingNamed(a: Acl)
    ensures Banned(a, [], a) && Lifted(a, [], a)
  {
  }

  /** Every list of texts, lifted one after the other, from any ban list. */
  lemma {:induction false} LiftingLifts(a: Acl, ips: seq<string>)
    requires Listed(a, ips, false).Some?
    ensures Lifted(a, ips, Listed(a, ips, false).value)
  {
    hide Lifted, AddNet, DeleteNet, DeleteResult;
    if ips == [] {
      NothingNamed(a);
    } else {
      var init, ip := ips[..|ips| - 1], ips[|ips| - 1];
      assert ips == init + [ip];
      LiftingLifts(a, init);
      LiftStep(a, init, ip, Listed(a, init, false).value);
    }
  }

  ghost predicate Within(p: Prefix, key: uint32) { Covers(p, Bits(key, ADDRESS_BITS)) }

  lemma ForbiddenWithin(t: Table, key: uint32)
    requires Valued(t)
    ensures Forbidden(t, key) <==> exists p :: p in t && Within(p, key)
  {
    ForbiddenIffCovered(t, key);
    hide Forbidden, Covers, Bits;
    assert forall p :: Within(p, key) <==> Covers(p, Bits(key, ADDRESS_BITS));
  }

  /** What banning means for a caller. */
  lemma CallersBanned(a: Acl, ips: seq<string>, key: uint32)
    requires Valued(a.stored) && Listed(a, ips, true).Some?
    ensures var t := Listed(a, ips, true).value.stored;
            && Valued(t)
            && (Forbidden(t, key) <==> Forbidden(a.stored, key) || exists p :: p in Denoted(ips) && Within(p, key))
  {
    hide Forbidden, Within, Denoted, PathOf, ParseNet, Listed;
    var t := Listed(a, ips, true).value.stored;
    BanningBans(a, ips);
    assert Valued(t) by {
      assert forall p :: p in t ==> p in a.stored || p in Denoted(ips);
    }
    ForbiddenWithin(a.stored, key);
    ForbiddenWithin(t, key);
  }

  /** What lifting bans means for a caller. */
  lemma CallersLifted(a: Acl, ips: seq<string>, key: uint32)
    requires Valued(a.stored) && Listed(a, ips, false).Some?
    ensures var t := Listed(a, ips, false).value.stored;
            && Valued(t)
            && (Forbidden(t, key) <==> exists p :: p in a.stored && p !in Denoted(ips) && Within(p, key))
  {
    hide Forbidden, Within, Denoted, Listed;
    LiftingLifts(a, ips);
    ForbiddenWithin(Listed(a, ips, false).value.stored, key);
  }

  /**
   * Lifting panics at the first text that reads past its fourth number, or that denotes `/0` when all other networks
   * have gone before it.
   */
  ghost predicate LiftsBadly(a: Acl, ips: seq<string>, i: nat)
    requires i < |ips|
  {
    || ParseNet(ips[i]).AddressPanic?
    || (IsNet(ips[i]) && PathOf(ips[i]) == Top && forall p :: p in a.stored && p !in Denoted(ips[..i]) ==> p == Top)
  }

  lemma LiftCrashes(a: Acl, ips: seq<string>, i: nat)
    requires i < |ips| && Listed(a, ips[..i], false).Some?
    ensures DeleteResult(Listed(a, ips[..i], false).value, ips[i]).Crashed? <==> LiftsBadly(a, ips, i)
  {
    LiftingLifts(a, ips[..i]);
    hide Listed, Denoted, ParseNet, PathOf;
    var b := Listed(a, ips[..i], false).value;
    assert forall p :: p in b.stored <==> p in a.stored && p !in Denoted(ips[..i]);
    hide Lifted;
  }

  lemma {:induction false} LiftingPanics(a: Acl, ips: seq<string>)
    ensures Listed(a, ips, false).None? <==> exists i: nat :: i < |ips| && LiftsBadly(a, ips, i)
  {
    hide LiftsBadly, Step, DeleteResult;
    if ips != [] {
      var init, n := ips[..|ips| - 1], |ips| - 1;
      LiftingPanics(a, init);
      forall i: nat | i < n
        ensures LiftsBadly(a, init, i) <==> LiftsBadly(a, ips, i)
      {
        LiftsFront(a, ips, n, i);
      }
      if Listed(a, init, false).Some? {
        LiftCrashes(a, ips, n);
      }
    }
  }

  lemma LiftsFront(a: Acl, ips: seq<string>, n: nat, i: nat)
    requires i < n <= |ips|
    ensures LiftsBadly(a, ips[..n], i) <==> LiftsBadly(a, ips, i)
  {
    assert ips[..n][..i] == ips[..i];
  }

  // ---------------------------------------------------------------- one entry

  /** A new proxy is available, maps nothing and turns nobody away. */
  lemma NewIsOpen(port: int, prefixerType: string, key: uint32)
    requires NewProxy(port, prefixerType).Some?
    ensures var p := NewProxy(port, prefixerType).value;
            && p.port == port && p.available && p.paths == map[] && p.mapping == map[] && p.balancerType == map[]
            && p.staticMapping == map[] && p.acl.record == {} && !Forbidden(p.acl.stored, key)
  {
    ForbiddenWithin(map[], key);
    hide Forbidden, Within;
  }

  /** State 1 starts a proxy and state 2 stops it; with any other state it is gone, and with it all it held. */
  lemma StatesDo(code: Code, ctx: Context, port: int, state: int)
    requires port in ctx
    ensures Apply(code, ctx, EditProxy(port, ChangeState(state)))
         == if state == 1 then Some(ctx[port := ctx[port].(available := true)])
            else if state == 2 then Some(ctx[port := ctx[port].(available := false)])
            else Some(ctx - {port})
  {
  }

  /** What makes an entry panic on a proxy. */
  ghost predicate Spoils(code: Code, p: Proxy, edit: Edit) {
    match edit
    case AddPrefix(k, algo, _, _) => k !in p.paths && algo !in {ROUND_ROBIN, CONSISTENCE_HASH}
    case RemovePrefix(_) => false
    case AddHost(k, _) => k !in p.paths
    case RemoveHost(k, host) => k !in p.mapping || RunsOut(code.hash, p.mapping[k], host)
    case AddBlackList(ips) => exists ip :: ip in ips && ParseNet(ip).AddressPanic?
    case RemoveBlackList(ips) => exists i: nat :: i < |ips| && LiftsBadly(p.acl, ips, i)
    case ChangeStatic(_) => false
    case ChangeLb(k, lb) => k !in p.paths || lb !in {ROUND_ROBIN, CONSISTENCE_HASH}
    case ChangeState(_) => false
  }

  lemma PrefixSpoils(code: Code, p: Proxy, k: string, algo: string, hosts: seq<string>, isStatic: bool)
    requires Coherent(p)
    ensures WithPrefix(code, p, k, algo, hosts, isStatic).None?
       <==> Spoils(code, p, Edit.AddPrefix(k, algo, hosts, isStatic))
  {
    BuiltMode(code.hash, algo, hosts);
    hide BuildBalancer, Balancer.Hosts, Balancer.Mode, Balancer.Ordered, Balancer.Rebuilds, IndexCovers;
  }

  lemma RemovalSpoils(code: Code, p: Proxy, k: string, host: string)
    requires Coherent(p)
    ensures WithoutHost(code, p, k, host).None? <==> Spoils(code, p, Edit.RemoveHost(k, host))
  {
    if k in p.mapping {
      RemoveRunsOut(code.hash, p.mapping[k], host);
    }
    hide RunsOut, Balancer.Remove, Balancer.Hosts, Balancer.Mode, Balancer.Ordered, IndexCovers;
  }

  lemma BansSpoil(code: Code, p: Proxy, ips: seq<string>)
    ensures Listed(p.acl, ips, true).None? <==> Spoils(code, p, Edit.AddBlackList(ips))
    ensures Listed(p.acl, ips, false).None? <==> Spoils(code, p, Edit.RemoveBlackList(ips))
  {
    BanningPanics(p.acl, ips);
    LiftingPanics(p.acl, ips);
    hide Listed, LiftsBadly, ParseNet;
    assert forall ip :: AddResult(ip).Crashed? <==> ParseNet(ip).AddressPanic?;
  }

  lemma EditSpoils(code: Code, p: Proxy, edit: Edit)
    requires Coherent(p)
    ensures Edited(code, p, edit).None? <==> Spoils(code, p, edit)
  {
    match edit {
      case AddPrefix(k, algo, hosts, isStatic) => PrefixSpoils(code, p, k, algo, hosts, isStatic);
      case RemoveHost(k, host) => RemovalSpoils(code, p, k, host);
      case AddBlackList(ips) => BansSpoil(code, p, ips);
      case RemoveBlackList(ips) => BansSpoil(code, p, ips);
      case ChangeLb(k, lb) => ChangeLbKeepsHosts(code, p, k, lb);
      case _ =>
    }
    hide WithPrefix, WithoutHost, WithBalancerType, Listed, LiftsBadly, RunsOut, IndexCovers, Balancer.Hosts,
         Balancer.Mode, Balancer.Add, Balancer.Ordered, ModeChanged, ParseNet;
  }

  /** Exactly which entries panic, on every replica and at every replay. */
  lemma EntryPanics(code: Code, ctx: Context, e: Entry)
    requires CoherentContext(ctx)
    ensures Apply(code, ctx, e).None?
       <==> match e
            case Ignored => false
            case AddProxy(_, prefixerType) => prefixerType != HASH_PREFIXER
            case RemoveProxy(port) => port !in ctx
            case EditProxy(port, edit) => port !in ctx || Spoils(code, ctx[port], edit)
  {
    if e.EditProxy? && e.port in ctx {
      EditSpoils(code, ctx[e.port], e.edit);
      hide Edited;
      assert Closes(e.edit) ==> !Spoils(code, ctx[e.port], e.edit);
      hide Spoils;
    }
  }

  // ---------------------------------------------------------------- whole logs

  /** Some entry of the log `does`, and none after it `undoes`. */
  ghost predicate Since(log: seq<Entry>, does: Entry -> bool, undoes: Entry -> bool) {
    exists i :: 0 <= i < |log| && does(log[i]) && forall j :: i < j < |log| ==> !undoes(log[j])
  }

  lemma SinceLast(log: seq<Entry>, e: Entry, does: Entry -> bool, undoes: Entry -> bool)
    ensures Since(log + [e], does, undoes) <==> does(e) || (Since(log, does, undoes) && !undoes(e))
  {
    var all := log + [e];
    assert forall j :: 0 <= j < |log| ==> all[j] == log[j];
    if does(e) {
      assert does(all[|log|]);
    }
    if Since(log, does, undoes) && !undoes(e) {
      var i :| 0 <= i < |log| && does(log[i]) && forall j :: i < j < |log| ==> !undoes(log[j]);
      assert does(all[i]);
    }
    if Since(all, does, undoes) && !does(e) {
      var i :| 0 <= i < |all| && does(all[i]) && forall j :: i < j < |all| ==> !undoes(all[j]);
      assert does(log[i]);
      assert !undoes(all[|log|]);
      assert forall j :: i < j < |log| ==> !undoes(all[j]);
    }
  }

  /** What an entry makes of a fact about the context: it holds if the entry does it, or if it held and still does. */
  ghost predicate Turns(code: Code, ctx: Context, e: Entry, fact: Context -> bool, does: Entry -> bool,
                        undoes: Entry -> bool)
  {
    Apply(code, ctx, e).Some? ==> (fact(Apply(code, ctx, e).value) <==> does(e) || (fact(ctx) && !undoes(e)))
  }

  /** Such a fact follows the log: after any replay it holds exactly if something did it and nothing has undone it. */
  lemma {:induction false} FollowsLog(code: Code, log: seq<Entry>, fact: Context -> bool, does: Entry -> bool,
                                      undoes: Entry -> bool)
    requires !fact(map[]) && forall ctx, e :: CoherentContext(ctx) ==> Turns(code, ctx, e, fact, does, undoes)
    requires Replay(code, map[], log).Some?
    ensures fact(Replay(code, map[], log).value) <==> Since(log, does, undoes)
  {
    hide CoherentContext;
    if log == [] {
      assert Replay(code, map[], log) == Some(map[]);
    } else {
      var init, e := log[..|log| - 1], log[|log| - 1];
      assert log == init + [e];
      ReplayEnds(code, init, e);
      FollowsLog(code, init, fact, does, undoes);
      NothingIsCoherent();
      ReplayKeepsCoherent(code, map[], init);
      var mid := Replay(code, map[], init).value;
      SinceLast(init, e, does, undoes);
      hide Since, Apply, Replay;
      assert CoherentContext(mid);
      assert Turns(code, mid, e, fact, does, undoes);
    }
  }

  lemma ReplayEnds(code: Code, init: seq<Entry>, e: Entry)
    ensures Replay(code, map[], init + [e])
         == match Replay(code, map[], init) case None => None case Some(mid) => Apply(code, mid, e)
  {
    ReplaySplits(code, map[], init, [e]);
    if Replay(code, map[], init).Some? {
      var mid := Replay(code, map[], init).value;
      hide Apply;
      assert [e][1..] == [];
      assert Apply(code, mid, e).Some? ==> Replay(code, Apply(code, mid, e).value, []) == Apply(code, mid, e);
    }
  }

  lemma NothingIsCoherent()
    ensures CoherentContext(map[])
  {
  }

  /** An entry that can make a proxy, unless there is one. */
  predicate Opens(e: Entry, port: int) { e.AddProxy? && e.port == port }

  /** An entry after which the proxy is gone. */
  predicate Ends(e: Entry, port: int) {
    || (e.RemoveProxy? && e.port == port)
    || (e.EditProxy? && e.port == port && e.edit.ChangeState? && e.edit.state != 1 && e.edit.state != 2)
  }

  predicate Stops(e: Entry, port: int) { e == EditProxy(port, ChangeState(2)) }

  predicate Starts(e: Entry, port: int) { e == EditProxy(port, ChangeState(1)) }

  predicate Bans(e: Entry, port: int, p: Prefix) {
    e.EditProxy? && e.port == port && e.edit.AddBlackList? && p in Denoted(e.edit.ips)
  }

  predicate Lifts(e: Entry, port: int, p: Prefix) {
    e.EditProxy? && e.port == port && e.edit.RemoveBlackList? && p in Denoted(e.edit.ips)
  }

  predicate Maps(e: Entry, port: int, k: string) {
    e.EditProxy? && e.port == port && e.edit.AddPrefix? && e.edit.prefix == k
  }

  predicate Unmaps(e: Entry, port: int, k: string) { e == EditProxy(port, Edit.RemovePrefix(k)) }

  lemma EditStarts(code: Code, p: Proxy, edit: Edit)
    requires Coherent(p) && Edited(code, p, edit).Some?
    ensures Edited(code, p, edit).value.available <==> if edit.ChangeState? then edit.state == 1 else p.available
  {
    EditIsLocal(code, p, edit);
    hide Edited, Coherent, SameElsewhere, IsStatic, Balancer.Hosts, Balancer.Mode;
  }

  lemma EditBans(code: Code, p: Proxy, edit: Edit)
    requires Coherent(p) && Edited(code, p, edit).Some?
    ensures Edited(code, p, edit).value.acl.stored.Keys
         == match edit
            case AddBlackList(ips) => p.acl.stored.Keys + Denoted(ips)
            case RemoveBlackList(ips) => p.acl.stored.Keys - Denoted(ips)
            case _ => p.acl.stored.Keys
  {
    match edit {
      case AddBlackList(ips) =>
        BanningBans(p.acl, ips);
        hide Listed, Denoted;
      case RemoveBlackList(ips) =>
        LiftingLifts(p.acl, ips);
        hide Listed, Denoted;
      case _ =>
        EditIsLocal(code, p, edit);
        hide Edited, Coherent, SameElsewhere, IsStatic, Balancer.Hosts, Balancer.Mode;
    }
  }

  lemma EditMaps(code: Code, p: Proxy, edit: Edit)
    requires Coherent(p) && Edited(code, p, edit).Some?
    ensures Edited(code, p, edit).value.paths.Keys
         == match edit
            case AddPrefix(k, _, _, _) => p.paths.Keys + {k}
            case RemovePrefix(k) => p.paths.Keys - {k}
            case _ => p.paths.Keys
  {
    EditIsLocal(code, p, edit);
    EditKeepsCoherent(code, p, edit);
    EditSpoils(code, p, edit);
    var q := Edited(code, p, edit).value;
    assert p.paths.Keys == p.mapping.Keys && q.paths.Keys == q.mapping.Keys;
    hide Edited, Coherent, IsStatic, Balancer.Hosts, Balancer.Mode, LiftsBadly, RunsOut, ParseNet;
  }

  /** What an entry makes of what is at a port. */
  lemma AtPort(code: Code, ctx: Context, e: Entry, port: int)
    requires CoherentContext(ctx) && Apply(code, ctx, e).Some?
    ensures var next := Apply(code, ctx, e).value;
            && (port in next <==> Opens(e, port) || (port in ctx && !Ends(e, port)))
            && (port in next && port !in ctx ==>
                  && Opens(e, port) && next[port].available && next[port].acl.stored == map[]
                  && next[port].paths == map[])
            && (port in next && port in ctx ==>
                  if e.EditProxy? && e.port == port then Edited(code, ctx[port], e.edit) == Some(next[port])
                  else next[port] == ctx[port])
            && (e.EditProxy? && e.port == port ==> port in ctx)
  {
    hide Coherent, Edited;
  }

  /** A proxy is there exactly if it was made and nothing has ended it since. */
  lemma ProxyFollowsLog(code: Code, log: seq<Entry>, port: int)
    requires Replay(code, map[], log).Some?
    ensures port in Replay(code, map[], log).value <==> Since(log, e => Opens(e, port), e => Ends(e, port))
  {
    var fact: Context -> bool, does, undoes := ctx => port in ctx, e => Opens(e, port), e => Ends(e, port);
    hide Replay, Since;
    forall ctx, e | CoherentContext(ctx)
      ensures Turns(code, ctx, e, fact, does, undoes)
    {
      if Apply(code, ctx, e).Some? {
        AtPort(code, ctx, e, port);
        hide Apply, Ends, Opens;
      }
    }
    FollowsLog(code, log, fact, does, undoes);
  }

  predicate Stopped(ctx: Context, port: int) { port in ctx && !ctx[port].available }

  lemma StopTurns(code: Code, ctx: Context, e: Entry, port: int)
    requires CoherentContext(ctx) && Apply(code, ctx, e).Some?
    ensures Stopped(Apply(code, ctx, e).value, port)
       <==> Stops(e, port) || (Stopped(ctx, port) && !(Starts(e, port) || Ends(e, port)))
  {
    AtPort(code, ctx, e, port);
    if port in ctx && port in Apply(code, ctx, e).value && e.EditProxy? && e.port == port {
      EditStarts(code, ctx[port], e.edit);
    }
    hide Apply, Edited, CoherentContext;
  }

  /** A proxy is stopped exactly if it was stopped and has been neither started nor ended since. */
  lemma StopFollowsLog(code: Code, log: seq<Entry>, port: int)
    requires Replay(code, map[], log).Some?
    ensures Stopped(Replay(code, map[], log).value, port)
       <==> Since(log, e => Stops(e, port), e => Starts(e, port) || Ends(e, port))
  {
    var fact: Context -> bool, does := ctx => Stopped(ctx, port), e => Stops(e, port);
    var undoes := e => Starts(e, port) || Ends(e, port);
    hide Replay, Since, Stopped;
    forall ctx, e | CoherentContext(ctx)
      ensures Turns(code, ctx, e, fact, does, undoes)
    {
      if Apply(code, ctx, e).Some? {
        StopTurns(code, ctx, e, port);
        hide Apply;
      }
    }
    assert !Stopped(map[], port) by { NothingIsThere(port, Top, ""); }
    FollowsLog(code, log, fact, does, undoes);
  }

  predicate StoresBan(ctx: Context, port: int, p: Prefix) { port in ctx && p in ctx[port].acl.stored }

  lemma BanTurns(code: Code, ctx: Context, e: Entry, port: int, p: Prefix)
    requires CoherentContext(ctx) && Apply(code, ctx, e).Some?
    ensures StoresBan(Apply(code, ctx, e).value, port, p)
       <==> Bans(e, port, p) || (StoresBan(ctx, port, p) && !(Lifts(e, port, p) || Ends(e, port)))
  {
    AtPort(code, ctx, e, port);
    hide Denoted;
    if port in ctx && port in Apply(code, ctx, e).value && e.EditProxy? && e.port == port {
      EditBans(code, ctx[port], e.edit);
    }
    hide Apply, Edited, CoherentContext;
  }

  /** A network is banned at a port exactly if it was banned and neither lifted nor lost with its proxy since. */
  lemma BanFollowsLog(code: Code, log: seq<Entry>, port: int, p: Prefix)
    requires Replay(code, map[], log).Some?
    ensures StoresBan(Replay(code, map[], log).value, port, p)
       <==> Since(log, e => Bans(e, port, p), e => Lifts(e, port, p) || Ends(e, port))
  {
    var fact: Context -> bool, does := ctx => StoresBan(ctx, port, p), e => Bans(e, port, p);
    var undoes := e => Lifts(e, port, p) || Ends(e, port);
    hide Replay, Since, StoresBan;
    forall ctx, e | CoherentContext(ctx)
      ensures Turns(code, ctx, e, fact, does, undoes)
    {
      if Apply(code, ctx, e).Some? {
        BanTurns(code, ctx, e, port, p);
        hide Apply;
      }
    }
    assert !StoresBan(map[], port, p) by { NothingIsThere(port, p, ""); }
    FollowsLog(code, log, fact, does, undoes);
  }

  lemma PathTurns(code: Code, ctx: Context, e: Entry, port: int, k: string)
    requires CoherentContext(ctx) && Apply(code, ctx, e).Some?
    ensures HasPrefix(Apply(code, ctx, e).value, port, k)
       <==> Maps(e, port, k) || (HasPrefix(ctx, port, k) && !(Unmaps(e, port, k) || Ends(e, port)))
  {
    AtPort(code, ctx, e, port);
    if port in ctx && port in Apply(code, ctx, e).value && e.EditProxy? && e.port == port {
      EditMaps(code, ctx[port], e.edit);
    }
    hide Apply, Edited, CoherentContext;
  }

  /** A prefix has paths at a port exactly if it was added and neither removed nor lost with its proxy since. */
  lemma PrefixFollowsLog(code: Code, log: seq<Entry>, port: int, k: string)
    requires Replay(code, map[], log).Some?
    ensures HasPrefix(Replay(code, map[], log).value, port, k)
       <==> Since(log, e => Maps(e, port, k), e => Unmaps(e, port, k) || Ends(e, port))
  {
    var fact: Context -> bool, does := ctx => HasPrefix(ctx, port, k), e => Maps(e, port, k);
    var undoes := e => Unmaps(e, port, k) || Ends(e, port);
    hide Replay, Since, HasPrefix;
    forall ctx, e | CoherentContext(ctx)
      ensures Turns(code, ctx, e, fact, does, undoes)
    {
      if Apply(code, ctx, e).Some? {
        PathTurns(code, ctx, e, port, k);
        hide Apply;
      }
    }
    assert !HasPrefix(map[], port, k) by { NothingIsThere(port, Top, k); }
    FollowsLog(code, log, fact, does, undoes);
  }

  lemma NothingIsThere(port: int, p: Prefix, k: string)
    ensures !Stopped(map[], port) && !StoresBan(map[], port, p) && !HasPrefix(map[], port, k)
  {
  }
}
