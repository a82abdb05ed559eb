/**
 * The guards in front of the replicated state (vermouth/vermouth_state_manager.go) and the register/cancel calls of
 * the RPC server on top of them (vermouth/rpc_server.go). A guard reads the state, refuses, or submits one log entry;
 * in standalone mode the same change is made directly.
 */
module Lifecycle {
  import opened Text
  import opened ConsistentHash
  import AclSpec
  import opened AclIndex
  import opened Balancer
  import opened Gateway
  import RingList
  import opened RoundRobin
  import Sorting

  datatype Reply = Success | Refused | Panicked

  datatype Outcome = Outcome(reply: Reply, ctx: Context)

  function Submit(code: Code, ctx: Context, e: Entry): Outcome {
    match Apply(code, ctx, e)
    case None => Outcome(Panicked, ctx)
    case Some(next) => Outcome(Success, next)
  }

  /** GetHosts on the proxy of a port; no hosts where there is no such prefix. */
  function HostsAt(ctx: Context, port: int, prefix: string): seq<string> {
    if port in ctx && prefix in ctx[port].paths then ctx[port].paths[prefix] else []
  }

  // ---------------------------------------------------------------- the guards

  function AddHttpProxy(code: Code, ctx: Context, port: int, prefixerType: string): Outcome {
    if port in ctx then Outcome(Refused, ctx) else Submit(code, ctx, AddProxy(port, prefixerType))
  }

  function AddHttpProxyPrefix(code: Code, ctx: Context, port: int, prefix: string, algo: string, hosts: seq<string>,
                              isStatic: bool): Outcome
  {
    if port !in ctx || prefix in ctx[port].paths then Outcome(Refused, ctx)
    else Submit(code, ctx, EditProxy(port, Edit.AddPrefix(prefix, algo, hosts, isStatic)))
  }

  function RemoveHttpProxyPrefix(code: Code, ctx: Context, port: int, prefix: string): Outcome {
    if port !in ctx || prefix !in ctx[port].paths then Outcome(Refused, ctx)
    else Submit(code, ctx, EditProxy(port, Edit.RemovePrefix(prefix)))
  }

  function AddHttpProxyHost(code: Code, ctx: Context, port: int, prefix: string, host: string): Outcome {
    if port !in ctx || host in HostsAt(ctx, port, prefix) then Outcome(Refused, ctx)
    else Submit(code, ctx, EditProxy(port, Edit.AddHost(prefix, host)))
  }

  /** The committed guard refuses the hosts that are there; `righted`, it refuses those that are not. */
  function RemoveHttpProxyHost(code: Code, righted: bool, ctx: Context, port: int, prefix: string,
                               host: string): Outcome
  {
    if port !in ctx || (host in HostsAt(ctx, port, prefix)) != righted then Outcome(Refused, ctx)
    else Submit(code, ctx, EditProxy(port, Edit.RemoveHost(prefix, host)))
  }

  function ChangeBalancer(code: Code, ctx: Context, port: int, prefix: string, lb: string): Outcome {
    if port !in ctx || prefix !in ctx[port].mapping then Outcome(Refused, ctx)
    else if ctx[port].mapping[prefix].Mode() == lb then Outcome(Success, ctx)
    else Submit(code, ctx, EditProxy(port, Edit.ChangeLb(prefix, lb)))
  }

  /** In standalone mode a missing proxy is refused; in cluster mode the entry is appended unseen. */
  function ChangeBans(code: Code, cluster: bool, ctx: Context, port: int, ips: seq<string>, ban: bool): Outcome {
    if !cluster && port !in ctx then Outcome(Refused, ctx)
    else Submit(code, ctx, EditProxy(port, if ban then Edit.AddBlackList(ips) else Edit.RemoveBlackList(ips)))
  }

  function FlipStatic(code: Code, ctx: Context, port: int, prefix: string): Outcome {
    if port !in ctx then Outcome(Refused, ctx) else Submit(code, ctx, EditProxy(port, Edit.ChangeStatic(prefix)))
  }

  function ChangeAvailable(code: Code, ctx: Context, port: int, state: int): Outcome {
    if port !in ctx then Outcome(Refused, ctx) else Submit(code, ctx, EditProxy(port, Edit.ChangeState(state)))
  }

  lemma ModeRequestsPanic(code: Code, ctx: Context, port: int, prefix: string, lb: string)
    requires CoherentContext(ctx)
    ensures ChangeBalancer(code, ctx, port, prefix, lb).reply.Panicked?
       <==> port in ctx && prefix in ctx[port].paths && lb !in {ROUND_ROBIN, CONSISTENCE_HASH}
  {
    hide Balancer.Add, Balancer.Ordered, IndexCovers, Balancer.Rebuilds;
    if port in ctx {
      assert Coherent(ctx[port]);
      ChangeLbKeepsHosts(code, ctx[port], prefix, lb);
    }
    hide Edited, ModeChanged;
  }

  lemma NewPrefixPanics(code: Code, ctx: Context, port: int, prefix: string, algo: string, hosts: seq<string>,
                        isStatic: bool)
    requires CoherentContext(ctx)
    ensures AddHttpProxyPrefix(code, ctx, port, prefix, algo, hosts, isStatic).reply.Panicked?
       <==> port in ctx && prefix !in ctx[port].paths && algo !in {ROUND_ROBIN, CONSISTENCE_HASH}
  {
    BuiltMode(code.hash, algo, hosts);
    hide BuildBalancer, Balancer.Hosts, Balancer.Mode, Balancer.Ordered, Balancer.Rebuilds, IndexCovers;
    if port in ctx {
      assert Coherent(ctx[port]);
    }
  }

  lemma NewHostPanics(code: Code, ctx: Context, port: int, prefix: string, host: string)
    requires CoherentContext(ctx)
    ensures AddHttpProxyHost(code, ctx, port, prefix, host).reply.Panicked?
       <==> port in ctx && prefix !in ctx[port].paths
  {
    hide IndexCovers, Balancer.Add, Balancer.Ordered, Balancer.Hosts, Balancer.Mode;
    if port in ctx {
      assert Coherent(ctx[port]);
    }
  }

  /** Which requests get past their guards and then panic: those for proxies, prefixes, hosts and modes. */
  lemma GuardsAdmitPanics(code: Code, ctx: Context, port: int, prefix: string, algo: string, hosts: seq<string>,
                          isStatic: bool, host: string)
    requires CoherentContext(ctx)
    ensures AddHttpProxyPrefix(code, ctx, port, prefix, algo, hosts, isStatic).reply.Panicked?
       <==> port in ctx && prefix !in ctx[port].paths && algo !in {ROUND_ROBIN, CONSISTENCE_HASH}
    ensures AddHttpProxyHost(code, ctx, port, prefix, host).reply.Panicked?
       <==> port in ctx && prefix !in ctx[port].paths
    ensures ChangeBalancer(code, ctx, port, prefix, algo).reply.Panicked?
       <==> port in ctx && prefix in ctx[port].paths && algo !in {ROUND_ROBIN, CONSISTENCE_HASH}
    ensures !RemoveHttpProxyPrefix(code, ctx, port, prefix).reply.Panicked?
    ensures !FlipStatic(code, ctx, port, prefix).reply.Panicked?
  {
    NewPrefixPanics(code, ctx, port, prefix, algo, hosts, isStatic);
    NewHostPanics(code, ctx, port, prefix, host);
    ModeRequestsPanic(code, ctx, port, prefix, algo);
    hide AddHttpProxyPrefix, AddHttpProxyHost, ChangeBalancer, CoherentContext;
  }

  /** The same for the requests that need no prefix. */
  lemma ProxyRequestsPanic(code: Code, ctx: Context, port: int, prefixerType: string, state: int)
    ensures AddHttpProxy(code, ctx, port, prefixerType).reply.Panicked?
       <==> port !in ctx && prefixerType != HASH_PREFIXER
    ensures !ChangeAvailable(code, ctx, port, state).reply.Panicked?
  {
  }

  /** The ring at a prefix, if there is one, has not enough keys for the points of a host. */
  ghost predicate RunsOut(hash: Hash, b: Balancer, host: string) {
    b.Hashed? && !RingList.Enough(Points(hash, host), b.ring.keys)
  }

  lemma RemoveRunsOut(hash: Hash, b: Balancer, host: string)
    requires b.Ordered()
    ensures b.Remove(hash, host).None? <==> RunsOut(hash, b, host)
  {
    hide RingList.Enough, Points, RemovePoints;
    if b.Hashed? {
      RingList.RemoveRunsOut(b.ring, Points(hash, host));
    }
  }

  /**
   * Removals that panic. The committed guard lets exactly the unlisted hosts pass: such a request panics when the
   * prefix is not mapped, or when above some bound the host has more points than the ring has keys. The righted guard
   * leaves only that for listed hosts.
   */
  lemma RemovalsPanic(code: Code, ctx: Context, port: int, prefix: string, host: string)
    requires CoherentContext(ctx)
    ensures RemoveHttpProxyHost(code, false, ctx, port, prefix, host).reply.Panicked?
       <==> && port in ctx && host !in HostsAt(ctx, port, prefix)
            && (prefix !in ctx[port].mapping || RunsOut(code.hash, ctx[port].mapping[prefix], host))
    ensures port in ctx ==> (prefix in ctx[port].mapping <==> prefix in ctx[port].paths)
    ensures RemoveHttpProxyHost(code, true, ctx, port, prefix, host).reply.Panicked?
       <==> host in HostsAt(ctx, port, prefix) && RunsOut(code.hash, ctx[port].mapping[prefix], host)
  {
    if port in ctx {
      assert Coherent(ctx[port]);
      if prefix in ctx[port].mapping {
        RemoveRunsOut(code.hash, ctx[port].mapping[prefix], host);
      }
    }
    hide IndexCovers, Balancer.Remove, RunsOut, Balancer.Ordered;
  }

  /** An instance: any removal from a consistent-hash prefix without hosts that gets past the guard. */
  lemma EmptyRingPanics(code: Code, ctx: Context, port: int, prefix: string, host: string)
    requires CoherentContext(ctx) && port in ctx && prefix in ctx[port].mapping
    requires ctx[port].mapping[prefix] == Hashed(EMPTY_RING, [])
    ensures RemoveHttpProxyHost(code, false, ctx, port, prefix, host).reply.Panicked?
  {
    assert Coherent(ctx[port]);
    hide CoherentContext, Coherent, RingList.Enough;
    RingList.EmptyRunsOut(code.hash, host);
    RemovalsPanic(code, ctx, port, prefix, host);
    assert HostsAt(ctx, port, prefix) == [] by {
      assert ctx[port].mapping[prefix].Hosts() == [];
    }
  }

  /** The loop over banned texts gets to text `i` and panics there. */
  predicate PanicsAt(a: AclSpec.Acl, ips: seq<string>, ban: bool, i: nat) {
    && i < |ips| && Listed(a, ips[..i], ban).Some?
    && StepCrashes(Listed(a, ips[..i], ban).value, OpOn(ips[i], ban))
  }

  lemma PanicsAtFront(a: AclSpec.Acl, ips: seq<string>, n: nat, ban: bool, i: nat)
    requires i < n <= |ips|
    ensures PanicsAt(a, ips[..n], ban, i) <==> PanicsAt(a, ips, ban, i)
  {
    assert ips[..n][..i] == ips[..i];
  }

  /** The loop over banned texts panics exactly when some text's own step does. */
  lemma {:induction false} ListingPanics(a: AclSpec.Acl, ips: seq<string>, ban: bool)
    ensures Listed(a, ips, ban).None? <==> exists i: nat :: PanicsAt(a, ips, ban, i)
  {
    if ips != [] {
      var n: nat := |ips| - 1;
      ListingPanics(a, ips[..n], ban);
      assert Listed(a, ips, ban).None? <==> Listed(a, ips[..n], ban).None? || PanicsAt(a, ips, ban, n);
      hide Listed, StepCrashes, Step;
      forall i: nat | i < n
        ensures PanicsAt(a, ips[..n], ban, i) <==> PanicsAt(a, ips, ban, i)
      {
        PanicsAtFront(a, ips, n, ban, i);
      }
      hide PanicsAt;
      if Listed(a, ips[..n], ban).None? {
        var i: nat :| PanicsAt(a, ips[..n], ban, i);
        PanicIsInside(a, ips[..n], ban, i);
        assert PanicsAt(a, ips, ban, i);
      } else if i: nat :| PanicsAt(a, ips, ban, i) {
        PanicIsInside(a, ips, ban, i);
        assert i == n;
      }
    }
  }

  lemma PanicIsInside(a: AclSpec.Acl, ips: seq<string>, ban: bool, i: nat)
    requires PanicsAt(a, ips, ban, i)
    ensures i < |ips|
  {
  }

  /** Additions panic exactly for a text whose address reads past its fourth number, whatever the list. */
  lemma {:induction false} BanningPanics(a: AclSpec.Acl, ips: seq<string>)
    ensures Listed(a, ips, true).None? <==> exists ip :: ip in ips && AclSpec.AddResult(ip).Crashed?
  {
    hide AclSpec.AddResult, Step;
    if ips != [] {
      var init, last := ips[..|ips| - 1], ips[|ips| - 1];
      assert ips == init + [last];
      BanningPanics(a, init);
    }
  }

  /** Ban list requests: in cluster mode a missing proxy is no refusal but a panic. */
  lemma BanRequestsPanic(code: Code, cluster: bool, ctx: Context, port: int, ips: seq<string>, ban: bool)
    ensures ChangeBans(code, cluster, ctx, port, ips, ban).reply.Panicked?
       <==> if port in ctx then Listed(ctx[port].acl, ips, ban).None? else cluster
  {
    hide Listed;
  }

  /**
   * The righted removal succeeds exactly for a listed host for whose points the ring has keys enough, and takes its
   * first entry off the list; the committed one refuses exactly the listed hosts, so no list ever gets shorter.
   */
  lemma RemovalGuard(code: Code, ctx: Context, port: int, prefix: string, host: string)
    requires CoherentContext(ctx)
    ensures var o := RemoveHttpProxyHost(code, true, ctx, port, prefix, host);
            && (o.reply.Success?
                <==> host in HostsAt(ctx, port, prefix) && !RunsOut(code.hash, ctx[port].mapping[prefix], host))
            && (o.reply.Success? ==>
                  && var left := ctx[port].mapping[prefix].Remove(code.hash, host);
                  && left.Some? && o.ctx == ctx[port := PutBalancer(ctx[port], prefix, left.value)]
                  && HostsAt(o.ctx, port, prefix) == RemoveFirst(HostsAt(ctx, port, prefix), host))
    ensures var o := RemoveHttpProxyHost(code, false, ctx, port, prefix, host);
            && (o.reply.Refused? <==> port !in ctx || host in HostsAt(ctx, port, prefix))
            && (o.reply.Refused? ==> o.ctx == ctx)
            && forall i, k :: HostsAt(o.ctx, i, k) == HostsAt(ctx, i, k)
  {
    hide IndexCovers, ConsistentHash.RemoveHost, RunsOut, Balancer.Ordered;
    if port in ctx && prefix in ctx[port].paths {
      assert Coherent(ctx[port]);
      RemoveRunsOut(code.hash, ctx[port].mapping[prefix], host);
    }
  }

  // ---------------------------------------------------------------- the RPC calls

  datatype Call =
    | Register(port: int, prefix: string, mode: string, host: string, isStatic: bool)
    | Cancel(port: int, prefix: string, host: string)

  /** The context in which a registration finds its proxy: a missing one is created first. */
  function Opened(code: Code, ctx: Context, port: int): (o: Outcome)
    ensures o.reply.Success? && port in o.ctx
  {
    if port in ctx then Outcome(Success, ctx) else AddHttpProxy(code, ctx, port, HASH_PREFIXER)
  }

  /** RegisterToProxy: the host starts a new prefix or joins an existing one; joining asks no guard. */
  function Registered(code: Code, ctx: Context, port: int, prefix: string, mode: string, host: string,
                      isStatic: bool): Outcome
  {
    var o := Opened(code, ctx, port);
    if prefix !in o.ctx[port].paths
    then Submit(code, o.ctx, EditProxy(port, Edit.AddPrefix(prefix, mode, [host], isStatic)))
    else Submit(code, o.ctx, EditProxy(port, Edit.AddHost(prefix, host)))
  }

  /** Cancel: the last host takes the prefix along. */
  function Cancelled(code: Code, righted: bool, ctx: Context, port: int, prefix: string, host: string): Outcome {
    var o := RemoveHttpProxyHost(code, righted, ctx, port, prefix, host);
    if o.reply.Success? && HostsAt(o.ctx, port, prefix) == []
    then RemoveHttpProxyPrefix(code, o.ctx, port, prefix)
    else o
  }

  function Served(code: Code, righted: bool, ctx: Context, c: Call): Outcome {
    match c
    case Register(port, prefix, mode, host, isStatic) => Registered(code, ctx, port, prefix, mode, host, isStatic)
    case Cancel(port, prefix, host) => Cancelled(code, righted, ctx, port, prefix, host)
  }

  predicate HasPrefix(ctx: Context, port: int, prefix: string) { port in ctx && prefix in ctx[port].paths }

  predicate OnRing(ctx: Context, port: int, prefix: string) {
    port in ctx && prefix in ctx[port].mapping && ctx[port].mapping[prefix].Hashed?
  }

  /** Nothing but the prefix `prefix` of `port` has changed, as far as prefixes and hosts go. */
  ghost predicate ElsewhereSame(ctx: Context, next: Context, port: int, prefix: string) {
    forall i, k :: i != port || k != prefix ==>
      && (HasPrefix(next, i, k) <==> HasPrefix(ctx, i, k)) && HostsAt(next, i, k) == HostsAt(ctx, i, k)
      && (OnRing(next, i, k) <==> OnRing(ctx, i, k))
  }

  lemma OpenedIs(code: Code, ctx: Context, port: int)
    requires CoherentContext(ctx)
    ensures var o := Opened(code, ctx, port);
            && CoherentContext(o.ctx) && o.ctx.Keys == ctx.Keys + {port}
            && forall i, k ::
                 && (HasPrefix(o.ctx, i, k) <==> HasPrefix(ctx, i, k)) && HostsAt(o.ctx, i, k) == HostsAt(ctx, i, k)
                 && (OnRing(o.ctx, i, k) <==> OnRing(ctx, i, k))
  {
    if port !in ctx {
      ApplyKeepsCoherent(code, ctx, AddProxy(port, HASH_PREFIXER));
    }
    hide Coherent;
  }

  lemma PutElsewhere(ctx: Context, port: int, prefix: string, p: Proxy)
    requires port in ctx && forall k :: k != prefix ==>
               && (k in p.paths <==> k in ctx[port].paths) && (k in p.paths ==> p.paths[k] == ctx[port].paths[k])
               && (k in p.mapping <==> k in ctx[port].mapping)
               && (k in p.mapping ==> p.mapping[k] == ctx[port].mapping[k])
    ensures ElsewhereSame(ctx, ctx[port := p], port, prefix)
    ensures HostsAt(ctx[port := p], port, prefix) == if prefix in p.paths then p.paths[prefix] else []
  {
  }

  lemma JoinEffect(code: Code, ctx: Context, port: int, prefix: string, host: string)
    requires CoherentContext(ctx) && HasPrefix(ctx, port, prefix)
    ensures var o, hosts := Submit(code, ctx, EditProxy(port, Edit.AddHost(prefix, host))), HostsAt(ctx, port, prefix);
            && o.reply.Success? && CoherentContext(o.ctx)
            && HasPrefix(o.ctx, port, prefix) && ElsewhereSame(ctx, o.ctx, port, prefix)
            && HostsAt(o.ctx, port, prefix)
               == if !OnRing(ctx, port, prefix) then Added(hosts, host)
                   else if code.extendsList then hosts + [host] else hosts
  {
    assert Coherent(ctx[port]);
    hide IndexCovers, Added, ConsistentHash.AddHost, Balancer.Mode, CoherentContext, ElsewhereSame, Coherent;
    ApplyKeepsCoherent(code, ctx, EditProxy(port, Edit.AddHost(prefix, host)));
    var p, b := ctx[port], ctx[port].mapping[prefix].Add(code.hash, host, code.extendsList);
    assert Submit(code, ctx, EditProxy(port, Edit.AddHost(prefix, host))) ==
        Outcome(Success, ctx[port := PutBalancer(p, prefix, b)]);
    PutElsewhere(ctx, port, prefix, PutBalancer(p, prefix, b));
  }

  lemma NewEffect(code: Code, ctx: Context, port: int, prefix: string, mode: string, hosts: seq<string>, isStatic: bool)
    requires CoherentContext(ctx) && port in ctx && !HasPrefix(ctx, port, prefix)
    ensures var o := Submit(code, ctx, EditProxy(port, Edit.AddPrefix(prefix, mode, hosts, isStatic)));
            && (o.reply.Success? <==> mode in {ROUND_ROBIN, CONSISTENCE_HASH})
            && (o.reply.Success? ==>
                  && CoherentContext(o.ctx) && HasPrefix(o.ctx, port, prefix) && ElsewhereSame(ctx, o.ctx, port, prefix)
                  && HostsAt(o.ctx, port, prefix) == hosts && (mode == ROUND_ROBIN ==> !OnRing(o.ctx, port, prefix)))
  {
    assert Coherent(ctx[port]);
    BuiltMode(code.hash, mode, hosts);
    var edit := Edit.AddPrefix(prefix, mode, hosts, isStatic);
    if mode in {ROUND_ROBIN, CONSISTENCE_HASH} {
      var b := BuildBalancer(code.hash, mode, hosts).value;
      assert mode == ROUND_ROBIN ==> !b.Hashed?;
      hide IndexCovers, BuildBalancer, Balancer.Mode, Balancer.Hosts, Balancer.Rebuilds, CoherentContext, ElsewhereSame,
           Coherent;
      ApplyKeepsCoherent(code, ctx, EditProxy(port, edit));
      NewPrefix(code, ctx[port], prefix, mode, hosts, isStatic, b);
      hide WithPrefix;
      PutElsewhere(ctx, port, prefix, Edited(code, ctx[port], edit).value);
    }
  }

  lemma ElsewhereFrom(ctx: Context, mid: Context, next: Context, port: int, prefix: string)
    requires forall i, k ::
               && (HasPrefix(mid, i, k) <==> HasPrefix(ctx, i, k))
               && HostsAt(mid, i, k) == HostsAt(ctx, i, k)
               && (OnRing(mid, i, k) <==> OnRing(ctx, i, k))
    requires ElsewhereSame(mid, next, port, prefix)
    ensures ElsewhereSame(ctx, next, port, prefix)
  {
    hide HasPrefix, HostsAt, OnRing;
  }

  /** A registration succeeds unless it needs a new prefix in an unknown mode, and touches only its own prefix. */
  lemma RegisterEffect(code: Code, ctx: Context, port: int, prefix: string, mode: string, host: string, isStatic: bool)
    requires CoherentContext(ctx)
    ensures var o := Registered(code, ctx, port, prefix, mode, host, isStatic);
            && (o.reply.Success? <==> HasPrefix(ctx, port, prefix) || mode in {ROUND_ROBIN, CONSISTENCE_HASH})
            && (o.reply.Success? ==>
                  && CoherentContext(o.ctx) && HasPrefix(o.ctx, port, prefix) && ElsewhereSame(ctx, o.ctx, port, prefix)
                  && HostsAt(o.ctx, port, prefix)
                     == if !HasPrefix(ctx, port, prefix) then [host]
                        else if !OnRing(ctx, port, prefix) then Added(HostsAt(ctx, port, prefix), host)
                        else if code.extendsList then HostsAt(ctx, port, prefix) + [host]
                            else HostsAt(ctx, port, prefix))
  {
    OpenedIs(code, ctx, port);
    var mid := Opened(code, ctx, port).ctx;
    assert HasPrefix(mid, port, prefix) <==> prefix in mid[port].paths;
    hide HostsAt, OnRing, HasPrefix, ElsewhereSame, CoherentContext, Added, Submit, Opened;
    if prefix in mid[port].paths {
      JoinEffect(code, mid, port, prefix, host);
    } else {
      NewEffect(code, mid, port, prefix, mode, [host], isStatic);
    }
    var o := Registered(code, ctx, port, prefix, mode, host, isStatic);
    if o.reply.Success? {
      ElsewhereFrom(ctx, mid, o.ctx, port, prefix);
    }
  }

  lemma LeaveEffect(code: Code, ctx: Context, port: int, prefix: string, host: string)
    requires CoherentContext(ctx)
    ensures var o := RemoveHttpProxyHost(code, true, ctx, port, prefix, host);
            && (o.reply.Success?
                <==> host in HostsAt(ctx, port, prefix) && !RunsOut(code.hash, ctx[port].mapping[prefix], host))
            && (!o.reply.Success? ==> o.ctx == ctx)
            && (o.reply.Success? ==>
                  && CoherentContext(o.ctx) && HasPrefix(o.ctx, port, prefix) && ElsewhereSame(ctx, o.ctx, port, prefix)
                  && HostsAt(o.ctx, port, prefix) == RemoveFirst(HostsAt(ctx, port, prefix), host))
  {
    RemovalGuard(code, ctx, port, prefix, host);
    hide CoherentContext, ElsewhereSame, Coherent, Balancer.Remove, RemoveFirst, Edited, RunsOut;
    var o := RemoveHttpProxyHost(code, true, ctx, port, prefix, host);
    if o.reply.Success? {
      ApplyKeepsCoherent(code, ctx, EditProxy(port, Edit.RemoveHost(prefix, host)));
      PutElsewhere(ctx, port, prefix, o.ctx[port]);
    }
  }

  lemma DropEffect(code: Code, ctx: Context, port: int, prefix: string)
    requires CoherentContext(ctx) && HasPrefix(ctx, port, prefix)
    ensures var o := RemoveHttpProxyPrefix(code, ctx, port, prefix);
            && o == Outcome(Success, ctx[port := WithoutPrefix(ctx[port], prefix)]) && CoherentContext(o.ctx)
            && !HasPrefix(o.ctx, port, prefix) && ElsewhereSame(ctx, o.ctx, port, prefix)
            && HostsAt(o.ctx, port, prefix) == []
  {
    hide CoherentContext, ElsewhereSame, Coherent;
    ApplyKeepsCoherent(code, ctx, EditProxy(port, Edit.RemovePrefix(prefix)));
    PutElsewhere(ctx, port, prefix, WithoutPrefix(ctx[port], prefix));
  }

  lemma ElsewhereTwice(ctx: Context, mid: Context, next: Context, port: int, prefix: string)
    requires ElsewhereSame(ctx, mid, port, prefix) && ElsewhereSame(mid, next, port, prefix)
    ensures ElsewhereSame(ctx, next, port, prefix)
  {
    hide HasPrefix, HostsAt, OnRing;
  }

  /** A cancellation with the righted guard. */
  lemma CancelEffect(code: Code, ctx: Context, port: int, prefix: string, host: string)
    requires CoherentContext(ctx)
    ensures var o := Cancelled(code, true, ctx, port, prefix, host);
            && (o.reply.Success?
                <==> host in HostsAt(ctx, port, prefix) && !RunsOut(code.hash, ctx[port].mapping[prefix], host))
            && (!o.reply.Success? ==> o.ctx == ctx)
            && (o.reply.Success? ==>
                  && CoherentContext(o.ctx) && ElsewhereSame(ctx, o.ctx, port, prefix)
                  && HostsAt(o.ctx, port, prefix) == RemoveFirst(HostsAt(ctx, port, prefix), host)
                  && (HasPrefix(o.ctx, port, prefix) <==> HostsAt(o.ctx, port, prefix) != []))
  {
    LeaveEffect(code, ctx, port, prefix, host);
    var o := RemoveHttpProxyHost(code, true, ctx, port, prefix, host);
    hide CoherentContext, ElsewhereSame, HasPrefix, HostsAt, RemoveFirst, RunsOut, RemoveHttpProxyHost,
         RemoveHttpProxyPrefix;
    if o.reply.Success? && HostsAt(o.ctx, port, prefix) == [] {
      DropEffect(code, o.ctx, port, prefix);
      ElsewhereTwice(ctx, o.ctx, RemoveHttpProxyPrefix(code, o.ctx, port, prefix).ctx, port, prefix);
    }
  }

  // ---------------------------------------------------------------- the register of hosts

  type Book = set<(int, string, string)>

  /** What callers believe: who registered with success and has not cancelled with success since. */
  function Booked(book: Book, c: Call, reply: Reply): Book {
    if !reply.Success? then book
    else match c
         case Register(port, prefix, _, host, _) => book + {(port, prefix, host)}
         case Cancel(port, prefix, host) => book - {(port, prefix, host)}
  }

  /** The host lists hold the registered hosts, each once, and a prefix is there only with a host. */
  ghost predicate Agrees(ctx: Context, book: Book) {
    && (forall i, k, h :: (i, k, h) in book <==> h in HostsAt(ctx, i, k))
    && (forall i, k :: HasPrefix(ctx, i, k) ==> HostsAt(ctx, i, k) != [] && NoRepeats(HostsAt(ctx, i, k)))
  }

  /** A prefix exists exactly when it has at least one registered host. */
  lemma PrefixIffRegistered(ctx: Context, book: Book, port: int, prefix: string)
    requires Agrees(ctx, book)
    ensures HasPrefix(ctx, port, prefix) <==> exists h :: (port, prefix, h) in book
  {
    if HasPrefix(ctx, port, prefix) {
      assert HostsAt(ctx, port, prefix)[0] in HostsAt(ctx, port, prefix);
    }
  }

  /** Joining a ring keeps the books straight when the ring's list grows exactly if the host is new. */
  predicate Joins(code: Code, ctx: Context, c: Call) {
    c.Register? && OnRing(ctx, c.port, c.prefix) ==> (code.extendsList <==> c.host !in HostsAt(ctx, c.port, c.prefix))
  }

  lemma AddedOnce(hosts: seq<string>, host: string)
    requires NoRepeats(hosts)
    ensures NoRepeats(Added(hosts, host)) && forall h :: h in Added(hosts, host) <==> h in hosts || h == host
    ensures NoRepeats(hosts + [host]) <==> host !in hosts
    ensures Added(hosts, host) != []
  {
    if host in hosts {
      var i :| 0 <= i < |hosts| && hosts[i] == host;
      assert (hosts + [host])[i] == (hosts + [host])[|hosts|];
    }
  }

  /** How a change at one prefix shows in the books: `book'` differs from `book` in one host of that prefix. */
  lemma BookChanges(ctx: Context, next: Context, book: Book, book': Book, port: int, prefix: string, host: string)
    requires Agrees(ctx, book) && ElsewhereSame(ctx, next, port, prefix)
    requires forall e :: e != (port, prefix, host) ==> (e in book' <==> e in book)
    requires HasPrefix(next, port, prefix) <==> HostsAt(next, port, prefix) != []
    ensures var was, now := HostsAt(ctx, port, prefix), HostsAt(next, port, prefix);
            Agrees(next, book') <==> NoRepeats(now) && (host in now <==> (port, prefix, host) in book')
                                     && forall h :: h != host ==> (h in now <==> h in was)
  {
    hide HostsAt, HasPrefix, NoRepeats;
    var now := HostsAt(next, port, prefix);
    if Agrees(next, book') {
      assert now == [] ==> NoRepeats(now) by { NothingRepeats(); }
      forall h | h != host
        ensures h in now <==> h in HostsAt(ctx, port, prefix)
      {
        assert (port, prefix, h) in book' <==> (port, prefix, h) in book;
      }
    }
  }

  lemma NothingRepeats()
    ensures NoRepeats([])
  {
  }

  lemma RegisterKeepsBook(code: Code, righted: bool, ctx: Context, book: Book, c: Call)
    requires CoherentContext(ctx) && Agrees(ctx, book) && c.Register? && Served(code, righted, ctx, c).reply.Success?
    ensures var o := Served(code, righted, ctx, c); Agrees(o.ctx, Booked(book, c, o.reply)) <==> Joins(code, ctx, c)
  {
    var o, was := Served(code, righted, ctx, c), HostsAt(ctx, c.port, c.prefix);
    RegisterEffect(code, ctx, c.port, c.prefix, c.mode, c.host, c.isStatic);
    assert HasPrefix(ctx, c.port, c.prefix) ==> was != [] && NoRepeats(was);
    assert !HasPrefix(ctx, c.port, c.prefix) ==> was == [];
    assert OnRing(ctx, c.port, c.prefix) ==> HasPrefix(ctx, c.port, c.prefix) by {
      assert c.port in ctx ==> Coherent(ctx[c.port]);
    }
    hide Served, HostsAt, HasPrefix, OnRing, CoherentContext, ElsewhereSame, Agrees;
    if HasPrefix(ctx, c.port, c.prefix) {
      AddedOnce(was, c.host);
    }
    hide Added;
    BookChanges(ctx, o.ctx, book, Booked(book, c, o.reply), c.port, c.prefix, c.host);
  }

  lemma CancelKeepsBook(code: Code, ctx: Context, book: Book, c: Call)
    requires CoherentContext(ctx) && Agrees(ctx, book) && c.Cancel?
    ensures var o := Served(code, true, ctx, c); Agrees(o.ctx, Booked(book, c, o.reply))
  {
    var o, was := Served(code, true, ctx, c), HostsAt(ctx, c.port, c.prefix);
    CancelEffect(code, ctx, c.port, c.prefix, c.host);
    assert was != [] ==> NoRepeats(was) && HasPrefix(ctx, c.port, c.prefix);
    hide Cancelled, CoherentContext, RunsOut, HostsAt, HasPrefix, ElsewhereSame, Agrees;
    if o.reply.Success? {
      RemoveFirstMembers(was, c.host);
      hide RemoveFirst;
      BookChanges(ctx, o.ctx, book, Booked(book, c, o.reply), c.port, c.prefix, c.host);
    }
  }

  // ---------------------------------------------------------------- every sequence of calls

  /** The state and the books after the calls; None when one of them panics. */
  function ServedAll(code: Code, righted: bool, ctx: Context, book: Book, calls: seq<Call>): Option<(Context, Book)>
    decreases |calls|
  {
    if calls == [] then Some((ctx, book))
    else
      var o := Served(code, righted, ctx, calls[0]);
      if o.reply.Panicked? then None else ServedAll(code, righted, o.ctx, Booked(book, calls[0], o.reply), calls[1..])
  }

  predicate AllJoin(code: Code, ctx: Context, calls: seq<Call>)
    decreases |calls|
  {
    calls == [] || (Joins(code, ctx, calls[0]) && AllJoin(code, Served(code, true, ctx, calls[0]).ctx, calls[1..]))
  }

  lemma RefusedKeeps(code: Code, ctx: Context, c: Call)
    requires CoherentContext(ctx)
    ensures Served(code, true, ctx, c).reply.Refused? ==> c.Cancel? && Served(code, true, ctx, c).ctx == ctx
    ensures Served(code, true, ctx, c).reply.Success? ==> CoherentContext(Served(code, true, ctx, c).ctx)
  {
    match c {
      case Register(port, prefix, mode, host, isStatic) =>
        RegisterEffect(code, ctx, port, prefix, mode, host, isStatic);
      case Cancel(port, prefix, host) =>
        CancelEffect(code, ctx, port, prefix, host);
    }
    hide CoherentContext, Submit, Cancelled, HostsAt, HasPrefix, ElsewhereSame, OnRing, RunsOut, Added,
         RemoveFirst;
  }

  /** The lifecycle, over every sequence of calls: host lists, prefixes and books agree at every moment. */
  lemma {:induction false} LifecycleHolds(code: Code, ctx: Context, book: Book, calls: seq<Call>)
    requires CoherentContext(ctx) && Agrees(ctx, book) && AllJoin(code, ctx, calls)
    requires ServedAll(code, true, ctx, book, calls).Some?
    ensures var (last, lastBook) := ServedAll(code, true, ctx, book, calls).value;
            CoherentContext(last) && Agrees(last, lastBook)
    decreases |calls|
  {
    hide CoherentContext, Agrees, Served, Joins;
    if calls != [] {
      var c, o := calls[0], Served(code, true, ctx, calls[0]);
      RefusedKeeps(code, ctx, c);
      if c.Cancel? {
        CancelKeepsBook(code, ctx, book, c);
      } else {
        RegisterKeepsBook(code, true, ctx, book, c);
      }
      LifecycleHolds(code, o.ctx, Booked(book, c, o.reply), calls[1..]);
    }
  }

  /** A cancellation panics exactly when the removal in it does. */
  lemma CancelsPanic(code: Code, righted: bool, ctx: Context, port: int, prefix: string, host: string)
    requires CoherentContext(ctx)
    ensures Served(code, righted, ctx, Cancel(port, prefix, host)).reply.Panicked?
       <==> RemoveHttpProxyHost(code, righted, ctx, port, prefix, host).reply.Panicked?
  {
    hide RemoveHttpProxyHost;
  }

  /** The committed guard: cancelling a listed host is refused and changes nothing, so the books keep every host. */
  lemma CommittedCancelRefuses(code: Code, ctx: Context, port: int, prefix: string, host: string)
    requires CoherentContext(ctx) && host in HostsAt(ctx, port, prefix)
    ensures Served(code, false, ctx, Cancel(port, prefix, host)) == Outcome(Refused, ctx)
  {
    RemovalGuard(code, ctx, port, prefix, host);
  }

  // ---------------------------------------------------------------- register, then cancel

  /** The host's points are distinct and none of them is on the ring. */
  ghost predicate FreeOnRing(hash: Hash, r: Ring, host: string) {
    Consistent(r) && Sorting.Distinct(Points(hash, host)) && forall p :: p in Points(hash, host) ==> p !in r.hosts
  }

  /** The balancer is as it was, whatever its kind; on a ring the points must not collide. */
  lemma RemoveAfterAdd(hash: Hash, b: Balancer, host: string)
    requires host !in b.Hosts()
    requires b.Hashed? ==> FreeOnRing(hash, b.ring, host)
    ensures b.Add(hash, host, true).Remove(hash, host) == Some(b)
    ensures host in b.Add(hash, host, true).Hosts() && b.Add(hash, host, true).Hosts() == b.Hosts() + [host]
  {
    LastOut(b.Hosts(), host);
    if b.Hashed? {
      RemoveUndoesAdd(hash, b.ring, host);
    }
    hide ConsistentHash.AddHost, ConsistentHash.RemoveHost, RemoveFirst, Points;
  }

  predicate Keeps(p: Proxy, prefix: string, b: Balancer) {
    prefix in p.mapping && p.mapping[prefix] == b && prefix in p.paths && p.paths[prefix] == b.Hosts()
  }

  lemma PutTwice(p: Proxy, prefix: string, first: Balancer, second: Balancer)
    ensures PutBalancer(PutBalancer(p, prefix, first), prefix, second) == PutBalancer(p, prefix, second)
    ensures Keeps(p, prefix, second) ==> PutBalancer(p, prefix, second) == p
  {
    hide Balancer.Hosts;
  }

  lemma JoinIs(code: Code, ctx: Context, port: int, prefix: string, mode: string, host: string, isStatic: bool)
    requires CoherentContext(ctx) && HasPrefix(ctx, port, prefix)
    ensures prefix in ctx[port].mapping && ctx[port].mapping[prefix].Hosts() == HostsAt(ctx, port, prefix)
    ensures ctx[port].paths[prefix] == ctx[port].mapping[prefix].Hosts()
    ensures var b := ctx[port].mapping[prefix].Add(code.hash, host, code.extendsList);
            Registered(code, ctx, port, prefix, mode, host, isStatic)
            == Outcome(Success, ctx[port := PutBalancer(ctx[port], prefix, b)])
  {
    assert Coherent(ctx[port]);
    hide IndexCovers, Balancer.Add, Balancer.Hosts, Balancer.Mode;
  }

  lemma Removable(code: Code, ctx: Context, port: int, prefix: string, host: string)
    requires CoherentContext(ctx) && port in ctx && prefix in ctx[port].mapping
    ensures var b := ctx[port].mapping[prefix]; b.Remove(code.hash, host).Some? <==> !RunsOut(code.hash, b, host)
  {
    assert Coherent(ctx[port]);
    RemoveRunsOut(code.hash, ctx[port].mapping[prefix], host);
    hide RunsOut, Balancer.Remove;
  }

  lemma LeaveIs(code: Code, ctx: Context, port: int, prefix: string, host: string, b: Balancer)
    requires CoherentContext(ctx) && host in HostsAt(ctx, port, prefix) && b.Hosts() != []
    requires prefix in ctx[port].mapping && ctx[port].mapping[prefix].Remove(code.hash, host) == Some(b)
    ensures Cancelled(code, true, ctx, port, prefix, host)
         == Outcome(Success, ctx[port := PutBalancer(ctx[port], prefix, b)])
  {
    Removable(code, ctx, port, prefix, host);
    RemovalGuard(code, ctx, port, prefix, host);
    hide CoherentContext, Balancer.Remove, Balancer.Hosts, RemoveHttpProxyHost, RunsOut;
  }

  /** Registering a new host at a prefix with hosts and cancelling it again leaves the whole state as it was. */
  lemma RegisterThenCancel(code: Code, ctx: Context, port: int, prefix: string, mode: string, host: string,
                           isStatic: bool)
    requires CoherentContext(ctx) && code.extendsList && HostsAt(ctx, port, prefix) != []
        && host !in HostsAt(ctx, port, prefix)
    requires prefix in ctx[port].mapping && ctx[port].mapping[prefix].Hashed? ==>
               FreeOnRing(code.hash, ctx[port].mapping[prefix].ring, host)
    ensures var o := Served(code, true, ctx, Register(port, prefix, mode, host, isStatic));
            o.reply.Success? && Served(code, true, o.ctx, Cancel(port, prefix, host)) == Outcome(Success, ctx)
  {
    hide Balancer.Add, Balancer.Remove, Balancer.Hosts, FreeOnRing, Added, ElsewhereSame, CoherentContext,
         Registered, Cancelled, OnRing;
    JoinIs(code, ctx, port, prefix, mode, host, isStatic);
    RegisterEffect(code, ctx, port, prefix, mode, host, isStatic);
    var p, b := ctx[port], ctx[port].mapping[prefix];
    RemoveAfterAdd(code.hash, b, host);
    var larger := b.Add(code.hash, host, true);
    var mid := ctx[port := PutBalancer(p, prefix, larger)];
    LeaveIs(code, mid, port, prefix, host, b);
    PutTwice(p, prefix, larger, b);
    assert mid[port := p] == ctx;
  }

  lemma NewIs(code: Code, ctx: Context, port: int, prefix: string, mode: string, host: string, isStatic: bool)
    requires CoherentContext(ctx) && !HasPrefix(ctx, port, prefix) && mode in {ROUND_ROBIN, CONSISTENCE_HASH}
    ensures var o := Registered(code, ctx, port, prefix, mode, host, isStatic);
            && port in o.ctx && prefix in o.ctx[port].mapping
            && BuildBalancer(code.hash, mode, [host]) == Some(o.ctx[port].mapping[prefix])
  {
    OpenedIs(code, ctx, port);
    var mid := Opened(code, ctx, port).ctx;
    assert HasPrefix(mid, port, prefix) <==> prefix in mid[port].paths;
    assert Coherent(mid[port]);
    BuiltMode(code.hash, mode, [host]);
    hide BuildBalancer, IndexCovers, Opened, CoherentContext, Balancer.Mode, Balancer.Hosts, Balancer.Rebuilds;
    NewPrefix(code, mid[port], prefix, mode, [host], isStatic, BuildBalancer(code.hash, mode, [host]).value);
    hide WithPrefix;
  }

  /** Registering the first host of a prefix and cancelling it again leaves the prefixes and hosts as they were. */
  lemma FirstRegisterThenCancel(code: Code, ctx: Context, port: int, prefix: string, mode: string, host: string,
                                isStatic: bool)
    requires CoherentContext(ctx) && !HasPrefix(ctx, port, prefix) && mode in {ROUND_ROBIN, CONSISTENCE_HASH}
    requires mode == CONSISTENCE_HASH ==> Sorting.Distinct(Points(code.hash, host))
    ensures var o := Served(code, true, ctx, Register(port, prefix, mode, host, isStatic));
            var last := Served(code, true, o.ctx, Cancel(port, prefix, host));
            && o.reply.Success? && last.reply.Success? && ElsewhereSame(ctx, last.ctx, port, prefix)
            && !HasPrefix(last.ctx, port, prefix)
  {
    var o := Registered(code, ctx, port, prefix, mode, host, isStatic);
    NewIs(code, ctx, port, prefix, mode, host, isStatic);
    RegisterEffect(code, ctx, port, prefix, mode, host, isStatic);
    if mode == CONSISTENCE_HASH {
      OneHostRing(code.hash, host);
    }
    OnlyHostGoes(code.hash, mode, host);
    Removable(code, o.ctx, port, prefix, host);
    CancelEffect(code, o.ctx, port, prefix, host);
    var last := Cancelled(code, true, o.ctx, port, prefix, host);
    hide Registered, Cancelled, CoherentContext, ElsewhereSame, HasPrefix, HostsAt, BuildBalancer, Balancer.Remove,
         OnRing, RunsOut;
    ElsewhereTwice(ctx, o.ctx, last.ctx, port, prefix);
  }

  lemma OnlyHostGoes(hash: Hash, mode: string, host: string)
    requires mode in {ROUND_ROBIN, CONSISTENCE_HASH}
    requires mode == CONSISTENCE_HASH ==> ConsistentHash.RemoveHost(hash, Build(hash, [host]), host).Some?
    ensures BuildBalancer(hash, mode, [host]).value.Remove(hash, host).Some? && RemoveFirst([host], host) == []
  {
    hide ConsistentHash.RemoveHost, Build;
  }
}
