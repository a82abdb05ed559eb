/**
 * What the guarded requests do when they succeed (vermouth/vermouth_state_manager.go, vermouth/rpc_server.go), said of
 * the proxies alone.
 */
module RequestLaws {
  import opened Text
  import opened Word
  import opened AclSpec
  import opened AclIndex
  import opened ConsistentHash
  import opened Balancer
  import opened Gateway
  import opened Lifecycle
  import opened EntryLaws

  /** `next` is `ctx` but for the proxy at `port`. */
  predicate OnlyAt(ctx: Context, next: Context, port: int) {
    port in ctx && port in next && next == ctx[port := next[port]]
  }

  /** The prefix `k` is mapped in the given mode to the given hosts. */
  predicate Serves(p: Proxy, k: string, mode: string, hosts: seq<string>) {
    && k in p.paths && k in p.mapping && p.paths[k] == hosts
    && p.mapping[k].Hosts() == hosts && p.mapping[k].Mode() == mode
  }

  lemma EditOnlyAt(code: Code, ctx: Context, port: int, edit: Edit)
    requires CoherentContext(ctx) && port in ctx && !Closes(edit)
    ensures var o := Submit(code, ctx, EditProxy(port, edit));
            && (o.reply.Panicked? <==> Spoils(code, ctx[port], edit)) && !o.reply.Refused?
            && (o.reply.Success? ==> OnlyAt(ctx, o.ctx, port) && Edited(code, ctx[port], edit) == Some(o.ctx[port])
                                     && Local(ctx[port], o.ctx[port], edit) && CoherentContext(o.ctx))
            && (!o.reply.Success? ==> o.ctx == ctx)
  {
    EditSpoils(code, ctx[port], edit);
    if Edited(code, ctx[port], edit).Some? {
      EditIsLocal(code, ctx[port], edit);
      ApplyKeepsCoherent(code, ctx, EditProxy(port, edit));
    }
    hide Edited, Local, Spoils, CoherentContext;
  }

  /** A port without proxy gets a new one; a used port is refused. */
  lemma NewProxyEffect(code: Code, ctx: Context, port: int, prefixerType: string, key: uint32)
    ensures var o := AddHttpProxy(code, ctx, port, prefixerType);
            && (o.reply.Refused? <==> port in ctx) && (!o.reply.Success? ==> o.ctx == ctx)
            && (o.reply.Success? <==> port !in ctx && prefixerType == HASH_PREFIXER)
            && (o.reply.Success? ==>
                  && port in o.ctx && o.ctx == ctx[port := o.ctx[port]] && o.ctx[port].available
                  && o.ctx[port].paths == map[] && o.ctx[port].mapping == map[]
                  && !Forbidden(o.ctx[port].acl.stored, key))
  {
    if prefixerType == HASH_PREFIXER {
      NewIsOpen(port, prefixerType, key);
    }
    hide Forbidden;
  }

  /** A new prefix gets the hosts, the mode and the flag it was asked for, and no other prefix changes. */
  lemma NewPrefixEffect(code: Code, ctx: Context, port: int, k: string, algo: string, hosts: seq<string>,
                        isStatic: bool)
    requires CoherentContext(ctx)
    ensures var o := AddHttpProxyPrefix(code, ctx, port, k, algo, hosts, isStatic);
            && (o.reply.Success? <==> port in ctx && k !in ctx[port].paths && algo in {ROUND_ROBIN, CONSISTENCE_HASH})
            && (o.reply.Success? ==> OnlyAt(ctx, o.ctx, port) && SameExcept(ctx[port], o.ctx[port], k)
                                     && Serves(o.ctx[port], k, algo, hosts) && IsStatic(o.ctx[port], k) == isStatic)
  {
    if port in ctx && k !in ctx[port].paths {
      var edit := Edit.AddPrefix(k, algo, hosts, isStatic);
      EditOnlyAt(code, ctx, port, edit);
      var o := Submit(code, ctx, EditProxy(port, edit));
      assert k !in ctx[port].mapping by { assert Coherent(ctx[port]); }
      if o.reply.Success? {
        assert Coherent(o.ctx[port]);
      }
      hide Submit, Edited, SameExcept, IsStatic, Balancer.Mode, Balancer.Hosts, IndexCovers;
    }
  }

  /** A prefix that is removed is gone, but for its flag, and no other prefix changes. */
  lemma RemovedPrefixEffect(code: Code, ctx: Context, port: int, k: string)
    requires CoherentContext(ctx)
    ensures var o := RemoveHttpProxyPrefix(code, ctx, port, k);
            && (o.reply.Success? <==> port in ctx && k in ctx[port].paths) && (!o.reply.Success? ==> o.ctx == ctx)
            && (o.reply.Success? ==>
                  && OnlyAt(ctx, o.ctx, port) && SameExcept(ctx[port], o.ctx[port], k)
                  && k !in o.ctx[port].paths && k !in o.ctx[port].mapping && k !in o.ctx[port].balancerType
                  && IsStatic(o.ctx[port], k) == IsStatic(ctx[port], k))
  {
    if port in ctx {
      EditOnlyAt(code, ctx, port, Edit.RemovePrefix(k));
    }
    hide Submit, Edited, SameExcept, IsStatic;
  }

  /** A new host joins the list of its prefix; on a ring that does not extend its list it does not show there. */
  lemma NewHostEffect(code: Code, ctx: Context, port: int, k: string, host: string)
    requires CoherentContext(ctx)
    ensures var o, hosts := AddHttpProxyHost(code, ctx, port, k, host), HostsAt(ctx, port, k);
            && (o.reply.Success? <==> port in ctx && k in ctx[port].paths && host !in hosts)
            && (o.reply.Refused? <==> port !in ctx || host in hosts) && (!o.reply.Success? ==> o.ctx == ctx)
            && (o.reply.Success? ==>
                  && OnlyAt(ctx, o.ctx, port) && SameExcept(ctx[port], o.ctx[port], k)
                  && IsStatic(o.ctx[port], k) == IsStatic(ctx[port], k)
                  && HostsAt(o.ctx, port, k) == if OnRing(ctx, port, k) && !code.extendsList then hosts
                                                else hosts + [host])
  {
    if port in ctx && host !in HostsAt(ctx, port, k) {
      EditOnlyAt(code, ctx, port, Edit.AddHost(k, host));
      if HasPrefix(ctx, port, k) {
        JoinEffect(code, ctx, port, k, host);
      }
    }
    hide Submit, Edited, SameExcept, IsStatic, CoherentContext, ElsewhereSame;
  }

  /** A change of mode keeps hosts and flag; asking for the mode there is changes nothing. */
  lemma ModeEffect(code: Code, ctx: Context, port: int, k: string, lb: string)
    requires CoherentContext(ctx)
    ensures var o, there := ChangeBalancer(code, ctx, port, k, lb), port in ctx && k in ctx[port].paths;
            && (o.reply.Refused? <==> !there) && (!o.reply.Success? ==> o.ctx == ctx)
            && (there ==> k in ctx[port].mapping)
            && (o.reply.Success?
                <==> there && (lb in {ROUND_ROBIN, CONSISTENCE_HASH} || lb == ctx[port].mapping[k].Mode()))
            && (o.reply.Success? && lb == ctx[port].mapping[k].Mode() ==> o.ctx == ctx)
            && (o.reply.Success? ==> OnlyAt(ctx, o.ctx, port) && Serves(o.ctx[port], k, lb, HostsAt(ctx, port, k))
                                     && ModeChanged(ctx[port], o.ctx[port], k, lb))
  {
    if port in ctx {
      assert Coherent(ctx[port]);
      if k in ctx[port].paths && ctx[port].mapping[k].Mode() != lb {
        EditOnlyAt(code, ctx, port, Edit.ChangeLb(k, lb));
        ChangeLbKeepsHosts(code, ctx[port], k, lb);
        var o := Submit(code, ctx, EditProxy(port, Edit.ChangeLb(k, lb)));
        if o.reply.Success? {
          assert Coherent(o.ctx[port]);
        }
      }
    }
    hide Submit, Edited, IndexCovers, Balancer.Mode, Balancer.Hosts, Balancer.Ordered, CoherentContext;
  }

  /** Flipping a flag: a missing one becomes true. Nothing else changes. */
  lemma FlipEffect(code: Code, ctx: Context, port: int, k: string)
    ensures var o := FlipStatic(code, ctx, port, k);
            && (o.reply.Success? <==> port in ctx) && (!o.reply.Success? ==> o == Outcome(Refused, ctx))
            && (o.reply.Success? ==>
                  var flags := ctx[port].staticMapping;
                  o.ctx == ctx[port := ctx[port].(
                               staticMapping := flags[k := if k in flags then !flags[k] else true])])
  {
  }

  /** State 1 makes the proxy available, state 2 unavailable, any other takes it away. */
  lemma AvailableEffect(code: Code, ctx: Context, port: int, state: int)
    ensures var o := ChangeAvailable(code, ctx, port, state);
            && (o.reply.Success? <==> port in ctx) && (!o.reply.Success? ==> o == Outcome(Refused, ctx))
            && (o.reply.Success? && (state == 1 || state == 2) ==>
                  o.ctx == ctx[port := ctx[port].(available := state == 1)])
            && (o.reply.Success? && state != 1 && state != 2 ==> o.ctx == ctx - {port})
  {
    if port in ctx {
      StatesDo(code, ctx, port, state);
    }
  }

  /** Whom a port turns away after a request about its bans that succeeds, and that nothing else changes. */
  lemma BansEffect(code: Code, cluster: bool, ctx: Context, port: int, ips: seq<string>, ban: bool, key: uint32)
    requires ChangeBans(code, cluster, ctx, port, ips, ban).reply.Success?
    requires port in ctx ==> Valued(ctx[port].acl.stored)
    ensures var o := ChangeBans(code, cluster, ctx, port, ips, ban);
            && OnlyAt(ctx, o.ctx, port) && o.ctx[port] == ctx[port].(acl := o.ctx[port].acl)
            && Valued(o.ctx[port].acl.stored)
            && (Forbidden(o.ctx[port].acl.stored, key)
                <==> if ban
                     then Forbidden(ctx[port].acl.stored, key) || exists p :: p in Denoted(ips) && Within(p, key)
                     else exists p :: p in ctx[port].acl.stored && p !in Denoted(ips) && Within(p, key))
  {
    if ban {
      CallersBanned(ctx[port].acl, ips, key);
    } else {
      CallersLifted(ctx[port].acl, ips, key);
    }
    hide Listed, Forbidden, Within, Denoted;
  }

  /** The proxy that a registration or an event finds missing is a new one, available and empty. */
  lemma OpenedEffect(code: Code, ctx: Context, port: int, key: uint32)
    ensures var o := Opened(code, ctx, port);
            && (port in ctx ==> o.ctx == ctx)
            && (port !in ctx ==>
                  && port in o.ctx && o.ctx == ctx[port := o.ctx[port]] && o.ctx[port].available
                  && o.ctx[port].paths == map[] && o.ctx[port].mapping == map[]
                  && !Forbidden(o.ctx[port].acl.stored, key))
  {
    NewProxyEffect(code, ctx, port, HASH_PREFIXER, key);
    hide AddHttpProxy, Forbidden;
  }

  /** A registration leaves the availability of a proxy alone, and one that it makes is available. */
  lemma RegisteredIsAvailable(code: Code, ctx: Context, port: int, k: string, mode: string, host: string,
                              isStatic: bool)
    requires CoherentContext(ctx) && Registered(code, ctx, port, k, mode, host, isStatic).reply.Success?
    ensures var next := Registered(code, ctx, port, k, mode, host, isStatic).ctx;
            && port in next && (next[port].available <==> port in ctx ==> ctx[port].available)
            && next[port].acl == if port in ctx then ctx[port].acl else EMPTY_ACL
  {
    OpenedIs(code, ctx, port);
    OpenedEffect(code, ctx, port, 0);
    var mid := Opened(code, ctx, port).ctx;
    EditOnlyAt(code, mid, port, Edit.AddHost(k, host));
    EditOnlyAt(code, mid, port, Edit.AddPrefix(k, mode, [host], isStatic));
    hide Submit, Edited, IsStatic, CoherentContext, Spoils, SameElsewhere;
  }

  /** A registration that makes a prefix gives it the mode and the flag it asks for; joining one leaves both alone. */
  lemma RegisteredFlag(code: Code, ctx: Context, port: int, k: string, mode: string, host: string, isStatic: bool)
    requires CoherentContext(ctx) && Registered(code, ctx, port, k, mode, host, isStatic).reply.Success?
    ensures var o := Registered(code, ctx, port, k, mode, host, isStatic);
            && port in o.ctx
            && (!HasPrefix(ctx, port, k) ==>
                  Serves(o.ctx[port], k, mode, [host]) && IsStatic(o.ctx[port], k) == isStatic)
            && (HasPrefix(ctx, port, k) ==> IsStatic(o.ctx[port], k) == IsStatic(ctx[port], k))
  {
    OpenedIs(code, ctx, port);
    var mid := Opened(code, ctx, port).ctx;
    assert HasPrefix(mid, port, k) <==> HasPrefix(ctx, port, k);
    if HasPrefix(ctx, port, k) {
      EditOnlyAt(code, mid, port, Edit.AddHost(k, host));
    } else {
      EditOnlyAt(code, mid, port, Edit.AddPrefix(k, mode, [host], isStatic));
      NewPrefixEffect(code, mid, port, k, mode, [host], isStatic);
    }
    hide Submit, Edited, SameExcept, IsStatic, CoherentContext, Serves, ElsewhereSame, Spoils;
  }
}
