/**
 * vermouth/vermouth_state_manager.go and vermouth/rpc_server.go: the requests as they run on the shared state object.
 * In standalone mode a request changes the proxy itself, in cluster mode it appends a log entry and waits until raft
 * has applied it; both come to the outcome module Lifecycle gives.
 */
module StateManager {
  import opened Text
  import opened Balancer
  import opened Gateway
  import opened HttpProxy
  import opened Lifecycle
  import L = LogEntry
  import S = StateContext
  import N = Namespace
  import D = Discovery
  import Trie = RadixTree

  class Vermouth {
    const Ctx: S.StateContext
    const cluster: bool
    /** Whether the guard of removeHttpProxyHost is righted. */
    const righted: bool

    constructor (ctx: S.StateContext, cluster: bool, righted: bool)
      ensures Ctx == ctx && this.cluster == cluster && this.righted == righted
    {
      Ctx, this.cluster, this.righted := ctx, cluster, righted;
    }

    /** The shared object is usable and has reached the outcome. */
    ghost predicate Reached(r: Reply, o: Outcome)
      reads Ctx, Ctx.Repr
    {
      Ctx.Valid() && r == o.reply && (!r.Panicked? ==> Ctx.Value() == o.ctx)
    }

    /** The shared object is usable, and what is sent in log entries is read back. */
    ghost predicate Ready()
      reads Ctx, Ctx.Repr
    {
      Ctx.Valid() && L.Faithful(Ctx.codec)
    }

    /**
     * The two ways of making a change. In standalone mode the proxy is changed on the spot. In cluster mode the
     * request goes out as bytes (vermouth/raft_info.go:21-45), and the handler its option chooses makes the change.
     */
    method MakeChange(e: Entry) returns (r: Reply)
      requires Ready() && L.Requested(e)
      modifies Ctx.Repr
      ensures fresh(Ctx.Repr - old(Ctx.Repr)) && Reached(r, Submit(Ctx.code, old(Ctx.Value()), e))
    {
      hide S.StateContext.Valid, S.StateContext.Value, Apply, L.Faithful, L.Request, L.ApplyBytes, L.Encoded;
      var ok;
      if cluster {
        L.RequestIsHandled(e);
        L.RequestArrives(Ctx.code, Ctx.codec, Ctx.Value(), e);
        var (opt, body) := L.Request(e).value;
        var entry := new L.LogEntry(opt, Ctx.codec.encode(body));
        var bytes := entry.Encode();
        ok := Ctx.Apply(bytes);
      } else {
        ok := ChangeDirectly(e);
      }
      r := if ok then Success else Panicked;
    }

    /** The standalone branches. */
    method ChangeDirectly(e: Entry) returns (ok: bool)
      requires Ctx.Valid()
      modifies Ctx.Repr
      ensures Ctx.Valid() && fresh(Ctx.Repr - old(Ctx.Repr)) && ok == Apply(Ctx.code, old(Ctx.Value()), e).Some?
      ensures ok ==> Ctx.Value() == Apply(Ctx.code, old(Ctx.Value()), e).value
    {
      assert Ctx in Ctx.Repr;
      hide Edited, S.StateContext.Valid, S.StateContext.Value;
      if e.EditProxy? && e.port in Ctx.HttpReverseProxyList && !Closes(e.edit) {
        ok := Ctx.ChangeProxy(e.port, e.edit);
      } else if e.AddProxy? {
        ok := Ctx.CreateProxy(e.port, e.prefixerType);
      } else {
        ok := Ctx.ApplyEntry(e);
      }
    }

    method addHttpProxy(port: int, prefixerType: string) returns (r: Reply)
      requires Ready()
      modifies Ctx.Repr
      ensures fresh(Ctx.Repr - old(Ctx.Repr))
      ensures Reached(r, AddHttpProxy(Ctx.code, old(Ctx.Value()), port, prefixerType))
    {
      hide S.StateContext.Valid, S.StateContext.Value, Submit;
      if port in Ctx.HttpReverseProxyList {
        return Refused;
      }
      r := MakeChange(AddProxy(port, prefixerType));
    }

    /** The proxy of a port, and the hosts it lists at a prefix. */
    method FindHosts(port: int, prefix: string) returns (hosts: seq<string>, present: bool)
      requires Ready()
      ensures hosts == HostsAt(Ctx.Value(), port, prefix) && present == HasPrefix(Ctx.Value(), port, prefix)
    {
      hide Trie.RadixTree.Valid, Trie.RadixTree.Pruned, Trie.RadixTree.View;
      if port !in Ctx.HttpReverseProxyList {
        return [], false;
      }
      var proxy := Ctx.HttpReverseProxyList[port];
      assert Ctx.Owns(proxy);
      assert Ctx.Value()[port] == proxy.Value();
      hosts := proxy.GetHosts(prefix);
      present := prefix in proxy.Paths;
    }

    method addHttpProxyPrefix(port: int, prefix: string, algo: string, hosts: seq<string>,
                              isStatic: bool) returns (r: Reply)
      requires Ready()
      modifies Ctx.Repr
      ensures fresh(Ctx.Repr - old(Ctx.Repr))
      ensures Reached(r, AddHttpProxyPrefix(Ctx.code, old(Ctx.Value()), port, prefix, algo, hosts, isStatic))
    {
      hide S.StateContext.Valid, S.StateContext.Value, Submit;
      var listed, present := FindHosts(port, prefix);
      if port !in Ctx.HttpReverseProxyList || present {
        return Refused;
      }
      r := MakeChange(EditProxy(port, Edit.AddPrefix(prefix, algo, hosts, isStatic)));
    }

    method removeHttpProxyPrefix(port: int, prefix: string) returns (r: Reply)
      requires Ready()
      modifies Ctx.Repr
      ensures fresh(Ctx.Repr - old(Ctx.Repr))
      ensures Reached(r, RemoveHttpProxyPrefix(Ctx.code, old(Ctx.Value()), port, prefix))
    {
      hide S.StateContext.Valid, S.StateContext.Value, Submit;
      var listed, present := FindHosts(port, prefix);
      if port !in Ctx.HttpReverseProxyList || !present {
        return Refused;
      }
      r := MakeChange(EditProxy(port, Edit.RemovePrefix(prefix)));
    }

    method addHttpProxyHost(port: int, prefix: string, host: string) returns (r: Reply)
      requires Ready()
      modifies Ctx.Repr
      ensures fresh(Ctx.Repr - old(Ctx.Repr))
      ensures Reached(r, AddHttpProxyHost(Ctx.code, old(Ctx.Value()), port, prefix, host))
    {
      hide S.StateContext.Valid, S.StateContext.Value, Submit;
      var listed, present := FindHosts(port, prefix);
      if port !in Ctx.HttpReverseProxyList || host in listed {
        return Refused;
      }
      r := MakeChange(EditProxy(port, Edit.AddHost(prefix, host)));
    }

    method removeHttpProxyHost(port: int, prefix: string, host: string) returns (r: Reply)
      requires Ready()
      modifies Ctx.Repr
      ensures fresh(Ctx.Repr - old(Ctx.Repr))
      ensures Reached(r, RemoveHttpProxyHost(Ctx.code, righted, old(Ctx.Value()), port, prefix, host))
    {
      hide S.StateContext.Valid, S.StateContext.Value, Submit;
      var listed, present := FindHosts(port, prefix);
      if port !in Ctx.HttpReverseProxyList || (host in listed) != righted {
        return Refused;
      }
      r := MakeChange(EditProxy(port, Edit.RemoveHost(prefix, host)));
    }

    /** A missing proxy is noticed in standalone mode only. */
    method addBlackList(port: int, ips: seq<string>) returns (r: Reply)
      requires Ready()
      modifies Ctx.Repr
      ensures fresh(Ctx.Repr - old(Ctx.Repr))
      ensures Reached(r, ChangeBans(Ctx.code, cluster, old(Ctx.Value()), port, ips, true))
    {
      hide S.StateContext.Valid, S.StateContext.Value, Submit;
      if !cluster && port !in Ctx.HttpReverseProxyList {
        return Refused;
      }
      r := MakeChange(EditProxy(port, Edit.AddBlackList(ips)));
    }

    method removeBlackList(port: int, ips: seq<string>) returns (r: Reply)
      requires Ready()
      modifies Ctx.Repr
      ensures fresh(Ctx.Repr - old(Ctx.Repr))
      ensures Reached(r, ChangeBans(Ctx.code, cluster, old(Ctx.Value()), port, ips, false))
    {
      hide S.StateContext.Valid, S.StateContext.Value, Submit;
      if !cluster && port !in Ctx.HttpReverseProxyList {
        return Refused;
      }
      r := MakeChange(EditProxy(port, Edit.RemoveBlackList(ips)));
    }

    method changeStatic(port: int, prefix: string) returns (r: Reply)
      requires Ready()
      modifies Ctx.Repr
      ensures fresh(Ctx.Repr - old(Ctx.Repr)) && Reached(r, FlipStatic(Ctx.code, old(Ctx.Value()), port, prefix))
    {
      hide S.StateContext.Valid, S.StateContext.Value, Submit;
      if port !in Ctx.HttpReverseProxyList {
        return Refused;
      }
      r := MakeChange(EditProxy(port, Edit.ChangeStatic(prefix)));
    }

    /** The balancer of a prefix; the mode it already has is no change. */
    method changeLb(port: int, prefix: string, lb: string) returns (r: Reply)
      requires Ready()
      modifies Ctx.Repr
      ensures fresh(Ctx.Repr - old(Ctx.Repr))
      ensures Reached(r, ChangeBalancer(Ctx.code, old(Ctx.Value()), port, prefix, lb))
    {
      hide S.StateContext.Valid, S.StateContext.Value, Submit, Balancer.Mode;
      if port !in Ctx.HttpReverseProxyList {
        return Refused;
      }
      var b := FindBalancer(port, prefix);
      if b.None? {
        return Refused;
      }
      if b.value.Mode() == lb {
        return Success;
      }
      r := MakeChange(EditProxy(port, Edit.ChangeLb(prefix, lb)));
    }

    method FindBalancer(port: int, prefix: string) returns (b: Option<Balancer>)
      requires Ctx.Valid() && port in Ctx.HttpReverseProxyList
      ensures b.Some? <==> prefix in Ctx.Value()[port].mapping
      ensures b.Some? ==> b.value == Ctx.Value()[port].mapping[prefix]
    {
      hide Trie.RadixTree.Valid, Trie.RadixTree.Pruned, Trie.RadixTree.View;
      var proxy := Ctx.HttpReverseProxyList[port];
      assert Ctx.Owns(proxy);
      assert Ctx.Value()[port] == proxy.Value();
      b := proxy.prefixMapping.GetBalancer(prefix);
    }

    method changeProxyAvailable(port: int, state: int) returns (r: Reply)
      requires Ready()
      modifies Ctx.Repr
      ensures fresh(Ctx.Repr - old(Ctx.Repr)) && Reached(r, ChangeAvailable(Ctx.code, old(Ctx.Value()), port, state))
    {
      hide S.StateContext.Valid, S.StateContext.Value, Submit;
      if port !in Ctx.HttpReverseProxyList {
        return Refused;
      }
      r := MakeChange(EditProxy(port, Edit.ChangeState(state)));
    }

    // -------------------------------------------------------------- the RPC server

    method RegisterToProxy(port: int, prefix: string, mode: string, host: string, isStatic: bool) returns (r: Reply)
      requires Ready()
      modifies Ctx.Repr
      ensures fresh(Ctx.Repr - old(Ctx.Repr))
      ensures Reached(r, Served(Ctx.code, righted, old(Ctx.Value()), Register(port, prefix, mode, host, isStatic)))
    {
      hide S.StateContext.Valid, S.StateContext.Value, Submit;
      if port !in Ctx.HttpReverseProxyList {
        r := addHttpProxy(port, HASH_PREFIXER);
        if !r.Success? {
          return;
        }
      }
      var listed, present := FindHosts(port, prefix);
      if !present {
        r := MakeChange(EditProxy(port, Edit.AddPrefix(prefix, mode, [host], isStatic)));
      } else {
        r := MakeChange(EditProxy(port, Edit.AddHost(prefix, host)));
      }
    }

    method Cancel(port: int, prefix: string, host: string) returns (r: Reply)
      requires Ready()
      modifies Ctx.Repr
      ensures fresh(Ctx.Repr - old(Ctx.Repr))
      ensures Reached(r, Served(Ctx.code, righted, old(Ctx.Value()), Call.Cancel(port, prefix, host)))
    {
      hide S.StateContext.Valid, S.StateContext.Value, Submit;
      r := removeHttpProxyHost(port, prefix, host);
      if !r.Success? {
        return;
      }
      var hosts, present := FindHosts(port, prefix);
      if |hosts| == 0 {
        r := removeHttpProxyPrefix(port, prefix);
      }
    }

    // -------------------------------------------------------------- the event loop

    /** One event of HandleNamespaceEvent. */
    method HandleEvent(port: int, e: D.Event, creates: bool, copies: bool) returns (r: Reply)
      requires Ready()
      modifies Ctx.Repr
      ensures fresh(Ctx.Repr - old(Ctx.Repr))
      ensures Reached(r, N.Handled(N.Manager(Ctx.code, righted, creates, copies), old(Ctx.Value()), port, e))
    {
      hide S.StateContext.Valid, S.StateContext.Value, Submit, N.RemoveDeparted, AddHttpProxyHost, AddHttpProxyPrefix,
           RemoveHttpProxyPrefix;
      match e {
        case AddHost(service, host) =>
          checkAndCreate(port, creates);
          r := addHttpProxyHost(port, N.PrefixOf(service), host);
        case AddService(service) =>
          checkAndCreate(port, creates);
          r := addHttpProxyPrefix(port, N.PrefixOf(service), ROUND_ROBIN, [], false);
        case RemoveService(service) =>
          r := removeHttpProxyPrefix(port, N.PrefixOf(service));
        case RemoveHosts(service, children) =>
          if port !in Ctx.HttpReverseProxyList {
            return Panicked;
          }
          r := RemoveDeparted(port, N.PrefixOf(service), Members(children), creates, copies);
      }
    }

    /** checkAndCreate, on the shared context or on a throwaway one. */
    method checkAndCreate(port: int, creates: bool)
      requires Ready()
      modifies Ctx.Repr
      ensures Ready() && fresh(Ctx.Repr - old(Ctx.Repr))
      ensures Ctx.Value() == N.WithProxy(N.Manager(Ctx.code, righted, creates, false), old(Ctx.Value()), port)
    {
      hide S.StateContext.Valid, S.StateContext.Value, L.Faithful;
      if creates {
        CreateMissing(Ctx, port);
      } else {
        var ctx := new S.StateContext(Ctx.code, Ctx.codec);
        CreateMissing(ctx, port);
      }
    }

    static method CreateMissing(ctx: S.StateContext, port: int)
      requires ctx.Valid()
      modifies ctx.Repr
      ensures ctx.Valid() && fresh(ctx.Repr - old(ctx.Repr))
      ensures ctx.Value() == Opened(ctx.code, old(ctx.Value()), port).ctx
    {
      assert ctx in ctx.Repr;
      hide S.StateContext.Valid, S.StateContext.Value;
      if port !in ctx.HttpReverseProxyList {
        var ok := ctx.CreateProxy(port, HASH_PREFIXER);
      }
    }

    /** REMOVE_HOSTS (vermouth_state_manager.go:251-263), over the shared list or over a copy of it. */
    method RemoveDeparted(port: int, prefix: string, children: set<string>, ghost creates: bool,
                          copies: bool) returns (r: Reply)
      requires Ready()
      modifies Ctx.Repr
      ensures fresh(Ctx.Repr - old(Ctx.Repr))
      ensures var m := N.Manager(Ctx.code, righted, creates, copies);
              Reached(r, N.RemoveDeparted(m, old(Ctx.Value()), port, prefix, children))
    {
      hide S.StateContext.Valid, S.StateContext.Value, N.RemoveAbsent, N.RemoveLive, L.Faithful;
      var hosts, present := FindHosts(port, prefix);
      if copies {
        r := RemoveAbsent(port, prefix, hosts, children, creates, copies);
      } else {
        r := RemoveLive(port, prefix, hosts, children, creates, copies);
      }
    }

    method RemoveAbsent(port: int, prefix: string, hosts: seq<string>, children: set<string>, ghost creates: bool,
                        ghost copies: bool) returns (r: Reply)
      requires Ready()
      modifies Ctx.Repr
      ensures fresh(Ctx.Repr - old(Ctx.Repr))
      ensures var m := N.Manager(Ctx.code, righted, creates, copies);
              Reached(r, N.RemoveAbsent(m, old(Ctx.Value()), port, prefix, hosts, children))
    {
      hide S.StateContext.Valid, S.StateContext.Value, RemoveHttpProxyHost, L.Faithful;
      ghost var m, start := N.Manager(Ctx.code, righted, creates, copies), Ctx.Value();
      for i := 0 to |hosts|
        invariant Ready() && fresh(Ctx.Repr - old(Ctx.Repr))
        invariant N.RemoveAbsent(m, start, port, prefix, hosts, children)
               == N.RemoveAbsent(m, Ctx.Value(), port, prefix, hosts[i..], children)
      {
        assert hosts[i..][0] == hosts[i] && hosts[i..][1..] == hosts[i + 1..];
        if hosts[i] !in children {
          r := removeHttpProxyHost(port, prefix, hosts[i]);
          if r.Panicked? {
            return;
          }
        }
      }
      return Success;
    }

    /** The committed loop. `shared` is the array that the list it ranges over has in common with the balancer. */
    method RemoveLive(port: int, prefix: string, hosts: seq<string>, children: set<string>, ghost creates: bool,
                      ghost copies: bool) returns (r: Reply)
      requires Ready()
      modifies Ctx.Repr
      ensures fresh(Ctx.Repr - old(Ctx.Repr))
      ensures var m := N.Manager(Ctx.code, righted, creates, copies);
              Reached(r, N.RemoveLive(m, old(Ctx.Value()), port, prefix, hosts, 0, children))
    {
      hide S.StateContext.Valid, S.StateContext.Value, RemoveHttpProxyHost, L.Faithful, N.Shifted, HostsAt;
      ghost var m, start := N.Manager(Ctx.code, righted, creates, copies), Ctx.Value();
      var shared := hosts;
      for i := 0 to |hosts|
        invariant Ready() && fresh(Ctx.Repr - old(Ctx.Repr)) && |shared| == |hosts|
        invariant N.RemoveLive(m, start, port, prefix, hosts, 0, children)
               == N.RemoveLive(m, Ctx.Value(), port, prefix, shared, i, children)
      {
        if shared[i] !in children {
          var listed, present := FindHosts(port, prefix);
          var host := shared[i];
          r := removeHttpProxyHost(port, prefix, host);
          if r.Panicked? {
            return;
          }
          if r.Success? {
            shared := N.Shifted(shared, |listed|, host);
          }
        }
      }
      return Success;
    }
  }
}
