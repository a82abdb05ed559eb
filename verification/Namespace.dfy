/**
 * The manager's event loop (vermouth/vermouth_state_manager.go:219-266): service discovery events become guarded
 * changes of one proxy. A refused change is ignored.
 */
module Namespace {
  import opened Text
  import opened Balancer
  import opened Gateway
  import opened Lifecycle
  import D = Discovery
  import H = HostReconcile
  import IpText
  import RoundRobin

  /**
   * How the manager runs: with the removal guard righted, with a missing proxy created where it is needed, and with
   * the host list copied before REMOVE_HOSTS ranges over it.
   */
  datatype Manager = Manager(code: Code, righted: bool, creates: bool, copies: bool)

  function Committed(code: Code): Manager { Manager(code, false, false, false) }

  function PrefixOf(service: string): string { "/" + service }

  /** checkAndCreate. The committed loop calls it on a context made for the occasion, which changes nothing. */
  function WithProxy(m: Manager, ctx: Context, port: int): Context {
    if m.creates then Opened(m.code, ctx, port).ctx else ctx
  }

  /** REMOVE_HOSTS over a copy of the host list. */
  function RemoveAbsent(m: Manager, ctx: Context, port: int, prefix: string, hosts: seq<string>,
                        children: set<string>): Outcome
    decreases |hosts|
  {
    if hosts == [] then Outcome(Success, ctx)
    else if hosts[0] in children then RemoveAbsent(m, ctx, port, prefix, hosts[1..], children)
    else
      var o := RemoveHttpProxyHost(m.code, m.righted, ctx, port, prefix, hosts[0]);
      if o.reply.Panicked? then o else RemoveAbsent(m, o.ctx, port, prefix, hosts[1..], children)
  }

  /**
   * REMOVE_HOSTS as committed: the list it ranges over shares its array with the balancer, and a removal shifts the
   * hosts behind the removed one down in that array.
   */
  function RemoveLive(m: Manager, ctx: Context, port: int, prefix: string, a: seq<string>, i: nat,
                      children: set<string>): Outcome
    decreases |a| - i
  {
    if i >= |a| then Outcome(Success, ctx)
    else if a[i] in children then RemoveLive(m, ctx, port, prefix, a, i + 1, children)
    else
      var o := RemoveHttpProxyHost(m.code, m.righted, ctx, port, prefix, a[i]);
      if o.reply.Panicked? then o
      else
        var b := if o.reply.Success? then Shifted(a, |HostsAt(ctx, port, prefix)|, a[i]) else a;
        RemoveLive(m, o.ctx, port, prefix, b, i + 1, children)
  }

  /** The array behind a list of `len` hosts after one of them has been removed. */
  function Shifted(a: seq<string>, len: nat, host: string): (b: seq<string>)
    ensures |b| == |a|
  {
    if len <= |a| then H.ShiftedOut(a, len, host) else a
  }

  function RemoveDeparted(m: Manager, ctx: Context, port: int, prefix: string, children: set<string>): Outcome {
    var hosts := HostsAt(ctx, port, prefix);
    if m.copies then RemoveAbsent(m, ctx, port, prefix, hosts, children)
    else RemoveLive(m, ctx, port, prefix, hosts, 0, children)
  }

  function Handled(m: Manager, ctx: Context, port: int, e: D.Event): Outcome {
    match e
    case AddHost(service, host) =>
      AddHttpProxyHost(m.code, WithProxy(m, ctx, port), port, PrefixOf(service), host)
    case AddService(service) =>
      AddHttpProxyPrefix(m.code, WithProxy(m, ctx, port), port, PrefixOf(service), ROUND_ROBIN, [], false)
    case RemoveService(service) =>
      RemoveHttpProxyPrefix(m.code, ctx, port, PrefixOf(service))
    case RemoveHosts(service, children) =>
      if port !in ctx then Outcome(Panicked, ctx)   // GetHosts on a nil proxy
      else RemoveDeparted(m, ctx, port, PrefixOf(service), Members(children))
  }

  function HandledAll(m: Manager, ctx: Context, port: int, events: seq<D.Event>): Option<Context> {
    if events == [] then Some(ctx)
    else match HandledAll(m, ctx, port, events[..|events| - 1])
         case None => None
         case Some(mid) =>
           var o := Handled(m, mid, port, events[|events| - 1]);
           if o.reply.Panicked? then None else Some(o.ctx)
  }

  // ---------------------------------------------------------------- the committed loop

  /**
   * Without a proxy on its port the committed loop drops new services and hosts, and the first pass over a service's
   * nodes panics.
   */
  lemma MissingPort(code: Code, ctx: Context, port: int, service: string, host: string, children: seq<string>)
    requires port !in ctx
    ensures Handled(Committed(code), ctx, port, D.AddService(service)) == Outcome(Refused, ctx)
    ensures Handled(Committed(code), ctx, port, D.AddHost(service, host)) == Outcome(Refused, ctx)
    ensures Handled(Committed(code), ctx, port, D.RemoveHosts(service, children)).reply.Panicked?
    ensures var o := Handled(Manager(code, true, true, true), ctx, port, D.AddService(service));
            && o.reply.Success? && HasPrefix(o.ctx, port, PrefixOf(service))
            && HostsAt(o.ctx, port, PrefixOf(service)) == []
  {
    var mid := Opened(code, ctx, port).ctx;
    BuiltMode(code.hash, ROUND_ROBIN, []);
    assert mid[port].mapping == map[];
    var b := BuildBalancer(code.hash, ROUND_ROBIN, []).value;
    NewPrefix(code, mid[port], PrefixOf(service), ROUND_ROBIN, [], false, b);
    hide WithPrefix, BuildBalancer;
  }

  lemma {:induction false} CommittedRemovesNone(m: Manager, ctx: Context, port: int, prefix: string, a: seq<string>,
                                                i: nat, children: set<string>)
    requires !m.righted && CoherentContext(ctx) && i <= |a| && forall h :: h in a ==> h in HostsAt(ctx, port, prefix)
    ensures RemoveLive(m, ctx, port, prefix, a, i, children) == Outcome(Success, ctx)
    decreases |a| - i
  {
    hide CoherentContext, HostsAt, RemoveHttpProxyHost;
    if i < |a| {
      RemovalGuard(m.code, ctx, port, prefix, a[i]);
      CommittedRemovesNone(m, ctx, port, prefix, a, i + 1, children);
    }
  }

  lemma {:induction false} CommittedRemovesNoneOf(m: Manager, ctx: Context, port: int, prefix: string,
                                                  hosts: seq<string>, children: set<string>)
    requires !m.righted && CoherentContext(ctx) && forall h :: h in hosts ==> h in HostsAt(ctx, port, prefix)
    ensures RemoveAbsent(m, ctx, port, prefix, hosts, children) == Outcome(Success, ctx)
    decreases |hosts|
  {
    hide CoherentContext, HostsAt, RemoveHttpProxyHost;
    if hosts != [] {
      RemovalGuard(m.code, ctx, port, prefix, hosts[0]);
      CommittedRemovesNoneOf(m, ctx, port, prefix, hosts[1..], children);
    }
  }

  lemma CommittedKeeps(m: Manager, ctx: Context, port: int, prefix: string, children: set<string>)
    requires !m.righted && CoherentContext(ctx)
    ensures RemoveDeparted(m, ctx, port, prefix, children) == Outcome(Success, ctx)
  {
    hide CoherentContext;
    CommittedRemovesNone(m, ctx, port, prefix, HostsAt(ctx, port, prefix), 0, children);
    CommittedRemovesNoneOf(m, ctx, port, prefix, HostsAt(ctx, port, prefix), children);
  }

  /** With the committed guard REMOVE_HOSTS never changes anything. */
  lemma CommittedKeepsHosts(code: Code, ctx: Context, port: int, service: string, children: seq<string>)
    requires CoherentContext(ctx) && port in ctx
    ensures Handled(Committed(code), ctx, port, D.RemoveHosts(service, children)) == Outcome(Success, ctx)
  {
    var prefix := PrefixOf(service);
    CommittedRemovesNone(Committed(code), ctx, port, prefix, HostsAt(ctx, port, prefix), 0, Members(children));
  }

  // ---------------------------------------------------------------- the righted loop

  /** A round-robin prefix, as the loop creates them. */
  ghost predicate InTurns(ctx: Context, port: int, prefix: string) {
    CoherentContext(ctx) && HasPrefix(ctx, port, prefix) && !OnRing(ctx, port, prefix)
  }

  lemma TurnsRemove(code: Code, ctx: Context, port: int, prefix: string, host: string)
    requires InTurns(ctx, port, prefix)
    ensures var o := RemoveHttpProxyHost(code, true, ctx, port, prefix, host);
            && !o.reply.Panicked? && InTurns(o.ctx, port, prefix) && ElsewhereSame(ctx, o.ctx, port, prefix)
            && HostsAt(o.ctx, port, prefix) == RemoveFirst(HostsAt(ctx, port, prefix), host)
  {
    LeaveEffect(code, ctx, port, prefix, host);
    RemovalGuard(code, ctx, port, prefix, host);
    assert Coherent(ctx[port]);
    hide CoherentContext, ElsewhereSame, RemoveFirst;
  }

  lemma TurnsAdd(code: Code, ctx: Context, port: int, prefix: string, host: string)
    requires InTurns(ctx, port, prefix)
    ensures var o := AddHttpProxyHost(code, ctx, port, prefix, host);
            && !o.reply.Panicked? && InTurns(o.ctx, port, prefix) && ElsewhereSame(ctx, o.ctx, port, prefix)
            && HostsAt(o.ctx, port, prefix) == RoundRobin.Added(HostsAt(ctx, port, prefix), host)
  {
    JoinEffect(code, ctx, port, prefix, host);
    assert Coherent(ctx[port]);
    hide CoherentContext, ElsewhereSame;
  }

  lemma {:induction false} TurnsRemoveAbsent(m: Manager, ctx: Context, port: int, prefix: string, hosts: seq<string>,
                                             children: set<string>)
    requires m.righted && InTurns(ctx, port, prefix)
    ensures var o := RemoveAbsent(m, ctx, port, prefix, hosts, children);
            && o.reply.Success? && InTurns(o.ctx, port, prefix) && ElsewhereSame(ctx, o.ctx, port, prefix)
            && HostsAt(o.ctx, port, prefix) == H.RemoveEach(HostsAt(ctx, port, prefix), hosts, children)
    decreases |hosts|
  {
    hide InTurns, HostsAt, RemoveHttpProxyHost, HasPrefix;
    if hosts != [] {
      if hosts[0] in children {
        TurnsRemoveAbsent(m, ctx, port, prefix, hosts[1..], children);
      } else {
        TurnsRemove(m.code, ctx, port, prefix, hosts[0]);
        var o := RemoveHttpProxyHost(m.code, true, ctx, port, prefix, hosts[0]);
        TurnsRemoveAbsent(m, o.ctx, port, prefix, hosts[1..], children);
        ElsewhereTwice(ctx, o.ctx, RemoveAbsent(m, ctx, port, prefix, hosts, children).ctx, port, prefix);
      }
    }
  }

  /** One removal in the shared array. */
  lemma LiveStep(code: Code, ctx: Context, port: int, prefix: string, children: set<string>, a: seq<string>, len: nat,
                 i: nat)
    requires InTurns(ctx, port, prefix) && i < |a| && len <= |a| && HostsAt(ctx, port, prefix) == a[..len]
    requires H.Departs(children, a[i])
    ensures var o := RemoveHttpProxyHost(code, true, ctx, port, prefix, a[i]);
            var b := if o.reply.Success? then Shifted(a, len, a[i]) else a;
            && !o.reply.Panicked? && InTurns(o.ctx, port, prefix) && ElsewhereSame(ctx, o.ctx, port, prefix)
            && b == H.NextArray(a, len, i, children)
            && HostsAt(o.ctx, port, prefix) == b[..H.NextLen(a, len, i, children)]
  {
    TurnsRemove(code, ctx, port, prefix, a[i]);
    LeaveEffect(code, ctx, port, prefix, a[i]);
    RemovalGuard(code, ctx, port, prefix, a[i]);
    if a[i] in a[..len] {
      H.ShiftedSlices(a, len, a[i]);
    }
    assert a[i] in a[..len] ==> ctx[port].mapping[prefix].Remove(code.hash, a[i]).Some? by {
      assert Coherent(ctx[port]);
    }
    hide InTurns, ElsewhereSame, RemoveHttpProxyHost, RemoveFirst, H.First;
  }

  /** The righted loop over the shared array leaves what HostReconcile says. */
  lemma {:induction false} TurnsRemoveLive(m: Manager, ctx: Context, port: int, prefix: string, children: set<string>,
                                           h: seq<string>, a: seq<string>, len: nat, i: nat, q: nat, s: seq<string>)
    requires m.righted && InTurns(ctx, port, prefix)
    requires H.Ranging(h, children, a, len, i, q, s) && HostsAt(ctx, port, prefix) == a[..len]
    ensures var o := RemoveLive(m, ctx, port, prefix, a, i, children);
            && o.reply.Success? && InTurns(o.ctx, port, prefix) && ElsewhereSame(ctx, o.ctx, port, prefix)
            && HostsAt(o.ctx, port, prefix) == H.LeftBehind(h, children)
    decreases |a| - i
  {
    hide InTurns, HostsAt, ElsewhereSame, HasPrefix, H.Ranging, H.LeftBehind, H.Behind, H.NextHost, H.NextArray,
         H.NextLen,
         RemoveHttpProxyHost, Shifted, H.ShiftedOut;
    RangingFits(h, children, a, len, i, q, s);
    if i >= |a| {
      H.RangeEnd(h, children, a, len, q, s);
      ElsewhereNothing(ctx, port, prefix);
    } else {
      H.RangeStep(h, children, a, len, i, q, s);
      var b, len' := H.NextArray(a, len, i, children), H.NextLen(a, len, i, children);
      var q', s' := H.NextHost(h, children, q), if q < |h| then H.Behind(h, children, q, s) else s;
      if a[i] in children {
        KeepStep(a, len, i, children);
        TurnsRemoveLive(m, ctx, port, prefix, children, h, b, len', i + 1, q', s');
      } else {
        LiveStep(m.code, ctx, port, prefix, children, a, len, i);
        var o := RemoveHttpProxyHost(m.code, true, ctx, port, prefix, a[i]);
        assert |HostsAt(ctx, port, prefix)| == len;
        TurnsRemoveLive(m, o.ctx, port, prefix, children, h, b, len', i + 1, q', s');
        ElsewhereTwice(ctx, o.ctx, RemoveLive(m, ctx, port, prefix, a, i, children).ctx, port, prefix);
      }
    }
  }

  lemma RangingFits(h: seq<string>, children: set<string>, a: seq<string>, len: nat, i: nat, q: nat, s: seq<string>)
    requires H.Ranging(h, children, a, len, i, q, s)
    ensures h != [] && |a| == |h| && i <= |a| && len <= |a|
  {
  }

  lemma ElsewhereNothing(ctx: Context, port: int, prefix: string)
    ensures ElsewhereSame(ctx, ctx, port, prefix)
  {
  }

  lemma KeepStep(a: seq<string>, len: nat, i: nat, children: set<string>)
    requires i < |a| && len <= |a| && a[i] in children
    ensures H.NextArray(a, len, i, children) == a && H.NextLen(a, len, i, children) == len
  {
  }

  /** What the removals of a pass leave: everything, through the committed guard. */
  function Cleared(m: Manager, hosts: seq<string>, children: set<string>): seq<string> {
    if !m.righted then hosts
    else if m.copies then H.RemoveEach(hosts, hosts, children)
    else H.LeftBehind(hosts, children)
  }

  lemma TurnsRemoveDeparted(m: Manager, ctx: Context, port: int, prefix: string, children: set<string>)
    requires InTurns(ctx, port, prefix)
    ensures var o := RemoveDeparted(m, ctx, port, prefix, children);
            && o.reply.Success? && InTurns(o.ctx, port, prefix) && ElsewhereSame(ctx, o.ctx, port, prefix)
            && HostsAt(o.ctx, port, prefix) == Cleared(m, HostsAt(ctx, port, prefix), children)
  {
    var h := HostsAt(ctx, port, prefix);
    if !m.righted {
      CommittedKeeps(m, ctx, port, prefix, children);
      ElsewhereNothing(ctx, port, prefix);
    } else if m.copies {
      TurnsRemoveAbsent(m, ctx, port, prefix, h, children);
    } else if h == [] {
      assert H.LeftBehind(h, children) == [];
      assert ElsewhereSame(ctx, ctx, port, prefix);
    } else {
      H.RangeStart(h, children);
      assert h[..|h|] == h;
      TurnsRemoveLive(m, ctx, port, prefix, children, h, h, |h|, 0, 0, []);
    }
    hide InTurns, ElsewhereSame, H.LeftBehind, H.RemoveEach, RemoveAbsent, RemoveLive, H.Ranging;
  }

  lemma OpenStays(m: Manager, ctx: Context, port: int)
    requires port in ctx
    ensures WithProxy(m, ctx, port) == ctx
  {
  }

  /** A pass of events over one service: the departed hosts go, the reported ones come. */
  lemma {:induction false} HandledPass(m: Manager, ctx: Context, port: int, service: string, children: seq<string>,
                                       added: seq<string>)
    requires InTurns(ctx, port, PrefixOf(service))
    ensures var was := HostsAt(ctx, port, PrefixOf(service));
            var r := HandledAll(m, ctx, port, [D.RemoveHosts(service, children)] + D.HostEvents(service, added));
            && r.Some? && InTurns(r.value, port, PrefixOf(service))
            && ElsewhereSame(ctx, r.value, port, PrefixOf(service))
            && HostsAt(r.value, port, PrefixOf(service)) == AddAllBack(Cleared(m, was, Members(children)), added)
    decreases |added|
  {
    var prefix, was := PrefixOf(service), HostsAt(ctx, port, PrefixOf(service));
    var first := [D.RemoveHosts(service, children)];
    if added == [] {
      assert first + D.HostEvents(service, added) == first;
      assert first[..0] == [] && HandledAll(m, ctx, port, []) == Some(ctx);
      assert port in ctx;
      TurnsRemoveDeparted(m, ctx, port, prefix, Members(children));
      hide InTurns, HostsAt, ElsewhereSame, RemoveDeparted, Cleared;
      assert HandledAll(m, ctx, port, first) == Some(Handled(m, ctx, port, first[0]).ctx);
    } else {
      var init, last := added[..|added| - 1], added[|added| - 1];
      var events := first + D.HostEvents(service, added);
      assert events[..|events| - 1] == first + D.HostEvents(service, init);
      assert events[|events| - 1] == D.AddHost(service, last);
      HandledPass(m, ctx, port, service, children, init);
      var mid := HandledAll(m, ctx, port, first + D.HostEvents(service, init)).value;
      assert port in mid;
      TurnsAdd(m.code, mid, port, prefix, last);
      OpenStays(m, mid, port);
      hide InTurns, HostsAt, ElsewhereSame, Cleared, AddHttpProxyHost, RoundRobin.Added, HasPrefix;
      ElsewhereTwice(ctx, mid, Handled(m, mid, port, events[|events| - 1]).ctx, port, prefix);
    }
  }

  /** AddAll, taking the last child last. */
  function AddAllBack(hosts: seq<string>, added: seq<string>): seq<string> {
    if added == [] then hosts else RoundRobin.Added(AddAllBack(hosts, added[..|added| - 1]), added[|added| - 1])
  }

  lemma {:induction false} AddAllEitherWay(hosts: seq<string>, added: seq<string>)
    ensures AddAllBack(hosts, added) == H.AddAll(hosts, added)
    decreases |added|
  {
    if |added| > 1 {
      var init, last := added[..|added| - 1], added[|added| - 1];
      AddAllEitherWay(hosts, init);
      AddAllEitherWay(RoundRobin.Added(hosts, added[0]), added[1..]);
      AddAllEitherWay(RoundRobin.Added(hosts, added[0]), init[1..]);
      assert added[1..][..|added| - 2] == init[1..];
    }
  }

  /**
   * Discovery to state: the events of one pass over a service's nodes, handled by the righted loop, take the service's
   * round-robin prefix to the pass's result, over a copy or over the shared array, and touch no other prefix.
   */
  lemma PassReachesState(m: Manager, ctx: Context, port: int, service: string, nodes: seq<D.Node>, order: seq<nat>,
                         lookup: D.Lookup)
    requires m.righted && InTurns(ctx, port, PrefixOf(service)) && D.RangesOver(order, nodes)
    ensures var was := HostsAt(ctx, port, PrefixOf(service));
            var r := HandledAll(m, ctx, port, D.PassEvents(service, nodes, order, lookup));
            && r.Some? && InTurns(r.value, port, PrefixOf(service))
            && ElsewhereSame(ctx, r.value, port, PrefixOf(service))
            && HostsAt(r.value, port, PrefixOf(service))
               == if m.copies then D.PassResult(was, lookup, nodes) else D.LivePassResult(was, lookup, nodes)
  {
    var was, added := HostsAt(ctx, port, PrefixOf(service)), D.HostsAdded(lookup, nodes);
    D.ChildrenAreReported(nodes, order);
    HandledPass(m, ctx, port, service, D.Children(nodes, order), added);
    AddAllEitherWay(Cleared(m, was, D.Reported(nodes)), added);
    hide InTurns, ElsewhereSame, HandledAll, AddAllBack, H.AddAll, H.RemoveEach, H.LeftBehind, D.HostsAdded,
         D.Children, D.Reported;
  }

  /**
   * With IPv4 nodes the prefix ends up with exactly the reported hosts: always over a copy of the list, and over the
   * shared array exactly when no departing host strays.
   */
  lemma PassSettlesHosts(m: Manager, ctx: Context, port: int, service: string, nodes: seq<D.Node>, order: seq<nat>,
                         lookup: D.Lookup)
    requires m.righted && InTurns(ctx, port, PrefixOf(service)) && D.RangesOver(order, nodes) && D.QuadsOnly(nodes)
    ensures var was := HostsAt(ctx, port, PrefixOf(service));
            var r := HandledAll(m, ctx, port, D.PassEvents(service, nodes, order, lookup));
            && r.Some?
            && (Members(HostsAt(r.value, port, PrefixOf(service))) == D.Reported(nodes)
                <==> m.copies || was == [] || !H.Strays(was, D.Reported(nodes), H.Scan(was, D.Reported(nodes), 0)))
  {
    PassReachesState(m, ctx, port, service, nodes, order, lookup);
    var was := HostsAt(ctx, port, PrefixOf(service));
    D.PassReconciles(was, lookup, nodes);
    D.LivePassReconciles(was, lookup, nodes);
    hide InTurns, ElsewhereSame, HandledAll, D.PassResult, D.LivePassResult, D.Reported, D.HostsAdded, H.Strays, H.Scan,
         D.PassEvents;
  }

  // ---------------------------------------------------------------- streams of events

  type Lists = map<string, seq<string>>

  /**
   * The port's prefixes are those of the known services, each round robin with exactly the known list. The proxy may
   * be missing as long as no service is known, if the loop creates it when needed.
   */
  ghost predicate Mirrors(m: Manager, ctx: Context, port: int, known: Lists) {
    && CoherentContext(ctx) && (port in ctx || (m.creates && known == map[]))
    && (forall k :: HasPrefix(ctx, port, k) ==> exists s :: s in known && k == PrefixOf(s))
    && (forall s :: s in known ==> MirrorsService(ctx, port, s, known[s]))
  }

  ghost predicate MirrorsService(ctx: Context, port: int, service: string, hosts: seq<string>) {
    && HasPrefix(ctx, port, PrefixOf(service)) && !OnRing(ctx, port, PrefixOf(service))
    && HostsAt(ctx, port, PrefixOf(service)) == hosts
  }

  lemma PrefixesDiffer(s: string, t: string)
    ensures PrefixOf(s) == PrefixOf(t) <==> s == t
  {
    assert PrefixOf(s)[1..] == s && PrefixOf(t)[1..] == t;
  }

  /** A change at the prefix of one service. */
  lemma MirrorsChanged(m: Manager, ctx: Context, next: Context, port: int, service: string, known: Lists)
    requires Mirrors(m, ctx, port, known) && CoherentContext(next) && port in next
    requires ElsewhereSame(ctx, next, port, PrefixOf(service))
    ensures !HasPrefix(next, port, PrefixOf(service)) ==> Mirrors(m, next, port, known - {service})
    ensures forall hosts ::
              MirrorsService(next, port, service, hosts) ==> Mirrors(m, next, port, known[service := hosts])
  {
    hide CoherentContext, HasPrefix, HostsAt, OnRing, PrefixOf;
    forall s
      ensures PrefixOf(s) == PrefixOf(service) <==> s == service
    {
      PrefixesDiffer(s, service);
    }
    forall s | s in known && s != service
      ensures MirrorsService(next, port, s, known[s])
    {
      assert MirrorsService(ctx, port, s, known[s]);
    }
  }

  lemma OpenedMirrors(m: Manager, ctx: Context, port: int, known: Lists)
    requires Mirrors(m, ctx, port, known)
    ensures var mid := WithProxy(m, ctx, port); port in mid && Mirrors(m, mid, port, known)
  {
    OpenedIs(m.code, ctx, port);
    hide CoherentContext, HasPrefix, HostsAt, OnRing, PrefixOf, Opened;
    var mid := WithProxy(m, ctx, port);
    if port in ctx {
      OpenStays(m, ctx, port);
    }
  }

  /** What an event makes of the known lists. */
  function Kept(m: Manager, known: Lists, e: D.Event): Lists {
    match e
    case AddService(service) => if service in known then known else known[service := []]
    case RemoveService(service) => known - {service}
    case AddHost(service, host) =>
      if service in known then known[service := RoundRobin.Added(known[service], host)] else known
    case RemoveHosts(service, children) =>
      if service in known then known[service := Cleared(m, known[service], Members(children))] else known
  }

  function KeptAll(m: Manager, known: Lists, events: seq<D.Event>): Lists {
    if events == [] then known else Kept(m, KeptAll(m, known, events[..|events| - 1]), events[|events| - 1])
  }

  /** The lists are those of the services a consumer is told of. */
  lemma {:induction false} KeptAreTold(m: Manager, known: Lists, events: seq<D.Event>)
    ensures KeptAll(m, known, events).Keys == D.Told(known.Keys, events)
  {
    hide RoundRobin.Added, Cleared;
    if events != [] {
      KeptAreTold(m, known, events[..|events| - 1]);
    }
  }

  lemma AddServiceMirrors(m: Manager, ctx: Context, port: int, known: Lists, service: string)
    requires Mirrors(m, ctx, port, known)
    ensures var o := Handled(m, ctx, port, D.AddService(service));
            !o.reply.Panicked? && port in o.ctx && Mirrors(m, o.ctx, port, Kept(m, known, D.AddService(service)))
  {
    OpenedMirrors(m, ctx, port, known);
    var mid, prefix := WithProxy(m, ctx, port), PrefixOf(service);
    if HasPrefix(mid, port, prefix) {
      var s :| s in known && prefix == PrefixOf(s);
      PrefixesDiffer(s, service);
      hide Mirrors;
    } else {
      assert service !in known by { assert service in known ==> MirrorsService(mid, port, service, known[service]); }
      NewEffect(m.code, mid, port, prefix, ROUND_ROBIN, [], false);
      var o := AddHttpProxyPrefix(m.code, mid, port, prefix, ROUND_ROBIN, [], false);
      assert MirrorsService(o.ctx, port, service, []);
      assert port in o.ctx;
      MirrorsChanged(m, mid, o.ctx, port, service, known);
      hide Mirrors, ElsewhereSame, CoherentContext, Submit;
    }
  }

  lemma RemoveServiceMirrors(m: Manager, ctx: Context, port: int, known: Lists, service: string)
    requires Mirrors(m, ctx, port, known)
    ensures var o := Handled(m, ctx, port, D.RemoveService(service));
            && !o.reply.Panicked? && (port in o.ctx <==> port in ctx)
            && Mirrors(m, o.ctx, port, Kept(m, known, D.RemoveService(service)))
  {
    var prefix := PrefixOf(service);
    if HasPrefix(ctx, port, prefix) {
      DropEffect(m.code, ctx, port, prefix);
      var o := RemoveHttpProxyPrefix(m.code, ctx, port, prefix);
      assert port in o.ctx;
      MirrorsChanged(m, ctx, o.ctx, port, service, known);
    } else {
      assert service !in known by { assert service in known ==> MirrorsService(ctx, port, service, known[service]); }
      assert known - {service} == known;
    }
    hide Mirrors, ElsewhereSame, CoherentContext, Submit;
  }

  /** A host for a prefix that is not there is a panic, however the manager runs. */
  lemma HostWithoutPrefixPanics(m: Manager, ctx: Context, port: int, service: string, host: string)
    requires CoherentContext(ctx) && port in ctx && !HasPrefix(ctx, port, PrefixOf(service))
    ensures Handled(m, ctx, port, D.AddHost(service, host)).reply.Panicked?
  {
    OpenStays(m, ctx, port);
    assert Coherent(ctx[port]);
    hide CoherentContext, Coherent;
  }

  /** A host is added without panic exactly when its service is known. */
  lemma AddHostMirrors(m: Manager, ctx: Context, port: int, known: Lists, service: string, host: string)
    requires Mirrors(m, ctx, port, known)
    ensures var o := Handled(m, ctx, port, D.AddHost(service, host));
            && (o.reply.Panicked? <==> service !in known)
            && (service in known ==> port in o.ctx && Mirrors(m, o.ctx, port, Kept(m, known, D.AddHost(service, host))))
  {
    var prefix := PrefixOf(service);
    OpenedMirrors(m, ctx, port, known);
    var mid := WithProxy(m, ctx, port);
    OpenStays(m, mid, port);
    if service in known {
      assert MirrorsService(mid, port, service, known[service]);
      TurnsAdd(m.code, mid, port, prefix, host);
      var o := AddHttpProxyHost(m.code, mid, port, prefix, host);
      assert port in o.ctx && MirrorsService(o.ctx, port, service, RoundRobin.Added(known[service], host));
      hide AddHttpProxyHost, ElsewhereSame, RoundRobin.Added;
      MirrorsChanged(m, mid, o.ctx, port, service, known);
    } else {
      assert !HasPrefix(mid, port, prefix) by {
        if HasPrefix(mid, port, prefix) {
          var s :| s in known && prefix == PrefixOf(s);
          PrefixesDiffer(s, service);
        }
      }
      HostWithoutPrefixPanics(m, mid, port, service, host);
      hide AddHttpProxyHost, Mirrors;
    }
  }

  /** Departed hosts are removed without panic exactly when there is a proxy. */
  lemma RemoveHostsMirrors(m: Manager, ctx: Context, port: int, known: Lists, service: string, children: seq<string>)
    requires Mirrors(m, ctx, port, known)
    ensures var o := Handled(m, ctx, port, D.RemoveHosts(service, children));
            && (o.reply.Panicked? <==> port !in ctx)
            && (port in ctx ==>
                  port in o.ctx && Mirrors(m, o.ctx, port, Kept(m, known, D.RemoveHosts(service, children))))
  {
    var prefix := PrefixOf(service);
    if port in ctx {
      if service in known {
        assert MirrorsService(ctx, port, service, known[service]);
        TurnsRemoveDeparted(m, ctx, port, prefix, Members(children));
        var o := RemoveDeparted(m, ctx, port, prefix, Members(children));
        assert port in o.ctx && MirrorsService(o.ctx, port, service, Cleared(m, known[service], Members(children)));
        hide RemoveDeparted, ElsewhereSame, Cleared;
        MirrorsChanged(m, ctx, o.ctx, port, service, known);
      } else {
        assert !HasPrefix(ctx, port, prefix) by {
          if HasPrefix(ctx, port, prefix) {
            var s :| s in known && prefix == PrefixOf(s);
            PrefixesDiffer(s, service);
          }
        }
        assert HostsAt(ctx, port, prefix) == [];
        hide Mirrors;
      }
    }
  }

  /**
   * Event `i` comes when it can be handled: a host while its service is announced, departed hosts not before there is
   * a proxy, which is made for the first service.
   */
  ghost predicate Timely(view: set<string>, present: bool, events: seq<D.Event>, i: nat)
    requires i < |events|
  {
    match events[i]
    case AddHost(service, _) => service in D.Told(view, events[..i])
    case RemoveHosts(_, _) => HasProxy(present, events[..i])
    case _ => true
  }

  predicate HasProxy(present: bool, events: seq<D.Event>) { present || exists e :: e in events && e.AddService? }

  ghost predicate AllTimely(view: set<string>, present: bool, events: seq<D.Event>) {
    forall i: nat :: i < |events| ==> Timely(view, present, events, i)
  }

  lemma TimelyNext(view: set<string>, present: bool, events: seq<D.Event>)
    requires events != []
    ensures AllTimely(view, present, events)
       <==> AllTimely(view, present, events[..|events| - 1]) && Timely(view, present, events, |events| - 1)
  {
    var init := events[..|events| - 1];
    forall i: nat | i < |init|
      ensures Timely(view, present, init, i) <==> Timely(view, present, events, i)
    {
      assert init[..i] == events[..i];
    }
    hide Timely;
  }

  lemma EventMirrors(m: Manager, ctx: Context, port: int, known: Lists, e: D.Event)
    requires Mirrors(m, ctx, port, known)
    ensures var o := Handled(m, ctx, port, e);
            && (o.reply.Panicked?
                <==> if e.AddHost? then e.service !in known else if e.RemoveHosts? then port !in ctx else false)
            && (!o.reply.Panicked? ==>
                  && Mirrors(m, o.ctx, port, Kept(m, known, e))
                  && (port in o.ctx <==> port in ctx || e.AddService? || e.AddHost?))
  {
    hide Mirrors, Handled, Kept;
    match e {
      case AddService(service) => AddServiceMirrors(m, ctx, port, known, service);
      case RemoveService(service) => RemoveServiceMirrors(m, ctx, port, known, service);
      case AddHost(service, host) => AddHostMirrors(m, ctx, port, known, service, host);
      case RemoveHosts(service, children) => RemoveHostsMirrors(m, ctx, port, known, service, children);
    }
  }

  lemma MissingIsUnknown(m: Manager, ctx: Context, port: int, known: Lists)
    requires Mirrors(m, ctx, port, known)
    ensures known != map[] ==> port in ctx
  {
  }

  /**
   * Over every stream of events, from however many senders and in whatever order: the loop gets through without panic
   * exactly when every event is timely, and then the port's prefixes are exactly the announced services, each with the
   * list that its events add up to.
   */
  lemma {:induction false} StreamMirrors(m: Manager, ctx: Context, port: int, known: Lists, events: seq<D.Event>)
    requires Mirrors(m, ctx, port, known)
    ensures var r := HandledAll(m, ctx, port, events);
            && (r.Some? <==> AllTimely(known.Keys, port in ctx, events))
            && (r.Some? ==> && Mirrors(m, r.value, port, KeptAll(m, known, events))
                            && (port in r.value <==> HasProxy(port in ctx, events)))
  {
    hide Mirrors, Handled, Kept, AllTimely;
    if events == [] {
      assert AllTimely(known.Keys, port in ctx, events) by { NothingUntimely(known.Keys, port in ctx); }
    } else {
      var init, e := events[..|events| - 1], events[|events| - 1];
      assert events == init + [e];
      StreamMirrors(m, ctx, port, known, init);
      TimelyNext(known.Keys, port in ctx, events);
      KeptAreTold(m, known, init);
      if HandledAll(m, ctx, port, init).Some? {
        var mid := HandledAll(m, ctx, port, init).value;
        EventMirrors(m, mid, port, KeptAll(m, known, init), e);
        MissingIsUnknown(m, mid, port, KeptAll(m, known, init));
      }
    }
  }

  lemma NothingUntimely(view: set<string>, present: bool)
    ensures AllTimely(view, present, [])
  {
  }

  /** A round's events make the port's prefixes those that discovery has in view after it. */
  lemma RoundMirrors(m: Manager, ctx: Context, port: int, known: Lists, w: D.World, cur: set<string>,
                     lastOrder: seq<string>, curOrder: seq<string>)
    requires Mirrors(m, ctx, port, known) && known.Keys == w.view && D.Observe(w, cur).Some?
    requires Enumerates(lastOrder, w.services) && Enumerates(curOrder, cur)
    ensures var events := D.RoundEvents(lastOrder, curOrder, cur, w.shutdown.Keys);
            var r := HandledAll(m, ctx, port, events);
            && r.Some? && Mirrors(m, r.value, port, KeptAll(m, known, events))
            && KeptAll(m, known, events).Keys == D.Observe(w, cur).value.view
  {
    hide Mirrors, HandledAll, KeptAll, D.Outside, D.Told, D.Observe;
    var events := D.RoundEvents(lastOrder, curOrder, cur, w.shutdown.Keys);
    StreamMirrors(m, ctx, port, known, events);
    KeptAreTold(m, known, events);
    D.EventsTell(w, cur, lastOrder, curOrder);
    assert forall i: nat :: i < |events| ==> events[i].AddService? || events[i].RemoveService?;
    hide D.RoundEvents;
  }

  /** A watcher that is still sending when its service has been reported gone makes the gateway panic. */
  lemma LateHostPanics(m: Manager, ctx: Context, port: int, known: Lists, service: string, children: seq<string>,
                       first: string, second: string)
    requires Mirrors(m, ctx, port, known)
    ensures HandledAll(m, ctx, port, [D.RemoveHosts(service, children), D.AddHost(service, first),
                                      D.RemoveService(service), D.AddHost(service, second)]).None?
  {
    hide Mirrors, HandledAll;
    var events := [D.RemoveHosts(service, children), D.AddHost(service, first), D.RemoveService(service),
                   D.AddHost(service, second)];
    StreamMirrors(m, ctx, port, known, events);
    assert events[..3][2] == D.RemoveService(service);
    assert !Timely(known.Keys, port in ctx, events, 3);
  }

  /** It holds at the start: no services, and no prefixes or no proxy at the port. */
  lemma MirrorsAtStart(m: Manager, ctx: Context, port: int)
    requires CoherentContext(ctx) && if port in ctx then ctx[port].paths == map[] else m.creates
    ensures Mirrors(m, ctx, port, map[])
  {
    hide CoherentContext;
  }
}
