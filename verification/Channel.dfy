/**
 * Service discovery's goroutines and the manager's loop, joined by an unbuffered channel (discovery/zookeeper_client.go
 * :109-235, vermouth/context.go:225, vermouth/vermouth_state_manager.go:219-266): the observer of the services and the
 * watcher of each service send their events one at a time, in any interleaving.
 */
module Channel {
  import opened Text
  import opened Gateway
  import opened Namespace
  import D = Discovery
  import H = HostReconcile
  import RoundRobin

  // ---------------------------------------------------------------- the events of one service

  function About(events: seq<D.Event>, service: string): seq<D.Event> {
    if events == [] then []
    else
      var last := events[|events| - 1];
      About(events[..|events| - 1], service) + if last.service == service then [last] else []
  }

  function At(known: Lists, service: string): Option<seq<string>> {
    if service in known then Some(known[service]) else None
  }

  /** What an event about its service makes of the list there; None is no prefix. */
  function KeptOne(m: Manager, list: Option<seq<string>>, e: D.Event): Option<seq<string>> {
    match e
    case AddService(_) => if list.Some? then list else Some([])
    case RemoveService(_) => None
    case AddHost(_, host) => if list.Some? then Some(RoundRobin.Added(list.value, host)) else None
    case RemoveHosts(_, children) => if list.Some? then Some(Cleared(m, list.value, Members(children))) else None
  }

  function KeptAt(m: Manager, list: Option<seq<string>>, events: seq<D.Event>): Option<seq<string>> {
    if events == [] then list else KeptOne(m, KeptAt(m, list, events[..|events| - 1]), events[|events| - 1])
  }

  /** The list at a service depends on the events about it alone. */
  lemma {:induction false} KeptPerService(m: Manager, known: Lists, events: seq<D.Event>, service: string)
    ensures At(KeptAll(m, known, events), service) == KeptAt(m, At(known, service), About(events, service))
  {
    hide RoundRobin.Added, Cleared;
    if events != [] {
      var init, last := events[..|events| - 1], events[|events| - 1];
      KeptPerService(m, known, init, service);
      var about := About(events, service);
      if last.service == service {
        assert about[..|about| - 1] == About(init, service);
      } else {
        assert about == About(init, service);
      }
    }
  }

  /** Streams that agree on every service lead to the same lists, however the services' events are interleaved. */
  lemma InterleavingsAgree(m: Manager, known: Lists, a: seq<D.Event>, b: seq<D.Event>)
    requires forall s :: About(a, s) == About(b, s)
    ensures KeptAll(m, known, a) == KeptAll(m, known, b)
  {
    hide KeptAll, KeptAt, About;
    var x, y := KeptAll(m, known, a), KeptAll(m, known, b);
    forall s
      ensures At(x, s) == At(y, s)
    {
      assert About(a, s) == About(b, s);
      KeptPerService(m, known, a, s);
      KeptPerService(m, known, b, s);
    }
    assert forall s :: (s in x <==> s in y) && (s in x ==> x[s] == y[s]) by {
      forall s
        ensures (s in x <==> s in y) && (s in x ==> x[s] == y[s])
      {
        assert At(x, s) == At(y, s);
      }
    }
  }

  lemma {:induction false} KeptBoth(m: Manager, list: Option<seq<string>>, a: seq<D.Event>, b: seq<D.Event>)
    ensures KeptAt(m, list, a + b) == KeptAt(m, KeptAt(m, list, a), b)
  {
    hide KeptOne;
    if b == [] {
      assert a + b == a;
    } else {
      assert (a + b)[..|a + b| - 1] == a + b[..|b| - 1];
      KeptBoth(m, list, a, b[..|b| - 1]);
    }
  }

  lemma {:induction false} HostsKept(m: Manager, list: seq<string>, service: string, hosts: seq<string>)
    ensures KeptAt(m, Some(list), D.HostEvents(service, hosts)) == Some(AddAllBack(list, hosts))
  {
    hide RoundRobin.Added, Cleared;
    if hosts != [] {
      assert D.HostEvents(service, hosts)[..|hosts| - 1] == D.HostEvents(service, hosts[..|hosts| - 1]);
      HostsKept(m, list, service, hosts[..|hosts| - 1]);
    }
  }

  /** What a pass makes of a list. */
  function Passed(m: Manager, list: seq<string>, nodes: seq<D.Node>, lookup: D.Lookup): seq<string> {
    H.AddAll(Cleared(m, list, D.Reported(nodes)), D.HostsAdded(lookup, nodes))
  }

  lemma PassKept(m: Manager, list: seq<string>, service: string, nodes: seq<D.Node>, order: seq<nat>, lookup: D.Lookup)
    requires D.RangesOver(order, nodes)
    ensures KeptAt(m, Some(list), D.PassEvents(service, nodes, order, lookup)) == Some(Passed(m, list, nodes, lookup))
  {
    hide D.Children, D.HostEvents, D.HostsAdded, AddAllBack, H.AddAll, H.RemoveEach, H.LeftBehind, D.Reported;
    var first, added := [D.RemoveHosts(service, D.Children(nodes, order))], D.HostsAdded(lookup, nodes);
    D.ChildrenAreReported(nodes, order);
    var cleared := Cleared(m, list, D.Reported(nodes));
    assert first[..0] == [] && KeptAt(m, Some(list), first) == Some(cleared);
    KeptBoth(m, Some(list), first, D.HostEvents(service, added));
    HostsKept(m, cleared, service, added);
    AddAllEitherWay(cleared, added);
  }

  /**
   * Whether a departing host stays: any through the committed guard, one that strays from the loop over the shared
   * array, none over a copy.
   */
  ghost predicate Sticks(m: Manager, list: seq<string>, nodes: seq<D.Node>) {
    if !m.righted then !(Members(list) <= D.Reported(nodes))
    else !m.copies && list != [] && H.Strays(list, D.Reported(nodes), H.Scan(list, D.Reported(nodes), 0))
  }

  lemma PassedIs(m: Manager, list: seq<string>, nodes: seq<D.Node>, lookup: D.Lookup)
    requires D.QuadsOnly(nodes)
    ensures Members(Passed(m, list, nodes, lookup)) == D.Reported(nodes) <==> !Sticks(m, list, nodes)
  {
    hide D.QuadsOnly, H.Strays, H.Scan, D.Reported, H.AddAll, H.RemoveEach, H.LeftBehind, D.HostsAdded;
    if m.righted {
      D.PassReconciles(list, lookup, nodes);
      D.LivePassReconciles(list, lookup, nodes);
    } else {
      D.QuadsAreAdded(lookup, nodes);
      H.AddAllMembers(list, D.HostsAdded(lookup, nodes));
      assert Members(Passed(m, list, nodes, lookup)) == Members(list) + D.Reported(nodes) by {
        assert forall x :: x in D.HostsAdded(lookup, nodes) <==> x in Members(D.HostsAdded(lookup, nodes));
      }
    }
  }

  // ---------------------------------------------------------------- the goroutines

  /**
   * Where the observer of the services is: waiting for a notification, at the first of the departed services, whose
   * watcher it may have cancelled, at the first of the observed ones, for which it may have set up a watcher, or gone
   * with a nil cancel function.
   */
  datatype Observer =
    | Waiting
    | Dropping(gone: seq<string>, cancelled: bool, cur: set<string>, order: seq<string>)
    | Watching(todo: seq<string>, watched: bool, cur: set<string>)
    | Crashed

  /** What a watcher has read for its latest pass, and what had been received by then. */
  datatype Reading = Reading(before: seq<D.Event>, nodes: seq<D.Node>, order: seq<nat>)

  /** `shutdown[s]`: whether the watcher of `s` is cancelled. `pending`: what each running watcher has yet to send. */
  datatype Net = Net(
    services: set<string>,
    shutdown: map<string, bool>,
    observer: Observer,
    pending: map<string, seq<D.Event>>,
    read: map<string, Reading>,
    sent: seq<D.Event>)

  const START := Net({}, map[], Waiting, map[], map[], [])

  datatype Step =
    | Look(cur: set<string>, lastOrder: seq<string>, curOrder: seq<string>)
    | Go
    | Pass(service: string, nodes: seq<D.Node>, order: seq<nat>)
    | Tell(service: string)
    | Leave(service: string)

  /** The observer's next step: the loops of watchServices, with a pause at each send. */
  function Gone(n: Net): Net {
    match n.observer
    case Waiting => n
    case Crashed => n
    case Dropping(gone, cancelled, cur, order) =>
      if gone == [] then n.(observer := Watching(order, false, cur))
      else if cancelled then
        n.(observer := Dropping(gone[1..], false, cur, order), sent := n.sent + [D.RemoveService(gone[0])])
      else if gone[0] !in n.shutdown then n.(observer := Crashed)
      else n.(observer := Dropping(gone, true, cur, order), shutdown := n.shutdown[gone[0] := true])
    case Watching(todo, watched, cur) =>
      if todo == [] then n.(observer := Waiting, services := cur)
      else if watched then
        n.(observer := Watching(todo[1..], false, cur), sent := n.sent + [D.AddService(todo[0])],
           pending := n.pending[todo[0] := []], read := n.read - {todo[0]})
      else if todo[0] in n.shutdown then n.(observer := Watching(todo[1..], false, cur))
      else n.(observer := Watching(todo, true, cur), shutdown := n.shutdown[todo[0] := false])
  }

  /** Whether the step can be taken. */
  ghost predicate Enabled(n: Net, step: Step) {
    match step
    case Look(cur, lastOrder, curOrder) =>
      n.observer.Waiting? && Enumerates(lastOrder, n.services) && Enumerates(curOrder, cur)
    case Go => !n.observer.Waiting? && !n.observer.Crashed?
    case Pass(s, nodes, order) => s in n.pending && n.pending[s] == [] && D.RangesOver(order, nodes)
    case Tell(s) => s in n.pending && n.pending[s] != []
    case Leave(s) => s in n.pending && n.pending[s] == [] && s in n.shutdown && n.shutdown[s]
  }

  /** A step; one that cannot be taken changes nothing. */
  ghost function Next(n: Net, lookup: D.Lookup, step: Step): Net {
    if !Enabled(n, step) then n
    else
      match step
      case Look(cur, lastOrder, curOrder) =>
        n.(observer := Dropping(D.Outside(lastOrder, cur), false, cur, curOrder))
      case Go => Gone(n)
      case Pass(s, nodes, order) =>
        n.(pending := n.pending[s := D.PassEvents(s, nodes, order, lookup)],
           read := n.read[s := Reading(n.sent, nodes, order)])
      case Tell(s) => n.(pending := n.pending[s := n.pending[s][1..]], sent := n.sent + [n.pending[s][0]])
      case Leave(s) => n.(shutdown := n.shutdown - {s}, pending := n.pending - {s}, read := n.read - {s})
  }

  ghost function Run(n: Net, lookup: D.Lookup, steps: seq<Step>): Net
    decreases |steps|
  {
    if steps == [] then n else Run(Next(n, lookup, steps[0]), lookup, steps[1..])
  }

  // ---------------------------------------------------------------- what every interleaving keeps

  predicate HostEvent(e: D.Event, service: string) { (e.AddHost? || e.RemoveHosts?) && e.service == service }

  /** A running watcher has its entry, speaks of its own service, and is announced unless it has been cancelled. */
  ghost predicate WatcherOk(n: Net, s: string)
    requires s in n.pending
  {
    && s in n.shutdown && (!n.shutdown[s] ==> s in D.Told({}, n.sent)) && HasProxy(false, n.sent)
    && forall e :: e in n.pending[s] ==> HostEvent(e, s)
  }

  /**
   * Unless the watcher has been cancelled, what has been sent about its service since it read, and what is pending,
   * are the events of one pass.
   */
  ghost predicate MidPass(n: Net, lookup: D.Lookup, s: string)
    requires s in n.pending && s in n.read && s in n.shutdown
  {
    var r := n.read[s];
    !n.shutdown[s] ==>
      && D.RangesOver(r.order, r.nodes) && s in D.Told({}, r.before)
      && About(n.sent, s) + n.pending[s] == About(r.before, s) + D.PassEvents(s, r.nodes, r.order, lookup)
  }

  ghost predicate ServiceOk(n: Net, lookup: D.Lookup, s: string) {
    && (s in n.pending ==> WatcherOk(n, s))
    && (s in n.read ==> s in n.pending && s in n.shutdown && MidPass(n, lookup, s))
  }

  ghost predicate ObserverOk(n: Net) {
    match n.observer
    case Dropping(gone, true, _, _) => gone != [] && (gone[0] in n.shutdown ==> n.shutdown[gone[0]])
    case Watching(todo, true, _) =>
      todo != [] && todo[0] in n.shutdown && !n.shutdown[todo[0]] && todo[0] !in n.pending
    case _ => true
  }

  ghost predicate Sound(n: Net, lookup: D.Lookup) {
    ObserverOk(n) && forall s :: ServiceOk(n, lookup, s)
  }

  lemma OneMore(sent: seq<D.Event>, e: D.Event, s: string)
    ensures About(sent + [e], s) == About(sent, s) + if e.service == s then [e] else []
    ensures s in D.Told({}, sent + [e])
       <==> if e.service != s || !(e.AddService? || e.RemoveService?) then s in D.Told({}, sent) else e.AddService?
    ensures HasProxy(false, sent) || e.AddService? ==> HasProxy(false, sent + [e])
  {
    assert (sent + [e])[..|sent|] == sent;
    assert e in sent + [e];
    assert forall x :: x in sent ==> x in sent + [e];
  }

  predicate Cancelled(n: Net, s: string) { s in n.shutdown && n.shutdown[s] }

  /** A step that leaves a service alone, unless its watcher is cancelled or it has no entry. */
  lemma ServiceSame(n: Net, next: Net, lookup: D.Lookup, s: string)
    requires ServiceOk(n, lookup, s)
    requires s in next.pending <==> s in n.pending
    requires s in n.pending ==> next.pending[s] == n.pending[s]
    requires s in next.read <==> s in n.read
    requires s in n.read ==> next.read[s] == n.read[s]
    requires s in n.shutdown ==> s in next.shutdown && (!next.shutdown[s] ==> !n.shutdown[s])
    requires HasProxy(false, n.sent) ==> HasProxy(false, next.sent)
    requires Cancelled(next, s) || s !in n.shutdown
             || (About(next.sent, s) == About(n.sent, s) && (s in D.Told({}, n.sent) ==> s in D.Told({}, next.sent)))
    ensures ServiceOk(next, lookup, s)
  {
    hide D.PassEvents, About, D.Told, HasProxy, HostEvent, D.RangesOver;
  }

  lemma DropKeeps(n: Net, lookup: D.Lookup, s: string)
    requires Sound(n, lookup) && n.observer.Dropping?
    ensures ServiceOk(Gone(n), lookup, s) && ObserverOk(Gone(n))
  {
    hide About, D.Told, HasProxy;
    assert ServiceOk(n, lookup, s);
    if n.observer.gone != [] {
      OneMore(n.sent, D.RemoveService(n.observer.gone[0]), s);
    }
    hide ServiceOk;
    ServiceSame(n, Gone(n), lookup, s);
  }

  lemma WatchKeeps(n: Net, lookup: D.Lookup, s: string)
    requires Sound(n, lookup) && n.observer.Watching?
    ensures ServiceOk(Gone(n), lookup, s) && ObserverOk(Gone(n))
  {
    hide About, D.Told, HasProxy, MidPass;
    var todo, watched := n.observer.todo, n.observer.watched;
    assert ServiceOk(n, lookup, s);
    if todo == [] {
      hide ServiceOk;
      ServiceSame(n, Gone(n), lookup, s);
    } else {
      OneMore(n.sent, D.AddService(todo[0]), s);
      assert ServiceOk(n, lookup, todo[0]);
      if !watched || s != todo[0] {
        ServiceSame(n, Gone(n), lookup, s);
      }
    }
  }

  lemma GoKeeps(n: Net, lookup: D.Lookup)
    requires Sound(n, lookup)
    ensures Sound(Gone(n), lookup)
  {
    hide ServiceOk, ObserverOk;
    forall s
      ensures ServiceOk(Gone(n), lookup, s) && ObserverOk(Gone(n))
    {
      if n.observer.Dropping? {
        DropKeeps(n, lookup, s);
      } else if n.observer.Watching? {
        WatchKeeps(n, lookup, s);
      }
    }
    assert ServiceOk(Gone(n), lookup, "") && ObserverOk(Gone(n));
  }

  lemma PassStarts(n: Net, lookup: D.Lookup, step: Step, s: string)
    requires Sound(n, lookup) && step.Pass? && Enabled(n, step)
    ensures ServiceOk(Next(n, lookup, step), lookup, s)
  {
    hide About, D.Told, HasProxy, D.RangesOver, D.Children, D.HostsAdded;
    assert ServiceOk(n, lookup, s);
    if s != step.service {
      ServiceSame(n, Next(n, lookup, step), lookup, s);
    } else {
      assert About(n.sent, s) + D.PassEvents(s, step.nodes, step.order, lookup)
          == About(n.sent, s) + D.PassEvents(s, step.nodes, step.order, lookup);
    }
  }

  lemma TellKeeps(n: Net, lookup: D.Lookup, t: string, s: string)
    requires Sound(n, lookup) && Enabled(n, Tell(t))
    ensures ServiceOk(Next(n, lookup, Tell(t)), lookup, s)
  {
    hide About, D.Told, HasProxy, D.RangesOver, D.PassEvents;
    assert ServiceOk(n, lookup, s) && ServiceOk(n, lookup, t);
    var e, next := n.pending[t][0], Next(n, lookup, Tell(t));
    assert e in n.pending[t] && HostEvent(e, t);
    OneMore(n.sent, e, s);
    if s != t {
      ServiceSame(n, next, lookup, s);
    } else {
      assert forall x :: x in next.pending[s] ==> x in n.pending[s];
      assert About(next.sent, s) + next.pending[s] == About(n.sent, s) + n.pending[s];
    }
  }

  lemma LeaveKeeps(n: Net, lookup: D.Lookup, t: string, s: string)
    requires Sound(n, lookup) && Enabled(n, Leave(t))
    ensures ServiceOk(Next(n, lookup, Leave(t)), lookup, s)
  {
    hide About, D.Told, HasProxy, MidPass;
    assert ServiceOk(n, lookup, s);
    if s != t {
      ServiceSame(n, Next(n, lookup, Leave(t)), lookup, s);
    }
  }

  lemma StepKeeps(n: Net, lookup: D.Lookup, step: Step)
    requires Sound(n, lookup)
    ensures Sound(Next(n, lookup, step), lookup)
  {
    hide ServiceOk, Enabled, Gone, D.PassEvents, D.Outside;
    var next := Next(n, lookup, step);
    if Enabled(n, step) {
      match step {
        case Go => GoKeeps(n, lookup);
        case _ =>
          assert ObserverOk(next) by { ObserverStays(n, lookup, step); }
          forall s
            ensures ServiceOk(next, lookup, s)
          {
            assert ServiceOk(n, lookup, s);
            match step {
              case Look(_, _, _) => ServiceSame(n, next, lookup, s);
              case Pass(_, _, _) => PassStarts(n, lookup, step, s);
              case Tell(t) => TellKeeps(n, lookup, t, s);
              case Leave(t) => LeaveKeeps(n, lookup, t, s);
            }
          }
      }
    }
  }

  lemma ObserverStays(n: Net, lookup: D.Lookup, step: Step)
    requires Sound(n, lookup) && !step.Go?
    ensures ObserverOk(Next(n, lookup, step))
  {
    hide D.PassEvents, D.Outside, ServiceOk;
  }

  lemma {:induction false} RunKeeps(n: Net, lookup: D.Lookup, steps: seq<Step>)
    requires Sound(n, lookup)
    ensures Sound(Run(n, lookup, steps), lookup)
    decreases |steps|
  {
    hide Sound, Next;
    if steps != [] {
      StepKeeps(n, lookup, steps[0]);
      RunKeeps(Next(n, lookup, steps[0]), lookup, steps[1..]);
    }
  }

  lemma StartIsSound(lookup: D.Lookup)
    ensures Sound(START, lookup)
  {
  }

  // ---------------------------------------------------------------- when the gateway survives

  /** A watcher sends a host of a service that is not announced. */
  ghost predicate Late(n: Net, step: Step) {
    step.Tell? && Enabled(n, step) && n.pending[step.service][0].AddHost? && step.service !in D.Told({}, n.sent)
  }

  ghost predicate OnTime(n: Net, lookup: D.Lookup, steps: seq<Step>)
    decreases |steps|
  {
    steps == [] || (!Late(n, steps[0]) && OnTime(Next(n, lookup, steps[0]), lookup, steps[1..]))
  }

  /** Only a cancelled watcher is ever late. */
  lemma LateIsCancelled(n: Net, lookup: D.Lookup, step: Step)
    requires Sound(n, lookup) && Late(n, step)
    ensures Cancelled(n, step.service)
  {
    hide D.Told, HasProxy;
    assert ServiceOk(n, lookup, step.service);
  }

  lemma {:induction false} TimelyBefore(view: set<string>, present: bool, a: seq<D.Event>, b: seq<D.Event>)
    requires a <= b && AllTimely(view, present, b)
    ensures AllTimely(view, present, a)
    decreases |b| - |a|
  {
    hide AllTimely;
    if |a| == |b| {
      assert a == b;
    } else {
      assert a <= b[..|b| - 1];
      TimelyNext(view, present, b);
      TimelyBefore(view, present, a, b[..|b| - 1]);
    }
  }

  lemma {:induction false} SentStays(n: Net, lookup: D.Lookup, steps: seq<Step>)
    ensures n.sent <= Run(n, lookup, steps).sent
    decreases |steps|
  {
    hide Enabled, D.PassEvents, D.Outside;
    if steps != [] {
      assert n.sent <= Next(n, lookup, steps[0]).sent;
      hide Next;
      SentStays(Next(n, lookup, steps[0]), lookup, steps[1..]);
    }
  }

  /** A step sends one event or none; only an event a watcher sends can come at the wrong time. */
  lemma SendsOne(n: Net, lookup: D.Lookup, present: bool, step: Step)
    requires Sound(n, lookup)
    ensures var next := Next(n, lookup, step);
            if |next.sent| == |n.sent| then next.sent == n.sent && !Late(n, step)
            else next.sent != [] && next.sent[..|next.sent| - 1] == n.sent
                 && (Timely({}, present, next.sent, |next.sent| - 1) <==> !Late(n, step))
  {
    hide D.Told, D.PassEvents, D.Outside, Sound, Timely, Gone;
    if step.Tell? && Enabled(n, step) {
      TellSends(n, lookup, present, step.service);
    } else if step.Go? && Enabled(n, step) {
      GoSends(n, present);
    }
  }

  lemma TellSends(n: Net, lookup: D.Lookup, present: bool, s: string)
    requires Sound(n, lookup) && Enabled(n, Tell(s))
    ensures Timely({}, present, n.sent + [n.pending[s][0]], |n.sent|) <==> !Late(n, Tell(s))
  {
    assert ServiceOk(n, lookup, s);
    assert n.pending[s][0] in n.pending[s];
    assert (n.sent + [n.pending[s][0]])[..|n.sent|] == n.sent;
    hide D.Told, D.PassEvents, Sound, MidPass, ServiceOk;
  }

  lemma GoSends(n: Net, present: bool)
    ensures var sent := Gone(n).sent;
            || sent == n.sent
            || (&& |sent| == |n.sent| + 1 && sent[..|n.sent|] == n.sent
                && Timely({}, present, sent, |n.sent|))
  {
    hide D.Told, HasProxy;
  }

  lemma StepTimely(n: Net, lookup: D.Lookup, present: bool, step: Step)
    requires Sound(n, lookup) && AllTimely({}, present, n.sent)
    ensures AllTimely({}, present, Next(n, lookup, step).sent) <==> !Late(n, step)
  {
    hide AllTimely, Timely, Next, Late, Sound;
    var next := Next(n, lookup, step);
    SendsOne(n, lookup, present, step);
    if |next.sent| != |n.sent| {
      TimelyNext({}, present, next.sent);
    }
  }

  lemma {:induction false} RunTimely(n: Net, lookup: D.Lookup, present: bool, steps: seq<Step>)
    requires Sound(n, lookup) && AllTimely({}, present, n.sent)
    ensures AllTimely({}, present, Run(n, lookup, steps).sent) <==> OnTime(n, lookup, steps)
    decreases |steps|
  {
    hide Sound, AllTimely, Next, Late;
    if steps != [] {
      var next := Next(n, lookup, steps[0]);
      StepTimely(n, lookup, present, steps[0]);
      StepKeeps(n, lookup, steps[0]);
      if AllTimely({}, present, next.sent) {
        RunTimely(next, lookup, present, steps[1..]);
      } else {
        SentStays(next, lookup, steps[1..]);
        if AllTimely({}, present, Run(next, lookup, steps[1..]).sent) {
          TimelyBefore({}, present, next.sent, Run(next, lookup, steps[1..]).sent);
        }
      }
    }
  }

  /**
   * Discovery and gateway together, over every interleaving of the goroutines: the gateway gets through without panic
   * exactly when no watcher sends a host after its service has been reported gone, and then the port's prefixes are
   * exactly the announced services, each with the list that its events add up to.
   */
  lemma GatewayMirrorsDiscovery(m: Manager, lookup: D.Lookup, port: int, ctx: Context, steps: seq<Step>)
    requires Mirrors(m, ctx, port, map[])
    ensures var n := Run(START, lookup, steps);
            var r := HandledAll(m, ctx, port, n.sent);
            && (r.Some? <==> OnTime(START, lookup, steps))
            && (r.Some? ==> Mirrors(m, r.value, port, KeptAll(m, map[], n.sent)))
            && KeptAll(m, map[], n.sent).Keys == D.Told({}, n.sent)
  {
    hide Mirrors, Sound, Run, HandledAll, KeptAll, AllTimely;
    var n := Run(START, lookup, steps);
    var none: Lists := map[];
    assert none.Keys == {};
    StartIsSound(lookup);
    NothingUntimely({}, port in ctx);
    RunTimely(START, lookup, port in ctx, steps);
    StreamMirrors(m, ctx, port, none, n.sent);
    KeptAreTold(m, none, n.sent);
  }

  /**
   * A service departs while its watcher has a host to send. The observer cancels the watcher and reports the service
   * gone, and the watcher, which looks at its cancellation only after its pass, goes on.
   */
  lemma Overtaken(n: Net, lookup: D.Lookup, s: string, lastOrder: seq<string>, curOrder: seq<string>)
    requires Sound(n, lookup) && n.observer.Waiting? && s in n.services
    requires s in n.pending && n.pending[s] != [] && n.pending[s][0].AddHost?
    requires Enumerates(lastOrder, n.services) && Enumerates(curOrder, n.services - {s})
    ensures !OnTime(n, lookup, [Look(n.services - {s}, lastOrder, curOrder), Go, Go, Tell(s)])
  {
    hide D.Told, D.PassEvents, MidPass, HasProxy, D.Outside, About, OnTime;
    var cur := n.services - {s};
    OneGone(lastOrder, n.services, s);
    assert ServiceOk(n, lookup, s);
    var n1 := Next(n, lookup, Look(cur, lastOrder, curOrder));
    assert n1.observer == Dropping([s], false, cur, curOrder);
    var n2 := Next(n1, lookup, Go);
    assert n2.observer == Dropping([s], true, cur, curOrder);
    var n3 := Next(n2, lookup, Go);
    OneMore(n2.sent, D.RemoveService(s), s);
    assert Late(n3, Tell(s));
    hide Next, Late;
    FourSteps(n, lookup, Look(cur, lastOrder, curOrder), Go, Go, Tell(s));
  }

  /** How the gateway comes to an end, from any state between two rounds that the program can get to. */
  lemma OvertakenPanics(m: Manager, lookup: D.Lookup, port: int, ctx: Context, steps: seq<Step>, s: string,
                        lastOrder: seq<string>, curOrder: seq<string>)
    requires Mirrors(m, ctx, port, map[])
    requires var n := Run(START, lookup, steps);
             && n.observer.Waiting? && s in n.services
             && s in n.pending && n.pending[s] != [] && n.pending[s][0].AddHost?
             && Enumerates(lastOrder, n.services) && Enumerates(curOrder, n.services - {s})
    ensures var cur := Run(START, lookup, steps).services - {s};
            var end := Run(START, lookup, steps + [Look(cur, lastOrder, curOrder), Go, Go, Tell(s)]);
            HandledAll(m, ctx, port, end.sent).None?
  {
    hide Mirrors, Sound, Run, HandledAll, OnTime, Enabled;
    var n := Run(START, lookup, steps);
    var last := [Look(n.services - {s}, lastOrder, curOrder), Go, Go, Tell(s)];
    StartIsSound(lookup);
    RunKeeps(START, lookup, steps);
    Overtaken(n, lookup, s, lastOrder, curOrder);
    if OnTime(START, lookup, steps + last) {
      OnTimeSplits(START, lookup, steps, last);
      assert false;
    }
    GatewayMirrorsDiscovery(m, lookup, port, ctx, steps + last);
  }

  lemma {:induction false} OnTimeSplits(n: Net, lookup: D.Lookup, a: seq<Step>, b: seq<Step>)
    requires OnTime(n, lookup, a + b)
    ensures OnTime(Run(n, lookup, a), lookup, b)
    decreases |a|
  {
    hide Next, Late;
    if a == [] {
      assert a + b == b;
    } else {
      assert (a + b)[0] == a[0] && (a + b)[1..] == a[1..] + b;
      OnTimeSplits(Next(n, lookup, a[0]), lookup, a[1..], b);
    }
  }

  lemma FourSteps(n: Net, lookup: D.Lookup, a: Step, b: Step, c: Step, d: Step)
    requires Late(Next(Next(Next(n, lookup, a), lookup, b), lookup, c), d)
    ensures !OnTime(n, lookup, [a, b, c, d])
  {
    hide Late, Next;
    assert [a, b, c, d][1..] == [b, c, d] && [b, c, d][1..] == [c, d] && [c, d][1..] == [d];
    assert !OnTime(Next(Next(Next(n, lookup, a), lookup, b), lookup, c), lookup, [d]);
    assert !OnTime(Next(Next(n, lookup, a), lookup, b), lookup, [c, d]);
    assert !OnTime(Next(n, lookup, a), lookup, [b, c, d]);
  }

  /** One of the services is gone. */
  lemma OneGone(order: seq<string>, services: set<string>, s: string)
    requires Enumerates(order, services) && s in services
    ensures D.Outside(order, services - {s}) == [s]
  {
    D.OutsideMembers(order, services - {s});
    OutsideOnce(order, services - {s});
    hide D.Outside;
    var out := D.Outside(order, services - {s});
    assert s in Members(order) && s in out;
    forall x | x in out
      ensures x == s
    {
      assert x in Members(order);
    }
    OnlyOne(out, s);
  }

  lemma OnlyOne(out: seq<string>, s: string)
    requires NoRepeats(out) && s in out && forall x :: x in out ==> x == s
    ensures out == [s]
  {
    if |out| > 1 {
      BothIn(out);
      assert false;
    }
  }

  lemma BothIn(out: seq<string>)
    requires |out| > 1
    ensures out[0] in out && out[1] in out
  {
  }

  lemma {:induction false} OutsideOnce(order: seq<string>, keep: set<string>)
    requires NoRepeats(order)
    ensures NoRepeats(D.Outside(order, keep))
  {
    if order != [] {
      var init := order[..|order| - 1];
      OutsideOnce(init, keep);
      D.OutsideMembers(init, keep);
    }
  }

  // ---------------------------------------------------------------- when the hosts are right

  /** The watcher has sent a whole pass and has not been cancelled; its nodes gave IPv4 addresses. */
  ghost predicate Rested(n: Net, s: string) {
    && s in n.read && s in n.pending && n.pending[s] == [] && s in n.shutdown && !n.shutdown[s]
    && D.QuadsOnly(n.read[s].nodes)
  }

  /** The list a service had when its watcher read. */
  function Was(m: Manager, n: Net, s: string): Option<seq<string>>
    requires s in n.read
  {
    At(KeptAll(m, map[], n.read[s].before), s)
  }

  /**
   * After each pass, whatever other goroutines have sent in between, the list at the service is the pass's result;
   * it is exactly the reported hosts exactly when no departing host sticks.
   */
  lemma PassSettles(m: Manager, lookup: D.Lookup, n: Net, s: string)
    requires Sound(n, lookup) && Rested(n, s)
    ensures Was(m, n, s).Some? && s in KeptAll(m, map[], n.sent)
    ensures var was, r := Was(m, n, s).value, n.read[s];
            && KeptAll(m, map[], n.sent)[s] == Passed(m, was, r.nodes, lookup)
            && (Members(KeptAll(m, map[], n.sent)[s]) == D.Reported(r.nodes) <==> !Sticks(m, was, r.nodes))
  {
    hide About, D.Told, D.PassEvents, KeptAt, KeptAll, HasProxy, D.QuadsOnly, Passed, Sticks, D.Reported, D.RangesOver;
    assert ServiceOk(n, lookup, s);
    var none: Lists := map[];
    var r := n.read[s];
    assert none.Keys == {};
    KeptAreTold(m, none, r.before);
    var was := Was(m, n, s).value;
    KeptPerService(m, none, r.before, s);
    KeptPerService(m, none, n.sent, s);
    assert About(n.sent, s) == About(r.before, s) + D.PassEvents(s, r.nodes, r.order, lookup);
    KeptBoth(m, None, About(r.before, s), D.PassEvents(s, r.nodes, r.order, lookup));
    PassKept(m, was, s, r.nodes, r.order, lookup);
    PassedIs(m, was, r.nodes, lookup);
  }

  /** Every service whose watcher rests has exactly the hosts it reported. */
  ghost predicate HostsRight(m: Manager, n: Net) {
    forall s :: Rested(n, s) ==>
      s in KeptAll(m, map[], n.sent) && Members(KeptAll(m, map[], n.sent)[s]) == D.Reported(n.read[s].nodes)
  }

  /** In no pass that is over a departing host has stuck. */
  ghost predicate NoneStuck(m: Manager, n: Net) {
    forall s :: Rested(n, s) && Was(m, n, s).Some? ==> !Sticks(m, Was(m, n, s).value, n.read[s].nodes)
  }

  ghost predicate HostsRightThroughout(m: Manager, n: Net, lookup: D.Lookup, steps: seq<Step>)
    decreases |steps|
  {
    HostsRight(m, n) && (steps == [] || HostsRightThroughout(m, Next(n, lookup, steps[0]), lookup, steps[1..]))
  }

  ghost predicate NoneEverSticks(m: Manager, n: Net, lookup: D.Lookup, steps: seq<Step>)
    decreases |steps|
  {
    NoneStuck(m, n) && (steps == [] || NoneEverSticks(m, Next(n, lookup, steps[0]), lookup, steps[1..]))
  }

  lemma HostsRightNow(m: Manager, n: Net, lookup: D.Lookup)
    requires Sound(n, lookup)
    ensures HostsRight(m, n) <==> NoneStuck(m, n)
  {
    hide Sound, Rested, KeptAll, Sticks, D.Reported, Was;
    forall s | Rested(n, s)
      ensures s in n.read && Was(m, n, s).Some? && s in KeptAll(m, map[], n.sent)
      ensures Members(KeptAll(m, map[], n.sent)[s]) == D.Reported(n.read[s].nodes)
         <==> !Sticks(m, Was(m, n, s).value, n.read[s].nodes)
    {
      RestedIsRead(n, s);
      PassSettles(m, lookup, n, s);
    }
  }

  lemma RestedIsRead(n: Net, s: string)
    requires Rested(n, s)
    ensures s in n.read
  {
  }

  /**
   * Over every interleaving the hosts are right throughout exactly when no departing host ever sticks: through the
   * righted guard that is a condition on each pass over the shared list, and always so over a copy.
   */
  lemma {:induction false} RightIffNoneSticks(m: Manager, n: Net, lookup: D.Lookup, steps: seq<Step>)
    requires Sound(n, lookup)
    ensures HostsRightThroughout(m, n, lookup, steps) <==> NoneEverSticks(m, n, lookup, steps)
    ensures m.righted && m.copies ==> NoneEverSticks(m, n, lookup, steps)
    decreases |steps|
  {
    hide Sound, HostsRight, Next;
    HostsRightNow(m, n, lookup);
    if steps != [] {
      StepKeeps(n, lookup, steps[0]);
      RightIffNoneSticks(m, Next(n, lookup, steps[0]), lookup, steps[1..]);
    }
    hide Rested, Was;
  }

  // ---------------------------------------------------------------- when the services are right

  ghost predicate Lives(n: Net, s: string) { s in n.shutdown && !n.shutdown[s] }

  /**
   * What has been announced is what the observer has seen, up to what it has still to say of the round under way, and
   * every announced service that stays has a live watcher.
   */
  ghost predicate ViewRight(n: Net) {
    var told := D.Told({}, n.sent);
    match n.observer
    case Waiting => told == n.services && forall s :: s in told ==> Lives(n, s)
    case Dropping(gone, cancelled, cur, order) =>
      && Enumerates(order, cur) && NoRepeats(gone)
      && (forall s :: s in told <==> s in n.services && (s in cur || s in gone))
      && (forall s :: s in gone ==> s in n.services && s !in cur)
      && (forall s :: s in told && !(cancelled && gone != [] && s == gone[0]) ==> Lives(n, s))
    case Watching(todo, watched, cur) =>
      && NoRepeats(todo) && (forall s :: s in todo ==> s in cur)
      && (forall s :: s in told <==> s in cur && (s in n.services || s !in todo))
      && (forall s :: s in told ==> Lives(n, s))
    case Crashed => false
  }

  /** The observer passes over a service that is new, because the old watcher has not left. */
  predicate Skips(n: Net, step: Step) {
    && step.Go? && n.observer.Watching? && !n.observer.watched && n.observer.todo != []
    && n.observer.todo[0] in n.shutdown && n.observer.todo[0] !in n.services
  }

  lemma ToldMore(n: Net, e: D.Event)
    ensures forall s :: s in D.Told({}, n.sent + [e])
                   <==> if e.service != s || !(e.AddService? || e.RemoveService?) then s in D.Told({}, n.sent)
                        else e.AddService?
  {
    hide D.Told;
    forall s
      ensures s in D.Told({}, n.sent + [e])
         <==> if e.service != s || !(e.AddService? || e.RemoveService?) then s in D.Told({}, n.sent) else e.AddService?
    {
      OneMore(n.sent, e, s);
    }
  }

  lemma DropRight(n: Net)
    requires ObserverOk(n) && ViewRight(n) && n.observer.Dropping?
    ensures ViewRight(Gone(n))
  {
    hide D.Told;
    var gone := n.observer.gone;
    if gone != [] {
      ToldMore(n, D.RemoveService(gone[0]));
      assert gone == [gone[0]] + gone[1..] && gone[0] in gone && gone[0] !in gone[1..];
      assert !n.observer.cancelled ==> gone[0] in D.Told({}, n.sent) && Lives(n, gone[0]);
      assert Gone(n).observer.Dropping?;
      hide Gone, ObserverOk;
    } else {
      assert forall s :: s in n.observer.order <==> s in Members(n.observer.order);
    }
  }

  lemma WatchRight(n: Net)
    requires ObserverOk(n) && ViewRight(n) && n.observer.Watching?
    ensures ViewRight(Gone(n)) <==> !Skips(n, Go)
  {
    hide D.Told;
    var todo := n.observer.todo;
    if todo != [] {
      ToldMore(n, D.AddService(todo[0]));
      assert todo == [todo[0]] + todo[1..];
      assert todo[0] !in todo[1..];
    }
  }

  /** A step that leaves the services, the observer and what is told alone, and no live watcher without entry. */
  lemma ElseRight(n: Net, lookup: D.Lookup, step: Step)
    requires Sound(n, lookup) && ViewRight(n) && Enabled(n, step) && (step.Pass? || step.Tell? || step.Leave?)
    ensures ViewRight(Next(n, lookup, step))
  {
    hide D.Told, D.PassEvents, MidPass;
    assert ServiceOk(n, lookup, step.service);
    if step.Tell? {
      assert n.pending[step.service][0] in n.pending[step.service];
      ToldMore(n, n.pending[step.service][0]);
    }
    hide ServiceOk;
  }

  lemma LookRight(n: Net, lookup: D.Lookup, step: Step)
    requires ViewRight(n) && Enabled(n, step) && step.Look?
    ensures ViewRight(Next(n, lookup, step))
  {
    hide D.Told, D.Outside;
    D.OutsideMembers(step.lastOrder, step.cur);
    OutsideOnce(step.lastOrder, step.cur);
    assert forall s :: s in step.lastOrder <==> s in Members(step.lastOrder);
  }

  lemma StepRight(n: Net, lookup: D.Lookup, step: Step)
    requires Sound(n, lookup) && ViewRight(n)
    ensures ViewRight(Next(n, lookup, step)) <==> !Skips(n, step)
  {
    hide ViewRight, ServiceOk, Gone, ObserverOk;
    if Enabled(n, step) {
      match step {
        case Look(_, _, _) => LookRight(n, lookup, step);
        case Go => GoRight(n, lookup);
        case _ => ElseRight(n, lookup, step);
      }
    }
  }

  lemma GoRight(n: Net, lookup: D.Lookup)
    requires Sound(n, lookup) && ViewRight(n) && Enabled(n, Go)
    ensures ViewRight(Gone(n)) <==> !Skips(n, Go)
  {
    hide ViewRight, Gone;
    if n.observer.Dropping? {
      DropRight(n);
    } else {
      WatchRight(n);
    }
  }

  ghost predicate ViewRightThroughout(n: Net, lookup: D.Lookup, steps: seq<Step>)
    decreases |steps|
  {
    ViewRight(n) && (steps == [] || ViewRightThroughout(Next(n, lookup, steps[0]), lookup, steps[1..]))
  }

  ghost predicate NeverSkips(n: Net, lookup: D.Lookup, steps: seq<Step>)
    decreases |steps|
  {
    steps == [] || (!Skips(n, steps[0]) && NeverSkips(Next(n, lookup, steps[0]), lookup, steps[1..]))
  }

  /**
   * Over every interleaving: the observer does not crash and what it announces agrees with what it sees, throughout,
   * exactly when it never passes over a new service because of an old watcher.
   */
  lemma {:induction false} ViewRightIffNeverSkips(n: Net, lookup: D.Lookup, steps: seq<Step>)
    requires Sound(n, lookup) && ViewRight(n)
    ensures ViewRightThroughout(n, lookup, steps) <==> NeverSkips(n, lookup, steps)
    decreases |steps|
  {
    hide Sound, ViewRight, Next, Skips;
    if steps != [] {
      StepRight(n, lookup, steps[0]);
      StepKeeps(n, lookup, steps[0]);
      if !Skips(n, steps[0]) {
        ViewRightIffNeverSkips(Next(n, lookup, steps[0]), lookup, steps[1..]);
      }
    }
  }

  lemma StartIsRight()
    ensures ViewRight(START)
  {
  }

  lemma {:induction false} RightAtTheEnd(n: Net, lookup: D.Lookup, steps: seq<Step>)
    requires ViewRightThroughout(n, lookup, steps)
    ensures ViewRight(Run(n, lookup, steps))
    decreases |steps|
  {
    hide ViewRight, Next;
    if steps != [] {
      RightAtTheEnd(Next(n, lookup, steps[0]), lookup, steps[1..]);
    }
  }

  /** Whenever the observer waits after a run that never skips, the lists are those of the services it has seen. */
  lemma ListsAreServices(m: Manager, lookup: D.Lookup, steps: seq<Step>)
    requires NeverSkips(START, lookup, steps)
    ensures var n := Run(START, lookup, steps);
            !n.observer.Crashed? && (n.observer.Waiting? ==> KeptAll(m, map[], n.sent).Keys == n.services)
  {
    hide Run, NeverSkips, ViewRightThroughout, KeptAll, D.Told, Sound;
    var none: Lists := map[];
    assert none.Keys == {};
    StartIsSound(lookup);
    StartIsRight();
    ViewRightIffNeverSkips(START, lookup, steps);
    RightAtTheEnd(START, lookup, steps);
    KeptAreTold(m, none, Run(START, lookup, steps).sent);
  }
}
