/**
 * discovery/zookeeper_client.go: observed sets of services become add and remove events; each service has a watcher
 * that is cancelled when the service departs and then takes itself off the Shutdown map.
 */
module Discovery {
  import opened Text
  import opened IpText
  import opened HostReconcile

  datatype Event =
    | RemoveService(service: string)
    | AddService(service: string)
    | AddHost(service: string, host: string)
    | RemoveHosts(service: string, children: seq<string>)

  /** A node under a service: what its payload says, if it could be read. */
  datatype Node = Known(address: string, port: int) | Unreadable

  // ---------------------------------------------------------------- events of one round

  /** The members of `order` outside `keep`, in that order, as events. */
  function Outside(order: seq<string>, keep: set<string>): seq<string> {
    if order == [] then []
    else Outside(order[..|order| - 1], keep) + (if order[|order| - 1] in keep then [] else [order[|order| - 1]])
  }

  function Removals(services: seq<string>): seq<Event> {
    seq(|services|, i requires 0 <= i < |services| => RemoveService(services[i]))
  }

  function Additions(services: seq<string>): seq<Event> {
    seq(|services|, i requires 0 <= i < |services| => AddService(services[i]))
  }

  /** What a consumer that starts from `view` believes after the events. */
  function Told(view: set<string>, events: seq<Event>): set<string> {
    if events == [] then view
    else
      var before := Told(view, events[..|events| - 1]);
      match events[|events| - 1]
      case RemoveService(s) => before - {s}
      case AddService(s) => before + {s}
      case _ => before
  }

  // ---------------------------------------------------------------- the state and its steps

  /** `shutdown[s]`: whether the watcher of `s` has been cancelled. `view`: what the events sent so far add up to. */
  datatype World = World(services: set<string>, shutdown: map<string, bool>, view: set<string>)

  const START := World({}, map[], {})

  /** The watchers after a round: the departed are cancelled, the unknown get a watcher. */
  function Watchers(shutdown: map<string, bool>, services: set<string>, cur: set<string>): map<string, bool> {
    map s | s in shutdown.Keys + cur :: if s in services && s !in cur then true else s in shutdown && shutdown[s]
  }

  /** A round that observes `cur`; None when it calls the missing cancel function of a departed service. */
  function Observe(w: World, cur: set<string>): Option<World> {
    if w.services - cur <= w.shutdown.Keys
    then Some(World(cur, Watchers(w.shutdown, w.services, cur),
                    (w.view - (w.services - cur)) + (cur - w.shutdown.Keys)))
    else None
  }

  /** A cancelled watcher notices and leaves. */
  function Exit(w: World, service: string): World {
    if service in w.shutdown && w.shutdown[service] then w.(shutdown := w.shutdown - {service}) else w
  }

  lemma {:induction false} OutsideMembers(order: seq<string>, keep: set<string>)
    ensures forall s :: s in Outside(order, keep) <==> s in order && s !in keep
  {
    if order != [] {
      OutsideMembers(order[..|order| - 1], keep);
      assert order == order[..|order| - 1] + [order[|order| - 1]];
    }
  }

  lemma {:induction false} ToldRemovals(view: set<string>, services: seq<string>)
    ensures Told(view, Removals(services)) == view - Members(services)
  {
    if services != [] {
      var init, last := services[..|services| - 1], services[|services| - 1];
      assert services == init + [last] && Members(services) == Members(init) + {last};
      assert Removals(services)[..|services| - 1] == Removals(init);
      ToldRemovals(view, init);
    } else {
      assert Members(services) == {};
    }
  }

  lemma {:induction false} ToldAdditions(view: set<string>, services: seq<string>)
    ensures Told(view, Additions(services)) == view + Members(services)
  {
    if services != [] {
      var init, last := services[..|services| - 1], services[|services| - 1];
      assert services == init + [last] && Members(services) == Members(init) + {last};
      assert Additions(services)[..|services| - 1] == Additions(init);
      ToldAdditions(view, init);
    } else {
      assert Members(services) == {};
    }
  }

  lemma {:induction false} ToldBoth(view: set<string>, a: seq<Event>, b: seq<Event>)
    ensures Told(view, a + b) == Told(Told(view, a), b)
  {
    if b == [] {
      assert a + b == a;
    } else {
      assert (a + b)[..|a + b| - 1] == a + b[..|b| - 1];
      ToldBoth(view, a, b[..|b| - 1]);
    }
  }

  /** The events of a round, with the maps ranged over in the given orders. */
  function RoundEvents(lastOrder: seq<string>, curOrder: seq<string>, cur: set<string>,
                       watched: set<string>): seq<Event>
  {
    Removals(Outside(lastOrder, cur)) + Additions(Outside(curOrder, watched))
  }

  /** Whatever the orders, the events of a round take a consumer from its view to the view of the next world. */
  lemma EventsTell(w: World, cur: set<string>, lastOrder: seq<string>, curOrder: seq<string>)
    requires Enumerates(lastOrder, w.services) && Enumerates(curOrder, cur) && Observe(w, cur).Some?
    ensures Told(w.view, RoundEvents(lastOrder, curOrder, cur, w.shutdown.Keys)) == Observe(w, cur).value.view
  {
    var gone, born := Outside(lastOrder, cur), Outside(curOrder, w.shutdown.Keys);
    OutsideMembers(lastOrder, cur);
    OutsideMembers(curOrder, w.shutdown.Keys);
    assert Members(gone) == Members(lastOrder) - cur;
    assert Members(born) == Members(curOrder) - w.shutdown.Keys;
    ToldRemovals(w.view, gone);
    ToldAdditions(w.view - Members(gone), born);
    ToldBoth(w.view, Removals(gone), Additions(born));
  }

  // ---------------------------------------------------------------- when diffing is exact

  /**
   * From a view that was right, the round's events give the observed set exactly when no newcomer has an old watcher.
   */
  lemma RoundExact(w: World, cur: set<string>)
    requires w.view == w.services && Observe(w, cur).Some?
    ensures Observe(w, cur).value.view == cur <==> (cur - w.services) !! w.shutdown.Keys
  {
    var view := Observe(w, cur).value.view;
    if view == cur {
      forall s | s in cur - w.services
        ensures s !in w.shutdown.Keys
      {
        assert s in view;
      }
    } else {
      assert exists s :: s in cur && s !in view;
    }
  }

  /** Nothing pending: one live watcher a service, and the consumer knows the services. */
  ghost predicate Settled(w: World) {
    w.view == w.services == w.shutdown.Keys && forall s :: s in w.shutdown ==> !w.shutdown[s]
  }

  /** All cancelled watchers leave. */
  function ExitAll(w: World): World { w.(shutdown := map s | s in w.shutdown && !w.shutdown[s] :: false) }

  /** The cancelled watchers may leave in any order and one at a time. */
  lemma {:induction false} ExitsOneByOne(w: World, leaving: seq<string>)
    requires forall s :: s in w.shutdown && w.shutdown[s] ==> s in leaving
    ensures Exits(w, leaving) == ExitAll(w)
    decreases |leaving|
  {
    if leaving == [] {
      assert w.shutdown == ExitAll(w).shutdown;
    } else {
      var next := Exit(w, leaving[0]);
      assert leaving == [leaving[0]] + leaving[1..];
      ExitsOneByOne(next, leaving[1..]);
      assert ExitAll(next).shutdown == ExitAll(w).shutdown;
    }
  }

  function Exits(w: World, leaving: seq<string>): World
    decreases |leaving|
  {
    if leaving == [] then w else Exits(Exit(w, leaving[0]), leaving[1..])
  }

  /** One round after which every cancelled watcher leaves before the next. */
  lemma PromptRound(w: World, cur: set<string>)
    requires Settled(w)
    ensures Observe(w, cur).Some? && Settled(ExitAll(Observe(w, cur).value)) && Observe(w, cur).value.view == cur
    ensures ExitAll(Observe(w, cur).value).services == cur
  {
    var next := Observe(w, cur).value;
    assert next.view == cur;
    assert ExitAll(next).shutdown.Keys == cur;
  }

  /** A run of rounds; None when one of them panics. */
  function PromptRun(w: World, rounds: seq<set<string>>): Option<World>
    decreases |rounds|
  {
    if rounds == [] then Some(w)
    else match Observe(w, rounds[0])
         case None => None
         case Some(next) => PromptRun(ExitAll(next), rounds[1..])
  }

  /** Over every sequence of observed sets, with prompt watchers: no panic, and view, services and watchers agree. */
  lemma {:induction false} PromptRunsExact(w: World, rounds: seq<set<string>>)
    requires Settled(w)
    ensures PromptRun(w, rounds).Some? && Settled(PromptRun(w, rounds).value)
    ensures rounds != [] ==> PromptRun(w, rounds).value.view == rounds[|rounds| - 1]
    decreases |rounds|
  {
    hide Observe, Settled;
    if rounds != [] {
      PromptRound(w, rounds[0]);
      PromptRunsExact(ExitAll(Observe(w, rounds[0]).value), rounds[1..]);
      assert |rounds| > 1 ==> rounds[1..][|rounds| - 2] == rounds[|rounds| - 1];
    }
  }

  // ---------------------------------------------------------------- arbitrary interleavings

  datatype Happening = Observed(cur: set<string>) | Left(service: string)

  /** The view is right and the services have live watchers; departed services may still have cancelled ones. */
  ghost predicate Live(w: World) {
    w.view == w.services && w.services <= w.shutdown.Keys && forall s :: s in w.services ==> !w.shutdown[s]
  }

  /** Rounds and watchers leaving, in any order: no round panics and the view is right after every step. */
  ghost predicate RightThroughout(w: World, steps: seq<Happening>)
    decreases |steps|
  {
    && w.view == w.services
    && (steps == []
        || match steps[0]
           case Observed(cur) => Observe(w, cur).Some? && RightThroughout(Observe(w, cur).value, steps[1..])
           case Left(service) => RightThroughout(Exit(w, service), steps[1..]))
  }

  /** At each round that does not panic, no service that is new has the entry of an old watcher. */
  ghost predicate NoOldWatcher(w: World, steps: seq<Happening>)
    decreases |steps|
  {
    || steps == []
    || match steps[0]
       case Observed(cur) =>
         && (cur - w.services) !! w.shutdown.Keys
         && (Observe(w, cur).Some? ==> NoOldWatcher(Observe(w, cur).value, steps[1..]))
       case Left(service) => NoOldWatcher(Exit(w, service), steps[1..])
  }

  lemma LiveStays(w: World, step: Happening)
    requires Live(w)
    ensures match step
            case Observed(cur) =>
              && Observe(w, cur).Some?
              && (Observe(w, cur).value.view == cur <==> (cur - w.services) !! w.shutdown.Keys)
              && ((cur - w.services) !! w.shutdown.Keys ==> Live(Observe(w, cur).value))
            case Left(service) => Live(Exit(w, service))
  {
    if step.Observed? {
      RoundExact(w, step.cur);
    }
  }

  /** From a live state, over every interleaving: all goes right exactly when no newcomer meets an old watcher. */
  lemma {:induction false} RightIffNoOldWatcher(w: World, steps: seq<Happening>)
    requires Live(w)
    ensures RightThroughout(w, steps) <==> NoOldWatcher(w, steps)
    decreases |steps|
  {
    hide Live, Exit;
    assert w.view == w.services by { LiveIsRight(w); }
    if steps != [] {
      LiveStays(w, steps[0]);
      match steps[0] {
        case Observed(cur) =>
          var next := Observe(w, cur).value;
          assert next.services == cur;
          hide Observe;
          if (cur - w.services) !! w.shutdown.Keys {
            RightIffNoOldWatcher(next, steps[1..]);
          }
        case Left(service) =>
          RightIffNoOldWatcher(Exit(w, service), steps[1..]);
      }
    }
  }

  lemma LiveIsRight(w: World)
    requires Live(w)
    ensures w.view == w.services
  {
  }

  /** The same from the start: every sequence of rounds and exits of the program. */
  lemma RightFromStart(steps: seq<Happening>)
    ensures RightThroughout(START, steps) <==> NoOldWatcher(START, steps)
  {
    RightIffNoOldWatcher(START, steps);
  }

  /**
   * A slow watcher: a service departs and comes back before its cancelled watcher leaves. The consumer is never told
   * that it is back, the service has no watcher afterwards, and when it departs again the program panics.
   */
  lemma SlowWatcherPanics(a: string)
    ensures var w1 := Observe(START, {a}).value;
            var w2 := Observe(w1, {}).value;
            var w3 := Observe(w2, {a}).value;
            && Observe(START, {a}).Some? && Observe(w1, {}).Some? && Observe(w2, {a}).Some?
            && w3.services == {a} && w3.view == {} && a !in Exit(w3, a).shutdown && Observe(Exit(w3, a), {}).None?
  {
    var w1 := Observe(START, {a}).value;
    assert w1.shutdown == map[a := false];
    var w2 := Observe(w1, {}).value;
    assert w2.shutdown == map[a := true];
    var w3 := Observe(w2, {a}).value;
    assert w3.shutdown == map[a := true];
    assert a in w3.services - {};
  }

  // ---------------------------------------------------------------- the nodes of one service

  function PortText(port: int): string { if port < 0 then "-" + Itoa(-port) else Itoa(port) }

  function HostText(address: string, port: int): string { address + ":" + PortText(port) }

  type Lookup = string -> seq<string>

  /** The order in which ranging over the map of readable payloads meets the nodes: each readable node once. */
  ghost predicate RangesOver(order: seq<nat>, nodes: seq<Node>) {
    && (forall i :: i in order <==> 0 <= i < |nodes| && nodes[i].Known?)
    && forall j, k :: 0 <= j < k < |order| ==> order[j] != order[k]
  }

  function ChildText(nodes: seq<Node>, i: nat): string {
    if i < |nodes| && nodes[i].Known? then HostText(nodes[i].address, nodes[i].port) else ""
  }

  /** The addresses watchNode reports as the children of the service. */
  function Children(nodes: seq<Node>, order: seq<nat>): seq<string> {
    seq(|order|, i requires 0 <= i < |order| => ChildText(nodes, order[i]))
  }

  /** The addresses of the readable nodes. */
  function Reported(nodes: seq<Node>): set<string> {
    set n | n in nodes && n.Known? :: HostText(n.address, n.port)
  }

  /** Whatever the order, the children are the reported addresses. */
  lemma ChildrenAreReported(nodes: seq<Node>, order: seq<nat>)
    requires RangesOver(order, nodes)
    ensures Members(Children(nodes, order)) == Reported(nodes)
  {
    hide HostText;
    var children := Children(nodes, order);
    forall c
      ensures c in children <==> c in Reported(nodes)
    {
      if c in children {
        var j :| 0 <= j < |children| && children[j] == c;
        assert order[j] in order && nodes[order[j]] in nodes;
      }
      if c in Reported(nodes) {
        var n :| n in nodes && n.Known? && c == HostText(n.address, n.port);
        var i :| 0 <= i < |nodes| && nodes[i] == n;
        assert i in order;
        var j :| 0 <= j < |order| && order[j] == i;
        assert children[j] == c;
      }
    }
  }

  /**
   * The hosts one node is registered with: an IPv4 address as it is, an IPv6 address not at all, a name as looked up.
   */
  function HostsOf(lookup: Lookup, node: Node): seq<string> {
    match node
    case Unreadable => []   // its zero value has the name "", which no lookup finds
    case Known(address, port) =>
      if QuadOfOctets(address) then [HostText(address, port)]
      else if IsIPv6(address) then []
      else seq(|lookup(address)|, i requires 0 <= i < |lookup(address)| => HostText(lookup(address)[i], port))
  }

  function HostsAdded(lookup: Lookup, nodes: seq<Node>): seq<string> {
    if nodes == [] then [] else HostsAdded(lookup, nodes[..|nodes| - 1]) + HostsOf(lookup, nodes[|nodes| - 1])
  }

  function HostEvents(service: string, hosts: seq<string>): seq<Event> {
    seq(|hosts|, i requires 0 <= i < |hosts| => AddHost(service, hosts[i]))
  }

  /** What watchNode sends in one pass. */
  function PassEvents(service: string, nodes: seq<Node>, order: seq<nat>, lookup: Lookup): seq<Event> {
    [RemoveHosts(service, Children(nodes, order))] + HostEvents(service, HostsAdded(lookup, nodes))
  }

  /** What one pass over a service's nodes does to its host list, ranging over a copy of it. */
  function PassResult(hosts: seq<string>, lookup: Lookup, nodes: seq<Node>): seq<string> {
    AddAll(RemoveEach(hosts, hosts, Reported(nodes)), HostsAdded(lookup, nodes))
  }

  /** The same, ranging over the array that the removals shift. */
  function LivePassResult(hosts: seq<string>, lookup: Lookup, nodes: seq<Node>): seq<string> {
    AddAll(LeftBehind(hosts, Reported(nodes)), HostsAdded(lookup, nodes))
  }

  predicate QuadsOnly(nodes: seq<Node>) { forall n :: n in nodes && n.Known? ==> QuadOfOctets(n.address) }

  lemma {:induction false} QuadsAreAdded(lookup: Lookup, nodes: seq<Node>)
    requires QuadsOnly(nodes)
    ensures Members(HostsAdded(lookup, nodes)) == Reported(nodes)
  {
    hide HostText, QuadOfOctets;
    if nodes == [] {
      assert Members(HostsAdded(lookup, nodes)) == {} == Reported(nodes);
    } else {
      var init, last := nodes[..|nodes| - 1], nodes[|nodes| - 1];
      assert nodes == init + [last] && last in nodes;
      assert forall n :: n in init ==> n in nodes;
      QuadsAreAdded(lookup, init);
      assert Members(HostsAdded(lookup, nodes)) == Members(HostsAdded(lookup, init)) + Members(HostsOf(lookup, last));
      assert Reported(nodes) == Reported(init) + if last.Known? then {HostText(last.address, last.port)} else {};
    }
  }

  /**
   * After a pass the list holds the hosts just registered, and of the earlier ones those reported as children; when
   * every readable node gives an IPv4 address that is exactly the reported set, whatever the list was.
   */
  lemma PassReconciles(hosts: seq<string>, lookup: Lookup, nodes: seq<Node>)
    ensures var after := PassResult(hosts, lookup, nodes);
            && (NoRepeats(hosts) ==> NoRepeats(after))
            && Members(after) == Members(hosts) * Reported(nodes) + Members(HostsAdded(lookup, nodes))
            && (QuadsOnly(nodes) ==> Members(after) == Reported(nodes))
  {
    var children, added := Reported(nodes), HostsAdded(lookup, nodes);
    RemoveEachMembers(hosts, children);
    AddAllMembers(RemoveEach(hosts, hosts, children), added);
    hide Reported, HostsAdded, RemoveEach, AddAll, QuadsOnly;
    assert forall x :: x in PassResult(hosts, lookup, nodes) <==> (x in hosts && x in children) || x in added;
    if QuadsOnly(nodes) {
      QuadsAreAdded(lookup, nodes);
    }
  }

  /**
   * A pass over the shared array, with IPv4 nodes: the list ends up with exactly the reported hosts just when no
   * departing host strays.
   */
  lemma LivePassReconciles(hosts: seq<string>, lookup: Lookup, nodes: seq<Node>)
    requires QuadsOnly(nodes)
    ensures Members(LivePassResult(hosts, lookup, nodes)) == Reported(nodes)
       <==> hosts == [] || !Strays(hosts, Reported(nodes), Scan(hosts, Reported(nodes), 0))
  {
    var children, added := Reported(nodes), HostsAdded(lookup, nodes);
    var left := LeftBehind(hosts, children);
    QuadsAreAdded(lookup, nodes);
    AddAllMembers(left, added);
    if hosts != [] {
      LeftBehindMembers(hosts, children);
    } else {
      assert left == [];
    }
    hide Reported, HostsAdded, LeftBehind, AddAll, QuadsOnly, Scan, Strays;
    assert forall x :: x in LivePassResult(hosts, lookup, nodes) <==> x in left || x in children by {
      assert forall x :: x in added <==> x in Members(added);
    }
    assert (forall x :: x in left ==> x in children) <==> Members(LivePassResult(hosts, lookup, nodes)) == children;
  }

  // ---------------------------------------------------------------- names among the nodes

  /** A node is registered with a host: an IPv4 address with itself, a name with each answer, an IPv6 address never. */
  ghost predicate Registers(lookup: Lookup, n: Node, host: string) {
    && n.Known?
    && if QuadOfOctets(n.address) then host == HostText(n.address, n.port)
       else !IsIPv6(n.address) && exists a :: a in lookup(n.address) && host == HostText(a, n.port)
  }

  lemma RegistersOne(lookup: Lookup, n: Node, host: string)
    ensures host in HostsOf(lookup, n) <==> Registers(lookup, n, host)
  {
    hide HostText, QuadOfOctets, IsIPv6;
    if n.Known? && !QuadOfOctets(n.address) && !IsIPv6(n.address) {
      var answers, hosts := lookup(n.address), HostsOf(lookup, n);
      if host in hosts {
        var i :| 0 <= i < |hosts| && hosts[i] == host;
        assert answers[i] in answers && host == HostText(answers[i], n.port);
      }
      if Registers(lookup, n, host) {
        var a :| a in answers && host == HostText(a, n.port);
        var i :| 0 <= i < |answers| && answers[i] == a;
        assert hosts[i] == host;
      }
    }
  }

  /** A pass registers exactly the hosts that some node is registered with. */
  lemma {:induction false} AddedExactly(lookup: Lookup, nodes: seq<Node>, host: string)
    ensures host in HostsAdded(lookup, nodes) <==> exists n :: n in nodes && Registers(lookup, n, host)
  {
    hide HostsOf, Registers;
    if nodes != [] {
      var init, last := nodes[..|nodes| - 1], nodes[|nodes| - 1];
      assert nodes == init + [last] && last in nodes;
      AddedExactly(lookup, init, host);
      RegistersOne(lookup, last, host);
      assert forall n :: n in nodes <==> n in init || n == last;
    }
  }

  /** A host text names its address and its port, whatever colons the address holds. */
  lemma HostTextTells(a: string, p: int, b: string, q: int)
    ensures HostText(a, p) == HostText(b, q) <==> a == b && p == q
  {
    PortHasNoColon(p);
    PortHasNoColon(q);
    hide Itoa;
    if HostText(a, p) == HostText(b, q) {
      LastColon(a, PortText(p), b, PortText(q));
      PortTells(p, q);
    }
  }

  lemma LastColon(a: string, s: string, b: string, t: string)
    requires a + ":" + s == b + ":" + t && ':' !in s && ':' !in t
    ensures a == b && s == t
  {
    var w := a + ":" + s;
    assert w[|a|] == ':' && w[|b|] == ':' && w[|a| + 1..] == s && w[|b| + 1..] == t;
    assert a == w[..|a|] && b == w[..|b|];
  }

  lemma PortHasNoColon(p: int)
    ensures ':' !in PortText(p)
  {
    var digits := Itoa(if p < 0 then -p else p);
    assert forall c :: c in digits ==> IsDigit(c);
  }

  lemma PortTells(p: int, q: int)
    requires PortText(p) == PortText(q)
    ensures p == q
  {
    var s, t := Itoa(if p < 0 then -p else p), Itoa(if q < 0 then -q else q);
    assert IsDigit(s[0]) && IsDigit(t[0]);
    if p < 0 {
      assert PortText(p)[1..] == s && PortText(q)[0] == '-' && PortText(q)[1..] == t;
    }
  }

  /** The names among the nodes are answered with IPv4 addresses only. */
  ghost predicate AnswersQuads(lookup: Lookup, nodes: seq<Node>) {
    forall n, a :: n in nodes && n.Known? && a in lookup(n.address) ==> QuadOfOctets(a)
  }

  /** The host has an IPv4 address. */
  ghost predicate QuadHost(host: string) { exists a, p :: QuadOfOctets(a) && host == HostText(a, p) }

  ghost predicate QuadHosts(hosts: seq<string>) { forall h :: h in hosts ==> QuadHost(h) }

  /** Then whatever is registered has the port of a readable node and an IPv4 address, its own or one of its name's. */
  lemma NamesResolve(lookup: Lookup, nodes: seq<Node>, host: string)
    requires AnswersQuads(lookup, nodes) && host in HostsAdded(lookup, nodes)
    ensures exists n, a :: n in nodes && n.Known? && QuadOfOctets(a) && host == HostText(a, n.port)
    ensures QuadHost(host)
  {
    AddedExactly(lookup, nodes, host);
    hide HostsAdded, HostText, QuadOfOctets, IsIPv6;
    var n :| n in nodes && Registers(lookup, n, host);
    if !QuadOfOctets(n.address) {
      var a :| a in lookup(n.address) && host == HostText(a, n.port);
      assert QuadOfOctets(a);
    }
  }

  /**
   * A pass over a copy of the list, with names among the nodes: the addresses they had are taken out, as they are not
   * among the children, and the list ends up with exactly the hosts that are registered now.
   */
  lemma NamedPass(hosts: seq<string>, lookup: Lookup, nodes: seq<Node>)
    requires QuadHosts(hosts) && AnswersQuads(lookup, nodes)
    ensures var after := PassResult(hosts, lookup, nodes);
            Members(after) == Members(HostsAdded(lookup, nodes)) && QuadHosts(after)
  {
    PassReconciles(hosts, lookup, nodes);
    var after, added := PassResult(hosts, lookup, nodes), HostsAdded(lookup, nodes);
    hide PassResult, HostsAdded, HostText, QuadOfOctets;
    forall h | h in hosts && h in Reported(nodes)
      ensures h in added
    {
      var n :| n in nodes && n.Known? && h == HostText(n.address, n.port);
      var a, p :| QuadOfOctets(a) && h == HostText(a, p);
      HostTextTells(a, p, n.address, n.port);
      assert Registers(lookup, n, h);
      AddedExactly(lookup, nodes, h);
    }
    forall h | h in after
      ensures QuadHost(h)
    {
      assert h in Members(after) && h in added;
      NamesResolve(lookup, nodes, h);
    }
  }

  /** A run of passes; the lookup may answer differently each time. */
  function AfterPasses(hosts: seq<string>, passes: seq<(Lookup, seq<Node>)>): seq<string> {
    if passes == [] then hosts
    else
      var (lookup, nodes) := passes[|passes| - 1];
      PassResult(AfterPasses(hosts, passes[..|passes| - 1]), lookup, nodes)
  }

  /** After every run of passes the list has exactly the hosts that the last pass registered. */
  lemma {:induction false} NamedPasses(passes: seq<(Lookup, seq<Node>)>)
    requires forall i :: 0 <= i < |passes| ==> AnswersQuads(passes[i].0, passes[i].1)
    ensures QuadHosts(AfterPasses([], passes))
    ensures passes != [] ==> var (lookup, nodes) := passes[|passes| - 1];
                             Members(AfterPasses([], passes)) == Members(HostsAdded(lookup, nodes))
  {
    hide AnswersQuads, QuadHost, PassResult, HostsAdded;
    if passes != [] {
      var (lookup, nodes) := passes[|passes| - 1];
      var init := passes[..|passes| - 1];
      NamedPasses(init);
      NamedPass(AfterPasses([], init), lookup, nodes);
    }
  }

  // ---------------------------------------------------------------- the object

  class ZookeeperDiscovery {
    var EventChan: seq<Event>   // the events sent so far
    var Services: set<string>
    var Shutdown: map<string, bool>

    constructor ()
      ensures EventChan == [] && Services == {} && Shutdown == map[]
    {
      EventChan, Services, Shutdown := [], {}, map[];
    }

    /** The loop over the services of the last round (zookeeper_client.go:133-141). */
    method DropDeparted(lastOrder: seq<string>, cur: set<string>) returns (ok: bool)
      requires NoRepeats(lastOrder)
      modifies this`EventChan, this`Shutdown
      ensures ok <==> Members(lastOrder) - cur <= old(Shutdown).Keys
      ensures ok ==> EventChan == old(EventChan) + Removals(Outside(lastOrder, cur))
      ensures ok ==> Shutdown == Cancelled(old(Shutdown), Members(lastOrder) - cur)
    {
      hide Outside, Removals, Cancelled, Members;
      NoneYet(lastOrder, cur);
      NothingCancelled(Shutdown, Members(lastOrder[..0]) - cur);
      for i := 0 to |lastOrder|
        invariant Members(lastOrder[..i]) - cur <= old(Shutdown).Keys
        invariant EventChan == old(EventChan) + Removals(Outside(lastOrder[..i], cur))
        invariant Shutdown == Cancelled(old(Shutdown), Members(lastOrder[..i]) - cur)
      {
        var lastService := lastOrder[i];
        NextMember(lastOrder, i);
        OutsideNext(lastOrder, i, cur);
        CancelledStep(old(Shutdown), Members(lastOrder[..i]), cur, lastService);
        MoreRemovals(Outside(lastOrder[..i], cur), lastService);
        MemberAt(lastOrder, i);
        if lastService !in cur {
          if lastService !in Shutdown {
            return false;   // a nil cancel function
          }
          Shutdown := Shutdown[lastService := true];
          EventChan := EventChan + [RemoveService(lastService)];
        }
      }
      assert lastOrder[..|lastOrder|] == lastOrder;
      return true;
    }

    /** The loop over the observed services (zookeeper_client.go:143-153). */
    method AddNew(curOrder: seq<string>)
      requires NoRepeats(curOrder)
      modifies this`EventChan, this`Shutdown
      ensures EventChan == old(EventChan) + Additions(Outside(curOrder, old(Shutdown).Keys))
      ensures Shutdown == Watched(old(Shutdown), Members(curOrder))
    {
      hide Outside, Additions, Watched, Members;
      NothingNew(Shutdown, curOrder[..0]);
      NothingAdded(curOrder, Shutdown.Keys);
      for i := 0 to |curOrder|
        invariant EventChan == old(EventChan) + Additions(Outside(curOrder[..i], old(Shutdown).Keys))
        invariant Shutdown == Watched(old(Shutdown), Members(curOrder[..i]))
      {
        var service := curOrder[i];
        NextMember(curOrder, i);
        OutsideNext(curOrder, i, old(Shutdown).Keys);
        WatchedStep(old(Shutdown), Members(curOrder[..i]), service);
        MoreAdditions(Outside(curOrder[..i], old(Shutdown).Keys), service);
        if service !in Shutdown {
          Regroup(old(EventChan), Additions(Outside(curOrder[..i], old(Shutdown).Keys)), [AddService(service)]);
          Shutdown := Shutdown[service := false];
          EventChan := EventChan + [AddService(service)];
        }
      }
      assert curOrder[..|curOrder|] == curOrder;
    }

    /** One turn of watchServices, ranging over the maps in the given orders; false when it panics. */
    method watchServices(servicesChildren: seq<string>, lastOrder: seq<string>, curOrder: seq<string>,
                         ghost view: set<string>) returns (ok: bool)
      requires Enumerates(lastOrder, Services) && Enumerates(curOrder, Members(servicesChildren))
      modifies this
      ensures var next := Observe(World(old(Services), old(Shutdown), view), Members(servicesChildren));
              && ok == next.Some?
              && (ok ==> && Services == next.value.services && Shutdown == next.value.shutdown
                         && old(EventChan) <= EventChan
                         && Told(view, EventChan[|old(EventChan)|..]) == next.value.view)
    {
      ghost var w := World(Services, Shutdown, view);
      var curServices := Members(servicesChildren);
      ok := DropDeparted(lastOrder, curServices);
      assert Members(lastOrder) == Services;
      if !ok {
        return;
      }
      AddNew(curOrder);
      Services := curServices;
      TurnIs(w, curServices, Members(lastOrder));
      EventsTell(w, curServices, lastOrder, curOrder);
      assert EventChan[|old(EventChan)|..] == RoundEvents(lastOrder, curOrder, curServices, w.shutdown.Keys);
    }

    /** A cancelled watcher's last step (zookeeper_client.go:232-235). */
    method WatcherLeaves(service: string, ghost view: set<string>)
      requires service in Shutdown && Shutdown[service]
      modifies this`Shutdown
      ensures World(Services, Shutdown, view) == Exit(World(old(Services), old(Shutdown), view), service)
    {
      Shutdown := Shutdown - {service};
    }

    /**
     * One pass of watchNode over the nodes of a service (zookeeper_client.go:186-227), with the map of payloads ranged
     * over in the given order.
     */
    method watchNode(service: string, nodes: seq<Node>, order: seq<nat>, lookup: Lookup)
      requires RangesOver(order, nodes)
      modifies this`EventChan
      ensures EventChan == old(EventChan) + PassEvents(service, nodes, order, lookup)
    {
      hide Children, HostsAdded, HostEvents;
      var curAddress := Addresses(nodes, order);
      EventChan := EventChan + [RemoveHosts(service, curAddress)];
      Announce(service, nodes, lookup);
    }

    /** The loop over the map of readable nodes (zookeeper_client.go:187-189). */
    static method Addresses(nodes: seq<Node>, order: seq<nat>) returns (curAddress: seq<string>)
      requires RangesOver(order, nodes)
      ensures curAddress == Children(nodes, order)
    {
      hide HostText;
      curAddress := [];
      for i := 0 to |order|
        invariant curAddress == Children(nodes, order)[..i]
      {
        assert order[i] in order;
        var node := nodes[order[i]];
        curAddress := curAddress + [HostText(node.address, node.port)];
      }
    }

    /** The second loop of a pass (zookeeper_client.go:199-227). */
    method Announce(service: string, nodes: seq<Node>, lookup: Lookup)
      modifies this`EventChan
      ensures EventChan == old(EventChan) + HostEvents(service, HostsAdded(lookup, nodes))
    {
      assert EventChan == EventChan + HostEvents(service, HostsAdded(lookup, nodes[..0]));
      hide HostEvents;
      for i := 0 to |nodes|
        invariant EventChan == old(EventChan) + HostEvents(service, HostsAdded(lookup, nodes[..i]))
      {
        hide HostsOf;
        HostsNext(lookup, nodes, i);
        hide HostsAdded;
        assert nodes[..i + 1][..i] == nodes[..i];
        var hosts := RegisteredBy(nodes[i], lookup);
        var events := HostEvents(service, hosts);
        ghost var earlier := HostEvents(service, HostsAdded(lookup, nodes[..i]));
        MoreHosts(service, HostsAdded(lookup, nodes[..i]), hosts);
        Regroup(old(EventChan), earlier, events);
        EventChan := EventChan + events;
      }
      assert nodes[..|nodes|] == nodes;
    }

    /** The switch on the kind of address (zookeeper_client.go:200-227). */
    static method RegisteredBy(node: Node, lookup: Lookup) returns (hosts: seq<string>)
      ensures hosts == HostsOf(lookup, node)
    {
      if node.Unreadable? {
        return [];
      }
      var kind := ValidIPAddress(node.address);
      match kind {
        case IPv4 =>
          return [HostText(node.address, node.port)];
        case IPv6 =>
          return [];
        case Neither =>
          var addrs := lookup(node.address);
          hosts := [];
          for i := 0 to |addrs|
            invariant |hosts| == i && forall j :: 0 <= j < i ==> hosts[j] == HostText(addrs[j], node.port)
          {
            hosts := hosts + [HostText(addrs[i], node.port)];
          }
      }
    }
  }

  function Cancelled(shutdown: map<string, bool>, gone: set<string>): map<string, bool> {
    map s | s in shutdown :: if s in gone then true else shutdown[s]
  }

  function Watched(shutdown: map<string, bool>, cur: set<string>): map<string, bool> {
    map s | s in shutdown.Keys + cur :: s in shutdown && shutdown[s]
  }

  lemma OutsideNext(order: seq<string>, i: nat, keep: set<string>)
    requires i < |order|
    ensures Outside(order[..i + 1], keep)
         == if order[i] in keep then Outside(order[..i], keep) else Outside(order[..i], keep) + [order[i]]
  {
    assert order[..i + 1][..i] == order[..i];
  }

  lemma NoneYet(order: seq<string>, keep: set<string>)
    ensures Members(order[..0]) == {} && Removals(Outside(order[..0], keep)) == []
  {
  }

  lemma MemberAt(order: seq<string>, i: nat)
    requires i < |order|
    ensures order[i] in Members(order)
  {
  }

  lemma NothingAdded(order: seq<string>, keep: set<string>)
    ensures Additions(Outside(order[..0], keep)) == []
  {
  }

  lemma NothingNew(shutdown: map<string, bool>, none: seq<string>)
    requires none == []
    ensures Watched(shutdown, Members(none)) == shutdown
  {
  }

  lemma WatchedStep(shutdown: map<string, bool>, cur: set<string>, s: string)
    requires s !in cur
    ensures s in Watched(shutdown, cur) <==> s in shutdown
    ensures Watched(shutdown, cur + {s})
         == if s in shutdown then Watched(shutdown, cur) else Watched(shutdown, cur)[s := false]
  {
  }

  lemma NextMember(order: seq<string>, i: nat)
    requires NoRepeats(order) && i < |order|
    ensures order[i] !in Members(order[..i]) && Members(order[..i + 1]) == Members(order[..i]) + {order[i]}
  {
  }

  lemma NothingCancelled(shutdown: map<string, bool>, gone: set<string>)
    requires gone == {}
    ensures Cancelled(shutdown, gone) == shutdown
  {
  }

  lemma CancelledStep(shutdown: map<string, bool>, last: set<string>, cur: set<string>, s: string)
    ensures Cancelled(shutdown, last - cur).Keys == shutdown.Keys
    ensures Cancelled(shutdown, last + {s} - cur)
         == if s in cur || s !in shutdown then Cancelled(shutdown, last - cur)
             else Cancelled(shutdown, last - cur)[s := true]
  {
  }

  lemma TurnIs(w: World, cur: set<string>, last: set<string>)
    requires last == w.services
    ensures Watched(Cancelled(w.shutdown, last - cur), cur) == Watchers(w.shutdown, w.services, cur)
    ensures Cancelled(w.shutdown, last - cur).Keys == w.shutdown.Keys
  {
  }

  lemma HostsNext(lookup: Lookup, nodes: seq<Node>, i: nat)
    requires i < |nodes|
    ensures HostsAdded(lookup, nodes[..i + 1]) == HostsAdded(lookup, nodes[..i]) + HostsOf(lookup, nodes[i])
  {
    assert nodes[..i + 1][..i] == nodes[..i];
  }

  lemma Regroup(a: seq<Event>, b: seq<Event>, c: seq<Event>)
    ensures a + b + c == a + (b + c)
  {
  }

  lemma MoreHosts(service: string, a: seq<string>, b: seq<string>)
    ensures HostEvents(service, a + b) == HostEvents(service, a) + HostEvents(service, b)
  {
  }

  lemma MoreRemovals(services: seq<string>, service: string)
    ensures Removals(services + [service]) == Removals(services) + [RemoveService(service)]
  {
  }

  lemma MoreAdditions(services: seq<string>, service: string)
    ensures Additions(services + [service]) == Additions(services) + [AddService(service)]
  {
  }
}
