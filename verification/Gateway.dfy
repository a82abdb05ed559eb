/**
 * The replicated state of the gateway, one HTTP proxy a port, and what each log entry does to it
 * (vermouth/context.go, vermouth/log_entry_handler.go, vermouth/http_proxy.go). Every replica applies the same
 * entries in the same order. None stands for a Go panic. Where entries are applied it ends the process; in standalone
 * mode the requests of administrators run under net/http (vermouth/http_server.go:69), which recovers a handler's
 * panic, and the process goes on with what the call had changed by then (`HalfPrefix`).
 */
module Gateway {
  import opened Text
  import Cidr
  import Word
  import opened ConsistentHash
  import opened AclSpec
  import opened AclIndex
  import opened Balancer
  import RingList

  const HASH_PREFIXER := "hash-prefixer"

  /** The hash function, and whether the ring's Add extends its host list: false in the committed code. */
  datatype Code = Code(hash: Hash, extendsList: bool)

  datatype Proxy = Proxy(
    port: int,
    prefixerType: string,
    paths: map<string, seq<string>>,
    balancerType: map<string, string>,
    staticMapping: map<string, bool>,
    acl: Acl,
    available: bool,
    mapping: map<string, Balancer>)

  type Context = map<int, Proxy>

  datatype Edit =
    | AddPrefix(prefix: string, algo: string, hosts: seq<string>, isStatic: bool)
    | RemovePrefix(prefix: string)
    | AddHost(prefix: string, host: string)
    | RemoveHost(prefix: string, host: string)
    | AddBlackList(ips: seq<string>)
    | RemoveBlackList(ips: seq<string>)
    | ChangeStatic(prefix: string)
    | ChangeLb(prefix: string, lb: string)
    | ChangeState(state: int)

  /** A log entry; `Ignored` has an unknown option or a body that does not decode. */
  datatype Entry =
    | AddProxy(port: int, prefixerType: string)
    | RemoveProxy(port: int)
    | EditProxy(port: int, edit: Edit)
    | Ignored

  // ---------------------------------------------------------------- one proxy

  function NewProxy(port: int, prefixerType: string): Option<Proxy> {
    if prefixerType == HASH_PREFIXER
    then Some(Proxy(port, prefixerType, map[], map[], map[], EMPTY_ACL, true, map[]))
    else None
  }

  function PutBalancer(p: Proxy, prefix: string, b: Balancer): Proxy {
    p.(mapping := p.mapping[prefix := b], paths := p.paths[prefix := b.Hosts()])
  }

  /** A mapped prefix stays as it is. An unsupported algorithm leaves no balancer to ask for its hosts. */
  function WithPrefix(code: Code, p: Proxy, prefix: string, algo: string, hosts: seq<string>,
                      isStatic: bool): Option<Proxy>
  {
    if prefix in p.mapping then Some(p)
    else match BuildBalancer(code.hash, algo, hosts)
         case None => None
         case Some(b) =>
           Some(PutBalancer(p, prefix, b).(
                staticMapping := p.staticMapping[prefix := isStatic],
                balancerType := p.balancerType[prefix := algo]))
  }

  lemma NewPrefix(code: Code, p: Proxy, prefix: string, algo: string, hosts: seq<string>, isStatic: bool, b: Balancer)
    requires prefix !in p.mapping && BuildBalancer(code.hash, algo, hosts) == Some(b) && b.Hosts() == hosts
    ensures WithPrefix(code, p, prefix, algo, hosts, isStatic)
         == Some(Proxy(p.port, p.prefixerType, p.paths[prefix := hosts], p.balancerType[prefix := algo],
                       p.staticMapping[prefix := isStatic], p.acl, p.available, p.mapping[prefix := b]))
  {
    hide BuildBalancer, Balancer.Hosts;
  }

  /** What an AddPrefix that panics has changed by then. */
  function HalfPrefix(p: Proxy, prefix: string, algo: string, isStatic: bool): Proxy {
    p.(staticMapping := p.staticMapping[prefix := isStatic], balancerType := p.balancerType[prefix := algo])
  }

  /** The static flag stays behind. */
  function WithoutPrefix(p: Proxy, prefix: string): Proxy {
    p.(paths := p.paths - {prefix}, balancerType := p.balancerType - {prefix}, mapping := p.mapping - {prefix})
  }

  function WithHost(code: Code, p: Proxy, prefix: string, host: string): Option<Proxy> {
    if prefix !in p.mapping then None
    else Some(PutBalancer(p, prefix, p.mapping[prefix].Add(code.hash, host, code.extendsList)))
  }

  function WithoutHost(code: Code, p: Proxy, prefix: string, host: string): Option<Proxy> {
    if prefix !in p.mapping then None
    else match p.mapping[prefix].Remove(code.hash, host)
         case None => None
         case Some(b) => Some(PutBalancer(p, prefix, b))
  }

  /** A missing flag reads as false. */
  function IsStatic(p: Proxy, prefix: string): bool { prefix in p.staticMapping && p.staticMapping[prefix] }

  function WithBalancerType(code: Code, p: Proxy, prefix: string, lb: string): Option<Proxy> {
    if prefix !in p.mapping then None
    else WithPrefix(code, WithoutPrefix(p, prefix), prefix, lb, p.mapping[prefix].Hosts(), IsStatic(p, prefix))
  }

  predicate StepCrashes(a: Acl, op: AclOp) {
    match op
    case AddIp(ip) => AddResult(ip).Crashed?
    case DeleteIp(ip) => DeleteResult(a, ip).Crashed?
  }

  function OpOn(ip: string, ban: bool): AclOp { if ban then AddIp(ip) else DeleteIp(ip) }

  /** Banning or unbanning some networks one after the other; other errors are only logged. */
  function Listed(a: Acl, ips: seq<string>, ban: bool): Option<Acl> {
    if ips == [] then Some(a)
    else match Listed(a, ips[..|ips| - 1], ban)
         case None => None
         case Some(b) =>
           var op := OpOn(ips[|ips| - 1], ban);
           if StepCrashes(b, op) then None else Some(Step(b, op))
  }

  function WithAcl(p: Proxy, acl: Option<Acl>): Option<Proxy> {
    match acl
    case None => None
    case Some(a) => Some(p.(acl := a))
  }

  /** What an entry does to its proxy. Closing is left to `Apply`. */
  function Edited(code: Code, p: Proxy, edit: Edit): Option<Proxy> {
    match edit
    case AddPrefix(prefix, algo, hosts, isStatic) => WithPrefix(code, p, prefix, algo, hosts, isStatic)
    case RemovePrefix(prefix) => Some(WithoutPrefix(p, prefix))
    case AddHost(prefix, host) => WithHost(code, p, prefix, host)
    case RemoveHost(prefix, host) => WithoutHost(code, p, prefix, host)
    case AddBlackList(ips) => WithAcl(p, Listed(p.acl, ips, true))
    case RemoveBlackList(ips) => WithAcl(p, Listed(p.acl, ips, false))
    case ChangeStatic(prefix) => Some(p.(staticMapping := p.staticMapping[prefix := !IsStatic(p, prefix)]))
    case ChangeLb(prefix, lb) => WithBalancerType(code, p, prefix, lb)
    case ChangeState(state) => Some(p.(available := state == 1))
  }

  /** States 1 and 2 start and stop a proxy, every other state closes it. */
  predicate Closes(edit: Edit) { edit.ChangeState? && edit.state != 1 && edit.state != 2 }

  // ---------------------------------------------------------------- the context

  function Apply(code: Code, ctx: Context, e: Entry): Option<Context> {
    match e
    case Ignored => Some(ctx)
    case AddProxy(port, prefixerType) =>
      (match NewProxy(port, prefixerType)
       case None => None
       case Some(p) => Some(if port in ctx then ctx else ctx[port := p]))
    case RemoveProxy(port) => if port !in ctx then None else Some(ctx - {port})
    case EditProxy(port, edit) =>
      if port !in ctx then None
      else if Closes(edit) then Some(ctx - {port})
      else match Edited(code, ctx[port], edit)
           case None => None
           case Some(p) => Some(ctx[port := p])
  }

  function Replay(code: Code, ctx: Context, log: seq<Entry>): Option<Context>
    decreases |log|
  {
    if log == [] then Some(ctx)
    else match Apply(code, ctx, log[0])
         case None => None
         case Some(next) => Replay(code, next, log[1..])
  }

  // ---------------------------------------------------------------- what every log keeps

  /** The proxy's parallel maps tell the same story, and its ban list is covered by its text index. */
  ghost predicate Coherent(p: Proxy) {
    && p.mapping.Keys == p.paths.Keys == p.balancerType.Keys && p.mapping.Keys <= p.staticMapping.Keys
    && (forall k :: k in p.mapping ==>
          p.mapping[k].Mode() == p.balancerType[k] && p.mapping[k].Hosts() == p.paths[k] && p.mapping[k].Ordered())
    && p.prefixerType == HASH_PREFIXER && IndexCovers(p.acl)
  }

  ghost predicate CoherentContext(ctx: Context) {
    forall port :: port in ctx ==> ctx[port].port == port && Coherent(ctx[port])
  }

  lemma BuiltMode(hash: Hash, algo: string, hosts: seq<string>)
    ensures BuildBalancer(hash, algo, hosts).Some? <==> algo in {ROUND_ROBIN, CONSISTENCE_HASH}
    ensures BuildBalancer(hash, algo, hosts).Some? ==>
              var b := BuildBalancer(hash, algo, hosts).value;
              b.Mode() == algo && b.Hosts() == hosts && b.Rebuilds(hash) && b.Ordered()
  {
  }

  lemma PutOver<V>(m: map<string, V>, k: string, v: V, w: V)
    ensures m[k := v][k := w] == m[k := w]
  {
  }

  /**
   * An AddPrefix that panics and is recovered: the proxy is left with a balancer type for a prefix without paths, so
   * that the parallel maps disagree, and adding the prefix once more with an algorithm there is comes to the same as
   * if nothing had happened.
   */
  lemma RecoveredPrefix(code: Code, p: Proxy, prefix: string, algo: string, hosts: seq<string>, isStatic: bool)
    requires Coherent(p) && WithPrefix(code, p, prefix, algo, hosts, isStatic).None?
    ensures var q := HalfPrefix(p, prefix, algo, isStatic);
            && !Coherent(q) && prefix !in q.paths
            && forall good, others, flag :: good in {ROUND_ROBIN, CONSISTENCE_HASH} ==>
                 && WithPrefix(code, q, prefix, good, others, flag).Some?
                 && WithPrefix(code, q, prefix, good, others, flag) == WithPrefix(code, p, prefix, good, others, flag)
  {
    hide IndexCovers, Balancer.Mode, Balancer.Hosts;
    var q := HalfPrefix(p, prefix, algo, isStatic);
    assert prefix in q.balancerType && prefix !in q.mapping;
    forall good, others, flag | good in {ROUND_ROBIN, CONSISTENCE_HASH}
      ensures WithPrefix(code, q, prefix, good, others, flag).Some?
      ensures WithPrefix(code, q, prefix, good, others, flag) == WithPrefix(code, p, prefix, good, others, flag)
    {
      PutOver(p.staticMapping, prefix, isStatic, flag);
      PutOver(p.balancerType, prefix, algo, good);
      BuiltMode(code.hash, good, others);
      hide BuildBalancer;
    }
  }

  /**
   * A change to an algorithm there is not, when recovered, has taken the prefix and all its hosts away, and the
   * parallel maps disagree.
   */
  lemma RecoveredMode(code: Code, p: Proxy, prefix: string, lb: string)
    requires Coherent(p) && prefix in p.mapping && WithBalancerType(code, p, prefix, lb).None?
    ensures var q := HalfPrefix(WithoutPrefix(p, prefix), prefix, lb, IsStatic(p, prefix));
            !Coherent(q) && q.paths == p.paths - {prefix} && q.mapping == p.mapping - {prefix}
  {
    hide IndexCovers, Balancer.Mode, Balancer.Hosts, WithPrefix;
    var q := HalfPrefix(WithoutPrefix(p, prefix), prefix, lb, IsStatic(p, prefix));
    assert prefix in q.balancerType && prefix !in q.mapping;
  }

  lemma {:induction false} ListedKeepsIndex(a: Acl, ips: seq<string>, ban: bool)
    requires IndexCovers(a) && Listed(a, ips, ban).Some?
    ensures IndexCovers(Listed(a, ips, ban).value)
  {
    hide IndexCovers, Step, StepCrashes;
    if ips != [] {
      ListedKeepsIndex(a, ips[..|ips| - 1], ban);
      var b := Listed(a, ips[..|ips| - 1], ban).value;
      StepKeepsIndex(b, OpOn(ips[|ips| - 1], ban));
    }
  }

  lemma PutKeepsCoherent(p: Proxy, prefix: string, b: Balancer)
    requires Coherent(p) && prefix in p.mapping && b.Mode() == p.mapping[prefix].Mode() && b.Ordered()
    ensures Coherent(PutBalancer(p, prefix, b))
  {
    hide IndexCovers, Balancer.Mode, Balancer.Hosts, Balancer.Ordered;
    var q := PutBalancer(p, prefix, b);
    assert q.mapping.Keys == p.mapping.Keys && q.paths.Keys == p.paths.Keys;
    forall k | k in q.mapping
      ensures q.mapping[k].Mode() == q.balancerType[k] && q.mapping[k].Hosts() == q.paths[k] && q.mapping[k].Ordered()
    {
    }
  }

  lemma PrefixKeepsCoherent(code: Code, p: Proxy, prefix: string, algo: string, hosts: seq<string>, isStatic: bool)
    requires Coherent(p)
    ensures var q := WithPrefix(code, p, prefix, algo, hosts, isStatic);
            && (q.Some? <==> prefix in p.paths || algo in {ROUND_ROBIN, CONSISTENCE_HASH})
            && (q.Some? ==> Coherent(q.value) && q.value.port == p.port)
  {
    hide IndexCovers, Balancer.Mode, Balancer.Hosts, BuildBalancer, Balancer.Rebuilds, Balancer.Ordered;
    BuiltMode(code.hash, algo, hosts);
  }

  lemma RemovalKeepsCoherent(p: Proxy, prefix: string)
    requires Coherent(p)
    ensures Coherent(WithoutPrefix(p, prefix))
  {
    hide IndexCovers, Balancer.Mode, Balancer.Hosts, Balancer.Ordered;
  }

  lemma AddKeepsOrder(hash: Hash, b: Balancer, host: string, extendsList: bool)
    requires b.Ordered()
    ensures b.Add(hash, host, extendsList).Ordered() && b.Add(hash, host, extendsList).Mode() == b.Mode()
  {
  }

  lemma RemoveKeepsOrder(hash: Hash, b: Balancer, host: string)
    requires b.Ordered() && b.Remove(hash, host).Some?
    ensures b.Remove(hash, host).value.Ordered() && b.Remove(hash, host).value.Mode() == b.Mode()
  {
    if b.Hashed? {
      RingList.RemoveKeepsSorted(b.ring, Points(hash, host));
    }
  }

  lemma EditKeepsCoherent(code: Code, p: Proxy, edit: Edit)
    requires Coherent(p) && Edited(code, p, edit).Some?
    ensures Coherent(Edited(code, p, edit).value) && Edited(code, p, edit).value.port == p.port
  {
    match edit {
      case AddPrefix(prefix, algo, hosts, isStatic) =>
        PrefixKeepsCoherent(code, p, prefix, algo, hosts, isStatic);
      case RemovePrefix(prefix) =>
        RemovalKeepsCoherent(p, prefix);
      case AddHost(prefix, host) =>
        AddKeepsOrder(code.hash, p.mapping[prefix], host, code.extendsList);
        PutKeepsCoherent(p, prefix, p.mapping[prefix].Add(code.hash, host, code.extendsList));
      case RemoveHost(prefix, host) =>
        RemoveKeepsOrder(code.hash, p.mapping[prefix], host);
        PutKeepsCoherent(p, prefix, p.mapping[prefix].Remove(code.hash, host).value);
      case ChangeLb(prefix, lb) =>
        RemovalKeepsCoherent(p, prefix);
        PrefixKeepsCoherent(code, WithoutPrefix(p, prefix), prefix, lb, p.mapping[prefix].Hosts(), IsStatic(p, prefix));
      case AddBlackList(ips) =>
        ListedKeepsIndex(p.acl, ips, true);
      case RemoveBlackList(ips) =>
        ListedKeepsIndex(p.acl, ips, false);
      case ChangeStatic(_) =>
      case ChangeState(_) =>
    }
  }

  lemma ApplyKeepsCoherent(code: Code, ctx: Context, e: Entry)
    requires CoherentContext(ctx) && Apply(code, ctx, e).Some?
    ensures CoherentContext(Apply(code, ctx, e).value)
  {
    if e.EditProxy? && !Closes(e.edit) {
      EditKeepsCoherent(code, ctx[e.port], e.edit);
    }
    hide Edited;
  }

  /** Every log whatever, from the empty context or any coherent one. */
  lemma {:induction false} ReplayKeepsCoherent(code: Code, ctx: Context, log: seq<Entry>)
    requires CoherentContext(ctx) && Replay(code, ctx, log).Some?
    ensures CoherentContext(Replay(code, ctx, log).value)
    decreases |log|
  {
    hide CoherentContext, Apply;
    if log != [] {
      ApplyKeepsCoherent(code, ctx, log[0]);
      ReplayKeepsCoherent(code, Apply(code, ctx, log[0]).value, log[1..]);
    }
  }

  /** `q` is `p` with the balancer of one prefix rebuilt in mode `lb`, from the same hosts. */
  ghost predicate ModeChanged(p: Proxy, q: Proxy, prefix: string, lb: string) {
    && q == p.(balancerType := p.balancerType[prefix := lb], mapping := q.mapping)
    && q.mapping.Keys == p.mapping.Keys && prefix in q.mapping && q.mapping[prefix].Mode() == lb
    && forall k :: k in p.mapping && k != prefix ==> q.mapping[k] == p.mapping[k]
  }

  lemma PutBack<V>(m: map<string, V>, k: string, v: V)
    ensures (m - {k})[k := v] == m[k := v]
    ensures k in m && m[k] == v ==> m[k := v] == m
  {
  }

  /** Taking a prefix away and adding it with another balancer of the same hosts. */
  lemma PutAnew(code: Code, p: Proxy, prefix: string, lb: string, b: Balancer)
    requires Coherent(p) && prefix in p.mapping && BuildBalancer(code.hash, lb, p.paths[prefix]) == Some(b)
    requires b.Hosts() == p.paths[prefix]
    ensures WithPrefix(code, WithoutPrefix(p, prefix), prefix, lb, p.paths[prefix], IsStatic(p, prefix))
         == Some(p.(balancerType := p.balancerType[prefix := lb], mapping := p.mapping[prefix := b]))
  {
    hide BuildBalancer, IndexCovers, Balancer.Mode, Balancer.Hosts, WithPrefix;
    NewPrefix(code, WithoutPrefix(p, prefix), prefix, lb, p.paths[prefix], IsStatic(p, prefix), b);
    PutBack(p.paths, prefix, p.paths[prefix]);
    PutBack(p.staticMapping, prefix, IsStatic(p, prefix));
    PutBack(p.balancerType, prefix, lb);
    PutBack(p.mapping, prefix, b);
  }

  /** Changing the balancing mode works exactly for a mapped prefix and a supported mode; hosts and flags stay. */
  lemma ChangeLbKeepsHosts(code: Code, p: Proxy, prefix: string, lb: string)
    requires Coherent(p)
    ensures var q := Edited(code, p, ChangeLb(prefix, lb));
            && (q.Some? <==> prefix in p.paths && lb in {ROUND_ROBIN, CONSISTENCE_HASH})
            && (q.Some? ==> ModeChanged(p, q.value, prefix, lb))
  {
    hide BuildBalancer, IndexCovers, Balancer.Mode, Balancer.Hosts, Balancer.Rebuilds;
    if prefix in p.mapping {
      BuiltMode(code.hash, lb, p.paths[prefix]);
      var built := BuildBalancer(code.hash, lb, p.paths[prefix]);
      if built.Some? {
        PutAnew(code, p, prefix, lb, built.value);
        hide WithPrefix, WithoutPrefix;
      }
    }
  }

  /** Prefixes other than `k` and everything that is not kept by prefix are the same. */
  ghost predicate SameExcept(p: Proxy, q: Proxy, k: string) {
    && q == p.(paths := q.paths, balancerType := q.balancerType, staticMapping := q.staticMapping, mapping := q.mapping)
    && SameElsewhere(p.paths, q.paths, k) && SameElsewhere(p.balancerType, q.balancerType, k)
    && SameElsewhere(p.staticMapping, q.staticMapping, k) && SameElsewhere(p.mapping, q.mapping, k)
  }

  ghost predicate SameElsewhere<V(!new)>(m: map<string, V>, n: map<string, V>, k: string) {
    forall j :: j != k ==> (j in m <==> j in n) && (j in m ==> n[j] == m[j])
  }

  /** What an edit is about: one prefix, or the ban list, or the availability; the rest of the proxy stays. */
  ghost predicate Local(p: Proxy, q: Proxy, edit: Edit) {
    match edit
    case AddPrefix(k, algo, hosts, isStatic) =>
      && SameExcept(p, q, k) && (k in p.mapping ==> q == p)
      && (k !in p.mapping ==> && k in q.mapping && q.mapping[k].Mode() == algo && q.mapping[k].Hosts() == hosts
                              && IsStatic(q, k) == isStatic)
    case RemovePrefix(k) => SameExcept(p, q, k) && k !in q.mapping && k !in q.paths && k !in q.balancerType
        && IsStatic(q, k) == IsStatic(p, k)
    case AddHost(k, _) => SameExcept(p, q, k) && k in q.mapping && IsStatic(q, k) == IsStatic(p, k)
    case RemoveHost(k, _) => SameExcept(p, q, k) && k in q.mapping && IsStatic(q, k) == IsStatic(p, k)
    case ChangeStatic(k) => SameExcept(p, q, k) && q == p.(staticMapping := q.staticMapping)
        && IsStatic(q, k) != IsStatic(p, k)
    case ChangeLb(k, lb) => SameExcept(p, q, k) && ModeChanged(p, q, k, lb)
    case AddBlackList(_) => q == p.(acl := q.acl)
    case RemoveBlackList(_) => q == p.(acl := q.acl)
    case ChangeState(state) => q == p.(available := q.available) && (q.available <==> state == 1)
  }

  lemma PutIsLocal(p: Proxy, k: string, b: Balancer)
    ensures SameExcept(p, PutBalancer(p, k, b), k) && k in PutBalancer(p, k, b).mapping
  {
    hide Balancer.Hosts;
  }

  lemma PrefixIsLocal(code: Code, p: Proxy, k: string, algo: string, hosts: seq<string>, isStatic: bool)
    requires WithPrefix(code, p, k, algo, hosts, isStatic).Some?
    ensures Local(p, WithPrefix(code, p, k, algo, hosts, isStatic).value, Edit.AddPrefix(k, algo, hosts, isStatic))
  {
    BuiltMode(code.hash, algo, hosts);
    hide BuildBalancer, Balancer.Mode, Balancer.Hosts, Balancer.Rebuilds;
    if k !in p.mapping {
      NewPrefix(code, p, k, algo, hosts, isStatic, BuildBalancer(code.hash, algo, hosts).value);
      hide WithPrefix;
    }
  }

  lemma ModeIsLocal(p: Proxy, q: Proxy, k: string, lb: string)
    requires ModeChanged(p, q, k, lb)
    ensures SameExcept(p, q, k)
  {
    hide Balancer.Mode;
  }

  lemma EditIsLocal(code: Code, p: Proxy, edit: Edit)
    requires Coherent(p) && Edited(code, p, edit).Some?
    ensures Local(p, Edited(code, p, edit).value, edit)
  {
    hide Coherent, Balancer.Mode, Balancer.Hosts, Balancer.Add, Balancer.Remove, Listed, WithPrefix, SameExcept;
    match edit {
      case AddPrefix(k, algo, hosts, isStatic) => PrefixIsLocal(code, p, k, algo, hosts, isStatic);
      case RemovePrefix(k) => RemovalIsLocal(p, k);
      case AddHost(k, host) => PutIsLocal(p, k, p.mapping[k].Add(code.hash, host, code.extendsList));
      case RemoveHost(k, host) => PutIsLocal(p, k, p.mapping[k].Remove(code.hash, host).value);
      case ChangeStatic(k) => ToggleIsLocal(p, k);
      case ChangeLb(k, lb) =>
        ChangeLbKeepsHosts(code, p, k, lb);
        ModeIsLocal(p, Edited(code, p, edit).value, k, lb);
      case AddBlackList(_) =>
      case RemoveBlackList(_) =>
      case ChangeState(_) =>
    }
  }

  lemma RemovalIsLocal(p: Proxy, k: string)
    ensures SameExcept(p, WithoutPrefix(p, k), k)
  {
  }

  lemma ToggleIsLocal(p: Proxy, k: string)
    ensures SameExcept(p, p.(staticMapping := p.staticMapping[k := !IsStatic(p, k)]), k)
  {
  }

  /** An entry changes nothing at any port but its own. */
  lemma ApplyIsLocal(code: Code, ctx: Context, e: Entry)
    requires CoherentContext(ctx) && Apply(code, ctx, e).Some?
    ensures var next := Apply(code, ctx, e).value;
            match e
            case Ignored => next == ctx
            case AddProxy(port, _) => port in next && next - {port} == ctx - {port} && (port in ctx ==> next == ctx)
            case RemoveProxy(port) => next == ctx - {port}
            case EditProxy(port, edit) =>
              && next - {port} == ctx - {port}
              && (if Closes(edit) then port !in next else port in next && Local(ctx[port], next[port], edit))
  {
    if e.EditProxy? && !Closes(e.edit) {
      EditIsLocal(code, ctx[e.port], e.edit);
      hide Edited, Local, Coherent;
    } else {
      hide Edited, Local, Coherent;
    }
  }

  /** Replaying in two parts. */
  lemma {:induction false} ReplaySplits(code: Code, ctx: Context, a: seq<Entry>, b: seq<Entry>)
    ensures Replay(code, ctx, a + b)
         == match Replay(code, ctx, a) case None => None case Some(mid) => Replay(code, mid, b)
    decreases |a|
  {
    hide Apply;
    if a == [] {
      assert a + b == b;
    } else {
      assert (a + b)[1..] == a[1..] + b;
      if Apply(code, ctx, a[0]).Some? {
        ReplaySplits(code, Apply(code, ctx, a[0]).value, a[1..], b);
      }
    }
  }

  // ---------------------------------------------------------------- states that no later entry can tell apart

  predicate AclLike(a: Acl, b: Acl) { a.record == b.record && a.stored.Keys == b.stored.Keys }

  /** Equal but for round-robin counters and for the texts stored at banned networks. */
  predicate ProxyLike(p: Proxy, q: Proxy) {
    && q == p.(acl := q.acl, mapping := q.mapping) && AclLike(p.acl, q.acl)
    && p.mapping.Keys == q.mapping.Keys && forall k :: k in p.mapping ==> p.mapping[k].Like(q.mapping[k])
  }

  predicate ContextLike(c: Context, d: Context) {
    c.Keys == d.Keys && forall port :: port in c ==> ProxyLike(c[port], d[port])
  }

  lemma {:induction false} ListedLike(a: Acl, b: Acl, ips: seq<string>, ban: bool)
    requires AclLike(a, b)
    ensures Listed(a, ips, ban).Some? == Listed(b, ips, ban).Some?
    ensures Listed(a, ips, ban).Some? ==> AclLike(Listed(a, ips, ban).value, Listed(b, ips, ban).value)
  {
    hide Cidr.ParseNet, Cidr.PathOf;
    if ips != [] {
      ListedLike(a, b, ips[..|ips| - 1], ban);
    }
  }

  lemma PutLike(p: Proxy, q: Proxy, prefix: string, b: Balancer, c: Balancer)
    requires ProxyLike(p, q) && b.Like(c)
    ensures ProxyLike(PutBalancer(p, prefix, b), PutBalancer(q, prefix, c))
  {
    assert b.Hosts() == c.Hosts();
    hide AclLike, Balancer.Like, Balancer.Hosts;
  }

  lemma PrefixLike(code: Code, p: Proxy, q: Proxy, prefix: string, algo: string, hosts: seq<string>, isStatic: bool)
    requires ProxyLike(p, q)
    ensures var p' := WithPrefix(code, p, prefix, algo, hosts, isStatic);
            var q' := WithPrefix(code, q, prefix, algo, hosts, isStatic);
            p'.Some? == q'.Some? && (p'.Some? ==> ProxyLike(p'.value, q'.value))
  {
    hide AclLike, BuildBalancer;
    if prefix !in p.mapping && BuildBalancer(code.hash, algo, hosts).Some? {
      var b := BuildBalancer(code.hash, algo, hosts).value;
      PutLike(p, q, prefix, b, b);
    }
    hide Balancer.Like, Balancer.Hosts;
  }

  lemma RemovalLike(p: Proxy, q: Proxy, prefix: string)
    requires ProxyLike(p, q)
    ensures ProxyLike(WithoutPrefix(p, prefix), WithoutPrefix(q, prefix))
  {
    hide AclLike, Balancer.Like;
  }

  lemma HostLike(hash: Hash, extendsList: bool, b: Balancer, c: Balancer, host: string)
    requires b.Like(c)
    ensures b.Add(hash, host, extendsList).Like(c.Add(hash, host, extendsList))
    ensures b.Remove(hash, host).Some? == c.Remove(hash, host).Some?
    ensures b.Remove(hash, host).Some? ==> b.Remove(hash, host).value.Like(c.Remove(hash, host).value)
    ensures b.Hosts() == c.Hosts()
  {
    hide ConsistentHash.RemoveHost, ConsistentHash.AddHost;
  }

  lemma EditLike(code: Code, p: Proxy, q: Proxy, edit: Edit)
    requires ProxyLike(p, q)
    ensures var p', q' := Edited(code, p, edit), Edited(code, q, edit);
            p'.Some? == q'.Some? && (p'.Some? ==> ProxyLike(p'.value, q'.value))
  {
    hide Listed, AclLike, BuildBalancer, Balancer.Like, Balancer.Hosts, Balancer.Add, Balancer.Remove;
    match edit {
      case AddPrefix(prefix, algo, hosts, isStatic) =>
        PrefixLike(code, p, q, prefix, algo, hosts, isStatic);
      case RemovePrefix(prefix) =>
        RemovalLike(p, q, prefix);
      case AddHost(prefix, host) =>
        if prefix in p.mapping {
          var b, c := p.mapping[prefix], q.mapping[prefix];
          HostLike(code.hash, code.extendsList, b, c, host);
          PutLike(p, q, prefix, b.Add(code.hash, host, code.extendsList), c.Add(code.hash, host, code.extendsList));
        }
      case RemoveHost(prefix, host) =>
        if prefix in p.mapping {
          var b, c := p.mapping[prefix], q.mapping[prefix];
          HostLike(code.hash, code.extendsList, b, c, host);
          if b.Remove(code.hash, host).Some? {
            PutLike(p, q, prefix, b.Remove(code.hash, host).value, c.Remove(code.hash, host).value);
          }
        }
      case ChangeLb(prefix, lb) =>
        if prefix in p.mapping {
          HostLike(code.hash, code.extendsList, p.mapping[prefix], q.mapping[prefix], "");
          RemovalLike(p, q, prefix);
          PrefixLike(code, WithoutPrefix(p, prefix), WithoutPrefix(q, prefix), prefix, lb, p.mapping[prefix].Hosts(),
                     IsStatic(p, prefix));
        }
      case AddBlackList(ips) =>
        ListedLike(p.acl, q.acl, ips, true);
      case RemoveBlackList(ips) =>
        ListedLike(p.acl, q.acl, ips, false);
      case ChangeStatic(_) =>
      case ChangeState(_) =>
    }
  }

  lemma ApplyLike(code: Code, c: Context, d: Context, e: Entry)
    requires ContextLike(c, d)
    ensures Apply(code, c, e).Some? == Apply(code, d, e).Some?
    ensures Apply(code, c, e).Some? ==> ContextLike(Apply(code, c, e).value, Apply(code, d, e).value)
  {
    if e.EditProxy? && e.port in c {
      EditLike(code, c[e.port], d[e.port], e.edit);
    }
    hide Edited, AclLike;
  }

  /** Alike contexts stay alike under every log, or crash at the same entry. */
  lemma {:induction false} ReplayLike(code: Code, c: Context, d: Context, log: seq<Entry>)
    requires ContextLike(c, d)
    ensures Replay(code, c, log).Some? == Replay(code, d, log).Some?
    ensures Replay(code, c, log).Some? ==> ContextLike(Replay(code, c, log).value, Replay(code, d, log).value)
    decreases |log|
  {
    hide Apply, ContextLike;
    if log != [] {
      ApplyLike(code, c, d, log[0]);
      if Apply(code, c, log[0]).Some? {
        ReplayLike(code, Apply(code, c, log[0]).value, Apply(code, d, log[0]).value, log[1..]);
      }
    }
  }

  /** Alike coherent proxies turn away the same addresses. */
  lemma LikeForbids(p: Proxy, q: Proxy, key: Word.uint32)
    requires Coherent(p) && Coherent(q) && ProxyLike(p, q)
    ensures Forbidden(p.acl.stored, key) == Forbidden(q.acl.stored, key)
  {
    ForbiddenIffCovered(p.acl.stored, key);
    ForbiddenIffCovered(q.acl.stored, key);
  }
}
