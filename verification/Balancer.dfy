/** balancer/balancer.go: the balancer interface, as the states of its two implementations. */
module Balancer {
  import opened Text
  import opened ConsistentHash
  import opened RoundRobin
  import Sorting

  const ROUND_ROBIN := "round-robin"
  const CONSISTENCE_HASH := "consistence-hash"

  /** The state of a RoundRobin or of a ConsistenceHash object. */
  datatype Balancer =
    | Turns(idx: nat, hosts: seq<string>)
    | Hashed(ring: Ring, list: seq<string>)
  {
    function Mode(): string { if Turns? then ROUND_ROBIN else CONSISTENCE_HASH }

    /** Hosts(): for a hash balancer the list kept beside the ring. */
    function Hosts(): seq<string> { if Turns? then hosts else list }

    /** Add(host). The committed ring does not extend its list; with `extendsList` it would. */
    function Add(hash: Hash, host: string, extendsList: bool): Balancer {
      match this
      case Turns(idx, hosts) => Turns(idx, Added(hosts, host))
      case Hashed(ring, list) => Hashed(AddHost(hash, ring, host), if extendsList then list + [host] else list)
    }

    /** None when the ring's slice expression panics. */
    function Remove(hash: Hash, host: string): Option<Balancer> {
      match this
      case Turns(idx, hosts) => Some(Turns(idx, RemoveFirst(hosts, host)))
      case Hashed(ring, list) =>
        match RemoveHost(hash, ring, host)
        case None => None
        case Some(smaller) => Some(Hashed(smaller, RemoveFirst(list, host)))
    }

    /** The host a request is sent to, None for the empty balancer, and the state afterwards. */
    function Balance(hash: Hash, url: string): (Option<string>, Balancer) {
      match this
      case Turns(idx, hosts) =>
        if hosts == [] then (None, this) else (Some(Next(hosts, idx)), Turns(Tick(idx), hosts))
      case Hashed(ring, _) =>
        if ring.keys == [] then (None, this) else (Some(Owner(ring, hash(url))), this)
    }

    /** The same balancer up to the round-robin counter. */
    predicate Like(other: Balancer) {
      if Turns? then other.Turns? && other.hosts == hosts else other == this
    }

    /** A ring's keys are sorted, as every Add leaves them. */
    predicate Ordered() { Hashed? ==> Sorting.Sorted(ring.keys) }

    /** What building this balancer anew from its host list gives, up to the counter. */
    predicate Rebuilds(hash: Hash) {
      Hashed? ==> ring == Build(hash, list)
    }
  }

  /** Build(algo, hosts); None is AlgorithmNotSupportedError. */
  function BuildBalancer(hash: Hash, algo: string, hosts: seq<string>): Option<Balancer> {
    if algo == ROUND_ROBIN then Some(Turns(0, hosts))
    else if algo == CONSISTENCE_HASH then Some(Hashed(Build(hash, hosts), hosts))
    else None
  }

  /** A new round-robin balancer starts with the first host of its list and takes them in order. */
  lemma BuiltStartsOver(hash: Hash, hosts: seq<string>)
    requires |hosts| <= COUNTER
    ensures var b := BuildBalancer(hash, ROUND_ROBIN, hosts);
            b.Some? && b.value.Turns? && b.value.hosts == hosts
            && (hosts != [] ==> Served(b.value.hosts, b.value.idx, |hosts|) == hosts)
  {
    if hosts != [] {
      ServedInOrder(hosts);
    }
    hide Served;
  }

  lemma OneHostRing(hash: Hash, host: string)
    requires Sorting.Distinct(Points(hash, host))
    ensures Build(hash, [host]) == AddHost(hash, EMPTY_RING, host)
    ensures RemoveHost(hash, Build(hash, [host]), host) == Some(EMPTY_RING)
  {
    assert [host][..0] == [];
    assert Build(hash, []) == EMPTY_RING;
    RemoveUndoesAdd(hash, EMPTY_RING, host);
    hide AddHost, RemoveHost;
  }

  /**
   * What a balancer answers: the next host of the rotation, or the owner of the clockwise successor, "" if that key
   * has no owner left; none if it is empty.
   */
  lemma BalanceServes(hash: Hash, b: Balancer, url: string)
    requires b.Ordered()
    ensures var (host, next) := b.Balance(hash, url);
            && next.Hosts() == b.Hosts() && next.Mode() == b.Mode()
            && (host.None? ==> next == b)
            && (b.Turns? ==> (host.None? <==> b.hosts == []))
            && (b.Turns? && host.Some? ==>
                  forall m: nat :: Served(b.hosts, b.idx, m + 1) == [host.value] + Served(b.hosts, next.idx, m))
            && (b.Hashed? ==> next == b && (host.None? <==> b.ring.keys == []))
            && (b.Hashed? && host.Some? ==>
                  exists k :: Successor(b.ring.keys, hash(url), k)
                              && host.value == if k in b.ring.hosts then b.ring.hosts[k] else "")
  {
    if b.Hashed? && b.ring.keys != [] {
      var k := OwnerIsSuccessor(b.ring, hash(url));
    }
    hide Owner, Sorting.Sorted;
  }
}
