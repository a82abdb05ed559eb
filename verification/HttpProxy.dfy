/**
 * vermouth/http_proxy.go: the proxy object. Each method does to the object's maps what the corresponding function of
 * module Gateway says. A false result stands for a Go panic.
 */
module HttpProxy {
  import opened Text
  import opened AclSpec
  import opened AclIndex
  import opened Balancer
  import opened Gateway
  import opened Snapshot
  import Trie = RadixTree
  import Prefixes = HashPrefixer

  // ---------------------------------------------------------------- the ban list's loops

  lemma ValidIsClosed(tree: Trie.RadixTree)
    requires tree.Valid()
    ensures tree.Closed()
  {
  }

  method ListOne(tree: Trie.RadixTree, ip: string, ban: bool) returns (crashed: bool)
    requires tree.repaired && tree.Valid() && tree.Pruned()
    modifies tree, tree.pool
    ensures tree.Valid() && tree.Pruned() && fresh(tree.pool - old(tree.pool))
    ensures crashed == StepCrashes(old(tree.View()), OpOn(ip, ban))
    ensures tree.View() == Step(old(tree.View()), OpOn(ip, ban))
  {
    hide Trie.RadixTree.Closed;
    assert tree.Closed() by { ValidIsClosed(tree); }
    var r;
    if ban {
      ghost var made;
      r, made := tree.Add(ip, ip);
    } else {
      r := tree.Delete(ip);
    }
    crashed := r.Crashed?;
  }

  lemma ListedNext(a: Acl, ips: seq<string>, i: nat, ban: bool)
    requires i < |ips|
    ensures Listed(a, ips[..i + 1], ban)
         == match Listed(a, ips[..i], ban)
            case None => None
            case Some(b) => if StepCrashes(b, OpOn(ips[i], ban)) then None else Some(Step(b, OpOn(ips[i], ban)))
  {
    hide StepCrashes, Step;
    assert ips[..i + 1][..i] == ips[..i];
  }

  lemma {:induction false} ListedStops(a: Acl, ips: seq<string>, i: nat, ban: bool)
    requires i <= |ips| && Listed(a, ips[..i], ban).None?
    ensures Listed(a, ips, ban).None?
  {
    hide StepCrashes, Step;
    if i == |ips| {
      assert ips[..i] == ips;
    } else {
      assert ips[..|ips| - 1][..i] == ips[..i];
      ListedStops(a, ips[..|ips| - 1], i, ban);
    }
  }

  /** AddBlackList's and RemoveBlackList's loops. */
  method ListAll(tree: Trie.RadixTree, ips: seq<string>, ban: bool) returns (ok: bool)
    requires tree.repaired && tree.Valid() && tree.Pruned()
    modifies tree, tree.pool
    ensures tree.Valid() && tree.Pruned() && fresh(tree.pool - old(tree.pool))
    ensures ok == Listed(old(tree.View()), ips, ban).Some?
    ensures ok ==> tree.View() == Listed(old(tree.View()), ips, ban).value
  {
    hide Trie.RadixTree.Valid, Trie.RadixTree.Pruned, Trie.RadixTree.View, Step, StepCrashes, Listed;
    ghost var start := tree.View();
    assert Listed(start, ips[..0], ban) == Some(start) by { NothingListed(start, ips, ban); }
    for i := 0 to |ips|
      invariant tree.Valid() && tree.Pruned() && fresh(tree.pool - old(tree.pool))
      invariant Listed(start, ips[..i], ban) == Some(tree.View())
    {
      ListedNext(start, ips, i, ban);
      var crashed := ListOne(tree, ips[i], ban);
      if crashed {
        ListedStops(start, ips, i + 1, ban);
        return false;
      }
    }
    assert ips[..|ips|] == ips;
    return true;
  }

  lemma NothingListed(a: Acl, ips: seq<string>, ban: bool)
    ensures Listed(a, ips[..0], ban) == Some(a)
  {
  }

  /**
   * Whether banning panics is a matter of the texts alone, and banning indexed texts again leaves the index as it is.
   */
  lemma {:induction false} BansAgain(a: Acl, b: Acl, ips: seq<string>)
    ensures Listed(a, ips, true).Some? == Listed(b, ips, true).Some?
    ensures Listed(a, ips, true).Some? && Members(ips) <= a.record ==> Listed(a, ips, true).value.record == a.record
  {
    hide AddResult;
    if ips != [] {
      var init, last := ips[..|ips| - 1], ips[|ips| - 1];
      assert last in Members(ips) && Members(init) <= Members(ips);
      BansAgain(a, b, init);
    }
  }

  // ---------------------------------------------------------------- Restore's loop over the prefixes

  /** A saved proxy's ban list is its index alone. */
  function Bare(p: Proxy): Proxy { p.(acl := Acl(map[], p.acl.record)) }

  /** `v` is the proxy after the prefixes `done` were added again; its ban list is still the one it had. */
  ghost predicate Restoring(code: Code, s: Saved, done: seq<string>, v: Proxy) {
    && Remapped(code, s, done) == Some(Bare(v))
    && forall k :: Lookup(v.balancerType, k, "") == Lookup(s.balancerType, k, "")
                   && Lookup(v.staticMapping, k, false) == Lookup(s.staticMapping, k, false)
  }

  lemma RestoreStart(code: Code, s: Saved, prefixes: seq<string>, v: Proxy)
    requires Bare(v) == Unmapped(s)
    ensures Restoring(code, s, prefixes[..0], v)
  {
  }

  lemma RestoreEnd(code: Code, s: Saved, prefixes: seq<string>, v: Proxy)
    requires Restoring(code, s, prefixes, v)
    ensures Remapped(code, s, prefixes) == Some(Bare(v))
  {
  }

  lemma PrefixIgnoresAcl(code: Code, p: Proxy, k: string, algo: string, hosts: seq<string>, isStatic: bool)
    ensures WithPrefix(code, Bare(p), k, algo, hosts, isStatic)
         == match WithPrefix(code, p, k, algo, hosts, isStatic) case None => None case Some(q) => Some(Bare(q))
  {
    hide BuildBalancer, Balancer.Hosts;
  }

  lemma LookupsKept(code: Code, p: Proxy, k: string, hosts: seq<string>, q: Proxy)
    requires WithPrefix(code, p, k, Lookup(p.balancerType, k, ""), hosts, Lookup(p.staticMapping, k, false)) == Some(q)
    ensures forall j :: Lookup(q.balancerType, j, "") == Lookup(p.balancerType, j, "")
                        && Lookup(q.staticMapping, j, false) == Lookup(p.staticMapping, j, false)
  {
    hide BuildBalancer, Balancer.Hosts;
  }

  lemma RemappedNext(code: Code, s: Saved, prefixes: seq<string>, i: nat)
    requires i < |prefixes|
    ensures Remapped(code, s, prefixes[..i + 1])
         == match Remapped(code, s, prefixes[..i])
            case None => None
            case Some(p) =>
              var k := prefixes[i];
              WithPrefix(code, p, k, Lookup(s.balancerType, k, ""), Lookup(s.paths, k, []),
                         Lookup(s.staticMapping, k, false))
  {
    hide WithPrefix, Lookup;
    assert prefixes[..i + 1][..i] == prefixes[..i];
  }

  lemma {:induction false} RemappedStops(code: Code, s: Saved, prefixes: seq<string>, i: nat)
    requires i <= |prefixes| && Remapped(code, s, prefixes[..i]).None?
    ensures Remapped(code, s, prefixes).None?
  {
    hide WithPrefix, Lookup;
    if i == |prefixes| {
      assert prefixes[..i] == prefixes;
    } else {
      assert prefixes[..|prefixes| - 1][..i] == prefixes[..i];
      RemappedStops(code, s, prefixes[..|prefixes| - 1], i);
    }
  }

  lemma RestoreStep(code: Code, s: Saved, prefixes: seq<string>, i: nat, v: Proxy)
    requires i < |prefixes| && Restoring(code, s, prefixes[..i], v)
    ensures var k := prefixes[i];
            match WithPrefix(code, v, k, Lookup(v.balancerType, k, ""), Lookup(s.paths, k, []),
                Lookup(v.staticMapping, k, false))
            case None => Remapped(code, s, prefixes).None?
            case Some(w) => Restoring(code, s, prefixes[..i + 1], w)
  {
    hide WithPrefix, Lookup, Remapped;
    var k := prefixes[i];
    var hosts := Lookup(s.paths, k, []);
    PrefixIgnoresAcl(code, v, k, Lookup(v.balancerType, k, ""), hosts, Lookup(v.staticMapping, k, false));
    RemappedNext(code, s, prefixes, i);
    match WithPrefix(code, v, k, Lookup(v.balancerType, k, ""), hosts, Lookup(v.staticMapping, k, false)) {
      case None => RemappedStops(code, s, prefixes, i + 1);
      case Some(w) => LookupsKept(code, v, k, hosts, w);
    }
  }

  // ---------------------------------------------------------------- the proxy

  class HttpReverseProxy {
    const code: Code
    const Port: int
    const PrefixerType: string
    var Paths: map<string, seq<string>>
    var BalancerType: map<string, string>
    var StaticMapping: map<string, bool>
    var Acl: Trie.RadixTree
    var Available: bool
    var prefixMapping: Prefixes.HashPrefixer

    ghost var Repr: set<object>

    ghost predicate Valid()
      reads this, Repr
    {
      && this in Repr && Acl in Repr && prefixMapping in Repr && Acl.pool <= Repr
      && Acl.repaired && Acl.Valid() && Acl.Pruned() && prefixMapping.hash == code.hash
    }

    /** The proxy's state as a value. */
    ghost function Value(): Proxy
      requires Valid()
      reads this, Repr
    {
      Proxy(Port, PrefixerType, Paths, BalancerType, StaticMapping, Acl.View(), Available, prefixMapping.Mapping)
    }

    /** NewHttpReverseProxy for the one prefixer there is. */
    constructor (code: Code, port: int)
      ensures Valid() && this in Repr && fresh(Repr) && this.code == code
      ensures Some(Value()) == NewProxy(port, HASH_PREFIXER)
    {
      hide Trie.RadixTree.Valid, Trie.RadixTree.Pruned, Trie.RadixTree.View;
      this.code, Port, PrefixerType := code, port, HASH_PREFIXER;
      Paths, BalancerType, StaticMapping, Available := map[], map[], map[], true;
      var tree := new Trie.RadixTree(true);
      var prefixer := new Prefixes.HashPrefixer(code.hash);
      Acl, prefixMapping := tree, prefixer;
      Repr := {this, tree, prefixer} + tree.pool;
    }

    /** A proxy as it is read from a snapshot: the exported fields, and the index of a ban list without its tree. */
    constructor Unmarshalled(code: Code, s: Saved)
      ensures Valid() && this in Repr && fresh(Repr) && this.code == code
      ensures Value() == Decoded(s)
    {
      hide Trie.RadixTree.Valid, Trie.RadixTree.Pruned, Trie.RadixTree.View;
      this.code, Port, PrefixerType := code, s.port, s.prefixerType;
      Paths, BalancerType, StaticMapping, Available := s.paths, s.balancerType, s.staticMapping, s.available;
      var tree := new Trie.RadixTree.Unmarshalled(true, s.record);
      var prefixer := new Prefixes.HashPrefixer(code.hash);
      Acl, prefixMapping := tree, prefixer;
      Repr := {this, tree, prefixer} + tree.pool;
    }

    method AddPrefix(prefix: string, algo: string, hosts: seq<string>, isStatic: bool) returns (ok: bool)
      requires Valid()
      modifies this`Paths, this`BalancerType, this`StaticMapping, prefixMapping
      ensures Valid()
      ensures ok == WithPrefix(code, old(Value()), prefix, algo, hosts, isStatic).Some?
      ensures ok ==> Value() == WithPrefix(code, old(Value()), prefix, algo, hosts, isStatic).value
      ensures !ok ==> Value() == HalfPrefix(old(Value()), prefix, algo, isStatic)
    {
      hide Trie.RadixTree.Valid, Trie.RadixTree.Pruned, Trie.RadixTree.View, BuildBalancer, Balancer.Add,
           Balancer.Remove, Balancer.Hosts;
      if prefix in prefixMapping.Mapping {
        return true;
      }
      StaticMapping := StaticMapping[prefix := isStatic];
      prefixMapping.Add(prefix, algo, hosts);
      BalancerType := BalancerType[prefix := algo];
      var b := prefixMapping.GetBalancer(prefix);
      if b.None? {
        return false;
      }
      Paths := Paths[prefix := b.value.Hosts()];
      return true;
    }

    method RemovePrefix(prefix: string)
      requires Valid()
      modifies this`Paths, this`BalancerType, prefixMapping
      ensures Valid() && Value() == WithoutPrefix(old(Value()), prefix)
    {
      hide Trie.RadixTree.Valid, Trie.RadixTree.Pruned, Trie.RadixTree.View;
      Paths := Paths - {prefix};
      BalancerType := BalancerType - {prefix};
      prefixMapping.Remove(prefix);
    }

    method AddHost(prefix: string, host: string) returns (ok: bool)
      requires Valid()
      modifies this`Paths, prefixMapping
      ensures Valid() && ok == WithHost(code, old(Value()), prefix, host).Some?
      ensures ok ==> Value() == WithHost(code, old(Value()), prefix, host).value
      ensures !ok ==> Value() == old(Value())
    {
      hide Trie.RadixTree.Valid, Trie.RadixTree.Pruned, Trie.RadixTree.View, BuildBalancer, Balancer.Add,
           Balancer.Remove, Balancer.Hosts;
      var b := prefixMapping.GetBalancer(prefix);
      if b.None? {
        return false;
      }
      var larger := b.value.Add(code.hash, host, code.extendsList);
      prefixMapping.Update(prefix, larger);
      Paths := Paths[prefix := larger.Hosts()];
      return true;
    }

    method RemoveHost(prefix: string, host: string) returns (ok: bool)
      requires Valid()
      modifies this`Paths, prefixMapping
      ensures Valid() && ok == WithoutHost(code, old(Value()), prefix, host).Some?
      ensures ok ==> Value() == WithoutHost(code, old(Value()), prefix, host).value
    {
      hide Trie.RadixTree.Valid, Trie.RadixTree.Pruned, Trie.RadixTree.View, BuildBalancer, Balancer.Add,
           Balancer.Remove, Balancer.Hosts;
      var b := prefixMapping.GetBalancer(prefix);
      if b.None? {
        return false;
      }
      var smaller := b.value.Remove(code.hash, host);
      if smaller.None? {
        return false;
      }
      prefixMapping.Update(prefix, smaller.value);
      Paths := Paths[prefix := smaller.value.Hosts()];
      return true;
    }

    function GetHosts(prefix: string): seq<string>
      reads this`Paths
    {
      if prefix in Paths then Paths[prefix] else []
    }

    method HostExists(prefix: string, host: string) returns (found: bool)
      ensures found == (host in GetHosts(prefix))
    {
      var hosts := GetHosts(prefix);
      for i := 0 to |hosts|
        invariant host !in hosts[..i]
      {
        if host == hosts[i] {
          return true;
        }
      }
      return false;
    }

    method AddBlackList(ips: seq<string>) returns (ok: bool)
      requires Valid()
      modifies this`Repr, Acl, Acl.pool
      ensures Valid() && fresh(Repr - old(Repr)) && old(Repr) <= Repr
      ensures ok == Edited(code, old(Value()), Edit.AddBlackList(ips)).Some?
      ensures ok ==> Value() == Edited(code, old(Value()), Edit.AddBlackList(ips)).value
    {
      hide Trie.RadixTree.Valid, Trie.RadixTree.Pruned, Trie.RadixTree.View;
      ok := ListAll(Acl, ips, true);
      Repr := Repr + Acl.pool;
    }

    method RemoveBlackList(ips: seq<string>) returns (ok: bool)
      requires Valid()
      modifies this`Repr, Acl, Acl.pool
      ensures Valid() && fresh(Repr - old(Repr)) && old(Repr) <= Repr
      ensures ok == Edited(code, old(Value()), Edit.RemoveBlackList(ips)).Some?
      ensures ok ==> Value() == Edited(code, old(Value()), Edit.RemoveBlackList(ips)).value
    {
      hide Trie.RadixTree.Valid, Trie.RadixTree.Pruned, Trie.RadixTree.View;
      ok := ListAll(Acl, ips, false);
      Repr := Repr + Acl.pool;
    }

    method changeStatic(prefix: string)
      requires Valid()
      modifies this`StaticMapping
      ensures Valid() && Some(Value()) == Edited(code, old(Value()), Edit.ChangeStatic(prefix))
    {
      hide Trie.RadixTree.Valid, Trie.RadixTree.Pruned, Trie.RadixTree.View;
      var was := prefix in StaticMapping && StaticMapping[prefix];
      StaticMapping := StaticMapping[prefix := !was];
    }

    /** Delete and create again, with the hosts and the flag saved in between. */
    method changeLb(prefix: string, lb: string) returns (ok: bool)
      requires Valid()
      modifies this`Paths, this`BalancerType, this`StaticMapping, prefixMapping
      ensures Valid() && ok == WithBalancerType(code, old(Value()), prefix, lb).Some?
      ensures ok ==> Value() == WithBalancerType(code, old(Value()), prefix, lb).value
      ensures !ok ==> Value() == if prefix !in old(Value()).mapping then old(Value())
                                 else HalfPrefix(WithoutPrefix(old(Value()), prefix), prefix, lb,
                                                 IsStatic(old(Value()), prefix))
    {
      hide Trie.RadixTree.Valid, Trie.RadixTree.Pruned, Trie.RadixTree.View, BuildBalancer, Balancer.Add,
           Balancer.Remove, Balancer.Hosts;
      var b := prefixMapping.GetBalancer(prefix);
      if b.None? {
        return false;
      }
      var hosts := b.value.Hosts();
      var isStatic := prefix in StaticMapping && StaticMapping[prefix];
      RemovePrefix(prefix);
      ok := AddPrefix(prefix, lb, hosts, isStatic);
    }

    method SetAvailable(available: bool)
      requires Valid()
      modifies this`Available
      ensures Valid() && Value() == old(Value()).(available := available)
    {
      hide Trie.RadixTree.Valid, Trie.RadixTree.Pruned, Trie.RadixTree.View;
      Available := available;
    }

    /** The handlers of log_entry_handler.go, on their proxy. */
    method Do(edit: Edit) returns (ok: bool)
      requires Valid() && !Closes(edit)
      modifies Repr
      ensures Valid() && fresh(Repr - old(Repr)) && old(Repr) <= Repr
      ensures ok == Edited(code, old(Value()), edit).Some?
      ensures ok ==> Value() == Edited(code, old(Value()), edit).value
    {
      hide Trie.RadixTree.Valid, Trie.RadixTree.Pruned, Trie.RadixTree.View, WithPrefix, WithHost, WithoutHost, Listed,
           WithBalancerType, WithoutPrefix;
      ok := true;
      match edit {
        case AddPrefix(prefix, algo, hosts, isStatic) => ok := AddPrefix(prefix, algo, hosts, isStatic);
        case RemovePrefix(prefix) => RemovePrefix(prefix);
        case AddHost(prefix, host) => ok := AddHost(prefix, host);
        case RemoveHost(prefix, host) => ok := RemoveHost(prefix, host);
        case AddBlackList(ips) => ok := AddBlackList(ips);
        case RemoveBlackList(ips) => ok := RemoveBlackList(ips);
        case ChangeStatic(prefix) => changeStatic(prefix);
        case ChangeLb(prefix, lb) => ok := changeLb(prefix, lb);
        case ChangeState(state) => SetAvailable(state == 1);
      }
    }

    /** Restore's loop over the prefixes (http_proxy.go:152-161). */
    method RestorePaths(prefixes: seq<string>) returns (ok: bool)
      requires Valid() && PrefixerType == HASH_PREFIXER
      modifies this`Paths, this`BalancerType, this`StaticMapping, this`prefixMapping, this`Repr
      ensures Valid() && fresh(Repr - old(Repr)) && old(Repr) <= Repr && Acl == old(Acl)
          && Acl.View() == old(Acl.View())
      ensures ok == Remapped(code, Save(old(Value())), prefixes).Some?
      ensures ok ==> Remapped(code, Save(old(Value())), prefixes) == Some(Bare(Value()))
    {
      hide Trie.RadixTree.Valid, Trie.RadixTree.Pruned, Trie.RadixTree.View, WithPrefix, Remapped, Lookup, Restoring;
      ghost var s := Save(Value());
      prefixMapping := new Prefixes.HashPrefixer(code.hash);
      Repr := Repr + {prefixMapping};
      var paths := Paths;
      Paths := map[];
      RestoreStart(code, s, prefixes, Value());
      for i := 0 to |prefixes|
        invariant Valid() && Repr == old(Repr) + {prefixMapping} && fresh(prefixMapping) && Acl == old(Acl)
        invariant Restoring(code, s, prefixes[..i], Value())
      {
        var k := prefixes[i];
        RestoreStep(code, s, prefixes, i, Value());
        ok := AddPrefix(k, Lookup(BalancerType, k, ""), Lookup(paths, k, []), Lookup(StaticMapping, k, false));
        if !ok {
          return;
        }
      }
      assert prefixes[..|prefixes|] == prefixes;
      RestoreEnd(code, s, prefixes, Value());
      ok := true;
    }

    /** Restore, ranging over the maps in the given order; a prefixer type there is not is an error. */
    method Restore(order: Order) returns (ok: bool, err: bool)
      requires Valid()
      modifies this
      ensures Valid() && fresh(Repr - old(Repr)) && old(Repr) <= Repr
      ensures err <==> PrefixerType != HASH_PREFIXER
      ensures err ==> ok && Value() == old(Value())
      ensures !err ==> ok == Restored(code, Save(old(Value())), order).Some?
      ensures !err && ok ==> Value() == Restored(code, Save(old(Value())), order).value
    {
      hide Trie.RadixTree.Valid, Trie.RadixTree.Pruned, Trie.RadixTree.View, Listed, Remapped;
      if PrefixerType != HASH_PREFIXER {
        return true, true;
      }
      err := false;
      ok := RestorePaths(order.prefixes);
      if !ok {
        return;
      }
      var blackList := new Trie.RadixTree(true);
      ok := ListAll(blackList, order.texts, true);
      Acl := blackList;
      Repr := Repr + {Acl} + Acl.pool;
    }

    /** The first loop in a turn of the committed Restore of the context (context.go:150-153). */
    method BanAgain(texts: seq<string>) returns (ok: bool)
      requires Valid() && Members(texts) <= Value().acl.record
      modifies this`Repr, Acl, Acl.pool
      ensures Valid() && fresh(Repr - old(Repr)) && old(Repr) <= Repr
      ensures ok == Listed(EMPTY_ACL, texts, true).Some? == Listed(old(Value()).acl, texts, true).Some?
      ensures ok ==> Save(Value()) == Save(old(Value()))
                     && Some(Value()) == WithAcl(old(Value()), Listed(old(Value()).acl, texts, true))
    {
      hide Trie.RadixTree.Valid, Trie.RadixTree.Pruned, Trie.RadixTree.View, Listed;
      BansAgain(Acl.View(), EMPTY_ACL, texts);
      ok := ListAll(Acl, texts, true);
      Repr := Repr + Acl.pool;
    }

    /**
     * A turn of the context's Restore for a proxy that was there before (context.go:149-158). The committed loop first
     * bans the indexed texts once more, in the tree that is about to be replaced, and starts the proxy. An error is
     * only logged.
     */
    method RestoreAgain(order: Order, clean: bool) returns (ok: bool)
      requires Valid() && Members(order.texts) <= Value().acl.record
      modifies Repr
      ensures Valid() && fresh(Repr - old(Repr)) && old(Repr) <= Repr
      ensures ok == Turned(code, clean, false, old(Value()), order).Some?
      ensures ok ==> Some(Value()) == Turned(code, clean, false, old(Value()), order)
    {
      hide Trie.RadixTree.Valid, Trie.RadixTree.Pruned, Trie.RadixTree.View, Listed, Remapped;
      if !clean {
        ok := BanAgain(order.texts);
        if !ok {
          return;
        }
      }
      var err: bool;
      ok, err := Restore(order);
      if ok && !err && !clean {
        SetAvailable(true);
      }
    }
  }
}
