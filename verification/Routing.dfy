/**
 * From service discovery to requests: a path that starts with the name of a service is sent to one of the hosts that
 * the service's events add up to (vermouth/vermouth_state_manager.go:219-266, prefix/hash_prefixer.go:76-111).
 */
module Routing {
  import opened Text
  import opened ConsistentHash
  import opened Balancer
  import opened Gateway
  import opened Lifecycle
  import opened Namespace
  import opened HashPrefixer
  import opened RequestLaws
  import RoundRobin
  import D = Discovery

  /** A path whose first segment is `name`; the rest is empty or led by a slash. */
  predicate Under(path: string, name: string, rest: string) {
    path == "/" + name + rest && '/' !in name && (rest == "" || rest[0] == '/')
  }

  lemma TailIsAll(path: string)
    requires path != "" && path[0] == '/'
    ensures Tail(path) == path
  {
    assert Split(path, '/')[0] == "";
  }

  /** Of the boundaries of such a path only the one behind the name leaves no further slash in front of it. */
  lemma OnlyFirstSegment(path: string, name: string, rest: string, k: int, s: string)
    requires Under(path, name, rest) && Boundary(path, k) && path[..k] == "/" + s && '/' !in s
    ensures s == name && k == 1 + |name|
  {
    var end := 1 + |name|;
    assert forall i :: 0 <= i < |name| ==> path[i + 1] == name[i];
    assert forall i :: 0 <= i < |s| ==> path[i + 1] == s[i];
    assert end < |path| ==> path[end] == rest[0];
    assert s == path[1..k];
    assert name == path[1..end];
  }

  /** The best match is the prefix of the service that is named, or none if there is no such service. */
  lemma FirstSegmentMatches(keys: set<string>, names: set<string>, path: string, name: string, rest: string,
                            offset: nat)
    requires forall k :: k in keys <==> exists s :: s in names && k == PrefixOf(s)
    requires (forall s :: s in names ==> '/' !in s) && Under(path, name, rest)
    ensures BestMatch(keys, path, offset) <==> offset == if name in names then 1 + |name| else 0
  {
    var end := 1 + |name|;
    assert path[..end] == "/" + name && Boundary(path, end) by {
      assert end < |path| ==> path[end] == rest[0];
    }
    forall k | Boundary(path, k) && path[..k] in keys
      ensures k == end && name in names
    {
      var s :| s in names && path[..k] == PrefixOf(s);
      OnlyFirstSegment(path, name, rest, k, s);
    }
    if name in names {
      assert PrefixOf(name) == path[..end];
    }
  }

  /** The hosts a service has are those its balancer turns to. */
  lemma ServiceBalancer(m: Manager, ctx: Context, port: int, known: Lists, name: string)
    requires Mirrors(m, ctx, port, known) && port in ctx && name in known
    ensures var prefix := "/" + name;
            && prefix in ctx[port].mapping && ctx[port].mapping[prefix].Turns?
            && ctx[port].mapping[prefix].hosts == known[name]
  {
    assert MirrorsService(ctx, port, name, known[name]);
    assert Coherent(ctx[port]);
  }

  lemma PrefixesAre(m: Manager, ctx: Context, port: int, known: Lists, k: string)
    requires Mirrors(m, ctx, port, known) && port in ctx
    ensures k in ctx[port].mapping <==> exists s :: s in known && k == PrefixOf(s)
  {
    assert Coherent(ctx[port]);
    assert k in ctx[port].mapping <==> HasPrefix(ctx, port, k);
    if s :| s in known && k == PrefixOf(s) {
      assert MirrorsService(ctx, port, s, known[s]);
    }
  }

  lemma NoRootPrefix(m: Manager, ctx: Context, port: int, known: Lists)
    requires Mirrors(m, ctx, port, known) && port in ctx && forall s :: s in known ==> s != ""
    ensures "/" !in ctx[port].mapping
  {
    PrefixesAre(m, ctx, port, known, "/");
    hide Mirrors;
    assert forall s :: s in known ==> |PrefixOf(s)| > 1;
  }

  lemma TurnsAnswer(hash: Hash, b: Balancer, key: string)
    requires b.Turns?
    ensures var host := b.Balance(hash, key).0;
            (host.None? <==> b.hosts == []) && (host.Some? ==> host.value in b.hosts)
  {
  }

  /**
   * Where a request goes: under the name of a known service to one of its hosts, with the rest of the path, or nowhere
   * if it has none; under any other name it finds no path.
   */
  lemma ServiceIsReached(m: Manager, ctx: Context, port: int, known: Lists, path: string, name: string, rest: string,
                         key: string, offset: nat, r: MappedPath, mapping': map<string, Balancer>)
    requires Mirrors(m, ctx, port, known) && port in ctx
    requires (forall s :: s in known ==> '/' !in s && s != "") && Under(path, name, rest)
    requires BestMatch(ctx[port].mapping.Keys, Tail(path), offset)
    requires Answers(m.code.hash, ctx[port].mapping, path, key, offset, r, mapping')
    ensures name !in known ==> r.PathNotFound?
    ensures name in known && known[name] == [] ==> r.NoHost?
    ensures name in known && known[name] != [] ==>
              && r.Mapped? && r.prefix == "/" + name && r.rest == rest
              && exists h :: h in known[name] && r.url == h + rest
  {
    var mapping := ctx[port].mapping;
    TailIsAll(path);
    forall k
      ensures k in mapping.Keys <==> exists s :: s in known.Keys && k == PrefixOf(s)
    {
      PrefixesAre(m, ctx, port, known, k);
    }
    FirstSegmentMatches(mapping.Keys, known.Keys, path, name, rest, offset);
    AnswersAre(m.code.hash, mapping, path, key, offset, r, mapping');
    hide Mirrors, BestMatch, Boundary, Tail, Answers, Balancer.Balance;
    if name in known {
      ServiceBalancer(m, ctx, port, known, name);
      TurnsAnswer(m.code.hash, mapping["/" + name], key);
      assert path[..offset] == "/" + name && path[offset..] == rest;
    } else {
      NoRootPrefix(m, ctx, port, known);
    }
  }

  /** The same after any stream of discovery's events that the loop gets through. */
  lemma EventsToRequest(m: Manager, ctx: Context, port: int, known: Lists, events: seq<D.Event>, path: string,
                        name: string, rest: string, key: string, offset: nat, r: MappedPath,
                        mapping': map<string, Balancer>)
    requires Mirrors(m, ctx, port, known) && AllTimely(known.Keys, port in ctx, events) && Under(path, name, rest)
    requires forall s :: s in KeptAll(m, known, events) ==> '/' !in s && s != ""
    ensures HandledAll(m, ctx, port, events).Some?
    ensures var next, lists := HandledAll(m, ctx, port, events).value, KeptAll(m, known, events);
            port in next && BestMatch(next[port].mapping.Keys, Tail(path), offset)
            && Answers(m.code.hash, next[port].mapping, path, key, offset, r, mapping') ==>
              && (name !in lists ==> r.PathNotFound?)
              && (name in lists && lists[name] == [] ==> r.NoHost?)
              && (name in lists && lists[name] != [] ==>
                    r.Mapped? && r.rest == rest && exists h :: h in lists[name] && r.url == h + rest)
  {
    StreamMirrors(m, ctx, port, known, events);
    var next, lists := HandledAll(m, ctx, port, events).value, KeptAll(m, known, events);
    hide Mirrors, HandledAll, KeptAll, AllTimely, Answers, BestMatch, Tail, Under;
    if port in next && BestMatch(next[port].mapping.Keys, Tail(path), offset)
       && Answers(m.code.hash, next[port].mapping, path, key, offset, r, mapping') {
      ServiceIsReached(m, next, port, lists, path, name, rest, key, offset, r, mapping');
    }
  }

  /** A new service gets a round-robin prefix under its name, without hosts and not static. */
  lemma NewServiceIs(m: Manager, ctx: Context, port: int, service: string)
    requires CoherentContext(ctx) && Handled(m, ctx, port, D.AddService(service)).reply.Success?
    ensures var next := Handled(m, ctx, port, D.AddService(service)).ctx;
            port in next && Serves(next[port], "/" + service, ROUND_ROBIN, []) && !IsStatic(next[port], "/" + service)
  {
    OpenedIs(m.code, ctx, port);
    hide CoherentContext, Serves, IsStatic, AddHttpProxyPrefix, Opened, HasPrefix, HostsAt, OnRing;
    NewPrefixEffect(m.code, WithProxy(m, ctx, port), port, PrefixOf(service), ROUND_ROBIN, [], false);
  }
}
