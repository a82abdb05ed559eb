/** prefix/hash_prefixer.go: request paths go to the longest mapped prefix that ends where a path segment ends. */
module HashPrefixer {
  import opened Text
  import opened ConsistentHash
  import opened Balancer

  datatype MappedPath = Mapped(prefix: string, rest: string, url: string) | PathNotFound | NoHost

  /** `t[..k]` ends where a segment of the slash-led path `t` ends. */
  predicate Boundary(t: string, k: int) {
    0 < k <= |t| && t[0] == '/' && (k == |t| || t[k] == '/')
  }

  /** The longest mapped prefix of `t` ending at a segment boundary has length `offset`; 0 if there is none. */
  ghost predicate BestMatch(keys: set<string>, t: string, offset: nat) {
    && (offset == 0 || (Boundary(t, offset) && t[..offset] in keys))
    && forall k :: Boundary(t, k) && t[..k] in keys ==> k <= offset
  }

  /** The segments, each led by a slash. */
  function Slashed(pieces: seq<string>): string {
    if pieces == [] then "" else ['/'] + pieces[0] + Slashed(pieces[1..])
  }

  lemma {:induction false} JoinIsSlashed(pieces: seq<string>)
    requires pieces != []
    ensures Join(pieces, '/') == pieces[0] + Slashed(pieces[1..])
    decreases |pieces|
  {
    if |pieces| > 1 {
      JoinIsSlashed(pieces[1..]);
      assert pieces[0] + ['/'] + (pieces[1] + Slashed(pieces[2..])) ==
          pieces[0] + (['/'] + pieces[1] + Slashed(pieces[2..]));
      assert pieces[1..][1..] == pieces[2..];
    }
  }

  /** The part of a request path that is matched: everything from the first slash on. */
  function Tail(apiPath: string): string { apiPath[|Split(apiPath, '/')[0]|..] }

  /** The tail is its segments, each led by a slash and without slashes inside. */
  lemma TailIsSlashed(apiPath: string)
    ensures Tail(apiPath) == Slashed(Split(apiPath, '/')[1..])
    ensures forall piece :: piece in Split(apiPath, '/')[1..] ==> '/' !in piece
  {
    SplitThenJoin(apiPath, '/');
    JoinIsSlashed(Split(apiPath, '/'));
  }

  /** The search after some segments: `idx` characters of `t` are behind it and `pieces` are to come. */
  ghost predicate Searching(keys: set<string>, t: string, pieces: seq<string>, nextPath: string, idx: nat,
                            offset: nat)
  {
    && idx <= |t| && nextPath == t[..idx] && t[idx..] == Slashed(pieces) && (t != "" ==> t[0] == '/')
    && (forall piece :: piece in pieces ==> '/' !in piece)
    && (offset == 0 || (Boundary(t, offset) && t[..offset] in keys))
    && (forall k :: Boundary(t, k) && k <= idx && t[..k] in keys ==> k <= offset)
    && offset <= idx
  }

  lemma SearchStart(keys: set<string>, apiPath: string)
    ensures Searching(keys, Tail(apiPath), Split(apiPath, '/')[1..], "", 0, 0)
  {
    TailIsSlashed(apiPath);
  }

  /** One segment of `t` from place `idx` on: a slash, the segment, and nothing or the next slash. */
  lemma NextSegment(t: string, idx: nat, v: string, rest: string)
    requires idx <= |t| && t[idx..] == ['/'] + v + rest && '/' !in v && (rest != "" ==> rest[0] == '/')
    ensures var end := idx + |v| + 1;
            && end <= |t| && t[..end] == t[..idx] + "/" + v && t[end..] == rest
            && (end == |t| || t[end] == '/') && t[idx] == '/' && forall k :: idx < k < end ==> t[k] != '/'
  {
    var end := idx + |v| + 1;
    var u := t[idx..];
    assert t[end..] == u[|v| + 1..] == rest;
    assert t[..end] == t[..idx] + u[..|v| + 1];
    assert u[..|v| + 1] == ['/'] + v;
    assert end < |t| ==> t[end] == t[end..][0];
    forall k | idx < k < end
      ensures t[k] != '/'
    {
      assert t[k] == u[k - idx] == v[k - idx - 1];
    }
  }

  /** Reading one segment more reaches the next boundary and passes none. */
  lemma SearchStep(keys: set<string>, t: string, pieces: seq<string>, nextPath: string, idx: nat, offset: nat)
    requires Searching(keys, t, pieces, nextPath, idx, offset) && pieces != []
    ensures var path, end := nextPath + "/" + pieces[0], idx + |pieces[0]| + 1;
            && Boundary(t, end) && path == t[..end]
            && Searching(keys, t, pieces[1..], path, end, if path in keys then end else offset)
  {
    var v, rest := pieces[0], Slashed(pieces[1..]);
    assert t[idx..] == ['/'] + v + rest && (rest != "" ==> rest[0] == '/');
    assert v in pieces && forall piece :: piece in pieces[1..] ==> piece in pieces;
    hide Slashed;
    NextSegment(t, idx, v, rest);
    var end := idx + |v| + 1;
    forall k | Boundary(t, k) && k <= end && t[..k] in keys
      ensures k <= if t[..end] in keys then end else offset
    {
      assert k <= idx || k == end;
    }
  }

  class HashPrefixer {
    const hash: Hash
    var Mapping: map<string, Balancer>

    constructor (hash: Hash)
      ensures this.hash == hash && Mapping == map[]
    {
      this.hash := hash;
      Mapping := map[];
    }

    /** Add: an unsupported algorithm is passed over in silence. */
    method Add(prefixPath: string, algo: string, hosts: seq<string>)
      modifies this
      ensures Mapping == match BuildBalancer(hash, algo, hosts)
                         case None => old(Mapping)
                         case Some(b) => old(Mapping)[prefixPath := b]
    {
      var b := BuildBalancer(hash, algo, hosts);
      if b.None? {
        return;
      }
      Mapping := Mapping[prefixPath := b.value];
    }

    method Remove(prefixPath: string)
      modifies this
      ensures Mapping == old(Mapping) - {prefixPath}
    {
      Mapping := Mapping - {prefixPath};
    }

    /** GetBalancer; None is Go's nil. */
    function GetBalancer(prefixPath: string): Option<Balancer>
      reads this
    {
      if prefixPath in Mapping then Some(Mapping[prefixPath]) else None
    }

    /**
     * What a call on the balancer at a prefix leaves there: the source's balancers are objects, here they are values.
     */
    method Update(prefixPath: string, b: Balancer)
      modifies this
      ensures Mapping == old(Mapping)[prefixPath := b]
    {
      Mapping := Mapping[prefixPath := b];
    }

    /** The loop of MappingPath (hash_prefixer.go:80-90). */
    method FindPrefix(apiPath: string) returns (prefix: string, offset: nat)
      ensures offset <= |Tail(apiPath)| && BestMatch(Mapping.Keys, Tail(apiPath), offset)
      ensures prefix == Tail(apiPath)[..offset]
    {
      var apiPathSplits := Split(apiPath, '/')[1..];
      ghost var t := Tail(apiPath);
      var nextPath: string, idx: nat := "", 0;
      prefix, offset := "", 0;
      SearchStart(Mapping.Keys, apiPath);
      for i := 0 to |apiPathSplits|
        invariant Searching(Mapping.Keys, t, apiPathSplits[i..], nextPath, idx, offset)
        invariant prefix == t[..offset]
      {
        SearchStep(Mapping.Keys, t, apiPathSplits[i..], nextPath, idx, offset);
        assert apiPathSplits[i..][0] == apiPathSplits[i] && apiPathSplits[i..][1..] == apiPathSplits[i + 1..];
        nextPath := nextPath + "/" + apiPathSplits[i];
        idx := idx + |apiPathSplits[i]| + 1;
        if nextPath in Mapping {
          prefix := nextPath;
          offset := idx;
        }
      }
      assert t[idx..] == "";
    }

    /** MappingPath. The balancing key is "" without a request and otherwise the client's address and its token. */
    method MappingPath(apiPath: string, key: string) returns (r: MappedPath)
      modifies this`Mapping
      ensures Mapping.Keys == old(Mapping.Keys)
      ensures exists offset: nat :: BestMatch(old(Mapping.Keys), Tail(apiPath), offset)
                                    && Answers(hash, old(Mapping), apiPath, key, offset, r, Mapping)
    {
      var prefix, offset := FindPrefix(apiPath);
      if |prefix| == 0 {
        prefix := "/";
      }
      if prefix !in Mapping {
        assert Answers(hash, old(Mapping), apiPath, key, offset, PathNotFound, Mapping);
        return PathNotFound;
      }
      var (host, balancer) := Mapping[prefix].Balance(hash, key);
      Mapping := Mapping[prefix := balancer];
      if host.None? {
        assert Answers(hash, old(Mapping), apiPath, key, offset, NoHost, Mapping);
        return NoHost;
      }
      r := Mapped(prefix, apiPath[offset..], host.value + apiPath[offset..]);
      assert Answers(hash, old(Mapping), apiPath, key, offset, r, Mapping);
    }
  }

  /** The prefix a match of this length stands for: "/" when nothing matched. */
  function PrefixFor(t: string, offset: nat): string
    requires offset <= |t|
  {
    if offset == 0 then "/" else t[..offset]
  }

  /** The reply when the best match has length `offset`, and the balancers afterwards. */
  ghost predicate Answers(hash: Hash, mapping: map<string, Balancer>, apiPath: string, key: string, offset: nat,
                          r: MappedPath, mapping': map<string, Balancer>)
  {
    && offset <= |Tail(apiPath)|
    && var prefix := PrefixFor(Tail(apiPath), offset);
       if prefix !in mapping then r == PathNotFound && mapping' == mapping
       else
         var (host, balancer) := mapping[prefix].Balance(hash, key);
         && mapping' == mapping[prefix := balancer]
         && r == match host
                 case None => NoHost
                 case Some(h) => Mapped(prefix, apiPath[offset..], h + apiPath[offset..])
  }

  /**
   * For a path that starts with a slash: a match at an offset splits the path into prefix and rest, and the rest is
   * empty or a path again; without a match the root prefix gets the whole path, so that putting prefix and rest
   * together again gives the request path exactly when something matched.
   */
  lemma PrefixAndRest(hash: Hash, mapping: map<string, Balancer>, apiPath: string, key: string, offset: nat,
                      r: MappedPath, mapping': map<string, Balancer>)
    requires apiPath != "" && apiPath[0] == '/' && BestMatch(mapping.Keys, Tail(apiPath), offset)
    requires Answers(hash, mapping, apiPath, key, offset, r, mapping') && r.Mapped?
    ensures Tail(apiPath) == apiPath
    ensures r.prefix + r.rest == apiPath <==> offset > 0
    ensures offset > 0 ==> r.rest == "" || r.rest[0] == '/'
    ensures offset == 0 ==> r.prefix == "/" && r.rest == apiPath && forall k :: Boundary(apiPath, k) ==>
        apiPath[..k] !in mapping
    ensures r.prefix != "/" ==> offset == |r.prefix|
  {
    assert Split(apiPath, '/')[0] == "";
    assert apiPath[offset..] == apiPath[|apiPath[..offset]|..];
  }

  /**
   * When each answer is given: no path exactly if neither a prefix at a boundary nor the root prefix is mapped, no host
   * exactly if the balancer of the best prefix has none, and otherwise the balancer's host with the rest of the path
   * behind it. Only that balancer moves on.
   */
  lemma AnswersAre(hash: Hash, mapping: map<string, Balancer>, apiPath: string, key: string, offset: nat,
                   r: MappedPath, mapping': map<string, Balancer>)
    requires BestMatch(mapping.Keys, Tail(apiPath), offset)
    requires Answers(hash, mapping, apiPath, key, offset, r, mapping')
    ensures var t := Tail(apiPath);
            && (r.PathNotFound? <==> "/" !in mapping && forall k :: Boundary(t, k) ==> t[..k] !in mapping)
            && (r.PathNotFound? ==> mapping' == mapping)
            && (!r.PathNotFound? ==>
                  var prefix := if offset == 0 then "/" else t[..offset];
                  && prefix in mapping
                  && var (host, after) := mapping[prefix].Balance(hash, key);
                     && mapping' == mapping[prefix := after]
                     && (r.NoHost? <==> host.None?)
                     && (r.Mapped? ==> host.Some? && r.prefix == prefix && r.rest == apiPath[offset..]
                                       && r.url == host.value + r.rest))
  {
    hide Balancer.Balance;
    var t := Tail(apiPath);
    var prefix := PrefixFor(t, offset);
    if prefix in mapping {
      var (host, after) := mapping[prefix].Balance(hash, key);
      assert r.Mapped? ==> host.Some?;
    }
    if offset > 0 {
      assert Boundary(t, offset) && t[..offset] in mapping;
    } else {
      forall k | Boundary(t, k)
        ensures t[..k] !in mapping
      {
      }
    }
  }

  /** Where the boundaries of a path are, as far as its first two segments go. */
  lemma TwoSegments(a: string, b: string, rest: string, k: int)
    requires '/' !in a && '/' !in b && (rest == "" || rest[0] == '/')
    ensures var path := "/" + a + "/" + b + rest;
            && Boundary(path, |a| + 1) && path[..|a| + 1] == "/" + a
            && Boundary(path, |a| + |b| + 2) && path[..|a| + |b| + 2] == "/" + a + "/" + b
            && (Boundary(path, k) && k < |a| + |b| + 2 ==> k == |a| + 1)
  {
    var path := "/" + a + "/" + b + rest;
    assert forall i :: 0 <= i < |a| ==> path[i + 1] == a[i];
    assert forall i :: 0 <= i < |b| ==> path[|a| + 2 + i] == b[i];
    assert rest != "" ==> path[|a| + |b| + 2] == rest[0];
  }

  /** With a prefix and a longer one below it mapped, the longer one takes the paths under it. */
  lemma LongerPrefixWins(a: string, b: string, rest: string, offset: nat)
    requires '/' !in a && '/' !in b && (rest == "" || rest[0] == '/')
    ensures BestMatch({"/" + a, "/" + a + "/" + b}, "/" + a + "/" + b + rest, offset) <==> offset == |a| + |b| + 2
  {
    var path, keys := "/" + a + "/" + b + rest, {"/" + a, "/" + a + "/" + b};
    TwoSegments(a, b, rest, 0);
    forall k | Boundary(path, k) && path[..k] in keys
      ensures k <= |a| + |b| + 2
    {
      assert |path[..k]| == k;
    }
  }

  /** A prefix does not match in the middle of a segment. */
  lemma WholeSegmentsOnly(a: string, c: string, rest: string, offset: nat)
    requires '/' !in a && '/' !in c && c != "" && (rest == "" || rest[0] == '/')
    ensures BestMatch({"/" + a}, "/" + a + c + rest, offset) <==> offset == 0
  {
    var path := "/" + a + c + rest;
    assert path[|a| + 1] == c[0];
    forall k | Boundary(path, k)
      ensures path[..k] != "/" + a
    {
      assert |path[..k]| == k;
    }
  }
}
