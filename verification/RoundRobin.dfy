/** balancer/round_robin.go: requests go to the hosts in turn, by a wrapping 64-bit counter. */
module RoundRobin {
  import opened Text

  /** The counter is a `uint64`. */
  const COUNTER: nat := 0x1_0000_0000_0000_0000

  class RoundRobin {
    var idx: nat
    var hosts: seq<string>

    ghost predicate Valid()
      reads this
    {
      idx < COUNTER
    }

    constructor (hosts: seq<string>)
      ensures Valid() && idx == 0 && this.hosts == hosts
    {
      idx, this.hosts := 0, hosts;
    }

    /** Add refuses a host that is already there. */
    method Add(host: string)
      modifies this`hosts
      ensures hosts == Added(old(hosts), host)
    {
      for i := 0 to |hosts|
        invariant host !in hosts[..i] && hosts == old(hosts)
      {
        if hosts[i] == host {
          return;
        }
      }
      hosts := hosts + [host];
    }

    method Remove(host: string)
      modifies this`hosts
      ensures hosts == RemoveFirst(old(hosts), host)
    {
      for i := 0 to |hosts|
        invariant forall j :: 0 <= j < i ==> hosts[j] != host
        invariant hosts == old(hosts)
      {
        if hosts[i] == host {
          RemoveFirstAt(hosts, i);
          hosts := hosts[..i] + hosts[i + 1..];
          return;
        }
      }
    }

    /** Balance; None is NoHostError. The first of the coming calls' answers, and the state for the rest. */
    method Balance() returns (host: Option<string>)
      requires Valid()
      modifies this`idx
      ensures Valid() && (host == None <==> hosts == [])
      ensures host == None ==> idx == old(idx)
      ensures host.Some? ==> forall m: nat :: Served(hosts, old(idx), m + 1) == [host.value] + Served(hosts, idx, m)
    {
      if |hosts| == 0 {
        return None;
      }
      host := Some(hosts[idx % |hosts|]);
      idx := (idx + 1) % COUNTER;
    }
  }

  function Added(hosts: seq<string>, host: string): seq<string> {
    if host in hosts then hosts else hosts + [host]
  }

  /** The hosts named by `m` calls in a row, starting with the counter at `idx`. */
  function Served(hosts: seq<string>, idx: nat, m: nat): (served: seq<string>)
    requires hosts != []
    ensures |served| == m
    decreases m
  {
    if m == 0 then [] else [Next(hosts, idx)] + Served(hosts, Tick(idx), m - 1)
  }

  function Next(hosts: seq<string>, idx: nat): string
    requires hosts != []
  {
    hosts[idx % |hosts|]
  }

  function Tick(idx: nat): nat { (idx + 1) % COUNTER }

  // ---------------------------------------------------------------- fairness

  /** How far the counter is from the next turn of host number `j` out of `n`. */
  function Distance(n: nat, j: nat, idx: nat): (d: nat)
    requires j < n
    ensures d < n
  {
    (j + n - idx % n) % n
  }

  /** The exact number of turns of host `j` in `m` calls that do not wrap the counter. */
  function Turns(n: nat, j: nat, idx: nat, m: nat): nat
    requires j < n
  {
    (m + n - 1 - Distance(n, j, idx)) / n
  }

  lemma DistanceStep(n: nat, j: nat, idx: nat)
    requires j < n
    ensures idx % n == j <==> Distance(n, j, idx) == 0
    ensures Distance(n, j, idx + 1) == if Distance(n, j, idx) == 0 then n - 1 else Distance(n, j, idx) - 1
  {
    var a := idx % n;
    assert (idx + 1) % n == if a == n - 1 then 0 else a + 1 by {
      NextResidue(idx, n);
    }
    SmallResidue(j + n - a, n);
    SmallResidue(j + n - (idx + 1) % n, n);
  }

  lemma NextResidue(x: nat, n: nat)
    requires n > 0
    ensures (x + 1) % n == if x % n == n - 1 then 0 else x % n + 1
  {
    var q, a := x / n, x % n;
    assert x + 1 == q * n + (a + 1);
    if a == n - 1 {
      assert x + 1 == (q + 1) * n + 0;
      ResidueIs(x + 1, n, q + 1, 0);
    } else {
      ResidueIs(x + 1, n, q, a + 1);
    }
  }

  lemma ResidueIs(x: nat, n: nat, q: nat, r: nat)
    requires r < n && x == q * n + r
    ensures x % n == r && x / n == q
  {
    var k := x / n - q;
    assert k * n == r - x % n;
    assert k >= 1 ==> k * n >= n;
    assert k <= -1 ==> k * n + n <= 0;
  }

  lemma SmallResidue(x: nat, n: nat)
    requires 0 < x < 2 * n
    ensures x % n == if x < n then x else x - n
  {
    ResidueIs(x, n, if x < n then 0 else 1, if x < n then x else x - n);
  }

  lemma QuotientStep(x: nat, n: nat)
    requires n > 0
    ensures (x + n) / n == x / n + 1
  {
    ResidueIs(x + n, n, x / n + 1, x % n);
  }

  lemma SmallQuotient(x: nat, n: nat)
    requires x < n
    ensures x / n == 0
  {
    ResidueIs(x, n, 0, x);
  }

  predicate HasTurn(n: nat, j: nat, idx: nat)
    requires n > 0
  {
    idx % n == j
  }

  lemma TurnsStep(n: nat, j: nat, idx: nat, m: nat)
    requires j < n
    ensures Turns(n, j, idx, 0) == 0
    ensures Turns(n, j, idx, m + 1) == Turns(n, j, idx + 1, m) + if HasTurn(n, j, idx) then 1 else 0
  {
    DistanceStep(n, j, idx);
    SmallQuotient(n - 1 - Distance(n, j, idx), n);
    if Distance(n, j, idx) == 0 {
      QuotientStep(m, n);
    }
  }

  /** How many of the calls went to host `h`. */
  function Share(served: seq<string>, h: string): nat {
    if served == [] then 0 else Share(served[1..], h) + if served[0] == h then 1 else 0
  }

  lemma {:induction false} ShareOfBoth(a: seq<string>, b: seq<string>, h: string)
    ensures Share(a + b, h) == Share(a, h) + Share(b, h)
  {
    if a == [] {
      assert a + b == b;
    } else {
      ShareOfBoth(a[1..], b, h);
      assert (a + b)[1..] == a[1..] + b;
    }
  }

  lemma TickOnly(idx: nat)
    ensures idx + 1 < COUNTER ==> Tick(idx) == idx + 1
  {
  }

  lemma NextIs(hosts: seq<string>, j: nat, idx: nat)
    requires NoRepeats(hosts) && j < |hosts|
    ensures Next(hosts, idx) == hosts[j] <==> HasTurn(|hosts|, j, idx)
  {
  }

  /** Each host's share of a run without wrap-around, exactly. */
  lemma {:induction false} ShareWithoutWrap(hosts: seq<string>, j: nat, idx: nat, m: nat)
    requires NoRepeats(hosts) && j < |hosts| && idx + m <= COUNTER
    ensures Share(Served(hosts, idx, m), hosts[j]) == Turns(|hosts|, j, idx, m)
    decreases m
  {
    hide Turns, Distance, Next, Tick, HasTurn;
    if m == 0 {
      TurnsStep(|hosts|, j, idx, 0);
    } else {
      TurnsStep(|hosts|, j, idx, m - 1);
      assert Served(hosts, idx, m)[1..] == Served(hosts, Tick(idx), m - 1);
      NextIs(hosts, j, idx);
      TickOnly(idx);
      if m == 1 {
        TurnsStep(|hosts|, j, idx + 1, 0);
      } else {
        ShareWithoutWrap(hosts, j, idx + 1, m - 1);
      }
    }
  }

  lemma TurnsBounds(n: nat, j: nat, idx: nat, m: nat)
    requires j < n
    ensures m / n <= Turns(n, j, idx, m) <= m / n + 1
    ensures m % n == 0 ==> Turns(n, j, idx, m) == m / n
  {
    var q, r, d := m / n, m % n, Distance(n, j, idx);
    var x := m + n - 1 - d;
    assert x == q * n + (r + n - 1 - d);
    if r + n - 1 - d < n {
      ResidueIs(x, n, q, r + n - 1 - d);
    } else {
      assert x == (q + 1) * n + (r - 1 - d);
      ResidueIs(x, n, q + 1, r - 1 - d);
    }
  }

  /** Without wrap-around any two hosts' shares differ by at most one, and whole rounds serve all alike. */
  lemma FairWithoutWrap(hosts: seq<string>, i: nat, j: nat, idx: nat, m: nat)
    requires NoRepeats(hosts) && i < |hosts| && j < |hosts| && idx + m <= COUNTER
    ensures var served := Served(hosts, idx, m);
            && Share(served, hosts[i]) <= Share(served, hosts[j]) + 1
            && m / |hosts| <= Share(served, hosts[j]) <= m / |hosts| + 1
            && (m % |hosts| == 0 ==> Share(served, hosts[j]) == m / |hosts|)
  {
    ShareWithoutWrap(hosts, i, idx, m);
    ShareWithoutWrap(hosts, j, idx, m);
    TurnsBounds(|hosts|, i, idx, m);
    TurnsBounds(|hosts|, j, idx, m);
  }

  /** The counter after `k` calls. */
  function After(idx: nat, k: nat): nat { (idx + k) % COUNTER }

  lemma AfterTick(idx: nat, k: nat)
    requires idx < COUNTER
    ensures After(Tick(idx), k) == After(idx, k + 1) && After(idx, 0) == idx && Tick(idx) < COUNTER
  {
  }

  /** A run is the run up to a point followed by the run from there. */
  lemma {:induction false} ServedSplits(hosts: seq<string>, idx: nat, m: nat, k: nat)
    requires hosts != [] && k <= m && idx < COUNTER
    ensures Served(hosts, idx, m) == Served(hosts, idx, k) + Served(hosts, After(idx, k), m - k)
    decreases k
  {
    hide After, Tick, Next;
    if k == 0 {
      AfterTick(idx, 0);
      assert Served(hosts, idx, 0) == [];
    } else {
      AfterTick(idx, k - 1);
      ServedSplits(hosts, Tick(idx), m - 1, k - 1);
      var h, mid, end := [Next(hosts, idx)], Served(hosts, Tick(idx), k - 1), Served(hosts, After(idx, k), m - k);
      assert Served(hosts, idx, m) == h + (mid + end);
      assert Served(hosts, idx, k) == h + mid;
    }
  }

  /** Which host each call of a run names. */
  lemma {:induction false} ServedAt(hosts: seq<string>, idx: nat, m: nat, k: nat)
    requires hosts != [] && k < m && idx < COUNTER
    ensures Served(hosts, idx, m)[k] == hosts[After(idx, k) % |hosts|]
    decreases k
  {
    hide Tick, After;
    AfterTick(idx, if k > 0 then k - 1 else 0);
    if k > 0 {
      ServedAt(hosts, Tick(idx), m - 1, k - 1);
    }
  }

  lemma FirstRoundIs(k: nat, n: nat)
    requires k < n <= COUNTER
    ensures After(0, k) % n == k
  {
    if k > 0 {
      SmallResidue(k, COUNTER);
      SmallResidue(k, n);
    }
  }

  /** From a fresh counter the hosts are named in the order of the list. */
  lemma ServedInOrder(hosts: seq<string>)
    requires hosts != [] && |hosts| <= COUNTER
    ensures Served(hosts, 0, |hosts|) == hosts
  {
    hide Served, After;
    forall k | 0 <= k < |hosts|
      ensures Served(hosts, 0, |hosts|)[k] == hosts[k]
    {
      ServedAt(hosts, 0, |hosts|, k);
      FirstRoundIs(k, |hosts|);
    }
  }

  /** A run that wraps the counter once: shares differ by at most two, the counter restarting mid-round. */
  lemma FairAcrossWrap(hosts: seq<string>, i: nat, j: nat, idx: nat, m: nat)
    requires NoRepeats(hosts) && i < |hosts| && j < |hosts| && idx < COUNTER && idx + m <= 2 * COUNTER
    ensures var served := Served(hosts, idx, m); Share(served, hosts[i]) <= Share(served, hosts[j]) + 2
  {
    if idx + m <= COUNTER {
      FairWithoutWrap(hosts, i, j, idx, m);
    } else {
      var k := COUNTER - idx;
      assert After(idx, k) == 0;
      hide After, Served;
      ServedSplits(hosts, idx, m, k);
      var before, after := Served(hosts, idx, k), Served(hosts, 0, m - k);
      FairWithoutWrap(hosts, i, j, idx, k);
      FairWithoutWrap(hosts, i, j, 0, m - k);
      ShareOfBoth(before, after, hosts[i]);
      ShareOfBoth(before, after, hosts[j]);
    }
  }

  // ---------------------------------------------------------------- when the rotation survives the wrap

  /** One step of a counter that starts over at `c`, where `n` divides `c`. */
  lemma StepResidue(x: nat, n: nat, c: nat)
    requires n > 0 && c > 0 && x < c && c % n == 0
    ensures (x + 1) % c % n == (x + 1) % n
  {
    if x + 1 == c {
      ResidueIs(c, c, 1, 0);
      ResidueIs(0, n, 0, 0);
    } else {
      ResidueIs(x + 1, c, 0, x + 1);
    }
  }

  /** `n` hosts fill the counter's range with whole rounds. */
  predicate Divides(n: nat)
    requires n > 0
  {
    COUNTER % n == 0
  }

  /** The turn order carries on at the wrap exactly when the number of hosts divides 2^64. */
  lemma RotationAtWrap(n: nat)
    requires n > 0
    ensures (forall idx: nat :: idx < COUNTER ==> Tick(idx) % n == (idx + 1) % n) <==> Divides(n)
  {
    if COUNTER % n == 0 {
      forall idx: nat | idx < COUNTER
        ensures Tick(idx) % n == (idx + 1) % n
      {
        StepResidue(idx, n, COUNTER);
      }
    } else {
      assert Tick(COUNTER - 1) == 0;
      ResidueIs(0, n, 0, 0);
    }
  }

  /** Turns depend only on where in its round the counter stands. */
  lemma TurnsByResidue(n: nat, j: nat, a: nat, b: nat, m: nat)
    requires j < n && a % n == b % n
    ensures Turns(n, j, a, m) == Turns(n, j, b, m)
  {
  }

  /** If the number of hosts divides 2^64, the shares of every window whatever are those of an endless counter. */
  lemma {:induction false} ShareWhenDividing(hosts: seq<string>, j: nat, idx: nat, m: nat)
    requires NoRepeats(hosts) && j < |hosts| && idx < COUNTER && Divides(|hosts|)
    ensures Share(Served(hosts, idx, m), hosts[j]) == Turns(|hosts|, j, idx, m)
    decreases m
  {
    if m == 0 {
      TurnsStep(|hosts|, j, idx, 0);
    } else {
      TurnsStep(|hosts|, j, idx, m - 1);
      StepResidue(idx, |hosts|, COUNTER);
      TurnsByResidue(|hosts|, j, Tick(idx), idx + 1, m - 1);
      AfterTick(idx, 0);
      NextIs(hosts, j, idx);
      hide Turns, Distance, Next, Tick, HasTurn;
      assert Served(hosts, idx, m)[1..] == Served(hosts, Tick(idx), m - 1);
      ShareWhenDividing(hosts, j, Tick(idx), m - 1);
    }
  }

  /** In this window host `i` gets at most one call more than host `j`. */
  predicate Even(hosts: seq<string>, i: nat, j: nat, idx: nat, m: nat)
    requires i < |hosts| && j < |hosts|
  {
    Share(Served(hosts, idx, m), hosts[i]) <= Share(Served(hosts, idx, m), hosts[j]) + 1
  }

  /** The windows that are over before the counter would reach `end` if it did not wrap are fair within one. */
  ghost predicate FairUpTo(hosts: seq<string>, end: nat) {
    forall i: nat, j: nat, idx: nat, m: nat ::
      i < |hosts| && j < |hosts| && idx < COUNTER && idx + m <= end ==> Even(hosts, i, j, idx, m)
  }

  lemma EvenWhenDividing(hosts: seq<string>, i: nat, j: nat, idx: nat, m: nat)
    requires NoRepeats(hosts) && i < |hosts| && j < |hosts| && idx < COUNTER && Divides(|hosts|)
    ensures Even(hosts, i, j, idx, m)
  {
    ShareWhenDividing(hosts, i, idx, m);
    ShareWhenDividing(hosts, j, idx, m);
    TurnsBounds(|hosts|, i, idx, m);
    TurnsBounds(|hosts|, j, idx, m);
    hide Served, Share, Turns, Divides;
  }

  /**
   * With `r` calls more than whole rounds in the counter's range, the last `r` calls before the wrap and the first `r`
   * after it serve the first host twice and host `r` never.
   */
  lemma UnfairWindow(hosts: seq<string>, q: nat, r: nat)
    requires NoRepeats(hosts) && 0 < r < |hosts| && COUNTER == q * |hosts| + r
    ensures Share(Served(hosts, COUNTER - r, 2 * r), hosts[0]) == 2
    ensures Share(Served(hosts, COUNTER - r, 2 * r), hosts[r]) == 0
  {
    var n, start := |hosts|, COUNTER - r;
    ResidueIs(start, n, q, 0);
    ResidueIs(0, n, 0, 0);
    assert After(start, r) == 0;
    FirstRound(n, r, start);
    FirstRound(n, r, 0);
    hide After, Served, Turns, Distance;
    ServedSplits(hosts, start, 2 * r, r);
    var before, after := Served(hosts, start, r), Served(hosts, 0, r);
    forall j | j == 0 || j == r
      ensures Share(Served(hosts, start, 2 * r), hosts[j]) == Share(before, hosts[j]) + Share(after, hosts[j])
      ensures Share(before, hosts[j]) == Turns(n, j, start, r) && Share(after, hosts[j]) == Turns(n, j, 0, r)
    {
      ShareOfBoth(before, after, hosts[j]);
      ShareWithoutWrap(hosts, j, start, r);
      ShareWithoutWrap(hosts, j, 0, r);
    }
  }

  lemma UnevenWindow(hosts: seq<string>) returns (r: nat)
    requires NoRepeats(hosts) && hosts != [] && !Divides(|hosts|)
    ensures 0 < r < |hosts| && r <= COUNTER && !Even(hosts, 0, r, COUNTER - r, 2 * r)
  {
    var q: nat;
    q, r := COUNTER / |hosts|, COUNTER % |hosts|;
    assert r <= COUNTER by { assert q * |hosts| >= 0; }
    hide Served, Share, Divides;
    UnfairWindow(hosts, q, r);
  }

  /** At the start of a round `r` calls serve the first host once and host `r` not yet. */
  lemma FirstRound(n: nat, r: nat, idx: nat)
    requires 0 < r < n && idx % n == 0
    ensures Turns(n, 0, idx, r) == 1 && Turns(n, r, idx, r) == 0
  {
    ResidueIs(n, n, 1, 0);
    SmallResidue(r + n, n);
    ResidueIs(r + n - 1, n, 1, r - 1);
    ResidueIs(n - 1, n, 0, n - 1);
  }

  /**
   * Shares stay within one in every window with one wrap, and in every window whatever, exactly when the number of
   * hosts divides 2^64.
   */
  lemma FairIffDividing(hosts: seq<string>, end: nat)
    requires NoRepeats(hosts) && hosts != [] && end >= 2 * COUNTER
    ensures FairUpTo(hosts, end) <==> Divides(|hosts|)
  {
    hide Even, Divides;
    if Divides(|hosts|) {
      forall i: nat, j: nat, idx: nat, m: nat | i < |hosts| && j < |hosts| && idx < COUNTER && idx + m <= end
        ensures Even(hosts, i, j, idx, m)
      {
        EvenWhenDividing(hosts, i, j, idx, m);
      }
    } else {
      var r := UnevenWindow(hosts);
      var start := COUNTER - r;
      assert start < COUNTER && start + 2 * r <= end && !Even(hosts, 0, r, start, 2 * r);
    }
  }

  /** With three hosts, the calls before and after the wrap both go to the first host. */
  lemma WrapRepeatsFirstHost(a: string, b: string, c: string)
    ensures Served([a, b, c], COUNTER - 1, 2) == [a, a]
  {
    assert (COUNTER - 1) % 3 == 0;
    assert Served([a, b, c], 0, 1) == [a] + Served([a, b, c], 1, 0);
  }
}
