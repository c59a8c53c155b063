/** Recorded durations, and what the memo table of the downstream weights says. */
module DownstreamCosts {
  import opened Basics
  import opened Graphs

  datatype Profile = Profile(average: nat, samples: nat)
  datatype Outcome<T> = Ok(value: T) | Cycle(node: string)

  /** A task's average duration, 100 ms for a task never recorded. */
  function Cost(profiles: map<string, Profile>, t: string): nat {
    if t in profiles then profiles[t].average else 100
  }

  function CostFn(profiles: map<string, Profile>): string -> real {
    t => Cost(profiles, t) as real
  }

  /** v milliseconds is the greatest total cost of a chain of tasks starting at t, t included. */
  ghost predicate IsCriticalWeight(adj: Graph<string>, profiles: map<string, Profile>, t: string, v: nat) {
    IsHeaviest(adj, CostFn(profiles), t, v as real)
  }

  ghost predicate Settled(adj: Graph<string>, profiles: map<string, Profile>, t: string, downstream: nat) {
    !CycleFrom(adj, t) && IsCriticalWeight(adj, profiles, t, Cost(profiles, t) + downstream)
  }

  ghost predicate MemoOk(adj: Graph<string>, profiles: map<string, Profile>, memo: map<string, nat>) {
    forall t {:trigger Settled(adj, profiles, t, memo[t])} :: t in memo ==> Settled(adj, profiles, t, memo[t])
  }

  /** best is the greatest cost of one of the searched neighbours followed by its own downstream cost, 0 without any. */
  ghost predicate MaxSoFar(profiles: map<string, Profile>, ds: seq<string>, memo: map<string, nat>, best: nat) {
    && (forall d :: d in ds ==> d in memo && Cost(profiles, d) + memo[d] <= best)
    && (best == 0 || exists d :: d in ds && d in memo && Cost(profiles, d) + memo[d] == best)
  }

  lemma MaxNext(profiles: map<string, Profile>, ds: seq<string>, i: nat, was: map<string, nat>, memo: map<string, nat>,
                best: nat)
    requires i < |ds| && MaxSoFar(profiles, ds[..i], was, best)
    requires Extends(was, memo) && ds[i] in memo
    ensures var cost := Cost(profiles, ds[i]) + memo[ds[i]];
      MaxSoFar(profiles, ds[..i + 1], memo, if cost > best then cost else best)
  {
    assert ds[..i + 1] == ds[..i] + [ds[i]];
    if best > 0 {
      var d :| d in ds[..i] && d in was && Cost(profiles, d) + was[d] == best;
      assert d in ds[..i + 1] && d in memo && Cost(profiles, d) + memo[d] == best;
    }
  }

  lemma Settle(adj: Graph<string>, profiles: map<string, Profile>, node: string, memo: map<string, nat>, best: nat)
    requires MemoOk(adj, profiles, memo) && MaxSoFar(profiles, Deps(adj, node), memo, best)
    ensures MemoOk(adj, profiles, memo[node := best])
  {
    var w := CostFn(profiles);
    forall d | d in Deps(adj, node)
      ensures !CycleFrom(adj, d) && exists c :: c <= best as real && IsHeaviest(adj, w, d, c)
    {
      assert Settled(adj, profiles, d, memo[d]);
    }
    if best > 0 {
      var d :| d in Deps(adj, node) && d in memo && Cost(profiles, d) + memo[d] == best;
      assert Settled(adj, profiles, d, memo[d]);
    }
    HeaviestStep(adj, w, node, best as real);
    if CycleFrom(adj, node) { CycleThroughDep(adj, node); }
    var memo' := memo[node := best];
    forall t | t in memo' ensures Settled(adj, profiles, t, memo'[t]) {
      if t != node { assert Settled(adj, profiles, t, memo[t]); }
    }
  }

  // ---------------------------------------------------------------- the truncating running mean

  function NextProfile(p: Profile, duration: nat): Profile {
    Profile((p.average * p.samples + duration) / (p.samples + 1), p.samples + 1)
  }

  /** The profile after recording the given durations in order. */
  function ProfileAfter(durations: seq<nat>): Profile {
    if durations == [] then Profile(0, 0)
    else NextProfile(ProfileAfter(durations[..|durations| - 1]), durations[|durations| - 1])
  }

  function Sum(s: seq<nat>): nat {
    if s == [] then 0 else Sum(s[..|s| - 1]) + s[|s| - 1]
  }

  lemma DivideTruncates(total: nat, n: nat)
    requires n > 0
    ensures (total / n) * n <= total <= (total / n) * n + (n - 1)
  {
    assert total == n * (total / n) + total % n;
  }

  lemma DivideBetween(total: nat, n: nat, lo: nat, hi: nat)
    requires n > 0 && lo * n <= total <= hi * n
    ensures lo <= total / n <= hi
  {
    DivideTruncates(total, n);
    var q := total / n;
    if q < lo { MulGrows(lo, q + 1, n); }
    if q > hi { MulGrows(q, hi + 1, n); }
  }

  lemma NextInRange(p: Profile, d: nat, lo: nat, hi: nat)
    requires lo <= d <= hi && (p.samples == 0 || lo <= p.average <= hi)
    ensures lo <= NextProfile(p, d).average <= hi
  {
    var n := p.samples;
    if n == 0 {
      assert p.average * n == 0;
    } else {
      MulGrows(p.average, lo, n);
      MulGrows(hi, p.average, n);
      assert lo * (n + 1) == lo * n + lo && hi * (n + 1) == hi * n + hi;
      DivideBetween(p.average * n + d, n + 1, lo, hi);
    }
  }

  lemma {:induction false} SamplesCount(durations: seq<nat>)
    ensures ProfileAfter(durations).samples == |durations|
    decreases |durations|
  {
    if durations != [] { SamplesCount(durations[..|durations| - 1]); }
  }

  /** The mean never leaves the range of the recorded durations. */
  lemma {:induction false} MeanStaysInRange(durations: seq<nat>, lo: nat, hi: nat)
    requires durations != [] && forall i :: 0 <= i < |durations| ==> lo <= durations[i] <= hi
    ensures lo <= ProfileAfter(durations).average <= hi
    decreases |durations|
  {
    var rest := durations[..|durations| - 1];
    SamplesCount(rest);
    if rest != [] { MeanStaysInRange(rest, lo, hi); }
    NextInRange(ProfileAfter(rest), durations[|durations| - 1], lo, hi);
  }

  lemma HalfStep(k: nat)
    ensures (k + 1) * k / 2 == k * (k - 1) / 2 + k
  {
    assert (k + 1) * k == k * (k - 1) + 2 * k;
  }

  /** One more sample: the truncation loses less than the new number of samples. */
  lemma DriftStep(average: nat, k: nat, d: nat, sum: nat)
    requires average * k <= sum <= average * k + k * (k - 1) / 2
    ensures var next := (average * k + d) / (k + 1);
      next * (k + 1) <= sum + d <= next * (k + 1) + (k + 1) * k / 2
  {
    var total := average * k + d;
    DivideTruncates(total, k + 1);
    assert total % (k + 1) <= k;
    HalfStep(k);
  }

  /** Truncation only ever loses time, and after n samples at most n(n-1)/2 ms of the exact sum. */
  lemma {:induction false} MeanDrift(durations: seq<nat>)
    ensures var p, n := ProfileAfter(durations), |durations|;
      p.average * n <= Sum(durations) <= p.average * n + n * (n - 1) / 2
    decreases |durations|
  {
    var n := |durations|;
    if n > 0 {
      var rest, d := durations[..n - 1], durations[n - 1];
      MeanDrift(rest);
      SamplesCount(rest);
      DriftStep(ProfileAfter(rest).average, n - 1, d, Sum(rest));
    }
  }
}
