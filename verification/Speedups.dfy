/** The speed-up a plan is estimated to bring: total time over what the workers and the critical path allow. */
module Speedups {
  import opened Graphs
  import opened GreedyBatches
  import opened LongestChains
  import opened ScheduleTheorems

  function Max(a: real, b: real): real {
    if a >= b then a else b
  }

  ghost function SumOver(ts: set<Task>, w: Task -> real): real {
    if ts == {} then 0.0
    else
      var t :| t in ts;
      w(t) + SumOver(ts - {t}, w)
  }

  lemma {:induction false} SumWithout(ts: set<Task>, w: Task -> real, x: Task)
    requires x in ts
    ensures SumOver(ts, w) == w(x) + SumOver(ts - {x}, w)
    decreases ts
  {
    var first :| first in ts && SumOver(ts, w) == w(first) + SumOver(ts - {first}, w);
    if first != x {
      SumWithout(ts - {first}, w, x);
      SumWithout(ts - {x}, w, first);
      assert ts - {first} - {x} == ts - {x} - {first};
    }
  }

  /** Less time than this counts as this much: 0.1, or 1 when the path has no weight. */
  function LeastTime(path: real): real {
    if path == 0.0 then 1.0 else 0.1
  }

  /** The least time the estimate thinks possible; a path without weight counts as 1, and less than 0.1 as 0.1. */
  function ParallelTime(sequential: real, path: real, workers: int): real
    requires workers >= 1
  {
    var critical := if path == 0.0 then 1.0 else path;
    Max(0.1, Max(critical, sequential / workers as real))
  }

  /** The estimate before rounding. */
  function Estimate(sequential: real, path: real, workers: int): real
    requires workers >= 1
  {
    sequential / ParallelTime(sequential, path, workers)
  }

  method SequentialTime(tasks: set<Task>, w: Task -> real) returns (total: real)
    ensures total == SumOver(tasks, w)
  {
    total := 0.0;
    var rest := tasks;
    while rest != {}
      invariant rest <= tasks && total + SumOver(rest, w) == SumOver(tasks, w)
    {
      var t :| t in rest;
      SumWithout(rest, w, t);
      total := total + w(t);
      rest := rest - {t};
    }
  }

  method PathTime(path: seq<Task>, w: Task -> real) returns (total: real)
    ensures total == Weight(w, path)
  {
    total := 0.0;
    for i := 0 to |path|
      invariant total == Weight(w, path[..i])
    {
      assert path[..i + 1] == path[..i] + [path[i]];
      WeightAppend(w, path[..i], path[i]);
      total := total + w(path[i]);
    }
    assert path[..|path|] == path;
  }

  lemma {:induction false} SumNotNegative(ts: set<Task>, w: Task -> real)
    requires forall t :: t in ts ==> w(t) >= 0.0
    ensures SumOver(ts, w) >= 0.0
    decreases ts
  {
    if ts != {} {
      var t :| t in ts;
      SumWithout(ts, w, t);
      SumNotNegative(ts - {t}, w);
    }
  }

  /** Distinct tasks together take no longer than all tasks. */
  lemma {:induction false} PathWithinTotal(ts: set<Task>, w: Task -> real, p: seq<Task>)
    requires NoDup(p) && Members(p) <= ts && forall t :: t in ts ==> w(t) >= 0.0
    ensures Weight(w, p) <= SumOver(ts, w)
    decreases |p|
  {
    if p == [] {
      SumNotNegative(ts, w);
    } else {
      assert p == [p[0]] + p[1..] && p[0] in Members(p);
      forall t | t in Members(p[1..]) ensures t in ts - {p[0]} {
        assert t in Members(p);
      }
      SumWithout(ts, w, p[0]);
      PathWithinTotal(ts - {p[0]}, w, p[1..]);
    }
  }

  lemma {:induction false} AllZero(ts: set<Task>, w: Task -> real)
    requires forall t :: t in ts ==> w(t) == 0.0
    ensures SumOver(ts, w) == 0.0
    decreases ts
  {
    if ts != {} {
      var t :| t in ts;
      SumWithout(ts, w, t);
      AllZero(ts - {t}, w);
    }
  }

  lemma DivideBy(a: real, b: real, k: real)
    requires b > 0.0
    ensures a / b <= k <==> a <= k * b
    ensures a / b >= k <==> a >= k * b
  {
    var q := a / b;
    assert q * b == a;
    if q > k { assert (q - k) * b > 0.0; }
    if q < k { assert (k - q) * b > 0.0; }
  }

  lemma Product(q: real, a: real, b: real)
    requires q >= 0.0 && a <= b
    ensures q * a <= q * b
  {
    assert q * (b - a) >= 0.0;
  }

  /**
    Between 0 and the number of workers, and at least 1 exactly when all tasks together take the least time
    or more.
   */
  lemma EstimateInRange(sequential: real, path: real, workers: int)
    requires workers >= 1 && 0.0 <= path <= sequential
    ensures 0.0 <= Estimate(sequential, path, workers) <= workers as real
    ensures Estimate(sequential, path, workers) >= 1.0 <==> sequential >= LeastTime(path)
  {
    var m := workers as real;
    var share, parallel := sequential / m, ParallelTime(sequential, path, workers);
    DivideBy(sequential, m, share);
    DivideBy(sequential, m, sequential);
    Product(sequential, 1.0, m);
    Product(m, share, parallel);
    DivideBy(sequential, parallel, 0.0);
    DivideBy(sequential, parallel, m);
    DivideBy(sequential, parallel, 1.0);
  }

  lemma LighterWithin(x: real, chain: real, path: real, total: real)
    requires x >= 0.0 && chain <= path && x * path <= total
    ensures x * chain <= total
  {
    Product(x, chain, path);
  }

  /** A product with the greatest of three numbers is within a bound when the products with each of them are. */
  lemma ProductsWithin(x: real, a: real, b: real, c: real, bound: real)
    requires a >= 0.0 && b >= 0.0 && c >= 0.0 && bound >= 0.0
    ensures x * Max(a, Max(b, c)) <= bound <==> x * a <= bound && x * b <= bound && x * c <= bound
  {
    if x >= 0.0 {
      Product(x, a, Max(a, Max(b, c)));
      Product(x, b, Max(a, Max(b, c)));
      Product(x, c, Max(a, Max(b, c)));
    } else {
      Product(-x, 0.0, a);
      Product(-x, 0.0, b);
      Product(-x, 0.0, c);
    }
  }

  lemma ShareWithin(x: real, sequential: real, m: real)
    requires m > 0.0 && sequential > 0.0
    ensures x * (sequential / m) <= sequential <==> x <= m
  {
    var share := sequential / m;
    DivideBy(sequential, m, share);
    assert share > 0.0 by { DivideBy(sequential, m, 0.0); }
    if x <= m { Product(share, x, m); } else { assert share * (x - m) > 0.0; }
  }

  lemma QuotientWithin(x: real, total: real, a: real, b: real, c: real)
    requires a > 0.0 && b >= 0.0 && c >= 0.0 && total >= 0.0
    ensures x <= total / Max(a, Max(b, c)) <==> x * a <= total && x * b <= total && x * c <= total
  {
    ProductsWithin(x, a, b, c, total);
    DivideBy(total, Max(a, Max(b, c)), x);
  }

  lemma LargestWithPath(total: real, path: real, m: real, estimate: real, x: real)
    requires m >= 1.0 && 0.0 < path <= total && estimate == total / Max(0.1, Max(path, total / m))
    ensures x <= estimate <==> x <= m && x * path <= total && x * 0.1 <= total
  {
    DivideBy(total, m, 0.0);
    ShareWithin(x, total, m);
    QuotientWithin(x, total, 0.1, path, total / m);
  }

  lemma LargestWithoutPath(total: real, m: real, estimate: real, x: real)
    requires m >= 1.0 && total >= 0.0 && estimate == total / Max(0.1, Max(1.0, total / m))
    ensures x <= estimate <==> x <= m && x <= total
  {
    DivideBy(total, m, 0.0);
    if total > 0.0 { ShareWithin(x, total, m); }
    QuotientWithin(x, total, 0.1, 1.0, total / m);
  }

  /**
    The estimate is the largest number that neither exceeds the workers, nor takes the path, or the
    least time that counts, so many times over all tasks together.
   */
  lemma EstimateIsLargest(total: real, path: real, workers: int, estimate: real, x: real)
    requires workers >= 1 && 0.0 <= path <= total && estimate == Estimate(total, path, workers)
    ensures x <= estimate <==>
      x <= workers as real && if path == 0.0 then x <= total else x * path <= total && x * 0.1 <= total
  {
    if path == 0.0 {
      LargestWithoutPath(total, workers as real, estimate, x);
    } else {
      LargestWithPath(total, path, workers as real, estimate, x);
    }
  }

  // ---------------------------------------------------------------- how long a schedule takes

  /** A batch takes as long as its longest task. */
  ghost function Longest(w: Task -> real, batch: seq<Task>): real {
    if batch == [] then 0.0 else Max(Longest(w, batch[..|batch| - 1]), w(batch[|batch| - 1]))
  }

  /** Batches run one after the other. */
  ghost function Makespan(w: Task -> real, batches: seq<seq<Task>>): real {
    if batches == [] then 0.0 else Makespan(w, batches[..|batches| - 1]) + Longest(w, batches[|batches| - 1])
  }

  lemma {:induction false} LongestIs(w: Task -> real, batch: seq<Task>)
    ensures Longest(w, batch) >= 0.0 && forall t :: t in batch ==> w(t) <= Longest(w, batch)
    decreases |batch|
  {
    if batch != [] {
      var n := |batch| - 1;
      LongestIs(w, batch[..n]);
      assert batch == batch[..n] + [batch[n]];
    }
  }

  lemma MakespanNext(w: Task -> real, batches: seq<seq<Task>>, i: nat)
    requires i < |batches|
    ensures Makespan(w, batches[..i + 1]) == Makespan(w, batches[..i]) + Longest(w, batches[i])
  {
    assert batches[..i + 1][..i] == batches[..i];
  }

  lemma {:induction false} LaterEndsLater(w: Task -> real, batches: seq<seq<Task>>, i: nat, j: nat)
    requires i <= j <= |batches|
    ensures Makespan(w, batches[..i]) <= Makespan(w, batches[..j])
    decreases j
  {
    if i < j {
      LaterEndsLater(w, batches, i, j - 1);
      LongestIs(w, batches[j - 1]);
      MakespanNext(w, batches, j - 1);
    }
  }

  lemma TaskAddsTime(w: Task -> real, batches: seq<seq<Task>>, j: nat, i: nat, t: Task, before: real)
    requires j <= i < |batches| && t in batches[i] && before <= Makespan(w, batches[..j])
    ensures w(t) + before <= Makespan(w, batches[..i + 1])
  {
    LongestIs(w, batches[i]);
    LaterEndsLater(w, batches, j, i);
    MakespanNext(w, batches, i);
  }

  /** A chain that starts in a batch takes no longer than the batches up to that one. */
  lemma {:induction false} ChainTakesTime(g: Graph<Task>, w: Task -> real, batches: seq<seq<Task>>, p: seq<Task>,
                                          i: nat)
    requires EarlierDeps(g, batches) && Walk(g, p) && i < |batches| && p[0] in batches[i]
    ensures Weight(w, p) <= Makespan(w, batches[..i + 1])
    decreases |p|
  {
    if |p| == 1 {
      assert p[1..] == [];
      TaskAddsTime(w, batches, 0, i, p[0], 0.0);
    } else {
      var j :| 0 <= j < i && p[1] in batches[j];
      ChainTakesTime(g, w, batches, p[1..], j);
      TaskAddsTime(w, batches, j + 1, i, p[0], Weight(w, p[1..]));
    }
  }

  ghost function Times(k: nat, x: real): real {
    if k == 0 then 0.0 else Times(k - 1, x) + x
  }

  lemma {:induction false} TimesIs(k: nat, x: real)
    ensures Times(k, x) == k as real * x
  {
    if k > 0 {
      TimesIs(k - 1, x);
      assert k as real * x == (k - 1) as real * x + x;
    }
  }

  lemma {:induction false} TimesAdds(k: nat, x: real, y: real)
    ensures Times(k, x + y) == Times(k, x) + Times(k, y)
  {
    if k > 0 { TimesAdds(k - 1, x, y); }
  }

  lemma {:induction false} TimesGrows(j: nat, k: nat, x: real)
    requires j <= k && x >= 0.0
    ensures Times(j, x) <= Times(k, x)
    decreases k
  {
    if j < k { TimesGrows(j, k - 1, x); }
  }

  lemma {:induction false} WeightBelow(w: Task -> real, p: seq<Task>, most: real)
    requires forall t :: t in p ==> w(t) <= most
    ensures Weight(w, p) <= Times(|p|, most)
    decreases |p|
  {
    if p != [] { WeightBelow(w, p[1..], most); }
  }

  lemma WorkFits(workers: nat, work: real, time: real, more: real, batch: real)
    requires work <= Times(workers, time) && more <= Times(workers, batch)
    ensures work + more <= Times(workers, time + batch)
  {
    TimesAdds(workers, time, batch);
  }

  lemma BatchWork(w: Task -> real, batch: seq<Task>, workers: nat)
    requires |batch| <= workers
    ensures Weight(w, batch) <= Times(workers, Longest(w, batch))
  {
    LongestIs(w, batch);
    WeightBelow(w, batch, Longest(w, batch));
    TimesGrows(|batch|, workers, Longest(w, batch));
  }

  /** So many workers cannot do more work than the time allows. */
  lemma {:induction false} ScheduleWork(w: Task -> real, batches: seq<seq<Task>>, workers: nat)
    requires forall i :: 0 <= i < |batches| ==> |batches[i]| <= workers
    ensures Weight(w, Flatten(batches)) <= Times(workers, Makespan(w, batches))
    decreases |batches|
  {
    if batches == [] {
      TimesGrows(0, workers, 0.0);
    } else {
      var n := |batches| - 1;
      var before := Flatten(batches[..n]);
      ScheduleWork(w, batches[..n], workers);
      BatchWork(w, batches[n], workers);
      var time, longest := Makespan(w, batches[..n]), Longest(w, batches[n]);
      WorkFits(workers, Weight(w, before), time, Weight(w, batches[n]), longest);
      WeightConcat(w, before, batches[n]);
      assert Makespan(w, batches) == time + longest;
    }
  }

  lemma {:induction false} WeightIsSum(w: Task -> real, p: seq<Task>)
    requires NoDup(p)
    ensures Weight(w, p) == SumOver(Members(p), w)
    decreases |p|
  {
    if p != [] {
      assert p == [p[0]] + p[1..];
      assert p[0] in Members(p) && Members(p) - {p[0]} == Members(p[1..]);
      SumWithout(Members(p), w, p[0]);
      WeightIsSum(w, p[1..]);
    }
  }

  /** The workers' time in a valid schedule covers all tasks. */
  lemma AllWorkTakesTime(g: Graph<Task>, w: Task -> real, workers: nat, batches: seq<seq<Task>>)
    requires ValidSchedule(g, workers, batches)
    ensures 0.0 <= Makespan(w, batches) && SumOver(Nodes(g), w) <= Times(workers, Makespan(w, batches))
  {
    LaterEndsLater(w, batches, 0, |batches|);
    assert batches[..|batches|] == batches;
    ScheduleWork(w, batches, workers);
    WeightIsSum(w, Flatten(batches));
  }

  /** Every valid schedule takes at least the time of any chain, and the workers' share of all tasks. */
  lemma NoScheduleIsFaster(g: Graph<Task>, w: Task -> real, workers: nat, batches: seq<seq<Task>>, p: seq<Task>)
    requires ValidSchedule(g, workers, batches) && Walk(g, p) && p[0] in Nodes(g)
    ensures Weight(w, p) <= Makespan(w, batches)
    ensures SumOver(Nodes(g), w) <= Times(workers, Makespan(w, batches))
  {
    assert p[0] in Flatten(batches);
    InFlatten(batches, p[0]);
    var i :| 0 <= i < |batches| && p[0] in batches[i];
    ChainTakesTime(g, w, batches, p, i);
    LaterEndsLater(w, batches, i + 1, |batches|);
    assert batches[..|batches|] == batches;
    AllWorkTakesTime(g, w, workers, batches);
  }

  /** What takes at least the path's time, and the workers' share, takes the parallel time or counts as the least. */
  lemma ParallelTimeIsBound(sequential: real, path: real, workers: nat, makespan: real)
    requires workers >= 1 && path <= makespan && sequential <= Times(workers, makespan)
    ensures ParallelTime(sequential, path, workers) <= Max(LeastTime(path), makespan)
  {
    TimesIs(workers, makespan);
    DivideBy(sequential, workers as real, makespan);
  }
}
