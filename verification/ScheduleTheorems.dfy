/** What every greedy schedule guarantees: safety, completeness and bounds on the number of batches. */
module ScheduleTheorems {
  import opened Basics
  import opened Graphs
  import opened GreedyBatches
  import opened ScheduleDepths

  /** Every dependency of a task of batch i belongs to a strictly earlier batch. */
  ghost predicate EarlierDeps(g: Graph<Task>, batches: seq<seq<Task>>) {
    forall i, t, d :: 0 <= i < |batches| && t in batches[i] && d in Deps(g, t) ==>
      exists j :: 0 <= j < i && d in batches[j]
  }

  /** Any way of running all tasks in batches of at most `workers`, dependencies first. */
  ghost predicate ValidSchedule(g: Graph<Task>, workers: int, batches: seq<seq<Task>>) {
    && NoDup(Flatten(batches)) && Members(Flatten(batches)) == Nodes(g)
    && EarlierDeps(g, batches)
    && (forall i :: 0 <= i < |batches| ==> |batches[i]| <= workers)
  }

  lemma {:induction false} InFlatten(batches: seq<seq<Task>>, t: Task)
    ensures t in Flatten(batches) <==> exists j :: 0 <= j < |batches| && t in batches[j]
    decreases |batches|
  {
    if batches != [] {
      var rest := batches[..|batches| - 1];
      InFlatten(rest, t);
      if t in Flatten(rest) {
        var j :| 0 <= j < |rest| && t in rest[j];
        assert t in batches[j];
      }
      if j :| 0 <= j < |batches| && t in batches[j] {
        if j < |rest| { assert t in rest[j]; }
      }
    }
  }

  // ---------------------------------------------------------------- safety and completeness

  lemma GreedyPrefix(g: Graph<Task>, cfg: Config, batches: seq<seq<Task>>)
    requires GreedySteps(g, cfg, batches) && batches != []
    ensures var n := |batches| - 1;
      GreedySteps(g, cfg, batches[..n]) && IsGreedyBatch(cfg, Ready(g, Done(batches[..n])), batches[n])
  {
    var rest := batches[..|batches| - 1];
    forall i | 0 <= i < |rest| ensures IsGreedyBatch(cfg, Ready(g, Done(rest[..i])), rest[i]) {
      assert rest[..i] == batches[..i];
    }
  }

  lemma {:induction false} ExtendOrder(g: Graph<Task>, order: seq<Task>, batch: seq<Task>)
    requires DepsFirst(g, order)
    requires forall t, d :: t in batch && d in Deps(g, t) ==> d in order
    ensures DepsFirst(g, order + batch)
    decreases |batch|
  {
    if batch == [] {
      assert order + batch == order;
    } else {
      DepsFirstAppend(g, order, batch[0]);
      ExtendOrder(g, order + [batch[0]], batch[1..]);
      assert order + batch == (order + [batch[0]]) + batch[1..];
    }
  }

  lemma {:induction false} StepsAreOrdered(g: Graph<Task>, cfg: Config, batches: seq<seq<Task>>)
    requires GreedySteps(g, cfg, batches)
    ensures NoDup(Flatten(batches)) && DepsFirst(g, Flatten(batches)) && Done(batches) <= Nodes(g)
    decreases |batches|
  {
    if batches != [] {
      var n := |batches| - 1;
      var rest, last := batches[..n], batches[n];
      GreedyPrefix(g, cfg, batches);
      StepsAreOrdered(g, cfg, rest);
      forall t | t in last ensures t in Ready(g, Done(rest)) {
        assert t in Members(last);
      }
      NoDupAppend(Flatten(rest), last);
      ExtendOrder(g, Flatten(rest), last);
    }
  }

  /** A task outside a finished greedy schedule waits for another one outside it, so it has a cycle ahead. */
  lemma LeftOutHasCycle(g: Graph<Task>, done: set<Task>, t: Task)
    requires Ready(g, done) == {} && t in Nodes(g) && t !in done
    ensures CycleFrom(g, t)
  {
    var s := Nodes(g) - done;
    forall x | x in s ensures DependsInto(g, x, s) {
      assert x !in Ready(g, done);
      var d :| d in Deps(g, x) && d !in done;
      assert d in s;
    }
    StuckSetHasCycles(g, s, t);
  }

  /** The emitted tasks are exactly those no dependency cycle can be reached from, each once, dependencies first. */
  lemma ScheduleIsSafeAndComplete(g: Graph<Task>, cfg: Config, batches: seq<seq<Task>>)
    requires IsGreedySchedule(g, cfg, batches)
    ensures NoDup(Flatten(batches))
    ensures forall t :: t in Flatten(batches) <==> t in Nodes(g) && !CycleFrom(g, t)
    ensures EarlierDeps(g, batches)
    ensures forall i :: 0 <= i < |batches| ==>
      0 < |batches[i]| <= cfg.maxWorkers && (cfg.MemorySum(batches[i]) <= cfg.budget || |batches[i]| == 1)
  {
    StepsAreOrdered(g, cfg, batches);
    forall t ensures t in Flatten(batches) <==> t in Nodes(g) && !CycleFrom(g, t) {
      if t in Flatten(batches) {
        OrderedIsCycleFree(g, Flatten(batches), t);
        assert t in Done(batches);
      } else if t in Nodes(g) {
        LeftOutHasCycle(g, Done(batches), t);
      }
    }
    forall i, t, d | 0 <= i < |batches| && t in batches[i] && d in Deps(g, t)
      ensures exists j :: 0 <= j < i && d in batches[j]
    {
      assert t in Members(batches[i]);
      assert t in Ready(g, Done(batches[..i]));
      InFlatten(batches[..i], d);
      var j :| 0 <= j < |batches[..i]| && d in batches[..i][j];
      assert d in batches[j];
    }
  }

  lemma CyclicIsNode(g: Graph<Task>, t: Task)
    ensures CycleFrom(g, t) ==> t in Nodes(g)
  {
    if CycleFrom(g, t) { CycleThroughDep(g, t); }
  }

  /** On an acyclic graph the greedy schedule runs everything; with a cycle it silently leaves tasks out. */
  lemma CompleteIffAcyclic(g: Graph<Task>, cfg: Config, batches: seq<seq<Task>>)
    requires IsGreedySchedule(g, cfg, batches)
    ensures ValidSchedule(g, cfg.maxWorkers, batches) <==> Acyclic(g)
    ensures Members(Flatten(batches)) == Nodes(g) <==> Acyclic(g)
  {
    ScheduleIsSafeAndComplete(g, cfg, batches);
    if Members(Flatten(batches)) == Nodes(g) {
      forall t ensures !CycleFrom(g, t) {
        CyclicIsNode(g, t);
        assert t in Nodes(g) <==> t in Flatten(batches);
      }
    }
    if Acyclic(g) {
      forall t ensures t in Members(Flatten(batches)) <==> t in Nodes(g) {
        assert !CycleFrom(g, t);
      }
    }
  }

  // ---------------------------------------------------------------- how many batches

  /** Every unfilled batch goes one level deeper, so there are at most as many as the longest chain has tasks. */
  lemma {:induction false} UnfilledIsBounded(g: Graph<Task>, cfg: Config, batches: seq<seq<Task>>, longest: nat)
    requires GreedySteps(g, cfg, batches) && MemoryNeverBinds(g, cfg) && ChainsAtMost(g, longest)
    ensures Deep(g, cfg.maxWorkers, batches, longest)
    decreases |batches|
  {
    if batches == [] {
      NothingIsDeep(g, cfg.maxWorkers, longest);
    } else {
      var n := |batches| - 1;
      var rest, last := batches[..n], batches[n];
      GreedyPrefix(g, cfg, batches);
      UnfilledIsBounded(g, cfg, rest, longest);
      GreedyIsFullOrExhaustive(g, cfg, Done(rest), last);
      assert batches == rest + [last];
      if |last| == cfg.maxWorkers {
        DeepAfterFull(g, cfg.maxWorkers, rest, last, longest);
      } else {
        DeepAfterUnfilled(g, cfg.maxWorkers, rest, last, longest);
      }
    }
  }

  lemma {:induction false} BatchesUseTasks(g: Graph<Task>, cfg: Config, batches: seq<seq<Task>>)
    requires GreedySteps(g, cfg, batches)
    ensures UsesTasks(cfg.maxWorkers, batches)
    decreases |batches|
  {
    if batches == [] {
      NothingUsesTasks(cfg.maxWorkers);
    } else {
      var n := |batches| - 1;
      GreedyPrefix(g, cfg, batches);
      BatchesUseTasks(g, cfg, batches[..n]);
      assert batches == batches[..n] + [batches[n]];
      UsesTasksNext(cfg.maxWorkers, batches[..n], batches[n]);
    }
  }

  lemma MulCancel(x: nat, y: nat, b: nat)
    requires x * b < y * b
    ensures x < y
  {
    if x >= y { MulGrows(x, y, b); }
  }

  lemma DivideBelow(a: nat, b: nat, n: nat)
    requires b >= 1 && a * b <= n
    ensures a <= n / b
  {
    assert n == (n / b) * b + n % b;
    assert (n / b + 1) * b == (n / b) * b + b;
    MulCancel(a, n / b + 1, b);
  }

  lemma TasksAreNodes(g: Graph<Task>, cfg: Config, batches: seq<seq<Task>>)
    requires GreedySteps(g, cfg, batches)
    ensures |Flatten(batches)| <= |Nodes(g)|
  {
    StepsAreOrdered(g, cfg, batches);
    forall t | t in Flatten(batches) ensures t in Nodes(g) {
      assert t in Done(batches);
    }
    Pigeonhole(Flatten(batches), Nodes(g));
  }

  /**
    The batching bound: with memory out of the way, the number of batches is at most
    the number of full batches the tasks can fill plus the longest dependency chain.
   */
  lemma BatchBound(g: Graph<Task>, cfg: Config, batches: seq<seq<Task>>, longest: nat)
    requires IsGreedySchedule(g, cfg, batches) && cfg.maxWorkers >= 1
    requires MemoryNeverBinds(g, cfg) && ChainsAtMost(g, longest)
    ensures |batches| <= |Nodes(g)| / cfg.maxWorkers + longest
  {
    UnfilledIsBounded(g, cfg, batches, longest);
    FullAndUnfilled(cfg.maxWorkers, batches);
    BatchesUseTasks(g, cfg, batches);
    TasksAreNodes(g, cfg, batches);
    DivideBelow(Full(cfg.maxWorkers, batches), cfg.maxWorkers, |Nodes(g)|);
  }

  lemma {:induction false} ChainNeedsBatches(g: Graph<Task>, batches: seq<seq<Task>>, p: seq<Task>, i: nat)
    requires EarlierDeps(g, batches) && Walk(g, p) && i < |batches| && p[0] in batches[i]
    ensures |p| <= i + 1
    decreases |p|
  {
    if |p| > 1 {
      var j :| 0 <= j < i && p[1] in batches[j];
      ChainNeedsBatches(g, batches, p[1..], j);
    }
  }

  lemma {:induction false} FlattenFits(batches: seq<seq<Task>>, workers: nat)
    requires forall i :: 0 <= i < |batches| ==> |batches[i]| <= workers
    ensures |Flatten(batches)| <= |batches| * workers
    decreases |batches|
  {
    if batches != [] {
      var n := |batches| - 1;
      FlattenFits(batches[..n], workers);
      assert (n + 1) * workers == n * workers + workers;
    }
  }

  /** However the tasks are batched, a chain needs one batch a task and the workers bound the rest. */
  lemma AnyScheduleNeeds(g: Graph<Task>, workers: nat, batches: seq<seq<Task>>)
    requires ValidSchedule(g, workers, batches) && workers >= 1
    ensures ChainsAtMost(g, |batches|)
    ensures |Nodes(g)| <= |batches| * workers
  {
    FlattenFits(batches, workers);
    NoDupSet(Flatten(batches));
    forall t, p | t in Nodes(g) && WalkFrom(g, t, p) ensures |p| <= |batches| {
      assert t in Flatten(batches);
      InFlatten(batches, t);
      var i :| 0 <= i < |batches| && t in batches[i];
      ChainNeedsBatches(g, batches, p, i);
    }
  }

  lemma GrahamArithmetic(m: nat, full: nat, unfilled: nat, other: nat)
    requires m >= 1 && full * m + unfilled <= other * m && unfilled <= other
    ensures m * (full + unfilled) <= (2 * m - 1) * other
  {
    MulGrows(other, unfilled, m - 1);
    assert m * (full + unfilled) == full * m + unfilled + unfilled * (m - 1);
    assert (2 * m - 1) * other == other * m + other * (m - 1);
  }

  /** Graham's guarantee: at most 2 - 1/m times the batches of any other schedule for m workers. */
  lemma GreedyWithinGraham(g: Graph<Task>, cfg: Config, batches: seq<seq<Task>>, other: seq<seq<Task>>)
    requires IsGreedySchedule(g, cfg, batches) && cfg.maxWorkers >= 1 && MemoryNeverBinds(g, cfg)
    requires ValidSchedule(g, cfg.maxWorkers, other)
    ensures cfg.maxWorkers * |batches| <= (2 * cfg.maxWorkers - 1) * |other|
  {
    var m := cfg.maxWorkers;
    AnyScheduleNeeds(g, m, other);
    UnfilledIsBounded(g, cfg, batches, |other|);
    FullAndUnfilled(m, batches);
    BatchesUseTasks(g, cfg, batches);
    TasksAreNodes(g, cfg, batches);
    GrahamArithmetic(m, Full(m, batches), Unfilled(m, batches), |other|);
  }
}
