/** The whole optimizer call: cycle check through the critical path, then the batches and the plan. */
module ScheduleOptimizer {
  import opened Graphs
  import opened BatchScheduler
  import opened GreedyBatches
  import opened ScheduleTheorems
  import opened CriticalPath
  import opened LongestChains
  import opened Speedups

  datatype Plan = Plan(criticalPath: seq<Task>, ordered: seq<Task>, speedup: real, peakMemory: int,
                       batches: seq<seq<Task>>)

  /** The greatest memory sum of a batch, 256 if there is no batch. */
  ghost predicate IsPeak(cfg: Config, batches: seq<seq<Task>>, peak: int) {
    if batches == [] then peak == 256
    else
      && (exists i :: 0 <= i < |batches| && cfg.MemorySum(batches[i]) == peak)
      && (forall i :: 0 <= i < |batches| ==> cfg.MemorySum(batches[i]) <= peak)
  }

  method PeakMemory(cfg: Config, batches: seq<seq<Task>>) returns (peak: int)
    ensures IsPeak(cfg, batches, peak)
  {
    if batches == [] { return 256; }
    peak := cfg.MemorySum(batches[0]);
    for i := 1 to |batches|
      invariant exists j :: 0 <= j < i && cfg.MemorySum(batches[j]) == peak
      invariant forall j :: 0 <= j < i ==> cfg.MemorySum(batches[j]) <= peak
    {
      var used := cfg.MemorySum(batches[i]);
      if used > peak { peak := used; }
    }
  }

  ghost function TotalTime(g: Graph<Task>, cfg: Config): real {
    SumOver(Nodes(g), cfg.Duration)
  }

  ghost predicate IsPlan(g: Graph<Task>, cfg: Config, plan: Plan)
    requires cfg.maxWorkers >= 1
  {
    && IsGreedySchedule(g, cfg, plan.batches)
    && plan.ordered == Flatten(plan.batches)
    && IsPeak(cfg, plan.batches, plan.peakMemory)
    && plan.speedup == Estimate(TotalTime(g, cfg), Weight(cfg.Duration, plan.criticalPath), cfg.maxWorkers)
    && (g == map[] ==> plan.criticalPath == [])
    && (g != map[] ==> IsFoundPath(g, cfg.Duration, plan.criticalPath))
  }

  method OptimizeSchedule(g: Graph<Task>, cfg: Config) returns (r: Outcome<Plan>)
    requires cfg.maxWorkers >= 1
    ensures r.CycleError? <==> CycleIsDetected(g)
    ensures r.Value? ==> IsPlan(g, cfg, r.value)
  {
    var path := CalculateCriticalPath(g, cfg.Duration);
    if path.CycleError? {
      return CycleError(path.task);
    }
    var ordered, batches := RunBatches(g, cfg);
    var sequential := SequentialTime(Nodes(g), cfg.Duration);
    var critical := PathTime(path.value, cfg.Duration);
    var peak := PeakMemory(cfg, batches);
    return Value(Plan(path.value, ordered, Estimate(sequential, critical, cfg.maxWorkers), peak, batches));
  }

  // ---------------------------------------------------------------- what the roots see

  ghost predicate SeenFromRoots(g: Graph<Task>, t: Task) {
    exists r :: r in ChosenRoots(g) && Reaches(g, r, t)
  }

  lemma UnseenIsNeededByUnseen(g: Graph<Task>, t: Task)
    requires t in Nodes(g) && !SeenFromRoots(g, t)
    ensures exists u :: u in Nodes(g) && !SeenFromRoots(g, u) && t in Deps(g, u)
  {
    assert t !in ChosenRoots(g) by { assert Reaches(g, t, t); }
    var u :| u in g && t in g[u];
    if SeenFromRoots(g, u) {
      var r :| r in ChosenRoots(g) && Reaches(g, r, u);
      ReachesStep(g, r, u, t);
    }
  }

  lemma UnseenHasCycle(g: Graph<Task>, t: Task)
    requires t in Nodes(g) && !SeenFromRoots(g, t)
    ensures !Acyclic(g)
  {
    var s := set x | x in Nodes(g) && !SeenFromRoots(g, x);
    forall x | x in s ensures NeededFrom(g, x, s) {
      UnseenIsNeededByUnseen(g, x);
    }
    assert t in s;
    SourcelessSetHasCycle(g, s);
  }

  /**
    What the cycle check sees: the graph is acyclic exactly when the check passes and every
    task can be reached from a chosen root.
   */
  lemma AcyclicIffCheckedAndSeen(g: Graph<Task>)
    ensures Acyclic(g) <==> !CycleIsDetected(g) && forall t :: t in Nodes(g) ==> SeenFromRoots(g, t)
  {
    if Acyclic(g) {
      forall t | t in Nodes(g) ensures SeenFromRoots(g, t) {
        if !SeenFromRoots(g, t) { UnseenHasCycle(g, t); }
      }
    } else if forall t :: t in Nodes(g) ==> SeenFromRoots(g, t) {
      var t :| CycleFrom(g, t);
      CyclicIsNode(g, t);
      var r :| r in ChosenRoots(g) && Reaches(g, r, t);
      if r != t { CycleAhead(g, r, t); }
    }
  }

  /**
    A cycle is detected exactly when it lies ahead of a task with an entry that no entry needs, or when
    there are entries and each is needed by another.
   */
  lemma DetectedIff(g: Graph<Task>)
    ensures CycleIsDetected(g) <==>
      (exists t :: t in g && !NeededFrom(g, t, g.Keys) && CycleFrom(g, t)) ||
      (g != map[] && forall t :: t in g ==> NeededFrom(g, t, g.Keys))
  {
    var children := set k, c | k in g && c in g[k] :: c;
    forall t ensures t in children <==> NeededFrom(g, t, g.Keys) {
      if k :| k in g && t in g[k] { assert t in Deps(g, k); }
      if NeededFrom(g, t, g.Keys) { var u :| u in g.Keys && t in Deps(g, u); }
    }
    if g.Keys - children == {} {
      if g != map[] {
        forall t | t in g ensures NeededFrom(g, t, g.Keys) { assert t !in g.Keys - children; }
        assert g.Keys != {};
        SourcelessSetHasCycle(g, g.Keys);
      }
      forall t | t in g ensures NeededFrom(g, t, g.Keys) { assert t !in g.Keys - children; }
    } else {
      var t :| t in g.Keys - children;
      assert !NeededFrom(g, t, g.Keys);
    }
  }

  /** When every task can be reached from a chosen root, the check finds a cycle exactly if there is one. */
  lemma CheckIsExactWhenAllSeen(g: Graph<Task>)
    requires forall t :: t in Nodes(g) ==> SeenFromRoots(g, t)
    ensures CycleIsDetected(g) <==> !Acyclic(g)
  {
    AcyclicIffCheckedAndSeen(g);
  }

  /** A cycle beside an independent task is not seen from the roots: a plan is returned, without the cycle's tasks. */
  lemma HiddenCycleExample()
    ensures var g: Graph<Task> := map["a" := ["b"], "b" := ["a"], "c" := []];
      !Acyclic(g) && !CycleIsDetected(g) &&
      forall cfg: Config, plan :: cfg.maxWorkers >= 1 && IsPlan(g, cfg, plan) ==>
        "a" !in plan.ordered && "b" !in plan.ordered
  {
    var g: Graph<Task> := map["a" := ["b"], "b" := ["a"], "c" := []];
    LeadsStep(g, "a", "b");
    LeadsStep(g, "b", "a");
    LeadsTrans(g, "a", "b", "a");
    LeadsTrans(g, "b", "a", "b");
    SelfLeadsCycle(g, "a");
    SelfLeadsCycle(g, "b");
    var children := set k, c | k in g && c in g[k] :: c;
    assert g["b"][0] == "a" && g["a"][0] == "b";
    assert "a" in children && "b" in children && "c" !in children;
    assert g.Keys - children == {"c"};
    if CycleFrom(g, "c") { CycleThroughDep(g, "c"); }
    forall cfg: Config, plan | cfg.maxWorkers >= 1 && IsPlan(g, cfg, plan)
      ensures "a" !in plan.ordered && "b" !in plan.ordered {
      ScheduleIsSafeAndComplete(g, cfg, plan.batches);
    }
  }

  // ---------------------------------------------------------------- the critical path is critical

  /** With weights that are not negative, a walk gains by starting further back. */
  lemma ExtendBack(g: Graph<Task>, w: Task -> real, r: Task, p: seq<Task>) returns (q: seq<Task>)
    requires Walk(g, p) && Reaches(g, r, p[0]) && r in Nodes(g)
    requires forall t :: t in Nodes(g) ==> w(t) >= 0.0
    ensures WalkFrom(g, r, q) && Weight(w, q) >= Weight(w, p)
  {
    if r == p[0] {
      q := p;
    } else {
      var back :| WalkFrom(g, r, back) && |back| >= 2 && back[|back| - 1] == p[0];
      WalkJoin(g, back, p);
      q := back + p[1..];
      assert q == back[..|back| - 1] + p;
      WeightConcat(w, back[..|back| - 1], p);
      WalkInNodes(g, back);
      WeightNotNegative(w, back[..|back| - 1]);
    }
  }

  /** With durations that are not negative, the critical path outweighs every chain of the whole acyclic graph. */
  lemma CriticalPathIsHeaviestOverall(g: Graph<Task>, w: Task -> real, path: seq<Task>, p: seq<Task>)
    requires Acyclic(g) && IsCriticalPath(g, w, path)
    requires forall t :: t in Nodes(g) ==> w(t) >= 0.0
    requires Walk(g, p) && p[0] in Nodes(g)
    ensures Weight(w, p) <= Weight(w, path)
  {
    AcyclicIffCheckedAndSeen(g);
    assert SeenFromRoots(g, p[0]);
    var r :| r in ChosenRoots(g) && Reaches(g, r, p[0]);
    var q := ExtendBack(g, w, r, p);
  }

  /** A plan lists every task without a cycle ahead once, its dependencies before it, and no other task. */
  lemma PlanListsTasks(g: Graph<Task>, cfg: Config, plan: Plan)
    requires cfg.maxWorkers >= 1 && IsPlan(g, cfg, plan)
    ensures NoDup(plan.ordered) && DepsFirst(g, plan.ordered)
    ensures forall t :: t in plan.ordered <==> t in Nodes(g) && !CycleFrom(g, t)
  {
    StepsAreOrdered(g, cfg, plan.batches);
    ScheduleIsSafeAndComplete(g, cfg, plan.batches);
  }

  /** The reported peak is the most memory that a batch needs, and 256 MB when no task is listed. */
  lemma PeakIsReached(g: Graph<Task>, cfg: Config, plan: Plan)
    requires cfg.maxWorkers >= 1 && IsPlan(g, cfg, plan)
    ensures plan.ordered == [] ==> plan.peakMemory == 256
    ensures plan.ordered != [] ==> exists b :: b in plan.batches && cfg.MemorySum(b) == plan.peakMemory
    ensures forall b :: b in plan.batches ==> cfg.MemorySum(b) <= plan.peakMemory
  {
    ScheduleIsSafeAndComplete(g, cfg, plan.batches);
    if plan.batches != [] {
      InFlatten(plan.batches, plan.batches[0][0]);
    }
  }

  /** The reported peak stays within the budget unless a single task alone needs that much. */
  lemma PeakOverBudgetIsOneTask(g: Graph<Task>, cfg: Config, plan: Plan)
    requires cfg.maxWorkers >= 1 && IsPlan(g, cfg, plan) && plan.batches != []
    ensures plan.peakMemory <= cfg.budget || exists t :: t in plan.ordered && cfg.Memory(t) == plan.peakMemory
  {
    ScheduleIsSafeAndComplete(g, cfg, plan.batches);
    var i :| 0 <= i < |plan.batches| && cfg.MemorySum(plan.batches[i]) == plan.peakMemory;
    var b := plan.batches[i];
    if plan.peakMemory > cfg.budget {
      assert |b| == 1 && b[..0] == [];
      assert cfg.MemorySum(b) == cfg.MemorySum(b[..0]) + cfg.Memory(b[0]);
      InFlatten(plan.batches, b[0]);
    }
  }

  // ---------------------------------------------------------------- the estimated speed-up

  /** Where no cycle is detected, the path found takes no longer than all tasks together. */
  lemma FoundPathWithinTotal(g: Graph<Task>, cfg: Config, path: seq<Task>)
    requires !CycleIsDetected(g) && (path == [] || IsFoundPath(g, cfg.Duration, path))
    requires forall t :: t in Nodes(g) ==> cfg.Duration(t) >= 0.0
    ensures 0.0 <= Weight(cfg.Duration, path) <= TotalTime(g, cfg)
  {
    var w := cfg.Duration;
    if path == [] {
      SumNotNegative(Nodes(g), w);
    } else {
      FoundPathIsWalk(g, w, path);
      RootIsNode(g, path[0]);
      WalkInNodes(g, path);
      assert !CycleFrom(g, path[0]) && WalkFrom(g, path[0], path);
      WeightNotNegative(w, path);
      PathWithinTotal(Nodes(g), w, path);
    }
  }

  /** A critical path without weight means that no task takes any time. */
  lemma NoWeightNoTime(g: Graph<Task>, cfg: Config, path: seq<Task>)
    requires Acyclic(g) && IsCriticalPath(g, cfg.Duration, path) && Weight(cfg.Duration, path) == 0.0
    requires forall t :: t in Nodes(g) ==> cfg.Duration(t) >= 0.0
    ensures TotalTime(g, cfg) == 0.0
  {
    var w := cfg.Duration;
    forall t | t in Nodes(g) ensures w(t) == 0.0 {
      assert Walk(g, [t]) && Weight(w, [t]) == w(t) + Weight(w, [t][1..]);
      CriticalPathIsHeaviestOverall(g, w, path, [t]);
    }
    AllZero(Nodes(g), w);
  }

  /**
    The estimate of every plan lies between 0 and the workers, and is at least 1 exactly when all
    tasks take the least time that counts; that is 0.1 when the path is sure to be critical.
   */
  lemma SpeedupIsInRange(g: Graph<Task>, cfg: Config, plan: Plan)
    requires cfg.maxWorkers >= 1 && IsPlan(g, cfg, plan) && !CycleIsDetected(g)
    requires forall t :: t in Nodes(g) ==> cfg.Duration(t) >= 0.0
    ensures 0.0 <= plan.speedup <= cfg.maxWorkers as real
    ensures plan.speedup >= 1.0 <==> TotalTime(g, cfg) >= LeastTime(Weight(cfg.Duration, plan.criticalPath))
    ensures Acyclic(g) && "" !in Nodes(g) ==> (plan.speedup >= 1.0 <==> TotalTime(g, cfg) >= 0.1)
  {
    var path := plan.criticalPath;
    FoundPathWithinTotal(g, cfg, path);
    EstimateInRange(TotalTime(g, cfg), Weight(cfg.Duration, path), cfg.maxWorkers);
    if Acyclic(g) && "" !in Nodes(g) && Weight(cfg.Duration, path) == 0.0 {
      if g == map[] {
        assert Nodes(g) == {};
      } else {
        FoundPathIsCritical(g, cfg.Duration, path);
        NoWeightNoTime(g, cfg, path);
      }
    }
  }

  /**
    No way of batching the tasks on the same workers beats the time the estimate divides by, or the least
    that counts.
   */
  lemma NoScheduleBeatsEstimate(g: Graph<Task>, cfg: Config, plan: Plan, other: seq<seq<Task>>)
    requires cfg.maxWorkers >= 1 && IsPlan(g, cfg, plan) && ValidSchedule(g, cfg.maxWorkers, other)
    ensures var path := Weight(cfg.Duration, plan.criticalPath);
      ParallelTime(TotalTime(g, cfg), path, cfg.maxWorkers) <= Max(LeastTime(path), Makespan(cfg.Duration, other))
  {
    var w, path := cfg.Duration, plan.criticalPath;
    AllWorkTakesTime(g, w, cfg.maxWorkers, other);
    if path != [] {
      FoundPathIsWalk(g, w, path);
      RootIsNode(g, path[0]);
      NoScheduleIsFaster(g, w, cfg.maxWorkers, other, path);
    }
    ParallelTimeIsBound(TotalTime(g, cfg), Weight(w, path), cfg.maxWorkers, Makespan(w, other));
  }

  /** The estimate of every plan, in terms of the workers, the path found and all tasks alone. */
  lemma SpeedupIsLargest(g: Graph<Task>, cfg: Config, plan: Plan, total: real, path: real, x: real)
    requires cfg.maxWorkers >= 1 && IsPlan(g, cfg, plan) && !CycleIsDetected(g)
    requires forall t :: t in Nodes(g) ==> cfg.Duration(t) >= 0.0
    requires total == SumOver(Nodes(g), cfg.Duration) && path == Weight(cfg.Duration, plan.criticalPath)
    ensures x <= plan.speedup <==>
      x <= cfg.maxWorkers as real && if path == 0.0 then x <= total else x * path <= total && x * 0.1 <= total
  {
    FoundPathWithinTotal(g, cfg, plan.criticalPath);
    EstimateIsLargest(total, path, cfg.maxWorkers, plan.speedup, x);
  }

  /** Whatever the path found, no speed-up up to the estimate promises to take less time than it. */
  lemma PathLimitsSpeedup(g: Graph<Task>, cfg: Config, plan: Plan, total: real, path: real, x: real)
    requires cfg.maxWorkers >= 1 && IsPlan(g, cfg, plan) && !CycleIsDetected(g)
    requires forall t :: t in Nodes(g) ==> cfg.Duration(t) >= 0.0
    requires total == SumOver(Nodes(g), cfg.Duration) && path == Weight(cfg.Duration, plan.criticalPath)
    requires x <= plan.speedup
    ensures 0.0 <= path <= total && x * path <= total
  {
    FoundPathWithinTotal(g, cfg, plan.criticalPath);
    SpeedupIsLargest(g, cfg, plan, total, path, x);
  }

  lemma ChainIsLighter(g: Graph<Task>, cfg: Config, plan: Plan, p: seq<Task>)
    requires cfg.maxWorkers >= 1 && IsPlan(g, cfg, plan) && Acyclic(g) && "" !in Nodes(g)
    requires forall t :: t in Nodes(g) ==> cfg.Duration(t) >= 0.0
    requires Walk(g, p) && p[0] in Nodes(g)
    ensures !CycleIsDetected(g) && Weight(cfg.Duration, p) <= Weight(cfg.Duration, plan.criticalPath)
  {
    AcyclicIffCheckedAndSeen(g);
    assert g != map[];
    FoundPathIsCritical(g, cfg.Duration, plan.criticalPath);
    CriticalPathIsHeaviestOverall(g, cfg.Duration, plan.criticalPath, p);
  }

  /** No chain of tasks gets faster than one after the other, and no speed-up up to the estimate promises that. */
  lemma ChainsLimitSpeedup(g: Graph<Task>, cfg: Config, plan: Plan, p: seq<Task>, total: real, chain: real, path: real,
                           x: real)
    requires cfg.maxWorkers >= 1 && IsPlan(g, cfg, plan) && Acyclic(g) && "" !in Nodes(g)
    requires forall t :: t in Nodes(g) ==> cfg.Duration(t) >= 0.0
    requires Walk(g, p) && p[0] in Nodes(g)
    requires total == SumOver(Nodes(g), cfg.Duration) && chain == Weight(cfg.Duration, p)
    requires path == Weight(cfg.Duration, plan.criticalPath) && 0.0 <= x <= plan.speedup
    ensures chain <= path && x * chain <= total
  {
    ChainIsLighter(g, cfg, plan, p);
    PathLimitsSpeedup(g, cfg, plan, total, path, x);
    LighterWithin(x, chain, path, total);
  }
}
