/** How deep a greedy schedule has got: full batches use up tasks, unfilled ones shorten every chain. */
module ScheduleDepths {
  import opened Graphs
  import opened GreedyBatches

  /** A set of tasks the workers could run at once. */
  ghost predicate FitsWorkers(g: Graph<Task>, cfg: Config, b: seq<Task>) {
    NoDup(b) && |b| <= cfg.maxWorkers && Members(b) <= Nodes(g)
  }

  /** No batch the workers could run at once exceeds the memory budget. */
  ghost predicate MemoryNeverBinds(g: Graph<Task>, cfg: Config) {
    forall b {:trigger FitsWorkers(g, cfg, b)} :: FitsWorkers(g, cfg, b) ==> cfg.MemorySum(b) <= cfg.budget
  }

  ghost predicate ChainsFrom(g: Graph<Task>, t: Task, k: nat) {
    forall p :: WalkFrom(g, t, p) ==> |p| <= k
  }

  /** No dependency chain among the tasks is longer than k. */
  ghost predicate ChainsAtMost(g: Graph<Task>, k: nat) {
    forall t :: t in Nodes(g) ==> ChainsFrom(g, t, k)
  }

  ghost predicate ShallowDone(g: Graph<Task>, done: set<Task>, k: nat) {
    forall t {:trigger ChainsFrom(g, t, k)} :: t in Nodes(g) && ChainsFrom(g, t, k) ==> t in done
  }

  lemma DepsAreShallower(g: Graph<Task>, t: Task, d: Task, k: nat)
    requires ChainsFrom(g, t, k + 1) && d in Deps(g, t)
    ensures ChainsFrom(g, d, k)
  {
    forall p | WalkFrom(g, d, p) ensures |p| <= k {
      WalkPrepend(g, t, p);
      assert |[t] + p| <= k + 1;
    }
  }

  lemma RoomForOneMore(g: Graph<Task>, cfg: Config, batch: seq<Task>, u: Task)
    requires NoDup(batch) && Members(batch) <= Nodes(g) && u in Nodes(g) && u !in batch
    requires |batch| < cfg.maxWorkers && MemoryNeverBinds(g, cfg)
    ensures !NoRoom(cfg, batch, u)
  {
    forall k | 0 < k <= |batch| ensures !NoRoomAfter(cfg, batch[..k], u) {
      var tried := batch[..k] + [u];
      assert tried[..|tried| - 1] == batch[..k];
      forall x | x in tried ensures x in Nodes(g) {
        assert x == u || x in Members(batch);
      }
      assert FitsWorkers(g, cfg, tried);
    }
  }

  /** A batch with a free worker took every ready task. */
  lemma UnfilledTakesAll(g: Graph<Task>, cfg: Config, ready: set<Task>, batch: seq<Task>)
    requires IsGreedyBatch(cfg, ready, batch) && ready <= Nodes(g)
    requires |batch| < cfg.maxWorkers && MemoryNeverBinds(g, cfg)
    ensures Members(batch) == ready
  {
    forall u | u in ready ensures u in batch {
      if u !in batch {
        assert Skipped(cfg, batch, u);
        RoomForOneMore(g, cfg, batch, u);
      }
    }
  }

  /** What counting batches needs to know about a batch: full, or all that was ready. */
  ghost predicate FullOrExhaustive(g: Graph<Task>, workers: int, done: set<Task>, batch: seq<Task>) {
    && batch != [] && |batch| <= workers && Members(batch) <= Ready(g, done)
    && (|batch| < workers ==> Members(batch) == Ready(g, done))
  }

  lemma GreedyIsFullOrExhaustive(g: Graph<Task>, cfg: Config, done: set<Task>, batch: seq<Task>)
    requires IsGreedyBatch(cfg, Ready(g, done), batch) && MemoryNeverBinds(g, cfg)
    ensures FullOrExhaustive(g, cfg.maxWorkers, done, batch)
  {
    if |batch| < cfg.maxWorkers { UnfilledTakesAll(g, cfg, Ready(g, done), batch); }
  }

  lemma ReadyGoesDeeper(g: Graph<Task>, done: set<Task>, k: nat)
    requires ShallowDone(g, done, k)
    ensures ShallowDone(g, done + Ready(g, done), k + 1)
  {
    forall t {:trigger ChainsFrom(g, t, k + 1)} | t in Nodes(g) && ChainsFrom(g, t, k + 1)
      ensures t in done + Ready(g, done)
    {
      forall d | d in Deps(g, t) ensures d in done {
        DepsAreShallower(g, t, d, k);
        assert d in Nodes(g);
      }
    }
  }

  /** How many batches are full, and how many are not. */
  function Full(workers: int, batches: seq<seq<Task>>): nat {
    if batches == [] then 0
    else Full(workers, batches[..|batches| - 1]) + if |batches[|batches| - 1]| == workers then 1 else 0
  }

  function Unfilled(workers: int, batches: seq<seq<Task>>): nat {
    if batches == [] then 0
    else Unfilled(workers, batches[..|batches| - 1]) + if |batches[|batches| - 1]| == workers then 0 else 1
  }

  lemma {:induction false} FullAndUnfilled(workers: int, batches: seq<seq<Task>>)
    ensures Full(workers, batches) + Unfilled(workers, batches) == |batches|
    decreases |batches|
  {
    if batches != [] { FullAndUnfilled(workers, batches[..|batches| - 1]); }
  }

  lemma NothingIsChainless(g: Graph<Task>, t: Task)
    ensures !ChainsFrom(g, t, 0)
  {
    assert WalkFrom(g, t, [t]);
  }

  /** A task outside the done set is deeper than everything known to be done. */
  lemma LeftIsDeep(g: Graph<Task>, done: set<Task>, t: Task, k: nat, longest: nat)
    requires ShallowDone(g, done, k) && ChainsAtMost(g, longest)
    requires t in Nodes(g) && t !in done
    ensures k < longest
  {
    assert !ChainsFrom(g, t, k);
    assert ChainsFrom(g, t, longest);
    var p :| WalkFrom(g, t, p) && |p| > k;
  }

  lemma ShallowStaysDone(g: Graph<Task>, done: set<Task>, more: set<Task>, k: nat)
    requires ShallowDone(g, done, k)
    ensures ShallowDone(g, done + more, k)
  {
  }

  lemma UnfilledDepth(g: Graph<Task>, done: set<Task>, batch: seq<Task>, k: nat, longest: nat)
    requires ShallowDone(g, done, k) && ChainsAtMost(g, longest)
    requires batch != [] && Members(batch) == Ready(g, done)
    ensures ShallowDone(g, done + Members(batch), k + 1) && k < longest
  {
    ReadyGoesDeeper(g, done, k);
    var t := batch[0];
    assert t in Members(batch);
    assert t in Nodes(g) && t !in done;
    LeftIsDeep(g, done, t, k, longest);
  }

  // ---------------------------------------------------------------- one batch more

  /** What is known about the batches so far: as deep as there are unfilled ones, which are few. */
  ghost predicate Deep(g: Graph<Task>, workers: int, batches: seq<seq<Task>>, longest: nat) {
    Unfilled(workers, batches) <= longest && ShallowDone(g, Done(batches), Unfilled(workers, batches))
  }

  lemma NothingIsDeep(g: Graph<Task>, workers: int, longest: nat)
    ensures Deep(g, workers, [], longest)
  {
    forall t ensures !ChainsFrom(g, t, 0) { NothingIsChainless(g, t); }
  }

  lemma CountNext(workers: int, rest: seq<seq<Task>>, last: seq<Task>)
    ensures Full(workers, rest + [last]) == Full(workers, rest) + if |last| == workers then 1 else 0
    ensures Unfilled(workers, rest + [last]) == Unfilled(workers, rest) + if |last| == workers then 0 else 1
    ensures Flatten(rest + [last]) == Flatten(rest) + last
  {
    assert (rest + [last])[..|rest|] == rest;
  }

  /** A full batch runs as many tasks as there are workers, an unfilled one at least one. */
  ghost predicate UsesTasks(workers: int, batches: seq<seq<Task>>) {
    Full(workers, batches) * workers + Unfilled(workers, batches) <= |Flatten(batches)|
  }

  lemma NothingUsesTasks(workers: int)
    ensures UsesTasks(workers, [])
  {
  }

  lemma MulNext(x: int, y: int)
    ensures (x + 1) * y == x * y + y
  {
  }

  lemma UsesTasksNext(workers: int, rest: seq<seq<Task>>, last: seq<Task>)
    requires UsesTasks(workers, rest) && last != []
    ensures UsesTasks(workers, rest + [last])
  {
    CountNext(workers, rest, last);
    MulNext(Full(workers, rest), workers);
  }

  lemma DeepAfterFull(g: Graph<Task>, workers: int, rest: seq<seq<Task>>, last: seq<Task>, longest: nat)
    requires Deep(g, workers, rest, longest) && |last| == workers
    ensures Deep(g, workers, rest + [last], longest)
  {
    CountNext(workers, rest, last);
    DoneAppend(rest, last);
    ShallowStaysDone(g, Done(rest), Members(last), Unfilled(workers, rest));
  }

  lemma DeepAfterUnfilled(g: Graph<Task>, workers: int, rest: seq<seq<Task>>, last: seq<Task>, longest: nat)
    requires Deep(g, workers, rest, longest) && ChainsAtMost(g, longest)
    requires FullOrExhaustive(g, workers, Done(rest), last) && |last| != workers
    ensures Deep(g, workers, rest + [last], longest)
  {
    CountNext(workers, rest, last);
    DoneAppend(rest, last);
    UnfilledDepth(g, Done(rest), last, Unfilled(workers, rest), longest);
  }
}
