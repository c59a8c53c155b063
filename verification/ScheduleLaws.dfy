/** What a greedy schedule means for recorded durations and memory, with both defaults written out. */
module ScheduleLaws {
  import opened Graphs
  import opened GreedyBatches
  import opened LongestChains

  /** A task takes its recorded duration, and 1 when none is recorded. */
  lemma TimeIs(cfg: Config, path: seq<Task>, t: Task)
    ensures Weight(cfg.Duration, [t] + path) ==
      (if t in cfg.durations then cfg.durations[t] else 1.0) + Weight(cfg.Duration, path)
  {
    assert ([t] + path)[1..] == path;
  }

  /** A task needs its recorded memory, and 256 MB when none is recorded. */
  lemma MemoryIs(cfg: Config, batch: seq<Task>, t: Task)
    ensures cfg.MemorySum(batch + [t]) ==
      cfg.MemorySum(batch) + if t in cfg.memory then cfg.memory[t] else 256
  {
    assert (batch + [t])[..|batch|] == batch;
  }

  /** No ready task takes longer than the first of the batch. */
  lemma LongestTaskRuns(cfg: Config, ready: set<Task>, batch: seq<Task>, u: Task)
    requires IsGreedyBatch(cfg, ready, batch) && u in ready
    ensures (if u in cfg.durations then cfg.durations[u] else 1.0) <=
            (if batch[0] in cfg.durations then cfg.durations[batch[0]] else 1.0)
  {
    if u in batch {
      var j :| 0 <= j < |batch| && batch[j] == u;
      assert j > 0 ==> cfg.Duration(batch[0]) >= cfg.Duration(batch[j]);
    } else {
      assert Skipped(cfg, batch, u);
      if NoRoom(cfg, batch, u) {
        var k :| 0 < k <= |batch| && NoRoomAfter(cfg, batch[..k], u);
        assert batch[..k][0] == batch[0];
      }
      assert cfg.Duration(batch[0]) >= cfg.Duration(u);
    }
  }

  lemma AtLeastAsLong(cfg: Config, batch: seq<Task>, u: Task, time: real)
    requires forall t :: t in batch ==> cfg.Duration(t) >= cfg.Duration(u)
    requires time == if u in cfg.durations then cfg.durations[u] else 1.0
    ensures forall t :: t in batch ==> time <= if t in cfg.durations then cfg.durations[t] else 1.0
  {
    forall t | t in batch ensures time <= if t in cfg.durations then cfg.durations[t] else 1.0 {
      assert cfg.Duration(t) >= cfg.Duration(u);
    }
  }

  /**
    A ready task waits only for tasks at least as long: those of a batch that keeps every worker busy, or the
    first of a batch, beside which its memory does not fit.
   */
  lemma WaitsForAReason(cfg: Config, ready: set<Task>, batch: seq<Task>, u: Task, time: real, mem: int)
    requires IsGreedyBatch(cfg, ready, batch) && u in ready && u !in batch
    requires time == if u in cfg.durations then cfg.durations[u] else 1.0
    requires mem == if u in cfg.memory then cfg.memory[u] else 256
    ensures exists k ::
      && 0 < k <= |batch|
      && (cfg.MemorySum(batch[..k]) + mem > cfg.budget || k == |batch| == cfg.maxWorkers)
      && forall t :: t in batch[..k] ==> time <= if t in cfg.durations then cfg.durations[t] else 1.0
  {
    assert Skipped(cfg, batch, u);
    if NoRoom(cfg, batch, u) {
      var k :| 0 < k <= |batch| && NoRoomAfter(cfg, batch[..k], u);
      AtLeastAsLong(cfg, batch[..k], u, time);
    } else {
      assert batch[..|batch|] == batch;
      AtLeastAsLong(cfg, batch, u, time);
    }
  }

  lemma OneMore(s: seq<Task>, u: Task, ready: set<Task>)
    requires NoDup(s) && u !in s && u in ready && forall t :: t in s ==> t in ready
    ensures NoDup(s + [u]) && Members(s + [u]) <= ready
  {
    NoDupAppend(s, [u]);
  }

  lemma WaitingIsNeeded(cfg: Config, ready: set<Task>, batch: seq<Task>, u: Task)
    requires IsGreedyBatch(cfg, ready, batch) && u in ready && u !in batch
    requires forall s :: NoDup(s) && Members(s) <= ready ==> cfg.MemorySum(s) <= cfg.budget
    ensures |ready| > cfg.maxWorkers
  {
    assert Skipped(cfg, batch, u);
    if NoRoom(cfg, batch, u) {
      var k :| 0 < k <= |batch| && NoRoomAfter(cfg, batch[..k], u);
      MemoryIs(cfg, batch[..k], u);
      OneMore(batch[..k], u, ready);
    } else {
      OneMore(batch, u, ready);
      Pigeonhole(batch + [u], ready);
    }
  }

  /** With a worker for each ready task and memory for any of them together, no ready task waits. */
  lemma NoneWaits(cfg: Config, ready: set<Task>, batch: seq<Task>)
    requires IsGreedyBatch(cfg, ready, batch) && |ready| <= cfg.maxWorkers
    requires forall s :: NoDup(s) && Members(s) <= ready ==> cfg.MemorySum(s) <= cfg.budget
    ensures Members(batch) == ready
  {
    forall u | u in ready ensures u in batch {
      if u !in batch { WaitingIsNeeded(cfg, ready, batch, u); }
    }
  }
}
