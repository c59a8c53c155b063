/** What a greedy schedule is, and what each turn of the batch loop keeps true. */
module GreedyBatches {
  import opened Basics
  import opened Graphs

  type Task = string

  datatype Config = Config(durations: map<Task, real>, memory: map<Task, int>, maxWorkers: int, budget: int) {
    function Duration(t: Task): real {
      if t in durations then durations[t] else 1.0
    }

    function Memory(t: Task): int {
      if t in memory then memory[t] else 256
    }

    function MemorySum(batch: seq<Task>): int {
      if batch == [] then 0 else MemorySum(batch[..|batch| - 1]) + Memory(batch[|batch| - 1])
    }

    predicate HeavierFirst(s: seq<Task>) {
      forall i, j :: 0 <= i < j < |s| ==> Duration(s[i]) >= Duration(s[j])
    }
  }

  ghost function Done(batches: seq<seq<Task>>): set<Task> {
    Members(Flatten(batches))
  }

  /** The tasks not yet run whose dependencies all have been. */
  ghost function Ready(g: Graph<Task>, done: set<Task>): set<Task> {
    set t | t in Nodes(g) && t !in done && (forall d :: d in Deps(g, t) ==> d in done)
  }

  ghost predicate NoRoomAfter(cfg: Config, taken: seq<Task>, u: Task) {
    cfg.MemorySum(taken) + cfg.Memory(u) > cfg.budget && forall t :: t in taken ==> cfg.Duration(t) >= cfg.Duration(u)
  }

  /**
    u did not fit: the part of the batch taken before its turn, of tasks at least as long, leaves too little
    memory.
   */
  ghost predicate NoRoom(cfg: Config, batch: seq<Task>, u: Task) {
    exists k :: 0 < k <= |batch| && NoRoomAfter(cfg, batch[..k], u)
  }

  /** Why a ready task is left behind: memory, or a full batch of tasks at least as long. */
  ghost predicate Skipped(cfg: Config, batch: seq<Task>, u: Task) {
    NoRoom(cfg, batch, u) ||
    (|batch| == cfg.maxWorkers && forall t :: t in batch ==> cfg.Duration(t) >= cfg.Duration(u))
  }

  ghost predicate IsGreedyBatch(cfg: Config, ready: set<Task>, batch: seq<Task>) {
    && batch != [] && NoDup(batch) && Members(batch) <= ready
    && |batch| <= cfg.maxWorkers
    && (cfg.MemorySum(batch) <= cfg.budget || |batch| == 1)
    && cfg.HeavierFirst(batch)
    && (forall u {:trigger Skipped(cfg, batch, u)} :: u in ready && u !in batch ==> Skipped(cfg, batch, u))
  }

  ghost predicate GreedySteps(g: Graph<Task>, cfg: Config, batches: seq<seq<Task>>) {
    forall i :: 0 <= i < |batches| ==> IsGreedyBatch(cfg, Ready(g, Done(batches[..i])), batches[i])
  }

  ghost predicate IsGreedySchedule(g: Graph<Task>, cfg: Config, batches: seq<seq<Task>>) {
    GreedySteps(g, cfg, batches) && Ready(g, Done(batches)) == {}
  }

  // ---------------------------------------------------------------- counting pending dependencies

  function Pending(deps: seq<Task>, done: set<Task>): nat {
    if deps == [] then 0 else (if deps[0] in done then 0 else 1) + Pending(deps[1..], done)
  }

  lemma {:induction false} PendingDone(deps: seq<Task>, done: set<Task>, x: Task)
    requires x !in done
    ensures Pending(deps, done + {x}) == Pending(deps, done) - multiset(deps)[x]
    decreases |deps|
  {
    if deps != [] {
      assert deps == [deps[0]] + deps[1..];
      PendingDone(deps[1..], done, x);
    }
  }

  lemma {:induction false} PendingZero(deps: seq<Task>, done: set<Task>)
    ensures Pending(deps, done) == 0 <==> forall d :: d in deps ==> d in done
    decreases |deps|
  {
    if deps != [] {
      assert deps == [deps[0]] + deps[1..];
      PendingZero(deps[1..], done);
    }
  }

  lemma {:induction false} PendingNone(deps: seq<Task>)
    ensures Pending(deps, {}) == |deps|
    decreases |deps|
  {
    if deps != [] { PendingNone(deps[1..]); }
  }

  ghost predicate CountsPending(g: Graph<Task>, inDegree: map<Task, int>, done: set<Task>) {
    inDegree.Keys == Nodes(g) && forall t :: t in inDegree ==> inDegree[t] == Pending(Deps(g, t), done)
  }

  lemma OccursAppendEach(s: seq<Task>, y: Task)
    ensures forall x {:trigger Occurs(s + [y], x)} :: Occurs(s + [y], x) == Occurs(s, x) + if x == y then 1 else 0
  {
  }

  lemma OccursPrefix(s: seq<Task>, n: nat)
    requires n < |s|
    ensures forall x {:trigger Occurs(s[..n + 1], x)} ::
      Occurs(s[..n + 1], x) == Occurs(s[..n], x) + (if x == s[n] then 1 else 0) <= Occurs(s, x)
  {
    assert s[..n + 1] == s[..n] + [s[n]];
    assert s == s[..n + 1] + s[n + 1..];
    assert multiset(s) == multiset(s[..n + 1]) + multiset(s[n + 1..]);
    forall x ensures Occurs(s[..n + 1], x) == Occurs(s[..n], x) + (if x == s[n] then 1 else 0) <= Occurs(s, x) {
      OccursAppendEach(s[..n], s[n]);
    }
  }

  ghost predicate TransposedExcept(g: Graph<Task>, dependents: map<Task, seq<Task>>, rest: set<Task>) {
    forall c, p {:trigger Occurs(dependents[c], p)} :: c in dependents ==>
      Occurs(dependents[c], p) == (if p in rest then 0 else Occurs(Deps(g, p), c))
  }

  /** Each edge is listed on its dependency's side as often as on its dependent's side. */
  ghost predicate Transposed(g: Graph<Task>, dependents: map<Task, seq<Task>>) {
    dependents.Keys == Nodes(g) && TransposedExcept(g, dependents, {})
  }

  lemma ParentListed(g: Graph<Task>, before: map<Task, seq<Task>>, after: map<Task, seq<Task>>, rest: set<Task>,
                     parent: Task)
    requires TransposedExcept(g, before, rest) && parent in rest && after.Keys == before.Keys
    requires forall c, p {:trigger Occurs(after[c], p)} :: c in before ==>
      Occurs(after[c], p) == Occurs(before[c], p) + (if p == parent then Occurs(Deps(g, parent), c) else 0)
    ensures TransposedExcept(g, after, rest - {parent})
  {
    forall c, p | c in after ensures Occurs(after[c], p) == if p in rest - {parent} then 0 else Occurs(Deps(g, p), c) {
      assert Occurs(before[c], p) == if p in rest then 0 else Occurs(Deps(g, p), c);
    }
  }

  // ---------------------------------------------------------------- the loop

  /** What the pass over the ready list has split so far. */
  ghost predicate Split(seen: seq<Task>, batch: seq<Task>, later: seq<Task>) {
    && NoDup(batch) && NoDup(later) && Members(batch) !! Members(later)
    && Members(seen) == Members(batch) + Members(later)
  }

  ghost predicate GreedySoFar(cfg: Config, batch: seq<Task>, later: seq<Task>) {
    && |batch| <= cfg.maxWorkers
    && (cfg.MemorySum(batch) <= cfg.budget || |batch| <= 1)
    && cfg.HeavierFirst(batch)
    && (forall u :: u in later ==> Skipped(cfg, batch, u))
  }

  lemma MembersAppend(s: seq<Task>, t: Task)
    ensures Members(s + [t]) == Members(s) + {t}
  {
  }

  lemma SplitTake(seen: seq<Task>, batch: seq<Task>, later: seq<Task>, t: Task)
    requires Split(seen, batch, later) && t !in seen
    ensures Split(seen + [t], batch + [t], later)
    ensures Split(seen + [t], batch, later + [t])
  {
    assert t !in Members(seen);
    MembersAppend(seen, t);
    MembersAppend(batch, t);
    MembersAppend(later, t);
    NoDupAppend(batch, [t]);
    NoDupAppend(later, [t]);
  }

  lemma NoRoomPersists(cfg: Config, batch: seq<Task>, t: Task, u: Task)
    requires NoRoom(cfg, batch, u)
    ensures NoRoom(cfg, batch + [t], u)
  {
    var k :| 0 < k <= |batch| && NoRoomAfter(cfg, batch[..k], u);
    assert (batch + [t])[..k] == batch[..k];
  }

  lemma TakeTask(cfg: Config, batch: seq<Task>, later: seq<Task>, t: Task)
    requires GreedySoFar(cfg, batch, later) && |batch| < cfg.maxWorkers
    requires cfg.MemorySum(batch) + cfg.Memory(t) <= cfg.budget || batch == []
    requires forall x :: x in batch ==> cfg.Duration(x) >= cfg.Duration(t)
    ensures cfg.MemorySum(batch + [t]) == cfg.MemorySum(batch) + cfg.Memory(t)
    ensures GreedySoFar(cfg, batch + [t], later)
  {
    assert (batch + [t])[..|batch|] == batch;
    forall u | u in later ensures Skipped(cfg, batch + [t], u) {
      assert Skipped(cfg, batch, u);
      NoRoomPersists(cfg, batch, t, u);
    }
  }

  lemma LeaveTask(cfg: Config, batch: seq<Task>, later: seq<Task>, t: Task)
    requires GreedySoFar(cfg, batch, later) && batch != []
    requires |batch| == cfg.maxWorkers || cfg.MemorySum(batch) + cfg.Memory(t) > cfg.budget
    requires forall x :: x in batch ==> cfg.Duration(x) >= cfg.Duration(t)
    ensures GreedySoFar(cfg, batch, later + [t])
  {
    assert batch[..|batch|] == batch;
    if |batch| != cfg.maxWorkers { assert NoRoomAfter(cfg, batch[..|batch|], t); }
    assert Skipped(cfg, batch, t);
  }

  ghost predicate ReachedZero(released: seq<Task>, before: map<Task, int>, after: map<Task, int>) {
    forall t :: t in released <==> t in before && t in after && before[t] > 0 && after[t] == 0
  }

  lemma ReachedZeroJoin(r1: seq<Task>, r2: seq<Task>, a: map<Task, int>, b: map<Task, int>, c: map<Task, int>)
    requires a.Keys == b.Keys == c.Keys
    requires forall t :: t in a ==> 0 <= c[t] <= b[t] <= a[t]
    requires NoDup(r1) && NoDup(r2) && ReachedZero(r1, a, b) && ReachedZero(r2, b, c)
    ensures NoDup(r1 + r2) && ReachedZero(r1 + r2, a, c)
  {
    NoDupAppend(r1, r2);
  }

  /** The dependents listed for a task that has not run are exactly its share of the pending counts. */
  lemma CountDownFits(g: Graph<Task>, dependents: map<Task, seq<Task>>, inDegree: map<Task, int>, done: set<Task>,
                      x: Task)
    requires Transposed(g, dependents) && CountsPending(g, inDegree, done) && x in Nodes(g) && x !in done
    ensures forall t :: t in dependents[x] ==> t in inDegree
    ensures forall t :: t in inDegree ==> inDegree[t] >= Occurs(dependents[x], t)
  {
    forall t | t in dependents[x] ensures t in inDegree {
      assert Occurs(dependents[x], t) > 0;
    }
    forall t | t in inDegree ensures inDegree[t] >= Occurs(dependents[x], t) {
      PendingDone(Deps(g, t), done, x);
      assert Occurs(dependents[x], t) == Occurs(Deps(g, t), x);
    }
  }

  lemma CountedDown(g: Graph<Task>, dependents: map<Task, seq<Task>>, before: map<Task, int>, after: map<Task, int>,
                    done: set<Task>, x: Task)
    requires Transposed(g, dependents) && CountsPending(g, before, done) && x in Nodes(g) && x !in done
    requires after.Keys == before.Keys && forall t :: t in before ==> after[t] == before[t] - Occurs(dependents[x], t)
    ensures CountsPending(g, after, done + {x})
    ensures forall t :: t in before ==> 0 <= after[t] <= before[t]
  {
    forall t | t in after ensures after[t] == Pending(Deps(g, t), done + {x}) {
      PendingDone(Deps(g, t), done, x);
      assert Occurs(dependents[x], t) == Occurs(Deps(g, t), x);
    }
  }

  ghost predicate DoneIsZero(inDegree: map<Task, int>, done: set<Task>) {
    forall t :: t in done ==> t in inDegree && inDegree[t] == 0
  }

  lemma SmallerSet<T>(a: set<T>, b: set<T>)
    requires a < b
    ensures |a| < |b|
  {
    assert b == a + (b - a);
  }

  lemma DoneAppend(batches: seq<seq<Task>>, batch: seq<Task>)
    ensures Flatten(batches + [batch]) == Flatten(batches) + batch
    ensures Done(batches + [batch]) == Done(batches) + Members(batch)
  {
    assert (batches + [batch])[..|batches|] == batches;
  }

  lemma GreedyAppend(g: Graph<Task>, cfg: Config, batches: seq<seq<Task>>, batch: seq<Task>)
    requires GreedySteps(g, cfg, batches) && IsGreedyBatch(cfg, Ready(g, Done(batches)), batch)
    ensures GreedySteps(g, cfg, batches + [batch])
  {
    var next := batches + [batch];
    forall i | 0 <= i < |next| ensures IsGreedyBatch(cfg, Ready(g, Done(next[..i])), next[i]) {
      assert next[..i] == batches[..i];
      if i == |batches| { assert batches[..i] == batches; }
    }
  }

  lemma ReadyIsZero(g: Graph<Task>, inDegree: map<Task, int>, done: set<Task>)
    requires CountsPending(g, inDegree, done)
    ensures forall t :: t in Ready(g, done) <==> t in inDegree && t !in done && inDegree[t] == 0
  {
    forall t | t in inDegree ensures inDegree[t] == 0 <==> forall d :: d in Deps(g, t) ==> d in done {
      PendingZero(Deps(g, t), done);
    }
  }

  lemma NextReady(g: Graph<Task>, before: map<Task, int>, after: map<Task, int>, done: set<Task>,
                  batch: seq<Task>, later: seq<Task>, released: seq<Task>)
    requires CountsPending(g, before, done) && CountsPending(g, after, done + Members(batch)) &&
      DoneIsZero(before, done)
    requires Members(batch) <= Ready(g, done) && Members(later) == Ready(g, done) - Members(batch)
    requires NoDup(later) && NoDup(released) && ReachedZero(released, before, after)
    ensures DoneIsZero(after, done + Members(batch))
    ensures NoDup(later + released)
    ensures Members(later + released) == Ready(g, done + Members(batch))
  {
    ReadyIsZero(g, before, done);
    ReadyIsZero(g, after, done + Members(batch));
    forall x | x in before && before[x] == 0 ensures after[x] == 0 {
      PendingZero(Deps(g, x), done);
      PendingZero(Deps(g, x), done + Members(batch));
    }
    forall x | x in later ensures x !in released {
      assert x in Members(later);
    }
    NoDupAppend(later, released);
    forall x ensures x in Members(later + released) <==> x in Ready(g, done + Members(batch)) {
      assert x in later <==> x in Members(later);
    }
  }

  lemma Progress(g: Graph<Task>, done: set<Task>, batch: seq<Task>)
    requires batch != [] && Members(batch) <= Ready(g, done)
    ensures |Nodes(g) - (done + Members(batch))| < |Nodes(g) - done|
  {
    assert batch[0] in Members(batch);
    SmallerSet(Nodes(g) - (done + Members(batch)), Nodes(g) - done);
  }

  lemma OneMoreDone(done: set<Task>, batch: seq<Task>, i: nat)
    requires NoDup(batch) && Members(batch) !! done && i < |batch|
    ensures batch[i] in Members(batch) && batch[i] !in done + Members(batch[..i])
    ensures done + Members(batch[..i + 1]) == done + Members(batch[..i]) + {batch[i]}
  {
    assert batch[..i + 1] == batch[..i] + [batch[i]];
  }
}
