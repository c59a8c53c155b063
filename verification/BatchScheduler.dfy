/** The batch loop of the schedule optimizer, proved to produce what `IsGreedySchedule` allows. */
module BatchScheduler {
  import opened Basics
  import opened Graphs
  import Sorting
  import opened GreedyBatches

  /** The inner loop of the counting pass, for one task and its dependency list. */
  method ListParent(dependents0: map<Task, seq<Task>>, parent: Task, deps: seq<Task>)
    returns (dependents: map<Task, seq<Task>>)
    requires forall d :: d in deps ==> d in dependents0
    ensures dependents.Keys == dependents0.Keys
    ensures forall c, p {:trigger Occurs(dependents[c], p)} :: c in dependents0 ==>
      Occurs(dependents[c], p) == Occurs(dependents0[c], p) + (if p == parent then Occurs(deps, c) else 0)
  {
    dependents := dependents0;
    assert deps[..0] == [];
    assert forall c :: Occurs(deps[..0], c) == 0;
    for i := 0 to |deps|
      invariant dependents.Keys == dependents0.Keys
      invariant forall c, p {:trigger Occurs(dependents[c], p)} :: c in dependents0 ==>
        Occurs(dependents[c], p) == Occurs(dependents0[c], p) + (if p == parent then Occurs(deps[..i], c) else 0)
    {
      var child := deps[i];
      OccursPrefix(deps, i);
      OccursAppendEach(dependents[child], parent);
      dependents := dependents[child := dependents[child] + [parent]];
    }
    assert deps[..|deps|] == deps;
  }

  method CountDependencies(g: Graph<Task>) returns (inDegree: map<Task, int>, dependents: map<Task, seq<Task>>)
    ensures CountsPending(g, inDegree, {})
    ensures Transposed(g, dependents)
  {
    var nodes := Nodes(g);
    inDegree := map t | t in nodes :: 0;
    dependents := map t | t in nodes :: [];
    var rest := g.Keys;
    while rest != {}
      invariant rest <= g.Keys
      invariant inDegree.Keys == nodes && dependents.Keys == nodes
      invariant forall t :: t in nodes ==> inDegree[t] == if t in rest then 0 else |Deps(g, t)|
      invariant TransposedExcept(g, dependents, rest)
    {
      var parent :| parent in rest;
      assert forall d :: d in g[parent] ==> d in nodes;
      ghost var before := dependents;
      dependents := ListParent(dependents, parent, g[parent]);
      ParentListed(g, before, dependents, rest, parent);
      inDegree := inDegree[parent := inDegree[parent] + |g[parent]|];
      rest := rest - {parent};
    }
    forall t | t in inDegree ensures inDegree[t] == Pending(Deps(g, t), {}) {
      PendingNone(Deps(g, t));
    }
  }

  method SortByDuration(cfg: Config, s: seq<Task>) returns (r: seq<Task>)
    requires NoDup(s)
    ensures multiset(r) == multiset(s) && NoDup(r) && Members(r) == Members(s)
    ensures cfg.HeavierFirst(r)
  {
    var heavier := (a: Task, b: Task) => cfg.Duration(a) >= cfg.Duration(b);
    r := Sorting.Sort(heavier, s);
    Sorting.SortSorted(heavier, s);
    Sorting.SameMembers(r, s);
    NoDupPermutes(s, r);
  }

  /** One pass over the ready list: take a task if a worker and memory are left, keep it for later otherwise. */
  method FillBatch(cfg: Config, ready: seq<Task>) returns (batch: seq<Task>, later: seq<Task>)
    requires cfg.maxWorkers >= 1 && ready != [] && NoDup(ready) && cfg.HeavierFirst(ready)
    ensures IsGreedyBatch(cfg, Members(ready), batch)
    ensures NoDup(later) && Members(later) == Members(ready) - Members(batch)
  {
    batch, later := [], [];
    var mem := 0;
    for i := 0 to |ready|
      invariant Split(ready[..i], batch, later) && GreedySoFar(cfg, batch, later)
      invariant mem == cfg.MemorySum(batch) && (i > 0 ==> batch != [])
    {
      var t := ready[i];
      assert ready[..i + 1] == ready[..i] + [t];
      assert t !in ready[..i];
      SplitTake(ready[..i], batch, later, t);
      forall x | x in batch ensures cfg.Duration(x) >= cfg.Duration(t) {
        assert x in Members(ready[..i]);
      }
      if |batch| < cfg.maxWorkers && (mem + cfg.Memory(t) <= cfg.budget || batch == []) {
        TakeTask(cfg, batch, later, t);
        batch := batch + [t];
        mem := mem + cfg.Memory(t);
      } else {
        LeaveTask(cfg, batch, later, t);
        later := later + [t];
      }
    }
    assert ready[..|ready|] == ready;
    forall u | u in Members(ready) && u !in batch ensures Skipped(cfg, batch, u) {
      assert u in Members(later);
    }
  }

  /** Counts down the dependents of one executed task and collects those that reach zero. */
  method CountDown(ds: seq<Task>, inDegree0: map<Task, int>) returns (inDegree: map<Task, int>, released: seq<Task>)
    requires forall t :: t in ds ==> t in inDegree0
    requires forall t :: t in inDegree0 ==> inDegree0[t] >= Occurs(ds, t)
    ensures inDegree.Keys == inDegree0.Keys
    ensures forall t :: t in inDegree0 ==> inDegree[t] == inDegree0[t] - Occurs(ds, t)
    ensures NoDup(released)
    ensures forall t :: t in released <==> t in inDegree0 && inDegree0[t] > 0 && inDegree[t] == 0
  {
    inDegree, released := inDegree0, [];
    for j := 0 to |ds|
      invariant inDegree.Keys == inDegree0.Keys
      invariant forall t :: t in inDegree0 ==> inDegree[t] == inDegree0[t] - Occurs(ds[..j], t)
      invariant NoDup(released)
      invariant forall t :: t in released <==> t in inDegree0 && inDegree0[t] > 0 && inDegree[t] == 0
    {
      var nxt := ds[j];
      OccursPrefix(ds, j);
      assert Occurs(ds[..j + 1], nxt) <= Occurs(ds, nxt);
      inDegree := inDegree[nxt := inDegree[nxt] - 1];
      if inDegree[nxt] == 0 {
        released := released + [nxt];
      }
    }
    assert ds[..|ds|] == ds;
  }

  method ReleaseDependents(ghost g: Graph<Task>, ghost done: set<Task>, dependents: map<Task, seq<Task>>,
                           batch: seq<Task>, inDegree0: map<Task, int>)
    returns (inDegree: map<Task, int>, released: seq<Task>)
    requires Transposed(g, dependents) && CountsPending(g, inDegree0, done)
    requires NoDup(batch) && Members(batch) <= Nodes(g) && Members(batch) !! done
    ensures CountsPending(g, inDegree, done + Members(batch))
    ensures NoDup(released) && ReachedZero(released, inDegree0, inDegree)
  {
    inDegree, released := inDegree0, [];
    assert done + Members(batch[..0]) == done;
    for i := 0 to |batch|
      invariant CountsPending(g, inDegree, done + Members(batch[..i]))
      invariant NoDup(released) && ReachedZero(released, inDegree0, inDegree)
      invariant inDegree.Keys == inDegree0.Keys && forall t :: t in inDegree0 ==> inDegree[t] <= inDegree0[t]
    {
      var executed := batch[i];
      ghost var now := done + Members(batch[..i]);
      OneMoreDone(done, batch, i);
      ghost var before := inDegree;
      CountDownFits(g, dependents, before, now, executed);
      var more;
      inDegree, more := CountDown(dependents[executed], inDegree);
      CountedDown(g, dependents, before, inDegree, now, executed);
      ReachedZeroJoin(released, more, inDegree0, before, inDegree);
      released := released + more;
    }
    assert batch[..|batch|] == batch;
  }

  method InitiallyReady(ghost g: Graph<Task>, cfg: Config, inDegree: map<Task, int>) returns (ready: seq<Task>)
    requires CountsPending(g, inDegree, {})
    ensures NoDup(ready) && cfg.HeavierFirst(ready) && Members(ready) == Ready(g, {})
  {
    ready := [];
    var rest := inDegree.Keys;
    while rest != {}
      invariant rest <= inDegree.Keys && NoDup(ready)
      invariant forall t :: t in ready <==> t in inDegree && t !in rest && inDegree[t] == 0
    {
      var t :| t in rest;
      rest := rest - {t};
      if inDegree[t] == 0 { ready := ready + [t]; }
    }
    ReadyIsZero(g, inDegree, {});
    ready := SortByDuration(cfg, ready);
  }

  method RunBatches(g: Graph<Task>, cfg: Config) returns (ordered: seq<Task>, batches: seq<seq<Task>>)
    requires cfg.maxWorkers >= 1
    ensures IsGreedySchedule(g, cfg, batches)
    ensures ordered == Flatten(batches)
  {
    var inDegree, dependents := CountDependencies(g);
    var ready := InitiallyReady(g, cfg, inDegree);
    ordered, batches := [], [];
    while ready != []
      invariant ordered == Flatten(batches)
      invariant GreedySteps(g, cfg, batches)
      invariant CountsPending(g, inDegree, Done(batches)) && DoneIsZero(inDegree, Done(batches))
      invariant NoDup(ready) && cfg.HeavierFirst(ready) && Members(ready) == Ready(g, Done(batches))
      decreases |Nodes(g) - Done(batches)|
    {
      ghost var done, before, was := Done(batches), inDegree, batches;
      var batch, later := FillBatch(cfg, ready);
      ordered := ordered + batch;
      var released;
      inDegree, released := ReleaseDependents(g, done, dependents, batch, inDegree);
      batches := batches + [batch];
      DoneAppend(was, batch);
      GreedyAppend(g, cfg, was, batch);
      NextReady(g, before, inDegree, done, batch, later, released);
      ready := SortByDuration(cfg, later + released);
      Progress(g, done, batch);
    }
    assert Ready(g, Done(batches)) == Members([]) == {};
  }
}
