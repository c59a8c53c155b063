/** Dependency ordering of named tasks by repeated passes over the task list. */
module DagOrder {
  import opened Graphs
  import opened TaskLists

  /** One pass over the task list: every task whose dependencies are all resolved is resolved too. */
  method OnePass(tasks: seq<TaskSpec>, keys: map<string, nat>, resolved0: seq<nat>, resolvedSet0: set<nat>)
    returns (resolved: seq<nat>, resolvedSet: set<nat>, progress: bool)
    requires AllKnown(tasks) && keys == KeyIndex(tasks) && Partial(tasks, resolved0, resolvedSet0)
    ensures Partial(tasks, resolved, resolvedSet)
    ensures if progress then |resolved| > |resolved0|
            else resolved == resolved0 && BlockedBelow(tasks, resolvedSet, |tasks|)
  {
    resolved, resolvedSet, progress := resolved0, resolvedSet0, false;
    for idx := 0 to |tasks|
      invariant Partial(tasks, resolved, resolvedSet)
      invariant if progress then |resolved| > |resolved0|
                else resolved == resolved0 && BlockedBelow(tasks, resolvedSet, idx)
    {
      if idx in resolvedSet {
        continue;
      }
      var deps := tasks[idx].deps;
      var allDepsReady := forall dep | dep in deps :: dep in keys && keys[dep] in resolvedSet;
      ReadyIsUnblocked(tasks, resolvedSet, idx);
      if allDepsReady {
        ResolveOne(tasks, resolved, resolvedSet, idx);
        resolved := resolved + [idx];
        resolvedSet := resolvedSet + {idx};
        progress := true;
      }
    }
  }

  method IndexKeys(tasks: seq<TaskSpec>) returns (keys: map<string, nat>)
    ensures keys == KeyIndex(tasks)
  {
    keys := map[];
    for i := 0 to |tasks|
      invariant keys == KeyIndex(tasks[..i])
    {
      assert tasks[..i + 1][..i] == tasks[..i];
      keys := keys[tasks[i].name := i];
    }
    assert tasks[..|tasks|] == tasks;
  }

  method CheckKnown(tasks: seq<TaskSpec>, keys: map<string, nat>) returns (r: Result<()>)
    requires keys == KeyIndex(tasks)
    ensures r.Ok? ==> AllKnown(tasks)
    ensures r.Err? ==> r.error.UnknownTask? && ErrorIsRight(tasks, r.error) && !AllKnown(tasks)
  {
    for i := 0 to |tasks|
      invariant forall i': nat, j': nat :: i' < i ==> !IsUnknown(tasks, i', j')
    {
      var deps := tasks[i].deps;
      for j := 0 to |deps|
        invariant forall j' :: 0 <= j' < j ==> !IsUnknown(tasks, i, j')
      {
        if deps[j] !in keys {
          assert IsFirstUnknown(tasks, i, j);
          return Err(UnknownTask(tasks[i].name, deps[j]));
        }
      }
    }
    forall i, d | 0 <= i < |tasks| && d in tasks[i].deps ensures d in KeyIndex(tasks) {
      var j :| 0 <= j < |tasks[i].deps| && tasks[i].deps[j] == d;
      assert !IsUnknown(tasks, i, j);
    }
    return Ok(());
  }

  method RemainingNames(tasks: seq<TaskSpec>, resolvedSet: set<nat>, ghost resolved: seq<nat>)
    returns (names: seq<string>)
    requires AllKnown(tasks) && Partial(tasks, resolved, resolvedSet) && |resolved| < |tasks|
    requires BlockedBelow(tasks, resolvedSet, |tasks|)
    ensures names == CyclicNames(tasks, |tasks|) && names != []
    ensures !Acyclic<nat>(IndexGraph(tasks))
  {
    SomeCycleLeft(tasks, resolved, resolvedSet);
    names := [];
    for i := 0 to |tasks|
      invariant names == CyclicNames(tasks, i)
    {
      NextCyclicName(tasks, resolved, resolvedSet, i);
      if i !in resolvedSet {
        names := names + [tasks[i].name];
      }
    }
  }

  method ResolveDagOrder(tasks: seq<TaskSpec>) returns (r: Result<seq<nat>>)
    ensures r.Ok? <==> AllKnown(tasks) && Acyclic<nat>(IndexGraph(tasks))
    ensures r.Ok? ==> IsOrder(tasks, r.value)
    ensures r.Err? ==> ErrorIsRight(tasks, r.error)
  {
    var keys := IndexKeys(tasks);
    var unknown := CheckKnown(tasks, keys);
    if unknown.Err? {
      return Err(unknown.error);
    }
    ghost var g := IndexGraph(tasks);
    var resolved: seq<nat> := [];
    var resolvedSet: set<nat> := {};
    while |resolved| < |tasks|
      invariant Partial(tasks, resolved, resolvedSet)
      decreases |tasks| - |resolved|
    {
      var progress;
      ghost var before := resolved;
      resolved, resolvedSet, progress := OnePass(tasks, keys, resolved, resolvedSet);
      if !progress {
        var remaining := RemainingNames(tasks, resolvedSet, resolved);
        return Err(DependencyCycle(remaining));
      }
    }
    FullOrder(tasks, resolved, resolvedSet);
    return Ok(resolved);
  }
}
