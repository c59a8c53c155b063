/** Task lists with named dependencies: the order they ask for, and what the passes over them keep true. */
module TaskLists {
  import opened Graphs

  datatype TaskSpec = TaskSpec(name: string, deps: seq<string>)
  datatype OrderError = UnknownTask(task: string, dep: string) | DependencyCycle(remaining: seq<string>)
  datatype Result<T> = Ok(value: T) | Err(error: OrderError)

  /** The index a name stands for: of several tasks with one name, the last. */
  function KeyIndex(tasks: seq<TaskSpec>): (m: map<string, nat>)
    ensures forall k :: k in m ==> m[k] < |tasks|
  {
    if tasks == [] then map[]
    else
      var n := |tasks| - 1;
      KeyIndex(tasks[..n])[tasks[n].name := n]
  }

  lemma {:induction false} KeyIndexOfName(tasks: seq<TaskSpec>, i: nat)
    requires i < |tasks|
    ensures var keys, name := KeyIndex(tasks), tasks[i].name;
      name in keys && i <= keys[name] && tasks[keys[name]].name == name
    decreases |tasks|
  {
    var n := |tasks| - 1;
    if i < n { KeyIndexOfName(tasks[..n], i); }
  }

  lemma {:induction false} KeyIndexNames(tasks: seq<TaskSpec>, name: string)
    requires name in KeyIndex(tasks)
    ensures tasks[KeyIndex(tasks)[name]].name == name
    decreases |tasks|
  {
    var n := |tasks| - 1;
    if name != tasks[n].name { KeyIndexNames(tasks[..n], name); }
  }

  function Below(n: nat): (s: set<nat>)
    ensures |s| == n && forall i: nat :: i in s <==> i < n
  {
    if n == 0 then {} else Below(n - 1) + {n - 1}
  }

  predicate AllKnown(tasks: seq<TaskSpec>) {
    forall i, d :: 0 <= i < |tasks| && d in tasks[i].deps ==> d in KeyIndex(tasks)
  }

  function DepIndices(keys: map<string, nat>, deps: seq<string>): (r: seq<nat>)
    requires forall d :: d in deps ==> d in keys
    ensures |r| == |deps| && forall j :: 0 <= j < |deps| ==> r[j] == keys[deps[j]]
  {
    seq(|deps|, j requires 0 <= j < |deps| => keys[deps[j]])
  }

  /** The dependency relation between task indices. */
  function IndexGraph(tasks: seq<TaskSpec>): Graph<nat>
    requires AllKnown(tasks)
  {
    var keys := KeyIndex(tasks);
    map i: nat | i in Below(|tasks|) :: DepIndices(keys, tasks[i].deps)
  }

  /** A permutation of all task indices with every dependency before its dependents. */
  ghost predicate IsOrder(tasks: seq<TaskSpec>, order: seq<nat>)
    requires AllKnown(tasks)
  {
    && |order| == |tasks| && NoDup(order)
    && (forall i: nat :: i in order <==> i < |tasks|)
    && (forall q :: 0 <= q < |order| ==> order[q] < |tasks|)
    && DepsFirst(IndexGraph(tasks), order)
  }

  /** The names of the tasks that a dependency cycle can be reached from, in list order. */
  ghost function CyclicNames(tasks: seq<TaskSpec>, n: nat): seq<string>
    requires AllKnown(tasks) && n <= |tasks|
  {
    if n == 0 then []
    else CyclicNames(tasks, n - 1) + if CycleFrom<nat>(IndexGraph(tasks), n - 1) then [tasks[n - 1].name] else []
  }

  ghost predicate IsUnknown(tasks: seq<TaskSpec>, i: nat, j: nat) {
    i < |tasks| && j < |tasks[i].deps| && tasks[i].deps[j] !in KeyIndex(tasks)
  }

  /** The first dependency, in list order, that names no task. */
  ghost predicate IsFirstUnknown(tasks: seq<TaskSpec>, i: nat, j: nat) {
    IsUnknown(tasks, i, j) && forall i': nat, j': nat :: IsUnknown(tasks, i', j') ==> i < i' || (i == i' && j <= j')
  }

  ghost predicate ErrorIsRight(tasks: seq<TaskSpec>, error: OrderError) {
    match error
    case UnknownTask(task, dep) =>
      exists i: nat, j: nat :: IsFirstUnknown(tasks, i, j) && task == tasks[i].name && dep == tasks[i].deps[j]
    case DependencyCycle(remaining) =>
      AllKnown(tasks) && remaining == CyclicNames(tasks, |tasks|) && remaining != []
  }

  /** What holds of the resolved list at any point of the passes. */
  ghost predicate Partial(tasks: seq<TaskSpec>, resolved: seq<nat>, resolvedSet: set<nat>)
    requires AllKnown(tasks)
  {
    && NoDup(resolved) && resolvedSet == Members(resolved)
    && (forall i: nat :: i in resolved ==> i < |tasks|)
    && DepsFirst(IndexGraph(tasks), resolved)
  }

  ghost predicate Blocked(tasks: seq<TaskSpec>, resolvedSet: set<nat>, i: nat)
    requires AllKnown(tasks)
  {
    exists d :: d in Deps(IndexGraph(tasks), i) && d !in resolvedSet
  }

  ghost predicate BlockedBelow(tasks: seq<TaskSpec>, resolvedSet: set<nat>, n: nat)
    requires AllKnown(tasks)
  {
    forall k: nat {:trigger Blocked(tasks, resolvedSet, k)} :: k < n && k !in resolvedSet ==>
      Blocked(tasks, resolvedSet, k)
  }

  lemma DepIsListed(keys: map<string, nat>, deps: seq<string>, x: nat)
    requires forall d :: d in deps ==> d in keys
    ensures x in DepIndices(keys, deps) <==> exists d :: d in deps && keys[d] == x
  {
    var indices := DepIndices(keys, deps);
    if x in indices {
      var j :| 0 <= j < |indices| && indices[j] == x;
      assert deps[j] in deps && keys[deps[j]] == x;
    }
    if d :| d in deps && keys[d] == x {
      var j :| 0 <= j < |deps| && deps[j] == d;
      assert indices[j] == x;
    }
  }

  lemma ReadyIsUnblocked(tasks: seq<TaskSpec>, resolvedSet: set<nat>, i: nat)
    requires AllKnown(tasks) && i < |tasks|
    ensures (forall dep :: dep in tasks[i].deps ==> KeyIndex(tasks)[dep] in resolvedSet) <==>
      !Blocked(tasks, resolvedSet, i)
  {
    var keys, deps := KeyIndex(tasks), tasks[i].deps;
    assert Deps(IndexGraph(tasks), i) == DepIndices(keys, deps);
    forall dep | dep in deps ensures keys[dep] in DepIndices(keys, deps) {
      DepIsListed(keys, deps, keys[dep]);
    }
    forall x: nat | x in DepIndices(keys, deps) ensures exists d :: d in deps && keys[d] == x {
      DepIsListed(keys, deps, x);
    }
  }

  lemma ResolveOne(tasks: seq<TaskSpec>, resolved: seq<nat>, resolvedSet: set<nat>, i: nat)
    requires AllKnown(tasks) && Partial(tasks, resolved, resolvedSet)
    requires i < |tasks| && i !in resolvedSet && !Blocked(tasks, resolvedSet, i)
    ensures Partial(tasks, resolved + [i], resolvedSet + {i})
  {
    NoDupAppend(resolved, [i]);
    DepsFirstAppend(IndexGraph(tasks), resolved, i);
  }

  lemma SubsetCardinality<T>(a: set<T>, b: set<T>)
    requires a <= b
    ensures |a| <= |b|
  {
    assert b == a + (b - a);
  }

  lemma SomethingLeft<T>(a: set<T>, b: set<T>)
    requires |a| < |b|
    ensures b - a != {}
  {
    if b - a == {} {
      assert forall x :: x in b ==> x in a || x in b - a;
      SubsetCardinality(b, a);
    }
  }

  lemma SubsetOfSameSize<T>(a: set<T>, b: set<T>)
    requires a <= b && |a| >= |b|
    ensures a == b
  {
    assert b == a + (b - a);
  }

  lemma NoDepsNoCycle<T(!new)>(g: Graph<T>, t: T)
    requires Deps(g, t) == []
    ensures !CycleFrom(g, t)
  {
    if CycleFrom(g, t) { CycleThroughDep(g, t); }
  }

  lemma FullOrder(tasks: seq<TaskSpec>, resolved: seq<nat>, resolvedSet: set<nat>)
    requires AllKnown(tasks) && Partial(tasks, resolved, resolvedSet) && |resolved| >= |tasks|
    ensures IsOrder(tasks, resolved) && Acyclic<nat>(IndexGraph(tasks))
  {
    var g, all := IndexGraph(tasks), Below(|tasks|);
    NoDupSet(resolved);
    SubsetOfSameSize(resolvedSet, all);
    forall i: nat ensures i in resolved <==> i < |tasks| {
      assert i in resolved <==> i in Members(resolved);
    }
    forall q | 0 <= q < |resolved| ensures resolved[q] < |tasks| {
      assert resolved[q] in resolved;
    }
    forall t: nat ensures !CycleFrom<nat>(g, t) {
      if t in resolved {
        OrderedIsCycleFree(g, resolved, t);
      } else {
        NoDepsNoCycle(g, t);
      }
    }
  }

  lemma UnresolvedExists(tasks: seq<TaskSpec>, resolved: seq<nat>) returns (k: nat)
    requires |resolved| < |tasks| && NoDup(resolved)
    ensures k < |tasks| && k !in resolved
  {
    var left: set<nat> := Below(|tasks|) - Members(resolved);
    NoDupSet(resolved);
    SomethingLeft(Members(resolved), Below(|tasks|));
    k :| k in left;
  }

  /** With every unresolved task blocked, the unresolved tasks are exactly those with a cycle ahead. */
  lemma StuckIsCyclic(tasks: seq<TaskSpec>, resolved: seq<nat>, resolvedSet: set<nat>, i: nat)
    requires AllKnown(tasks) && Partial(tasks, resolved, resolvedSet)
    requires BlockedBelow(tasks, resolvedSet, |tasks|) && i < |tasks|
    ensures i in resolvedSet <==> !CycleFrom<nat>(IndexGraph(tasks), i)
  {
    var g := IndexGraph(tasks);
    if i in resolvedSet {
      OrderedIsCycleFree(g, resolved, i);
    } else {
      var stuck := Below(|tasks|) - resolvedSet;
      forall x | x in stuck ensures DependsInto(g, x, stuck) {
        assert Blocked(tasks, resolvedSet, x);
        var d :| d in Deps(g, x) && d !in resolvedSet;
        assert d in stuck;
      }
      StuckSetHasCycles(g, stuck, i);
    }
  }

  lemma {:induction false} CyclicIsNamed(tasks: seq<TaskSpec>, n: nat, k: nat)
    requires AllKnown(tasks) && k < n <= |tasks| && CycleFrom<nat>(IndexGraph(tasks), k)
    ensures CyclicNames(tasks, n) != []
    decreases n
  {
    if k < n - 1 { CyclicIsNamed(tasks, n - 1, k); }
  }

  lemma SomeCycleLeft(tasks: seq<TaskSpec>, resolved: seq<nat>, resolvedSet: set<nat>)
    requires AllKnown(tasks) && Partial(tasks, resolved, resolvedSet) && |resolved| < |tasks|
    requires BlockedBelow(tasks, resolvedSet, |tasks|)
    ensures !Acyclic<nat>(IndexGraph(tasks)) && CyclicNames(tasks, |tasks|) != []
  {
    var k := UnresolvedExists(tasks, resolved);
    assert k !in Members(resolved);
    StuckIsCyclic(tasks, resolved, resolvedSet, k);
    assert CycleFrom<nat>(IndexGraph(tasks), k);
    CyclicIsNamed(tasks, |tasks|, k);
  }

  lemma NextCyclicName(tasks: seq<TaskSpec>, resolved: seq<nat>, resolvedSet: set<nat>, i: nat)
    requires AllKnown(tasks) && Partial(tasks, resolved, resolvedSet)
    requires BlockedBelow(tasks, resolvedSet, |tasks|) && i < |tasks|
    ensures CyclicNames(tasks, i + 1) ==
      if i in resolvedSet then CyclicNames(tasks, i) else CyclicNames(tasks, i) + [tasks[i].name]
  {
    StuckIsCyclic(tasks, resolved, resolvedSet, i);
  }
}
