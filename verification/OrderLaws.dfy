/** What the ordering errors say, in terms of the task list alone. */
module OrderLaws {
  import opened Graphs
  import opened TaskLists

  ghost predicate Increasing(s: seq<nat>) {
    forall p, q :: 0 <= p < q < |s| ==> s[p] < s[q]
  }

  ghost predicate IsTaskName(tasks: seq<TaskSpec>, name: string) {
    exists k :: 0 <= k < |tasks| && tasks[k].name == name
  }

  lemma KnownIff(tasks: seq<TaskSpec>, name: string)
    ensures name in KeyIndex(tasks) <==> IsTaskName(tasks, name)
  {
    if name in KeyIndex(tasks) { KeyIndexNames(tasks, name); }
    if k :| 0 <= k < |tasks| && tasks[k].name == name { KeyIndexOfName(tasks, k); }
  }

  /** Several tasks of one name: dependencies on that name mean the last of them. */
  lemma LastTaskOfName(tasks: seq<TaskSpec>, i: nat, j: nat, k: nat)
    requires AllKnown(tasks) && i < |tasks| && j < |tasks[i].deps| && k < |tasks|
    requires tasks[k].name == tasks[i].deps[j] && forall l :: k < l < |tasks| ==> tasks[l].name != tasks[k].name
    ensures |IndexGraph(tasks)[i]| == |tasks[i].deps| && IndexGraph(tasks)[i][j] == k
  {
    assert i in Below(|tasks|) && tasks[i].deps[j] in tasks[i].deps;
    KeyIndexOfName(tasks, k);
  }

  /**
    An unknown-task error names a task and one of its dependencies that no task is called by; before them,
    in list order, every dependency is the name of a task.
   */
  lemma UnknownIsFirst(tasks: seq<TaskSpec>, task: string, dep: string) returns (i: nat, j: nat)
    requires ErrorIsRight(tasks, UnknownTask(task, dep))
    ensures i < |tasks| && tasks[i].name == task && j < |tasks[i].deps| && tasks[i].deps[j] == dep
    ensures !IsTaskName(tasks, dep)
    ensures forall l :: 0 <= l < j ==> IsTaskName(tasks, tasks[i].deps[l])
    ensures forall h, l :: 0 <= h < i && 0 <= l < |tasks[h].deps| ==> IsTaskName(tasks, tasks[h].deps[l])
  {
    i, j :| IsFirstUnknown(tasks, i, j) && task == tasks[i].name && dep == tasks[i].deps[j];
    KnownIff(tasks, dep);
    forall l | 0 <= l < j ensures IsTaskName(tasks, tasks[i].deps[l]) {
      assert !IsUnknown(tasks, i, l);
      KnownIff(tasks, tasks[i].deps[l]);
    }
    forall h, l | 0 <= h < i && 0 <= l < |tasks[h].deps| ensures IsTaskName(tasks, tasks[h].deps[l]) {
      assert !IsUnknown(tasks, h, l);
      KnownIff(tasks, tasks[h].deps[l]);
    }
  }

  /** The indices below n of the tasks with a cycle ahead, in order. */
  ghost function CyclicPlaces(tasks: seq<TaskSpec>, n: nat): seq<nat>
    requires AllKnown(tasks)
  {
    if n == 0 then []
    else CyclicPlaces(tasks, n - 1) + if CycleFrom<nat>(IndexGraph(tasks), n - 1) then [n - 1] else []
  }

  lemma {:induction false} PlacesAreCyclic(tasks: seq<TaskSpec>, n: nat, i: nat)
    requires AllKnown(tasks)
    ensures i in CyclicPlaces(tasks, n) <==> i < n && CycleFrom<nat>(IndexGraph(tasks), i)
  {
    if n > 0 { PlacesAreCyclic(tasks, n - 1, i); }
  }

  lemma IncreasingNext(s: seq<nat>, n: nat)
    requires Increasing(s) && forall i :: i in s ==> i < n
    ensures Increasing(s + [n])
  {
    forall p | 0 <= p < |s| ensures s[p] < n { assert s[p] in s; }
  }

  lemma {:induction false} PlacesIncrease(tasks: seq<TaskSpec>, n: nat)
    requires AllKnown(tasks)
    ensures Increasing(CyclicPlaces(tasks, n)) && forall i :: i in CyclicPlaces(tasks, n) ==> i < n
  {
    if n > 0 {
      PlacesIncrease(tasks, n - 1);
      IncreasingNext(CyclicPlaces(tasks, n - 1), n - 1);
    }
  }

  lemma {:induction false} PlacesSpell(tasks: seq<TaskSpec>, n: nat)
    requires AllKnown(tasks) && n <= |tasks|
    ensures |CyclicNames(tasks, n)| == |CyclicPlaces(tasks, n)| && forall q :: 0 <= q < |CyclicPlaces(tasks, n)| ==>
      CyclicPlaces(tasks, n)[q] < |tasks| && CyclicNames(tasks, n)[q] == tasks[CyclicPlaces(tasks, n)[q]].name
  {
    if n > 0 { PlacesSpell(tasks, n - 1); }
  }

  /** A cycle error lists, in list order and once each, the names of exactly the tasks with a cycle ahead. */
  lemma CyclicAreListed(tasks: seq<TaskSpec>, names: seq<string>) returns (indices: seq<nat>)
    requires ErrorIsRight(tasks, DependencyCycle(names))
    ensures Increasing(indices) && names != []
    ensures forall i: nat :: i in indices <==> i < |tasks| && CycleFrom<nat>(IndexGraph(tasks), i)
    ensures |names| == |indices| && forall q :: 0 <= q < |names| ==>
      indices[q] < |tasks| && names[q] == tasks[indices[q]].name
  {
    indices := CyclicPlaces(tasks, |tasks|);
    PlacesIncrease(tasks, |tasks|);
    PlacesSpell(tasks, |tasks|);
    forall i: nat ensures i in indices <==> i < |tasks| && CycleFrom<nat>(IndexGraph(tasks), i) {
      PlacesAreCyclic(tasks, |tasks|, i);
    }
  }
}
