/** The memoised longest-chain search of the schedule optimizer, and the plan built from it. */
module CriticalPath {
  import opened Basics
  import opened Graphs
  import opened GreedyBatches
  import opened LongestChains

  /** Searches the dependency table with one memo table for all roots. */
  class LongestChainSearch {
    const deps: Graph<Task>
    const weight: Task -> real
    var memo: map<Task, real>
    var nextHop: map<Task, Task>
    var visiting: set<Task>

    constructor (deps: Graph<Task>, weight: Task -> real)
      ensures this.deps == deps && this.weight == weight
      ensures Valid() && visiting == {}
    {
      this.deps := deps;
      this.weight := weight;
      memo, nextHop, visiting := map[], map[], {};
    }

    ghost predicate Valid()
      reads this
    {
      visiting !! memo.Keys && MemoOk(deps, weight, memo) && HopsOk(deps, weight, memo, nextHop)
    }

    /** The end of a search: records the value and the hop, and takes the task off the stack. */
    method Finish(task: Task, maxChildCost: real, bestChild: Task)
      requires Valid() && task in visiting
      requires BestSoFar(Deps(deps, task), memo, maxChildCost, bestChild)
      modifies this
      ensures Valid() && memo == old(memo)[task := weight(task) + maxChildCost]
      ensures visiting == old(visiting) - {task}
    {
      Settle(deps, weight, task, memo, nextHop, maxChildCost, bestChild);
      memo := memo[task := weight(task) + maxChildCost];
      if bestChild != "" {
        nextHop := nextHop[task := bestChild];
      }
      visiting := visiting - {task};
    }

    method GetLongest(task: Task) returns (r: Outcome<real>)
      requires Valid() && task in Nodes(deps) && visiting <= Nodes(deps)
      requires StackLeadsTo(deps, visiting, task)
      modifies this
      ensures Valid() && Extends(old(memo), memo)
      ensures r.Value? ==> task in memo && memo[task] == r.value && visiting == old(visiting)
      ensures r.CycleError? ==> CycleFrom(deps, task)
      decreases |Nodes(deps) - visiting|
    {
      if task in memo {
        return Value(memo[task]);
      }
      if task in visiting {
        assert Leads(deps, task, task);
        SelfLeadsCycle(deps, task);
        return CycleError(task);
      }
      ghost var stack := visiting;
      visiting := visiting + {task};
      SmallerSet(Nodes(deps) - visiting, Nodes(deps) - stack);
      var ds := Deps(deps, task);
      var maxChildCost := 0.0;
      var bestChild := "";
      for i := 0 to |ds|
        invariant Valid() && Extends(old(memo), memo) && visiting == stack + {task}
        invariant BestSoFar(ds[..i], memo, maxChildCost, bestChild)
      {
        var d := ds[i];
        StackLeads(deps, stack, task, d);
        ghost var was := memo;
        r := GetLongest(d);
        ExtendsTrans(old(memo), was, memo);
        if r.CycleError? {
          CycleOfDep(deps, task, d);
          return;
        }
        BestNext(ds, i, was, memo, maxChildCost, bestChild);
        if r.value > maxChildCost {
          maxChildCost := r.value;
          bestChild := d;
        }
      }
      assert ds[..|ds|] == ds;
      ghost var was := memo;
      Finish(task, maxChildCost, bestChild);
      ExtendsInsert(old(memo), was, task, memo[task]);
      return Value(memo[task]);
    }

    /** Follows the recorded hops from a finished task, up to the end of a heaviest chain or a task named "". */
    method FollowHops(root: Task) returns (path: seq<Task>)
      requires Valid() && root in memo && root in Nodes(deps)
      ensures HopsEnd(deps, weight, root, memo[root], memo, path)
    {
      path := [];
      var curr := root;
      assert Settled(deps, weight, root, memo[root]);
      while curr != ""
        invariant "" !in path
        invariant curr != "" ==> curr in memo && curr in Nodes(deps) && WalkFrom(deps, root, path + [curr])
        invariant curr != "" ==> Weight(weight, path) + memo[curr] == memo[root]
        invariant curr == "" ==> HopsEnd(deps, weight, root, memo[root], memo, path)
        decreases if curr == "" then 0 else |Nodes(deps)| + 1 - |path|
      {
        WalkIsShort(deps, root, path + [curr]);
        WeightAppend(weight, path, curr);
        path := path + [curr];
        if curr in nextHop {
          assert HopFollows(deps, weight, memo, nextHop, curr);
          LinkWalk(deps, path, nextHop[curr]);
          curr := nextHop[curr];
          WalkIsShort(deps, root, path + [curr]);
        } else {
          assert HopMissing(deps, weight, memo, curr);
          curr := "";
        }
      }
    }
  }

  method CalculateCriticalPath(g: Graph<Task>, weight: Task -> real) returns (r: Outcome<seq<Task>>)
    ensures r.CycleError? <==> CycleIsDetected(g)
    ensures g == map[] ==> r == Value([])
    ensures r.Value? && g != map[] ==> IsFoundPath(g, weight, r.value)
  {
    var roots := ChosenRoots(g);
    if roots == {} {
      assert g == map[] by { assert g.Keys == {}; }
      return Value([]);
    }
    var search := new LongestChainSearch(g, weight);
    var rest := roots;
    var bestRoot := "";
    var best := 0.0;
    while rest != {}
      invariant rest <= roots
      invariant search.Valid() && search.visiting == {} && search.deps == g && search.weight == weight && fresh(search)
      invariant rest != roots ==> bestRoot in roots && bestRoot in search.memo && search.memo[bestRoot] == best
      invariant forall t :: t in roots && t !in rest ==> t in search.memo && search.memo[t] <= best
    {
      var t :| t in rest;
      ghost var was := search.memo;
      var longest := search.GetLongest(t);
      if longest.CycleError? {
        return CycleError(longest.task);
      }
      assert Extends(was, search.memo);
      if rest == roots || longest.value > best {
        bestRoot, best := t, longest.value;
      }
      rest := rest - {t};
    }
    forall t | t in roots ensures !CycleFrom(g, t) && IsHeaviest(g, weight, t, search.memo[t]) {
      assert Settled(g, weight, t, search.memo[t]);
    }
    forall p | Walk(g, p) && p[0] in roots ensures Weight(weight, p) <= best {
      assert WalkFrom(g, p[0], p);
    }
    var path := search.FollowHops(bestRoot);
    HopsEndFound(g, weight, bestRoot, search.memo, path);
    return Value(path);
  }
}
