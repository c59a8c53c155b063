/** What the memo and next-hop tables of the longest-chain search say, and which paths count as critical. */
module LongestChains {
  import opened Basics
  import opened Graphs
  import opened GreedyBatches

  datatype Outcome<T> = Value(value: T) | CycleError(task: Task)

  /** The tasks the search starts from: those nothing depends on, or every task with an entry if there are none. */
  function ChosenRoots(g: Graph<Task>): set<Task> {
    var children := set k, c | k in g && c in g[k] :: c;
    var top := g.Keys - children;
    if top == {} then g.Keys else top
  }

  ghost predicate CycleIsDetected(g: Graph<Task>) {
    exists t :: t in ChosenRoots(g) && CycleFrom(g, t)
  }

  /** No cycle lies ahead of t, and v is the weight of a heaviest walk from it. */
  ghost predicate Settled(g: Graph<Task>, w: Task -> real, t: Task, v: real) {
    !CycleFrom(g, t) && IsHeaviest(g, w, t, v)
  }

  ghost predicate MemoOk(g: Graph<Task>, w: Task -> real, memo: map<Task, real>) {
    forall t {:trigger Settled(g, w, t, memo[t])} :: t in memo ==> Settled(g, w, t, memo[t])
  }

  /** The hop from a settled task pays for the rest of its value. */
  ghost predicate HopFollows(g: Graph<Task>, w: Task -> real, memo: map<Task, real>, nextHop: map<Task, Task>, t: Task)
  {
    t in nextHop && t in memo &&
    var d := nextHop[t];
    d in Deps(g, t) && d in memo && d != "" && memo[t] == w(t) + memo[d]
  }

  /**
    Without a hop a value is the task's own weight, or the child that pays for the rest is named "", the
    marker for none.
   */
  ghost predicate HopMissing(g: Graph<Task>, w: Task -> real, memo: map<Task, real>, t: Task)
    requires t in memo
  {
    memo[t] == w(t) || ("" in Deps(g, t) && "" in memo && memo[t] == w(t) + memo[""])
  }

  /** Hops spell the values out, as far as they go. */
  ghost predicate HopsOk(g: Graph<Task>, w: Task -> real, memo: map<Task, real>, nextHop: map<Task, Task>) {
    && nextHop.Keys <= memo.Keys
    && (forall t {:trigger HopFollows(g, w, memo, nextHop, t)} :: t in nextHop ==> HopFollows(g, w, memo, nextHop, t))
    && (forall t {:trigger HopMissing(g, w, memo, t)} :: t in memo && t !in nextHop ==> HopMissing(g, w, memo, t))
  }

  lemma {:induction false} WalkInNodes(g: Graph<Task>, p: seq<Task>)
    requires Walk(g, p) && p[0] in Nodes(g)
    ensures forall x :: x in p ==> x in Nodes(g)
    decreases |p|
  {
    if |p| > 1 {
      WalkInNodes(g, p[1..]);
      assert p == [p[0]] + p[1..];
    }
  }

  lemma WalkIsShort(g: Graph<Task>, t: Task, p: seq<Task>)
    requires WalkFrom(g, t, p) && t in Nodes(g) && !CycleFrom(g, t)
    ensures |p| <= |Nodes(g)|
  {
    WalkInNodes(g, p);
    Pigeonhole(p, Nodes(g));
  }

  lemma ExtendsInsert(a: map<Task, real>, b: map<Task, real>, t: Task, v: real)
    requires Extends(a, b) && t !in a
    ensures Extends(a, b[t := v])
  {
  }

  /** best is the greatest memoised value among ds and 0, child a member that has it. */
  ghost predicate BestSoFar(ds: seq<Task>, memo: map<Task, real>, best: real, child: Task) {
    && best >= 0.0
    && (if best == 0.0 then child == "" else child in ds && child in memo && memo[child] == best)
    && (forall d :: d in ds ==> d in memo && memo[d] <= best)
  }

  lemma BestNext(ds: seq<Task>, i: nat, was: map<Task, real>, memo: map<Task, real>, best: real, child: Task)
    requires i < |ds| && BestSoFar(ds[..i], was, best, child)
    requires Extends(was, memo) && ds[i] in memo
    ensures var c := memo[ds[i]];
      BestSoFar(ds[..i + 1], memo, if c > best then c else best, if c > best then ds[i] else child)
  {
    assert ds[..i + 1] == ds[..i] + [ds[i]];
  }

  lemma MemoGrows(g: Graph<Task>, w: Task -> real, memo: map<Task, real>, task: Task, v: real)
    requires MemoOk(g, w, memo) && Settled(g, w, task, v)
    ensures MemoOk(g, w, memo[task := v])
  {
    var memo' := memo[task := v];
    forall t | t in memo' ensures Settled(g, w, t, memo'[t]) {
      if t != task { assert Settled(g, w, t, memo[t]); }
    }
  }

  lemma HopsStay(g: Graph<Task>, w: Task -> real, memo: map<Task, real>, nextHop: map<Task, Task>, task: Task, v: real)
    requires HopsOk(g, w, memo, nextHop) && task !in memo
    requires v == w(task) || ("" in Deps(g, task) && "" in memo && v == w(task) + memo[""])
    ensures HopsOk(g, w, memo[task := v], nextHop)
  {
    var memo' := memo[task := v];
    forall t | t in nextHop ensures HopFollows(g, w, memo', nextHop, t) {
      assert HopFollows(g, w, memo, nextHop, t);
    }
    forall t | t in memo' && t !in nextHop ensures HopMissing(g, w, memo', t) {
      if t != task { assert HopMissing(g, w, memo, t); }
    }
  }

  lemma HopsGrow(g: Graph<Task>, w: Task -> real, memo: map<Task, real>, nextHop: map<Task, Task>, task: Task, v: real,
                 child: Task)
    requires HopsOk(g, w, memo, nextHop) && task !in memo
    requires child in Deps(g, task) && child in memo && child != "" && v == w(task) + memo[child]
    ensures HopsOk(g, w, memo[task := v], nextHop[task := child])
  {
    var memo', hops := memo[task := v], nextHop[task := child];
    forall t | t in hops ensures HopFollows(g, w, memo', hops, t) {
      if t != task { assert HopFollows(g, w, memo, nextHop, t); }
    }
    forall t | t in memo' && t !in hops ensures HopMissing(g, w, memo', t) {
      assert HopMissing(g, w, memo, t);
    }
  }

  lemma SettleValue(g: Graph<Task>, w: Task -> real, task: Task, memo: map<Task, real>, best: real, child: Task)
    requires MemoOk(g, w, memo) && BestSoFar(Deps(g, task), memo, best, child)
    ensures Settled(g, w, task, w(task) + best)
  {
    forall d | d in Deps(g, task) ensures !CycleFrom(g, d) && exists c :: c <= best && IsHeaviest(g, w, d, c) {
      assert Settled(g, w, d, memo[d]);
    }
    if best > 0.0 { assert Settled(g, w, child, memo[child]); }
    HeaviestStep(g, w, task, best);
    if CycleFrom(g, task) { CycleThroughDep(g, task); }
  }

  /** Once all dependencies are settled, so is the task itself. */
  lemma Settle(g: Graph<Task>, w: Task -> real, task: Task, memo: map<Task, real>, nextHop: map<Task, Task>,
               best: real, child: Task)
    requires MemoOk(g, w, memo) && HopsOk(g, w, memo, nextHop) && task !in memo
    requires BestSoFar(Deps(g, task), memo, best, child)
    ensures var memo' := memo[task := w(task) + best];
      MemoOk(g, w, memo') && HopsOk(g, w, memo', if child != "" then nextHop[task := child] else nextHop)
  {
    SettleValue(g, w, task, memo, best, child);
    MemoGrows(g, w, memo, task, w(task) + best);
    if child == "" {
      HopsStay(g, w, memo, nextHop, task, w(task) + best);
    } else {
      HopsGrow(g, w, memo, nextHop, task, w(task) + best, child);
    }
  }

  lemma WeightAppend(w: Task -> real, p: seq<Task>, t: Task)
    ensures Weight(w, p + [t]) == Weight(w, p) + w(t)
    decreases |p|
  {
    if p == [] {
      assert Weight(w, [t]) == w(t) + Weight(w, [t][1..]);
      assert p + [t] == [t];
    } else {
      WeightAppend(w, p[1..], t);
      assert (p + [t])[1..] == p[1..] + [t];
    }
  }

  lemma {:induction false} WeightConcat(w: Task -> real, p: seq<Task>, q: seq<Task>)
    ensures Weight(w, p + q) == Weight(w, p) + Weight(w, q)
    decreases |p|
  {
    if p == [] {
      assert p + q == q;
    } else {
      WeightConcat(w, p[1..], q);
      assert (p + q)[1..] == p[1..] + q;
    }
  }

  lemma {:induction false} WeightNotNegative(w: Task -> real, p: seq<Task>)
    requires forall t :: t in p ==> w(t) >= 0.0
    ensures Weight(w, p) >= 0.0
    decreases |p|
  {
    if p != [] { WeightNotNegative(w, p[1..]); }
  }

  lemma LinkWalk(g: Graph<Task>, p: seq<Task>, t: Task)
    requires Walk(g, p) && t in Deps(g, p[|p| - 1])
    ensures Walk(g, p + [t])
  {
    WalkPrepend(g, p[|p| - 1], [t]);
    WalkJoin(g, p, [p[|p| - 1]] + [t]);
    assert p + ([p[|p| - 1]] + [t])[1..] == p + [t];
  }

  // ---------------------------------------------------------------- the whole search

  /** A real chain from a chosen root, at least as heavy as every chain from any chosen root. */
  ghost predicate IsCriticalPath(g: Graph<Task>, weight: Task -> real, path: seq<Task>) {
    && Walk(g, path) && path[0] in ChosenRoots(g)
    && (forall p :: Walk(g, p) && p[0] in ChosenRoots(g) ==> Weight(weight, p) <= Weight(weight, path))
  }

  ghost predicate IsCutOff(g: Graph<Task>, weight: Task -> real, path: seq<Task>) {
    exists q :: WalkFrom(g, "", q) && IsCriticalPath(g, weight, path + q)
  }

  /**
    What the search returns: a critical path, or the part of one before a task named "", which
    the search also uses as its marker for "no hop".
   */
  ghost predicate IsFoundPath(g: Graph<Task>, weight: Task -> real, path: seq<Task>) {
    "" !in path && (IsCriticalPath(g, weight, path) || IsCutOff(g, weight, path))
  }

  /** The hops from a root ended: their weight is all of the root's value, or all but that of a task named "". */
  ghost predicate HopsEnd(g: Graph<Task>, w: Task -> real, root: Task, value: real, memo: map<Task, real>,
                          path: seq<Task>)
  {
    && "" !in path && (path != [] ==> WalkFrom(g, root, path)) && (path == [] ==> root == "")
    && (Weight(w, path) == value ||
        ("" in memo && Weight(w, path) + memo[""] == value && (path == [] || "" in Deps(g, path[|path| - 1]))))
  }

  lemma RootIsNode(g: Graph<Task>, t: Task)
    requires t in ChosenRoots(g)
    ensures t in Nodes(g)
  {
  }

  lemma JoinWalks(g: Graph<Task>, p: seq<Task>, q: seq<Task>)
    requires Walk(g, p) && Walk(g, q) && q[0] in Deps(g, p[|p| - 1])
    ensures Walk(g, p + q)
  {
    WalkPrepend(g, p[|p| - 1], q);
    WalkJoin(g, p, [p[|p| - 1]] + q);
    assert p + ([p[|p| - 1]] + q)[1..] == p + q;
  }

  /** Following the hops from a best root finds a path. */
  lemma HopsEndFound(g: Graph<Task>, w: Task -> real, root: Task, memo: map<Task, real>, path: seq<Task>)
    requires MemoOk(g, w, memo) && root in ChosenRoots(g) && root in memo
    requires forall p :: Walk(g, p) && p[0] in ChosenRoots(g) ==> Weight(w, p) <= memo[root]
    requires HopsEnd(g, w, root, memo[root], memo, path)
    ensures IsFoundPath(g, w, path)
  {
    if Weight(w, path) != memo[root] || path == [] {
      assert "" in memo;
      assert Settled(g, w, "", memo[""]);
      var q :| WalkFrom(g, "", q) && Weight(w, q) == memo[""];
      if path == [] {
        assert path + q == q;
      } else {
        JoinWalks(g, path, q);
        WeightConcat(w, path, q);
      }
      assert IsCriticalPath(g, w, path + q);
    }
  }

  lemma FoundPathIsWalk(g: Graph<Task>, w: Task -> real, path: seq<Task>)
    requires IsFoundPath(g, w, path) && path != []
    ensures Walk(g, path) && path[0] in ChosenRoots(g)
  {
    if !IsCriticalPath(g, w, path) {
      var q :| WalkFrom(g, "", q) && IsCriticalPath(g, w, path + q);
      WalkSlice(g, path + q, 0, |path|);
      assert (path + q)[0..|path|] == path;
    }
  }

  lemma FoundPathIsCritical(g: Graph<Task>, weight: Task -> real, path: seq<Task>)
    requires IsFoundPath(g, weight, path) && "" !in Nodes(g)
    ensures IsCriticalPath(g, weight, path)
  {
    if q :| WalkFrom(g, "", q) && IsCriticalPath(g, weight, path + q) {
      assert (path + q)[|path|] == "" && "" in path + q;
      RootIsNode(g, (path + q)[0]);
      WalkInNodes(g, path + q);
    }
  }

  // ---------------------------------------------------------------- when a found path is critical

  /** Some chain from the task has a positive weight. */
  ghost predicate Gains(g: Graph<Task>, w: Task -> real, t: Task) {
    exists q :: WalkFrom(g, t, q) && Weight(w, q) > 0.0
  }

  /** A critical path that goes through a task named "" loses nothing when it is cut there. */
  ghost predicate CutIsFree(g: Graph<Task>, w: Task -> real, p: seq<Task>) {
    "" in p ==> p[0] != "" && !Gains(g, w, "")
  }

  /** Where a critical path first meets the name, the part before it is one the search may return. */
  lemma {:induction false} CutBefore(p: seq<Task>) returns (i: nat)
    requires "" in p
    ensures i < |p| && p[i] == "" && "" !in p[..i]
    decreases |p|
  {
    if p[0] == "" {
      i := 0;
    } else {
      var j := CutBefore(p[1..]);
      i := j + 1;
      assert p[..i] == [p[0]] + p[1..][..j];
    }
  }

  lemma {:induction false} WalkStep(g: Graph<Task>, p: seq<Task>, i: nat)
    requires Walk(g, p) && i + 1 < |p|
    ensures p[i + 1] in Deps(g, p[i])
    decreases i
  {
    if i > 0 { WalkStep(g, p[1..], i - 1); }
  }

  lemma CutPathIsFound(g: Graph<Task>, w: Task -> real, p: seq<Task>) returns (path: seq<Task>)
    requires IsCriticalPath(g, w, p) && "" in p && !CutIsFree(g, w, p)
    ensures IsFoundPath(g, w, path) && !IsCriticalPath(g, w, path)
  {
    var i := CutBefore(p);
    path := p[..i];
    assert p == path + p[i..];
    WalkSlice(g, p, i, |p|);
    assert p[i..|p|] == p[i..];
    assert WalkFrom(g, "", p[i..]);
    if path != [] {
      var q :| WalkFrom(g, "", q) && Weight(w, q) > 0.0;
      WalkSlice(g, p, 0, i);
      WalkStep(g, p, i - 1);
      JoinWalks(g, path, q);
      WeightConcat(w, path, q);
    }
  }

  lemma FreeCutIsCritical(g: Graph<Task>, w: Task -> real, path: seq<Task>)
    requires IsFoundPath(g, w, path) && forall p :: IsCriticalPath(g, w, p) ==> CutIsFree(g, w, p)
    ensures IsCriticalPath(g, w, path)
  {
    if q :| WalkFrom(g, "", q) && IsCriticalPath(g, w, path + q) {
      assert (path + q)[|path|] == "" && CutIsFree(g, w, path + q);
      assert path != [] && !(Weight(w, q) > 0.0);
      FoundPathIsWalk(g, w, path);
      WeightConcat(w, path, q);
    }
  }

  /** The search is sure to return a critical path if and only if cutting one before a task named "" costs nothing. */
  lemma FoundIsCriticalIff(g: Graph<Task>, w: Task -> real)
    ensures (forall path :: IsFoundPath(g, w, path) ==> IsCriticalPath(g, w, path)) <==>
            (forall p :: IsCriticalPath(g, w, p) ==> CutIsFree(g, w, p))
  {
    if forall p :: IsCriticalPath(g, w, p) ==> CutIsFree(g, w, p) {
      forall path | IsFoundPath(g, w, path) ensures IsCriticalPath(g, w, path) {
        FreeCutIsCritical(g, w, path);
      }
    } else {
      var p :| IsCriticalPath(g, w, p) && !CutIsFree(g, w, p);
      var path := CutPathIsFound(g, w, p);
    }
  }

  /** When a task of that name would take time, that is if and only if no critical path goes through one. */
  lemma FoundIsCriticalIffAvoided(g: Graph<Task>, w: Task -> real)
    requires w("") > 0.0
    ensures (forall path :: IsFoundPath(g, w, path) ==> IsCriticalPath(g, w, path)) <==>
            (forall p :: IsCriticalPath(g, w, p) ==> "" !in p)
  {
    FoundIsCriticalIff(g, w);
    assert Weight(w, [""]) == w("") + Weight(w, [""][1..]);
    assert WalkFrom(g, "", [""]) && Gains(g, w, "");
  }

  /** A task that depends only on one named "": the path that is found is not critical. */
  lemma EmptyNameExample(w: Task -> real)
    requires w("") > 0.0
    ensures var g: Graph<Task> := map["a" := [""]];
      IsFoundPath(g, w, ["a"]) && !IsCriticalPath(g, w, ["a"]) &&
      forall path :: IsFoundPath(g, w, path) ==> path == ["a"]
  {
    var g: Graph<Task> := map["a" := [""]];
    var children := set k, c | k in g && c in g[k] :: c;
    assert "a" in g && "" in g["a"] && "" in children && "a" !in children;
    assert ChosenRoots(g) == {"a"};
    forall p | Walk(g, p) && p[0] == "a" ensures p == ["a"] || p == ["a", ""] {
      if |p| > 1 {
        assert p[1] in Deps(g, "a") && Walk(g, p[1..]) && Deps(g, p[1]) == [];
        assert |p[1..]| == 1;
      }
    }
    var full := ["a", ""];
    WeightConcat(w, ["a"], [""]);
    assert ["a"] + [""] == full && Weight(w, [""]) == w("") + Weight(w, [""][1..]);
    WalkPrepend(g, "a", [""]);
    assert IsCriticalPath(g, w, full) && WalkFrom(g, "", [""]);
    forall path | IsFoundPath(g, w, path) ensures path == ["a"] {
      if !IsCriticalPath(g, w, path) {
        var q :| WalkFrom(g, "", q) && IsCriticalPath(g, w, path + q);
        assert path == (path + q)[..|path|] && (path + q)[|path|] == "";
      }
    }
  }
}
