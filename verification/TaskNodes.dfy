/** What the nodes and edges of a task graph say about the task list they were built from. */
module TaskNodes {
  import opened Graphs
  import opened TaskLists
  import opened FingerprintTrees
  import opened NameEdges
  import opened NodeTrees
  import BG = BuildGraph

  ghost predicate DistinctNames(tasks: seq<TaskSpec>) {
    forall i, j :: 0 <= i < j < |tasks| ==> tasks[i].name != tasks[j].name
  }

  /** t is the transitive dependency tree of task i. */
  ghost predicate IsTreeOf(tasks: seq<TaskSpec>, i: nat, t: DepTree)
    requires AllKnown(tasks)
    decreases t
  {
    i < |tasks| && t.name == tasks[i].name && |t.deps| == |tasks[i].deps| &&
    forall j :: 0 <= j < |t.deps| ==> IsTreeOf(tasks, KeyIndex(tasks)[tasks[i].deps[j]], t.deps[j])
  }

  lemma {:induction false} TreeIsUnique(tasks: seq<TaskSpec>, i: nat, t: DepTree, u: DepTree)
    requires AllKnown(tasks) && IsTreeOf(tasks, i, t) && IsTreeOf(tasks, i, u)
    ensures t == u
    decreases t
  {
    forall j | 0 <= j < |t.deps| ensures t.deps[j] == u.deps[j] {
      TreeIsUnique(tasks, KeyIndex(tasks)[tasks[i].deps[j]], t.deps[j], u.deps[j]);
    }
  }

  // ---------------------------------------------------------------- tasks in order

  ghost function InOrder(tasks: seq<TaskSpec>, order: seq<nat>): (r: seq<TaskSpec>)
    requires forall q :: 0 <= q < |order| ==> order[q] < |tasks|
    ensures |r| == |order| && forall q :: 0 <= q < |order| ==> r[q] == tasks[order[q]]
  {
    seq(|order|, q requires 0 <= q < |order| => tasks[order[q]])
  }

  lemma NameFindsPlace(tasks: seq<TaskSpec>, order: seq<nat>, nodes: seq<TaskNode>, nodeMap: map<string, nat>, q: nat)
    requires AllKnown(tasks) && IsOrder(tasks, order) && NodesMatch(InOrder(tasks, order), nodes, nodeMap)
    requires DistinctNames(tasks) && q < |nodes|
    ensures nodes[q].name in nodeMap && nodeMap[nodes[q].name] == q
  {
    NamesAreFound(InOrder(tasks, order), nodes, nodeMap);
    var p := nodeMap[nodes[q].name];
    assert tasks[order[p]].name == tasks[order[q]].name;
    assert order[p] == order[q];
  }

  /** A dependency of the k-th task in the order stands at an earlier place. */
  lemma DepPlace(tasks: seq<TaskSpec>, order: seq<nat>, k: nat, j: nat) returns (q: nat)
    requires AllKnown(tasks) && IsOrder(tasks, order) && k < |order| && j < |tasks[order[k]].deps|
    ensures q < k && order[q] == KeyIndex(tasks)[tasks[order[k]].deps[j]] &&
      tasks[order[q]].name == tasks[order[k]].deps[j]
  {
    var i := order[k];
    assert i in order;
    var dep := tasks[i].deps[j];
    var d := KeyIndex(tasks)[dep];
    KeyIndexNames(tasks, dep);
    assert DepIndices(KeyIndex(tasks), tasks[i].deps)[j] == d;
    assert d in Deps(IndexGraph(tasks), order[k]);
    assert d in order[..k];
    q :| 0 <= q < k && order[q] == d;
  }

  /** An order resolves every dependency. */
  lemma OrderResolves(tasks: seq<TaskSpec>, order: seq<nat>)
    requires AllKnown(tasks) && IsOrder(tasks, order)
    ensures Resolved(InOrder(tasks, order))
  {
    var ts := InOrder(tasks, order);
    forall k: nat, j: nat {:trigger ts[k].deps[j]} | k < |ts| && j < |ts[k].deps|
      ensures Latest(ts, k, ts[k].deps[j]).Some?
    {
      var q := DepPlace(tasks, order, k, j);
      assert ts[q].name == ts[k].deps[j];
    }
  }

  /** With distinct names the tree behind a node is the dependency tree of its task. */
  lemma {:induction false} NodeTreeIsTaskTree(tasks: seq<TaskSpec>, order: seq<nat>, k: nat)
    requires AllKnown(tasks) && IsOrder(tasks, order) && Resolved(InOrder(tasks, order))
    requires DistinctNames(tasks) && k < |order|
    ensures IsTreeOf(tasks, order[k], NodeTree(InOrder(tasks, order), k))
    decreases k
  {
    var ts := InOrder(tasks, order);
    var deps, t := ts[k].deps, NodeTree(ts, k);
    forall j | 0 <= j < |deps| ensures IsTreeOf(tasks, KeyIndex(tasks)[deps[j]], t.deps[j]) {
      var q := DepPlace(tasks, order, k, j);
      var p := Latest(ts, k, ts[k].deps[j]).value;
      NodeTreeIsTaskTree(tasks, order, p);
      assert tasks[order[p]].name == tasks[order[q]].name && order[p] == order[q];
    }
  }

  ghost predicate AllEmpty(lists: seq<seq<nat>>) {
    forall a :: 0 <= a < |lists| ==> lists[a] == []
  }

  /** So many nodes, and no edges in either direction. */
  ghost predicate Edgeless(deps: seq<seq<nat>>, dependents: seq<seq<nat>>, n: nat) {
    |deps| == |dependents| == n && AllEmpty(deps) && AllEmpty(dependents)
  }

  lemma EdgelessMore(deps: seq<seq<nat>>, dependents: seq<seq<nat>>, n: nat)
    requires Edgeless(deps, dependents, n)
    ensures Edgeless(deps + [[]], dependents + [[]], n + 1)
  {
  }

  /** Every edge leads to a later node. */
  ghost predicate Upward(dependents: seq<seq<nat>>) {
    forall a: nat, b: nat :: a < |dependents| && b in dependents[a] ==> a < b
  }

  lemma {:induction false} UpwardWalk(dependents: seq<seq<nat>>, p: seq<nat>)
    requires Upward(dependents) && Walk(BG.Edges(dependents), p)
    ensures p[0] <= p[|p| - 1]
    decreases |p|
  {
    if |p| > 1 { UpwardWalk(dependents, p[1..]); }
  }

  lemma UpwardReaches(dependents: seq<seq<nat>>, u: nat, v: nat)
    requires Upward(dependents) && Reaches<nat>(BG.Edges(dependents), u, v)
    ensures u <= v
  {
    if u != v {
      var p: seq<nat> :| WalkFrom(BG.Edges(dependents), u, p) && |p| >= 2 && p[|p| - 1] == v;
      UpwardWalk(dependents, p);
    }
  }

  /** The place of every task's node is later than the places of its dependencies' nodes. */
  ghost predicate PlacesRise(tasks: seq<TaskSpec>, nodeMap: map<string, nat>) {
    forall i, d :: 0 <= i < |tasks| && d in tasks[i].deps ==>
      d in nodeMap && tasks[i].name in nodeMap && nodeMap[d] < nodeMap[tasks[i].name]
  }

  /** All names have nodes, and with distinct names dependencies have earlier ones. */
  ghost predicate AllPlaced(tasks: seq<TaskSpec>, nodeMap: map<string, nat>) {
    && (forall i :: 0 <= i < |tasks| ==> tasks[i].name in nodeMap)
    && (forall i, d :: 0 <= i < |tasks| && d in tasks[i].deps ==> d in nodeMap)
    && (DistinctNames(tasks) ==> PlacesRise(tasks, nodeMap))
  }

  lemma TaskHasPlace(tasks: seq<TaskSpec>, order: seq<nat>, nodes: seq<TaskNode>, nodeMap: map<string, nat>, i: nat)
    returns (q: nat)
    requires AllKnown(tasks) && IsOrder(tasks, order) && i < |tasks|
    requires NodesMatch(InOrder(tasks, order), nodes, nodeMap) && |nodes| == |order|
    ensures q < |order| && order[q] == i && tasks[i].name in nodeMap
  {
    assert i in order;
    q :| 0 <= q < |order| && order[q] == i;
    NamesAreFound(InOrder(tasks, order), nodes, nodeMap);
    assert nodes[q].name == tasks[i].name;
  }

  lemma EveryNameHasNode(tasks: seq<TaskSpec>, order: seq<nat>, nodes: seq<TaskNode>, nodeMap: map<string, nat>)
    requires AllKnown(tasks) && IsOrder(tasks, order)
    requires NodesMatch(InOrder(tasks, order), nodes, nodeMap) && |nodes| == |order|
    ensures Finds(nodeMap, nodes) && AllPlaced(tasks, nodeMap)
  {
    NamesAreFound(InOrder(tasks, order), nodes, nodeMap);
    forall i: nat | i < |tasks| ensures tasks[i].name in nodeMap {
      var q := TaskHasPlace(tasks, order, nodes, nodeMap, i);
    }
    forall i: nat, d | i < |tasks| && d in tasks[i].deps
      ensures d in nodeMap && (DistinctNames(tasks) ==> nodeMap[d] < nodeMap[tasks[i].name])
    {
      var k := TaskHasPlace(tasks, order, nodes, nodeMap, i);
      var j :| 0 <= j < |tasks[i].deps| && tasks[i].deps[j] == d;
      var q := DepPlace(tasks, order, k, j);
      assert nodes[q].name == d;
      if DistinctNames(tasks) {
        NameFindsPlace(tasks, order, nodes, nodeMap, q);
        NameFindsPlace(tasks, order, nodes, nodeMap, k);
      }
    }
  }

  /** The edges recorded for the first n tasks, in list order, and none for the others. */
  ghost predicate EdgesOf(tasks: seq<TaskSpec>, nodeMap: map<string, nat>, deps: seq<seq<nat>>, n: nat) {
    forall i :: 0 <= i < |tasks| ==>
      && tasks[i].name in nodeMap && nodeMap[tasks[i].name] < |deps|
      && (forall d :: d in tasks[i].deps ==> d in nodeMap)
      && deps[nodeMap[tasks[i].name]] == if i < n then DepIndices(nodeMap, tasks[i].deps) else []
  }

  lemma PlacesDiffer(tasks: seq<TaskSpec>, nodes: seq<TaskNode>, nodeMap: map<string, nat>)
    requires DistinctNames(tasks) && Finds(nodeMap, nodes)
    requires forall i :: 0 <= i < |tasks| ==> tasks[i].name in nodeMap
    ensures forall i, j :: 0 <= i < j < |tasks| ==> nodeMap[tasks[i].name] != nodeMap[tasks[j].name]
  {
  }

  /** Halfway, with distinct names: edges lead upward and are those of the first i tasks. */
  ghost predicate EdgesSoFar(tasks: seq<TaskSpec>, nodeMap: map<string, nat>, dependents: seq<seq<nat>>,
                             deps: seq<seq<nat>>, i: nat) {
    DistinctNames(tasks) ==> Upward(dependents) && EdgesOf(tasks, nodeMap, deps, i)
  }

  /**
    All names have nodes and are wanted; with rising places the task comes after its dependencies and has no
    edge yet.
   */
  ghost predicate CanAddEdges(deps: seq<string>, name: string, nodeMap: map<string, nat>, wanted: Graph<string>,
                              rising: bool, dependents: seq<seq<nat>>, table: seq<seq<nat>>) {
    && name in nodeMap && (forall d :: d in deps ==> d in nodeMap && d in Deps(wanted, name))
    && (rising ==> Upward(dependents) && nodeMap[name] < |table| && table[nodeMap[name]] == [])
    && (rising ==> forall d :: d in deps ==> nodeMap[d] < nodeMap[name])
  }

  /** Everything that adding the edges of the next task needs. */
  lemma NextTaskReady(tasks: seq<TaskSpec>, nodeMap: map<string, nat>, dependents: seq<seq<nat>>, deps: seq<seq<nat>>,
                      i: nat)
    requires AllPlaced(tasks, nodeMap) && i < |tasks| && EdgesSoFar(tasks, nodeMap, dependents, deps, i)
    ensures var task, wanted := tasks[i], NameGraph(tasks);
      CanAddEdges(task.deps, task.name, nodeMap, wanted, DistinctNames(tasks), dependents, deps)
  {
    var task, wanted := tasks[i], NameGraph(tasks);
    forall d | d in task.deps ensures d in Deps(wanted, task.name) {
      TaskIsListed(tasks, i, d);
    }
  }

  /** With rising places the dependents stay upward, and one row of the table holds the listed indices. */
  ghost predicate RowIs(rising: bool, dependents: seq<seq<nat>>, before: seq<seq<nat>>, table: seq<seq<nat>>, v: nat,
                        row: seq<nat>) {
    rising ==> Upward(dependents) && v < |before| && table == before[v := row]
  }

  lemma EdgesNext(tasks: seq<TaskSpec>, nodes: seq<TaskNode>, nodeMap: map<string, nat>, dependents: seq<seq<nat>>,
                  before: seq<seq<nat>>, dependents': seq<seq<nat>>, after: seq<seq<nat>>, i: nat)
    requires AllPlaced(tasks, nodeMap) && Finds(nodeMap, nodes)
    requires i < |tasks| && EdgesSoFar(tasks, nodeMap, dependents, before, i)
    requires RowIs(DistinctNames(tasks), dependents', before, after, nodeMap[tasks[i].name],
                   DepIndices(nodeMap, tasks[i].deps))
    ensures EdgesSoFar(tasks, nodeMap, dependents', after, i + 1)
  {
    if DistinctNames(tasks) { PlacesDiffer(tasks, nodes, nodeMap); }
  }

  ghost function NamesOf(nodes: seq<TaskNode>): seq<string> {
    seq(|nodes|, q requires 0 <= q < |nodes| => nodes[q].name)
  }

  /** Every edge recorded is a wanted one between names, and those so far are recorded. */
  ghost predicate Recorded(nodes: seq<TaskNode>, deps: seq<seq<nat>>, nodeMap: map<string, nat>,
                           wanted: Graph<string>, sofar: Graph<string>) {
    Finds(nodeMap, nodes) && Named(NamesOf(nodes), deps, wanted) && Present(nodeMap, deps, sofar)
  }

  lemma NothingAdded(nodes: seq<TaskNode>, table: seq<seq<nat>>, nodeMap: map<string, nat>,
                     wanted: Graph<string>, sofar: Graph<string>, name: string, deps: seq<string>)
    requires Recorded(nodes, table, nodeMap, wanted, sofar)
    ensures Recorded(nodes, table, nodeMap, wanted, WithDeps(sofar, name, deps[..0]))
  {
    var g' := WithDeps(sofar, name, deps[..0]);
    forall x, d {:trigger d in Deps(g', x)} | d in Deps(g', x)
      ensures x in nodeMap && d in nodeMap && IsEdge(table, nodeMap[x], nodeMap[d])
    {
      assert d in Deps(sofar, x);
    }
  }

  lemma RowStart(rising: bool, dependents: seq<seq<nat>>, table: seq<seq<nat>>, v: nat, indices: seq<nat>)
    requires rising ==> Upward(dependents) && v < |table| && table[v] == []
    ensures RowIs(rising, dependents, table, table, v, indices[..0])
  {
  }

  lemma RowGrows(rising: bool, dependents: seq<seq<nat>>, before: seq<seq<nat>>, table: seq<seq<nat>>, v: nat,
                 indices: seq<nat>, j: nat, dependents': seq<seq<nat>>, table': seq<seq<nat>>)
    requires j < |indices| && v < |table| && RowIs(rising, dependents, before, table, v, indices[..j])
    requires (rising ==> Upward(dependents')) && table' == table[v := table[v] + [indices[j]]]
    ensures RowIs(rising, dependents', before, table', v, indices[..j + 1])
  {
    assert indices[..j + 1] == indices[..j] + [indices[j]];
  }

  lemma NoEdges(nodes: seq<TaskNode>, deps: seq<seq<nat>>, dependents: seq<seq<nat>>, nodeMap: map<string, nat>,
                tasks: seq<TaskSpec>)
    requires Edgeless(deps, dependents, |nodes|)
    requires Finds(nodeMap, nodes) && AllPlaced(tasks, nodeMap)
    ensures Recorded(nodes, deps, nodeMap, NameGraph(tasks), NameGraph(tasks[..0]))
    ensures EdgesSoFar(tasks, nodeMap, dependents, deps, 0)
  {
    assert NameGraph(tasks[..0]) == map[];
  }

  /** The fingerprint is the digest of the task's dependency tree. */
  ghost predicate HasTaskDigest(hash: string -> string, base: string, tasks: seq<TaskSpec>, i: nat, fp: string)
    requires AllKnown(tasks)
  {
    exists t :: IsTreeOf(tasks, i, t) && fp == Digest(hash, base, t)
  }

  /** One node a task, each with the digest of its dependency tree, and exactly the listed dependencies as edges. */
  ghost predicate IsTaskGraph(hash: string -> string, base: string, tasks: seq<TaskSpec>, nodes: seq<TaskNode>,
                              deps: seq<seq<nat>>, nodeMap: map<string, nat>, order: seq<nat>)
    requires AllKnown(tasks) && IsOrder(tasks, order)
  {
    && NodesMatch(InOrder(tasks, order), nodes, nodeMap) && |nodes| == |tasks|
    && (forall q: nat {:trigger nodes[q]} :: q < |nodes| ==>
      HasTaskDigest(hash, base, tasks, order[q], nodes[q].fingerprint))
    && EdgesOf(tasks, nodeMap, deps, |tasks|)
  }

  lemma DigestsAreTaskDigests(hash: string -> string, base: string, tasks: seq<TaskSpec>, order: seq<nat>,
                              nodes: seq<TaskNode>)
    requires AllKnown(tasks) && IsOrder(tasks, order) && DistinctNames(tasks)
    requires |nodes| == |order| && AllDigested(hash, base, InOrder(tasks, order), nodes)
    ensures forall q: nat {:trigger nodes[q]} :: q < |nodes| ==>
      HasTaskDigest(hash, base, tasks, order[q], nodes[q].fingerprint)
  {
    forall q: nat {:trigger nodes[q]} | q < |nodes|
      ensures HasTaskDigest(hash, base, tasks, order[q], nodes[q].fingerprint)
    {
      assert IsDigested(hash, base, InOrder(tasks, order), q, nodes[q].fingerprint);
      NodeTreeIsTaskTree(tasks, order, q);
    }
  }
}
