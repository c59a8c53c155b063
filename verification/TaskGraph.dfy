/** The graph a backend builds from its task list: ordered nodes with fingerprints, then the dependency edges. */
module TaskGraph {
  import opened Graphs
  import opened DagOrder
  import opened TaskLists
  import opened Fingerprints
  import opened FingerprintTrees
  import opened NameEdges
  import opened NodeTrees
  import opened TaskNodes
  import BG = BuildGraph

  datatype Outcome = Built | OrderFailed(order: OrderError) | GraphFailed(graph: BG.GraphError)

  /** Looks up the fingerprints of a task's dependencies; every lookup is proved to succeed, whatever the names. */
  method MemberFingerprints(ghost hash: string -> string, ghost base: string, ghost ts: seq<TaskSpec>,
                            deps: seq<string>, ghost nodes: seq<TaskNode>, ghost nodeMap: map<string, nat>,
                            depFps: map<string, string>)
    returns (fps: seq<string>)
    requires NodesSoFar(hash, base, ts, nodes, nodeMap, depFps) && |nodes| < |ts| && deps == ts[|nodes|].deps
    ensures AreFingerprints(deps, nodes, nodeMap, fps)
  {
    fps := [];
    DepsAreFound(hash, base, ts, nodes, nodeMap, depFps);
    for j := 0 to |deps|
      invariant AreFingerprints(deps[..j], nodes, nodeMap, fps)
    {
      fps := fps + [depFps[deps[j]]];
    }
    assert deps[..|deps|] == deps;
  }

  /** Adds a node for every task in order, each with the digest of the tree behind it, whatever the names. */
  method AddNodes(hash: string -> string, base: string, tasks: seq<TaskSpec>, order: seq<nat>,
                  graph: BG.BuildGraph<TaskNode>)
    returns (nodeMap: map<string, nat>)
    requires AllKnown(tasks) && IsOrder(tasks, order)
    requires graph.Valid() && graph.nodes == []
    modifies graph
    ensures graph.Valid() && |graph.nodes| == |order| && Edgeless(graph.deps, graph.dependents, |order|)
    ensures NodesMatch(InOrder(tasks, order), graph.nodes, nodeMap)
    ensures AllDigested(hash, base, InOrder(tasks, order), graph.nodes)
  {
    ghost var ts := InOrder(tasks, order);
    nodeMap := map[];
    var depFps: map<string, string> := map[];
    OrderResolves(tasks, order);
    NoNodesYet(hash, base, ts);
    for k := 0 to |order|
      invariant graph.Valid() && |graph.nodes| == k && Edgeless(graph.deps, graph.dependents, k)
      invariant NodesSoFar(hash, base, ts, graph.nodes, nodeMap, depFps)
    {
      var idx := order[k];
      var name := tasks[idx].name;
      var memberFps := MemberFingerprints(hash, base, ts, tasks[idx].deps, graph.nodes, nodeMap, depFps);
      var fp := CombineFingerprints(hash, TaskPrefix(base, name), memberFps);
      NextNode(hash, base, ts, graph.nodes, nodeMap, depFps, memberFps);
      EdgelessMore(graph.deps, graph.dependents, k);
      var nodeId := graph.AddNode(TaskNode(name, fp));
      nodeMap := nodeMap[name := nodeId];
      depFps := depFps[name := fp];
    }
  }

  method AddTaskEdge(dep: string, name: string, nodeMap: map<string, nat>, graph: BG.BuildGraph<TaskNode>,
                     ghost rising: bool, ghost wanted: Graph<string>, ghost sofar: Graph<string>)
    returns (r: BG.Status)
    requires graph.Valid() && Recorded(graph.nodes, graph.deps, nodeMap, wanted, sofar)
    requires name in nodeMap && dep in nodeMap && dep in Deps(wanted, name)
    requires rising ==> Upward(graph.dependents) && nodeMap[dep] < nodeMap[name]
    modifies graph
    ensures graph.Valid() && graph.nodes == old(graph.nodes)
    ensures Named(NamesOf(graph.nodes), graph.deps, wanted)
    ensures if r.Done? then Recorded(graph.nodes, graph.deps, nodeMap, wanted, WithDeps(sofar, name, [dep]))
      else !Acyclic(wanted) && RefusalIsRight(NamesOf(graph.nodes), wanted, r.error)
    ensures rising ==> r.Done? && Upward(graph.dependents)
    ensures r.Done? ==> graph.deps == var v := nodeMap[name]; old(graph.deps)[v := old(graph.deps)[v] + [nodeMap[dep]]]
  {
    var u, v := nodeMap[dep], nodeMap[name];
    ghost var nodes, deps, dependents := graph.nodes, graph.deps, graph.dependents;
    if Reaches<nat>(BG.Edges(dependents), v, u) {
      RefusedIsCycle(NamesOf(nodes), deps, dependents, wanted, u, v);
      if rising { UpwardReaches(dependents, v, u); }
    }
    r := graph.AddDependency(u, v);
    NamedEdge(NamesOf(nodes), deps, wanted, u, v);
    PresentEdge(nodeMap, deps, sofar, name, dep);
  }

  /**
    Adds one task's edges. An edge is refused only when the names have a cycle; with rising
    places none is. `wanted` is the graph of all names, `sofar` the part already recorded.
   */
  method AddTaskEdges(deps: seq<string>, name: string, nodeMap: map<string, nat>, graph: BG.BuildGraph<TaskNode>,
                      ghost rising: bool, ghost wanted: Graph<string>, ghost sofar: Graph<string>)
    returns (r: BG.Status)
    requires graph.Valid() && Recorded(graph.nodes, graph.deps, nodeMap, wanted, sofar)
    requires CanAddEdges(deps, name, nodeMap, wanted, rising, graph.dependents, graph.deps)
    modifies graph
    ensures graph.Valid() && graph.nodes == old(graph.nodes)
    ensures Named(NamesOf(graph.nodes), graph.deps, wanted)
    ensures if r.Done? then Recorded(graph.nodes, graph.deps, nodeMap, wanted, WithDeps(sofar, name, deps))
      else !Acyclic(wanted) && RefusalIsRight(NamesOf(graph.nodes), wanted, r.error)
    ensures rising ==> r.Done?
    ensures RowIs(rising, graph.dependents, old(graph.deps), graph.deps, nodeMap[name], DepIndices(nodeMap, deps))
  {
    var v, indices := nodeMap[name], DepIndices(nodeMap, deps);
    ghost var nodes, before := graph.nodes, graph.deps;
    NothingAdded(nodes, before, nodeMap, wanted, sofar, name, deps);
    RowStart(rising, graph.dependents, before, v, indices);
    for j := 0 to |deps|
      invariant graph.Valid() && graph.nodes == nodes
      invariant Recorded(nodes, graph.deps, nodeMap, wanted, WithDeps(sofar, name, deps[..j]))
      invariant RowIs(rising, graph.dependents, before, graph.deps, v, indices[..j])
    {
      ghost var dependents, table := graph.dependents, graph.deps;
      r := AddTaskEdge(deps[j], name, nodeMap, graph, rising, wanted, WithDeps(sofar, name, deps[..j]));
      if r.Failed? {
        return;
      }
      OneMoreDep(sofar, name, deps, j);
      RowGrows(rising, dependents, before, table, v, indices, j, graph.dependents, graph.deps);
    }
    assert deps[..|deps|] == deps && indices[..|deps|] == indices;
    return BG.Done;
  }

  /** Adds all edges: accepted all together if and only if the names have no cycle. */
  method AddEdges(tasks: seq<TaskSpec>, nodeMap: map<string, nat>, graph: BG.BuildGraph<TaskNode>)
    returns (r: BG.Status)
    requires graph.Valid() && Edgeless(graph.deps, graph.dependents, |graph.nodes|)
    requires Finds(nodeMap, graph.nodes) && AllPlaced(tasks, nodeMap)
    modifies graph
    ensures graph.Valid() && graph.nodes == old(graph.nodes)
    ensures r.Done? <==> Acyclic(NameGraph(tasks))
    ensures r.Failed? ==> RefusalIsRight(NamesOf(graph.nodes), NameGraph(tasks), r.error)
    ensures Named(NamesOf(graph.nodes), graph.deps, NameGraph(tasks))
    ensures r.Done? ==> Present(nodeMap, graph.deps, NameGraph(tasks))
    ensures DistinctNames(tasks) ==> r.Done? && EdgesOf(tasks, nodeMap, graph.deps, |tasks|)
  {
    ghost var nodes, wanted := graph.nodes, NameGraph(tasks);
    NoEdges(nodes, graph.deps, graph.dependents, nodeMap, tasks);
    for i := 0 to |tasks|
      invariant graph.Valid() && graph.nodes == nodes
      invariant Recorded(nodes, graph.deps, nodeMap, wanted, NameGraph(tasks[..i]))
      invariant EdgesSoFar(tasks, nodeMap, graph.dependents, graph.deps, i)
    {
      var task := tasks[i];
      ghost var dependents, deps := graph.dependents, graph.deps;
      NextTaskReady(tasks, nodeMap, dependents, deps, i);
      r := AddTaskEdges(task.deps, task.name, nodeMap, graph, DistinctNames(tasks), wanted, NameGraph(tasks[..i]));
      if r.Failed? {
        return;
      }
      NextTask(tasks, i);
      EdgesNext(tasks, nodes, nodeMap, dependents, deps, graph.dependents, graph.deps, i);
    }
    assert tasks[..|tasks|] == tasks;
    PresentIsAcyclic(nodeMap, graph.deps, graph.dependents, wanted);
    return BG.Done;
  }

  method BuildTaskGraph(hash: string -> string, base: string, tasks: seq<TaskSpec>)
    returns (r: Outcome, graph: BG.BuildGraph<TaskNode>, ghost nodeMap: map<string, nat>, ghost order: seq<nat>)
    ensures fresh(graph) && graph.Valid()
    ensures r.OrderFailed? <==> !(AllKnown(tasks) && Acyclic<nat>(IndexGraph(tasks)))
    ensures r.Built? <==> AllKnown(tasks) && Acyclic<nat>(IndexGraph(tasks)) && Acyclic(NameGraph(tasks))
    ensures r.OrderFailed? ==> ErrorIsRight(tasks, r.order)
    ensures r.GraphFailed? ==> RefusalIsRight(NamesOf(graph.nodes), NameGraph(tasks), r.graph)
    ensures r.Built? ==>
      Named(NamesOf(graph.nodes), graph.deps, NameGraph(tasks)) && Present(nodeMap, graph.deps, NameGraph(tasks))
    ensures !r.OrderFailed? ==>
      IsOrder(tasks, order) && |graph.nodes| == |tasks| && NodesMatch(InOrder(tasks, order), graph.nodes, nodeMap) &&
      AllDigested(hash, base, InOrder(tasks, order), graph.nodes)
    ensures !r.OrderFailed? && DistinctNames(tasks) ==>
      r.Built? && IsTaskGraph(hash, base, tasks, graph.nodes, graph.deps, nodeMap, order)
  {
    graph := new BG.BuildGraph<TaskNode>();
    nodeMap, order := map[], [];
    var resolved := ResolveDagOrder(tasks);
    if resolved.Err? {
      return OrderFailed(resolved.error), graph, nodeMap, order;
    }
    order := resolved.value;
    var places := AddNodes(hash, base, tasks, resolved.value, graph);
    nodeMap := places;
    EveryNameHasNode(tasks, order, graph.nodes, places);
    if DistinctNames(tasks) {
      DigestsAreTaskDigests(hash, base, tasks, order, graph.nodes);
    }
    var edges := AddEdges(tasks, places, graph);
    if edges.Failed? {
      return GraphFailed(edges.error), graph, nodeMap, order;
    }
    return Built, graph, nodeMap, order;
  }
}
