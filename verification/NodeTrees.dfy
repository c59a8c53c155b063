/** The nodes a list of tasks is turned into one after the other, and what each node's fingerprint stands for. */
module NodeTrees {
  import opened Fingerprints
  import opened FingerprintTrees
  import opened Options
  import opened TaskLists

  datatype TaskNode = TaskNode(name: string, fingerprint: string)

  /** The latest of the first k tasks that has the name. */
  ghost function Latest(ts: seq<TaskSpec>, k: nat, name: string): (r: Option<nat>)
    requires k <= |ts|
    ensures r.Some? ==> r.value < k && ts[r.value].name == name
    ensures r.None? ==> forall q :: 0 <= q < k ==> ts[q].name != name
  {
    if k == 0 then None else if ts[k - 1].name == name then Some(k - 1) else Latest(ts, k - 1, name)
  }

  /** Every dependency is the name of an earlier task. */
  ghost predicate Resolved(ts: seq<TaskSpec>) {
    forall k: nat, j: nat {:trigger ts[k].deps[j]} :: k < |ts| && j < |ts[k].deps| ==>
      Latest(ts, k, ts[k].deps[j]).Some?
  }

  // ---------------------------------------------------------------- nodes and tables

  /** The map finds, for every name, the latest of the first k tasks that has it. */
  ghost predicate FindsLatest(ts: seq<TaskSpec>, k: nat, nodeMap: map<string, nat>)
    requires k <= |ts|
  {
    forall name {:trigger name in nodeMap} {:trigger Latest(ts, k, name)} ::
      Latest(ts, k, name) == if name in nodeMap then Some(nodeMap[name]) else None
  }

  /** The nodes stand for the first tasks, and the map finds the latest node of every name. */
  ghost predicate NodesMatch(ts: seq<TaskSpec>, nodes: seq<TaskNode>, nodeMap: map<string, nat>) {
    && |nodes| <= |ts|
    && (forall q :: 0 <= q < |nodes| ==> nodes[q].name == ts[q].name)
    && FindsLatest(ts, |nodes|, nodeMap)
  }

  /** The map finds nodes of the names it holds. */
  ghost predicate Finds(nodeMap: map<string, nat>, nodes: seq<TaskNode>) {
    forall name :: name in nodeMap ==> nodeMap[name] < |nodes| && nodes[nodeMap[name]].name == name
  }

  lemma NamesAreFound(ts: seq<TaskSpec>, nodes: seq<TaskNode>, nodeMap: map<string, nat>)
    requires NodesMatch(ts, nodes, nodeMap)
    ensures Finds(nodeMap, nodes)
    ensures forall q :: 0 <= q < |nodes| ==> nodes[q].name in nodeMap
  {
    forall q | 0 <= q < |nodes| ensures nodes[q].name in nodeMap {
      assert Latest(ts, |nodes|, nodes[q].name).Some?;
    }
  }

  /** The fingerprint table agrees with the nodes. */
  ghost predicate Synced(nodes: seq<TaskNode>, nodeMap: map<string, nat>, depFps: map<string, string>) {
    depFps.Keys == nodeMap.Keys &&
    forall name :: name in nodeMap ==> nodeMap[name] < |nodes| && depFps[name] == nodes[nodeMap[name]].fingerprint
  }

  /** The listed values are the fingerprints of the nodes that the map finds for the names. */
  ghost predicate AreFingerprints(names: seq<string>, nodes: seq<TaskNode>, nodeMap: map<string, nat>, fps: seq<string>)
  {
    |fps| == |names| && forall j :: 0 <= j < |names| ==>
      names[j] in nodeMap && nodeMap[names[j]] < |nodes| && fps[j] == nodes[nodeMap[names[j]]].fingerprint
  }

  // ---------------------------------------------------------------- the tree behind a node

  /** Below the k-th node stands, for each dependency, the tree of the latest earlier node of that name. */
  ghost function NodeTree(ts: seq<TaskSpec>, k: nat): DepTree
    requires Resolved(ts) && k < |ts|
    decreases k
  {
    var deps := ts[k].deps;
    Tree(ts[k].name, seq(|deps|, j requires 0 <= j < |deps| => NodeTree(ts, Latest(ts, k, ts[k].deps[j]).value)))
  }

  /** The fingerprint is the digest of the tree behind the k-th node. */
  ghost predicate IsDigested(hash: string -> string, base: string, ts: seq<TaskSpec>, k: nat, fp: string) {
    Resolved(ts) && k < |ts| && fp == Digest(hash, base, NodeTree(ts, k))
  }

  ghost predicate AllDigested(hash: string -> string, base: string, ts: seq<TaskSpec>, nodes: seq<TaskNode>) {
    forall q: nat {:trigger nodes[q]} :: q < |nodes| ==> IsDigested(hash, base, ts, q, nodes[q].fingerprint)
  }

  lemma {:induction false} DigestsAre(hash: string -> string, base: string, ts: seq<DepTree>, fps: seq<string>)
    requires |fps| == |ts| && forall j :: 0 <= j < |ts| ==> fps[j] == Digest(hash, base, ts[j])
    ensures fps == Digests(hash, base, ts)
    decreases |ts|
  {
    if ts != [] {
      DigestsAre(hash, base, ts[1..], fps[1..]);
      assert fps == [fps[0]] + fps[1..];
    }
  }

  /** Combining the fingerprints found for the dependencies gives the digest of the tree behind the next node. */
  lemma CombinedIsDigest(hash: string -> string, base: string, ts: seq<TaskSpec>, nodes: seq<TaskNode>,
                         nodeMap: map<string, nat>, fps: seq<string>)
    requires Resolved(ts) && |nodes| < |ts| && FindsLatest(ts, |nodes|, nodeMap) && AllDigested(hash, base, ts, nodes)
    requires AreFingerprints(ts[|nodes|].deps, nodes, nodeMap, fps)
    ensures IsDigested(hash, base, ts, |nodes|, hash(Encode(TaskPrefix(base, ts[|nodes|].name), fps)))
  {
    var k := |nodes|;
    var deps, t := ts[k].deps, NodeTree(ts, k);
    forall j | 0 <= j < |deps| ensures fps[j] == Digest(hash, base, t.deps[j]) {
      assert Latest(ts, k, ts[k].deps[j]) == Some(nodeMap[deps[j]]);
      assert IsDigested(hash, base, ts, nodeMap[deps[j]], nodes[nodeMap[deps[j]]].fingerprint);
    }
    DigestsAre(hash, base, t.deps, fps);
  }

  // ---------------------------------------------------------------- one node after the other

  /** Halfway: the first tasks have their nodes, digested, and both tables know them. */
  ghost predicate NodesSoFar(hash: string -> string, base: string, ts: seq<TaskSpec>, nodes: seq<TaskNode>,
                             nodeMap: map<string, nat>, depFps: map<string, string>) {
    Resolved(ts) && NodesMatch(ts, nodes, nodeMap) && Synced(nodes, nodeMap, depFps) &&
      AllDigested(hash, base, ts, nodes)
  }

  lemma NoNodesYet(hash: string -> string, base: string, ts: seq<TaskSpec>)
    requires Resolved(ts)
    ensures NodesSoFar(hash, base, ts, [], map[], map[])
  {
  }

  lemma DepsAreFound(hash: string -> string, base: string, ts: seq<TaskSpec>, nodes: seq<TaskNode>,
                     nodeMap: map<string, nat>, depFps: map<string, string>)
    requires NodesSoFar(hash, base, ts, nodes, nodeMap, depFps) && |nodes| < |ts|
    ensures forall d :: d in ts[|nodes|].deps ==>
      d in depFps && d in nodeMap && nodeMap[d] < |nodes| && depFps[d] == nodes[nodeMap[d]].fingerprint
  {
    forall d | d in ts[|nodes|].deps ensures d in nodeMap {
      var j: nat :| j < |ts[|nodes|].deps| && ts[|nodes|].deps[j] == d;
      assert Latest(ts, |nodes|, ts[|nodes|].deps[j]).Some?;
    }
  }

  lemma NextMatches(ts: seq<TaskSpec>, nodes: seq<TaskNode>, nodeMap: map<string, nat>, fp: string)
    requires NodesMatch(ts, nodes, nodeMap) && |nodes| < |ts|
    ensures var name := ts[|nodes|].name; NodesMatch(ts, nodes + [TaskNode(name, fp)], nodeMap[name := |nodes|])
  {
  }

  lemma NextSynced(nodes: seq<TaskNode>, nodeMap: map<string, nat>, depFps: map<string, string>, node: TaskNode)
    requires Synced(nodes, nodeMap, depFps)
    ensures Synced(nodes + [node], nodeMap[node.name := |nodes|], depFps[node.name := node.fingerprint])
  {
  }

  lemma NextDigested(hash: string -> string, base: string, ts: seq<TaskSpec>, nodes: seq<TaskNode>, node: TaskNode)
    requires AllDigested(hash, base, ts, nodes) && IsDigested(hash, base, ts, |nodes|, node.fingerprint)
    ensures AllDigested(hash, base, ts, nodes + [node])
  {
  }

  lemma NextNode(hash: string -> string, base: string, ts: seq<TaskSpec>, nodes: seq<TaskNode>,
                 nodeMap: map<string, nat>, depFps: map<string, string>, fps: seq<string>)
    requires NodesSoFar(hash, base, ts, nodes, nodeMap, depFps) && |nodes| < |ts|
    requires AreFingerprints(ts[|nodes|].deps, nodes, nodeMap, fps)
    ensures var name := ts[|nodes|].name;
      var fp := hash(Encode(TaskPrefix(base, name), fps));
      NodesSoFar(hash, base, ts, nodes + [TaskNode(name, fp)], nodeMap[name := |nodes|], depFps[name := fp])
  {
    var name := ts[|nodes|].name;
    var fp := hash(Encode(TaskPrefix(base, name), fps));
    CombinedIsDigest(hash, base, ts, nodes, nodeMap, fps);
    NextMatches(ts, nodes, nodeMap, fp);
    NextSynced(nodes, nodeMap, depFps, TaskNode(name, fp));
    NextDigested(hash, base, ts, nodes, TaskNode(name, fp));
  }

  /** Nodes of two projects have one fingerprint exactly when base and the trees behind them agree. */
  lemma EqualFingerprintsEqualTrees(hash: string -> string, b1: string, ts1: seq<TaskSpec>, k1: nat, fp1: string,
                                    b2: string, ts2: seq<TaskSpec>, k2: nat, fp2: string)
    requires IsDigested(hash, b1, ts1, k1, fp1) && IsDigested(hash, b2, ts2, k2, fp2) && |b1| == |b2|
    requires CollisionFree(hash, Inputs(hash, b1, NodeTree(ts1, k1)) + Inputs(hash, b2, NodeTree(ts2, k2)))
    ensures fp1 == fp2 <==> b1 == b2 && SameTree(NodeTree(ts1, k1), NodeTree(ts2, k2))
    ensures fp1 == fp2 ==> ts1[k1].name == ts2[k2].name
  {
    var t1, t2 := NodeTree(ts1, k1), NodeTree(ts2, k2);
    FingerprintDeterminesTree(hash, Inputs(hash, b1, t1) + Inputs(hash, b2, t2), b1, t1, b2, t2);
  }
}
