/** The edges of a task graph by task names, and what they have to do with the edges between nodes. */
module NameEdges {
  import opened Basics
  import opened Graphs
  import opened TaskLists
  import BG = BuildGraph

  function WithDeps(g: Graph<string>, name: string, deps: seq<string>): Graph<string> {
    g[name := Deps(g, name) + deps]
  }

  /** Which names each name depends on, over all tasks of that name. */
  function NameGraph(tasks: seq<TaskSpec>): Graph<string> {
    if tasks == [] then map[]
    else
      var n := |tasks| - 1;
      WithDeps(NameGraph(tasks[..n]), tasks[n].name, tasks[n].deps)
  }

  lemma {:induction false} TaskIsListed(tasks: seq<TaskSpec>, i: nat, dep: string)
    requires i < |tasks| && dep in tasks[i].deps
    ensures dep in Deps(NameGraph(tasks), tasks[i].name)
    decreases |tasks|
  {
    var n := |tasks| - 1;
    if i < n { TaskIsListed(tasks[..n], i, dep); }
  }

  lemma NextTask(tasks: seq<TaskSpec>, i: nat)
    requires i < |tasks|
    ensures NameGraph(tasks[..i + 1]) == WithDeps(NameGraph(tasks[..i]), tasks[i].name, tasks[i].deps)
  {
    assert tasks[..i + 1][..i] == tasks[..i];
  }

  ghost predicate IsEdge(deps: seq<seq<nat>>, x: nat, y: nat) {
    x < |deps| && y in deps[x]
  }

  /** Every edge between nodes is one between their names. */
  ghost predicate Named(names: seq<string>, deps: seq<seq<nat>>, g: Graph<string>) {
    |names| == |deps| &&
    forall x: nat, y: nat {:trigger IsEdge(deps, x, y)} :: IsEdge(deps, x, y) ==>
      y < |names| && names[y] in Deps(g, names[x])
  }

  /** Every edge between names is one between their nodes. */
  ghost predicate Present(nodeMap: map<string, nat>, deps: seq<seq<nat>>, g: Graph<string>) {
    forall x, d {:trigger d in Deps(g, x)} :: d in Deps(g, x) ==>
      x in nodeMap && d in nodeMap && IsEdge(deps, nodeMap[x], nodeMap[d])
  }

  lemma NamedEdge(names: seq<string>, deps: seq<seq<nat>>, g: Graph<string>, u: nat, v: nat)
    requires Named(names, deps, g) && u < |names| && v < |names| && names[u] in Deps(g, names[v])
    ensures Named(names, deps[v := deps[v] + [u]], g)
  {
    var deps' := deps[v := deps[v] + [u]];
    forall x: nat, y: nat | IsEdge(deps', x, y) ensures y < |names| && names[y] in Deps(g, names[x]) {
      assert IsEdge(deps, x, y) || (x == v && y == u);
    }
  }

  lemma PresentEdge(nodeMap: map<string, nat>, deps: seq<seq<nat>>, g: Graph<string>, name: string, dep: string)
    requires Present(nodeMap, deps, g) && name in nodeMap && dep in nodeMap && nodeMap[name] < |deps|
    ensures var v := nodeMap[name]; Present(nodeMap, deps[v := deps[v] + [nodeMap[dep]]], WithDeps(g, name, [dep]))
  {
    var v := nodeMap[name];
    var deps', g' := deps[v := deps[v] + [nodeMap[dep]]], WithDeps(g, name, [dep]);
    forall x, d {:trigger d in Deps(g', x)} | d in Deps(g', x)
      ensures x in nodeMap && d in nodeMap && IsEdge(deps', nodeMap[x], nodeMap[d])
    {
      if d in Deps(g, x) {
        assert IsEdge(deps, nodeMap[x], nodeMap[d]);
      }
    }
  }

  lemma OneMoreDep(g: Graph<string>, name: string, deps: seq<string>, j: nat)
    requires j < |deps|
    ensures WithDeps(WithDeps(g, name, deps[..j]), name, [deps[j]]) == WithDeps(g, name, deps[..j + 1])
  {
    assert (Deps(g, name) + deps[..j]) + [deps[j]] == Deps(g, name) + deps[..j + 1];
  }

  /** A map that takes edges to edges takes walks to walks. */
  lemma {:induction false} WalkMapped<S, T>(g: Graph<S>, h: Graph<T>, f: S -> T, p: seq<S>) returns (q: seq<T>)
    requires forall x, y {:trigger y in Deps(g, x)} :: y in Deps(g, x) ==> f(y) in Deps(h, f(x))
    requires Walk(g, p)
    ensures Walk(h, q) && |q| == |p| && q[0] == f(p[0]) && q[|q| - 1] == f(p[|p| - 1])
    decreases |p|
  {
    if |p| == 1 {
      q := [f(p[0])];
    } else {
      var rest := WalkMapped(g, h, f, p[1..]);
      q := [f(p[0])] + rest;
      assert p[1] in Deps(g, p[0]);
      WalkPrepend(h, f(p[0]), rest);
    }
  }

  lemma LeadsMapped<S(!new), T(!new)>(g: Graph<S>, h: Graph<T>, f: S -> T, u: S, v: S)
    requires forall x, y {:trigger y in Deps(g, x)} :: y in Deps(g, x) ==> f(y) in Deps(h, f(x))
    requires Leads(g, u, v)
    ensures Leads(h, f(u), f(v))
  {
    var p :| WalkFrom(g, u, p) && |p| >= 2 && p[|p| - 1] == v;
    var q := WalkMapped(g, h, f, p);
    assert WalkFrom(h, f(u), q);
  }

  lemma TablesTranspose(deps: seq<seq<nat>>, dependents: seq<seq<nat>>)
    requires BG.Transposed(deps, dependents) && BG.InRange(deps) && BG.InRange(dependents)
    ensures Transposes<nat>(BG.Edges(dependents), BG.Edges(deps))
  {
    forall x: nat, y: nat ensures y in Deps(BG.Edges(dependents), x) <==> x in Deps(BG.Edges(deps), y) {
      if x < |deps| && y < |deps| {
        assert Occurs(dependents[x], y) == Occurs(deps[y], x);
      }
    }
  }

  /** The error names an edge that is wanted between nodes, and that closes a cycle of their names. */
  ghost predicate RefusalIsRight(names: seq<string>, g: Graph<string>, error: BG.GraphError) {
    match error
    case MissingNode(_) => false
    case SelfDependency(id) => id < |names| && names[id] in Deps(g, names[id])
    case WouldCycle(u, v) =>
      u != v && u < |names| && v < |names| && names[u] in Deps(g, names[v]) && Reaches(g, names[u], names[v])
  }

  /** An edge that is refused closes a cycle of names. */
  lemma RefusedIsCycle(names: seq<string>, deps: seq<seq<nat>>, dependents: seq<seq<nat>>, g: Graph<string>, u: nat,
                       v: nat)
    requires BG.Transposed(deps, dependents) && BG.InRange(deps) && BG.InRange(dependents)
    requires Named(names, deps, g) && u < |names| && v < |names| && names[u] in Deps(g, names[v])
    requires Reaches<nat>(BG.Edges(dependents), v, u)
    ensures !Acyclic(g) && RefusalIsRight(names, g, BG.Refusal(|names|, u, v))
  {
    TablesTranspose(deps, dependents);
    ReachesTransposed<nat>(BG.Edges(dependents), BG.Edges(deps), v, u);
    LeadsStep(g, names[v], names[u]);
    if u != v {
      var f := (x: nat) => if x < |names| then names[x] else "";
      forall x: nat, y: nat | y in Deps(BG.Edges(deps), x) ensures f(y) in Deps(g, f(x)) {
        assert IsEdge(deps, x, y);
      }
      LeadsMapped<nat, string>(BG.Edges(deps), g, f, u, v);
      LeadsTrans(g, names[v], names[u], names[v]);
    }
    SelfLeadsCycle(g, names[v]);
  }

  lemma CycleLeadsBack<T(!new)>(g: Graph<T>, t: T) returns (x: T)
    requires CycleFrom(g, t)
    ensures Leads(g, x, x)
  {
    var p :| WalkFrom(g, t, p) && !NoDup(p);
    var i, j :| 0 <= i < j < |p| && p[i] == p[j];
    WalkSlice(g, p, i, j + 1);
    x := p[i];
    assert WalkFrom(g, x, p[i..j + 1]);
  }

  lemma NameCycleIsNodeCycle(nodeMap: map<string, nat>, deps: seq<seq<nat>>, dependents: seq<seq<nat>>,
                             g: Graph<string>, x: string)
    requires BG.Transposed(deps, dependents) && BG.InRange(deps) && BG.InRange(dependents)
    requires Present(nodeMap, deps, g) && Leads(g, x, x)
    ensures !Acyclic<nat>(BG.Edges(dependents))
  {
    var f := (name: string) => if name in nodeMap then nodeMap[name] else 0;
    forall a, d | d in Deps(g, a) ensures f(d) in Deps(BG.Edges(deps), f(a)) {
      assert IsEdge(deps, nodeMap[a], nodeMap[d]);
    }
    LeadsMapped<string, nat>(g, BG.Edges(deps), f, x, x);
    TablesTranspose(deps, dependents);
    var p: seq<nat> :| WalkFrom(BG.Edges(deps), f(x), p) && |p| >= 2 && p[|p| - 1] == f(x);
    WalkTransposed<nat>(BG.Edges(deps), BG.Edges(dependents), p);
    SelfLeadsCycle<nat>(BG.Edges(dependents), f(x));
  }

  /** When all edges of the names are there and the nodes have no cycle, neither have the names. */
  lemma PresentIsAcyclic(nodeMap: map<string, nat>, deps: seq<seq<nat>>, dependents: seq<seq<nat>>, g: Graph<string>)
    requires BG.Transposed(deps, dependents) && BG.InRange(deps) && BG.InRange(dependents)
    requires Present(nodeMap, deps, g) && Acyclic<nat>(BG.Edges(dependents))
    ensures Acyclic(g)
  {
    forall t ensures !CycleFrom(g, t) {
      if CycleFrom(g, t) {
        var x := CycleLeadsBack(g, t);
        NameCycleIsNodeCycle(nodeMap, deps, dependents, g, x);
      }
    }
  }

  const TWO_NAMED_ALIKE: seq<TaskSpec> := [TaskSpec("a", ["b"]), TaskSpec("b", ["a"]), TaskSpec("a", [])]

  lemma TwoNamedAlikeEdges()
    ensures var tasks := TWO_NAMED_ALIKE;
      AllKnown(tasks) && IndexGraph(tasks).Keys == {0, 1, 2} &&
      Deps(IndexGraph(tasks), 0) == [1] && Deps(IndexGraph(tasks), 1) == [2] && Deps(IndexGraph(tasks), 2) == []
  {
    KeyIndexOfName(TWO_NAMED_ALIKE, 1);
    KeyIndexOfName(TWO_NAMED_ALIKE, 2);
  }

  lemma ChainOfThree(g: Graph<nat>)
    requires g.Keys == {0, 1, 2} && Deps(g, 0) == [1] && Deps(g, 1) == [2] && Deps(g, 2) == []
    ensures Acyclic<nat>(g)
  {
    var order: seq<nat> := [2, 1, 0];
    assert DepsFirst<nat>(g, order) by {
      assert order[..1] == [2] && order[..2] == [2, 1];
    }
    forall t: nat ensures !CycleFrom<nat>(g, t) {
      if t in order { OrderedIsCycleFree<nat>(g, order, t); } else { NoDepsNoCycle<nat>(g, t); }
    }
  }

  /** Two tasks of one name can be ordered although the names depend on each other. */
  lemma OrderedNamesCanCycle()
    ensures var tasks := TWO_NAMED_ALIKE;
      AllKnown(tasks) && Acyclic<nat>(IndexGraph(tasks)) && !Acyclic(NameGraph(tasks))
  {
    var g := NameGraph(TWO_NAMED_ALIKE);
    TwoNamedAlikeEdges();
    ChainOfThree(IndexGraph(TWO_NAMED_ALIKE));
    TaskIsListed(TWO_NAMED_ALIKE, 0, "b");
    TaskIsListed(TWO_NAMED_ALIKE, 1, "a");
    LeadsStep(g, "a", "b");
    ReachesStep(g, "a", "b", "a");
    SelfLeadsCycle(g, "a");
  }
}
