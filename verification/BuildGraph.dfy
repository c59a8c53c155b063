/** The task graph: nodes by id, each with its dependencies and dependents, kept acyclic edge by edge. */
module BuildGraph {
  import opened Basics
  import opened Graphs

  datatype GraphError = MissingNode(id: nat) | SelfDependency(id: nat) | WouldCycle(dependency: nat, dependent: nat)
  datatype Status = Done | Failed(error: GraphError)

  /** The graph of dependents over the node ids. */
  function Edges(dependents: seq<seq<nat>>): Graph<nat> {
    map i: nat | i < |dependents| :: dependents[i]
  }

  ghost predicate InRange(lists: seq<seq<nat>>) {
    forall i, x :: 0 <= i < |lists| && x in lists[i] ==> x < |lists|
  }

  /** An edge is listed equally often on both of its ends. */
  ghost predicate Transposed(deps: seq<seq<nat>>, dependents: seq<seq<nat>>) {
    |deps| == |dependents| &&
    forall a: nat, b: nat {:trigger Occurs(dependents[a], b)} :: a < |deps| && b < |deps| ==>
      Occurs(dependents[a], b) == Occurs(deps[b], a)
  }

  lemma NotListed(lists: seq<seq<nat>>, i: nat, x: nat)
    requires InRange(lists) && i < |lists| && x >= |lists|
    ensures Occurs(lists[i], x) == 0
  {
    assert x !in lists[i];
  }

  lemma TransposedNode(deps: seq<seq<nat>>, dependents: seq<seq<nat>>)
    requires Transposed(deps, dependents) && InRange(deps) && InRange(dependents)
    ensures Transposed(deps + [[]], dependents + [[]])
  {
    var n, deps', dependents' := |deps|, deps + [[]], dependents + [[]];
    forall a: nat, b: nat | a < n + 1 && b < n + 1 ensures Occurs(dependents'[a], b) == Occurs(deps'[b], a) {
      if a < n && b < n {
        assert Occurs(dependents[a], b) == Occurs(deps[b], a);
      } else {
        if a < n { NotListed(dependents, a, b); }
        if b < n { NotListed(deps, b, a); }
      }
    }
  }

  lemma TransposedEdge(deps: seq<seq<nat>>, dependents: seq<seq<nat>>, u: nat, v: nat)
    requires Transposed(deps, dependents) && u < |deps| && v < |deps|
    ensures Transposed(deps[v := deps[v] + [u]], dependents[u := dependents[u] + [v]])
  {
    var deps', dependents' := deps[v := deps[v] + [u]], dependents[u := dependents[u] + [v]];
    forall a: nat, b: nat | a < |deps| && b < |deps| ensures Occurs(dependents'[a], b) == Occurs(deps'[b], a) {
      assert Occurs(dependents[a], b) == Occurs(deps[b], a);
      OccursAppend(dependents[u], v, b);
      OccursAppend(deps[v], u, a);
    }
  }

  lemma SearchNode(g: Graph<nat>, from: nat, seen: set<nat>, queue: seq<nat>)
    requires Frontier<nat>(g, from, seen, queue) && queue != [] && queue[0] !in seen
    requires ClosedUnder(g, g.Keys) && Members(queue) <= g.Keys
    ensures var id := queue[0];
      Frontier<nat>(g, from, seen + {id}, queue[1..] + Deps(g, id)) &&
      Members(queue[1..] + Deps(g, id)) <= g.Keys &&
      |g.Keys - (seen + {id})| < |g.Keys - seen|
  {
    var id := queue[0];
    assert queue == [id] + queue[1..];
    assert id in Members(queue) && Members(queue[1..]) <= Members(queue);
    FrontierStep<nat>(g, from, seen, queue, id, queue[1..] + Deps(g, id));
    FewerLeft<nat>(g.Keys, seen, id);
  }

  lemma EmptyIsAcyclic()
    ensures Acyclic<nat>(Edges([]))
  {
    forall t: nat ensures !CycleFrom<nat>(Edges([]), t) {
      if CycleFrom<nat>(Edges([]), t) { CycleThroughDep<nat>(Edges([]), t); }
    }
  }

  lemma {:induction false} SameWalks(g: Graph<nat>, h: Graph<nat>, p: seq<nat>)
    requires forall x: nat :: Deps(g, x) == Deps(h, x)
    requires Walk(g, p)
    ensures Walk(h, p)
    decreases |p|
  {
    if |p| > 1 { SameWalks(g, h, p[1..]); }
  }

  lemma SameDepsSameCycles(g: Graph<nat>, h: Graph<nat>)
    requires forall x: nat :: Deps(g, x) == Deps(h, x)
    requires Acyclic<nat>(g)
    ensures Acyclic<nat>(h)
  {
    forall t: nat, p: seq<nat> | WalkFrom(h, t, p) ensures NoDup(p) {
      SameWalks(h, g, p);
      assert !CycleFrom<nat>(g, t);
      assert WalkFrom(g, t, p);
    }
  }

  lemma IsolatedNodeIsHarmless(dependents: seq<seq<nat>>)
    requires Acyclic<nat>(Edges(dependents))
    ensures Acyclic<nat>(Edges(dependents + [[]]))
  {
    SameDepsSameCycles(Edges(dependents), Edges(dependents + [[]]));
  }

  lemma EdgeIsHarmless(dependents: seq<seq<nat>>, u: nat, v: nat)
    requires Acyclic<nat>(Edges(dependents)) && InRange(dependents) && u < |dependents| && v < |dependents|
    requires !Reaches<nat>(Edges(dependents), v, u)
    ensures Acyclic<nat>(Edges(dependents[u := dependents[u] + [v]]))
  {
    var g := Edges(dependents);
    var all := g.Keys;
    var reached := set x: nat | x in all && Reaches<nat>(g, v, x);
    forall x: nat ensures x in reached <==> Reaches<nat>(g, v, x) {
      if Reaches<nat>(g, v, x) { ReachedInside<nat>(g, all, v, x); }
    }
    EdgeKeepsAcyclic<nat>(g, u, v, reached);
    assert AddEdge(g, u, v) == Edges(dependents[u := dependents[u] + [v]]);
  }

  /** What is wrong with an edge that is refused, looking at its ends first. */
  function Refusal(n: nat, dependency: nat, dependent: nat): GraphError {
    if dependency >= n then MissingNode(dependency)
    else if dependent >= n then MissingNode(dependent)
    else if dependency == dependent then SelfDependency(dependency)
    else WouldCycle(dependency, dependent)
  }

  class BuildGraph<T> {
    var nodes: seq<T>
    var deps: seq<seq<nat>>
    var dependents: seq<seq<nat>>

    constructor ()
      ensures Valid() && nodes == [] && deps == [] && dependents == []
    {
      nodes, deps, dependents := [], [], [];
      new;
      EmptyIsAcyclic();
    }

    ghost predicate Valid()
      reads this
    {
      && |deps| == |nodes| && |dependents| == |nodes|
      && InRange(deps) && InRange(dependents)
      && Transposed(deps, dependents)
      && Acyclic<nat>(Edges(dependents))
    }

    method AddNode(payload: T) returns (id: nat)
      requires Valid()
      modifies this
      ensures Valid() && id == |old(nodes)| && nodes == old(nodes) + [payload]
      ensures deps == old(deps) + [[]] && dependents == old(dependents) + [[]]
    {
      id := |nodes|;
      IsolatedNodeIsHarmless(dependents);
      TransposedNode(deps, dependents);
      nodes := nodes + [payload];
      deps := deps + [[]];
      dependents := dependents + [[]];
    }

    /** Breadth-first search along dependents. */
    method IsReachable(from: nat, to: nat) returns (found: bool)
      requires Valid() && from < |nodes| && to < |nodes|
      ensures found <==> Reaches<nat>(Edges(dependents), from, to)
    {
      ghost var g := Edges(dependents);
      var seen: set<nat> := {};
      var queue: seq<nat> := [from];
      FrontierStart<nat>(g, from);
      while queue != []
        invariant Frontier<nat>(g, from, seen, queue) && to !in seen
        invariant seen <= g.Keys && Members(queue) <= g.Keys
        decreases |g.Keys - seen|, |queue|
      {
        var id := queue[0];
        assert queue == [id] + queue[1..];
        assert Members(queue) == {id} + Members(queue[1..]);
        if id == to {
          assert Reaches<nat>(g, from, id);
          return true;
        }
        if id !in seen {
          SearchNode(g, from, seen, queue);
          queue := queue[1..] + dependents[id];
          seen := seen + {id};
        } else {
          FrontierStep<nat>(g, from, seen, queue, id, queue[1..]);
          assert seen + {id} == seen;
          queue := queue[1..];
        }
      }
      FrontierDone<nat>(g, from, seen);
      return false;
    }

    /** Adds the edge unless an end is missing, the ends are one node, or it would close a cycle. */
    method AddDependency(dependency: nat, dependent: nat) returns (r: Status)
      requires Valid()
      modifies this
      ensures Valid() && nodes == old(nodes)
      ensures r.Done? <==> dependency < |nodes| && dependent < |nodes| && dependency != dependent &&
                           !Reaches<nat>(Edges(old(dependents)), dependent, dependency)
      ensures r.Done? ==> deps == old(deps)[dependent := old(deps)[dependent] + [dependency]] &&
                          dependents == old(dependents)[dependency := old(dependents)[dependency] + [dependent]]
      ensures r.Failed? ==> deps == old(deps) && dependents == old(dependents)
      ensures r.Failed? ==> r.error == Refusal(|nodes|, dependency, dependent)
      ensures dependency >= |nodes| ==> r == Failed(MissingNode(dependency))
      ensures dependency < |nodes| <= dependent ==> r == Failed(MissingNode(dependent))
      ensures dependency == dependent < |nodes| ==> r == Failed(SelfDependency(dependency))
    {
      if dependency >= |nodes| { return Failed(MissingNode(dependency)); }
      if dependent >= |nodes| { return Failed(MissingNode(dependent)); }
      if dependency == dependent { return Failed(SelfDependency(dependency)); }
      var cycle := IsReachable(dependent, dependency);
      if cycle { return Failed(WouldCycle(dependency, dependent)); }
      EdgeIsHarmless(dependents, dependency, dependent);
      TransposedEdge(deps, dependents, dependency, dependent);
      deps := deps[dependent := deps[dependent] + [dependency]];
      dependents := dependents[dependency := dependents[dependency] + [dependent]];
      return Done;
    }
  }
}
