/** Recorded task durations and the memoised downstream weights computed from them. */
module CriticalWeights {
  import opened Basics
  import opened Graphs
  import opened DownstreamCosts

  class CriticalPathScheduler {
    var profiles: map<string, Profile>

    constructor ()
      ensures profiles == map[]
    {
      profiles := map[];
    }

    function ProfileOf(task: string): Profile
      reads this
    {
      if task in profiles then profiles[task] else Profile(0, 0)
    }

    method RecordTaskDuration(task: string, duration: nat)
      modifies this
      ensures profiles == old(profiles)[task := NextProfile(old(ProfileOf(task)), duration)]
    {
      var entry := ProfileOf(task);
      var total := entry.average * entry.samples + duration;
      var samples := entry.samples + 1;
      profiles := profiles[task := Profile(total / samples, samples)];
    }

    /** One recursive search; the memo table and the stack of tasks in progress are passed along and back. */
    method LongestDownstreamPath(node: string, adj: Graph<string>, memo0: map<string, nat>, visiting0: set<string>,
                                 ghost universe: set<string>)
      returns (r: Outcome<nat>, memo: map<string, nat>, visiting: set<string>)
      requires Nodes(adj) <= universe && node in universe && visiting0 <= universe
      requires MemoOk(adj, profiles, memo0) && StackLeadsTo(adj, visiting0, node)
      ensures MemoOk(adj, profiles, memo) && Extends(memo0, memo)
      ensures r.Ok? ==> node in memo && memo[node] == r.value && visiting == visiting0
      ensures r.Cycle? ==> CycleFrom(adj, node)
      decreases |universe - visiting0|
    {
      memo, visiting := memo0, visiting0;
      if node in memo {
        return Ok(memo[node]), memo, visiting;
      }
      if node in visiting {
        assert Leads(adj, node, node);
        SelfLeadsCycle(adj, node);
        return Cycle(node), memo, visiting;
      }
      visiting := visiting + {node};
      assert universe - visiting0 == (universe - visiting) + {node};
      var maxCost := 0;
      var neighbors := Deps(adj, node);
      for i := 0 to |neighbors|
        invariant visiting == visiting0 + {node} && MemoOk(adj, profiles, memo) && Extends(memo0, memo)
        invariant MaxSoFar(profiles, neighbors[..i], memo, maxCost)
      {
        var neighbor := neighbors[i];
        StackLeads(adj, visiting0, node, neighbor);
        ghost var was := memo;
        r, memo, visiting := LongestDownstreamPath(neighbor, adj, memo, visiting, universe);
        ExtendsTrans(memo0, was, memo);
        if r.Cycle? {
          CycleOfDep(adj, node, neighbor);
          return;
        }
        var cost := Cost(profiles, neighbor) + r.value;
        MaxNext(profiles, neighbors, i, was, memo, maxCost);
        if cost > maxCost { maxCost := cost; }
      }
      assert neighbors[..|neighbors|] == neighbors;
      Settle(adj, profiles, node, memo, maxCost);
      visiting := visiting - {node};
      memo := memo[node := maxCost];
      return Ok(maxCost), memo, visiting;
    }

    method ComputeCriticalWeights(names: seq<string>, adj: Graph<string>) returns (r: Outcome<map<string, nat>>)
      ensures r.Cycle? <==> exists n :: n in names && CycleFrom(adj, n)
      ensures r.Ok? ==> forall n :: n in r.value <==> n in names
      ensures r.Ok? ==> forall n :: n in r.value ==> IsCriticalWeight(adj, profiles, n, r.value[n])
    {
      var weights: map<string, nat> := map[];
      var memo: map<string, nat> := map[];
      var visiting: set<string> := {};
      for i := 0 to |names|
        invariant visiting == {} && MemoOk(adj, profiles, memo)
        invariant forall n :: n in weights <==> n in names[..i]
        invariant forall n :: n in weights ==> !CycleFrom(adj, n) && IsCriticalWeight(adj, profiles, n, weights[n])
      {
        var name := names[i];
        assert names[..i + 1] == names[..i] + [name];
        var base := Cost(profiles, name);
        var downstream;
        downstream, memo, visiting := LongestDownstreamPath(name, adj, memo, visiting, Nodes(adj) + {name});
        if downstream.Cycle? {
          return Cycle(downstream.node);
        }
        assert Settled(adj, profiles, name, memo[name]);
        weights := weights[name := base + downstream.value];
      }
      assert names[..|names|] == names;
      return Ok(weights);
    }
  }
}
