/** The CI job matrix: depth-first job order and the grouping of that order into levels. */
module CiMatrix {
  import opened Graphs
  import opened JobLevels
  import opened JobOrders

  class CiMatrix {
    var jobs: seq<Job>
    var dependencies: Graph<string>

    constructor ()
      ensures jobs == [] && dependencies == map[]
    {
      jobs, dependencies := [], map[];
    }

    method AddJob(job: Job)
      modifies this
      ensures jobs == old(jobs) + [job] && dependencies == old(dependencies)[job.id := job.deps]
    {
      dependencies := dependencies[job.id := job.deps];
      jobs := jobs + [job];
    }

    /** One depth-first visit; the order and the visited set are passed along and back. */
    static method Visit(g: Graph<string>, id: string, sorted0: seq<string>, visited0: set<string>,
                        ghost universe: set<string>, ghost clean: bool)
      returns (sorted: seq<string>, visited: set<string>)
      requires id in universe && visited0 <= universe && Nodes(g) <= universe
      requires Searching(g, sorted0, visited0)
      requires StackLeadsTo(g, visited0 - Members(sorted0), id)
      requires clean ==> DepsFirst(g, sorted0) && !CycleFrom(g, id)
      ensures Grown(g, id, sorted0, visited0, sorted, visited) && visited <= universe
      ensures visited - Members(sorted) == visited0 - Members(sorted0) && id in visited
      ensures clean ==> DepsFirst(g, sorted)
      decreases |universe - visited0|
    {
      sorted, visited := sorted0, visited0;
      if id in visited {
        return;
      }
      visited := visited + {id};
      assert universe - visited0 == (universe - visited) + {id};
      ghost var stack := visited0 - Members(sorted0);
      var deps := Deps(g, id);
      for i := 0 to |deps|
        invariant Grown(g, id, sorted0, visited0, sorted, visited) && visited <= universe
        invariant visited - Members(sorted) == stack + {id}
        invariant visited0 + {id} <= visited && Members(deps[..i]) <= visited
        invariant clean ==> DepsFirst(g, sorted)
      {
        StackLeads(g, stack, id, deps[i]);
        ghost var sorted1, visited1 := sorted, visited;
        NoMoreLeft(universe, visited0 + {id}, visited);
        CleanDep(g, id, deps[i]);
        sorted, visited := Visit(g, deps[i], sorted, visited, universe, clean);
        GrownThroughDep(g, id, deps[i], sorted0, visited0, sorted1, visited1, sorted, visited);
        NextMember(deps, i);
      }
      assert deps[..|deps|] == deps;
      FinishJob(g, sorted0, visited0, sorted, visited, stack, id, clean);
      sorted := sorted + [id];
    }

    /** Lists every job reachable from a listed one, once; dependencies first exactly when no cycle is reachable. */
    method TopologicalSort() returns (sorted: seq<string>)
      ensures IsJobOrder(dependencies, jobs, sorted)
    {
      var g := dependencies;
      ghost var universe := Nodes(g) + set j | j in jobs :: j.id;
      ghost var clean := CycleFree(g, jobs);
      sorted := [];
      var visited: set<string> := {};
      for i := 0 to |jobs|
        invariant Searching(g, sorted, visited) && visited == Members(sorted) && visited <= universe
        invariant forall k :: 0 <= k < i ==> jobs[k].id in visited
        invariant OnlyReached(g, jobs, sorted)
        invariant clean ==> DepsFirst(g, sorted)
      {
        ghost var before := sorted;
        assert jobs[i] in jobs;
        sorted, visited := Visit(g, jobs[i].id, sorted, visited, universe, clean);
        assert visited == Members(sorted) + (visited - Members(sorted)) == Members(sorted);
        StillOnlyReached(g, jobs, i, before, sorted);
      }
      OrderIsRight(g, jobs, sorted);
    }

    /** A job opens a new level only if one of its dependencies is not yet listed. */
    static method GroupLevels(g: Graph<string>, sorted: seq<string>) returns (levels: seq<seq<string>>)
      ensures levels == Levels(g, AgainstListed, sorted)
    {
      levels := [];
      var currentLevel := [];
      var completed: set<string> := {};
      for i := 0 to |sorted|
        invariant Grouped(g, sorted, i, Grouping(levels, currentLevel), completed)
      {
        var id := sorted[i];
        GroupedNext(g, sorted, i, Grouping(levels, currentLevel), completed);
        var deps := Deps(g, id);
        var canRun := forall d | d in deps :: d in completed;
        if canRun {
          currentLevel := currentLevel + [id];
          completed := completed + {id};
        } else {
          if currentLevel != [] {
            levels := levels + [currentLevel];
            currentLevel := [];
          }
          currentLevel := currentLevel + [id];
          completed := completed + {id};
        }
      }
      assert sorted[..|sorted|] == sorted;
      if currentLevel != [] {
        levels := levels + [currentLevel];
      }
    }

    /** The levels spell out the job order; without reachable cycles there is at most one. */
    method GetParallelLevels() returns (levels: seq<seq<string>>)
      ensures IsJobOrder(dependencies, jobs, Flatten(levels)) &&
        levels == Levels(dependencies, AgainstListed, Flatten(levels))
      ensures CycleFree(dependencies, jobs) ==> |levels| <= 1
    {
      var sorted := TopologicalSort();
      levels := GroupLevels(dependencies, sorted);
      LevelsFlatten(dependencies, AgainstListed, sorted);
      if CycleFree(dependencies, jobs) && sorted != [] {
        OrderedIsOneLevel(dependencies, sorted);
      }
    }
  }
}
