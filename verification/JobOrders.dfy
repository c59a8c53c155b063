/** Job orders, and what the depth-first visit keeps true. */
module JobOrders {
  import opened Graphs

  datatype Job = Job(id: string, deps: seq<string>)

  /** Following dependencies from the listed jobs runs into no cycle. */
  ghost predicate CycleFree(g: Graph<string>, jobs: seq<Job>) {
    forall i :: 0 <= i < |jobs| ==> !CycleFrom(g, jobs[i].id)
  }

  /** What the search keeps true: finished jobs are sorted, jobs in progress lead to the current one. */
  ghost predicate Searching(g: Graph<string>, sorted: seq<string>, visited: set<string>) {
    && NoDup(sorted) && Members(sorted) <= visited
    && (forall x, d :: x in sorted && d in Deps(g, x) ==> d in visited)
  }

  /** Visiting id only adds to the order, and only jobs that id reaches. */
  ghost predicate Grown(g: Graph<string>, id: string, sorted0: seq<string>, visited0: set<string>,
                        sorted: seq<string>, visited: set<string>) {
    && Searching(g, sorted, visited) && visited0 <= visited
    && Members(sorted0) <= Members(sorted)
    && (forall x {:trigger Reaches(g, id, x)} :: x in sorted && x !in sorted0 ==> Reaches(g, id, x))
  }

  lemma ReachesThrough(g: Graph<string>, id: string, d: string, x: string)
    requires d in Deps(g, id) && Reaches(g, d, x)
    ensures Reaches(g, id, x)
  {
    LeadsStep(g, id, d);
    if d != x { LeadsTrans(g, id, d, x); }
  }

  lemma GrownThroughDep(g: Graph<string>, id: string, d: string, sorted0: seq<string>, visited0: set<string>,
                        sorted1: seq<string>, visited1: set<string>, sorted: seq<string>, visited: set<string>)
    requires Grown(g, id, sorted0, visited0, sorted1, visited1) && Grown(g, d, sorted1, visited1, sorted, visited)
    requires d in Deps(g, id)
    ensures Grown(g, id, sorted0, visited0, sorted, visited)
  {
    forall x | x in sorted && x !in sorted0 ensures Reaches(g, id, x) {
      if x in sorted1 {
        assert Reaches(g, id, x);
      } else {
        assert Reaches(g, d, x);
        ReachesThrough(g, id, d, x);
      }
    }
  }

  lemma NoMoreLeft(universe: set<string>, less: set<string>, more: set<string>)
    requires less <= more
    ensures |universe - more| <= |universe - less|
  {
    assert universe - less == (universe - more) + ((universe - less) * more);
  }

  lemma CleanDep(g: Graph<string>, id: string, d: string)
    requires d in Deps(g, id)
    ensures CycleFrom(g, d) ==> CycleFrom(g, id)
  {
    if CycleFrom(g, d) { CycleOfDep(g, id, d); }
  }

  ghost predicate FromListed(g: Graph<string>, jobs: seq<Job>, x: string) {
    exists i :: 0 <= i < |jobs| && Reaches(g, jobs[i].id, x)
  }

  /** The order holds every job reachable from a listed one, once; dependencies come first iff no cycle is reachable. */
  ghost predicate IsJobOrder(g: Graph<string>, jobs: seq<Job>, sorted: seq<string>) {
    && NoDup(sorted)
    && (forall x :: x in sorted <==> FromListed(g, jobs, x))
    && (DepsFirst(g, sorted) <==> CycleFree(g, jobs))
  }

  ghost predicate OnlyReached(g: Graph<string>, jobs: seq<Job>, sorted: seq<string>) {
    forall x {:trigger FromListed(g, jobs, x)} :: x in sorted ==> FromListed(g, jobs, x)
  }

  lemma StillOnlyReached(g: Graph<string>, jobs: seq<Job>, i: nat, before: seq<string>, sorted: seq<string>)
    requires i < |jobs| && OnlyReached(g, jobs, before)
    requires forall x {:trigger Reaches(g, jobs[i].id, x)} :: x in sorted && x !in before ==> Reaches(g, jobs[i].id, x)
    ensures OnlyReached(g, jobs, sorted)
  {
    forall x | x in sorted ensures FromListed(g, jobs, x) {
      if x in before {
        assert FromListed(g, jobs, x);
      } else {
        assert Reaches(g, jobs[i].id, x);
      }
    }
  }

  lemma OrderIsRight(g: Graph<string>, jobs: seq<Job>, sorted: seq<string>)
    requires Searching(g, sorted, Members(sorted)) && OnlyReached(g, jobs, sorted)
    requires forall k :: 0 <= k < |jobs| ==> jobs[k].id in Members(sorted)
    requires CycleFree(g, jobs) ==> DepsFirst(g, sorted)
    ensures IsJobOrder(g, jobs, sorted)
  {
    forall x ensures x in sorted <==> FromListed(g, jobs, x) {
      if FromListed(g, jobs, x) {
        var i :| 0 <= i < |jobs| && Reaches(g, jobs[i].id, x);
        ReachedInside(g, Members(sorted), jobs[i].id, x);
      }
    }
    if DepsFirst(g, sorted) {
      forall i | 0 <= i < |jobs| ensures !CycleFrom(g, jobs[i].id) {
        OrderedIsCycleFree(g, sorted, jobs[i].id);
      }
    }
  }

  lemma BackEdgeIsCycle(g: Graph<string>, stack: set<string>, id: string, d: string)
    requires StackLeadsTo(g, stack, id) && d in stack + {id} && d in Deps(g, id)
    ensures CycleFrom(g, id)
  {
    LeadsStep(g, id, d);
    if d != id {
      assert Leads(g, d, id);
      LeadsTrans(g, id, d, id);
    }
    SelfLeadsCycle(g, id);
  }

  /** When all dependencies of a job are visited, none of them is still in progress unless a cycle is ahead. */
  lemma FinishJob(g: Graph<string>, sorted0: seq<string>, visited0: set<string>, sorted: seq<string>,
                  visited: set<string>, stack: set<string>, id: string, clean: bool)
    requires Grown(g, id, sorted0, visited0, sorted, visited)
    requires visited - Members(sorted) == stack + {id} && id !in stack && StackLeadsTo(g, stack, id)
    requires Members(Deps(g, id)) <= visited
    requires clean ==> DepsFirst(g, sorted) && !CycleFrom(g, id)
    ensures Grown(g, id, sorted0, visited0, sorted + [id], visited) && visited - Members(sorted + [id]) == stack
    ensures clean ==> DepsFirst(g, sorted + [id])
  {
    assert id in visited - Members(sorted);
    NoDupAppend(sorted, [id]);
    assert Members(sorted + [id]) == Members(sorted) + {id};
    forall d | d in Deps(g, id) ensures d in visited {
      assert d in Members(Deps(g, id));
    }
    if clean {
      forall d | d in Deps(g, id) ensures d in sorted {
        if d !in Members(sorted) {
          assert d in stack + {id};
          BackEdgeIsCycle(g, stack, id, d);
        }
      }
      DepsFirstAppend(g, sorted, id);
    }
  }
}
