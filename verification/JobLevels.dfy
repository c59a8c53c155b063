/** Levels of jobs: how an order is grouped into them, which jobs share one, and which test separates dependencies. */
module JobLevels {
  import opened Graphs

  /** What a job's dependencies are looked up in: all jobs placed before it, or those of finished levels only. */
  datatype Test = AgainstListed | AgainstFinished

  /** Finished levels and the level still open. */
  datatype Grouping = Grouping(levels: seq<seq<string>>, current: seq<string>)

  predicate AllListed(g: Graph<string>, before: seq<string>, id: string) {
    forall d :: d in Deps(g, id) ==> d in before
  }

  /** All jobs placed so far, in order. */
  function Listed(all: Grouping): seq<string> {
    Flatten(all.levels) + all.current
  }

  function Seen(test: Test, all: Grouping): seq<string> {
    match test
    case AgainstListed => Listed(all)
    case AgainstFinished => Flatten(all.levels)
  }

  function Close(all: Grouping): seq<seq<string>> {
    if all.current == [] then all.levels else all.levels + [all.current]
  }

  /** A job whose dependencies pass the test joins the open level; any other opens a level. */
  function Place(g: Graph<string>, test: Test, all: Grouping, id: string): Grouping {
    if AllListed(g, Seen(test, all), id) then Grouping(all.levels, all.current + [id])
    else Grouping(Close(all), [id])
  }

  function Group(g: Graph<string>, test: Test, sorted: seq<string>): Grouping {
    if sorted == [] then Grouping([], [])
    else Place(g, test, Group(g, test, sorted[..|sorted| - 1]), sorted[|sorted| - 1])
  }

  function Levels(g: Graph<string>, test: Test, sorted: seq<string>): seq<seq<string>> {
    Close(Group(g, test, sorted))
  }

  lemma GroupNext(g: Graph<string>, test: Test, sorted: seq<string>, id: string)
    ensures Group(g, test, sorted + [id]) == Place(g, test, Group(g, test, sorted), id)
  {
    assert (sorted + [id])[..|sorted|] == sorted;
  }

  // ---------------------------------------------------------------- levels spell out the order

  lemma FlattenAppend(lists: seq<seq<string>>, last: seq<string>)
    ensures Flatten(lists + [last]) == Flatten(lists) + last
  {
    assert (lists + [last])[..|lists|] == lists;
  }

  lemma FlattenClose(all: Grouping)
    ensures Flatten(Close(all)) == Listed(all)
  {
    FlattenAppend(all.levels, all.current);
  }

  lemma ListedPlace(g: Graph<string>, test: Test, all: Grouping, id: string)
    ensures Listed(Place(g, test, all, id)) == Listed(all) + [id]
  {
    FlattenClose(all);
  }

  lemma {:induction false} GroupLists(g: Graph<string>, test: Test, sorted: seq<string>)
    ensures Listed(Group(g, test, sorted)) == sorted
    decreases |sorted|
  {
    if sorted != [] {
      var rest, id := sorted[..|sorted| - 1], sorted[|sorted| - 1];
      GroupLists(g, test, rest);
      assert rest + [id] == sorted;
      GroupNext(g, test, rest, id);
      ListedPlace(g, test, Group(g, test, rest), id);
    }
  }

  /** Grouping keeps the order: the levels spell it out again. */
  lemma LevelsFlatten(g: Graph<string>, test: Test, sorted: seq<string>)
    ensures Flatten(Levels(g, test, sorted)) == sorted
  {
    GroupLists(g, test, sorted);
    FlattenClose(Group(g, test, sorted));
  }

  /** What the loop over the order has built when the first i jobs are placed. */
  ghost predicate Grouped(g: Graph<string>, sorted: seq<string>, i: nat, all: Grouping, completed: set<string>)
    requires i <= |sorted|
  {
    completed == Members(sorted[..i]) && all == Group(g, AgainstListed, sorted[..i])
  }

  lemma CanRunIff(g: Graph<string>, before: seq<string>, id: string)
    ensures (forall d :: d in Deps(g, id) ==> d in Members(before)) <==>
      AllListed(g, Seen(AgainstListed, Group(g, AgainstListed, before)), id)
  {
    GroupLists(g, AgainstListed, before);
  }

  lemma GroupedNext(g: Graph<string>, sorted: seq<string>, i: nat, all: Grouping, completed: set<string>)
    requires i < |sorted| && Grouped(g, sorted, i, all, completed)
    ensures var id := sorted[i];
      var canRun := forall d :: d in Deps(g, id) ==> d in completed;
      Grouped(g, sorted, i + 1, if canRun then Grouping(all.levels, all.current + [id]) else Grouping(Close(all), [id]),
              completed + {id})
  {
    var id := sorted[i];
    assert sorted[..i + 1] == sorted[..i] + [id];
    GroupNext(g, AgainstListed, sorted[..i], id);
    CanRunIff(g, sorted[..i], id);
    assert Members(sorted[..i + 1]) == Members(sorted[..i]) + {id};
  }

  // ---------------------------------------------------------------- the test as written

  lemma OrderedPrefix(g: Graph<string>, sorted: seq<string>, n: nat)
    requires DepsFirst(g, sorted) && n <= |sorted|
    ensures DepsFirst(g, sorted[..n])
  {
    forall i, d | 0 <= i < n && d in Deps(g, sorted[..n][i]) ensures d in sorted[..n][..i] {
      assert sorted[..n][..i] == sorted[..i];
    }
  }

  lemma {:induction false} OrderedIsOneGroup(g: Graph<string>, sorted: seq<string>)
    requires DepsFirst(g, sorted)
    ensures Group(g, AgainstListed, sorted) == Grouping([], sorted)
    decreases |sorted|
  {
    if sorted != [] {
      var n := |sorted| - 1;
      OrderedPrefix(g, sorted, n);
      OrderedIsOneGroup(g, sorted[..n]);
      assert Flatten<string>([]) + sorted[..n] == sorted[..n];
      assert sorted == sorted[..n] + [sorted[n]];
    }
  }

  /** A dependency-first order is put into one single level. */
  lemma OrderedIsOneLevel(g: Graph<string>, sorted: seq<string>)
    requires DepsFirst(g, sorted) && sorted != []
    ensures Levels(g, AgainstListed, sorted) == [sorted]
  {
    OrderedIsOneGroup(g, sorted);
  }

  // ---------------------------------------------------------------- which jobs share a level

  /** The job opens a level after the ones before it. */
  predicate Opens(g: Graph<string>, test: Test, before: seq<string>, id: string) {
    !AllListed(g, Seen(test, Group(g, test, before)), id)
  }

  /** For every job of the order, whether it opens a level. */
  function Openings(g: Graph<string>, test: Test, sorted: seq<string>): (flags: seq<bool>)
    ensures |flags| == |sorted|
    ensures forall m :: 0 <= m < |sorted| ==> flags[m] == Opens(g, test, sorted[..m], sorted[m])
  {
    seq(|sorted|, m requires 0 <= m < |sorted| => Opens(g, test, sorted[..m], sorted[m]))
  }

  lemma OpeningsNext(g: Graph<string>, test: Test, rest: seq<string>, id: string)
    ensures Openings(g, test, rest + [id]) == Openings(g, test, rest) + [Opens(g, test, rest, id)]
  {
    var sorted := rest + [id];
    forall m | 0 <= m <= |rest| ensures sorted[..m] == rest[..m] {}
    assert rest[..|rest|] == rest;
  }

  /** With the test as written a level opens exactly at a job with a dependency that is not listed before it. */
  lemma OpensIffUnlisted(g: Graph<string>, sorted: seq<string>, m: nat)
    requires m < |sorted|
    ensures Openings(g, AgainstListed, sorted)[m] <==> exists d :: d in Deps(g, sorted[m]) && d !in sorted[..m]
  {
    GroupLists(g, AgainstListed, sorted[..m]);
  }

  /** The level of the job at place i: one for every opening after the first job, up to it. */
  function Rank(flags: seq<bool>, i: nat): nat
    requires i < |flags|
  {
    if i == 0 then 0 else Rank(flags, i - 1) + if flags[i] then 1 else 0
  }

  predicate NoneOpens(flags: seq<bool>, i: nat, j: nat)
    requires j < |flags|
  {
    forall m :: i < m <= j ==> !flags[m]
  }

  lemma {:induction false} SameRankIff(flags: seq<bool>, i: nat, j: nat)
    requires i <= j < |flags|
    ensures Rank(flags, i) <= Rank(flags, j)
    ensures Rank(flags, i) == Rank(flags, j) <==> NoneOpens(flags, i, j)
    decreases j
  {
    if i < j {
      SameRankIff(flags, i, j - 1);
      assert NoneOpens(flags, i, j) <==> NoneOpens(flags, i, j - 1) && !flags[j];
    }
  }

  lemma {:induction false} RankOfPrefix(flags: seq<bool>, n: nat, i: nat)
    requires i < n <= |flags|
    ensures Rank(flags[..n], i) == Rank(flags, i)
    decreases i
  {
    if i > 0 { RankOfPrefix(flags, n, i - 1); }
  }

  ghost predicate StandsAt(levels: seq<seq<string>>, k: nat, x: string) {
    k < |levels| && x in levels[k]
  }

  /** Every job stands in the level of its rank, and the open level is the one of the last rank. */
  ghost predicate StandAtRanks(all: Grouping, flags: seq<bool>, sorted: seq<string>) {
    && |flags| == |sorted| > 0 && all.current != [] && |all.levels| == Rank(flags, |flags| - 1)
    && forall i: nat {:trigger Rank(flags, i)} :: i < |sorted| ==> StandsAt(Close(all), Rank(flags, i), sorted[i])
  }

  lemma StillStands(g: Graph<string>, test: Test, all: Grouping, id: string, k: nat, x: string)
    requires StandsAt(Close(all), k, x)
    ensures StandsAt(Close(Place(g, test, all, id)), k, x)
  {
  }

  lemma LastStands(g: Graph<string>, test: Test, all: Grouping, id: string)
    requires all.current != []
    ensures var next, k := Place(g, test, all, id), |all.levels| + if AllListed(g, Seen(test, all), id) then 0 else 1;
      next.current != [] && |next.levels| == k && StandsAt(Close(next), k, id)
  {
  }

  lemma PlaceStands(g: Graph<string>, test: Test, all: Grouping, flags: seq<bool>, rest: seq<string>, id: string)
    requires StandAtRanks(all, flags, rest)
    ensures StandAtRanks(Place(g, test, all, id), flags + [!AllListed(g, Seen(test, all), id)], rest + [id])
  {
    var next, flags', sorted := Place(g, test, all, id), flags + [!AllListed(g, Seen(test, all), id)], rest + [id];
    var n := |rest|;
    assert flags'[..n] == flags;
    RankOfPrefix(flags', n, n - 1);
    LastStands(g, test, all, id);
    forall i: nat | i < |sorted| ensures StandsAt(Close(next), Rank(flags', i), sorted[i]) {
      if i < n {
        RankOfPrefix(flags', n, i);
        StillStands(g, test, all, id, Rank(flags, i), rest[i]);
      }
    }
  }

  lemma FirstStands(g: Graph<string>, test: Test, id: string)
    ensures StandAtRanks(Group(g, test, [id]), Openings(g, test, [id]), [id])
  {
    var none: seq<string>, all := [], Group(g, test, [id]);
    assert [id][..0] == none && none + [id] == [id];
    assert Group(g, test, none) == Grouping([], none) && all == Place(g, test, Grouping([], none), id);
    assert StandsAt(Close(all), 0, id);
  }

  lemma {:induction false} JobsStandAtRanks(g: Graph<string>, test: Test, sorted: seq<string>)
    requires sorted != []
    ensures StandAtRanks(Group(g, test, sorted), Openings(g, test, sorted), sorted)
    decreases |sorted|
  {
    var n := |sorted| - 1;
    var rest, id := sorted[..n], sorted[n];
    assert sorted == rest + [id];
    if rest == [] {
      FirstStands(g, test, id);
    } else {
      JobsStandAtRanks(g, test, rest);
      PlaceStands(g, test, Group(g, test, rest), Openings(g, test, rest), rest, id);
      OpeningsNext(g, test, rest, id);
    }
  }

  lemma NoDupParts(p: seq<string>, q: seq<string>)
    requires NoDup(p + q)
    ensures NoDup(p) && NoDup(q) && forall x :: x in p ==> x !in q
  {
    forall i, j | 0 <= i < j < |p| ensures p[i] != p[j] { assert (p + q)[i] == p[i] && (p + q)[j] == p[j]; }
    forall i, j | 0 <= i < j < |q| ensures q[i] != q[j] {
      assert (p + q)[|p| + i] == q[i] && (p + q)[|p| + j] == q[j];
    }
    forall i, j | 0 <= i < |p| && 0 <= j < |q| ensures p[i] != q[j] {
      assert (p + q)[i] == p[i] && (p + q)[|p| + j] == q[j];
    }
  }

  lemma {:induction false} InFlattened(levels: seq<seq<string>>, k: nat, x: string)
    requires StandsAt(levels, k, x)
    ensures x in Flatten(levels)
    decreases |levels|
  {
    var n := |levels| - 1;
    if k < n { InFlattened(levels[..n], k, x); }
  }

  lemma {:induction false} StandsOnce(levels: seq<seq<string>>, a: nat, b: nat, x: string)
    requires NoDup(Flatten(levels)) && StandsAt(levels, a, x) && StandsAt(levels, b, x)
    ensures a == b
    decreases |levels|
  {
    var n := |levels| - 1;
    var rest, last := levels[..n], levels[n];
    NoDupParts(Flatten(rest), last);
    if a < n { InFlattened(rest, a, x); }
    if b < n { InFlattened(rest, b, x); }
    if a < n && b < n { StandsOnce(rest, a, b, x); }
  }

  ghost predicate ShareLevel(levels: seq<seq<string>>, x: string, y: string) {
    exists k: nat :: StandsAt(levels, k, x) && StandsAt(levels, k, y)
  }

  /**
    Two jobs of any order share a level exactly when no job after the earlier one, up to the later one,
    opens a level.
   */
  lemma ShareLevelIff(g: Graph<string>, test: Test, sorted: seq<string>, i: nat, j: nat)
    requires NoDup(sorted) && i <= j < |sorted|
    ensures ShareLevel(Levels(g, test, sorted), sorted[i], sorted[j]) <==> NoneOpens(Openings(g, test, sorted), i, j)
  {
    var levels, flags := Levels(g, test, sorted), Openings(g, test, sorted);
    LevelsFlatten(g, test, sorted);
    JobsStandAtRanks(g, test, sorted);
    SameRankIff(flags, i, j);
    if k: nat :| StandsAt(levels, k, sorted[i]) && StandsAt(levels, k, sorted[j]) {
      StandsOnce(levels, k, Rank(flags, i), sorted[i]);
      StandsOnce(levels, k, Rank(flags, j), sorted[j]);
    }
  }

  // ---------------------------------------------------------------- jobs and their dependencies

  /** The purpose of levels: no job runs in the same level as one of its dependencies. */
  ghost predicate LevelsIndependent(g: Graph<string>, levels: seq<seq<string>>) {
    forall x, d {:trigger d in Deps(g, x)} :: d in Deps(g, x) ==> !ShareLevel(levels, x, d)
  }

  /** If the job at i is a dependency of the one at j, a level is opened between them. */
  ghost predicate KeptApart(g: Graph<string>, flags: seq<bool>, sorted: seq<string>, i: nat, j: nat)
    requires i < |sorted| == |flags| && j < |sorted|
  {
    sorted[i] in Deps(g, sorted[j]) ==> !(if i <= j then NoneOpens(flags, i, j) else NoneOpens(flags, j, i))
  }

  ghost predicate AllKeptApart(g: Graph<string>, flags: seq<bool>, sorted: seq<string>)
    requires |sorted| == |flags|
  {
    forall i: nat, j: nat {:trigger KeptApart(g, flags, sorted, i, j)} ::
      i < |sorted| && j < |sorted| ==> KeptApart(g, flags, sorted, i, j)
  }

  lemma KeptApartIff(g: Graph<string>, test: Test, sorted: seq<string>, i: nat, j: nat)
    requires NoDup(sorted) && i < |sorted| && j < |sorted|
    ensures KeptApart(g, Openings(g, test, sorted), sorted, i, j) <==>
      (sorted[i] in Deps(g, sorted[j]) ==> !ShareLevel(Levels(g, test, sorted), sorted[j], sorted[i]))
  {
    if i <= j { ShareLevelIff(g, test, sorted, i, j); } else { ShareLevelIff(g, test, sorted, j, i); }
  }

  lemma PlaceOf(g: Graph<string>, test: Test, sorted: seq<string>, d: string, x: string) returns (i: nat, j: nat)
    requires ShareLevel(Levels(g, test, sorted), x, d)
    ensures i < |sorted| && j < |sorted| && sorted[i] == d && sorted[j] == x
  {
    var levels := Levels(g, test, sorted);
    var k: nat :| StandsAt(levels, k, x) && StandsAt(levels, k, d);
    InFlattened(levels, k, x);
    InFlattened(levels, k, d);
    LevelsFlatten(g, test, sorted);
    i :| 0 <= i < |sorted| && sorted[i] == d;
    j :| 0 <= j < |sorted| && sorted[j] == x;
  }

  /**
    On any order, cyclic matrices included, the levels serve their purpose exactly when openings keep
    dependencies apart.
   */
  lemma LevelsIndependentIff(g: Graph<string>, test: Test, sorted: seq<string>)
    requires NoDup(sorted)
    ensures LevelsIndependent(g, Levels(g, test, sorted)) <==> AllKeptApart(g, Openings(g, test, sorted), sorted)
  {
    var levels, flags := Levels(g, test, sorted), Openings(g, test, sorted);
    if LevelsIndependent(g, levels) {
      forall i: nat, j: nat | i < |sorted| && j < |sorted| ensures KeptApart(g, flags, sorted, i, j) {
        KeptApartIff(g, test, sorted, i, j);
      }
    }
    forall x, d | d in Deps(g, x) && ShareLevel(levels, x, d) ensures !AllKeptApart(g, flags, sorted) {
      var i, j := PlaceOf(g, test, sorted, d, x);
      KeptApartIff(g, test, sorted, i, j);
      assert !KeptApart(g, flags, sorted, i, j);
    }
  }

  /**
    On matrices without reachable cycles the test as written separates nothing: no listed job may have a
    dependency.
   */
  lemma OrderedIndependentIff(g: Graph<string>, sorted: seq<string>)
    requires DepsFirst(g, sorted)
    ensures LevelsIndependent(g, Levels(g, AgainstListed, sorted)) <==> forall x :: x in sorted ==> Deps(g, x) == []
  {
    if sorted != [] {
      OrderedIsOneLevel(g, sorted);
      var levels := Levels(g, AgainstListed, sorted);
      forall x, d | x in sorted && d in Deps(g, x) ensures ShareLevel(levels, x, d) {
        var i :| 0 <= i < |sorted| && sorted[i] == x;
        assert d in sorted[..i];
        assert StandsAt(levels, 0, x) && StandsAt(levels, 0, d);
      }
      if x :| x in sorted && Deps(g, x) != [] {
        assert Deps(g, x)[0] in Deps(g, x);
      }
      forall x, d | ShareLevel(levels, x, d) ensures x in sorted {}
    }
  }

  /** A job and its dependency, in the right order, end up in one level. */
  lemma OneLevelExample()
    ensures var g: Graph<string>, sorted := map["a" := ["b"], "b" := []], ["b", "a"];
      DepsFirst(g, sorted) && Levels(g, AgainstListed, sorted) == [["b", "a"]] &&
      !LevelsIndependent(g, Levels(g, AgainstListed, sorted))
  {
    var g: Graph<string>, sorted := map["a" := ["b"], "b" := []], ["b", "a"];
    assert sorted[..1] == ["b"];
    OrderedIsOneLevel(g, sorted);
    OrderedIndependentIff(g, sorted);
    assert "a" in sorted && Deps(g, "a") == ["b"];
  }

  // ---------------------------------------------------------------- the test against finished levels

  /** Every dependency of a job of a level stands in an earlier level. */
  ghost predicate DepsInEarlierLevels(g: Graph<string>, levels: seq<seq<string>>) {
    forall k, x, d {:trigger x in levels[k], d in Deps(g, x)} ::
      0 <= k < |levels| && x in levels[k] && d in Deps(g, x) ==> d in Flatten(levels[..k])
  }

  /** Against finished levels, dependencies of jobs of the open level are in finished ones. */
  ghost predicate Separated(g: Graph<string>, all: Grouping) {
    DepsInEarlierLevels(g, all.levels) &&
    forall x, d {:trigger d in Deps(g, x)} :: x in all.current && d in Deps(g, x) ==> d in Flatten(all.levels)
  }

  lemma CloseSeparated(g: Graph<string>, all: Grouping)
    requires Separated(g, all)
    ensures DepsInEarlierLevels(g, Close(all))
  {
    var levels := Close(all);
    forall k, x, d | 0 <= k < |levels| && x in levels[k] && d in Deps(g, x) ensures d in Flatten(levels[..k]) {
      if k < |all.levels| {
        assert levels[..k] == all.levels[..k];
      } else {
        assert levels[..k] == all.levels;
      }
    }
  }

  lemma PlaceSeparated(g: Graph<string>, all: Grouping, id: string)
    requires Separated(g, all) && AllListed(g, Listed(all), id)
    ensures Separated(g, Place(g, AgainstFinished, all, id))
  {
    CloseSeparated(g, all);
    FlattenClose(all);
  }

  lemma {:induction false} GroupSeparated(g: Graph<string>, sorted: seq<string>)
    requires DepsFirst(g, sorted)
    ensures Separated(g, Group(g, AgainstFinished, sorted))
    decreases |sorted|
  {
    if sorted != [] {
      var n := |sorted| - 1;
      OrderedPrefix(g, sorted, n);
      GroupSeparated(g, sorted[..n]);
      GroupLists(g, AgainstFinished, sorted[..n]);
      PlaceSeparated(g, Group(g, AgainstFinished, sorted[..n]), sorted[n]);
    }
  }

  lemma {:induction false} LevelOf(levels: seq<seq<string>>, x: string) returns (k: nat)
    requires x in Flatten(levels)
    ensures StandsAt(levels, k, x)
    decreases |levels|
  {
    var n := |levels| - 1;
    if x in levels[n] { k := n; } else { k := LevelOf(levels[..n], x); }
  }

  lemma EarlierLevel(levels: seq<seq<string>>, k: nat, d: string)
    requires NoDup(Flatten(levels)) && k < |levels| && d in Flatten(levels[..k])
    ensures !StandsAt(levels, k, d)
  {
    var j := LevelOf(levels[..k], d);
    if StandsAt(levels, k, d) {
      StandsOnce(levels, j, k, d);
    }
  }

  /** Tested against finished levels, levels serve their purpose on every order of a matrix without reachable cycles. */
  lemma FinishedLevelsSeparate(g: Graph<string>, sorted: seq<string>)
    requires DepsFirst(g, sorted) && NoDup(sorted)
    ensures var levels := Levels(g, AgainstFinished, sorted);
      Flatten(levels) == sorted && DepsInEarlierLevels(g, levels) && LevelsIndependent(g, levels)
  {
    var levels := Levels(g, AgainstFinished, sorted);
    LevelsFlatten(g, AgainstFinished, sorted);
    GroupSeparated(g, sorted);
    CloseSeparated(g, Group(g, AgainstFinished, sorted));
    forall x, d | d in Deps(g, x) ensures !ShareLevel(levels, x, d) {
      if k: nat :| StandsAt(levels, k, x) && StandsAt(levels, k, d) {
        EarlierLevel(levels, k, d);
      }
    }
  }
}
