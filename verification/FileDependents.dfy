/** Which cached files a changed file affects, and what the search for them keeps true. */
module FileDependents {
  import opened Basics
  import opened FileCacheRuns
  import opened Graphs
  import opened Paths

  /** Each dependency is listed in the reverse table as often as in the forward table. */
  ghost predicate TransposedTables(deps: Graph<Path>, reverse: Graph<Path>) {
    forall a, b {:trigger Occurs(Deps(reverse, b), a)} :: Occurs(Deps(reverse, b), a) == Occurs(Deps(deps, a), b)
  }

  ghost function KeysOf(files: set<Path>): set<string> {
    set f | f in files :: ForwardSlashes(f)
  }

  /** The key belongs to some file that is the changed one or transitively depends on it. */
  ghost predicate IsAffectedKey(deps: Graph<Path>, file: Path, key: string) {
    exists f :: Reaches(deps, f, file) && ForwardSlashes(f) == key
  }

  lemma Mirror(deps: Graph<Path>, reverse: Graph<Path>, file: Path, dependsOn: Path)
    requires TransposedTables(deps, reverse)
    ensures TransposedTables(deps[file := Deps(deps, file) + [dependsOn]],
                             reverse[dependsOn := Deps(reverse, dependsOn) + [file]])
  {
    var deps', reverse' := deps[file := Deps(deps, file) + [dependsOn]],
      reverse[dependsOn := Deps(reverse, dependsOn) + [file]];
    forall a, b ensures Occurs(Deps(reverse', b), a) == Occurs(Deps(deps', a), b) {
      assert Occurs(Deps(reverse, b), a) == Occurs(Deps(deps, a), b);
      OccursAppend(Deps(deps, file), dependsOn, b);
      OccursAppend(Deps(reverse, dependsOn), file, a);
    }
  }

  lemma TablesTranspose(deps: Graph<Path>, reverse: Graph<Path>)
    requires TransposedTables(deps, reverse)
    ensures Transposes(deps, reverse)
  {
    forall x, y ensures y in Deps(deps, x) <==> x in Deps(reverse, y) {
      assert Occurs(Deps(reverse, y), x) == Occurs(Deps(deps, x), y);
    }
  }

  lemma AffectedAreVisited(deps: Graph<Path>, reverse: Graph<Path>, file: Path, visited: set<Path>)
    requires TransposedTables(deps, reverse)
    requires forall x :: x in visited <==> Reaches(reverse, file, x)
    ensures forall key :: IsAffectedKey(deps, file, key) <==> key in KeysOf(visited)
  {
    TablesTranspose(deps, reverse);
    forall f ensures Reaches(deps, f, file) <==> f in visited {
      ReachesTransposed(deps, reverse, f, file);
    }
    forall key ensures IsAffectedKey(deps, file, key) <==> key in KeysOf(visited) {
      if f :| f in visited && ForwardSlashes(f) == key {
        assert Reaches(deps, f, file);
      }
    }
  }

  // ---------------------------------------------------------------- the search

  /** The files the search can meet and has not met yet. */
  ghost function Unvisited(g: Graph<Path>, file: Path, visited: set<Path>): set<Path> {
    Nodes(g) + {file} - visited
  }

  /** Halfway: the search is on its way, and the entries left are those of no visited file. */
  ghost predicate Searching(g: Graph<Path>, file: Path, entries: map<string, Hash>, left: map<string, Hash>,
                            visited: set<Path>, queue: seq<Path>) {
    Frontier(g, file, visited, queue) && Members(queue) <= Nodes(g) + {file} && left == entries - KeysOf(visited)
  }

  lemma SearchStart(g: Graph<Path>, file: Path, entries: map<string, Hash>)
    ensures Searching(g, file, entries, entries, {}, [file])
  {
    FrontierStart(g, file);
    assert KeysOf({}) == {} && entries - {} == entries;
  }

  lemma SearchSkip(g: Graph<Path>, file: Path, entries: map<string, Hash>, left: map<string, Hash>,
                   visited: set<Path>, rest: seq<Path>, current: Path)
    requires Searching(g, file, entries, left, visited, rest + [current]) && current in visited
    ensures Searching(g, file, entries, left, visited, rest)
  {
    FrontierStep(g, file, visited, rest + [current], current, rest);
    assert visited + {current} == visited;
    assert Members(rest + [current]) == Members(rest) + {current};
  }

  lemma FewerUnvisited(g: Graph<Path>, file: Path, visited: set<Path>, current: Path)
    requires current in Nodes(g) + {file} && current !in visited
    ensures |Unvisited(g, file, visited + {current})| < |Unvisited(g, file, visited)|
  {
    FewerLeft(Nodes(g) + {file}, visited, current);
  }

  lemma UnseenAreNodes(g: Graph<Path>, file: Path, rest: seq<Path>, current: Path, unseen: seq<Path>)
    requires Members(rest + [current]) <= Nodes(g) + {file} && forall x :: x in unseen ==> x in Deps(g, current)
    ensures Members(rest + unseen) <= Nodes(g) + {file}
  {
    assert Members(rest + [current]) == Members(rest) + {current};
    assert Members(rest + unseen) == Members(rest) + Members(unseen);
  }

  lemma EntriesLeft(entries: map<string, Hash>, visited: set<Path>, current: Path)
    ensures entries - KeysOf(visited) - {ForwardSlashes(current)} == entries - KeysOf(visited + {current})
  {
    assert KeysOf(visited + {current}) == KeysOf(visited) + {ForwardSlashes(current)};
  }

  lemma SearchVisit(g: Graph<Path>, file: Path, entries: map<string, Hash>, left: map<string, Hash>,
                    visited: set<Path>, rest: seq<Path>, current: Path, unseen: seq<Path>)
    requires Searching(g, file, entries, left, visited, rest + [current]) && current !in visited
    requires forall x :: x in unseen <==> x in Deps(g, current) && x !in visited + {current}
    ensures Searching(g, file, entries, left - {ForwardSlashes(current)}, visited + {current}, rest + unseen)
    ensures |Unvisited(g, file, visited + {current})| < |Unvisited(g, file, visited)|
  {
    FrontierStep(g, file, visited, rest + [current], current, rest + unseen);
    UnseenAreNodes(g, file, rest, current, unseen);
    EntriesLeft(entries, visited, current);
    assert (rest + [current])[|rest|] == current;
    FewerUnvisited(g, file, visited, current);
  }

  lemma SearchDone(deps: Graph<Path>, g: Graph<Path>, file: Path, entries: map<string, Hash>, left: map<string, Hash>,
                   visited: set<Path>)
    requires TransposedTables(deps, g) && Searching(g, file, entries, left, visited, [])
    ensures forall key :: key in left <==> key in entries && !IsAffectedKey(deps, file, key)
    ensures forall key :: key in left ==> left[key] == entries[key]
  {
    FrontierDone(g, file, visited);
    AffectedAreVisited(deps, g, file, visited);
  }

  // ---------------------------------------------------------------- keys

  predicate SameUpToSlashes(a: Path, b: Path) {
    |a| == |b| && forall i :: 0 <= i < |a| ==> a[i] == b[i] || (a[i] in {'/', '\\'} && b[i] in {'/', '\\'})
  }

  /** Files written with either slash share one key, and nothing else does. */
  lemma SameKeyIff(a: Path, b: Path)
    ensures ForwardSlashes(a) == ForwardSlashes(b) <==> SameUpToSlashes(a, b)
  {
    if ForwardSlashes(a) == ForwardSlashes(b) {
      forall i | 0 <= i < |a| ensures a[i] == b[i] || (a[i] in {'/', '\\'} && b[i] in {'/', '\\'}) {
        assert ForwardSlashes(a)[i] == ForwardSlashes(b)[i];
      }
    }
  }

  // ---------------------------------------------------------------- dependencies between keys

  /** Some file of the first key lists a file of the second. */
  ghost predicate KeyEdge(deps: Graph<Path>, k: string, l: string) {
    exists f, d {:trigger d in Deps(deps, f)} :: d in Deps(deps, f) && ForwardSlashes(f) == k && ForwardSlashes(d) == l
  }

  ghost predicate KeyWalk(deps: Graph<Path>, ks: seq<string>) {
    ks != [] && forall i :: 0 <= i < |ks| - 1 ==> KeyEdge(deps, ks[i], ks[i + 1])
  }

  /** The first key depends on the second when both spellings of a path count as one file. */
  ghost predicate KeyDependsOn(deps: Graph<Path>, k: string, l: string) {
    exists ks :: KeyWalk(deps, ks) && ks[0] == k && ks[|ks| - 1] == l
  }

  /** Every key that depends on the changed file's key is affected, and so goes. */
  ghost predicate AllDependentsGo(deps: Graph<Path>, file: Path) {
    forall key :: KeyDependsOn(deps, key, ForwardSlashes(file)) ==> IsAffectedKey(deps, file, key)
  }

  /** Listing any spelling of an affected file makes the listing file's key an affected one. */
  ghost predicate SpellingsAgree(deps: Graph<Path>, file: Path) {
    forall f, d {:trigger d in Deps(deps, f)} ::
      d in Deps(deps, f) && IsAffectedKey(deps, file, ForwardSlashes(d)) ==>
        IsAffectedKey(deps, file, ForwardSlashes(f))
  }

  lemma KeyStep(deps: Graph<Path>, f: Path, d: Path, rest: seq<string>) returns (ks: seq<string>)
    requires KeyWalk(deps, rest) && d in Deps(deps, f) && rest[0] == ForwardSlashes(d)
    ensures KeyWalk(deps, ks) && ks[0] == ForwardSlashes(f) && ks[|ks| - 1] == rest[|rest| - 1]
  {
    ks := [ForwardSlashes(f)] + rest;
    assert KeyEdge(deps, ks[0], ks[1]);
    forall i | 0 < i < |ks| - 1 ensures KeyEdge(deps, ks[i], ks[i + 1]) {
      assert KeyEdge(deps, rest[i - 1], rest[i - 1 + 1]);
    }
  }

  lemma {:induction false} WalkOfKeys(deps: Graph<Path>, p: seq<Path>) returns (ks: seq<string>)
    requires Walk(deps, p)
    ensures KeyWalk(deps, ks) && ks[0] == ForwardSlashes(p[0]) && ks[|ks| - 1] == ForwardSlashes(p[|p| - 1])
    decreases |p|
  {
    if |p| == 1 {
      ks := [ForwardSlashes(p[0])];
    } else {
      var rest := WalkOfKeys(deps, p[1..]);
      ks := KeyStep(deps, p[0], p[1], rest);
    }
  }

  lemma AffectedKeyDepends(deps: Graph<Path>, file: Path, key: string) returns (ks: seq<string>)
    requires IsAffectedKey(deps, file, key)
    ensures KeyWalk(deps, ks) && ks[0] == key && ks[|ks| - 1] == ForwardSlashes(file)
  {
    var f :| Reaches(deps, f, file) && ForwardSlashes(f) == key;
    if f == file {
      ks := [key];
    } else {
      var p :| WalkFrom(deps, f, p) && |p| >= 2 && p[|p| - 1] == file;
      ks := WalkOfKeys(deps, p);
    }
  }

  lemma {:induction false} DependentKeyIsAffected(deps: Graph<Path>, file: Path, ks: seq<string>, i: nat)
    requires SpellingsAgree(deps, file) && KeyWalk(deps, ks) && ks[|ks| - 1] == ForwardSlashes(file) && i < |ks|
    ensures IsAffectedKey(deps, file, ks[i])
    decreases |ks| - i
  {
    if i == |ks| - 1 {
      assert Reaches(deps, file, file);
    } else {
      DependentKeyIsAffected(deps, file, ks, i + 1);
      assert KeyEdge(deps, ks[i], ks[i + 1]);
      var f, d :| d in Deps(deps, f) && ForwardSlashes(f) == ks[i] && ForwardSlashes(d) == ks[i + 1];
    }
  }

  /** Nothing that depends on the changed key stays if and only if the spellings in the table agree so far. */
  lemma AllDependentsGoIff(deps: Graph<Path>, file: Path)
    ensures AllDependentsGo(deps, file) <==> SpellingsAgree(deps, file)
  {
    if SpellingsAgree(deps, file) {
      forall key | KeyDependsOn(deps, key, ForwardSlashes(file)) ensures IsAffectedKey(deps, file, key) {
        var ks :| KeyWalk(deps, ks) && ks[0] == key && ks[|ks| - 1] == ForwardSlashes(file);
        DependentKeyIsAffected(deps, file, ks, 0);
      }
    }
    if AllDependentsGo(deps, file) {
      forall f, d {:trigger d in Deps(deps, f)} | d in Deps(deps, f) && IsAffectedKey(deps, file, ForwardSlashes(d))
        ensures IsAffectedKey(deps, file, ForwardSlashes(f))
      {
        var rest := AffectedKeyDepends(deps, file, ForwardSlashes(d));
        var ks := KeyStep(deps, f, d, rest);
        assert KeyDependsOn(deps, ForwardSlashes(f), ForwardSlashes(file));
      }
    }
  }

  lemma ReachingIsNode(deps: Graph<Path>, x: Path, file: Path)
    requires Reaches(deps, x, file)
    ensures x in Nodes(deps) + {file}
  {
    if x != file {
      var p :| WalkFrom(deps, x, p) && |p| >= 2 && p[|p| - 1] == file;
      assert p[1] in Deps(deps, x);
    }
  }

  lemma ReachesBack(deps: Graph<Path>, f: Path, d: Path, file: Path)
    requires d in Deps(deps, f) && Reaches(deps, d, file)
    ensures Reaches(deps, f, file)
  {
    LeadsStep(deps, f, d);
    if d != file && f != file { LeadsTrans(deps, f, d, file); }
  }

  /** So it is when no path of the table, or the changed file, has two spellings. */
  lemma OneSpellingIsEnough(deps: Graph<Path>, file: Path)
    requires forall a, b :: a in Nodes(deps) + {file} && b in Nodes(deps) + {file} && SameUpToSlashes(a, b) ==> a == b
    ensures AllDependentsGo(deps, file)
  {
    forall f, d {:trigger d in Deps(deps, f)} | d in Deps(deps, f) && IsAffectedKey(deps, file, ForwardSlashes(d))
      ensures IsAffectedKey(deps, file, ForwardSlashes(f))
    {
      var x :| Reaches(deps, x, file) && ForwardSlashes(x) == ForwardSlashes(d);
      ReachingIsNode(deps, x, file);
      SameKeyIff(x, d);
      assert f in deps && d in Nodes(deps) && x == d;
      ReachesBack(deps, f, d, file);
    }
    AllDependentsGoIff(deps, file);
  }

  lemma OnlyItselfReaches(deps: Graph<Path>, f: Path, target: Path)
    requires Reaches(deps, f, target) && forall x :: target !in Deps(deps, x)
    ensures f == target
  {
    if f != target { ReachedInside(deps, Nodes(deps) + {f} - {target}, f, target); }
  }

  /** A dependency listed with one slash is missed when the file changes under the other. */
  lemma OtherSpellingIsMissed()
    ensures var deps: Graph<Path> := map["main" := ["src\\a"]];
      KeyDependsOn(deps, "main", ForwardSlashes("src/a")) && !IsAffectedKey(deps, "src/a", "main")
  {
    var deps: Graph<Path> := map["main" := ["src\\a"]];
    assert ForwardSlashes("main") == "main" && ForwardSlashes("src\\a") == "src/a" == ForwardSlashes("src/a");
    assert "src\\a" in Deps(deps, "main");
    var ks := KeyStep(deps, "main", "src\\a", ["src/a"]);
    assert ks[0] == "main" && ks[|ks| - 1] == "src/a";
    forall f | Reaches(deps, f, "src/a") ensures f == "src/a" {
      OnlyItselfReaches(deps, f, "src/a");
    }
  }
}
