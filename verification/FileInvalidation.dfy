/** File-level caching: cached artifacts by file, dependencies in both directions, and transitive invalidation. */
module FileInvalidation {
  import opened Graphs
  import opened Options
  import opened Paths
  import opened FileCacheRuns
  import opened FileDependents

  class FileLevelCache {
    var fileArtifacts: map<string, Hash>
    var casStorage: map<Hash, Artifact>

    ghost function Contents(): Tables
      reads this
    {
      Tables(fileArtifacts, casStorage)
    }

    ghost predicate Valid()
      reads this
    {
      Stored(Contents())
    }

    constructor ()
      ensures Valid() && Contents() == Run([])
    {
      fileArtifacts, casStorage := map[], map[];
    }

    /** A file that is listed is always found, with an artifact of the hash it is listed under. */
    method GetFileArtifact(file: Path) returns (r: Option<Artifact>)
      requires Valid()
      ensures r == LookUp(Contents(), file)
      ensures r.Some? <==> ForwardSlashes(file) in fileArtifacts
      ensures r.Some? ==> r.value.hash == fileArtifacts[ForwardSlashes(file)]
    {
      var key := ForwardSlashes(file);
      if key in fileArtifacts && fileArtifacts[key] in casStorage {
        return Some(casStorage[fileArtifacts[key]]);
      }
      return None;
    }

    method CacheFile(file: Path, artifact: Artifact)
      requires Valid()
      modifies this
      ensures Valid() && Contents() == Step(old(Contents()), Cache(file, artifact))
    {
      StepKeepsStored(Contents(), Cache(file, artifact));
      casStorage := casStorage[artifact.hash := artifact];
      fileArtifacts := fileArtifacts[ForwardSlashes(file) := artifact.hash];
    }

    method InvalidateFile(file: Path)
      requires Valid()
      modifies this`fileArtifacts
      ensures Valid() && Contents() == Step(old(Contents()), Invalidate(file))
    {
      StepKeepsStored(Contents(), Invalidate(file));
      fileArtifacts := fileArtifacts - {ForwardSlashes(file)};
    }

    /** Keeps the files outside the directory. */
    method InvalidateDirectory(dir: Path)
      requires Valid()
      modifies this`fileArtifacts
      ensures Valid() && Contents() == Step(old(Contents()), InvalidateAll(dir))
    {
      StepKeepsStored(Contents(), InvalidateAll(dir));
      var dirKey := ForwardSlashes(dir);
      if dirKey == "" || dirKey[|dirKey| - 1] != '/' {
        dirKey := dirKey + "/";
      }
      fileArtifacts := map key | key in fileArtifacts && !(dirKey <= key) :: fileArtifacts[key];
    }
  }

  /** The dependents not visited yet, in order. */
  method Unseen(dependents: seq<Path>, visited: set<Path>) returns (unseen: seq<Path>)
    ensures forall x :: x in unseen <==> x in dependents && x !in visited
  {
    unseen := [];
    for i := 0 to |dependents|
      invariant forall x :: x in unseen <==> x in dependents[..i] && x !in visited
    {
      assert dependents[..i + 1] == dependents[..i] + [dependents[i]];
      if dependents[i] !in visited {
        unseen := unseen + [dependents[i]];
      }
    }
    assert dependents[..|dependents|] == dependents;
  }

  class FileDependencyGraph {
    var dependencies: Graph<Path>
    var reverseDependencies: Graph<Path>

    ghost predicate Valid()
      reads this
    {
      TransposedTables(dependencies, reverseDependencies)
    }

    constructor ()
      ensures Valid() && dependencies == map[]
    {
      dependencies, reverseDependencies := map[], map[];
    }

    method AddDependency(file: Path, dependsOn: Path)
      requires Valid()
      modifies this
      ensures Valid()
      ensures dependencies == old(dependencies)[file := Deps(old(dependencies), file) + [dependsOn]]
    {
      Mirror(dependencies, reverseDependencies, file, dependsOn);
      dependencies := dependencies[file := Deps(dependencies, file) + [dependsOn]];
      reverseDependencies := reverseDependencies[dependsOn := Deps(reverseDependencies, dependsOn) + [file]];
    }

    /** Removes exactly the cache entries of the files that reach the changed file through their dependencies. */
    method InvalidateWithDependents(file: Path, cache: FileLevelCache)
      requires Valid() && cache.Valid()
      modifies cache`fileArtifacts
      ensures cache.Valid()
      ensures forall key :: key in cache.fileArtifacts <==>
        key in old(cache.fileArtifacts) && !IsAffectedKey(dependencies, file, key)
      ensures forall key :: key in cache.fileArtifacts ==> cache.fileArtifacts[key] == old(cache.fileArtifacts)[key]
    {
      ghost var g, entries := reverseDependencies, cache.fileArtifacts;
      var queue: seq<Path> := [file];
      var visited: set<Path> := {};
      SearchStart(g, file, entries);
      while queue != []
        invariant cache.Valid() && Searching(g, file, entries, cache.fileArtifacts, visited, queue)
        decreases |Unvisited(g, file, visited)|, |queue|
      {
        var current, rest := queue[|queue| - 1], queue[..|queue| - 1];
        assert queue == rest + [current];
        if current in visited {
          SearchSkip(g, file, entries, cache.fileArtifacts, visited, rest, current);
          queue := rest;
          continue;
        }
        var unseen := Unseen(Deps(reverseDependencies, current), visited + {current});
        SearchVisit(g, file, entries, cache.fileArtifacts, visited, rest, current, unseen);
        visited := visited + {current};
        cache.InvalidateFile(current);
        queue := rest + unseen;
      }
      SearchDone(dependencies, g, file, entries, cache.fileArtifacts, visited);
    }
  }
}
