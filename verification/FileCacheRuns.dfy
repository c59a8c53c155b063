/** Runs of the file-level cache: which artifact a file is found with after any caching and invalidating. */
module FileCacheRuns {
  import opened Options
  import opened Paths

  type Hash = string
  datatype Artifact = Artifact(hash: Hash, data: string)

  /** The two tables of the cache: hashes by file key, artifacts by hash. */
  datatype Tables = Tables(files: map<string, Hash>, store: map<Hash, Artifact>)

  datatype Op = Cache(file: Path, artifact: Artifact) | Invalidate(file: Path) | InvalidateAll(dir: Path)

  /** The directory's key with a slash at its end, so that a prefix is a directory. */
  function DirectoryKey(dir: Path): string {
    var key := ForwardSlashes(dir);
    if key != "" && key[|key| - 1] == '/' then key else key + "/"
  }

  function Step(t: Tables, op: Op): Tables {
    match op
    case Cache(file, artifact) =>
      Tables(t.files[ForwardSlashes(file) := artifact.hash], t.store[artifact.hash := artifact])
    case Invalidate(file) => t.(files := t.files - {ForwardSlashes(file)})
    case InvalidateAll(dir) => t.(files := map k | k in t.files && !(DirectoryKey(dir) <= k) :: t.files[k])
  }

  function Run(ops: seq<Op>): Tables {
    if ops == [] then Tables(map[], map[]) else Step(Run(ops[..|ops| - 1]), ops[|ops| - 1])
  }

  /** Every hash a file is listed under is stored, and every artifact is stored under its own hash. */
  ghost predicate Stored(t: Tables) {
    && (forall k :: k in t.files ==> t.files[k] in t.store)
    && (forall h :: h in t.store ==> t.store[h].hash == h)
  }

  function LookUp(t: Tables, file: Path): Option<Artifact> {
    var key := ForwardSlashes(file);
    if key in t.files && t.files[key] in t.store then Some(t.store[t.files[key]]) else None
  }

  lemma StepKeepsStored(t: Tables, op: Op)
    requires Stored(t)
    ensures Stored(Step(t, op))
  {
  }

  // ---------------------------------------------------------------- what a run says

  /** What was cached last for the file under either spelling of its path, unless it was invalidated since. */
  function LastCached(ops: seq<Op>, file: Path): Option<Artifact> {
    if ops == [] then None
    else
      var before := ops[..|ops| - 1];
      match ops[|ops| - 1]
      case Cache(f, artifact) =>
        if ForwardSlashes(f) == ForwardSlashes(file) then Some(artifact) else LastCached(before, file)
      case Invalidate(f) =>
        if ForwardSlashes(f) == ForwardSlashes(file) then None else LastCached(before, file)
      case InvalidateAll(dir) =>
        if DirectoryKey(dir) <= ForwardSlashes(file) then None else LastCached(before, file)
  }

  /** The artifact cached last under a hash, for whatever file. */
  function LastUnder(ops: seq<Op>, hash: Hash): Option<Artifact> {
    if ops == [] then None
    else
      var before, op := ops[..|ops| - 1], ops[|ops| - 1];
      if op.Cache? && op.artifact.hash == hash then Some(op.artifact) else LastUnder(before, hash)
  }

  lemma {:induction false} RunIsStored(ops: seq<Op>)
    ensures Stored(Run(ops))
  {
    if ops != [] {
      RunIsStored(ops[..|ops| - 1]);
      StepKeepsStored(Run(ops[..|ops| - 1]), ops[|ops| - 1]);
    }
  }

  lemma {:induction false} ListedIsLastCached(ops: seq<Op>, file: Path)
    ensures var files, key := Run(ops).files, ForwardSlashes(file);
      LastCached(ops, file).Some? == (key in files) &&
      (key in files ==> files[key] == LastCached(ops, file).value.hash)
  {
    if ops != [] { ListedIsLastCached(ops[..|ops| - 1], file); }
  }

  lemma {:induction false} StoredIsLastUnder(ops: seq<Op>, hash: Hash)
    ensures var store := Run(ops).store;
      LastUnder(ops, hash) == if hash in store then Some(store[hash]) else None
  {
    if ops != [] { StoredIsLastUnder(ops[..|ops| - 1], hash); }
  }

  /**
    A file is found exactly when it was cached and not invalidated since, and then with the
    latest artifact of the hash it was cached under.
   */
  lemma FoundIffCached(ops: seq<Op>, file: Path)
    ensures LookUp(Run(ops), file) ==
      match LastCached(ops, file) case None => None case Some(a) => LastUnder(ops, a.hash)
    ensures LookUp(Run(ops), file).Some? <==> LastCached(ops, file).Some?
  {
    RunIsStored(ops);
    ListedIsLastCached(ops, file);
    if LastCached(ops, file).Some? { StoredIsLastUnder(ops, LastCached(ops, file).value.hash); }
  }

  ghost predicate Caches(ops: seq<Op>, a: Artifact) {
    exists file :: Cache(file, a) in ops
  }

  /** No two different artifacts with one hash were cached. */
  ghost predicate OneArtifactPerHash(ops: seq<Op>) {
    forall a, b {:trigger Caches(ops, a), Caches(ops, b)} :: Caches(ops, a) && Caches(ops, b) && a.hash == b.hash ==>
      a == b
  }

  lemma CachesMore(before: seq<Op>, op: Op)
    ensures forall a {:trigger Caches(before, a)} :: Caches(before, a) ==> Caches(before + [op], a)
    ensures op.Cache? ==> Caches(before + [op], op.artifact)
  {
    forall a {:trigger Caches(before, a)} | Caches(before, a) ensures Caches(before + [op], a) {
      var file :| Cache(file, a) in before;
      assert Cache(file, a) in before + [op];
    }
    if op.Cache? { assert Cache(op.file, op.artifact) in before + [op]; }
  }

  lemma {:induction false} LastIsCached(ops: seq<Op>, file: Path, hash: Hash)
    ensures LastCached(ops, file).Some? ==> Caches(ops, LastCached(ops, file).value)
    ensures LastUnder(ops, hash).Some? ==>
      Caches(ops, LastUnder(ops, hash).value) && LastUnder(ops, hash).value.hash == hash
  {
    if ops != [] {
      var before, op := ops[..|ops| - 1], ops[|ops| - 1];
      assert ops == before + [op];
      LastIsCached(before, file, hash);
      CachesMore(before, op);
    }
  }

  /** With one artifact per hash a file is found with what was cached for it last, unless it was invalidated since. */
  lemma CachedFileIsFound(ops: seq<Op>, file: Path)
    requires OneArtifactPerHash(ops)
    ensures LookUp(Run(ops), file) == LastCached(ops, file)
  {
    FoundIffCached(ops, file);
    if LastCached(ops, file).Some? {
      LastIsCached(ops, file, LastCached(ops, file).value.hash);
    }
  }

  // ---------------------------------------------------------------- which files a directory takes along

  /** A directory written without a slash at its end takes along what stands below it: its key, a slash, and a name. */
  lemma DirectoryGoes(t: Tables, dir: Path, k: string)
    requires dir == "" || (dir[|dir| - 1] != '/' && dir[|dir| - 1] != '\\')
    ensures var d := ForwardSlashes(dir);
      k in Step(t, InvalidateAll(dir)).files <==> k in t.files && !(|k| > |d| && k[..|d|] == d && k[|d|] == '/')
  {
    var d := ForwardSlashes(dir);
    if |k| > |d| { assert k[..|d| + 1] == k[..|d|] + [k[|d|]]; }
    if |k| > |d| && k[..|d|] == d && k[|d|] == '/' { assert d + "/" <= k; }
    if d + "/" <= k { assert k[..|d| + 1] == d + "/"; }
  }

  /** With a slash at its end it takes along the same, and the name that is only a slash more. */
  lemma DirectoryWithSlashGoes(t: Tables, dir: Path, k: string)
    requires dir != "" && (dir[|dir| - 1] == '/' || dir[|dir| - 1] == '\\')
    ensures var d := ForwardSlashes(dir);
      k in Step(t, InvalidateAll(dir)).files <==> k in t.files && !(|k| >= |d| && k[..|d|] == d)
  {
    var d := ForwardSlashes(dir);
    assert d[|d| - 1] == '/' && DirectoryKey(dir) == d;
    assert d <= k <==> |k| >= |d| && k[..|d|] == d;
  }

  /** So a file beside the directory stays, even if its name starts with the directory's. */
  lemma SiblingStays(t: Tables, c: char, rest: string)
    requires c != '/' && "src" + [c] + rest in t.files
    ensures "src" + [c] + rest in Step(t, InvalidateAll("src")).files
  {
    assert ForwardSlashes("src") == "src";
    assert ("src" + [c] + rest)[3] == c;
    DirectoryGoes(t, "src", "src" + [c] + rest);
  }
}
