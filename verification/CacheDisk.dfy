/** What a local cache keeps on disk, what references what, and what it costs. */
module CacheDisk {
  import opened Graphs
  import opened Options

  datatype CacheRecord = CacheRecord(storedAt: nat, size: nat, artifactHash: Option<string>)
  datatype File = File(size: nat, mtime: nat)

  /** Records by path, objects by name, and the temporary files beside the records. */
  datatype Disk = Disk(records: map<string, CacheRecord>, objects: map<string, File>, tmpFiles: map<string, File>)

  predicate IsTmp(name: string) {
    |name| > 4 && name[|name| - 4..] == ".tmp"
  }

  // ---------------------------------------------------------------- references

  ghost predicate Referenced(records: map<string, CacheRecord>, hash: string) {
    exists p :: p in records && records[p].artifactHash == Some(hash)
  }

  ghost function Referrers(records: map<string, CacheRecord>, hash: string): set<string> {
    set p | p in records && records[p].artifactHash == Some(hash)
  }

  /** Every record's object exists. */
  ghost predicate NoDangling(d: Disk) {
    forall h {:trigger Referenced(d.records, h)} :: Referenced(d.records, h) ==> h in d.objects
  }

  /**
    The disk when only some of its records are kept and every object goes with the last
    record that references it. Objects no record ever referenced stay.
   */
  ghost function Kept(d: Disk, kept: map<string, CacheRecord>): Disk {
    Disk(kept, map n | n in d.objects && (Referenced(kept, n) || !Referenced(d.records, n)) :: d.objects[n], d.tmpFiles)
  }

  ghost predicate SubMap<T>(a: map<string, T>, b: map<string, T>) {
    forall p :: p in a ==> p in b && a[p] == b[p]
  }

  lemma ReferencedGrows(a: map<string, CacheRecord>, b: map<string, CacheRecord>, hash: string)
    requires SubMap(a, b) && Referenced(a, hash)
    ensures Referenced(b, hash)
  {
    var p :| p in a && a[p].artifactHash == Some(hash);
    assert p in b && b[p].artifactHash == Some(hash);
  }

  lemma KeptTwice(d: Disk, a: map<string, CacheRecord>, b: map<string, CacheRecord>)
    requires SubMap(a, d.records) && SubMap(b, a)
    ensures Kept(Kept(d, a), b) == Kept(d, b)
  {
    forall n ensures n in Kept(Kept(d, a), b).objects <==> n in Kept(d, b).objects {
      if Referenced(a, n) { ReferencedGrows(a, d.records, n); }
      if Referenced(b, n) { ReferencedGrows(b, a, n); }
    }
  }

  lemma KeptAll(d: Disk)
    ensures Kept(d, d.records) == d
  {
  }

  /** Removing records with their last-referenced objects never leaves a record without its object. */
  lemma KeptKeepsReferences(d: Disk, kept: map<string, CacheRecord>)
    requires NoDangling(d) && SubMap(kept, d.records)
    ensures NoDangling(Kept(d, kept))
  {
    forall h | Referenced(kept, h) ensures h in Kept(d, kept).objects {
      ReferencedGrows(kept, d.records, h);
      assert h in d.objects;
    }
  }

  // ---------------------------------------------------------------- bytes

  ghost function SumBy<T>(m: map<string, T>, size: T -> nat): nat
    decreases m.Keys
  {
    if m == map[] then 0
    else
      var k :| k in m;
      size(m[k]) + SumBy(m - {k}, size)
  }

  lemma {:induction false} SumRemove<T>(m: map<string, T>, size: T -> nat, k: string)
    requires k in m
    ensures SumBy(m, size) == size(m[k]) + SumBy(m - {k}, size)
    decreases m.Keys
  {
    var first :| first in m && SumBy(m, size) == size(m[first]) + SumBy(m - {first}, size);
    if first != k {
      SumRemove(m - {first}, size, k);
      SumRemove(m - {k}, size, first);
      assert m - {first} - {k} == m - {k} - {first};
    }
  }

  function RecordSize(r: CacheRecord): nat { r.size }

  function FileSize(f: File): nat { f.size }

  ghost function RecordBytes(records: map<string, CacheRecord>): nat {
    SumBy(records, RecordSize)
  }

  ghost function FileBytes(files: map<string, File>): nat {
    SumBy(files, FileSize)
  }

  /** The bytes the size limit counts: records and objects. */
  ghost function Counted(d: Disk): nat {
    RecordBytes(d.records) + FileBytes(d.objects)
  }

  ghost function AllBytes(d: Disk): nat {
    Counted(d) + FileBytes(d.tmpFiles)
  }

  /** The bytes of the objects that go with their last record. */
  ghost function CascadedBytes(d: Disk, kept: map<string, CacheRecord>): int {
    FileBytes(d.objects) - FileBytes(Kept(d, kept).objects)
  }

  /** What goes from a map takes its sizes along, so nothing is lost exactly when all that goes is empty. */
  lemma {:induction false} SumLostIff<T>(m: map<string, T>, sub: map<string, T>, size: T -> nat)
    requires SubMap(sub, m)
    ensures SumBy(sub, size) <= SumBy(m, size)
    ensures SumBy(sub, size) == SumBy(m, size) <==> forall k :: k in m && k !in sub ==> size(m[k]) == 0
    decreases m.Keys
  {
    if m == map[] {
      assert sub == map[];
    } else {
      var k :| k in m;
      SumRemove(m, size, k);
      if k in sub { SumRemove(sub, size, k); } else { assert sub - {k} == sub; }
      SumLostIff(m - {k}, sub - {k}, size);
      if forall x :: x in m - {k} && x !in sub - {k} ==> size((m - {k})[x]) == 0 {
        forall x | x in m && x !in sub && x != k ensures size(m[x]) == 0 {
          assert x in m - {k} && x !in sub - {k} && (m - {k})[x] == m[x];
        }
      } else {
        var x :| x in m - {k} && x !in sub - {k} && size((m - {k})[x]) != 0;
        assert x in m && x !in sub && size(m[x]) != 0;
      }
    }
  }

  /** Every object that goes with its last record is an empty file. */
  ghost predicate CascadesEmpty(d: Disk, kept: map<string, CacheRecord>) {
    forall n :: n in d.objects && Referenced(d.records, n) && !Referenced(kept, n) ==> d.objects[n].size == 0
  }

  lemma CascadedBytesIff(d: Disk, kept: map<string, CacheRecord>)
    ensures CascadedBytes(d, kept) >= 0
    ensures CascadedBytes(d, kept) == 0 <==> CascadesEmpty(d, kept)
  {
    SumLostIff(d.objects, Kept(d, kept).objects, FileSize);
    if CascadesEmpty(d, kept) {
      forall n | n in d.objects && n !in Kept(d, kept).objects ensures FileSize(d.objects[n]) == 0 {}
    } else {
      var n :| n in d.objects && Referenced(d.records, n) && !Referenced(kept, n) && d.objects[n].size != 0;
      assert n in d.objects && n !in Kept(d, kept).objects && FileSize(d.objects[n]) != 0;
    }
  }

  // ---------------------------------------------------------------- eviction by age

  /** At least the given age; times in the future count as new. */
  predicate Aged(time: nat, now: nat, age: nat) {
    (if now >= time then now - time else 0) >= age
  }

  ghost function YoungRecords(records: map<string, CacheRecord>, now: nat, age: nat): map<string, CacheRecord> {
    map p | p in records && !Aged(records[p].storedAt, now, age) :: records[p]
  }

  ghost function YoungFiles(files: map<string, File>, now: nat, age: nat): map<string, File> {
    map n | n in files && !Aged(files[n].mtime, now, age) :: files[n]
  }

  /**
    What age leaves: the young records; the objects whose last record has not gone,
    except old ones that are temporary or were never referenced; the young temporary files.
   */
  ghost function AfterAge(d: Disk, now: nat, age: nat): Disk {
    var young := YoungRecords(d.records, now, age);
    Disk(young,
         map n | n in Kept(d, young).objects &&
           !(Aged(d.objects[n].mtime, now, age) && (IsTmp(n) || !Referenced(d.records, n))) :: d.objects[n],
         YoungFiles(d.tmpFiles, now, age))
  }

  /** The sweep leaves a dangling reference exactly when a young record names an old temporary file as its object. */
  lemma AgeKeepsReferencesIff(d: Disk, now: nat, age: nat)
    requires NoDangling(d)
    ensures NoDangling(AfterAge(d, now, age)) <==>
      forall h {:trigger IsTmp(h)} ::
        Referenced(YoungRecords(d.records, now, age), h) && h in d.objects && IsTmp(h) ==>
          !Aged(d.objects[h].mtime, now, age)
  {
    var young := YoungRecords(d.records, now, age);
    KeptKeepsReferences(d, young);
    forall h | Referenced(young, h)
      ensures h in d.objects
      ensures h in AfterAge(d, now, age).objects <==> !(IsTmp(h) && Aged(d.objects[h].mtime, now, age))
    {
      ReferencedGrows(young, d.records, h);
    }
  }

  /** An old object whose name ends in ".tmp" is swept from under a young record. */
  lemma TmpObjectIsSwept()
    ensures var record := CacheRecord(10, 1, Some("a.tmp"));
      var d := Disk(map["r" := record], map["a.tmp" := File(1, 0)], map[]);
      NoDangling(d) && !NoDangling(AfterAge(d, 10, 5))
  {
    var record := CacheRecord(10, 1, Some("a.tmp"));
    var d := Disk(map["r" := record], map["a.tmp" := File(1, 0)], map[]);
    forall h | Referenced(d.records, h) ensures h in d.objects {
      var p :| p in d.records && d.records[p].artifactHash == Some(h);
    }
    var young := YoungRecords(d.records, 10, 5);
    assert "r" in young && young["r"].artifactHash == Some("a.tmp");
    assert Referenced(young, "a.tmp") && IsTmp("a.tmp");
    AgeKeepsReferencesIff(d, 10, 5);
  }

  // ---------------------------------------------------------------- eviction by size

  /** The disk without some objects. */
  ghost function WithoutObjects(d: Disk, names: set<string>): Disk {
    d.(objects := d.objects - names)
  }

  /** The names in some order, each once. */
  ghost predicate Lists<T>(names: seq<string>, m: map<string, T>) {
    NoDup(names) && Members(names) == m.Keys
  }

  ghost predicate OldestRecordsFirst(paths: seq<string>, records: map<string, CacheRecord>) {
    forall i, j :: 0 <= i < j < |paths| && paths[i] in records && paths[j] in records ==>
      records[paths[i]].storedAt <= records[paths[j]].storedAt
  }

  ghost predicate OldestFilesFirst(names: seq<string>, files: map<string, File>) {
    forall i, j :: 0 <= i < j < |names| && names[i] in files && names[j] in files ==>
      files[names[i]].mtime <= files[names[j]].mtime
  }

  /** How the size limit was met: so many of the records and then so many of the objects, in these orders. */
  datatype Plan = Plan(paths: seq<string>, drops: nat, names: seq<string>, removals: nat)

  /** The disk after the first so many records went, each object with its last record. */
  ghost function RecordStage(d: Disk, paths: seq<string>, i: nat): Disk
    requires i <= |paths|
  {
    Kept(d, d.records - Members(paths[..i]))
  }

  /** The disk after the first so many listed objects went; some may have gone before. */
  ghost function ObjectStage(d: Disk, names: seq<string>, i: nat): Disk
    requires i <= |names|
  {
    WithoutObjects(d, Members(names[..i]))
  }

  /** The limit is exceeded before each of the first n records goes. */
  ghost predicate RecordsExceed(d: Disk, max: nat, paths: seq<string>, n: nat)
    requires n <= |paths|
  {
    n == 0 || (RecordsExceed(d, max, paths, n - 1) && Counted(RecordStage(d, paths, n - 1)) > max)
  }

  ghost predicate EvictsRecords(d: Disk, max: nat, paths: seq<string>, drops: nat)
    requires drops <= |paths|
  {
    RecordsExceed(d, max, paths, drops) && (drops == |paths| || Counted(RecordStage(d, paths, drops)) <= max)
  }

  /** The limit is exceeded before each of the first n listed objects goes. */
  ghost predicate ObjectsExceed(d: Disk, max: nat, names: seq<string>, n: nat)
    requires n <= |names|
  {
    n == 0 || (ObjectsExceed(d, max, names, n - 1) && Counted(ObjectStage(d, names, n - 1)) > max)
  }

  ghost predicate EvictsObjects(d: Disk, max: nat, names: seq<string>, removals: nat)
    requires removals <= |names|
  {
    ObjectsExceed(d, max, names, removals) && (removals == |names| || Counted(ObjectStage(d, names, removals)) <= max)
  }

  /** Records go oldest first while the limit is exceeded, then objects do; and nothing else goes. */
  ghost predicate Evicts(d: Disk, max: nat, plan: Plan, after: Disk) {
    && Lists(plan.paths, d.records) && OldestRecordsFirst(plan.paths, d.records) && plan.drops <= |plan.paths|
    && EvictsRecords(d, max, plan.paths, plan.drops)
    && Lists(plan.names, d.objects) && OldestFilesFirst(plan.names, d.objects) && plan.removals <= |plan.names|
    && EvictsObjects(RecordStage(d, plan.paths, plan.drops), max, plan.names, plan.removals)
    && after == ObjectStage(RecordStage(d, plan.paths, plan.drops), plan.names, plan.removals)
  }

  lemma {:induction false} ExceedsAt(d: Disk, max: nat, names: seq<string>, n: nat, i: nat)
    requires i < n <= |names|
    ensures RecordsExceed(d, max, names, n) ==> Counted(RecordStage(d, names, i)) > max
    ensures ObjectsExceed(d, max, names, n) ==> Counted(ObjectStage(d, names, i)) > max
    decreases n
  {
    if i < n - 1 { ExceedsAt(d, max, names, n - 1, i); }
  }

  lemma FirstStages(d: Disk, paths: seq<string>, names: seq<string>)
    ensures RecordStage(d, paths, 0) == d && ObjectStage(d, names, 0) == d
  {
    assert Members(paths[..0]) == {} && Members(names[..0]) == {};
    assert d.records - {} == d.records && d.objects - {} == d.objects;
    KeptAll(d);
  }

  lemma LastStages(d: Disk, paths: seq<string>, names: seq<string>)
    ensures Lists(paths, d.records) ==> RecordStage(d, paths, |paths|).records == map[]
    ensures d.objects.Keys <= Members(names) ==> ObjectStage(d, names, |names|).objects == map[]
  {
    assert paths[..|paths|] == paths && names[..|names|] == names;
  }

  /** An object is removed for its own size only when no record is left. */
  lemma ObjectsGoLast(d: Disk, max: nat, plan: Plan, after: Disk)
    requires Evicts(d, max, plan, after)
    ensures plan.removals > 0 ==> after.records == map[]
  {
    var stage := RecordStage(d, plan.paths, plan.drops);
    FirstStages(stage, plan.paths, plan.names);
    LastStages(d, plan.paths, plan.names);
    if plan.removals > 0 { ExceedsAt(stage, max, plan.names, plan.removals, 0); }
  }

  /** Size-based eviction never leaves a dangling reference. */
  lemma EvictionKeepsReferences(d: Disk, max: nat, plan: Plan, after: Disk)
    requires Evicts(d, max, plan, after) && NoDangling(d)
    ensures NoDangling(after)
  {
    ObjectsGoLast(d, max, plan, after);
    if plan.removals == 0 {
      FirstStages(RecordStage(d, plan.paths, plan.drops), plan.paths, plan.names);
      KeptKeepsReferences(d, d.records - Members(plan.paths[..plan.drops]));
    }
  }

  /** The limit is always met in the end. */
  lemma EvictionMeetsLimit(d: Disk, max: nat, plan: Plan, after: Disk)
    requires Evicts(d, max, plan, after)
    ensures Counted(after) <= max
  {
    var stage := RecordStage(d, plan.paths, plan.drops);
    ObjectsGoLast(d, max, plan, after);
    LastStages(d, plan.paths, plan.names);
    LastStages(stage, plan.paths, plan.names);
    FirstStages(stage, plan.paths, plan.names);
  }

  /** A cache within the limit is left alone. */
  lemma NothingToEvict(d: Disk, max: nat, plan: Plan, after: Disk)
    requires Evicts(d, max, plan, after) && Counted(d) <= max
    ensures after == d
  {
    FirstStages(d, plan.paths, plan.names);
    if plan.drops > 0 { ExceedsAt(d, max, plan.paths, plan.drops, 0); }
    if plan.removals > 0 { ExceedsAt(d, max, plan.names, plan.removals, 0); }
  }

  lemma InPrefix<T>(s: seq<T>, n: nat, j: nat)
    requires n <= |s| && j < |s|
    ensures j < n ==> s[j] in s[..n]
  {
    if j < n { assert s[..n][j] == s[j]; }
  }

  /** A record that goes is no younger than one that stays. */
  lemma OlderRecordsGoFirst(d: Disk, max: nat, plan: Plan, after: Disk, gone: string, kept: string)
    requires Evicts(d, max, plan, after)
    requires gone in d.records && gone !in after.records && kept in after.records
    ensures d.records[gone].storedAt <= d.records[kept].storedAt
  {
    var prefix := plan.paths[..plan.drops];
    assert gone in Members(prefix) && kept in Members(plan.paths) && kept !in Members(prefix);
    var i :| 0 <= i < |prefix| && prefix[i] == gone;
    var j :| 0 <= j < |plan.paths| && plan.paths[j] == kept;
    InPrefix(plan.paths, plan.drops, j);
    assert i < plan.drops <= j && plan.paths[i] == gone;
  }
}
