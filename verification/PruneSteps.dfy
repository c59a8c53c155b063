/** What the steps of a prune do to the counts, the disk and the report. */
module PruneSteps {
  import opened Graphs
  import opened Options
  import opened CacheDisk

  datatype Report = Report(removedRecords: nat, removedObjects: nat, freedBytes: nat)

  /** A file removed in this pass. */
  datatype Place = ObjectAt(name: string) | TmpAt(name: string)

  // ---------------------------------------------------------------- reference counts

  function Count(counts: map<string, nat>, hash: string): nat {
    if hash in counts then counts[hash] else 0
  }

  /** The table counts the records that reference each object. */
  ghost predicate Counts(records: map<string, CacheRecord>, counts: map<string, nat>) {
    forall h {:trigger Count(counts, h)} :: Count(counts, h) == |Referrers(records, h)|
  }

  lemma ReferencedIff(records: map<string, CacheRecord>, h: string)
    ensures Referenced(records, h) <==> |Referrers(records, h)| > 0
  {
    if p :| p in records && records[p].artifactHash == Some(h) { assert p in Referrers(records, h); }
    if |Referrers(records, h)| > 0 { var p :| p in Referrers(records, h); }
  }

  lemma RecordLeaves(records: map<string, CacheRecord>, path: string, h: string)
    requires path in records
    ensures |Referrers(records, h)| ==
      |Referrers(records - {path}, h)| + if records[path].artifactHash == Some(h) then 1 else 0
  {
    var rest := Referrers(records - {path}, h);
    assert Referrers(records, h) == if records[path].artifactHash == Some(h) then rest + {path} else rest;
  }

  /** The table with one reference to the record's object, if it has one, taken back. */
  function Release(counts: map<string, nat>, hash: Option<string>): map<string, nat> {
    match hash
    case None => counts
    case Some(h) => if Count(counts, h) > 0 then counts[h := Count(counts, h) - 1] else counts
  }

  /** The objects without the one whose last reference is taken back. */
  function Cascaded(objects: map<string, File>, counts: map<string, nat>, hash: Option<string>): map<string, File> {
    match hash
    case None => objects
    case Some(h) => if Count(counts, h) <= 1 then objects - {h} else objects
  }

  lemma OneFewer<T>(m: map<string, T>, k: string)
    requires k in m
    ensures |m - {k}| == |m| - 1
  {
    assert (m - {k}).Keys == m.Keys - {k};
    assert |m| == |m.Keys| && |m - {k}| == |(m - {k}).Keys|;
  }

  /** There is an object to go with its last reference. */
  predicate Goes(objects: map<string, File>, counts: map<string, nat>, hash: Option<string>) {
    hash.Some? && Count(counts, hash.value) <= 1 && hash.value in objects
  }

  lemma CascadeTally(objects: map<string, File>, counts: map<string, nat>, hash: Option<string>)
    ensures var after, goes := Cascaded(objects, counts, hash), Goes(objects, counts, hash);
      |objects| == |after| + (if goes then 1 else 0) &&
      FileBytes(objects) == FileBytes(after) + if goes then objects[hash.value].size else 0
  {
    if Goes(objects, counts, hash) {
      SumRemove(objects, FileSize, hash.value);
      OneFewer(objects, hash.value);
    } else {
      assert Cascaded(objects, counts, hash) == objects;
    }
  }

  lemma ReleaseCounts(records: map<string, CacheRecord>, path: string, counts: map<string, nat>, h: string)
    requires path in records && Counts(records, counts)
    ensures var rest, hash := records - {path}, records[path].artifactHash;
      Count(Release(counts, hash), h) == |Referrers(rest, h)| &&
      (Referenced(rest, h) || !Referenced(records, h) <==> hash != Some(h) || Count(counts, h) > 1)
  {
    RecordLeaves(records, path, h);
    ReferencedIff(records - {path}, h);
    ReferencedIff(records, h);
    assert Count(counts, h) == |Referrers(records, h)|;
  }

  /** The table keeps counting, and an object goes with the last record that references it. */
  lemma DropIsKept(d: Disk, path: string, counts: map<string, nat>)
    requires path in d.records && Counts(d.records, counts)
    ensures var hash, rest := d.records[path].artifactHash, d.records - {path};
      Counts(rest, Release(counts, hash)) && Release(counts, hash).Keys == counts.Keys &&
      Kept(d, rest) == Disk(rest, Cascaded(d.objects, counts, hash), d.tmpFiles)
  {
    var rest, hash := d.records - {path}, d.records[path].artifactHash;
    forall h
      ensures Count(Release(counts, hash), h) == |Referrers(rest, h)|
      ensures Referenced(rest, h) || !Referenced(d.records, h) <==> hash != Some(h) || Count(counts, h) > 1
    {
      ReleaseCounts(d.records, path, counts, h);
    }
  }

  /** Nothing removed in this pass is still there. */
  ghost predicate RemovedGone(removed: set<Place>, objects: map<string, File>) {
    forall n {:trigger ObjectAt(n)} :: ObjectAt(n) in removed ==> n !in objects
  }

  ghost predicate OnlyObjects(removed: set<Place>) {
    forall n {:trigger TmpAt(n)} :: TmpAt(n) !in removed
  }

  // ---------------------------------------------------------------- listings

  lemma WithoutNext<T>(m: map<string, T>, names: seq<string>, i: nat)
    requires NoDup(names) && i < |names|
    ensures names[i] !in Members(names[..i])
    ensures m - Members(names[..i + 1]) == (m - Members(names[..i])) - {names[i]}
    ensures names[i] !in m ==> m - Members(names[..i + 1]) == m - Members(names[..i])
  {
    NextMember(names, i);
  }

  // ---------------------------------------------------------------- the report

  /**
    What the report of a pass adds up to: all records that went, all objects that went but so
    many temporary ones, and all bytes that went but so many of cascaded objects.
   */
  ghost predicate Tallied(before: Disk, report0: Report, after: Disk, report: Report, temporary: nat, cascaded: int) {
    && report.removedRecords + |after.records| == report0.removedRecords + |before.records|
    && report.removedObjects + temporary + |after.objects| == report0.removedObjects + |before.objects|
    && report.freedBytes + cascaded + AllBytes(after) == report0.freedBytes + AllBytes(before)
  }

  /** The report of a pass that only dropped records: what their objects freed is left out. */
  ghost predicate TalliedDrops(before: Disk, report0: Report, after: Disk, report: Report) {
    Tallied(before, report0, after, report, 0, FileBytes(before.objects) - FileBytes(after.objects))
  }

  /** What dropping one record adds to the report, and what it says it freed. */
  ghost predicate DropReported(before: Disk, record: CacheRecord, after: Disk, freed: nat, report0: Report,
                               report: Report)
  {
    && freed + FileBytes(after.objects) == record.size + FileBytes(before.objects)
    && report.removedRecords == report0.removedRecords + 1 && report.freedBytes == report0.freedBytes + record.size
    && report.removedObjects + |after.objects| == report0.removedObjects + |before.objects|
  }

  lemma TallyDrop(d: Disk, report0: Report, before: Disk, report: Report, after: Disk, report': Report, path: string,
                  freed: nat)
    requires TalliedDrops(d, report0, before, report)
    requires path in before.records && after.records == before.records - {path} && after.tmpFiles == before.tmpFiles
    requires DropReported(before, before.records[path], after, freed, report, report')
    ensures TalliedDrops(d, report0, after, report')
    ensures Counted(after) == Counted(before) - freed
  {
    SumRemove(before.records, RecordSize, path);
    OneFewer(before.records, path);
  }

  function Deleted(report: Report, file: File, counted: bool): Report {
    Report(report.removedRecords, report.removedObjects + (if counted then 1 else 0), report.freedBytes + file.size)
  }

  lemma TallyDelete(d: Disk, report0: Report, before: Disk, report: Report, name: string, temporary: nat, counted: bool)
    requires Tallied(d, report0, before, report, temporary, 0) && name in before.objects
    ensures Tallied(d, report0, WithoutObjects(before, {name}), Deleted(report, before.objects[name], counted),
                    temporary + (if counted then 0 else 1), 0)
  {
    SumRemove(before.objects, FileSize, name);
    OneFewer(before.objects, name);
  }

  // ---------------------------------------------------------------- sweeping

  ghost function AgedPaths(records: map<string, CacheRecord>, paths: seq<string>, now: nat, age: nat): set<string> {
    set p | p in paths && p in records && Aged(records[p].storedAt, now, age)
  }

  lemma NoneAged(d: Disk, paths: seq<string>, now: nat, age: nat)
    ensures Kept(d, d.records - AgedPaths(d.records, paths[..0], now, age)) == d
  {
    KeptAll(d);
    assert d.records - AgedPaths(d.records, paths[..0], now, age) == d.records;
  }

  lemma AgedNext(records: map<string, CacheRecord>, paths: seq<string>, i: nat, now: nat, age: nat)
    requires Lists(paths, records) && i < |paths|
    ensures var path, before := paths[i], AgedPaths(records, paths[..i], now, age);
      path in records && path !in before &&
      AgedPaths(records, paths[..i + 1], now, age) ==
        if Aged(records[path].storedAt, now, age) then before + {path} else before
  {
    NextMember(paths, i);
    assert paths[i] in Members(paths);
    forall p ensures p in paths[..i + 1] <==> p in paths[..i] || p == paths[i] {
      assert p in Members(paths[..i + 1]) <==> p in Members(paths[..i]) || p == paths[i];
    }
  }

  /** Dropping one more record from a kept disk keeps the rest of the original. */
  lemma DroppedToo(d: Disk, gone: set<string>, path: string)
    ensures var before := Kept(d, d.records - gone);
      Kept(before, before.records - {path}) == Kept(d, d.records - (gone + {path}))
  {
    var before := Kept(d, d.records - gone);
    assert before.records - {path} == d.records - (gone + {path});
    KeptTwice(d, d.records - gone, d.records - (gone + {path}));
  }

  lemma AgedLast(records: map<string, CacheRecord>, paths: seq<string>, now: nat, age: nat)
    requires Lists(paths, records)
    ensures records - AgedPaths(records, paths[..|paths|], now, age) == YoungRecords(records, now, age)
  {
    assert paths[..|paths|] == paths;
    forall p | p in records ensures p in paths { assert p in Members(paths); }
  }

  /** The old objects that are temporary or that no listed record references. */
  ghost function Swept(objects: map<string, File>, known: set<string>, removed: set<Place>, now: nat,
                       age: nat): set<string>
  {
    set n | n in objects && ObjectAt(n) !in removed && Aged(objects[n].mtime, now, age) && (IsTmp(n) || n !in known)
  }

  ghost function AgedTmp(files: map<string, File>, removed: set<Place>, now: nat, age: nat): set<string> {
    set n | n in files && TmpAt(n) !in removed && Aged(files[n].mtime, now, age)
  }

  ghost function TmpOf(names: set<string>): set<string> {
    set n | n in names && IsTmp(n)
  }

  ghost function ObjectPlaces(names: set<string>): set<Place> {
    set n | n in names :: ObjectAt(n)
  }

  ghost function TmpPlaces(names: set<string>): set<Place> {
    set n | n in names :: TmpAt(n)
  }

  /** The part of a sweep that the first i listed names account for. */
  ghost function SweptOf(names: seq<string>, i: nat, gone: set<string>): set<string>
    requires i <= |names|
  {
    Members(names[..i]) * gone
  }

  lemma NothingSwept(d: Disk, removed: set<Place>, names: seq<string>, gone: set<string>)
    ensures WithoutObjects(d, SweptOf(names, 0, gone)) == d && TmpOf(SweptOf(names, 0, gone)) == {}
    ensures removed + ObjectPlaces(SweptOf(names, 0, gone)) == removed
  {
    assert SweptOf(names, 0, gone) == {};
    assert d.objects - {} == d.objects;
  }

  lemma NothingCleaned(d: Disk, removed: set<Place>, names: seq<string>, gone: set<string>)
    ensures d.(tmpFiles := d.tmpFiles - SweptOf(names, 0, gone)) == d
    ensures removed + TmpPlaces(SweptOf(names, 0, gone)) == removed
  {
    assert SweptOf(names, 0, gone) == {};
    assert d.tmpFiles - {} == d.tmpFiles;
  }

  lemma AllSwept(names: seq<string>, gone: set<string>)
    requires gone <= Members(names)
    ensures SweptOf(names, |names|, gone) == gone
  {
    assert names[..|names|] == names;
  }

  lemma SweptGrows(names: seq<string>, i: nat, gone: set<string>)
    requires NoDup(names) && i < |names|
    ensures names[i] !in SweptOf(names, i, gone)
    ensures SweptOf(names, i + 1, gone) ==
      if names[i] in gone then SweptOf(names, i, gone) + {names[i]} else SweptOf(names, i, gone)
  {
    NextMember(names, i);
  }

  lemma OneMoreTmp(names: set<string>, name: string)
    requires name !in names
    ensures |TmpOf(names + {name})| == |TmpOf(names)| + if IsTmp(name) then 1 else 0
  {
    assert TmpOf(names + {name}) == if IsTmp(name) then TmpOf(names) + {name} else TmpOf(names);
  }

  lemma SweepNext(d: Disk, removed: set<Place>, names: seq<string>, i: nat, gone: set<string>)
    requires Lists(names, d.objects) && i < |names|
    ensures var name, before, after := names[i], SweptOf(names, i, gone), SweptOf(names, i + 1, gone);
      && name in d.objects && name in WithoutObjects(d, before).objects
      && (ObjectAt(name) in removed + ObjectPlaces(before) <==> ObjectAt(name) in removed)
      && (name !in gone ==> after == before)
      && (name in gone ==>
            WithoutObjects(d, after) == WithoutObjects(WithoutObjects(d, before), {name}) &&
            removed + ObjectPlaces(after) == removed + ObjectPlaces(before) + {ObjectAt(name)} &&
            |TmpOf(after)| == |TmpOf(before)| + if IsTmp(name) then 1 else 0)
  {
    SweptGrows(names, i, gone);
    assert names[i] in Members(names);
    OneMoreTmp(SweptOf(names, i, gone), names[i]);
  }

  /** Halfway through a sweep: the first i names are dealt with, and the report accounts for it. */
  ghost predicate Sweeping(d: Disk, removed0: set<Place>, report0: Report, names: seq<string>, i: nat,
                           gone: set<string>, disk: Disk, removed: set<Place>, report: Report) {
    && i <= |names|
    && disk == WithoutObjects(d, SweptOf(names, i, gone))
    && removed == removed0 + ObjectPlaces(SweptOf(names, i, gone))
    && Tallied(d, report0, disk, report, |TmpOf(SweptOf(names, i, gone))|, 0)
  }

  lemma SweepStart(d: Disk, removed: set<Place>, report: Report, names: seq<string>, gone: set<string>)
    ensures Sweeping(d, removed, report, names, 0, gone, d, removed, report)
  {
    NothingSwept(d, removed, names, gone);
  }

  /** The next name is still there, and the tests of the loop decide whether it goes. */
  lemma SweepSees(d: Disk, removed0: set<Place>, report0: Report, names: seq<string>, i: nat, gone: set<string>,
                  disk: Disk, removed: set<Place>, report: Report, known: set<string>, now: nat, age: nat)
    requires Sweeping(d, removed0, report0, names, i, gone, disk, removed, report)
    requires Lists(names, d.objects) && i < |names| && gone == Swept(d.objects, known, removed0, now, age)
    ensures var name := names[i];
      name in d.objects && name in disk.objects && disk.objects[name] == d.objects[name] &&
      (name in gone <==>
         ObjectAt(name) !in removed && Aged(d.objects[name].mtime, now, age) && (IsTmp(name) || name !in known))
  {
    SweepNext(d, removed0, names, i, gone);
  }

  lemma SweepKeeps(d: Disk, removed0: set<Place>, report0: Report, names: seq<string>, i: nat, gone: set<string>,
                   disk: Disk, removed: set<Place>, report: Report)
    requires Sweeping(d, removed0, report0, names, i, gone, disk, removed, report)
    requires Lists(names, d.objects) && i < |names| && names[i] !in gone
    ensures Sweeping(d, removed0, report0, names, i + 1, gone, disk, removed, report)
  {
    SweepNext(d, removed0, names, i, gone);
  }

  lemma SweepTakes(d: Disk, removed0: set<Place>, report0: Report, names: seq<string>, i: nat, gone: set<string>,
                   disk: Disk, removed: set<Place>, report: Report)
    requires Sweeping(d, removed0, report0, names, i, gone, disk, removed, report)
    requires Lists(names, d.objects) && i < |names| && names[i] in gone
    ensures var name := names[i];
      name in d.objects &&
      Sweeping(d, removed0, report0, names, i + 1, gone, WithoutObjects(disk, {name}), removed + {ObjectAt(name)},
               Deleted(report, d.objects[name], !IsTmp(name)))
  {
    SweepNext(d, removed0, names, i, gone);
    TallyDelete(d, report0, disk, report, names[i], |TmpOf(SweptOf(names, i, gone))|, !IsTmp(names[i]));
  }

  lemma SweepDone(d: Disk, removed0: set<Place>, report0: Report, names: seq<string>, gone: set<string>,
                  disk: Disk, removed: set<Place>, report: Report)
    requires Sweeping(d, removed0, report0, names, |names|, gone, disk, removed, report)
    requires Lists(names, d.objects) && gone <= d.objects.Keys
    ensures disk == WithoutObjects(d, gone) && removed == removed0 + ObjectPlaces(gone)
    ensures Tallied(d, report0, disk, report, |TmpOf(gone)|, 0)
  {
    AllSwept(names, gone);
  }

  lemma CleanNext(d: Disk, removed: set<Place>, names: seq<string>, i: nat, gone: set<string>)
    requires Lists(names, d.tmpFiles) && i < |names|
    ensures var name, before, after := names[i], SweptOf(names, i, gone), SweptOf(names, i + 1, gone);
      && name in d.tmpFiles && name in d.tmpFiles - before
      && (TmpAt(name) in removed + TmpPlaces(before) <==> TmpAt(name) in removed)
      && (name !in gone ==> after == before)
      && (name in gone ==>
            d.tmpFiles - after == (d.tmpFiles - before) - {name} &&
            removed + TmpPlaces(after) == removed + TmpPlaces(before) + {TmpAt(name)})
  {
    SweptGrows(names, i, gone);
    assert names[i] in Members(names);
  }

  /** The old temporary objects that survive the dropped records. */
  ghost function SweptTmp(d: Disk, now: nat, age: nat): set<string> {
    set n | n in Kept(d, YoungRecords(d.records, now, age)).objects && Aged(d.objects[n].mtime, now, age) && IsTmp(n)
  }

  /** Dropping, sweeping and cleaning up together leave what age leaves. */
  lemma AgeLeaves(d: Disk, kept: Disk, known: set<string>, dropped: set<Place>, removed: set<Place>, after: Disk,
                  now: nat, age: nat)
    requires kept == Kept(d, YoungRecords(d.records, now, age)) && forall h :: h in known <==> Referenced(d.records, h)
    requires RemovedGone(dropped, kept.objects) && OnlyObjects(dropped)
    requires var gone := Swept(kept.objects, known, dropped, now, age);
      removed == dropped + ObjectPlaces(gone) && after.objects == kept.objects - gone && after.records == kept.records
    requires after.tmpFiles == kept.tmpFiles - AgedTmp(kept.tmpFiles, removed, now, age)
    ensures TmpOf(Swept(kept.objects, known, dropped, now, age)) == SweptTmp(d, now, age)
    ensures after == AfterAge(d, now, age)
    ensures RemovedGone(removed + TmpPlaces(AgedTmp(kept.tmpFiles, removed, now, age)), after.objects)
  {
    assert OnlyObjects(removed);
    assert after.objects == AfterAge(d, now, age).objects;
    assert after.tmpFiles == AfterAge(d, now, age).tmpFiles;
  }

  lemma TallyPhase(d: Disk, report0: Report, kept: Disk, dropped: Report, after: Disk, report: Report, swept: Report,
                   freed: nat, temporary: nat)
    requires TalliedDrops(d, report0, kept, dropped)
    requires Tallied(kept, dropped, after.(tmpFiles := kept.tmpFiles), swept, temporary, 0)
    requires freed + FileBytes(after.tmpFiles) == FileBytes(kept.tmpFiles)
    requires report == swept.(freedBytes := swept.freedBytes + freed)
    ensures Tallied(d, report0, after, report, temporary, FileBytes(d.objects) - FileBytes(kept.objects))
  {
  }

  // ---------------------------------------------------------------- the whole prune

  const U64_MAX: nat := 0xFFFF_FFFF_FFFF_FFFF

  function Limit(maxSize: Option<nat>): nat {
    if maxSize.Some? then maxSize.value else U64_MAX
  }

  ghost function AfterAgeLimit(d: Disk, olderThan: Option<nat>, now: nat): Disk {
    if olderThan.Some? then AfterAge(d, now, olderThan.value) else d
  }

  ghost function TmpByAge(d: Disk, olderThan: Option<nat>, now: nat): set<string> {
    if olderThan.Some? then SweptTmp(d, now, olderThan.value) else {}
  }

  ghost function CascadedByAge(d: Disk, olderThan: Option<nat>, now: nat): int {
    if olderThan.Some? then CascadedBytes(d, YoungRecords(d.records, now, olderThan.value)) else 0
  }

  ghost function CascadedBySize(d: Disk, plan: Plan): int
    requires plan.drops <= |plan.paths|
  {
    CascadedBytes(d, d.records - Members(plan.paths[..plan.drops]))
  }

  /**
    The report of a whole prune tells the bytes that went exactly when every object that went with its
    last record, by age or by size, was an empty file; otherwise it tells fewer.
   */
  lemma FreedBytesAreRightIff(d: Disk, olderThan: Option<nat>, now: nat, after: Disk, report: Report, temporary: nat,
                              plan: Plan)
    requires plan.drops <= |plan.paths|
    requires var mid := AfterAgeLimit(d, olderThan, now);
      Tallied(d, Report(0, 0, 0), after, report, temporary,
        CascadedByAge(d, olderThan, now) + CascadedBySize(mid, plan))
    ensures report.freedBytes <= AllBytes(d) - AllBytes(after)
    ensures var mid := AfterAgeLimit(d, olderThan, now);
      report.freedBytes == AllBytes(d) - AllBytes(after) <==>
        (olderThan.Some? ==> CascadesEmpty(d, YoungRecords(d.records, now, olderThan.value))) &&
        CascadesEmpty(mid, mid.records - Members(plan.paths[..plan.drops]))
  {
    var mid := AfterAgeLimit(d, olderThan, now);
    if olderThan.Some? { CascadedBytesIff(d, YoungRecords(d.records, now, olderThan.value)); }
    CascadedBytesIff(mid, mid.records - Members(plan.paths[..plan.drops]));
  }

  /** A record of 1 byte that is older than its object of 5 bytes. */
  ghost function OldRecordCache(): Disk {
    Disk(map["r" := CacheRecord(0, 1, Some("o"))], map["o" := File(5, 10)], map[])
  }

  lemma OldRecordGoes()
    ensures AfterAge(OldRecordCache(), 10, 5) == Disk(map[], map[], map[])
    ensures CascadedBytes(OldRecordCache(), YoungRecords(OldRecordCache().records, 10, 5)) == 5
    ensures AllBytes(OldRecordCache()) == 6
  {
    var d := OldRecordCache();
    var young := YoungRecords(d.records, 10, 5);
    assert young == map[] && d.records["r"].artifactHash == Some("o");
    assert Referenced(d.records, "o") && !Referenced(young, "o");
    assert Kept(d, young).objects == map[];
    SumRemove(d.records, RecordSize, "r");
    SumRemove(d.objects, FileSize, "o");
    assert d.records - {"r"} == map[] && d.objects - {"o"} == map[];
  }

  lemma NothingCascades(plan: Plan)
    requires plan.drops <= |plan.paths|
    ensures CascadedBySize(Disk(map[], map[], map[]), plan) == 0
  {
    var empty := Disk(map[], map[], map[]);
    assert Kept(empty, empty.records - Members(plan.paths[..plan.drops])).objects == map[];
  }

  lemma EmptyStays(max: nat, plan: Plan, after: Disk)
    requires Evicts(Disk(map[], map[], map[]), max, plan, after)
    ensures AllBytes(after) == 0
  {
    var empty := Disk(map[], map[], map[]);
    assert Counted(empty) == 0 && AllBytes(empty) == 0;
    NothingToEvict(empty, max, plan, after);
  }

  /** Pruning that cache by age deletes record and object, and the report tells 1 of the 6 bytes. */
  lemma CascadeIsNotReported(plan: Plan, after: Disk, report: Report)
    requires plan.drops <= |plan.paths|
    requires Evicts(AfterAgeLimit(OldRecordCache(), Some(5), 10), U64_MAX, plan, after)
    requires Tallied(OldRecordCache(), Report(0, 0, 0), after, report, |TmpByAge(OldRecordCache(), Some(5), 10)|,
                     CascadedByAge(OldRecordCache(), Some(5), 10) +
                     CascadedBySize(AfterAgeLimit(OldRecordCache(), Some(5), 10), plan))
    ensures AllBytes(OldRecordCache()) - AllBytes(after) == 6 && report.freedBytes == 1
  {
    OldRecordGoes();
    NothingCascades(plan);
    EmptyStays(U64_MAX, plan, after);
  }

  lemma TallySize(d: Disk, report0: Report, stage: Disk, dropped: Report, after: Disk, report: Report, plan: Plan)
    requires plan.drops <= |plan.paths| && stage == RecordStage(d, plan.paths, plan.drops)
    requires TalliedDrops(d, report0, stage, dropped) && Tallied(stage, dropped, after, report, 0, 0)
    ensures Tallied(d, report0, after, report, 0, CascadedBySize(d, plan))
  {
  }

  lemma TallyBoth(d: Disk, olderThan: Option<nat>, now: nat, report0: Report, mid: Disk, aged: Report,
                  after: Disk, report: Report, cascaded: int)
    requires mid == AfterAgeLimit(d, olderThan, now) && Tallied(mid, aged, after, report, 0, cascaded)
    requires Tallied(d, report0, mid, aged, |TmpByAge(d, olderThan, now)|, CascadedByAge(d, olderThan, now))
    ensures Tallied(d, report0, after, report, |TmpByAge(d, olderThan, now)|,
      CascadedByAge(d, olderThan, now) + cascaded)
  {
  }

  ghost predicate SweptAsTmp(d: Disk, h: string, now: nat, age: nat) {
    h in d.objects && IsTmp(h) && Aged(d.objects[h].mtime, now, age)
  }

  /** One of the records names an object that the age phase sweeps as an old temporary file. */
  ghost predicate NamesSwept(d: Disk, records: map<string, CacheRecord>, olderThan: Option<nat>, now: nat) {
    olderThan.Some? && exists h :: Referenced(records, h) && SweptAsTmp(d, h, now, olderThan.value)
  }

  /** Evicting for size takes no object from under a record that stays. */
  lemma EvictionKeepsObjects(d: Disk, max: nat, plan: Plan, after: Disk, h: string)
    requires Evicts(d, max, plan, after) && Referenced(after.records, h)
    ensures Referenced(d.records, h) && (h in after.objects <==> h in d.objects)
  {
    ObjectsGoLast(d, max, plan, after);
    FirstStages(RecordStage(d, plan.paths, plan.drops), plan.paths, plan.names);
    ReferencedGrows(after.records, d.records, h);
  }

  lemma AgeKeepsObject(d: Disk, olderThan: Option<nat>, now: nat, h: string)
    requires NoDangling(d) && Referenced(AfterAgeLimit(d, olderThan, now).records, h)
    ensures h in AfterAgeLimit(d, olderThan, now).objects <==>
      !(olderThan.Some? && SweptAsTmp(d, h, now, olderThan.value))
  {
    ReferencedGrows(AfterAgeLimit(d, olderThan, now).records, d.records, h);
  }

  /**
    A whole prune leaves a record without its object exactly when a record that stays names an
    object swept as an old temporary file. So it leaves none when no record that is too young for
    the age limit names such an object; and that is exactly when, if the size limit is not exceeded.
   */
  lemma PruneKeepsReferencesIff(d: Disk, olderThan: Option<nat>, now: nat, max: nat, plan: Plan, after: Disk)
    requires NoDangling(d) && Evicts(AfterAgeLimit(d, olderThan, now), max, plan, after)
    ensures NoDangling(after) <==> !NamesSwept(d, after.records, olderThan, now)
    ensures var mid := AfterAgeLimit(d, olderThan, now);
      (!NamesSwept(d, mid.records, olderThan, now) ==> NoDangling(after)) &&
      (Counted(mid) <= max ==> (NoDangling(after) <==> !NamesSwept(d, mid.records, olderThan, now)))
  {
    var mid := AfterAgeLimit(d, olderThan, now);
    forall h | Referenced(after.records, h)
      ensures Referenced(mid.records, h)
      ensures h in after.objects <==> !(olderThan.Some? && SweptAsTmp(d, h, now, olderThan.value))
    {
      EvictionKeepsObjects(mid, max, plan, after, h);
      AgeKeepsObject(d, olderThan, now, h);
    }
    if Counted(mid) <= max { NothingToEvict(mid, max, plan, after); }
  }

  // ---------------------------------------------------------------- evicting

  function SaturatingSub(a: nat, b: nat): nat {
    if a >= b then a - b else 0
  }

  lemma NextStage(d: Disk, paths: seq<string>, i: nat)
    requires Lists(paths, d.records) && i < |paths|
    ensures var before := RecordStage(d, paths, i);
      paths[i] in before.records && before.records[paths[i]] == d.records[paths[i]] &&
      RecordStage(d, paths, i + 1) == Kept(before, before.records - {paths[i]})
  {
    NextMember(paths, i);
    assert paths[i] in Members(paths);
    DroppedToo(d, Members(paths[..i]), paths[i]);
  }

  lemma NextObjectStage(d: Disk, names: seq<string>, i: nat)
    requires NoDup(names) && i < |names|
    ensures var before := ObjectStage(d, names, i);
      ObjectStage(d, names, i + 1) == WithoutObjects(before, {names[i]}) &&
      (names[i] !in before.objects ==> ObjectStage(d, names, i + 1) == before)
  {
    WithoutNext(d.objects, names, i);
    var before := ObjectStage(d, names, i);
    if names[i] !in before.objects { assert before.objects - {names[i]} == before.objects; }
  }

  /** Halfway: the first i records went, each while the limit was exceeded; total and report account for it. */
  ghost predicate RecordsGoing(d: Disk, max: nat, paths: seq<string>, i: nat, report0: Report,
                               disk: Disk, total: nat, report: Report) {
    && i <= |paths| && disk == RecordStage(d, paths, i) && total == Counted(disk)
    && RecordsExceed(d, max, paths, i) && TalliedDrops(d, report0, disk, report)
  }

  lemma RecordsStart(d: Disk, max: nat, paths: seq<string>, report: Report)
    ensures RecordsGoing(d, max, paths, 0, report, d, Counted(d), report)
  {
    FirstStages(d, paths, []);
  }

  lemma RecordGoes(d: Disk, max: nat, paths: seq<string>, i: nat, report0: Report, before: Disk, total: nat,
                   report: Report, after: Disk, freed: nat, report': Report)
    requires RecordsGoing(d, max, paths, i, report0, before, total, report) && total > max
    requires Lists(paths, d.records) && i < |paths|
    requires after == Kept(before, before.records - {paths[i]})
    requires DropReported(before, d.records[paths[i]], after, freed, report, report')
    ensures RecordsGoing(d, max, paths, i + 1, report0, after, SaturatingSub(total, freed), report')
  {
    NextStage(d, paths, i);
    TallyDrop(d, report0, before, report, after, report', paths[i], freed);
  }

  /** Halfway: the first i listed objects went if they were there, each while the limit was exceeded. */
  ghost predicate ObjectsGoing(d: Disk, max: nat, names: seq<string>, i: nat, report0: Report,
                               disk: Disk, total: nat, report: Report) {
    && i <= |names| && disk == ObjectStage(d, names, i) && total == Counted(disk)
    && ObjectsExceed(d, max, names, i) && Tallied(d, report0, disk, report, 0, 0)
  }

  lemma ObjectsStart(d: Disk, max: nat, names: seq<string>, report: Report)
    ensures ObjectsGoing(d, max, names, 0, report, d, Counted(d), report)
  {
    FirstStages(d, [], names);
  }

  lemma ObjectStays(d: Disk, max: nat, names: seq<string>, i: nat, report0: Report, disk: Disk, total: nat,
                    report: Report)
    requires ObjectsGoing(d, max, names, i, report0, disk, total, report) && total > max
    requires NoDup(names) && i < |names| && names[i] !in disk.objects
    ensures ObjectsGoing(d, max, names, i + 1, report0, disk, total, report)
  {
    NextObjectStage(d, names, i);
  }

  lemma DeletedTotal(d: Disk, name: string)
    requires name in d.objects
    ensures Counted(WithoutObjects(d, {name})) == Counted(d) - d.objects[name].size
  {
    SumRemove(d.objects, FileSize, name);
  }

  lemma ObjectGoes(d: Disk, max: nat, names: seq<string>, i: nat, report0: Report, disk: Disk, total: nat,
                   report: Report)
    requires ObjectsGoing(d, max, names, i, report0, disk, total, report) && total > max
    requires NoDup(names) && i < |names| && names[i] in disk.objects
    ensures var file := disk.objects[names[i]];
      ObjectsGoing(d, max, names, i + 1, report0, WithoutObjects(disk, {names[i]}), SaturatingSub(total, file.size),
                   Deleted(report, file, true))
  {
    NextObjectStage(d, names, i);
    TallyDelete(d, report0, disk, report, names[i], 0, true);
    DeletedTotal(disk, names[i]);
  }

  lemma SeenOneMore(records: map<string, CacheRecord>, seen: map<string, CacheRecord>, rest: set<string>, path: string,
                    counts: map<string, nat>)
    requires path in rest && rest <= records.Keys && seen == records - rest
    requires Counts(seen, counts) && forall h :: h in counts <==> Referenced(seen, h)
    ensures var hash := records[path].artifactHash;
      var counts' := if hash.Some? then counts[hash.value := Count(counts, hash.value) + 1] else counts;
      var seen' := records - (rest - {path});
      Counts(seen', counts') && forall h :: h in counts' <==> Referenced(seen', h)
  {
    var hash := records[path].artifactHash;
    var counts' := if hash.Some? then counts[hash.value := Count(counts, hash.value) + 1] else counts;
    var seen' := records - (rest - {path});
    assert seen' - {path} == seen;
    forall h
      ensures Count(counts', h) == |Referrers(seen', h)|
      ensures h in counts' <==> Referenced(seen', h)
    {
      RecordLeaves(seen', path, h);
      ReferencedIff(seen', h);
      ReferencedIff(seen, h);
      assert Count(counts, h) == |Referrers(seen, h)|;
    }
  }
}
