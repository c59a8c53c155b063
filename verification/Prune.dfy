/** Pruning the local cache: by age, then by size, keeping reference counts and the report up to date. */
module Prune {
  import opened Graphs
  import opened Options
  import opened CacheDisk
  import opened PruneSteps
  import Sorting

  // ---------------------------------------------------------------- listings

  method ListKeys<T>(m: map<string, T>) returns (names: seq<string>)
    ensures Lists(names, m)
  {
    names := [];
    var rest := m.Keys;
    while rest != {}
      invariant rest <= m.Keys && NoDup(names) && Members(names) == m.Keys - rest
    {
      var name :| name in rest;
      assert name !in Members(names);
      NoDupAppend(names, [name]);
      assert Members(names + [name]) == Members(names) + {name};
      names := names + [name];
      rest := rest - {name};
    }
  }

  method SortByTime(names: seq<string>, time: string -> nat) returns (r: seq<string>)
    requires NoDup(names)
    ensures NoDup(r) && Members(r) == Members(names)
    ensures forall i, j :: 0 <= i < j < |r| ==> time(r[i]) <= time(r[j])
  {
    var earlier := (a: string, b: string) => time(a) <= time(b);
    r := Sorting.Sort(earlier, names);
    Sorting.SortSorted(earlier, names);
    Sorting.SameMembers(r, names);
    NoDupPermutes(names, r);
    forall i, j | 0 <= i < j < |r| ensures time(r[i]) <= time(r[j]) {
      assert earlier(r[i], r[j]);
    }
  }

  /** Adds up the sizes of the listed entries that exist. */
  method TotalSize<T>(names: seq<string>, m: map<string, T>, size: T -> nat) returns (total: nat)
    requires NoDup(names) && m.Keys <= Members(names)
    ensures total == SumBy(m, size)
  {
    total := 0;
    assert m - Members(names[..0]) == m;
    for i := 0 to |names|
      invariant total + SumBy(m - Members(names[..i]), size) == SumBy(m, size)
    {
      WithoutNext(m, names, i);
      if names[i] in m {
        SumRemove(m - Members(names[..i]), size, names[i]);
        total := total + size(m[names[i]]);
      }
    }
    assert names[..|names|] == names && m - Members(names) == map[];
  }

  // ---------------------------------------------------------------- the cache

  class LocalCache {
    var disk: Disk
    var memoryCache: map<string, CacheRecord>

    method RefCounts() returns (counts: map<string, nat>)
      ensures Counts(disk.records, counts) && forall h :: h in counts <==> Referenced(disk.records, h)
    {
      counts := map[];
      var records := disk.records;
      var rest := records.Keys;
      ghost var seen: map<string, CacheRecord> := map[];
      while rest != {}
        invariant rest <= records.Keys && seen == records - rest
        invariant Counts(seen, counts) && forall h :: h in counts <==> Referenced(seen, h)
      {
        var path :| path in rest;
        var hash := records[path].artifactHash;
        SeenOneMore(records, seen, rest, path, counts);
        if hash.Some? {
          counts := counts[hash.value := Count(counts, hash.value) + 1];
        }
        rest := rest - {path};
        seen := records - rest;
      }
      assert seen == records;
    }

    /** Takes back one reference to an object, and deletes it if that was the last and this pass has not yet. */
    method ReleaseObject(artifactHash: Option<string>, counts0: map<string, nat>, removed0: set<Place>, report0: Report)
      returns (freed: nat, counts: map<string, nat>, removed: set<Place>, report: Report)
      requires RemovedGone(removed0, disk.objects)
      modifies this`disk
      ensures counts == Release(counts0, artifactHash)
      ensures disk == old(disk).(objects := Cascaded(old(disk).objects, counts0, artifactHash))
      ensures RemovedGone(removed, disk.objects) && (OnlyObjects(removed0) ==> OnlyObjects(removed))
      ensures freed == if Goes(old(disk).objects, counts0, artifactHash)
        then old(disk).objects[artifactHash.value].size else 0
      ensures report == report0.(removedObjects :=
        report0.removedObjects + if Goes(old(disk).objects, counts0, artifactHash) then 1 else 0)
    {
      freed, counts, removed, report := 0, counts0, removed0, report0;
      if artifactHash.None? {
        return;
      }
      var hash := artifactHash.value;
      var count := Count(counts, hash);
      if count > 0 {
        counts := counts[hash := count - 1];
      }
      if count <= 1 {
        var inserted := ObjectAt(hash) !in removed;
        removed := removed + {ObjectAt(hash)};
        if inserted && hash in disk.objects {
          freed := disk.objects[hash].size;
          disk := disk.(objects := disk.objects - {hash});
          report := report.(removedObjects := report.removedObjects + 1);
        } else {
          assert disk.objects - {hash} == disk.objects;
        }
      }
    }

    /** Removes a record, and its object when no other record references it. */
    method DropRecordAndCascade(path: string, record: CacheRecord, counts0: map<string, nat>, removed0: set<Place>,
                                report0: Report)
      returns (freed: nat, counts: map<string, nat>, removed: set<Place>, report: Report)
      requires path in disk.records && disk.records[path] == record
      requires Counts(disk.records, counts0) && RemovedGone(removed0, disk.objects)
      modifies this`disk
      ensures disk == Kept(old(disk), old(disk).records - {path})
      ensures Counts(disk.records, counts) && counts.Keys == counts0.Keys && RemovedGone(removed, disk.objects)
      ensures OnlyObjects(removed0) ==> OnlyObjects(removed)
      ensures DropReported(old(disk), record, disk, freed, report0, report)
    {
      DropIsKept(disk, path, counts0);
      CascadeTally(disk.objects, counts0, record.artifactHash);
      disk := disk.(records := disk.records - {path});
      report := report0.(removedRecords := report0.removedRecords + 1, freedBytes := report0.freedBytes + record.size);
      var cascaded;
      cascaded, counts, removed, report := ReleaseObject(record.artifactHash, counts0, removed0, report);
      freed := record.size + cascaded;
    }

    // -------------------------------------------------------------- by age

    /** Drops every record of at least the given age. */
    method DropAged(now: nat, age: nat, counts0: map<string, nat>, report0: Report)
      returns (counts: map<string, nat>, removed: set<Place>, report: Report)
      requires Counts(disk.records, counts0)
      modifies this`disk
      ensures disk == Kept(old(disk), YoungRecords(old(disk).records, now, age))
      ensures counts.Keys == counts0.Keys && RemovedGone(removed, disk.objects) && OnlyObjects(removed)
      ensures TalliedDrops(old(disk), report0, disk, report)
    {
      counts, removed, report := counts0, {}, report0;
      ghost var d := disk;
      var snapshot := disk.records;
      var paths := ListKeys(snapshot);
      NoneAged(d, paths, now, age);
      for i := 0 to |paths|
        invariant disk == Kept(d, d.records - AgedPaths(d.records, paths[..i], now, age))
        invariant Counts(disk.records, counts) && counts.Keys == counts0.Keys
        invariant RemovedGone(removed, disk.objects) && OnlyObjects(removed)
        invariant TalliedDrops(d, report0, disk, report)
      {
        AgedNext(d.records, paths, i, now, age);
        var record := snapshot[paths[i]];
        if Aged(record.storedAt, now, age) {
          ghost var before, reported := disk, report;
          var freed;
          freed, counts, removed, report := DropRecordAndCascade(paths[i], record, counts, removed, report);
          DroppedToo(d, AgedPaths(d.records, paths[..i], now, age), paths[i]);
          TallyDrop(d, report0, before, reported, disk, report, paths[i], freed);
        }
      }
      AgedLast(d.records, paths, now, age);
    }

    /** Deletes an object's file and reports its bytes; temporary files are not counted as objects. */
    method DeleteObject(name: string, counted: bool, report0: Report) returns (report: Report)
      requires name in disk.objects
      modifies this`disk
      ensures disk == WithoutObjects(old(disk), {name})
      ensures report == Deleted(report0, old(disk).objects[name], counted)
    {
      report := report0.(removedObjects := report0.removedObjects + (if counted then 1 else 0),
                         freedBytes := report0.freedBytes + disk.objects[name].size);
      disk := disk.(objects := disk.objects - {name});
    }

    /** The objects, oldest first. */
    method ListObjects() returns (names: seq<string>)
      ensures Lists(names, disk.objects) && OldestFilesFirst(names, disk.objects)
    {
      var objects := disk.objects;
      var listed := ListKeys(objects);
      names := SortByTime(listed, n => if n in objects then objects[n].mtime else 0);
    }

    /** Sweeps old objects that are temporary or were never referenced. */
    method SweepObjects(now: nat, age: nat, counts: map<string, nat>, removed0: set<Place>, report0: Report)
      returns (removed: set<Place>, report: Report)
      modifies this`disk
      ensures var gone := Swept(old(disk).objects, counts.Keys, removed0, now, age);
        disk == WithoutObjects(old(disk), gone) && removed == removed0 + ObjectPlaces(gone) &&
        Tallied(old(disk), report0, disk, report, |TmpOf(gone)|, 0)
    {
      removed, report := removed0, report0;
      ghost var d := disk;
      ghost var gone := Swept(d.objects, counts.Keys, removed0, now, age);
      var snapshot := disk.objects;
      var names := ListObjects();
      SweepStart(d, removed0, report0, names, gone);
      for i := 0 to |names|
        invariant Sweeping(d, removed0, report0, names, i, gone, disk, removed, report)
      {
        SweepSees(d, removed0, report0, names, i, gone, disk, removed, report, counts.Keys, now, age);
        var name := names[i];
        if ObjectAt(name) in removed {
          SweepKeeps(d, removed0, report0, names, i, gone, disk, removed, report);
          continue;
        }
        var file := snapshot[name];
        var isTmp := IsTmp(name);
        var orphan := !isTmp && name !in counts;
        if Aged(file.mtime, now, age) && (isTmp || orphan) {
          SweepTakes(d, removed0, report0, names, i, gone, disk, removed, report);
          report := DeleteObject(name, !isTmp, report);
          removed := removed + {ObjectAt(name)};
        } else {
          SweepKeeps(d, removed0, report0, names, i, gone, disk, removed, report);
        }
      }
      SweepDone(d, removed0, report0, names, gone, disk, removed, report);
    }

    /** Removes old temporary files beside the records. */
    method CleanupTmpFiles(now: nat, age: nat, removed0: set<Place>) returns (freed: nat, removed: set<Place>)
      modifies this`disk
      ensures var gone := AgedTmp(old(disk).tmpFiles, removed0, now, age);
        disk == old(disk).(tmpFiles := old(disk).tmpFiles - gone) && removed == removed0 + TmpPlaces(gone)
      ensures freed + FileBytes(disk.tmpFiles) == FileBytes(old(disk).tmpFiles)
    {
      freed, removed := 0, removed0;
      ghost var d := disk;
      ghost var gone := AgedTmp(disk.tmpFiles, removed0, now, age);
      var snapshot := disk.tmpFiles;
      var names := ListKeys(snapshot);
      NothingCleaned(d, removed0, names, gone);
      for i := 0 to |names|
        invariant disk == d.(tmpFiles := d.tmpFiles - SweptOf(names, i, gone))
        invariant removed == removed0 + TmpPlaces(SweptOf(names, i, gone))
        invariant freed + FileBytes(disk.tmpFiles) == FileBytes(snapshot)
      {
        CleanNext(d, removed0, names, i, gone);
        var name := names[i];
        if TmpAt(name) in removed {
          continue;
        }
        if Aged(snapshot[name].mtime, now, age) {
          SumRemove(disk.tmpFiles, FileSize, name);
          disk := disk.(tmpFiles := disk.tmpFiles - {name});
          removed := removed + {TmpAt(name)};
          freed := freed + snapshot[name].size;
        }
      }
      AllSwept(names, gone);
    }

    /** The first phase: leaves what age leaves. */
    method EvictByAge(now: nat, age: nat, report0: Report) returns (removed: set<Place>, report: Report)
      modifies this`disk
      ensures disk == AfterAge(old(disk), now, age) && RemovedGone(removed, disk.objects)
      ensures Tallied(old(disk), report0, disk, report, |SweptTmp(old(disk), now, age)|,
                      CascadedBytes(old(disk), YoungRecords(old(disk).records, now, age)))
    {
      ghost var d := disk;
      var counts := RefCounts();
      ghost var known := counts.Keys;
      counts, removed, report := DropAged(now, age, counts, report0);
      ghost var kept, reported, dropped := disk, report, removed;
      removed, report := SweepObjects(now, age, counts, removed, report);
      ghost var swept, removedObjects := report, removed;
      var freed;
      freed, removed := CleanupTmpFiles(now, age, removed);
      report := report.(freedBytes := report.freedBytes + freed);
      AgeLeaves(d, kept, known, dropped, removedObjects, disk, now, age);
      TallyPhase(d, report0, kept, reported, disk, report, swept, freed, |SweptTmp(d, now, age)|);
    }

    /** The first phase runs only when an age is given. */
    method EvictOlder(olderThan: Option<nat>, now: nat, report0: Report) returns (removed: set<Place>, report: Report)
      modifies this`disk
      ensures disk == AfterAgeLimit(old(disk), olderThan, now) && RemovedGone(removed, disk.objects)
      ensures Tallied(old(disk), report0, disk, report, |TmpByAge(old(disk), olderThan, now)|,
                      CascadedByAge(old(disk), olderThan, now))
    {
      removed, report := {}, report0;
      if olderThan.Some? {
        removed, report := EvictByAge(now, olderThan.value, report);
      }
    }

    // -------------------------------------------------------------- by size

    /** One turn of the loop over records. */
    method EvictRecord(ghost d: Disk, ghost report0: Report, ghost max: nat, snapshot: map<string, CacheRecord>,
                       paths: seq<string>, i: nat, total: nat, counts: map<string, nat>, removed: set<Place>,
                       report: Report)
      returns (total': nat, counts': map<string, nat>, removed': set<Place>, report': Report)
      requires snapshot == d.records && Lists(paths, snapshot) && i < |paths|
      requires RecordsGoing(d, max, paths, i, report0, disk, total, report) && total > max
      requires Counts(disk.records, counts) && RemovedGone(removed, disk.objects)
      modifies this`disk
      ensures RecordsGoing(d, max, paths, i + 1, report0, disk, total', report')
      ensures Counts(disk.records, counts') && RemovedGone(removed', disk.objects)
    {
      ghost var before := disk;
      NextStage(d, paths, i);
      var freed;
      freed, counts', removed', report' := DropRecordAndCascade(paths[i], snapshot[paths[i]], counts, removed, report);
      RecordGoes(d, max, paths, i, report0, before, total, report, disk, freed, report');
      total' := SaturatingSub(total, freed);
    }

    /** Drops the oldest records while the limit is exceeded. */
    method EvictRecords(max: nat, paths: seq<string>, total0: nat, removed0: set<Place>, report0: Report)
      returns (total: nat, removed: set<Place>, report: Report, ghost drops: nat)
      requires Lists(paths, disk.records) && total0 == Counted(disk) && RemovedGone(removed0, disk.objects)
      modifies this`disk
      ensures drops <= |paths| && disk == RecordStage(old(disk), paths, drops) &&
        EvictsRecords(old(disk), max, paths, drops)
      ensures total == Counted(disk) && RemovedGone(removed, disk.objects)
      ensures TalliedDrops(old(disk), report0, disk, report)
    {
      total, removed, report := total0, removed0, report0;
      ghost var d := disk;
      var snapshot := disk.records;
      var counts := RefCounts();
      RecordsStart(d, max, paths, report);
      var i := 0;
      while i < |paths|
        invariant RecordsGoing(d, max, paths, i, report0, disk, total, report)
        invariant Counts(disk.records, counts) && RemovedGone(removed, disk.objects)
      {
        if total <= max {
          break;
        }
        total, counts, removed, report :=
          EvictRecord(d, report0, max, snapshot, paths, i, total, counts, removed, report);
        i := i + 1;
      }
      drops := i;
    }

    /** One turn of the loop over objects. */
    method EvictObject(ghost d: Disk, ghost report0: Report, ghost max: nat, names: seq<string>, i: nat,
                       total: nat, removed: set<Place>, report: Report)
      returns (total': nat, removed': set<Place>, report': Report)
      requires NoDup(names) && i < |names| && RemovedGone(removed, disk.objects)
      requires ObjectsGoing(d, max, names, i, report0, disk, total, report) && total > max
      modifies this`disk
      ensures ObjectsGoing(d, max, names, i + 1, report0, disk, total', report') && RemovedGone(removed', disk.objects)
    {
      var name := names[i];
      total', removed', report' := total, removed, report;
      if ObjectAt(name) in removed || name !in disk.objects {
        ObjectStays(d, max, names, i, report0, disk, total, report);
        return;
      }
      ObjectGoes(d, max, names, i, report0, disk, total, report);
      var size := disk.objects[name].size;
      report' := DeleteObject(name, true, report);
      removed' := removed + {ObjectAt(name)};
      total' := SaturatingSub(total, size);
    }

    /** Deletes the oldest objects while the limit is exceeded, even referenced ones. */
    method EvictObjects(max: nat, names: seq<string>, total0: nat, removed0: set<Place>, report0: Report)
      returns (total: nat, report: Report, ghost removals: nat)
      requires NoDup(names) && total0 == Counted(disk) && RemovedGone(removed0, disk.objects)
      modifies this`disk
      ensures removals <= |names| && disk == ObjectStage(old(disk), names, removals)
      ensures EvictsObjects(old(disk), max, names, removals) && total == Counted(disk)
      ensures Tallied(old(disk), report0, disk, report, 0, 0)
    {
      total, report := total0, report0;
      var removed := removed0;
      ghost var d := disk;
      ObjectsStart(d, max, names, report);
      var i := 0;
      while i < |names|
        invariant ObjectsGoing(d, max, names, i, report0, disk, total, report) && RemovedGone(removed, disk.objects)
      {
        if total <= max {
          break;
        }
        total, removed, report := EvictObject(d, report0, max, names, i, total, removed, report);
        i := i + 1;
      }
      removals := i;
    }

    /** The records, oldest first. */
    method ListRecords() returns (paths: seq<string>)
      ensures Lists(paths, disk.records) && OldestRecordsFirst(paths, disk.records)
    {
      var records := disk.records;
      var listed := ListKeys(records);
      paths := SortByTime(listed, p => if p in records then records[p].storedAt else 0);
    }

    /** The bytes the limit is about: all records, and the objects not removed before. */
    method CountBytes(paths: seq<string>, names: seq<string>, removed: set<Place>) returns (total: nat)
      requires Lists(paths, disk.records) && Lists(names, disk.objects) && RemovedGone(removed, disk.objects)
      ensures total == Counted(disk)
    {
      var live := map n | n in disk.objects && ObjectAt(n) !in removed :: disk.objects[n];
      assert live == disk.objects;
      total := TotalSize(paths, disk.records, RecordSize);
      var objectBytes := TotalSize(names, live, FileSize);
      total := total + objectBytes;
    }

    /** The second phase: records, then objects, until the limit is met. */
    method EvictBySize(max: nat, removed0: set<Place>, report0: Report) returns (report: Report, ghost plan: Plan)
      requires RemovedGone(removed0, disk.objects)
      modifies this`disk
      ensures Evicts(old(disk), max, plan, disk)
      ensures Tallied(old(disk), report0, disk, report, 0, CascadedBySize(old(disk), plan))
    {
      ghost var d := disk;
      var paths := ListRecords();
      var names := ListObjects();
      var total := CountBytes(paths, names, removed0);
      var removed;
      ghost var drops, removals;
      total, removed, report, drops := EvictRecords(max, paths, total, removed0, report0);
      ghost var stage, dropped := disk, report;
      total, report, removals := EvictObjects(max, names, total, removed, report);
      plan := Plan(paths, drops, names, removals);
      TallySize(d, report0, stage, dropped, disk, report, plan);
    }

    /**
      Age first, then size. The report leaves out the bytes of cascaded objects and does not
      count temporary files as objects; otherwise it says exactly what went.
     */
    method Prune(olderThan: Option<nat>, maxSize: Option<nat>, now: nat) returns (report: Report, ghost plan: Plan)
      modifies this
      ensures Evicts(AfterAgeLimit(old(disk), olderThan, now), Limit(maxSize), plan, disk)
      ensures Tallied(old(disk), Report(0, 0, 0), disk, report, |TmpByAge(old(disk), olderThan, now)|,
                      CascadedByAge(old(disk), olderThan, now) +
                      CascadedBySize(AfterAgeLimit(old(disk), olderThan, now), plan))
      ensures memoryCache == map[]
    {
      ghost var d := disk;
      var removed;
      removed, report := EvictOlder(olderThan, now, Report(0, 0, 0));
      ghost var mid, aged := disk, report;
      report, plan := EvictBySize(Limit(maxSize), removed, report);
      memoryCache := map[];
      TallyBoth(d, olderThan, now, Report(0, 0, 0), mid, aged, disk, report, CascadedBySize(mid, plan));
    }
  }
}
