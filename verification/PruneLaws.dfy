/** What a prune leaves, told by the names, times and sizes in the cache alone. */
module PruneLaws {
  import opened CacheDisk
  import opened Graphs
  import opened Options
  import opened PruneSteps

  // ---------------------------------------------------------------- names and times

  /** Old enough is a matter of adding the age; with age 0 even a time in the future is. */
  lemma AgedIff(time: nat, now: nat, age: nat)
    ensures Aged(time, now, age) <==> age == 0 || time + age <= now
  {
  }

  /** A temporary file has ".tmp" behind a name. */
  lemma IsTmpIff(name: string)
    ensures IsTmp(name) <==> exists stem: string :: stem != "" && name == stem + ".tmp"
  {
    if IsTmp(name) {
      assert name == name[..|name| - 4] + ".tmp" && name[..|name| - 4] != "";
    }
    if stem: string :| stem != "" && name == stem + ".tmp" {
      assert name[|name| - 4..] == ".tmp";
    }
  }

  // ---------------------------------------------------------------- the age phase

  lemma YoungReferenceIff(d: Disk, now: nat, age: nat, n: string)
    ensures Referenced(YoungRecords(d.records, now, age), n) <==>
      exists p :: p in d.records && d.records[p].artifactHash == Some(n) &&
        !(age == 0 || d.records[p].storedAt + age <= now)
  {
    var young := YoungRecords(d.records, now, age);
    if p :| p in young && young[p].artifactHash == Some(n) {
      AgedIff(d.records[p].storedAt, now, age);
    }
    if p :|
      p in d.records && d.records[p].artifactHash == Some(n) && !(age == 0 || d.records[p].storedAt + age <= now) {
      AgedIff(d.records[p].storedAt, now, age);
      assert p in young && young[p].artifactHash == Some(n);
    }
  }

  /**
    Which objects the age phase leaves. An object that records name stays while a young one does, unless it is
    old and its name ends in ".tmp"; an object that no record names stays while it is young.
   */
  lemma ObjectStaysIff(d: Disk, now: nat, age: nat, n: string)
    ensures n in AfterAge(d, now, age).objects <==>
      n in d.objects &&
      var old' := age == 0 || d.objects[n].mtime + age <= now;
      if exists p :: p in d.records && d.records[p].artifactHash == Some(n) then
        !(old' && |n| > 4 && n[|n| - 4..] == ".tmp") &&
        exists p :: p in d.records && d.records[p].artifactHash == Some(n) &&
                    !(age == 0 || d.records[p].storedAt + age <= now)
      else !old'
  {
    var young := YoungRecords(d.records, now, age);
    YoungReferenceIff(d, now, age, n);
    if n in d.objects { AgedIff(d.objects[n].mtime, now, age); }
    if Referenced(young, n) { ReferencedGrows(young, d.records, n); }
  }

  /** The records the age phase leaves are those that are not old. */
  lemma RecordStaysIff(d: Disk, now: nat, age: nat, p: string)
    ensures p in AfterAge(d, now, age).records <==>
      p in d.records && !(age == 0 || d.records[p].storedAt + age <= now)
  {
    if p in d.records { AgedIff(d.records[p].storedAt, now, age); }
  }

  /** Temporary files beside the records stay while they are young, whatever their names. */
  lemma TmpFileStaysIff(d: Disk, now: nat, age: nat, n: string)
    ensures n in AfterAge(d, now, age).tmpFiles <==>
      n in d.tmpFiles && !(age == 0 || d.tmpFiles[n].mtime + age <= now)
  {
    if n in d.tmpFiles { AgedIff(d.tmpFiles[n].mtime, now, age); }
  }

  // ---------------------------------------------------------------- the whole prune

  /** Where no object's name ends in ".tmp", no prune of any age or size leaves a record without its object. */
  lemma PruneKeepsObjectsOfRecords(d: Disk, olderThan: Option<nat>, now: nat, max: nat, plan: Plan, after: Disk,
                                   p: string)
    requires forall q, h :: q in d.records && d.records[q].artifactHash == Some(h) ==> h in d.objects
    requires forall n :: n in d.objects && |n| >= 4 ==> n[|n| - 4..] != ".tmp"
    requires Evicts(AfterAgeLimit(d, olderThan, now), max, plan, after)
    requires p in after.records && after.records[p].artifactHash.Some?
    ensures after.records[p].artifactHash.value in after.objects
  {
    forall h | Referenced(d.records, h) ensures h in d.objects {
      var q :| q in d.records && d.records[q].artifactHash == Some(h);
    }
    PruneKeepsReferencesIff(d, olderThan, now, max, plan, after);
    assert !NamesSwept(d, after.records, olderThan, now);
    assert Referenced(after.records, after.records[p].artifactHash.value);
  }

  /** Without age and size a prune leaves a cache of fewer than 2 to the 64 bytes as it is. */
  lemma NoLimitsNoChange(d: Disk, now: nat, plan: Plan, after: Disk)
    requires Evicts(AfterAgeLimit(d, None, now), Limit(None), plan, after)
    requires RecordBytes(d.records) + FileBytes(d.objects) < 0x1_0000_0000_0000_0000
    ensures after == d
  {
    NothingToEvict(d, Limit(None), plan, after);
  }

  /** The limit that is given is the one that is met. */
  lemma GivenLimitIsMet(d: Disk, max: nat, plan: Plan, after: Disk)
    requires Evicts(d, Limit(Some(max)), plan, after)
    ensures RecordBytes(after.records) + FileBytes(after.objects) <= max
  {
    EvictionMeetsLimit(d, max, plan, after);
  }

  /** The last record that went for size had to go: with it the limit was exceeded. */
  lemma LastDropWasNeeded(d: Disk, max: nat, plan: Plan, after: Disk)
    requires Evicts(d, max, plan, after) && plan.drops > 0
    ensures Counted(RecordStage(d, plan.paths, plan.drops - 1)) > max
  {
    ExceedsAt(d, max, plan.paths, plan.drops, plan.drops - 1);
  }

  /**
    As long as records are left, an object goes for size exactly when records named it before and none of
    those left does.
   */
  lemma ObjectGoesWithItsRecords(d: Disk, max: nat, plan: Plan, after: Disk, n: string)
    requires Evicts(d, max, plan, after) && after.records != map[]
    ensures n in after.objects <==>
      n in d.objects &&
      ((exists p :: p in after.records && after.records[p].artifactHash == Some(n)) ||
       !exists p :: p in d.records && d.records[p].artifactHash == Some(n))
  {
    ObjectsGoLast(d, max, plan, after);
    FirstStages(RecordStage(d, plan.paths, plan.drops), plan.paths, plan.names);
  }

  /** An object that goes on its own for size is no younger than one that stays. */
  lemma OlderObjectsGoFirst(d: Disk, max: nat, plan: Plan, after: Disk, gone: string, kept: string)
    requires Evicts(d, max, plan, after)
    requires gone in RecordStage(d, plan.paths, plan.drops).objects && gone !in after.objects && kept in after.objects
    ensures d.objects[gone].mtime <= d.objects[kept].mtime
  {
    var prefix := plan.names[..plan.removals];
    assert gone in Members(prefix) && kept in Members(plan.names) && kept !in Members(prefix);
    var i :| 0 <= i < |prefix| && prefix[i] == gone;
    var j :| 0 <= j < |plan.names| && plan.names[j] == kept;
    InPrefix(plan.names, plan.removals, j);
    assert i < plan.removals <= j && plan.names[i] == gone;
  }

  // ---------------------------------------------------------------- the report

  /** The old objects with names in ".tmp" that are there when the sweep comes. */
  lemma SweptTmpIff(d: Disk, now: nat, age: nat, n: string)
    ensures n in SweptTmp(d, now, age) <==>
      n in d.objects && |n| > 4 && n[|n| - 4..] == ".tmp" && (age == 0 || d.objects[n].mtime + age <= now) &&
      (!Referenced(d.records, n) ||
       exists p :: p in d.records && d.records[p].artifactHash == Some(n) &&
                   !(age == 0 || d.records[p].storedAt + age <= now))
  {
    YoungReferenceIff(d, now, age, n);
    if n in d.objects { AgedIff(d.objects[n].mtime, now, age); }
  }

  /** The counts of the report: all records that went, and all objects but those swept as temporary files. */
  lemma ReportCounts(d: Disk, olderThan: Option<nat>, now: nat, after: Disk, report: Report, cascaded: int)
    requires Tallied(d, Report(0, 0, 0), after, report, |TmpByAge(d, olderThan, now)|, cascaded)
    ensures report.removedRecords == |d.records| - |after.records|
    ensures report.removedObjects == |d.objects| - |after.objects| -
      match olderThan case Some(age) => |SweptTmp(d, now, age)| case None => 0
  {
  }
}
