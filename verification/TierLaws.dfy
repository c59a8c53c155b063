/** What a read and a write do to every key of the three tiers, and when the cache forgets nothing. */
module TierLaws {
  import opened Lru
  import opened LruLaws
  import opened Options
  import opened Tiers
  import opened TierRuns

  // ---------------------------------------------------------------- puts that fit

  lemma {:induction false} SizeReverse<K, V>(l: seq<Item<K, V>>)
    ensures TotalSize(Reverse(l)) == TotalSize(l)
    decreases |l|
  {
    if l != [] {
      var front := l[..|l| - 1];
      SizeReverse(front);
      SizeCons(l[|l| - 1], Reverse(front));
    }
  }

  lemma PutConservesRoom<K, V>(lim: Limits, l: seq<Item<K, V>>, k: K, v: V, size: nat)
    ensures var r := Put(lim, l, k, v, size);
      |r.list| + |r.evicted| <= |l| + 1 && TotalSize(r.list) + TotalSize(r.evicted) <= TotalSize(l) + size
  {
    var item := Item(k, v, size);
    if Find(l, k).Some? {
      WithoutIsSmaller(l, k);
      SizeCons(item, Without(l, k));
    } else {
      var kept := Trim(lim, l, size);
      var gone := l[|kept|..];
      assert l == kept + gone;
      SizeAppend(kept, gone);
      SizeCons(item, kept);
      EvictedInOrder(l, |kept|);
      SizeReverse(gone);
    }
  }

  /** Putting items neither adds entries nor bytes to what was there and what is put. */
  lemma {:induction false} PutAllConservesRoom<K, V>(lim: Limits, l: seq<Item<K, V>>, items: seq<Item<K, V>>)
    ensures var r := PutAll(lim, l, items);
      |r.list| + |r.evicted| <= |l| + |items| &&
      TotalSize(r.list) + TotalSize(r.evicted) <= TotalSize(l) + TotalSize(items)
    decreases |items|
  {
    if items != [] {
      var item := items[0];
      var first := Put(lim, l, item.key, item.value, item.size);
      var rest := PutAll(lim, first.list, items[1..]);
      PutConservesRoom(lim, l, item.key, item.value, item.size);
      PutAllConservesRoom(lim, first.list, items[1..]);
      SizeAppend(first.evicted, rest.evicted);
      assert items == [item] + items[1..];
      SizeCons(item, items[1..]);
    }
  }

  /** Nothing is evicted while all entries and their bytes fit together. */
  lemma {:induction false} RoomyPutAll<K, V>(lim: Limits, l: seq<Item<K, V>>, items: seq<Item<K, V>>)
    requires |l| + |items| <= lim.capacity && TotalSize(l) + TotalSize(items) <= lim.maxSize
    ensures PutAll(lim, l, items).evicted == []
    decreases |items|
  {
    if items != [] {
      var item := items[0];
      assert items == [item] + items[1..];
      SizeCons(item, items[1..]);
      PutConservesRoom(lim, l, item.key, item.value, item.size);
      if Find(l, item.key).None? { RoomyPut(lim, l, item.key, item.value, item.size); }
      RoomyPutAll(lim, Put(lim, l, item.key, item.value, item.size).list, items[1..]);
    }
  }

  /** Two lists hold more entries, or more bytes, than one tier may. */
  predicate Overflows<K, V>(lim: Limits, l: seq<Item<K, V>>, entries: nat, bytes: nat) {
    |l| + entries > lim.capacity || TotalSize(l) + bytes > lim.maxSize
  }

  /** Unless they overflow, putting items keeps every key that was there or is put. */
  lemma PutAllKeepsKeys<K, V>(lim: Limits, l: seq<Item<K, V>>, items: seq<Item<K, V>>, entries: nat, bytes: nat, x: K)
    requires |items| <= entries && TotalSize(items) <= bytes && !Overflows(lim, l, entries, bytes)
    ensures Look(PutAll(lim, l, items).list, x) == Over(LastIn(items, x), Look(l, x))
  {
    RoomyPutAll(lim, l, items);
    PutAllKeepsValues(lim, l, items, x);
  }

  // ---------------------------------------------------------------- reads

  lemma LookPut<K, V>(lim: Limits, l: seq<Item<K, V>>, k: K, v: V, size: nat)
    ensures var list := Put(lim, l, k, v, size).list;
      list != [] && list[0] == Item(k, v, size) && Look(list, k) == Some(v)
  {
  }

  /** A read that finds a key keeps showing it: no hit loses its own key. */
  lemma HitStays<K, V>(lims: TierLimits, t: Tiers<K, V>, k: K, demote: bool)
    ensures See(TierGet(lims, t, k, demote).tiers, k) == See(t, k)
  {
    if Find(t.l1, k).Some? {
      LookTouch(t.l1, k, k);
    } else if Find(t.l2, k).Some? {
      var e := Find(t.l2, k).value;
      LookPut(lims.l1, t.l1, k, e.value, e.size);
    } else if Find(t.l3, k).Some? {
      var e := Find(t.l3, k).value;
      LookPut(lims.l2, t.l2, k, e.value, e.size);
    }
  }

  /**
    After a hit the key stands at the front of the first tier, with the value and size it was found with;
    after one in the third tier, at the front of the second, and the first is as before. A miss changes nothing.
   */
  lemma HitIsPromoted<K, V>(lims: TierLimits, t: Tiers<K, V>, k: K, demote: bool)
    ensures var after := TierGet(lims, t, k, demote).tiers;
      match Find(t.l1, k)
      case Some(e) => after.l1 != [] && after.l1[0] == Item(k, e.value, e.size) && after.l2 == t.l2 && after.l3 == t.l3
      case None =>
        match Find(t.l2, k)
        case Some(e) => after.l1 != [] && after.l1[0] == Item(k, e.value, e.size)
        case None =>
          match Find(t.l3, k)
          case Some(e) => after.l1 == t.l1 && after.l2 != [] && after.l2[0] == Item(k, e.value, e.size)
          case None => after == t
  {
  }

  /**
    A hit also makes the key the most recent of the tier it was found in; nothing else changes when the
    tier above has room for it.
   */
  lemma HitRefreshes<K, V>(lims: TierLimits, t: Tiers<K, V>, k: K, demote: bool, e: Entry<V>)
    requires Find(t.l1, k).None?
    ensures var after := TierGet(lims, t, k, demote).tiers;
      && (Find(t.l2, k) == Some(e) && |t.l1| < lims.l1.capacity && TotalSize(t.l1) + e.size <= lims.l1.maxSize ==>
            after == Tiers([Item(k, e.value, e.size)] + t.l1, [Item(k, e.value, e.size)] + Without(t.l2, k), t.l3))
      && (Find(t.l2, k).None? && Find(t.l3, k) == Some(e) &&
          |t.l2| < lims.l2.capacity && TotalSize(t.l2) + e.size <= lims.l2.maxSize ==>
            after == Tiers(t.l1, [Item(k, e.value, e.size)] + t.l2, [Item(k, e.value, e.size)] + Without(t.l3, k)))
  {
    if Find(t.l2, k) == Some(e) && |t.l1| < lims.l1.capacity && TotalSize(t.l1) + e.size <= lims.l1.maxSize {
      RoomyPut(lims.l1, t.l1, k, e.value, e.size);
    }
    if Find(t.l2, k).None? && |t.l2| < lims.l2.capacity && TotalSize(t.l2) + e.size <= lims.l2.maxSize {
      RoomyPut(lims.l2, t.l2, k, e.value, e.size);
    }
  }

  lemma GivenUpFits<K, V>(lim: Limits, l: seq<Item<K, V>>, k: K, v: V, size: nat)
    ensures var gone := Put(lim, l, k, v, size).evicted; |gone| <= |l| && TotalSize(gone) <= TotalSize(l)
  {
    if Find(l, k).None? {
      var kept := Trim(lim, l, size);
      assert l == kept + l[|kept|..];
      SizeAppend(kept, l[|kept|..]);
      EvictedInOrder(l, |kept|);
      SizeReverse(l[|kept|..]);
    }
  }

  /** A hit in the first tier makes no key disappear. */
  lemma FirstTierHitLosesNothing<K, V>(lims: TierLimits, t: Tiers<K, V>, k: K, demote: bool, x: K)
    requires Find(t.l1, k).Some?
    ensures See(TierGet(lims, t, k, demote).tiers, x) == See(t, x)
  {
    LookTouch(t.l1, k, x);
  }

  /**
    A hit in the second tier makes a key disappear only if what the first tier may give up overflows the
    second, or, with its evictions demoted, what both may give up overflows the third.
   */
  lemma SecondTierHitLosesOnOverflow<K, V>(lims: TierLimits, t: Tiers<K, V>, k: K, demote: bool, x: K)
    requires Find(t.l1, k).None? && Find(t.l2, k).Some? && See(t, x).Some?
    requires See(TierGet(lims, t, k, demote).tiers, x).None?
    ensures if demote then Overflows(lims.l3, t.l3, |t.l1| + |t.l2|, TotalSize(t.l1) + TotalSize(t.l2))
            else Overflows(lims.l2, t.l2, |t.l1|, TotalSize(t.l1))
  {
    var e, l2 := Find(t.l2, k).value, Touch(t.l2, k);
    var r1 := Put(lims.l1, t.l1, k, e.value, e.size);
    var r2 := PutAll(lims.l2, l2, r1.evicted);
    LruLaws.TouchStep(t.l2, k, x);
    LookTouch(t.l2, k, x);
    GivenUpFits(lims.l1, t.l1, k, e.value, e.size);
    PutKeepsValues(lims.l1, t.l1, k, e.value, e.size, x);
    PutAllKeepsValues(lims.l2, l2, r1.evicted, x);
    PutAllConservesRoom(lims.l2, l2, r1.evicted);
    if !demote && !Overflows(lims.l2, t.l2, |t.l1|, TotalSize(t.l1)) {
      PutAllKeepsKeys(lims.l2, l2, r1.evicted, |t.l1|, TotalSize(t.l1), x);
    }
    if demote && !Overflows(lims.l3, t.l3, |t.l1| + |t.l2|, TotalSize(t.l1) + TotalSize(t.l2)) {
      PutAllKeepsKeys(lims.l3, t.l3, r2.evicted, |t.l1| + |t.l2|, TotalSize(t.l1) + TotalSize(t.l2), x);
    }
  }

  /** A hit in the third tier makes a key disappear only if what the second may give up overflows the third. */
  lemma ThirdTierHitLosesOnOverflow<K, V>(lims: TierLimits, t: Tiers<K, V>, k: K, demote: bool, x: K)
    requires Find(t.l1, k).None? && Find(t.l2, k).None? && Find(t.l3, k).Some? && See(t, x).Some?
    requires See(TierGet(lims, t, k, demote).tiers, x).None?
    ensures Overflows(lims.l3, t.l3, |t.l2|, TotalSize(t.l2))
  {
    var e, l3 := Find(t.l3, k).value, Touch(t.l3, k);
    var r2 := Put(lims.l2, t.l2, k, e.value, e.size);
    LruLaws.TouchStep(t.l3, k, x);
    LookTouch(t.l3, k, x);
    GivenUpFits(lims.l2, t.l2, k, e.value, e.size);
    PutKeepsValues(lims.l2, t.l2, k, e.value, e.size, x);
    if !Overflows(lims.l3, t.l3, |t.l2|, TotalSize(t.l2)) {
      PutAllKeepsKeys(lims.l3, l3, r2.evicted, |t.l2|, TotalSize(t.l2), x);
    }
  }

  lemma EvictedLacks<K, V>(lim: Limits, l: seq<Item<K, V>>, k: K, v: V, size: nat)
    requires Find(l, k).None?
    ensures LastIn(Put(lim, l, k, v, size).evicted, k).None?
  {
    var kept := Trim(lim, l, size);
    assert l == kept + l[|kept|..];
    LookAppend(kept, l[|kept|..], k);
    LastInReverse(l[|kept|..], k);
  }

  /** A hit copies upwards: unless the tier it was found in overflows, that tier still holds the key. */
  lemma HitIsACopy<K, V>(lims: TierLimits, t: Tiers<K, V>, k: K, demote: bool)
    requires Find(t.l1, k).None?
    ensures var after := TierGet(lims, t, k, demote).tiers;
      && (Find(t.l2, k).Some? && !Overflows(lims.l2, t.l2, |t.l1|, TotalSize(t.l1)) ==>
            Look(after.l2, k) == Look(t.l2, k))
      && (Find(t.l2, k).None? && Find(t.l3, k).Some? && !Overflows(lims.l3, t.l3, |t.l2|, TotalSize(t.l2)) ==>
            Look(after.l3, k) == Look(t.l3, k))
  {
    if Find(t.l2, k).Some? {
      var e := Find(t.l2, k).value;
      var gone := Put(lims.l1, t.l1, k, e.value, e.size).evicted;
      EvictedLacks(lims.l1, t.l1, k, e.value, e.size);
      GivenUpFits(lims.l1, t.l1, k, e.value, e.size);
      LruLaws.TouchStep(t.l2, k, k);
      if !Overflows(lims.l2, t.l2, |t.l1|, TotalSize(t.l1)) {
        PutAllKeepsKeys(lims.l2, Touch(t.l2, k), gone, |t.l1|, TotalSize(t.l1), k);
      }
    } else if Find(t.l3, k).Some? {
      var e := Find(t.l3, k).value;
      var gone := Put(lims.l2, t.l2, k, e.value, e.size).evicted;
      EvictedLacks(lims.l2, t.l2, k, e.value, e.size);
      GivenUpFits(lims.l2, t.l2, k, e.value, e.size);
      LruLaws.TouchStep(t.l3, k, k);
      if !Overflows(lims.l3, t.l3, |t.l2|, TotalSize(t.l2)) {
        PutAllKeepsKeys(lims.l3, Touch(t.l3, k), gone, |t.l2|, TotalSize(t.l2), k);
      }
    }
  }

  // ---------------------------------------------------------------- writes

  /** A write shows its value, from the front of the first tier. */
  lemma WriteShows<K, V>(lims: TierLimits, t: Tiers<K, V>, k: K, v: V, size: nat)
    ensures var after := TierPut(lims, t, k, v, size);
      after.l1 != [] && after.l1[0] == Item(k, v, size) && See(after, k) == Some(v)
  {
  }

  /** A write makes a key disappear only if what the upper tiers may give up overflows the third. */
  lemma WriteLosesOnOverflow<K, V>(lims: TierLimits, t: Tiers<K, V>, k: K, v: V, size: nat, x: K)
    requires See(t, x).Some? && See(TierPut(lims, t, k, v, size), x).None?
    ensures Overflows(lims.l3, t.l3, |t.l1| + |t.l2|, TotalSize(t.l1) + TotalSize(t.l2))
  {
    var r1 := Put(lims.l1, t.l1, k, v, size);
    var r2 := PutAll(lims.l2, t.l2, r1.evicted);
    GivenUpFits(lims.l1, t.l1, k, v, size);
    PutKeepsValues(lims.l1, t.l1, k, v, size, x);
    PutAllKeepsValues(lims.l2, t.l2, r1.evicted, x);
    PutAllConservesRoom(lims.l2, t.l2, r1.evicted);
    if !Overflows(lims.l3, t.l3, |t.l1| + |t.l2|, TotalSize(t.l1) + TotalSize(t.l2)) {
      PutAllKeepsKeys(lims.l3, t.l3, r2.evicted, |t.l1| + |t.l2|, TotalSize(t.l1) + TotalSize(t.l2), x);
    }
  }

  /** Invalidating takes one key out of every tier and leaves the others. */
  lemma InvalidateSees<K, V>(t: Tiers<K, V>, k: K, x: K)
    ensures See(Tiers(Without(t.l1, k), Without(t.l2, k), Without(t.l3, k)), x) == if x == k then None else See(t, x)
  {
    LookWithout(t.l1, k, x);
    LookWithout(t.l2, k, x);
    LookWithout(t.l3, k, x);
  }

  // ---------------------------------------------------------------- whole runs

  function Written<K, V>(ops: seq<Op<K, V>>): nat {
    if ops == [] then 0 else Written(ops[..|ops| - 1]) + if ops[|ops| - 1].Write? then 1 else 0
  }

  function WrittenBytes<K, V>(ops: seq<Op<K, V>>): nat {
    if ops == [] then 0
    else WrittenBytes(ops[..|ops| - 1]) + if ops[|ops| - 1].Write? then ops[|ops| - 1].size else 0
  }

  lemma WriteFits<K, V>(lims: TierLimits, t: Tiers<K, V>, k: K, v: V, size: nat, x: K)
    requires t.l2 == [] && t.l3 == [] && |t.l1| < lims.l1.capacity && TotalSize(t.l1) + size <= lims.l1.maxSize
    ensures var after := TierPut(lims, t, k, v, size);
      after.l2 == [] && after.l3 == [] && |after.l1| <= |t.l1| + 1 && TotalSize(after.l1) <= TotalSize(t.l1) + size &&
      See(after, x) == if x == k then Some(v) else See(t, x)
  {
    RoomyStep(lims.l1, t.l1, k, v, size, x);
    if Find(t.l1, k).None? { RoomyPut(lims.l1, t.l1, k, v, size); }
  }

  /** As long as all that a run writes fits in the first tier, every key shows what was written last. */
  lemma {:induction false} RoomyRunForgetsNothing<K(!new), V>(lims: TierLimits, ops: seq<Op<K, V>>, demote: bool, x: K)
    requires Written(ops) <= lims.l1.capacity && WrittenBytes(ops) <= lims.l1.maxSize
    ensures var t := Run(lims, ops, demote);
      t.l2 == [] && t.l3 == [] && |t.l1| <= Written(ops) && TotalSize(t.l1) <= WrittenBytes(ops) &&
      See(t, x) == Current(ops, x)
    decreases |ops|
  {
    if ops != [] {
      var before, op := ops[..|ops| - 1], ops[|ops| - 1];
      var t := Run(lims, before, demote);
      RoomyRunForgetsNothing(lims, before, demote, x);
      match op {
        case Read(k) =>
          LruLaws.TouchStep(t.l1, k, x);
          HitIsPromoted(lims, t, k, demote);
          LookTouch(t.l1, k, x);
        case Write(k, v, size) => WriteFits(lims, t, k, v, size, x);
        case Invalidate(k) =>
          WithoutIsSmaller(t.l1, k);
          InvalidateSees(t, k, x);
        case Clear =>
      }
    }
  }
}
