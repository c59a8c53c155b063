/** The three-tier cache over recency lists: promotion by copy, demotion on eviction, and what a reader sees. */
module Tiers {
  import opened Basics
  import opened Lru
  import opened Options

  // `demote` says whether a hit in the second tier passes its evictions on to the third; the code does not.

  datatype Tiers<K, V> = Tiers(l1: seq<Item<K, V>>, l2: seq<Item<K, V>>, l3: seq<Item<K, V>>)
  datatype TierLimits = TierLimits(l1: Limits, l2: Limits, l3: Limits)

  /** 100 entries and 1 MB, 1000 entries and 100 MB, 10000 entries and 10 GB. */
  const DEFAULT_LIMITS := TierLimits(Limits(100, 1048576), Limits(1000, 104857600), Limits(10000, 10737418240))

  datatype PutAllResult<K, V> = PutAllResult(list: seq<Item<K, V>>, evicted: seq<Item<K, V>>)

  /** Puts the items one after the other and collects everything evicted on the way. */
  function PutAll<K(==), V>(lim: Limits, l: seq<Item<K, V>>, items: seq<Item<K, V>>): PutAllResult<K, V>
    decreases |items|
  {
    if items == [] then PutAllResult(l, [])
    else
      var first := Put(lim, l, items[0].key, items[0].value, items[0].size);
      var rest := PutAll(lim, first.list, items[1..]);
      PutAllResult(rest.list, first.evicted + rest.evicted)
  }

  /** The first i items are put: putting the others ends in the whole result. */
  ghost predicate Putting<K, V>(lim: Limits, l: seq<Item<K, V>>, items: seq<Item<K, V>>, i: nat, list: seq<Item<K, V>>,
                                evicted: seq<Item<K, V>>)
    requires i <= |items|
  {
    var rest := PutAll(lim, list, items[i..]);
    PutAll(lim, l, items) == PutAllResult(rest.list, evicted + rest.evicted)
  }

  lemma PuttingStart<K, V>(lim: Limits, l: seq<Item<K, V>>, items: seq<Item<K, V>>)
    ensures Putting(lim, l, items, 0, l, [])
  {
    assert items[0..] == items;
    assert [] + PutAll(lim, l, items).evicted == PutAll(lim, l, items).evicted;
  }

  lemma PuttingNext<K, V>(lim: Limits, l: seq<Item<K, V>>, items: seq<Item<K, V>>, i: nat, list: seq<Item<K, V>>,
                          evicted: seq<Item<K, V>>)
    requires i < |items| && Putting(lim, l, items, i, list, evicted)
    ensures var r := Put(lim, list, items[i].key, items[i].value, items[i].size);
      Putting(lim, l, items, i + 1, r.list, evicted + r.evicted)
  {
    var r := Put(lim, list, items[i].key, items[i].value, items[i].size);
    assert items[i..][1..] == items[i + 1..];
    ConcatAssoc(evicted, r.evicted, PutAll(lim, r.list, items[i + 1..]).evicted);
  }

  lemma PuttingDone<K, V>(lim: Limits, l: seq<Item<K, V>>, items: seq<Item<K, V>>, list: seq<Item<K, V>>,
                          evicted: seq<Item<K, V>>)
    requires Putting(lim, l, items, |items|, list, evicted)
    ensures PutAllResult(list, evicted) == PutAll(lim, l, items)
  {
    assert items[|items|..] == [] && evicted + [] == evicted;
  }

  function TierPut<K(==), V>(lims: TierLimits, t: Tiers<K, V>, k: K, v: V, size: nat): Tiers<K, V> {
    var r1 := Put(lims.l1, t.l1, k, v, size);
    var r2 := PutAll(lims.l2, t.l2, r1.evicted);
    var r3 := PutAll(lims.l3, t.l3, r2.evicted);
    Tiers(r1.list, r2.list, r3.list)
  }

  datatype GetResult<K, V> = GetResult(tiers: Tiers<K, V>, value: Option<V>)

  function TierGet<K(==), V>(lims: TierLimits, t: Tiers<K, V>, k: K, demote: bool): GetResult<K, V> {
    match Find(t.l1, k)
    case Some(e) => GetResult(t.(l1 := Touch(t.l1, k)), Some(e.value))
    case None =>
      match Find(t.l2, k)
      case Some(e) =>
        var r1 := Put(lims.l1, t.l1, k, e.value, e.size);
        var r2 := PutAll(lims.l2, Touch(t.l2, k), r1.evicted);
        GetResult(Tiers(r1.list, r2.list, if demote then PutAll(lims.l3, t.l3, r2.evicted).list else t.l3),
          Some(e.value))
      case None =>
        match Find(t.l3, k)
        case Some(e) =>
          var r2 := Put(lims.l2, t.l2, k, e.value, e.size);
          var r3 := PutAll(lims.l3, Touch(t.l3, k), r2.evicted);
          GetResult(Tiers(t.l1, r2.list, r3.list), Some(e.value))
        case None => GetResult(t, None)
  }

  // ---------------------------------------------------------------- what a reader sees

  function Look<K(==), V>(l: seq<Item<K, V>>, k: K): Option<V> {
    match Find(l, k) case Some(e) => Some(e.value) case None => None
  }

  /** The last value a list of evicted items holds for a key. */
  function LastIn<K(==), V>(items: seq<Item<K, V>>, k: K): Option<V> {
    if items == [] then None
    else if items[|items| - 1].key == k then Some(items[|items| - 1].value)
    else LastIn(items[..|items| - 1], k)
  }

  /** The first of two answers. */
  function Over<V>(a: Option<V>, b: Option<V>): Option<V> {
    if a.Some? then a else b
  }

  /** The value a read of the key returns. */
  function See<K(==), V>(t: Tiers<K, V>, k: K): Option<V> {
    Over(Look(t.l1, k), Over(Look(t.l2, k), Look(t.l3, k)))
  }

  lemma GetReturnsWhatIsSeen<K, V>(lims: TierLimits, t: Tiers<K, V>, k: K, demote: bool)
    ensures TierGet(lims, t, k, demote).value == See(t, k)
  {
  }

  // ---------------------------------------------------------------- lists

  lemma {:induction false} LookAppend<K, V>(a: seq<Item<K, V>>, b: seq<Item<K, V>>, x: K)
    ensures Look(a + b, x) == Over(Look(a, x), Look(b, x))
    decreases |a|
  {
    if a == [] {
      assert a + b == b;
    } else {
      assert (a + b)[1..] == a[1..] + b;
      LookAppend(a[1..], b, x);
    }
  }

  lemma {:induction false} LookWithout<K, V>(l: seq<Item<K, V>>, k: K, x: K)
    ensures Look(Without(l, k), x) == if x == k then None else Look(l, x)
    decreases |l|
  {
    if l != [] {
      LookWithout(l[1..], k, x);
      if l[0].key != k {
        assert ([l[0]] + Without(l[1..], k))[1..] == Without(l[1..], k);
      }
    }
  }

  lemma LookFront<K, V>(item: Item<K, V>, l: seq<Item<K, V>>, x: K)
    ensures Look([item] + l, x) == if x == item.key then Some(item.value) else Look(l, x)
  {
    assert ([item] + l)[1..] == l;
  }

  lemma LookTouch<K, V>(l: seq<Item<K, V>>, k: K, x: K)
    ensures Look(Touch(l, k), x) == Look(l, x)
  {
    if Find(l, k).Some? {
      var e := Find(l, k).value;
      LookFront(Item(k, e.value, e.size), Without(l, k), x);
      LookWithout(l, k, x);
    }
  }

  lemma {:induction false} LastInAppend<K, V>(a: seq<Item<K, V>>, b: seq<Item<K, V>>, x: K)
    ensures LastIn(a + b, x) == Over(LastIn(b, x), LastIn(a, x))
    decreases |b|
  {
    if b == [] {
      assert a + b == a;
    } else {
      assert (a + b)[..|a + b| - 1] == a + b[..|b| - 1];
      LastInAppend(a, b[..|b| - 1], x);
    }
  }

  lemma OneItem<K, V>(item: Item<K, V>, x: K)
    ensures LastIn([item], x) == Look([item], x)
  {
    var one := [item];
    assert one[1..] == [] && one[..0] == [];
    assert Look(one[1..], x) == None && LastIn(one[..0], x) == None;
  }

  /** The last occurrence in the reversed list is the first in the list. */
  lemma {:induction false} LastInReverse<K, V>(l: seq<Item<K, V>>, x: K)
    ensures LastIn(Reverse(l), x) == Look(l, x)
    decreases |l|
  {
    if l != [] {
      var front, last := l[..|l| - 1], [l[|l| - 1]];
      LastInReverse(front, x);
      LastInAppend(last, Reverse(front), x);
      LookAppend(front, last, x);
      assert l == front + last;
      OneItem(l[|l| - 1], x);
      assert Reverse(l) == last + Reverse(front);
    }
  }

  /** A put makes the new value visible and keeps every other value, in the list or among the evicted. */
  lemma PutKeepsValues<K, V>(lim: Limits, l: seq<Item<K, V>>, k: K, v: V, size: nat, x: K)
    ensures var r := Put(lim, l, k, v, size);
      Over(Look(r.list, x), LastIn(r.evicted, x)) == if x == k then Some(v) else Look(l, x)
  {
    if Find(l, k).Some? {
      LookFront(Item(k, v, size), Without(l, k), x);
      LookWithout(l, k, x);
    } else {
      var kept := Trim(lim, l, size);
      LookFront(Item(k, v, size), kept, x);
      LastInReverse(l[|kept|..], x);
      LookAppend(kept, l[|kept|..], x);
      assert l == kept + l[|kept|..];
    }
  }

  lemma LastInCons<K, V>(items: seq<Item<K, V>>, x: K)
    requires items != []
    ensures LastIn(items, x) == Over(LastIn(items[1..], x), if items[0].key == x then Some(items[0].value) else None)
  {
    LastInAppend([items[0]], items[1..], x);
    assert items == [items[0]] + items[1..] && [items[0]][..0] == [];
  }

  /** Putting a list of items: the latest value of every key survives, in the list or among the evicted. */
  lemma {:induction false} PutAllKeepsValues<K, V>(lim: Limits, l: seq<Item<K, V>>, items: seq<Item<K, V>>, x: K)
    ensures var r := PutAll(lim, l, items);
      Over(Look(r.list, x), LastIn(r.evicted, x)) == Over(LastIn(items, x), Look(l, x))
    decreases |items|
  {
    if items != [] {
      var first := Put(lim, l, items[0].key, items[0].value, items[0].size);
      var rest := PutAll(lim, first.list, items[1..]);
      PutKeepsValues(lim, l, items[0].key, items[0].value, items[0].size, x);
      PutAllKeepsValues(lim, first.list, items[1..], x);
      LastInAppend(first.evicted, rest.evicted, x);
      LastInCons(items, x);
    }
  }

  // ---------------------------------------------------------------- steps

  /** A key reads as before, or is gone. */
  ghost predicate SameOrGone<K, V>(before: Tiers<K, V>, after: Tiers<K, V>, x: K) {
    See(after, x).None? || See(after, x) == See(before, x)
  }

  /** The value the two upper tiers show for a key. */
  function Upper<K(==), V>(t: Tiers<K, V>, x: K): Option<V> {
    Over(Look(t.l1, x), Look(t.l2, x))
  }

  /** The upper tiers hide another value of the key in the third tier. */
  ghost predicate HidesOldCopy<K, V>(t: Tiers<K, V>, x: K) {
    Upper(t, x).Some? && Look(t.l3, x).Some? && Look(t.l3, x) != Upper(t, x)
  }

  /** What the first tier gives up to take in a key that the second tier holds. */
  function GivenUp<K(==), V>(lims: TierLimits, t: Tiers<K, V>, size: nat): seq<Item<K, V>> {
    Reverse(t.l1[|Trim(lims.l1, t.l1, size)|..])
  }

  /**
    A read of k pushes x out of both upper tiers: k is not in the first tier but in the second, the first
    tier has no room for x beside it, and the second none once it takes in what the first gives up.
   */
  predicate PushesOut<K(==), V>(lims: TierLimits, t: Tiers<K, V>, k: K, x: K) {
    Find(t.l1, k).None? && x != k &&
    match Find(t.l2, k)
    case Some(e) =>
      Find(Trim(lims.l1, t.l1, e.size), x).None? &&
      Find(PutAll(lims.l2, Touch(t.l2, k), GivenUp(lims, t, e.size)).list, x).None?
    case None => false
  }

  /** The read does not push out a key whose old copy is hidden; a question about the tiers before the read. */
  ghost predicate NoOldCopyBelow<K, V>(lims: TierLimits, t: Tiers<K, V>, k: K, x: K) {
    HidesOldCopy(t, x) ==> !PushesOut(lims, t, k, x)
  }

  /** After a put the key reads as put or is gone; every other key reads as before or is gone. */
  lemma PutSees<K, V>(lims: TierLimits, t: Tiers<K, V>, k: K, v: V, size: nat, x: K)
    ensures var seen := See(TierPut(lims, t, k, v, size), x);
      seen.None? || seen == if x == k then Some(v) else See(t, x)
  {
    var r1 := Put(lims.l1, t.l1, k, v, size);
    var r2 := PutAll(lims.l2, t.l2, r1.evicted);
    PutKeepsValues(lims.l1, t.l1, k, v, size, x);
    PutAllKeepsValues(lims.l2, t.l2, r1.evicted, x);
    PutAllKeepsValues(lims.l3, t.l3, r2.evicted, x);
  }

  lemma L3HitSees<K, V>(lims: TierLimits, t: Tiers<K, V>, k: K, x: K)
    requires Find(t.l1, k).None? && Find(t.l2, k).None? && Find(t.l3, k).Some?
    ensures SameOrGone(t, TierGet(lims, t, k, true).tiers, x) && SameOrGone(t, TierGet(lims, t, k, false).tiers, x)
  {
    var e := Find(t.l3, k).value;
    var r2 := Put(lims.l2, t.l2, k, e.value, e.size);
    LookTouch(t.l3, k, x);
    PutKeepsValues(lims.l2, t.l2, k, e.value, e.size, x);
    PutAllKeepsValues(lims.l3, Touch(t.l3, k), r2.evicted, x);
  }

  /** With the second tier's evictions demoted, a get never changes what a key reads as, except to nothing. */
  lemma DemotingGetSees<K, V>(lims: TierLimits, t: Tiers<K, V>, k: K, x: K)
    ensures SameOrGone(t, TierGet(lims, t, k, true).tiers, x)
  {
    LookTouch(t.l1, k, x);
    LookTouch(t.l2, k, x);
    LookTouch(t.l3, k, x);
    if Find(t.l1, k).None? {
      if Find(t.l2, k).Some? {
        var e := Find(t.l2, k).value;
        var r1 := Put(lims.l1, t.l1, k, e.value, e.size);
        var r2 := PutAll(lims.l2, Touch(t.l2, k), r1.evicted);
        PutKeepsValues(lims.l1, t.l1, k, e.value, e.size, x);
        PutAllKeepsValues(lims.l2, Touch(t.l2, k), r1.evicted, x);
        PutAllKeepsValues(lims.l3, t.l3, r2.evicted, x);
      } else if Find(t.l3, k).Some? {
        L3HitSees(lims, t, k, x);
      }
    }
  }

  /** After a hit in the second tier as written, a key shows what it showed above, unless it was pushed out. */
  lemma L2HitSees<K, V>(lims: TierLimits, t: Tiers<K, V>, k: K, x: K)
    requires Find(t.l1, k).None? && Find(t.l2, k).Some?
    ensures See(TierGet(lims, t, k, false).tiers, x) == if PushesOut(lims, t, k, x) then Look(t.l3, x) else See(t, x)
  {
    var e := Find(t.l2, k).value;
    var kept, given, l2 := Trim(lims.l1, t.l1, e.size), GivenUp(lims, t, e.size), Touch(t.l2, k);
    var r2 := PutAll(lims.l2, l2, given);
    LookTouch(t.l2, k, x);
    LookFront(Item(k, e.value, e.size), kept, x);
    LastInReverse(t.l1[|kept|..], x);
    LookAppend(kept, t.l1[|kept|..], x);
    assert t.l1 == kept + t.l1[|kept|..];
    PutAllKeepsValues(lims.l2, l2, given, x);
  }

  /** The get as written leaves a key's reading alone exactly when it does not push out a key that hides an old copy. */
  lemma WrittenGetSeesIff<K, V>(lims: TierLimits, t: Tiers<K, V>, k: K, x: K)
    ensures SameOrGone(t, TierGet(lims, t, k, false).tiers, x) <==> NoOldCopyBelow(lims, t, k, x)
  {
    LookTouch(t.l1, k, x);
    if Find(t.l1, k).None? {
      if Find(t.l2, k).Some? {
        L2HitSees(lims, t, k, x);
      } else if Find(t.l3, k).Some? {
        L3HitSees(lims, t, k, x);
      }
    }
  }
}
