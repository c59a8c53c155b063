/** Whole runs of a least-recently-used cache: the list is ordered by last touch and holds the latest values. */
module LruRuns {
  import opened Graphs
  import opened Lru
  import opened Options

  datatype Op<K, V> = Get(key: K) | Insert(key: K, value: V, size: nat) | Remove(key: K) | Clear

  function Step<K(==), V>(lim: Limits, l: seq<Item<K, V>>, op: Op<K, V>): seq<Item<K, V>> {
    match op
    case Get(k) => Touch(l, k)
    case Insert(k, v, size) => Put(lim, l, k, v, size).list
    case Remove(k) => Without(l, k)
    case Clear => []
  }

  function Run<K(==), V>(lim: Limits, ops: seq<Op<K, V>>): seq<Item<K, V>> {
    if ops == [] then [] else Step(lim, Run(lim, ops[..|ops| - 1]), ops[|ops| - 1])
  }

  predicate Touches<K(==), V>(op: Op<K, V>, k: K) {
    (op.Get? || op.Insert?) && op.key == k
  }

  /** The index of the last operation that touched the key, -1 if none did. */
  function LastTouch<K(==), V>(ops: seq<Op<K, V>>, k: K): int {
    if ops == [] then -1
    else if Touches(ops[|ops| - 1], k) then |ops| - 1
    else LastTouch(ops[..|ops| - 1], k)
  }

  /** What was last put under the key, unless it was removed or everything cleared since. */
  function LastPut<K(==), V>(ops: seq<Op<K, V>>, k: K): Option<Entry<V>> {
    if ops == [] then None
    else
      var before, op := ops[..|ops| - 1], ops[|ops| - 1];
      if op.Clear? then None
      else if op.key != k || op.Get? then LastPut(before, k)
      else if op.Insert? then Some(Entry(op.value, op.size)) else None
  }

  /** Most recently touched first, every item as it was last put. */
  ghost predicate UpToDate<K, V>(ops: seq<Op<K, V>>, l: seq<Item<K, V>>) {
    && (forall i, j :: 0 <= i < j < |l| ==> LastTouch(ops, l[i].key) > LastTouch(ops, l[j].key))
    && (forall i :: 0 <= i < |l| ==> LastPut(ops, l[i].key) == Some(Entry(l[i].value, l[i].size)))
  }

  lemma {:induction false} TouchedBefore<K, V>(ops: seq<Op<K, V>>, k: K)
    ensures -1 <= LastTouch(ops, k) < |ops|
    decreases |ops|
  {
    if ops != [] { TouchedBefore(ops[..|ops| - 1], k); }
  }

  /** Leaving out a key keeps the others in order. */
  lemma {:induction false} WithoutMembers<K, V>(l: seq<Item<K, V>>, k: K)
    ensures forall x :: x in Without(l, k) <==> x in l && x.key != k
    decreases |l|
  {
    if l != [] {
      WithoutMembers(l[1..], k);
      assert l == [l[0]] + l[1..];
    }
  }

  lemma {:induction false} WithoutStaysOlder<K, V>(ops: seq<Op<K, V>>, l: seq<Item<K, V>>, k: K, bound: int)
    requires forall i :: 0 <= i < |l| ==> LastTouch(ops, l[i].key) < bound
    ensures forall i :: 0 <= i < |Without(l, k)| ==> LastTouch(ops, Without(l, k)[i].key) < bound
    decreases |l|
  {
    if l != [] {
      assert forall i :: 0 <= i < |l[1..]| ==> l[1..][i] == l[i + 1];
      WithoutStaysOlder(ops, l[1..], k, bound);
    }
  }

  lemma {:induction false} WithoutUpToDate<K, V>(ops: seq<Op<K, V>>, l: seq<Item<K, V>>, k: K)
    requires UpToDate(ops, l)
    ensures UpToDate(ops, Without(l, k))
    decreases |l|
  {
    if l != [] {
      WithoutUpToDate(ops, l[1..], k);
      WithoutStaysOlder(ops, l[1..], k, LastTouch(ops, l[0].key));
    }
  }

  lemma PrefixUpToDate<K, V>(ops: seq<Op<K, V>>, l: seq<Item<K, V>>, n: nat)
    requires UpToDate(ops, l) && n <= |l|
    ensures UpToDate(ops, l[..n])
  {
  }

  /** An operation that leaves the listed keys alone keeps the list up to date. */
  lemma StillUpToDate<K, V>(ops: seq<Op<K, V>>, op: Op<K, V>, l: seq<Item<K, V>>)
    requires UpToDate(ops, l)
    requires !op.Clear? && forall i :: 0 <= i < |l| ==> l[i].key != op.key
    ensures UpToDate(ops + [op], l)
  {
    var next := ops + [op];
    assert next[..|ops|] == ops;
    forall i | 0 <= i < |l|
      ensures LastTouch(next, l[i].key) == LastTouch(ops, l[i].key) && LastPut(next, l[i].key) == LastPut(ops, l[i].key)
    {
    }
  }

  /** Putting the touched key in front of an up-to-date list of other keys. */
  lemma FrontUpToDate<K, V>(ops: seq<Op<K, V>>, op: Op<K, V>, l: seq<Item<K, V>>, item: Item<K, V>)
    requires UpToDate(ops, l) && Touches(op, item.key)
    requires forall i :: 0 <= i < |l| ==> l[i].key != item.key
    requires LastPut(ops + [op], item.key) == Some(Entry(item.value, item.size))
    ensures UpToDate(ops + [op], [item] + l)
  {
    var next, r := ops + [op], [item] + l;
    StillUpToDate(ops, op, l);
    assert next[..|ops|] == ops;
    assert LastTouch(next, item.key) == |ops|;
    forall i | 0 <= i < |l| ensures LastTouch(next, l[i].key) < |ops| {
      TouchedBefore(ops, l[i].key);
      assert LastTouch(next, l[i].key) == LastTouch(ops, l[i].key);
    }
  }

  lemma {:induction false} FindIndex<K, V>(l: seq<Item<K, V>>, k: K)
    ensures Find(l, k).None? ==> forall i :: 0 <= i < |l| ==> l[i].key != k
    ensures Find(l, k).Some? ==>
      exists i :: 0 <= i < |l| && l[i] == Item(k, Find(l, k).value.value, Find(l, k).value.size)
    decreases |l|
  {
    if l != [] && l[0].key != k {
      FindIndex(l[1..], k);
      if Find(l, k).Some? {
        var i :| 0 <= i < |l[1..]| && l[1..][i] == Item(k, Find(l, k).value.value, Find(l, k).value.size);
        assert l[i + 1] == l[1..][i];
      } else {
        forall i | 0 <= i < |l| ensures l[i].key != k {
          if i > 0 { assert l[1..][i - 1] == l[i]; }
        }
      }
    }
  }

  lemma WithoutLacksKey<K, V>(l: seq<Item<K, V>>, k: K)
    ensures forall i :: 0 <= i < |Without(l, k)| ==> Without(l, k)[i].key != k
  {
    WithoutMembers(l, k);
    forall i | 0 <= i < |Without(l, k)| ensures Without(l, k)[i].key != k {
      assert Without(l, k)[i] in Without(l, k);
    }
  }

  lemma TouchStep<K, V>(lim: Limits, ops: seq<Op<K, V>>, l: seq<Item<K, V>>, k: K)
    requires WellFormed(lim, l) && UpToDate(ops, l)
    ensures WellFormed(lim, Touch(l, k)) && UpToDate(ops + [Get(k)], Touch(l, k))
  {
    FindIndex(l, k);
    FindInKeys(l, k);
    assert (ops + [Get(k)])[..|ops|] == ops;
    match Find(l, k) {
      case None =>
        StillUpToDate(ops, Get(k), l);
      case Some(e) =>
        WithoutUpToDate(ops, l, k);
        WithoutLacksKey(l, k);
        ReplaceIsBounded(lim, l, k, e.value, e.size);
        var i :| 0 <= i < |l| && l[i] == Item(k, e.value, e.size);
        FrontUpToDate(ops, Get(k), Without(l, k), Item(k, e.value, e.size));
    }
  }

  lemma PutStep<K, V>(lim: Limits, ops: seq<Op<K, V>>, l: seq<Item<K, V>>, k: K, v: V, size: nat)
    requires WellFormed(lim, l) && UpToDate(ops, l)
    ensures WellFormed(lim, Put(lim, l, k, v, size).list)
    ensures UpToDate(ops + [Insert(k, v, size)], Put(lim, l, k, v, size).list)
  {
    var op := Insert(k, v, size);
    PutIsBounded(lim, l, k, v, size);
    FindIndex(l, k);
    assert (ops + [op])[..|ops|] == ops;
    if Find(l, k).Some? {
      WithoutUpToDate(ops, l, k);
      WithoutLacksKey(l, k);
      FrontUpToDate(ops, op, Without(l, k), Item(k, v, size));
    } else {
      var kept := Trim(lim, l, size);
      assert kept == l[..|kept|];
      PrefixUpToDate(ops, l, |kept|);
      FrontUpToDate(ops, op, kept, Item(k, v, size));
    }
  }

  lemma RemoveStep<K, V>(lim: Limits, ops: seq<Op<K, V>>, l: seq<Item<K, V>>, k: K)
    requires WellFormed(lim, l) && UpToDate(ops, l)
    ensures WellFormed(lim, Without(l, k)) && UpToDate(ops + [Remove(k)], Without(l, k))
  {
    WithoutKeys(l, k);
    WithoutUpToDate(ops, l, k);
    WithoutLacksKey(l, k);
    StillUpToDate(ops, Remove(k), Without(l, k));
  }

  /** In every reachable state the list is well formed, ordered by last touch, and holds only the latest values. */
  lemma {:induction false} EveryRunIsUpToDate<K, V>(lim: Limits, ops: seq<Op<K, V>>)
    ensures WellFormed(lim, Run(lim, ops)) && UpToDate(ops, Run(lim, ops))
    decreases |ops|
  {
    if ops != [] {
      var before, op := ops[..|ops| - 1], ops[|ops| - 1];
      var l := Run(lim, before);
      assert ops == before + [op];
      EveryRunIsUpToDate(lim, before);
      match op {
        case Get(k) => TouchStep(lim, before, l, k);
        case Insert(k, v, size) => PutStep(lim, before, l, k, v, size);
        case Remove(k) => RemoveStep(lim, before, l, k);
        case Clear =>
      }
    }
  }

  // ---------------------------------------------------------------- the byte limit over runs

  lemma RunAppend<K, V>(lim: Limits, before: seq<Op<K, V>>, op: Op<K, V>)
    ensures Run(lim, before + [op]) == Step(lim, Run(lim, before), op)
  {
    assert (before + [op])[..|before|] == before;
  }

  /** Only insertions can exceed the limit; this is when one does not. */
  predicate StepFits<K(==), V>(lim: Limits, l: seq<Item<K, V>>, op: Op<K, V>) {
    op.Insert? ==> FitsAfterPut(lim, l, op.key, op.size)
  }

  lemma SizeTouch<K, V>(l: seq<Item<K, V>>, k: K)
    requires NoDup(Keys(l))
    ensures TotalSize(Touch(l, k)) == TotalSize(l)
  {
    SizeWithout(l, k);
    if Find(l, k).Some? {
      var e := Find(l, k).value;
      SizeCons(Item(k, e.value, e.size), Without(l, k));
    }
  }

  /** A step from within the limit ends within the limit exactly when it fits. */
  lemma StepIsWithinLimitIff<K, V>(lim: Limits, l: seq<Item<K, V>>, op: Op<K, V>)
    requires WellFormed(lim, l) && TotalSize(l) <= lim.maxSize
    ensures TotalSize(Step(lim, l, op)) <= lim.maxSize <==> StepFits(lim, l, op)
  {
    match op {
      case Get(k) => SizeTouch(l, k);
      case Insert(k, v, size) => PutIsWithinLimitIff(lim, l, k, v, size);
      case Remove(k) => SizeWithout(l, k);
      case Clear =>
    }
  }

  ghost predicate AlwaysWithinLimit<K, V>(lim: Limits, ops: seq<Op<K, V>>) {
    forall n {:trigger Run(lim, ops[..n])} :: 0 <= n <= |ops| ==> TotalSize(Run(lim, ops[..n])) <= lim.maxSize
  }

  ghost predicate AllFit<K, V>(lim: Limits, ops: seq<Op<K, V>>) {
    forall i {:trigger ops[i]} :: 0 <= i < |ops| ==> StepFits(lim, Run(lim, ops[..i]), ops[i])
  }

  lemma WithinSplits<K, V>(lim: Limits, ops: seq<Op<K, V>>)
    requires ops != []
    ensures var n := |ops| - 1; AlwaysWithinLimit(lim, ops) <==>
      AlwaysWithinLimit(lim, ops[..n]) && TotalSize(Run(lim, ops)) <= lim.maxSize
  {
    var n := |ops| - 1;
    assert ops[..|ops|] == ops;
    forall m | 0 <= m <= n ensures ops[..n][..m] == ops[..m] {}
  }

  lemma FitSplits<K, V>(lim: Limits, ops: seq<Op<K, V>>)
    requires ops != []
    ensures var n := |ops| - 1; AllFit(lim, ops) <==>
      AllFit(lim, ops[..n]) && StepFits(lim, Run(lim, ops[..n]), ops[n])
  {
    var n := |ops| - 1;
    forall i | 0 <= i < n ensures ops[..n][..i] == ops[..i] && ops[..n][i] == ops[i] {}
  }

  /** The cache stays within its byte limit all along a run if and only if every insertion of the run fits. */
  lemma {:induction false} RunsAreWithinLimitIff<K, V>(lim: Limits, ops: seq<Op<K, V>>)
    ensures AlwaysWithinLimit(lim, ops) <==> AllFit(lim, ops)
    decreases |ops|
  {
    if ops == [] {
      assert ops[..0] == [];
    } else {
      var n := |ops| - 1;
      var before, op := ops[..n], ops[n];
      assert ops[..|ops|] == ops == before + [op];
      forall m | 0 <= m <= n ensures before[..m] == ops[..m] {}
      RunsAreWithinLimitIff(lim, before);
      RunAppend(lim, before, op);
      EveryRunIsUpToDate(lim, before);
      WithinSplits(lim, ops);
      FitSplits(lim, ops);
      assert before[..n] == before;
      if AlwaysWithinLimit(lim, before) { StepIsWithinLimitIff(lim, Run(lim, before), op); }
    }
  }

  /** A value was replaced after the last insertion of a new key. */
  predicate ReplacedSinceInsertion<K(==), V>(lim: Limits, ops: seq<Op<K, V>>) {
    ops != [] &&
    var before, op := ops[..|ops| - 1], ops[|ops| - 1];
    match op
    case Insert(k, _, _) => Find(Run(lim, before), k).Some?
    case Clear => false
    case _ => ReplacedSinceInsertion(lim, before)
  }

  lemma TouchKeepsCount<K, V>(l: seq<Item<K, V>>, k: K)
    requires NoDup(Keys(l))
    ensures |Touch(l, k)| == |l|
  {
    FindInKeys(l, k);
    WithoutKeys(l, k);
  }

  /**
    In every reachable state the bytes are within the limit, or one item stands alone, or a value was
    replaced since.
   */
  lemma {:induction false} RunIsBoundedUnlessReplaced<K, V>(lim: Limits, ops: seq<Op<K, V>>)
    requires !ReplacedSinceInsertion(lim, ops)
    ensures TotalSize(Run(lim, ops)) <= lim.maxSize || |Run(lim, ops)| == 1
    decreases |ops|
  {
    if ops != [] {
      var before, op := ops[..|ops| - 1], ops[|ops| - 1];
      var l := Run(lim, before);
      EveryRunIsUpToDate(lim, before);
      match op {
        case Get(k) =>
          RunIsBoundedUnlessReplaced(lim, before);
          SizeTouch(l, k);
          TouchKeepsCount(l, k);
        case Insert(k, v, size) =>
          FindInKeys(l, k);
          PutIsBounded(lim, l, k, v, size);
        case Remove(k) =>
          RunIsBoundedUnlessReplaced(lim, before);
          SizeWithout(l, k);
          WithoutKeys(l, k);
        case Clear =>
      }
    }
  }
}
