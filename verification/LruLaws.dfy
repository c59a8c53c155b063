/** What the recency cache does to the list, with every comparison written out, and when it acts as a plain map. */
module LruLaws {
  import opened Graphs
  import opened Lru
  import opened LruRuns
  import opened LruSteps
  import opened Options

  // ---------------------------------------------------------------- one operation

  /** Nothing is evicted while one more entry and its bytes fit. */
  lemma RoomyPut<K, V>(lim: Limits, l: seq<Item<K, V>>, k: K, v: V, size: nat)
    requires Find(l, k).None? && |l| < lim.capacity && TotalSize(l) + size <= lim.maxSize
    ensures Put(lim, l, k, v, size).list == [Item(k, v, size)] + l
    ensures Put(lim, l, k, v, size).evicted == []
  {
    assert l[|l|..] == [];
  }

  lemma {:induction false} ReverseAt<T>(s: seq<T>, i: nat)
    requires i < |s|
    ensures |Reverse(s)| == |s| && Reverse(s)[i] == s[|s| - 1 - i]
    decreases |s|
  {
    var front := s[..|s| - 1];
    if i > 0 { ReverseAt(front, i - 1); } else if front != [] { ReverseAt(front, 0); }
  }

  lemma EvictedInOrder<T>(l: seq<T>, n: nat)
    requires n <= |l|
    ensures |Reverse(l[n..])| == |l| - n
    ensures forall i :: 0 <= i < |l| - n ==> Reverse(l[n..])[i] == l[|l| - 1 - i]
  {
    var gone := l[n..];
    if gone != [] { ReverseAt(gone, 0); }
    forall i | 0 <= i < |gone| ensures Reverse(gone)[i] == l[|l| - 1 - i] {
      ReverseAt(gone, i);
    }
  }

  /**
    A new key goes to the front. What stays behind it is the longest part of the list, from the most recent
    on, that leaves room for one more entry and its bytes; the rest goes, least recent first.
   */
  lemma NewKeyKeepsWhatFits<K, V>(lim: Limits, l: seq<Item<K, V>>, k: K, v: V, size: nat)
    requires Find(l, k).None?
    ensures var r := Put(lim, l, k, v, size);
      var n := |r.list| - 1;
      && 0 <= n <= |l| && r.list == [Item(k, v, size)] + l[..n]
      && (n == 0 || (n < lim.capacity && TotalSize(l[..n]) + size <= lim.maxSize))
      && (forall m :: n < m <= |l| ==> !(m < lim.capacity && TotalSize(l[..m]) + size <= lim.maxSize))
      && |r.evicted| == |l| - n && (forall i :: 0 <= i < |l| - n ==> r.evicted[i] == l[|l| - 1 - i])
  {
    var kept := Trim(lim, l, size);
    TrimIsLongest(lim, l, size);
    assert kept == l[..|kept|];
    EvictedInOrder(l, |kept|);
  }

  /** A key that is there, read or put again, moves to the front; the others keep their order. */
  lemma HitMovesToFront<K, V>(lim: Limits, l: seq<Item<K, V>>, pos: nat, v: V, size: nat)
    requires NoDup(Keys(l)) && pos < |l|
    ensures var others := l[..pos] + l[pos + 1..];
      && Touch(l, l[pos].key) == [l[pos]] + others
      && Put(lim, l, l[pos].key, v, size).list == [Item(l[pos].key, v, size)] + others
      && Put(lim, l, l[pos].key, v, size).evicted == []
      && Put(lim, l, l[pos].key, v, size).replaced == Some(l[pos].value)
  {
    SplitOut(l, pos);
  }

  lemma {:induction false} FoundAt<K, V>(l: seq<Item<K, V>>, k: K) returns (i: nat)
    requires Find(l, k).Some?
    ensures i < |l| && l[i] == Item(k, Find(l, k).value.value, Find(l, k).value.size)
    decreases |l|
  {
    if l[0].key == k {
      i := 0;
    } else {
      var rest := FoundAt(l[1..], k);
      i := rest + 1;
    }
  }

  // ---------------------------------------------------------------- whole runs

  /** After any run, a put tells the value put last under its key, and none when the key is gone. */
  lemma ReplacedWasPutLast<K, V>(lim: Limits, ops: seq<Op<K, V>>, k: K, v: V, size: nat)
    ensures var l := Run(lim, ops);
      match Put(lim, l, k, v, size).replaced
      case Some(was) => k in Keys(l) && LastPut(ops, k).Some? && LastPut(ops, k).value.value == was
      case None => k !in Keys(l)
  {
    var l := Run(lim, ops);
    EveryRunIsUpToDate(lim, ops);
    FindInKeys(l, k);
    if Find(l, k).Some? { var i := FoundAt(l, k); }
  }

  /** How many entries a run inserts, replacements included. */
  function Inserted<K, V>(ops: seq<Op<K, V>>): nat {
    if ops == [] then 0 else Inserted(ops[..|ops| - 1]) + if ops[|ops| - 1].Insert? then 1 else 0
  }

  function InsertedBytes<K, V>(ops: seq<Op<K, V>>): nat {
    if ops == [] then 0
    else InsertedBytes(ops[..|ops| - 1]) + if ops[|ops| - 1].Insert? then ops[|ops| - 1].size else 0
  }

  lemma {:induction false} WithoutIsSmaller<K, V>(l: seq<Item<K, V>>, k: K)
    ensures TotalSize(Without(l, k)) <= TotalSize(l)
    ensures |Without(l, k)| <= |l| - if Find(l, k).Some? then 1 else 0
    ensures Find(l, k).Some? ==> TotalSize(Without(l, k)) + Find(l, k).value.size <= TotalSize(l)
    decreases |l|
  {
    if l != [] {
      WithoutIsSmaller(l[1..], k);
      assert l == [l[0]] + l[1..];
      SizeCons(l[0], l[1..]);
      if l[0].key != k { SizeCons(l[0], Without(l[1..], k)); }
    }
  }

  lemma {:induction false} FindWithout<K, V>(l: seq<Item<K, V>>, k: K, x: K)
    ensures Find(Without(l, k), x) == if x == k then None else Find(l, x)
    decreases |l|
  {
    if l != [] {
      FindWithout(l[1..], k, x);
      if l[0].key != k { assert ([l[0]] + Without(l[1..], k))[1..] == Without(l[1..], k); }
    }
  }

  lemma FindFront<K, V>(item: Item<K, V>, l: seq<Item<K, V>>, x: K)
    ensures Find([item] + l, x) == if x == item.key then Some(Entry(item.value, item.size)) else Find(l, x)
  {
    assert ([item] + l)[1..] == l;
  }

  /**
    A put that fits makes the list at most one entry longer, its bytes at most the item's more, and changes its
    own key only.
   */
  lemma RoomyStep<K, V>(lim: Limits, l: seq<Item<K, V>>, k: K, v: V, size: nat, x: K)
    requires |l| < lim.capacity && TotalSize(l) + size <= lim.maxSize
    ensures var list := Put(lim, l, k, v, size).list;
      |list| <= |l| + 1 && TotalSize(list) <= TotalSize(l) + size &&
      Find(list, x) == if x == k then Some(Entry(v, size)) else Find(l, x)
  {
    var item := Item(k, v, size);
    if Find(l, k).Some? {
      WithoutIsSmaller(l, k);
      SizeCons(item, Without(l, k));
      FindFront(item, Without(l, k), x);
      FindWithout(l, k, x);
    } else {
      RoomyPut(lim, l, k, v, size);
      SizeCons(item, l);
      FindFront(item, l, x);
    }
  }

  lemma TouchStep<K, V>(l: seq<Item<K, V>>, k: K, x: K)
    ensures |Touch(l, k)| <= |l| && TotalSize(Touch(l, k)) <= TotalSize(l) && Find(Touch(l, k), x) == Find(l, x)
  {
    WithoutIsSmaller(l, k);
    if Find(l, k).Some? {
      var e := Find(l, k).value;
      SizeCons(Item(k, e.value, e.size), Without(l, k));
      FindFront(Item(k, e.value, e.size), Without(l, k), x);
      FindWithout(l, k, x);
    }
  }

  /** As long as all that a run inserts fits, the cache forgets nothing: every key has what was put last. */
  lemma {:induction false} RoomyRunIsMap<K, V>(lim: Limits, ops: seq<Op<K, V>>, x: K)
    requires Inserted(ops) <= lim.capacity && InsertedBytes(ops) <= lim.maxSize
    ensures |Run(lim, ops)| <= Inserted(ops) && TotalSize(Run(lim, ops)) <= InsertedBytes(ops)
    ensures Find(Run(lim, ops), x) == LastPut(ops, x)
    decreases |ops|
  {
    if ops != [] {
      var before, op := ops[..|ops| - 1], ops[|ops| - 1];
      var l := Run(lim, before);
      RoomyRunIsMap(lim, before, x);
      match op {
        case Get(k) => TouchStep(l, k, x);
        case Insert(k, v, size) => RoomyStep(lim, l, k, v, size, x);
        case Remove(k) =>
          WithoutIsSmaller(l, k);
          FindWithout(l, k, x);
        case Clear =>
      }
    }
  }

  lemma SecondOfTwoGoes<V>(a: Item<int, V>, b: Item<int, V>, z: V)
    requires a.key != 3 && b.key != 3 && a.size == b.size == 1
    ensures Put(Limits(2, 10), [a, b], 3, z, 1).list == [Item(3, z, 1), a]
  {
    var l := [a, b];
    assert l[1..] == [b] && [b][1..] == [] && Find(l[1..], 3) == Find([b], 3) == None;
    NewKeyKeepsWhatFits(Limits(2, 10), l, 3, z, 1);
    assert l[..1] == [a] && l[..2] == l;
    SizeCons(a, []);
  }

  /** With room for two, the third key pushes out the one that was not touched last. */
  lemma LeastRecentGoes<V>(x: V, y: V, z: V)
    ensures var lim := Limits(2, 10);
      var run := Run(lim, [Insert(1, x, 1), Insert(2, y, 1), Get(1), Insert(3, z, 1)]);
      run == [Item(3, z, 1), Item(1, x, 1)]
  {
    var lim := Limits(2, 10);
    var a: Item<int, V>, b: Item<int, V> := Item(1, x, 1), Item(2, y, 1);
    var ops: seq<Op<int, V>> := [Insert(1, x, 1), Insert(2, y, 1), Get(1), Insert(3, z, 1)];
    assert ops[..3] == [Insert(1, x, 1), Insert(2, y, 1), Get(1)] && ops[..3][..2] == ops[..2];
    assert ops[..2][..1] == [Insert(1, x, 1)] && ops[..1][..0] == [];
    RoomyPut(lim, [], 1, x, 1);
    assert Run(lim, ops[..1]) == [a];
    assert TotalSize([a]) == 1 by { SizeCons(a, []); }
    RoomyPut(lim, [a], 2, y, 1);
    assert Run(lim, ops[..2]) == [b] + [a] == [b, a];
    assert Keys([b, a]) == [2, 1];
    HitMovesToFront(lim, [b, a], 1, x, 1);
    assert Run(lim, ops[..3]) == [a, b];
    SecondOfTwoGoes(a, b, z);
    assert Run(lim, ops) == Put(lim, [a, b], 3, z, 1).list;
  }
}
