/** The least-recently-used cache as one list of items, most recent first, and what its operations guarantee. */
module Lru {
  import opened Graphs
  import opened Options

  datatype Entry<V> = Entry(value: V, size: nat)
  datatype Item<K, V> = Item(key: K, value: V, size: nat)
  datatype Limits = Limits(capacity: nat, maxSize: nat)

  // ---------------------------------------------------------------- recency lists

  function Keys<K, V>(l: seq<Item<K, V>>): (r: seq<K>)
    ensures |r| == |l| && forall i :: 0 <= i < |l| ==> r[i] == l[i].key
  {
    seq(|l|, i requires 0 <= i < |l| => l[i].key)
  }

  function TotalSize<K, V>(l: seq<Item<K, V>>): nat {
    if l == [] then 0 else TotalSize(l[..|l| - 1]) + l[|l| - 1].size
  }

  function Find<K(==), V>(l: seq<Item<K, V>>, k: K): Option<Entry<V>> {
    if l == [] then None
    else if l[0].key == k then Some(Entry(l[0].value, l[0].size))
    else Find(l[1..], k)
  }

  function Without<K(==), V>(l: seq<Item<K, V>>, k: K): seq<Item<K, V>> {
    if l == [] then []
    else if l[0].key == k then Without(l[1..], k)
    else [l[0]] + Without(l[1..], k)
  }

  /** Moves a key to the front if it is there. */
  function Touch<K(==), V>(l: seq<Item<K, V>>, k: K): seq<Item<K, V>> {
    match Find(l, k)
    case None => l
    case Some(e) => [Item(k, e.value, e.size)] + Without(l, k)
  }

  /** There is room for one more item of the given size. */
  predicate HasRoom<K, V>(lim: Limits, l: seq<Item<K, V>>, size: nat) {
    |l| < lim.capacity && TotalSize(l) + size <= lim.maxSize
  }

  /** What is left once the least recent items have made room. */
  function Trim<K, V>(lim: Limits, l: seq<Item<K, V>>, size: nat): (r: seq<Item<K, V>>)
    ensures r <= l
  {
    if l == [] || HasRoom(lim, l, size) then l else Trim(lim, l[..|l| - 1], size)
  }

  function Reverse<T>(s: seq<T>): seq<T> {
    if s == [] then [] else [s[|s| - 1]] + Reverse(s[..|s| - 1])
  }

  datatype PutResult<K, V> = PutResult(list: seq<Item<K, V>>, replaced: Option<V>, evicted: seq<Item<K, V>>)

  function Put<K(==), V>(lim: Limits, l: seq<Item<K, V>>, k: K, v: V, size: nat): PutResult<K, V> {
    match Find(l, k)
    case Some(e) => PutResult([Item(k, v, size)] + Without(l, k), Some(e.value), [])
    case None =>
      var kept := Trim(lim, l, size);
      PutResult([Item(k, v, size)] + kept, None, Reverse(l[|kept|..]))
  }

  // ---------------------------------------------------------------- what trimming and putting guarantee

  /** Trimming keeps the longest prefix with room: the shortest least-recent suffix goes. */
  lemma {:induction false} TrimIsLongest<K, V>(lim: Limits, l: seq<Item<K, V>>, size: nat)
    ensures var n := |Trim(lim, l, size)|;
      (n == 0 || HasRoom(lim, l[..n], size)) &&
      forall m :: n < m <= |l| ==> !HasRoom(lim, l[..m], size)
    decreases |l|
  {
    assert l[..|l|] == l;
    if l != [] && !HasRoom(lim, l, size) {
      var rest := l[..|l| - 1];
      TrimIsLongest(lim, rest, size);
      forall m | 0 <= m <= |rest| ensures rest[..m] == l[..m] {}
    }
  }

  lemma {:induction false} FindInKeys<K, V>(l: seq<Item<K, V>>, k: K)
    ensures Find(l, k).Some? <==> k in Keys(l)
    ensures Find(l, k).None? ==> Without(l, k) == l
    decreases |l|
  {
    if l != [] {
      FindInKeys(l[1..], k);
      assert Keys(l) == [l[0].key] + Keys(l[1..]);
      assert l == [l[0]] + l[1..];
    }
  }

  lemma {:induction false} WithoutKeys<K, V>(l: seq<Item<K, V>>, k: K)
    requires NoDup(Keys(l))
    ensures NoDup(Keys(Without(l, k)))
    ensures forall x :: x in Keys(Without(l, k)) <==> x in Keys(l) && x != k
    ensures |Without(l, k)| == |l| - if k in Keys(l) then 1 else 0
    decreases |l|
  {
    if l != [] {
      assert Keys(l) == [l[0].key] + Keys(l[1..]);
      assert l[0].key !in Keys(l[1..]);
      WithoutKeys(l[1..], k);
      if l[0].key != k {
        assert Keys(Without(l, k)) == [l[0].key] + Keys(Without(l[1..], k));
      }
    }
  }

  /** A well-formed list: no key twice, and at most max(1, capacity) items. */
  ghost predicate WellFormed<K, V>(lim: Limits, l: seq<Item<K, V>>) {
    NoDup(Keys(l)) && (|l| <= lim.capacity || |l| <= 1)
  }

  lemma PrefixWellFormed<K, V>(lim: Limits, l: seq<Item<K, V>>, n: nat)
    requires WellFormed(lim, l) && n <= |l|
    ensures WellFormed(lim, l[..n])
  {
    assert Keys(l[..n]) == Keys(l)[..n];
  }

  lemma ConsWellFormed<K, V>(lim: Limits, item: Item<K, V>, l: seq<Item<K, V>>)
    requires NoDup(Keys(l)) && item.key !in Keys(l) && (|l| < lim.capacity || l == [])
    ensures WellFormed(lim, [item] + l)
  {
    assert Keys([item] + l) == [item.key] + Keys(l);
    NoDupAppend([item.key], Keys(l));
  }

  lemma ReplaceIsBounded<K, V>(lim: Limits, l: seq<Item<K, V>>, k: K, v: V, size: nat)
    requires WellFormed(lim, l) && k in Keys(l)
    ensures WellFormed(lim, [Item(k, v, size)] + Without(l, k))
  {
    WithoutKeys(l, k);
    ConsWellFormed(lim, Item(k, v, size), Without(l, k));
  }

  lemma {:induction false} SizeAppend<K, V>(a: seq<Item<K, V>>, b: seq<Item<K, V>>)
    ensures TotalSize(a + b) == TotalSize(a) + TotalSize(b)
    decreases |b|
  {
    if b == [] {
      assert a + b == a;
    } else {
      SizeAppend(a, b[..|b| - 1]);
      assert (a + b)[..|a + b| - 1] == a + b[..|b| - 1];
    }
  }

  lemma InsertIsBounded<K, V>(lim: Limits, l: seq<Item<K, V>>, k: K, v: V, size: nat)
    requires WellFormed(lim, l) && k !in Keys(l)
    ensures var list := [Item(k, v, size)] + Trim(lim, l, size);
      WellFormed(lim, list) && (TotalSize(list) <= lim.maxSize || list == [Item(k, v, size)])
  {
    var kept := Trim(lim, l, size);
    TrimIsLongest(lim, l, size);
    PrefixWellFormed(lim, l, |kept|);
    assert kept == l[..|kept|] && Keys(kept) == Keys(l)[..|kept|];
    ConsWellFormed(lim, Item(k, v, size), kept);
    SizeAppend([Item(k, v, size)], kept);
    assert TotalSize([Item(k, v, size)]) == size by { assert [Item(k, v, size)][..0] == []; }
  }

  /** Putting keeps the list well formed; a new key leaves the size within the limit or stands alone. */
  lemma PutIsBounded<K, V>(lim: Limits, l: seq<Item<K, V>>, k: K, v: V, size: nat)
    requires WellFormed(lim, l)
    ensures var list := Put(lim, l, k, v, size).list;
      WellFormed(lim, list) && list[0] == Item(k, v, size) &&
      (k !in Keys(l) ==> TotalSize(list) <= lim.maxSize || list == [Item(k, v, size)])
  {
    FindInKeys(l, k);
    if k in Keys(l) {
      ReplaceIsBounded(lim, l, k, v, size);
    } else {
      InsertIsBounded(lim, l, k, v, size);
    }
  }

  lemma SizeCons<K, V>(item: Item<K, V>, l: seq<Item<K, V>>)
    ensures TotalSize([item] + l) == item.size + TotalSize(l)
  {
    SizeAppend([item], l);
    assert [item][..0] == [];
  }

  // ---------------------------------------------------------------- the byte limit

  lemma FirstKey<K, V>(l: seq<Item<K, V>>)
    requires l != [] && NoDup(Keys(l))
    ensures l == [l[0]] + l[1..] && NoDup(Keys(l[1..])) && l[0].key !in Keys(l[1..])
  {
    assert Keys(l[1..]) == Keys(l)[1..];
  }

  /** The bytes a key takes up now. */
  function SizeOf<K(==), V>(l: seq<Item<K, V>>, k: K): nat {
    match Find(l, k) case Some(e) => e.size case None => 0
  }

  lemma WithoutCons<K, V>(first: Item<K, V>, rest: seq<Item<K, V>>, k: K)
    ensures var l := [first] + rest;
      Without(l, k) == (if first.key == k then Without(rest, k) else [first] + Without(rest, k)) &&
      SizeOf(l, k) == if first.key == k then first.size else SizeOf(rest, k)
  {
    assert ([first] + rest)[1..] == rest;
  }

  lemma FirstIsOnly<K, V>(rest: seq<Item<K, V>>, k: K)
    requires k !in Keys(rest)
    ensures SizeOf(rest, k) == 0 && Without(rest, k) == rest
  {
    FindInKeys(rest, k);
  }

  lemma SizeWithoutCons<K, V>(first: Item<K, V>, rest: seq<Item<K, V>>, k: K)
    requires first.key !in Keys(rest) && TotalSize(Without(rest, k)) == TotalSize(rest) - SizeOf(rest, k)
    ensures var l := [first] + rest; TotalSize(Without(l, k)) == TotalSize(l) - SizeOf(l, k)
  {
    var l, left, size := [first] + rest, Without(rest, k), SizeOf(rest, k);
    WithoutCons(first, rest, k);
    SizeCons(first, rest);
    if first.key == k {
      FirstIsOnly(rest, k);
    } else {
      SizeCons(first, left);
    }
  }

  lemma {:induction false} SizeWithout<K, V>(l: seq<Item<K, V>>, k: K)
    requires NoDup(Keys(l))
    ensures TotalSize(Without(l, k)) == TotalSize(l) - SizeOf(l, k)
    decreases |l|
  {
    if l != [] {
      FirstKey(l);
      SizeWithout(l[1..], k);
      SizeWithoutCons(l[0], l[1..], k);
    }
  }

  /**
    What a caller can check before a put: a new item must fit by itself, a replaced one must fit
    in place of the old one, as nothing is evicted for it.
   */
  predicate FitsAfterPut<K(==), V>(lim: Limits, l: seq<Item<K, V>>, k: K, size: nat) {
    if Find(l, k).Some? then TotalSize(l) - SizeOf(l, k) + size <= lim.maxSize else size <= lim.maxSize
  }

  /** A put leaves the bytes within the limit if and only if that check says so. */
  lemma PutIsWithinLimitIff<K, V>(lim: Limits, l: seq<Item<K, V>>, k: K, v: V, size: nat)
    requires WellFormed(lim, l)
    ensures TotalSize(Put(lim, l, k, v, size).list) <= lim.maxSize <==> FitsAfterPut(lim, l, k, size)
  {
    var item := Item(k, v, size);
    if Find(l, k).Some? {
      SizeCons(item, Without(l, k));
      SizeWithout(l, k);
    } else {
      SizeCons(item, Trim(lim, l, size));
      TrimIsLongest(lim, l, size);
      var kept := Trim(lim, l, size);
      assert kept == l[..|kept|];
    }
  }

  lemma {:induction false} ReverseMultiset<T>(s: seq<T>)
    ensures multiset(Reverse(s)) == multiset(s) && |Reverse(s)| == |s|
    decreases |s|
  {
    if s != [] {
      ReverseMultiset(s[..|s| - 1]);
      assert s == s[..|s| - 1] + [s[|s| - 1]];
    }
  }

  lemma MoveOne<T>(x: T, a: multiset<T>, b: multiset<T>)
    ensures (multiset{x} + a) + b == (a + b) + multiset{x}
  {
  }

  /** Nothing is lost: what was there and the new item are what is there now and what was evicted. */
  lemma PutConserves<K, V>(lim: Limits, l: seq<Item<K, V>>, k: K, v: V, size: nat)
    requires k !in Keys(l)
    ensures var r := Put(lim, l, k, v, size);
      multiset(r.list) + multiset(r.evicted) == multiset(l) + multiset{Item(k, v, size)}
  {
    FindInKeys(l, k);
    var kept, item := Trim(lim, l, size), Item(k, v, size);
    var gone := l[|kept|..];
    ReverseMultiset(gone);
    var r := Put(lim, l, k, v, size);
    assert r.list == [item] + kept && r.evicted == Reverse(gone);
    assert l == kept + gone;
    assert multiset(r.list) == multiset{item} + multiset(kept);
    MoveOne(item, multiset(kept), multiset(gone));
  }

  /** Replacing a value never evicts, so the size can pass the limit until the next insertion. */
  lemma ReplaceMayExceed()
    ensures var lim := Limits(2, 10);
      var l := Put(lim, [], 1, 'a', 4).list;
      var r := Put(lim, l, 1, 'b', 99);
      TotalSize(r.list) > lim.maxSize && r.evicted == []
  {
    var lim := Limits(2, 10);
    var l := Put<int, char>(lim, [], 1, 'a', 4).list;
    assert l == [Item(1, 'a', 4)];
    assert Without(l, 1) == [] by { assert l[1..] == []; }
    var r := Put(lim, l, 1, 'b', 99);
    assert r.list == [Item(1, 'b', 99)];
    assert r.list[..0] == [];
  }
}
