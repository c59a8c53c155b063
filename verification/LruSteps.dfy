/** What the steps of the cache do to the recency list behind its queue and its map. */
module LruSteps {
  import opened Graphs
  import opened Lru
  import opened Options

  /** The items the queue and the map stand for. */
  function Items<K, V>(order: seq<K>, entries: map<K, Entry<V>>): (r: seq<Item<K, V>>)
    requires Members(order) <= entries.Keys
    ensures |r| == |order|
    ensures forall i :: 0 <= i < |r| ==> r[i] == Item(order[i], entries[order[i]].value, entries[order[i]].size)
  {
    assert forall i :: 0 <= i < |order| ==> order[i] in Members(order);
    seq(|order|, i requires 0 <= i < |order| => Item(order[i], entries[order[i]].value, entries[order[i]].size))
  }

  function Retain<K(==)>(order: seq<K>, key: K): seq<K> {
    if order == [] then []
    else if order[0] == key then Retain(order[1..], key)
    else [order[0]] + Retain(order[1..], key)
  }

  // ---------------------------------------------------------------- lists behind the queue and the map

  ghost predicate Agree<K, V>(order: seq<K>, entries: map<K, Entry<V>>) {
    NoDup(order) && Members(order) == entries.Keys
  }

  /** Queue and map hold the same keys, each once, within the bounds, and the counter is the sum of the sizes. */
  ghost predicate Represents<K, V>(lim: Limits, order: seq<K>, entries: map<K, Entry<V>>, currentSize: int) {
    Agree(order, entries) && WellFormed(lim, Items(order, entries)) && currentSize == TotalSize(Items(order, entries))
  }

  ghost predicate NoRoomAbove<K, V>(lim: Limits, l: seq<Item<K, V>>, n: nat, size: nat) {
    forall m {:trigger HasRoom(lim, l[..m], size)} :: n < m <= |l| ==> !HasRoom(lim, l[..m], size)
  }

  lemma NoRoomStep<K, V>(lim: Limits, l: seq<Item<K, V>>, n: nat, size: nat)
    requires 0 < n <= |l| && NoRoomAbove(lim, l, n, size) && !HasRoom(lim, l[..n], size)
    ensures NoRoomAbove(lim, l, n - 1, size)
  {
    forall m {:trigger HasRoom(lim, l[..m], size)} | n - 1 < m <= |l| ensures !HasRoom(lim, l[..m], size) {
      if m == n { assert l[..m] == l[..n]; }
    }
  }

  lemma TrimIs<K, V>(lim: Limits, l: seq<Item<K, V>>, n: nat, size: nat)
    requires n <= |l| && NoRoomAbove(lim, l, n, size) && (n == 0 || HasRoom(lim, l[..n], size))
    ensures Trim(lim, l, size) == l[..n]
  {
    TrimIsLongest(lim, l, size);
    var t := |Trim(lim, l, size)|;
    assert t <= n by { assert t == 0 || HasRoom(lim, l[..t], size); }
    assert n <= t by { assert n == 0 || HasRoom(lim, l[..n], size); }
  }

  /** The eviction loop: what is kept is a prefix, no longer one has room, and the rest is evicted. */
  ghost predicate Evicting<K, V>(lim: Limits, l: seq<Item<K, V>>, size: nat, kept: seq<Item<K, V>>,
                                 evicted: seq<Item<K, V>>)
  {
    kept <= l && NoRoomAbove(lim, l, |kept|, size) && evicted == Reverse(l[|kept|..])
  }

  lemma NothingEvicted<K, V>(lim: Limits, l: seq<Item<K, V>>, size: nat)
    ensures Evicting(lim, l, size, l, [])
  {
    assert l[|l|..] == [];
  }

  lemma PrefixOfPrefix<T>(s: seq<T>, n: nat)
    requires 0 < n <= |s|
    ensures s[..n][..n - 1] == s[..n - 1]
  {
  }

  lemma {:induction false} ReverseCons<T>(x: T, s: seq<T>)
    ensures Reverse([x] + s) == Reverse(s) + [x]
    decreases |s|
  {
    if s != [] {
      ReverseCons(x, s[..|s| - 1]);
      assert ([x] + s)[..|s|] == [x] + s[..|s| - 1];
    }
  }

  lemma ReverseGrows<T>(s: seq<T>, n: nat)
    requires n < |s|
    ensures Reverse(s[n..]) == Reverse(s[n + 1..]) + [s[n]]
  {
    ReverseCons(s[n], s[n + 1..]);
    assert s[n..] == [s[n]] + s[n + 1..];
  }

  lemma EvictStep<K, V>(lim: Limits, l: seq<Item<K, V>>, size: nat, kept: seq<Item<K, V>>, evicted: seq<Item<K, V>>)
    requires Evicting(lim, l, size, kept, evicted) && kept != [] && !HasRoom(lim, kept, size)
    ensures var n := |kept| - 1; Evicting(lim, l, size, kept[..n], evicted + [kept[n]])
  {
    var n := |kept| - 1;
    assert kept == l[..|kept|];
    NoRoomStep(lim, l, |kept|, size);
    ReverseGrows(l, n);
    PrefixOfPrefix(l, |kept|);
  }

  lemma EvictDone<K, V>(lim: Limits, l: seq<Item<K, V>>, size: nat, kept: seq<Item<K, V>>, evicted: seq<Item<K, V>>)
    requires Evicting(lim, l, size, kept, evicted) && (kept == [] || HasRoom(lim, kept, size))
    ensures kept == Trim(lim, l, size) && evicted == Reverse(l[|kept|..])
  {
    assert kept == l[..|kept|];
    TrimIs(lim, l, |kept|, size);
  }

  lemma SameCount<K, V>(order: seq<K>, entries: map<K, Entry<V>>)
    requires Agree(order, entries)
    ensures |order| == |entries|
  {
    NoDupSet(order);
  }

  lemma ItemsKeys<K, V>(order: seq<K>, entries: map<K, Entry<V>>)
    requires Members(order) <= entries.Keys
    ensures Keys(Items(order, entries)) == order
  {
  }

  lemma AbsentKey<K, V>(order: seq<K>, entries: map<K, Entry<V>>, key: K)
    requires Agree(order, entries) && key !in entries
    ensures var l := Items(order, entries);
      key !in Keys(l) && Find(l, key) == None && Without(l, key) == l && Touch(l, key) == l
  {
    ItemsKeys(order, entries);
    assert key !in Members(order);
    FindInKeys(Items(order, entries), key);
  }

  lemma ConsSplit<T>(s: seq<T>, pos: nat)
    requires 0 < pos < |s|
    ensures [s[0]] + (s[1..][..pos - 1] + s[1..][pos..]) == s[..pos] + s[pos + 1..]
  {
  }

  /** A list without one of its keys, when no key is there twice. */
  lemma {:induction false} SplitOut<K, V>(l: seq<Item<K, V>>, pos: nat)
    requires NoDup(Keys(l)) && pos < |l|
    ensures Without(l, l[pos].key) == l[..pos] + l[pos + 1..]
    ensures Find(l, l[pos].key) == Some(Entry(l[pos].value, l[pos].size))
    decreases pos
  {
    var key, rest := l[pos].key, l[1..];
    assert Keys(l) == [l[0].key] + Keys(rest);
    if pos == 0 {
      FindInKeys(rest, key);
      assert l[..0] + l[1..] == rest;
    } else {
      assert Keys(l)[pos] != Keys(l)[0];
      SplitOut(rest, pos - 1);
      ConsSplit(l, pos);
    }
  }

  lemma SizeSplit<K, V>(l: seq<Item<K, V>>, pos: nat)
    requires pos < |l|
    ensures TotalSize(l) == TotalSize(l[..pos] + l[pos + 1..]) + l[pos].size
  {
    assert l == l[..pos] + l[pos..] && l[pos..] == [l[pos]] + l[pos + 1..];
    SizeAppend(l[..pos], l[pos..]);
    SizeCons(l[pos], l[pos + 1..]);
    SizeAppend(l[..pos], l[pos + 1..]);
  }

  lemma OrderWithout<K>(order: seq<K>, pos: nat)
    requires NoDup(order) && pos < |order|
    ensures var rest := order[..pos] + order[pos + 1..];
      NoDup(rest) && Members(rest) == Members(order) - {order[pos]} && order[pos] in Members(order)
  {
    var rest := order[..pos] + order[pos + 1..];
    forall x ensures x in rest <==> x in order && x != order[pos] {
      if x in order && x != order[pos] {
        var i :| 0 <= i < |order| && order[i] == x;
        assert x == rest[if i < pos then i else i - 1];
      }
    }
  }

  lemma OrderToFront<K>(order: seq<K>, pos: nat)
    requires NoDup(order) && pos < |order|
    ensures var moved := [order[pos]] + (order[..pos] + order[pos + 1..]);
      NoDup(moved) && Members(moved) == Members(order)
  {
    var rest := order[..pos] + order[pos + 1..];
    OrderWithout(order, pos);
    assert order[pos] !in Members(rest);
    NoDupAppend([order[pos]], rest);
    assert Members([order[pos]] + rest) == {order[pos]} + Members(rest);
  }

  lemma MovedItems<K, V>(order: seq<K>, entries: map<K, Entry<V>>, pos: nat, value: V, size: nat)
    requires Agree(order, entries) && pos < |order|
    requires Agree([order[pos]] + (order[..pos] + order[pos + 1..]), entries[order[pos] := Entry(value, size)])
    ensures var l := Items(order, entries);
      Items([order[pos]] + (order[..pos] + order[pos + 1..]), entries[order[pos] := Entry(value, size)]) ==
      [Item(order[pos], value, size)] + (l[..pos] + l[pos + 1..])
  {
    var rest := order[..pos] + order[pos + 1..];
    OrderWithout(order, pos);
    forall i | 0 <= i < |rest| ensures rest[i] != order[pos] {
      assert rest[i] in Members(rest);
    }
  }

  /** Moving a key to the front and giving it an entry, as the list sees it. */
  lemma MoveToFront<K, V>(lim: Limits, order: seq<K>, entries: map<K, Entry<V>>, pos: nat, value: V, size: nat)
    requires Agree(order, entries) && pos < |order| && WellFormed(lim, Items(order, entries))
    ensures order[pos] in entries
    ensures Agree([order[pos]] + (order[..pos] + order[pos + 1..]), entries[order[pos] := Entry(value, size)])
    ensures Find(Items(order, entries), order[pos]) == Some(entries[order[pos]])
    ensures var moved :=
        Items([order[pos]] + (order[..pos] + order[pos + 1..]), entries[order[pos] := Entry(value, size)]);
      && moved == [Item(order[pos], value, size)] + Without(Items(order, entries), order[pos])
      && WellFormed(lim, moved)
      && TotalSize(moved) == TotalSize(Items(order, entries)) - entries[order[pos]].size + size
  {
    var key, l := order[pos], Items(order, entries);
    OrderToFront(order, pos);
    ItemsKeys(order, entries);
    SplitOut(l, pos);
    SizeSplit(l, pos);
    MovedItems(order, entries, pos, value, size);
    ReplaceIsBounded(lim, l, key, value, size);
    SizeCons(Item(key, value, size), l[..pos] + l[pos + 1..]);
  }

  /** A hit: only the queue changes. */
  lemma TouchToFront<K, V>(lim: Limits, order: seq<K>, entries: map<K, Entry<V>>, currentSize: int, pos: nat)
    requires Represents(lim, order, entries, currentSize) && pos < |order|
    ensures var key, moved := order[pos], [order[pos]] + (order[..pos] + order[pos + 1..]);
      key in entries && Find(Items(order, entries), key) == Some(entries[key]) &&
      Represents(lim, moved, entries, currentSize) && Items(moved, entries) == Touch(Items(order, entries), key)
  {
    var key := order[pos];
    assert key in Members(order);
    MoveToFront(lim, order, entries, pos, entries[key].value, entries[key].size);
    assert entries[key := Entry(entries[key].value, entries[key].size)] == entries;
  }

  lemma InsertFront<K, V>(order: seq<K>, entries: map<K, Entry<V>>, key: K, value: V, size: nat)
    requires Agree(order, entries) && key !in entries
    ensures var order', entries' := [key] + order, entries[key := Entry(value, size)];
      && Agree(order', entries')
      && Items(order', entries') == [Item(key, value, size)] + Items(order, entries)
      && TotalSize(Items(order', entries')) == TotalSize(Items(order, entries)) + size
  {
    var order', entries' := [key] + order, entries[key := Entry(value, size)];
    assert key !in Members(order);
    assert Members(order') == {key} + Members(order);
    NoDupAppend([key], order);
    SizeAppend([Item(key, value, size)], Items(order, entries));
    assert [Item(key, value, size)][..0] == [];
  }

  lemma DropLast<K, V>(lim: Limits, order: seq<K>, entries: map<K, Entry<V>>)
    requires Agree(order, entries) && order != [] && WellFormed(lim, Items(order, entries))
    ensures var n := |order| - 1;
      var order', entries' := order[..n], entries - {order[n]};
      && Agree(order', entries')
      && Items(order', entries') == Items(order, entries)[..n] && WellFormed(lim, Items(order', entries'))
  {
    var n := |order| - 1;
    assert order == order[..n] + [order[n]];
    assert Members(order) == Members(order[..n]) + {order[n]};
    PrefixWellFormed(lim, Items(order, entries), n);
  }

  lemma {:induction false} RetainAll<K>(order: seq<K>, key: K)
    requires key !in order
    ensures Retain(order, key) == order
    decreases |order|
  {
    if order != [] { RetainAll(order[1..], key); }
  }

  lemma {:induction false} RetainSplits<K>(order: seq<K>, pos: nat)
    requires NoDup(order) && pos < |order|
    ensures Retain(order, order[pos]) == order[..pos] + order[pos + 1..]
    decreases pos
  {
    var key, rest := order[pos], order[1..];
    if pos == 0 {
      RetainAll(rest, key);
    } else {
      RetainSplits(rest, pos - 1);
      assert [order[0]] + (rest[..pos - 1] + rest[pos..]) == order[..pos] + order[pos + 1..];
    }
  }

  lemma DroppedItems<K, V>(order: seq<K>, entries: map<K, Entry<V>>, pos: nat)
    requires Agree(order, entries) && pos < |order|
    requires Agree(order[..pos] + order[pos + 1..], entries - {order[pos]})
    ensures var l := Items(order, entries);
      Items(order[..pos] + order[pos + 1..], entries - {order[pos]}) == l[..pos] + l[pos + 1..]
  {
  }

  /** Dropping a key from the queue and the map, as the list sees it. */
  lemma DropOne<K, V>(lim: Limits, order: seq<K>, entries: map<K, Entry<V>>, pos: nat)
    requires Agree(order, entries) && pos < |order| && WellFormed(lim, Items(order, entries))
    ensures order[pos] in entries
    ensures Agree(Retain(order, order[pos]), entries - {order[pos]})
    ensures Find(Items(order, entries), order[pos]) == Some(entries[order[pos]])
    ensures var dropped := Items(Retain(order, order[pos]), entries - {order[pos]});
      && dropped == Without(Items(order, entries), order[pos])
      && WellFormed(lim, dropped)
      && TotalSize(dropped) == TotalSize(Items(order, entries)) - entries[order[pos]].size
  {
    var key, l := order[pos], Items(order, entries);
    OrderWithout(order, pos);
    RetainSplits(order, pos);
    ItemsKeys(order, entries);
    SplitOut(l, pos);
    SizeSplit(l, pos);
    DroppedItems(order, entries, pos);
    WithoutKeys(l, key);
  }
}
