/** The cache object itself: entry map, recency queue and byte counter, proved to act as one recency list. */
module LruCache {
  import opened Graphs
  import opened Lru
  import opened Options
  import opened LruSteps

  /** The first position of a key in the queue. */
  method Position<K(==)>(order: seq<K>, key: K) returns (pos: nat)
    requires key in order
    ensures pos < |order| && order[pos] == key && key !in order[..pos]
  {
    pos := 0;
    while order[pos] != key
      invariant pos < |order| && key !in order[..pos]
      decreases |order| - pos
    {
      assert order[..pos + 1] == order[..pos] + [order[pos]];
      assert order == order[..pos + 1] + order[pos + 1..];
      pos := pos + 1;
    }
  }

  class LruCache<K(==), V> {
    const lim: Limits
    var currentSize: int
    var entries: map<K, Entry<V>>
    var order: seq<K>

    constructor (capacity: nat, maxSize: nat)
      ensures Valid() && Contents() == [] && lim == Limits(capacity, maxSize)
    {
      lim := Limits(capacity, maxSize);
      currentSize, entries, order := 0, map[], [];
    }

    /** Queue and map hold the same keys, and the counter is the sum of the sizes. */
    ghost predicate Valid()
      reads this
    {
      Represents(lim, order, entries, currentSize)
    }

    ghost function Contents(): seq<Item<K, V>>
      requires Members(order) <= entries.Keys
      reads this
    {
      Items(order, entries)
    }

    method GetWithSize(key: K) returns (r: Option<Entry<V>>)
      requires Valid()
      modifies this`order
      ensures Valid() && Contents() == Touch(old(Contents()), key) && r == Find(old(Contents()), key)
    {
      if key !in entries {
        AbsentKey(order, entries, key);
        return None;
      }
      var pos := Position(order, key);
      TouchToFront(lim, order, entries, currentSize, pos);
      order := [key] + (order[..pos] + order[pos + 1..]);
      return Some(entries[key]);
    }

    /** One turn of the loop: pops the back of the queue and removes its entry. */
    method EvictOldest() returns (oldest: Item<K, V>)
      requires Valid() && order != []
      modifies this
      ensures Valid() && entries.Keys <= old(entries.Keys) && |entries| == |order| == |old(order)| - 1
      ensures Contents() == old(Contents())[..|order|] && oldest == old(Contents())[|order|]
    {
      var n := |order| - 1;
      var oldestKey := order[n];
      DropLast(lim, order, entries);
      assert order[n] in Members(order);
      var entry := entries[oldestKey];
      order := order[..n];
      entries := entries - {oldestKey};
      currentSize := currentSize - entry.size;
      SameCount(order, entries);
      return Item(oldestKey, entry.value, entry.size);
    }

    /** The eviction loop. */
    method MakeRoom(size: nat) returns (evicted: seq<Item<K, V>>)
      requires Valid()
      modifies this
      ensures Valid() && entries.Keys <= old(entries.Keys)
      ensures Contents() == Trim(lim, old(Contents()), size)
      ensures evicted == Reverse(old(Contents())[|Contents()|..])
    {
      evicted := [];
      ghost var l := Contents();
      NothingEvicted(lim, l, size);
      SameCount(order, entries);
      while (|entries| >= lim.capacity || currentSize + size > lim.maxSize) && order != []
        invariant Valid() && entries.Keys <= old(entries.Keys) && |entries| == |order|
        invariant Evicting(lim, l, size, Contents(), evicted)
        decreases |order|
      {
        EvictStep(lim, l, size, Contents(), evicted);
        var oldest := EvictOldest();
        evicted := evicted + [oldest];
      }
      EvictDone(lim, l, size, Contents(), evicted);
    }

    /** Replaces a value in place, or evicts from the least recent end until the new item fits and inserts it. */
    method PutWithEvictions(key: K, value: V, size: nat) returns (replaced: Option<V>, evicted: seq<Item<K, V>>)
      requires Valid()
      modifies this
      ensures Valid()
      ensures PutResult(Contents(), replaced, evicted) == Put(lim, old(Contents()), key, value, size)
    {
      if key in entries {
        var oldEntry := entries[key];
        var pos := Position(order, key);
        MoveToFront(lim, order, entries, pos, value, size);
        currentSize := currentSize - oldEntry.size;
        entries := entries[key := Entry(value, size)];
        currentSize := currentSize + size;
        order := [key] + (order[..pos] + order[pos + 1..]);
        return Some(oldEntry.value), [];
      }
      AbsentKey(order, entries, key);
      ghost var l := Contents();
      InsertIsBounded(lim, l, key, value, size);
      evicted := MakeRoom(size);
      ghost var kept := Trim(lim, l, size);
      InsertFront(order, entries, key, value, size);
      currentSize := currentSize + size;
      entries := entries[key := Entry(value, size)];
      order := [key] + order;
      return None, evicted;
    }

    method Remove(key: K) returns (r: Option<V>)
      requires Valid()
      modifies this
      ensures Valid() && Contents() == Without(old(Contents()), key)
      ensures r == match Find(old(Contents()), key) case Some(e) => Some(e.value) case None => None
    {
      if key !in entries {
        AbsentKey(order, entries, key);
        return None;
      }
      var entry := entries[key];
      var pos := Position(order, key);
      DropOne(lim, order, entries, pos);
      entries := entries - {key};
      currentSize := currentSize - entry.size;
      order := Retain(order, key);
      return Some(entry.value);
    }

    method Clear()
      requires Valid()
      modifies this
      ensures Valid() && Contents() == []
    {
      entries, order, currentSize := map[], [], 0;
    }
  }
}
