/** The tiered cache object: three least-recently-used caches, proved to act as the tiers of recency lists. */
module TieredCache {
  import opened Lru
  import opened Tiers
  import LC = LruCache
  import opened Options

  /** The demotion loop: puts the items in order and collects what that evicts. */
  method PutEach<K(==), V>(cache: LC.LruCache<K, V>, items: seq<Item<K, V>>) returns (evicted: seq<Item<K, V>>)
    requires cache.Valid()
    modifies cache
    ensures cache.Valid()
    ensures PutAllResult(cache.Contents(), evicted) == PutAll(cache.lim, old(cache.Contents()), items)
  {
    evicted := [];
    ghost var l := cache.Contents();
    PuttingStart(cache.lim, l, items);
    for i := 0 to |items|
      invariant cache.Valid() && Putting(cache.lim, l, items, i, cache.Contents(), evicted)
    {
      PuttingNext(cache.lim, l, items, i, cache.Contents(), evicted);
      var _, more := cache.PutWithEvictions(items[i].key, items[i].value, items[i].size);
      evicted := evicted + more;
    }
    PuttingDone(cache.lim, l, items, cache.Contents(), evicted);
  }

  class TieredCache<K(==), V> {
    const l1: LC.LruCache<K, V>
    const l2: LC.LruCache<K, V>
    const l3: LC.LruCache<K, V>

    constructor ()
      ensures Valid() && fresh(l1) && fresh(l2) && fresh(l3) && View() == Tiers([], [], [])
      ensures l1.lim == Limits(100, 1048576) && l2.lim == Limits(1000, 104857600)
      ensures l3.lim == Limits(10000, 10737418240)
    {
      l1 := new LC.LruCache<K, V>(100, 1024 * 1024);
      l2 := new LC.LruCache<K, V>(1000, 100 * 1024 * 1024);
      l3 := new LC.LruCache<K, V>(10000, 10 * 1024 * 1024 * 1024);
    }

    ghost predicate Valid()
      reads this, l1, l2, l3
    {
      && l1 != l2 && l1 != l3 && l2 != l3
      && l1.Valid() && l2.Valid() && l3.Valid()
      && TierLimits(l1.lim, l2.lim, l3.lim) == DEFAULT_LIMITS
    }

    ghost function View(): Tiers<K, V>
      requires Valid()
      reads this, l1, l2, l3
    {
      Tiers(l1.Contents(), l2.Contents(), l3.Contents())
    }

    /** Reads a key: a hit below the first tier is copied up, and evictions move down. */
    method Get(key: K) returns (r: Option<V>)
      requires Valid()
      modifies l1, l2, l3
      ensures Valid() && GetResult(View(), r) == TierGet(DEFAULT_LIMITS, old(View()), key, false)
    {
      var hit1 := l1.GetWithSize(key);
      if hit1.Some? {
        return Some(hit1.value.value);
      }
      var hit2 := l2.GetWithSize(key);
      if hit2.Some? {
        var _, evicted := l1.PutWithEvictions(key, hit2.value.value, hit2.value.size);
        var dropped := PutEach(l2, evicted);
        return Some(hit2.value.value);
      }
      var hit3 := l3.GetWithSize(key);
      if hit3.Some? {
        var _, evicted := l2.PutWithEvictions(key, hit3.value.value, hit3.value.size);
        var dropped := PutEach(l3, evicted);
        return Some(hit3.value.value);
      }
      return None;
    }

    /** Writes to the first tier; what it evicts goes to the second, what that evicts to the third. */
    method Put(key: K, value: V, size: nat)
      requires Valid()
      modifies l1, l2, l3
      ensures Valid() && View() == TierPut(DEFAULT_LIMITS, old(View()), key, value, size)
    {
      var _, evicted := l1.PutWithEvictions(key, value, size);
      if evicted == [] {
        return;
      }
      var l3Evictions := PutEach(l2, evicted);
      if l3Evictions != [] {
        var fallen := PutEach(l3, l3Evictions);
      }
    }

    method Invalidate(key: K)
      requires Valid()
      modifies l1, l2, l3
      ensures Valid() &&
        View() == var t := old(View()); Tiers(Without(t.l1, key), Without(t.l2, key), Without(t.l3, key))
    {
      var _ := l1.Remove(key);
      var _ := l2.Remove(key);
      var _ := l3.Remove(key);
    }

    method Clear()
      requires Valid()
      modifies l1, l2, l3
      ensures Valid() && View() == Tiers([], [], [])
    {
      l1.Clear();
      l2.Clear();
      l3.Clear();
    }
  }
}
