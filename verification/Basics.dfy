/** Bytes, and small facts about sequences, maps and numbers that several models need. */
module Basics {
  type byte = x: int | 0 <= x < 256
  type Bytes = seq<byte>

  /** How often x is listed. */
  function Occurs<T(==)>(s: seq<T>, x: T): nat {
    multiset(s)[x]
  }

  lemma OccursAppend<T>(s: seq<T>, y: T, x: T)
    ensures Occurs(s + [y], x) == Occurs(s, x) + if x == y then 1 else 0
  {
  }

  lemma ConcatAssoc<T>(a: seq<T>, b: seq<T>, c: seq<T>)
    ensures (a + b) + c == a + (b + c)
  {
  }

  /** The second map has all entries of the first. */
  ghost predicate Extends<K, V>(was: map<K, V>, now: map<K, V>) {
    forall k :: k in was ==> k in now && now[k] == was[k]
  }

  lemma ExtendsTrans<K, V>(a: map<K, V>, b: map<K, V>, c: map<K, V>)
    requires Extends(a, b) && Extends(b, c)
    ensures Extends(a, c)
  {
  }

  lemma MulGrows(x: nat, y: nat, n: nat)
    requires x >= y
    ensures x * n >= y * n
  {
    assert x * n == y * n + (x - y) * n;
  }
}
