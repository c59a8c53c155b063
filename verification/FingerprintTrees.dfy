/** Task fingerprints as digests of dependency trees: what equal fingerprints say about two projects. */
module FingerprintTrees {
  import opened Fingerprints

  /** A task with the trees of everything it depends on. */
  datatype DepTree = Tree(name: string, deps: seq<DepTree>)

  function TaskPrefix(base: string, name: string): string {
    "ts:" + base + ":" + name
  }

  function Hashed(hash: string -> string, base: string, t: DepTree): string
    decreases t, 1
  {
    Encode(TaskPrefix(base, t.name), Digests(hash, base, t.deps))
  }

  function Digest(hash: string -> string, base: string, t: DepTree): string
    decreases t, 2
  {
    hash(Hashed(hash, base, t))
  }

  function Digests(hash: string -> string, base: string, ts: seq<DepTree>): (r: seq<string>)
    ensures |r| == |ts|
    decreases ts, 0
  {
    if ts == [] then [] else [Digest(hash, base, ts[0])] + Digests(hash, base, ts[1..])
  }

  /** Equal up to the order in which dependencies are listed. */
  ghost predicate SameTree(a: DepTree, b: DepTree)
    decreases a, 1
  {
    a.name == b.name && SameForest(a.deps, b.deps)
  }

  ghost predicate SameForest(a: seq<DepTree>, b: seq<DepTree>)
    decreases a, 0
  {
    if a == [] then b == []
    else exists j :: 0 <= j < |b| && SameTree(a[0], b[j]) && SameForest(a[1..], b[..j] + b[j + 1..])
  }

  /** Every text that is hashed while the tree's fingerprint is computed. */
  ghost function Inputs(hash: string -> string, base: string, t: DepTree): set<string> {
    {Hashed(hash, base, t)} + set d, x | d in t.deps && x in Inputs(hash, base, d) :: x
  }

  ghost predicate InputsWithin(hash: string -> string, base: string, ts: seq<DepTree>, texts: set<string>) {
    forall t :: t in ts ==> Inputs(hash, base, t) <= texts
  }

  ghost predicate CollisionFree(hash: string -> string, texts: set<string>) {
    forall x, y :: x in texts && y in texts && hash(x) == hash(y) ==> x == y
  }

  // ---------------------------------------------------------------- lists of digests

  lemma {:induction false} DigestsConcat(hash: string -> string, base: string, a: seq<DepTree>, b: seq<DepTree>)
    ensures Digests(hash, base, a + b) == Digests(hash, base, a) + Digests(hash, base, b)
    decreases |a|
  {
    if a == [] {
      assert a + b == b;
    } else {
      DigestsConcat(hash, base, a[1..], b);
      assert (a + b)[0] == a[0] && (a + b)[1..] == a[1..] + b;
    }
  }

  lemma DigestsWithoutOne(hash: string -> string, base: string, ts: seq<DepTree>, j: nat)
    requires j < |ts|
    ensures Digests(hash, base, ts)[j] == Digest(hash, base, ts[j])
    ensures multiset(Digests(hash, base, ts)) ==
      multiset{Digest(hash, base, ts[j])} + multiset(Digests(hash, base, ts[..j] + ts[j + 1..]))
  {
    var pre, one, post := ts[..j], [ts[j]], ts[j + 1..];
    assert ts == pre + (one + post);
    DigestsConcat(hash, base, pre, one + post);
    DigestsConcat(hash, base, one, post);
    DigestsConcat(hash, base, pre, post);
    assert one[1..] == [];
    assert Digests(hash, base, one) == [Digest(hash, base, ts[j])];
  }

  lemma SamePrefix(b1: string, n1: string, b2: string, n2: string)
    requires |b1| == |b2|
    ensures TaskPrefix(b1, n1) == TaskPrefix(b2, n2) <==> b1 == b2 && n1 == n2
  {
    var p, q, k := TaskPrefix(b1, n1), TaskPrefix(b2, n2), 3 + |b1|;
    assert p[3..k] == b1 && p[k + 1..] == n1;
    assert q[3..k] == b2 && q[k + 1..] == n2;
  }

  // ---------------------------------------------------------------- the main result

  /** Listing dependencies in another order never changes a fingerprint. */
  lemma {:induction false} SameTreeSameDigest(hash: string -> string, base: string, a: DepTree, b: DepTree)
    requires SameTree(a, b)
    ensures Digest(hash, base, a) == Digest(hash, base, b)
    decreases a, 1
  {
    SameForestSameDigests(hash, base, a.deps, b.deps);
    EncodeIsUniquelyDecodable(TaskPrefix(base, a.name), Digests(hash, base, a.deps),
                              TaskPrefix(base, b.name), Digests(hash, base, b.deps));
  }

  /**
    With no hash collision among the texts hashed for two tasks, their fingerprints are equal exactly
    when the projects' base fingerprints and the tasks' transitive dependency trees are.
   */
  lemma {:induction false} FingerprintDeterminesTree(hash: string -> string, texts: set<string>,
                                                     b1: string, t1: DepTree, b2: string, t2: DepTree)
    requires |b1| == |b2| && CollisionFree(hash, texts)
    requires Inputs(hash, b1, t1) <= texts && Inputs(hash, b2, t2) <= texts
    ensures Digest(hash, b1, t1) == Digest(hash, b2, t2) <==> b1 == b2 && SameTree(t1, t2)
    decreases t1, 1
  {
    if Digest(hash, b1, t1) == Digest(hash, b2, t2) {
      assert Hashed(hash, b1, t1) == Hashed(hash, b2, t2);
      EncodeIsUniquelyDecodable(TaskPrefix(b1, t1.name), Digests(hash, b1, t1.deps),
                                TaskPrefix(b2, t2.name), Digests(hash, b2, t2.deps));
      SamePrefix(b1, t1.name, b2, t2.name);
      DigestsDetermineForest(hash, texts, b1, t1.deps, t2.deps);
    }
    if b1 == b2 && SameTree(t1, t2) {
      SameTreeSameDigest(hash, b1, t1, t2);
    }
  }

  lemma CancelOne<T>(x: T, a: multiset<T>, b: multiset<T>)
    requires multiset{x} + a == multiset{x} + b
    ensures a == b
  {
    assert a == (multiset{x} + a) - multiset{x};
    assert b == (multiset{x} + b) - multiset{x};
  }

  /** With equal multisets of digests, a's first tree has a partner in b, and the rest still match. */
  lemma Partner(hash: string -> string, base: string, a: seq<DepTree>, b: seq<DepTree>) returns (j: nat)
    requires a != [] && multiset(Digests(hash, base, a)) == multiset(Digests(hash, base, b))
    ensures j < |b| && Digest(hash, base, a[0]) == Digest(hash, base, b[j])
    ensures multiset(Digests(hash, base, a[1..])) == multiset(Digests(hash, base, b[..j] + b[j + 1..]))
  {
    var d, db := Digest(hash, base, a[0]), Digests(hash, base, b);
    assert Digests(hash, base, a)[0] == d;
    assert d in multiset(db);
    j :| 0 <= j < |db| && db[j] == d;
    DigestsWithoutOne(hash, base, a, 0);
    assert a[..0] + a[1..] == a[1..];
    DigestsWithoutOne(hash, base, b, j);
    CancelOne(d, multiset(Digests(hash, base, a[1..])), multiset(Digests(hash, base, b[..j] + b[j + 1..])));
  }

  lemma {:induction false} DigestsDetermineForest(hash: string -> string, texts: set<string>, base: string,
                                                  a: seq<DepTree>, b: seq<DepTree>)
    requires CollisionFree(hash, texts)
    requires InputsWithin(hash, base, a, texts) && InputsWithin(hash, base, b, texts)
    requires multiset(Digests(hash, base, a)) == multiset(Digests(hash, base, b))
    ensures SameForest(a, b)
    decreases a, 0
  {
    assert |a| == |multiset(Digests(hash, base, a))| == |multiset(Digests(hash, base, b))| == |b|;
    if a != [] {
      var j := Partner(hash, base, a, b);
      FingerprintDeterminesTree(hash, texts, base, a[0], base, b[j]);
      DigestsDetermineForest(hash, texts, base, a[1..], b[..j] + b[j + 1..]);
    }
  }

  lemma {:induction false} SameForestSameDigests(hash: string -> string, base: string, a: seq<DepTree>, b: seq<DepTree>)
    requires SameForest(a, b)
    ensures multiset(Digests(hash, base, a)) == multiset(Digests(hash, base, b))
    decreases a, 0
  {
    if a != [] {
      var j :| 0 <= j < |b| && SameTree(a[0], b[j]) && SameForest(a[1..], b[..j] + b[j + 1..]);
      SameTreeSameDigest(hash, base, a[0], b[j]);
      SameForestSameDigests(hash, base, a[1..], b[..j] + b[j + 1..]);
      assert a[..0] + a[1..] == a[1..];
      DigestsWithoutOne(hash, base, a, 0);
      DigestsWithoutOne(hash, base, b, j);
    }
  }
}
