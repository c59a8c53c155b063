/** Runs of the three-tier cache: when every read is up to date, and a run in which one is not. */
module TierRuns {
  import opened Lru
  import opened Tiers
  import opened Options

  datatype Op<K, V> = Read(key: K) | Write(key: K, value: V, size: nat) | Invalidate(key: K) | Clear

  function Step<K(==), V>(lims: TierLimits, t: Tiers<K, V>, op: Op<K, V>, demote: bool): Tiers<K, V> {
    match op
    case Read(k) => TierGet(lims, t, k, demote).tiers
    case Write(k, v, size) => TierPut(lims, t, k, v, size)
    case Invalidate(k) => Tiers(Without(t.l1, k), Without(t.l2, k), Without(t.l3, k))
    case Clear => Tiers([], [], [])
  }

  function Run<K(==), V>(lims: TierLimits, ops: seq<Op<K, V>>, demote: bool): Tiers<K, V> {
    if ops == [] then Tiers([], [], [])
    else Step(lims, Run(lims, ops[..|ops| - 1], demote), ops[|ops| - 1], demote)
  }

  /** The value last written under the key, unless it was invalidated or everything cleared since. */
  function Current<K(==), V>(ops: seq<Op<K, V>>, k: K): Option<V> {
    if ops == [] then None
    else
      var before, op := ops[..|ops| - 1], ops[|ops| - 1];
      if op.Clear? then None
      else if op.key != k || op.Read? then Current(before, k)
      else if op.Write? then Some(op.value) else None
  }

  /** Reading any key gives nothing or its current value. */
  ghost predicate Coherent<K(!new), V>(ops: seq<Op<K, V>>, t: Tiers<K, V>) {
    forall x :: See(t, x).None? || See(t, x) == Current(ops, x)
  }

  lemma StepSees<K, V>(lims: TierLimits, before: seq<Op<K, V>>, op: Op<K, V>, t: Tiers<K, V>, demote: bool, x: K)
    requires See(t, x).None? || See(t, x) == Current(before, x)
    requires !demote && op.Read? ==> NoOldCopyBelow(lims, t, op.key, x)
    ensures var seen := See(Step(lims, t, op, demote), x);
      seen.None? || seen == Current(before + [op], x)
  {
    assert (before + [op])[..|before|] == before;
    match op {
      case Read(k) =>
        if demote { DemotingGetSees(lims, t, k, x); } else { WrittenGetSeesIff(lims, t, k, x); }
      case Write(k, v, size) => PutSees(lims, t, k, v, size, x);
      case Invalidate(k) =>
        LookWithout(t.l1, k, x);
        LookWithout(t.l2, k, x);
        LookWithout(t.l3, k, x);
      case Clear =>
    }
  }

  /** With second-tier evictions demoted on promotion, no run from the empty cache ever serves an outdated value. */
  lemma {:induction false} DemotingRunsAreCoherent<K(!new), V>(lims: TierLimits, ops: seq<Op<K, V>>)
    ensures Coherent(ops, Run(lims, ops, true))
    decreases |ops|
  {
    if ops != [] {
      var before, op := ops[..|ops| - 1], ops[|ops| - 1];
      DemotingRunsAreCoherent(lims, before);
      assert ops == before + [op];
      forall x ensures See(Run(lims, ops, true), x).None? || See(Run(lims, ops, true), x) == Current(ops, x) {
        StepSees(lims, before, op, Run(lims, before, true), true, x);
      }
    }
  }

  /** No read of the run pushes out a key of which the third tier holds another value. */
  ghost predicate NeverUncoversOldCopy<K(!new), V>(lims: TierLimits, ops: seq<Op<K, V>>) {
    forall i, x :: 0 <= i < |ops| && ops[i].Read? ==>
      NoOldCopyBelow(lims, Run(lims, ops[..i], false), ops[i].key, x)
  }

  /** As written, the cache is coherent along every run that never uncovers an old copy. */
  lemma {:induction false} WrittenRunsAreCoherent<K(!new), V>(lims: TierLimits, ops: seq<Op<K, V>>)
    requires NeverUncoversOldCopy(lims, ops)
    ensures Coherent(ops, Run(lims, ops, false))
    decreases |ops|
  {
    if ops != [] {
      var n := |ops| - 1;
      var before, op := ops[..n], ops[n];
      forall i, x | 0 <= i < n && before[i].Read?
        ensures NoOldCopyBelow(lims, Run(lims, before[..i], false), before[i].key, x)
      {
        assert before[..i] == ops[..i];
      }
      WrittenRunsAreCoherent(lims, before);
      assert ops == before + [op];
      forall x ensures See(Run(lims, ops, false), x).None? || See(Run(lims, ops, false), x) == Current(ops, x) {
        StepSees(lims, before, op, Run(lims, before, false), false, x);
      }
    }
  }

  /** The first read that uncovers an old copy makes the cache serve it: the condition is exact. */
  lemma UncoveringReadIsIncoherent<K(!new), V>(lims: TierLimits, ops: seq<Op<K, V>>, k: K, x: K)
    requires NeverUncoversOldCopy(lims, ops)
    requires !NoOldCopyBelow(lims, Run(lims, ops, false), k, x)
    ensures !Coherent(ops + [Read(k)], Run(lims, ops + [Read(k)], false))
  {
    var t := Run(lims, ops, false);
    WrittenRunsAreCoherent(lims, ops);
    WrittenGetSeesIff(lims, t, k, x);
    assert (ops + [Read(k)])[..|ops|] == ops;
    assert HidesOldCopy(t, x) && See(t, x) == Current(ops, x);
  }

  lemma ExtendNeverUncovers<K(!new), V>(lims: TierLimits, before: seq<Op<K, V>>, op: Op<K, V>)
    requires NeverUncoversOldCopy(lims, before)
    requires op.Read? ==> forall x :: NoOldCopyBelow(lims, Run(lims, before, false), op.key, x)
    ensures NeverUncoversOldCopy(lims, before + [op])
  {
    var now := before + [op];
    forall i, x | 0 <= i < |now| && now[i].Read?
      ensures NoOldCopyBelow(lims, Run(lims, now[..i], false), now[i].key, x)
    {
      if i < |before| {
        assert now[..i] == before[..i];
      } else {
        assert now[..i] == before;
      }
    }
  }

  lemma {:induction false} CoherentNeverUncovers<K(!new), V>(lims: TierLimits, ops: seq<Op<K, V>>, n: nat)
    requires n <= |ops| && forall m :: 0 <= m <= |ops| ==> Coherent(ops[..m], Run(lims, ops[..m], false))
    ensures NeverUncoversOldCopy(lims, ops[..n])
    decreases n
  {
    if n > 0 {
      var before, op := ops[..n - 1], ops[n - 1];
      assert ops[..n] == before + [op];
      CoherentNeverUncovers(lims, ops, n - 1);
      if op.Read? {
        forall x ensures NoOldCopyBelow(lims, Run(lims, before, false), op.key, x) {
          if !NoOldCopyBelow(lims, Run(lims, before, false), op.key, x) {
            UncoveringReadIsIncoherent(lims, before, op.key, x);
          }
        }
      }
      ExtendNeverUncovers(lims, before, op);
    }
  }

  /** As written, the cache is coherent all along a run exactly when no read of the run uncovers an old copy. */
  lemma {:induction false} WrittenRunsAreCoherentIff<K(!new), V>(lims: TierLimits, ops: seq<Op<K, V>>)
    ensures (forall n :: 0 <= n <= |ops| ==> Coherent(ops[..n], Run(lims, ops[..n], false))) <==>
      NeverUncoversOldCopy(lims, ops)
  {
    if NeverUncoversOldCopy(lims, ops) {
      forall n | 0 <= n <= |ops| ensures Coherent(ops[..n], Run(lims, ops[..n], false)) {
        forall i, x | 0 <= i < n && ops[..n][i].Read?
          ensures NoOldCopyBelow(lims, Run(lims, ops[..n][..i], false), ops[..n][i].key, x)
        {
          assert ops[..n][..i] == ops[..i];
        }
        WrittenRunsAreCoherent(lims, ops[..n]);
      }
    }
    if forall n :: 0 <= n <= |ops| ==> Coherent(ops[..n], Run(lims, ops[..n], false)) {
      CoherentNeverUncovers(lims, ops, |ops|);
      assert ops[..|ops|] == ops;
    }
  }

  // ---------------------------------------------------------------- runs that never change a value

  ghost predicate WriteAgrees<K, V>(before: seq<Op<K, V>>, op: Op<K, V>) {
    op.Write? ==> Current(before, op.key).None? || Current(before, op.key) == Some(op.value)
  }

  /** A key is only written again with the value it has, unless it was invalidated in between. */
  ghost predicate WritesAgree<K, V>(ops: seq<Op<K, V>>) {
    forall i {:trigger ops[i]} :: 0 <= i < |ops| ==> WriteAgrees(ops[..i], ops[i])
  }

  /** Every item of the list has its key's value. */
  ghost predicate Carries<K, V>(l: seq<Item<K, V>>, f: K -> Option<V>) {
    forall i :: 0 <= i < |l| ==> f(l[i].key) == Some(l[i].value)
  }

  ghost predicate TiersCarry<K, V>(t: Tiers<K, V>, f: K -> Option<V>) {
    Carries(t.l1, f) && Carries(t.l2, f) && Carries(t.l3, f)
  }

  lemma {:induction false} FoundIsCarried<K, V>(l: seq<Item<K, V>>, f: K -> Option<V>, k: K)
    requires Carries(l, f)
    ensures Look(l, k).Some? ==> Look(l, k) == f(k)
    decreases |l|
  {
    if l != [] && l[0].key != k { FoundIsCarried(l[1..], f, k); }
  }

  lemma {:induction false} WithoutCarries<K, V>(l: seq<Item<K, V>>, f: K -> Option<V>, k: K)
    requires Carries(l, f)
    ensures Carries(Without(l, k), f) && forall i :: 0 <= i < |Without(l, k)| ==> Without(l, k)[i].key != k
    decreases |l|
  {
    if l != [] { WithoutCarries(l[1..], f, k); }
  }

  lemma TouchCarries<K, V>(l: seq<Item<K, V>>, f: K -> Option<V>, k: K)
    requires Carries(l, f)
    ensures Carries(Touch(l, k), f)
  {
    WithoutCarries(l, f, k);
    FoundIsCarried(l, f, k);
  }

  lemma {:induction false} ReverseCarries<K, V>(l: seq<Item<K, V>>, f: K -> Option<V>)
    requires Carries(l, f)
    ensures Carries(Reverse(l), f)
    decreases |l|
  {
    if l != [] { ReverseCarries(l[..|l| - 1], f); }
  }

  lemma PutCarries<K, V>(lim: Limits, l: seq<Item<K, V>>, k: K, v: V, size: nat, f: K -> Option<V>)
    requires Carries(l, f) && f(k) == Some(v)
    ensures var r := Put(lim, l, k, v, size); Carries(r.list, f) && Carries(r.evicted, f)
  {
    WithoutCarries(l, f, k);
    ReverseCarries(l[|Trim(lim, l, size)|..], f);
  }

  lemma {:induction false} PutAllCarries<K, V>(lim: Limits, l: seq<Item<K, V>>, items: seq<Item<K, V>>,
                                               f: K -> Option<V>)
    requires Carries(l, f) && Carries(items, f)
    ensures var r := PutAll(lim, l, items); Carries(r.list, f) && Carries(r.evicted, f)
    decreases |items|
  {
    if items != [] {
      PutCarries(lim, l, items[0].key, items[0].value, items[0].size, f);
      PutAllCarries(lim, Put(lim, l, items[0].key, items[0].value, items[0].size).list, items[1..], f);
    }
  }

  lemma GetCarries<K, V>(lims: TierLimits, t: Tiers<K, V>, k: K, demote: bool, f: K -> Option<V>)
    requires TiersCarry(t, f)
    ensures TiersCarry(TierGet(lims, t, k, demote).tiers, f)
  {
    TouchCarries(t.l1, f, k);
    TouchCarries(t.l2, f, k);
    TouchCarries(t.l3, f, k);
    FoundIsCarried(t.l2, f, k);
    FoundIsCarried(t.l3, f, k);
    if Find(t.l1, k).None? && Find(t.l2, k).Some? {
      var e := Find(t.l2, k).value;
      PutCarries(lims.l1, t.l1, k, e.value, e.size, f);
      var r1 := Put(lims.l1, t.l1, k, e.value, e.size);
      PutAllCarries(lims.l2, Touch(t.l2, k), r1.evicted, f);
      PutAllCarries(lims.l3, t.l3, PutAll(lims.l2, Touch(t.l2, k), r1.evicted).evicted, f);
    } else if Find(t.l1, k).None? && Find(t.l3, k).Some? {
      var e := Find(t.l3, k).value;
      PutCarries(lims.l2, t.l2, k, e.value, e.size, f);
      PutAllCarries(lims.l3, Touch(t.l3, k), Put(lims.l2, t.l2, k, e.value, e.size).evicted, f);
    }
  }

  lemma WriteCarries<K, V>(lims: TierLimits, t: Tiers<K, V>, k: K, v: V, size: nat, f: K -> Option<V>)
    requires TiersCarry(t, f) && f(k) == Some(v)
    ensures TiersCarry(TierPut(lims, t, k, v, size), f)
  {
    PutCarries(lims.l1, t.l1, k, v, size, f);
    var r1 := Put(lims.l1, t.l1, k, v, size);
    PutAllCarries(lims.l2, t.l2, r1.evicted, f);
    PutAllCarries(lims.l3, t.l3, PutAll(lims.l2, t.l2, r1.evicted).evicted, f);
  }

  lemma StepCarries<K, V>(lims: TierLimits, before: seq<Op<K, V>>, op: Op<K, V>, t: Tiers<K, V>, demote: bool)
    requires TiersCarry(t, x => Current(before, x)) && WriteAgrees(before, op)
    ensures TiersCarry(Step(lims, t, op, demote), x => Current(before + [op], x))
  {
    var f, f' := x => Current(before, x), x => Current(before + [op], x);
    assert (before + [op])[..|before|] == before;
    match op {
      case Read(k) =>
        assert TiersCarry(t, f') by { assert forall x :: f(x) == f'(x); }
        GetCarries(lims, t, k, demote, f');
      case Write(k, v, size) =>
        assert TiersCarry(t, f');
        WriteCarries(lims, t, k, v, size, f');
      case Invalidate(k) =>
        WithoutCarries(t.l1, f, k);
        WithoutCarries(t.l2, f, k);
        WithoutCarries(t.l3, f, k);
      case Clear =>
    }
  }

  lemma {:induction false} AgreeingRunCarries<K, V>(lims: TierLimits, ops: seq<Op<K, V>>, demote: bool)
    requires WritesAgree(ops)
    ensures TiersCarry(Run(lims, ops, demote), x => Current(ops, x))
    decreases |ops|
  {
    if ops != [] {
      var n := |ops| - 1;
      var before, op := ops[..n], ops[n];
      forall i | 0 <= i < n ensures WriteAgrees(before[..i], before[i]) {
        assert before[..i] == ops[..i] && before[i] == ops[i];
      }
      AgreeingRunCarries(lims, before, demote);
      assert ops == before + [op];
      StepCarries(lims, before, op, Run(lims, before, demote), demote);
    }
  }

  /** As written, the cache is coherent on every run whose writes never change a value: no state has to be known. */
  lemma AgreeingRunsAreCoherent<K(!new), V>(lims: TierLimits, ops: seq<Op<K, V>>)
    requires WritesAgree(ops)
    ensures Coherent(ops, Run(lims, ops, false))
  {
    AgreeingRunCarries(lims, ops, false);
    var t, f := Run(lims, ops, false), (x: K) => Current(ops, x);
    forall x ensures See(t, x).None? || See(t, x) == Current(ops, x) {
      FoundIsCarried(t.l1, f, x);
      FoundIsCarried(t.l2, f, x);
      FoundIsCarried(t.l3, f, x);
    }
  }

  // ---------------------------------------------------------------- a run that serves an outdated value

  lemma RunAppend(lims: TierLimits, before: seq<Op<int, char>>, op: Op<int, char>, demote: bool)
    ensures Run(lims, before + [op], demote) == Step(lims, Run(lims, before, demote), op, demote)
    ensures Current(before + [op], 1) == if op.Clear? then None else if op.key != 1 || op.Read? then Current(before, 1)
                                         else if op.Write? then Some(op.value) else None
  {
    assert (before + [op])[..|before|] == before;
  }

  lemma SizeOne(a: Item<int, char>)
    ensures TotalSize([a]) == a.size && Reverse([a]) == [a]
  {
    assert [a][..0] == [];
  }

  lemma SizeTwo(a: Item<int, char>, b: Item<int, char>)
    ensures TotalSize([a, b]) == a.size + b.size && Reverse([a, b]) == [b, a]
  {
    assert [a, b][..1] == [a];
    SizeOne(a);
  }

  /** Two small items or one big one: a put that does not fit empties the tier. */
  lemma PutEvictsOne(lim: Limits, a: Item<int, char>, x: Item<int, char>)
    requires a.key != x.key && a.size + x.size > lim.maxSize
    ensures Put(lim, [a], x.key, x.value, x.size) == PutResult([x], None, [a])
  {
    SizeOne(a);
    assert [a][..0] == [] && [a][1..] == [] && [a][0..] == [a];
    assert Find([a][1..], x.key) == None;
    assert Trim(lim, [a], x.size) == [];
    assert [x] + [] == [x];
  }

  lemma PutEvictsTwo(lim: Limits, a: Item<int, char>, b: Item<int, char>, x: Item<int, char>)
    requires a.key != x.key && b.key != x.key && a.size + x.size > lim.maxSize
    ensures Put(lim, [a, b], x.key, x.value, x.size) == PutResult([x], None, [b, a])
  {
    SizeOne(a);
    SizeTwo(a, b);
    var l := [a, b];
    assert Find([b][1..], x.key) == None && Find(l[1..], x.key) == None;
    assert [x] + [] == [x];
    assert l[..1] == [a] && [a][..0] == [] && l[1..] == [b] && [b][1..] == [];
    assert Trim(lim, [a], x.size) == [];
    assert Trim(lim, l, x.size) == Trim(lim, l[..1], x.size);
    assert l[0..] == l;
  }

  lemma PutFits(lim: Limits, l: seq<Item<int, char>>, x: Item<int, char>)
    requires Find(l, x.key).None? && HasRoom(lim, l, x.size)
    ensures Put(lim, l, x.key, x.value, x.size) == PutResult([x] + l, None, [])
  {
    assert l[|l|..] == [];
  }

  lemma PutAllOne(lim: Limits, l: seq<Item<int, char>>, x: Item<int, char>)
    ensures var r := Put(lim, l, x.key, x.value, x.size);
      PutAll(lim, l, [x]) == PutAllResult(r.list, r.evicted)
  {
    assert [x][1..] == [];
    var r := Put(lim, l, x.key, x.value, x.size);
    assert PutAll(lim, r.list, [x][1..]) == PutAllResult(r.list, []);
    assert r.evicted + [] == r.evicted;
  }

  lemma SecondWrite(lims: TierLimits, o: Item<int, char>, n: Item<int, char>, a: Item<int, char>, b: Item<int, char>)
    requires lims == DEFAULT_LIMITS && o == Item(1, 'o', 1) && n == Item(1, 'n', 1)
    requires a == Item(2, 'a', 104857600) && b == Item(3, 'b', 104857600)
    ensures TierPut(lims, Tiers([b], [a], [o]), 1, 'n', 1) == Tiers([n], [b], [a, o])
  {
    PutEvictsOne(lims.l1, b, n);
    PutAllOne(lims.l2, [a], b);
    PutEvictsOne(lims.l2, a, b);
    PutAllOne(lims.l3, [o], a);
    SizeOne(o);
    assert [o][1..] == [] && Find([o][1..], 2) == None;
    PutFits(lims.l3, [o], a);
  }

  lemma PushBothDown(lims: TierLimits, o: Item<int, char>, n: Item<int, char>, y: Item<int, char>,
                     a: Item<int, char>, b: Item<int, char>, c: Item<int, char>) returns (t: Tiers<int, char>)
    requires lims == DEFAULT_LIMITS && o == Item(1, 'o', 1) && n == Item(1, 'n', 1) && y == Item(4, 'y', 1)
    requires a == Item(2, 'a', 104857600) && b == Item(3, 'b', 104857600) && c == Item(5, 'c', 104857600)
    ensures t == Tiers([c], [y, n], [b, a, o])
    ensures TierPut(lims, Tiers([y, n], [b], [a, o]), 5, 'c', 104857600) == t
  {
    t := Tiers([c], [y, n], [b, a, o]);
    PutEvictsTwo(lims.l1, y, n, c);
    PutEvictsOne(lims.l2, b, n);
    SizeOne(n);
    assert [n][1..] == [] && Find([n][1..], 4) == None;
    PutFits(lims.l2, [n], y);
    PutAllOne(lims.l2, [n], y);
    assert [n, y][1..] == [y];
    assert PutAll(lims.l2, [b], [n, y]) == PutAllResult([y, n], [b] + []);
    PutAllOne(lims.l3, [a, o], b);
    SizeTwo(a, o);
    assert [a, o][1..] == [o] && [o][1..] == [] && Find([o][1..], 3) == None && Find([a, o][1..], 3) == None;
    PutFits(lims.l3, [a, o], b);
  }

  lemma ReadUncovers(lims: TierLimits, t: Tiers<int, char>, o: Item<int, char>, n: Item<int, char>, y: Item<int, char>,
                     a: Item<int, char>, b: Item<int, char>, c: Item<int, char>)
    requires lims == DEFAULT_LIMITS && o == Item(1, 'o', 1) && n == Item(1, 'n', 1) && y == Item(4, 'y', 1)
    requires a == Item(2, 'a', 104857600) && b == Item(3, 'b', 104857600) && c == Item(5, 'c', 104857600)
    requires t == Tiers([c], [y, n], [b, a, o])
    ensures See(TierGet(lims, t, 4, false).tiers, 1) == Some('o')
  {
    assert [c][1..] == [] && Find([c][1..], 4) == None;
    assert [y, n][1..] == [n] && [n][1..] == [] && Without([n][1..], 4) == [];
    assert Without([n], 4) == [n];
    assert Touch(t.l2, 4) == [y, n];
    PutEvictsOne(lims.l1, c, y);
    PutAllOne(lims.l2, [y, n], c);
    PutEvictsTwo(lims.l2, y, n, c);
    var after := TierGet(lims, t, 4, false).tiers;
    assert after == Tiers([y], [c], t.l3);
    assert [y][1..] == [] && Find([y][1..], 1) == None && Find([c][1..], 1) == None;
    var l3 := t.l3;
    assert l3[1..] == [a, o] && l3[1..][1..] == [o];
    assert Find(l3[1..][1..], 1) == Some(Entry('o', 1));
    assert Find(l3[1..], 1) == Some(Entry('o', 1));
  }

  /** Key 1 is written and two big writes push it down to the third tier. */
  lemma FirstWrites(o: Item<int, char>, a: Item<int, char>, b: Item<int, char>) returns (ops: seq<Op<int, char>>)
    requires o == Item(1, 'o', 1) && a == Item(2, 'a', 104857600) && b == Item(3, 'b', 104857600)
    ensures Run(DEFAULT_LIMITS, ops, false) == Tiers([b], [a], [o])
  {
    var lims, big := DEFAULT_LIMITS, 104857600;
    var ops1 := [] + [Write(1, 'o', 1)];
    RunAppend(lims, [], Write(1, 'o', 1), false);
    PutFits(lims.l1, [], o);
    assert Run(lims, ops1, false) == Tiers([o], [], []);

    var ops2 := ops1 + [Write(2, 'a', big)];
    RunAppend(lims, ops1, Write(2, 'a', big), false);
    PutEvictsOne(lims.l1, o, a);
    PutAllOne(lims.l2, [], o);
    PutFits(lims.l2, [], o);
    assert Run(lims, ops2, false) == Tiers([a], [o], []);

    ops := ops2 + [Write(3, 'b', big)];
    RunAppend(lims, ops2, Write(3, 'b', big), false);
    PutEvictsOne(lims.l1, a, b);
    PutAllOne(lims.l2, [o], a);
    PutEvictsOne(lims.l2, o, a);
    PutAllOne(lims.l3, [], o);
    PutFits(lims.l3, [], o);
  }

  lemma AfterWrite(before: seq<Op<int, char>>, t: Tiers<int, char>, x: Item<int, char>, t': Tiers<int, char>)
    returns (ops: seq<Op<int, char>>)
    requires Run(DEFAULT_LIMITS, before, false) == t && TierPut(DEFAULT_LIMITS, t, x.key, x.value, x.size) == t'
    ensures Run(DEFAULT_LIMITS, ops, false) == t'
    ensures Current(ops, 1) == if x.key == 1 then Some(x.value) else Current(before, 1)
  {
    ops := before + [Write(x.key, x.value, x.size)];
    RunAppend(DEFAULT_LIMITS, before, Write(x.key, x.value, x.size), false);
  }

  lemma AfterRead(before: seq<Op<int, char>>, t: Tiers<int, char>, k: int)
    requires Run(DEFAULT_LIMITS, before, false) == t && Current(before, 1) == Some('n')
    requires See(TierGet(DEFAULT_LIMITS, t, k, false).tiers, 1) == Some('o')
    ensures exists ops: seq<Op<int, char>> ::
      See(Run(DEFAULT_LIMITS, ops, false), 1) == Some('o') && Current(ops, 1) == Some('n')
  {
    RunAppend(DEFAULT_LIMITS, before, Read(k), false);
    assert See(Run(DEFAULT_LIMITS, before + [Read(k)], false), 1) == Some('o');
  }

  lemma ThirdWrite(lims: TierLimits, o: Item<int, char>, n: Item<int, char>, y: Item<int, char>,
                   a: Item<int, char>, b: Item<int, char>)
    requires lims == DEFAULT_LIMITS && n == Item(1, 'n', 1) && y == Item(4, 'y', 1)
    ensures TierPut(lims, Tiers([n], [b], [a, o]), 4, 'y', 1) == Tiers([y, n], [b], [a, o])
  {
    SizeOne(n);
    assert [n][1..] == [] && Find([n][1..], 4) == None;
    PutFits(lims.l1, [n], y);
  }

  /**
    With the real limits: key 1 is written, pushed down to the third tier, written again and pushed to the second.
    Reading key 4 there drops the new value, and the next read of key 1 finds the old one.
   */
  lemma StaleRun()
    ensures exists ops: seq<Op<int, char>> ::
      See(Run(DEFAULT_LIMITS, ops, false), 1) == Some('o') && Current(ops, 1) == Some('n')
  {
    var o, n, y := Item(1, 'o', 1), Item(1, 'n', 1), Item(4, 'y', 1);
    var a, b, c := Item(2, 'a', 104857600), Item(3, 'b', 104857600), Item(5, 'c', 104857600);
    var ops3 := FirstWrites(o, a, b);
    SecondWrite(DEFAULT_LIMITS, o, n, a, b);
    var ops4 := AfterWrite(ops3, Tiers([b], [a], [o]), n, Tiers([n], [b], [a, o]));
    ThirdWrite(DEFAULT_LIMITS, o, n, y, a, b);
    var ops5 := AfterWrite(ops4, Tiers([n], [b], [a, o]), y, Tiers([y, n], [b], [a, o]));
    var t6 := PushBothDown(DEFAULT_LIMITS, o, n, y, a, b, c);
    var ops6 := AfterWrite(ops5, Tiers([y, n], [b], [a, o]), c, t6);
    ReadUncovers(DEFAULT_LIMITS, t6, o, n, y, a, b, c);
    AfterRead(ops6, t6, 4);
  }
}
