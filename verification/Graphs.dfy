/** Finite directed graphs as dependency tables: walks, cycles, dependency-first orders and heaviest walks. */
module Graphs {
  // A node maps to the list of nodes it depends on; a node without an entry depends on nothing.

  type Graph<T> = map<T, seq<T>>

  function Deps<T>(g: Graph<T>, t: T): seq<T> {
    if t in g then g[t] else []
  }

  /** Every node mentioned by the table, as a key or as a dependency. */
  function Nodes<T>(g: Graph<T>): set<T> {
    g.Keys + set k, d | k in g && d in g[k] :: d
  }

  function Members<T>(s: seq<T>): set<T> {
    set x | x in s
  }

  function Flatten<T>(lists: seq<seq<T>>): seq<T> {
    if lists == [] then [] else Flatten(lists[..|lists| - 1]) + lists[|lists| - 1]
  }

  ghost predicate NoDup<T>(s: seq<T>) {
    forall i, j :: 0 <= i < j < |s| ==> s[i] != s[j]
  }

  /** A walk follows dependencies from one node to the next. */
  ghost predicate Walk<T>(g: Graph<T>, p: seq<T>) {
    |p| > 0 && (|p| == 1 || (p[1] in Deps(g, p[0]) && Walk(g, p[1..])))
  }

  ghost predicate WalkFrom<T>(g: Graph<T>, t: T, p: seq<T>) {
    Walk(g, p) && p[0] == t
  }

  /** A non-trivial walk leads from u to v. */
  ghost predicate Leads<T(!new)>(g: Graph<T>, u: T, v: T) {
    exists p :: WalkFrom(g, u, p) && |p| >= 2 && p[|p| - 1] == v
  }

  /** v is u or a transitive dependency of u. */
  ghost predicate Reaches<T(!new)>(g: Graph<T>, u: T, v: T) {
    u == v || Leads(g, u, v)
  }

  /** Following dependencies from t can run into a cycle. */
  ghost predicate CycleFrom<T(!new)>(g: Graph<T>, t: T) {
    exists p :: WalkFrom(g, t, p) && !NoDup(p)
  }

  ghost predicate Acyclic<T(!new)>(g: Graph<T>) {
    forall t :: !CycleFrom(g, t)
  }

  /** Every entry's dependencies occur strictly before it. */
  ghost predicate DepsFirst<T>(g: Graph<T>, order: seq<T>) {
    forall i, d :: 0 <= i < |order| && d in Deps(g, order[i]) ==> d in order[..i]
  }

  // ---------------------------------------------------------------- walks

  lemma WalkPrepend<T>(g: Graph<T>, t: T, p: seq<T>)
    requires Walk(g, p) && p[0] in Deps(g, t)
    ensures WalkFrom(g, t, [t] + p)
  {
    assert ([t] + p)[1..] == p;
  }

  lemma {:induction false} WalkJoin<T>(g: Graph<T>, p: seq<T>, q: seq<T>)
    requires Walk(g, p) && Walk(g, q) && p[|p| - 1] == q[0]
    ensures Walk(g, p + q[1..])
    decreases |p|
  {
    if |p| == 1 {
      assert p + q[1..] == q;
    } else {
      WalkJoin(g, p[1..], q);
      assert (p + q[1..])[1..] == p[1..] + q[1..];
    }
  }

  lemma {:induction false} WalkSlice<T>(g: Graph<T>, p: seq<T>, i: nat, j: nat)
    requires Walk(g, p) && i < j <= |p|
    ensures Walk(g, p[i..j])
    decreases |p|
  {
    if i > 0 {
      WalkSlice(g, p[1..], i - 1, j - 1);
      assert p[1..][i - 1..j - 1] == p[i..j];
    } else if j > 1 {
      WalkSlice(g, p[1..], 0, j - 1);
      assert p[i..j][1..] == p[1..][0..j - 1];
    }
  }

  lemma LeadsStep<T(!new)>(g: Graph<T>, u: T, v: T)
    requires v in Deps(g, u)
    ensures Leads(g, u, v)
  {
    WalkPrepend(g, u, [v]);
    assert WalkFrom(g, u, [u] + [v]);
  }

  lemma LeadsTrans<T(!new)>(g: Graph<T>, u: T, v: T, w: T)
    requires Leads(g, u, v) && Leads(g, v, w)
    ensures Leads(g, u, w)
  {
    var p :| WalkFrom(g, u, p) && |p| >= 2 && p[|p| - 1] == v;
    var q :| WalkFrom(g, v, q) && |q| >= 2 && q[|q| - 1] == w;
    WalkJoin(g, p, q);
    assert WalkFrom(g, u, p + q[1..]);
  }

  lemma ReachesStep<T(!new)>(g: Graph<T>, u: T, v: T, w: T)
    requires Reaches(g, u, v) && w in Deps(g, v)
    ensures Leads(g, u, w) && Reaches(g, u, w)
  {
    LeadsStep(g, v, w);
    if u != v { LeadsTrans(g, u, v, w); }
  }

  /** A node leads to itself exactly when it lies on a cycle; such a node has a cycle ahead. */
  lemma SelfLeadsCycle<T(!new)>(g: Graph<T>, t: T)
    requires Leads(g, t, t)
    ensures CycleFrom(g, t)
  {
    var p :| WalkFrom(g, t, p) && |p| >= 2 && p[|p| - 1] == t;
    assert p[0] == p[|p| - 1];
  }

  lemma CycleAhead<T(!new)>(g: Graph<T>, u: T, v: T)
    requires Leads(g, u, v) && CycleFrom(g, v)
    ensures CycleFrom(g, u)
  {
    var p :| WalkFrom(g, u, p) && |p| >= 2 && p[|p| - 1] == v;
    var q :| WalkFrom(g, v, q) && !NoDup(q);
    var i, j :| 0 <= i < j < |q| && q[i] == q[j];
    WalkJoin(g, p, q);
    var r := p + q[1..];
    assert forall k :: 0 <= k < |q| ==> r[|p| - 1 + k] == q[k];
    assert r[|p| - 1 + i] == r[|p| - 1 + j];
    assert WalkFrom(g, u, r);
  }

  /** If a cycle can be reached from t, one of t's dependencies already reaches it. */
  lemma CycleThroughDep<T(!new)>(g: Graph<T>, t: T)
    requires CycleFrom(g, t)
    ensures exists d :: d in Deps(g, t) && CycleFrom(g, d)
  {
    var p :| WalkFrom(g, t, p) && !NoDup(p);
    var i, j :| 0 <= i < j < |p| && p[i] == p[j];
    var d := p[1];
    var tail := p[1..];
    if i > 0 {
      assert tail[i - 1] == tail[j - 1];
      assert WalkFrom(g, d, tail);
    } else {
      WalkSlice(g, p, 1, j + 1);
      var back := p[1..j + 1];
      WalkPrepend(g, t, [d]);
      WalkJoin(g, back, [t] + [d]);
      var r := back + ([t] + [d])[1..];
      assert r[0] == d && r[|r| - 1] == d && |r| >= 2;
      assert WalkFrom(g, d, r) && !NoDup(r);
    }
    assert d in Deps(g, t) && CycleFrom(g, d);
  }

  lemma CycleOfDep<T(!new)>(g: Graph<T>, t: T, d: T)
    requires d in Deps(g, t) && CycleFrom(g, d)
    ensures CycleFrom(g, t)
  {
    LeadsStep(g, t, d);
    CycleAhead(g, t, d);
  }

  ghost predicate ClosedUnder<T>(g: Graph<T>, s: set<T>) {
    forall x, d :: x in s && d in Deps(g, x) ==> d in s
  }

  lemma {:induction false} WalkStaysInside<T>(g: Graph<T>, s: set<T>, p: seq<T>)
    requires ClosedUnder(g, s) && Walk(g, p) && p[0] in s
    ensures forall i :: 0 <= i < |p| ==> p[i] in s
    decreases |p|
  {
    if |p| > 1 {
      WalkStaysInside(g, s, p[1..]);
      assert forall i :: 1 <= i < |p| ==> p[i] == p[1..][i - 1];
    }
  }

  lemma ReachedInside<T(!new)>(g: Graph<T>, s: set<T>, u: T, v: T)
    requires ClosedUnder(g, s) && u in s && Reaches(g, u, v)
    ensures v in s
  {
    if u != v {
      var p :| WalkFrom(g, u, p) && |p| >= 2 && p[|p| - 1] == v;
      WalkStaysInside(g, s, p);
    }
  }

  // ---------------------------------------------------------------- worklist search

  /** Everything seen or queued can be reached from the start, and whatever follows a seen node is seen or queued. */
  ghost predicate Frontier<T(!new)>(g: Graph<T>, from: T, seen: set<T>, queue: seq<T>) {
    && (from in seen || from in queue)
    && (forall x {:trigger Reaches(g, from, x)} :: x in queue || x in seen ==> Reaches(g, from, x))
    && (forall x, d :: x in seen && d in Deps(g, x) ==> d in seen || d in queue)
  }

  lemma FrontierStart<T(!new)>(g: Graph<T>, from: T)
    ensures Frontier(g, from, {}, [from])
  {
    assert Reaches(g, from, from);
  }

  /** Taking a node off the queue and queueing what follows it, except nodes already seen. */
  lemma FrontierStep<T(!new)>(g: Graph<T>, from: T, seen: set<T>, queue: seq<T>, id: T, next: seq<T>)
    requires Frontier(g, from, seen, queue) && id in queue
    requires forall x :: x in next ==> x in queue || x in Deps(g, id)
    requires forall x :: x in queue ==> x == id || x in next
    requires forall d :: d in Deps(g, id) ==> d in next || d in seen + {id}
    ensures Frontier(g, from, seen + {id}, next)
  {
    assert Reaches(g, from, id);
    forall x | x in next || x in seen + {id} ensures Reaches(g, from, x) {
      if x in Deps(g, id) { ReachesStep(g, from, id, x); }
    }
  }

  /** An emptied queue means that exactly the reachable nodes were seen. */
  lemma FrontierDone<T(!new)>(g: Graph<T>, from: T, seen: set<T>)
    requires Frontier(g, from, seen, [])
    ensures forall x :: x in seen <==> Reaches(g, from, x)
  {
    forall x | Reaches(g, from, x) ensures x in seen {
      ReachedInside(g, seen, from, x);
    }
  }

  lemma FewerLeft<T>(all: set<T>, seen: set<T>, x: T)
    requires x in all && x !in seen
    ensures |all - (seen + {x})| < |all - seen|
  {
    assert all - seen == (all - (seen + {x})) + {x};
  }

  // ---------------------------------------------------------------- depth-first search

  /** Every node on the recursion stack leads to the node being searched. */
  ghost predicate StackLeadsTo<T(!new)>(g: Graph<T>, stack: set<T>, t: T) {
    forall v {:trigger Leads(g, v, t)} :: v in stack ==> Leads(g, v, t)
  }

  lemma StackLeads<T(!new)>(g: Graph<T>, stack: set<T>, t: T, d: T)
    requires StackLeadsTo(g, stack, t) && d in Deps(g, t)
    ensures StackLeadsTo(g, stack + {t}, d) && d in Nodes(g)
  {
    forall v | v in stack + {t} ensures Leads(g, v, d) {
      assert v != t ==> Leads(g, v, t);
      ReachesStep(g, v, t, d);
    }
  }

  // ---------------------------------------------------------------- transposed graphs

  ghost predicate Transposes<T(!new)>(g: Graph<T>, h: Graph<T>) {
    forall x, y :: y in Deps(g, x) <==> x in Deps(h, y)
  }

  lemma {:induction false} WalkTransposed<T(!new)>(g: Graph<T>, h: Graph<T>, p: seq<T>)
    requires Transposes(g, h) && Walk(g, p) && |p| >= 2
    ensures Leads(h, p[|p| - 1], p[0])
    decreases |p|
  {
    LeadsStep(h, p[1], p[0]);
    if |p| > 2 {
      WalkTransposed(g, h, p[1..]);
      LeadsTrans(h, p[|p| - 1], p[1], p[0]);
    }
  }

  lemma ReachesTransposed<T(!new)>(g: Graph<T>, h: Graph<T>, u: T, v: T)
    requires Transposes(g, h)
    ensures Reaches(g, u, v) <==> Reaches(h, v, u)
  {
    if u != v && Leads(g, u, v) {
      var p :| WalkFrom(g, u, p) && |p| >= 2 && p[|p| - 1] == v;
      WalkTransposed(g, h, p);
    }
    if u != v && Leads(h, v, u) {
      var p :| WalkFrom(h, v, p) && |p| >= 2 && p[|p| - 1] == u;
      WalkTransposed(h, g, p);
    }
  }

  // ---------------------------------------------------------------- adding an edge

  function AddEdge<T>(g: Graph<T>, u: T, v: T): Graph<T> {
    g[u := Deps(g, u) + [v]]
  }

  /** A walk of the larger graph that starts in, or never gets into, what v reached before is an old walk. */
  lemma {:induction false} OldWalk<T>(g: Graph<T>, u: T, v: T, s: set<T>, p: seq<T>)
    requires ClosedUnder(g, s) && v in s && u !in s
    requires Walk(AddEdge(g, u, v), p) && (p[0] in s || p[|p| - 1] !in s)
    ensures Walk(g, p) && (p[|p| - 1] !in s ==> p[0] !in s)
    decreases |p|
  {
    if |p| > 1 {
      if p[0] in s {
        assert p[1] in Deps(g, p[0]);
      }
      OldWalk(g, u, v, s, p[1..]);
    }
  }

  lemma NoClosedWalk<T(!new)>(g: Graph<T>, p: seq<T>)
    requires Acyclic(g) && Walk(g, p) && |p| >= 2
    ensures p[0] != p[|p| - 1]
  {
    assert !CycleFrom(g, p[0]);
    assert WalkFrom(g, p[0], p);
  }

  lemma OldWalksOnly<T(!new)>(g: Graph<T>, u: T, v: T, reached: set<T>, p: seq<T>)
    requires Acyclic(g) && (forall x :: x in reached <==> Reaches(g, v, x)) && !Reaches(g, v, u)
    requires Walk(AddEdge(g, u, v), p)
    ensures NoDup(p)
  {
    forall x, d | x in reached && d in Deps(g, x) ensures d in reached {
      ReachesStep(g, v, x, d);
    }
    assert v in reached by { assert Reaches(g, v, v); }
    forall i, j | 0 <= i < j < |p| ensures p[i] != p[j] {
      if p[i] == p[j] {
        WalkSlice(AddEdge(g, u, v), p, i, j + 1);
        var loop := p[i..j + 1];
        OldWalk(g, u, v, reached, loop);
        NoClosedWalk(g, loop);
      }
    }
  }

  lemma {:induction false} OldWalksSurvive<T>(g: Graph<T>, u: T, v: T, p: seq<T>)
    requires Walk(g, p)
    ensures Walk(AddEdge(g, u, v), p)
    decreases |p|
  {
    if |p| > 1 { OldWalksSurvive(g, u, v, p[1..]); }
  }

  lemma EdgeClosesCycle<T(!new)>(g: Graph<T>, u: T, v: T)
    requires Reaches(g, v, u)
    ensures !Acyclic(AddEdge(g, u, v))
  {
    var h := AddEdge(g, u, v);
    assert Deps(h, u)[|Deps(h, u)| - 1] == v;
    if u != v {
      var p :| WalkFrom(g, v, p) && |p| >= 2 && p[|p| - 1] == u;
      OldWalksSurvive(g, u, v, p);
      assert WalkFrom(h, v, p) && Leads(h, v, u);
    }
    ReachesStep(h, v, u, v);
    SelfLeadsCycle(h, v);
  }

  /** An edge keeps an acyclic graph acyclic exactly when its end does not reach its start already. */
  lemma EdgeKeepsAcyclic<T(!new)>(g: Graph<T>, u: T, v: T, reached: set<T>)
    requires Acyclic(g) && forall x :: x in reached <==> Reaches(g, v, x)
    ensures Acyclic(AddEdge(g, u, v)) <==> !Reaches(g, v, u)
  {
    var h := AddEdge(g, u, v);
    if Reaches(g, v, u) {
      EdgeClosesCycle(g, u, v);
    } else {
      forall t, p | WalkFrom(h, t, p) ensures NoDup(p) {
        OldWalksOnly(g, u, v, reached, p);
      }
    }
  }

  // ---------------------------------------------------------------- pigeonhole

  lemma {:induction false} Pigeonhole<T>(p: seq<T>, s: set<T>)
    requires forall x :: x in p ==> x in s
    requires NoDup(p)
    ensures |p| <= |s|
    decreases |p|
  {
    if |p| > 0 {
      var x := p[0];
      assert forall y :: y in p[1..] ==> y in s - {x};
      Pigeonhole(p[1..], s - {x});
      assert s == (s - {x}) + {x};
    }
  }

  lemma {:induction false} NoDupSet<T>(p: seq<T>)
    requires NoDup(p)
    ensures |Members(p)| == |p|
    decreases |p|
  {
    if |p| > 0 {
      var n := |p| - 1;
      NoDupSet(p[..n]);
      assert p[n] !in Members(p[..n]);
      assert Members(p) == Members(p[..n]) + {p[n]};
    }
  }

  ghost predicate DependsInto<T>(g: Graph<T>, x: T, s: set<T>) {
    exists d :: d in Deps(g, x) && d in s
  }

  ghost predicate NeededFrom<T>(g: Graph<T>, x: T, s: set<T>) {
    exists u :: u in s && x in Deps(g, u)
  }

  lemma {:induction false} LongWalkInside<T(!new)>(g: Graph<T>, s: set<T>, t: T, n: nat) returns (p: seq<T>)
    requires t in s && forall x {:trigger DependsInto(g, x, s)} :: x in s ==> DependsInto(g, x, s)
    ensures WalkFrom(g, t, p) && |p| == n + 1 && forall i :: 0 <= i < |p| ==> p[i] in s
    decreases n
  {
    if n == 0 {
      p := [t];
    } else {
      assert DependsInto(g, t, s);
      var d :| d in Deps(g, t) && d in s;
      var q := LongWalkInside(g, s, d, n - 1);
      WalkPrepend(g, t, q);
      p := [t] + q;
    }
  }

  /** In a finite set whose members all depend on another member, every member reaches a cycle. */
  lemma StuckSetHasCycles<T(!new)>(g: Graph<T>, s: set<T>, t: T)
    requires t in s && forall x {:trigger DependsInto(g, x, s)} :: x in s ==> DependsInto(g, x, s)
    ensures CycleFrom(g, t)
  {
    var p := LongWalkInside(g, s, t, |s|);
    if NoDup(p) { Pigeonhole(p, s); }
  }

  lemma {:induction false} LongWalkInto<T(!new)>(g: Graph<T>, s: set<T>, t: T, n: nat) returns (p: seq<T>)
    requires t in s && forall x {:trigger NeededFrom(g, x, s)} :: x in s ==> NeededFrom(g, x, s)
    ensures Walk(g, p) && |p| == n + 1 && p[n] == t && forall i :: 0 <= i < |p| ==> p[i] in s
    decreases n
  {
    if n == 0 {
      p := [t];
    } else {
      assert NeededFrom(g, t, s);
      var u :| u in s && t in Deps(g, u);
      var q := LongWalkInto(g, s, u, n - 1);
      WalkPrepend(g, u, [t]);
      WalkJoin(g, q, [u] + [t]);
      p := q + ([u] + [t])[1..];
    }
  }

  /** In a finite set whose members are all depended on by another member, some member reaches a cycle. */
  lemma SourcelessSetHasCycle<T(!new)>(g: Graph<T>, s: set<T>)
    requires s != {} && forall x {:trigger NeededFrom(g, x, s)} :: x in s ==> NeededFrom(g, x, s)
    ensures exists u :: u in s && CycleFrom(g, u)
  {
    var t :| t in s;
    var p := LongWalkInto(g, s, t, |s|);
    if NoDup(p) { Pigeonhole(p, s); }
    assert WalkFrom(g, p[0], p);
    assert p[0] in s && CycleFrom(g, p[0]);
  }

  lemma {:induction false} NoDupCounts<T>(p: seq<T>, x: T)
    requires NoDup(p)
    ensures multiset(p)[x] <= 1
    decreases |p|
  {
    if |p| > 0 {
      assert p == [p[0]] + p[1..];
      NoDupCounts(p[1..], x);
      if x == p[0] { assert x !in p[1..]; }
    }
  }

  lemma NoDupPermutes<T>(p: seq<T>, q: seq<T>)
    requires NoDup(p) && multiset(p) == multiset(q)
    ensures NoDup(q)
  {
    forall i, j | 0 <= i < j < |q| ensures q[i] != q[j] {
      if q[i] == q[j] {
        assert q == q[..i] + [q[i]] + q[i + 1..j] + [q[j]] + q[j + 1..];
        assert multiset(q)[q[i]] >= 2;
        NoDupCounts(p, q[i]);
      }
    }
  }

  lemma NoDupAppend<T>(p: seq<T>, q: seq<T>)
    requires NoDup(p) && NoDup(q) && forall x :: x in p ==> x !in q
    ensures NoDup(p + q)
  {
    forall i, j | 0 <= i < j < |p + q| ensures (p + q)[i] != (p + q)[j] {
      if i < |p| <= j {
        assert p[i] in p && q[j - |p|] in q;
      }
    }
  }

  lemma NextMember<T>(s: seq<T>, i: nat)
    requires i < |s|
    ensures Members(s[..i + 1]) == Members(s[..i]) + {s[i]}
    ensures NoDup(s) ==> s[i] !in Members(s[..i])
  {
    assert s[..i + 1] == s[..i] + [s[i]];
  }

  // ---------------------------------------------------------------- orders

  /** A walk that starts at position i of a dependency-first order only moves to earlier positions. */
  lemma {:induction false} WalkDescends<T>(g: Graph<T>, order: seq<T>, i: nat, p: seq<T>)
    requires NoDup(order) && DepsFirst(g, order) && i < |order|
    requires WalkFrom(g, order[i], p)
    ensures NoDup(p) && forall x :: x in p[1..] ==> x in order[..i]
    decreases |p|
  {
    if |p| > 1 {
      assert p[1] in order[..i];
      var j :| 0 <= j < i && order[j] == p[1];
      WalkDescends(g, order, j, p[1..]);
      forall x | x in p[1..] ensures x in order[..i] {
        assert p[1..] == [p[1]] + p[1..][1..];
        if x != p[1] {
          assert x in order[..j];
          assert order[..j] <= order[..i];
        }
      }
      forall a, b | 0 <= a < b < |p| ensures p[a] != p[b] {
        if a == 0 {
          assert p[b] in p[1..];
        } else {
          assert p[1..][a - 1] == p[a] && p[1..][b - 1] == p[b];
        }
      }
    }
  }

  /** No member of a dependency-first order reaches a cycle. */
  lemma OrderedIsCycleFree<T(!new)>(g: Graph<T>, order: seq<T>, t: T)
    requires NoDup(order) && DepsFirst(g, order) && t in order
    ensures !CycleFrom(g, t)
  {
    var i :| 0 <= i < |order| && order[i] == t;
    forall p | WalkFrom(g, t, p) ensures NoDup(p) {
      WalkDescends(g, order, i, p);
    }
  }

  lemma DepsFirstAppend<T>(g: Graph<T>, order: seq<T>, t: T)
    requires DepsFirst(g, order) && forall d :: d in Deps(g, t) ==> d in order
    ensures DepsFirst(g, order + [t])
  {
    var next := order + [t];
    forall i, d | 0 <= i < |next| && d in Deps(g, next[i]) ensures d in next[..i] {
      if i < |order| {
        assert next[..i] == order[..i];
      } else {
        assert next[..i] == order;
      }
    }
  }

  // ---------------------------------------------------------------- heaviest walks

  ghost function Weight<T>(w: T -> real, p: seq<T>): real {
    if p == [] then 0.0 else w(p[0]) + Weight(w, p[1..])
  }

  /** v is the greatest total weight of a walk that starts at t. */
  ghost predicate IsHeaviest<T(!new)>(g: Graph<T>, w: T -> real, t: T, v: real) {
    (exists p :: WalkFrom(g, t, p) && Weight(w, p) == v) &&
    (forall p :: WalkFrom(g, t, p) ==> Weight(w, p) <= v)
  }

  /** The heaviest walk from t, from the heaviest walks of its dependencies. */
  lemma HeaviestStep<T(!new)>(g: Graph<T>, w: T -> real, t: T, best: real)
    requires best >= 0.0
    requires best == 0.0 || exists d :: d in Deps(g, t) && IsHeaviest(g, w, d, best)
    requires forall d :: d in Deps(g, t) ==> exists c :: c <= best && IsHeaviest(g, w, d, c)
    ensures IsHeaviest(g, w, t, w(t) + best)
  {
    if best == 0.0 {
      assert Weight(w, [t]) == w(t) + Weight(w, [t][1..]);
      assert WalkFrom(g, t, [t]) && Weight(w, [t]) == w(t) + best;
    } else {
      var d :| d in Deps(g, t) && IsHeaviest(g, w, d, best);
      var p :| WalkFrom(g, d, p) && Weight(w, p) == best;
      WalkPrepend(g, t, p);
      assert ([t] + p)[1..] == p;
      assert WalkFrom(g, t, [t] + p) && Weight(w, [t] + p) == w(t) + best;
    }
    forall p | WalkFrom(g, t, p) ensures Weight(w, p) <= w(t) + best {
      if |p| > 1 {
        assert WalkFrom(g, p[1], p[1..]);
      } else {
        assert p[1..] == [];
      }
    }
  }
}
