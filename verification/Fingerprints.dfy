/** The bytes hashed for a combined fingerprint: an optional prefix and the sorted inputs, framed by length. */
module Fingerprints {
  import opened Basics
  import Sorting

  function Digit(d: nat): char
    requires d < 10
  {
    ['0', '1', '2', '3', '4', '5', '6', '7', '8', '9'][d]
  }

  function Decimal(n: nat): string {
    if n < 10 then [Digit(n)] else Decimal(n / 10) + [Digit(n % 10)]
  }

  function Frame(tag: string, s: string): string {
    tag + "[" + Decimal(|s|) + "]:" + s
  }

  function Frames(fps: seq<string>): string {
    if fps == [] then "" else Frame("fp", fps[0]) + Frames(fps[1..])
  }

  predicate LexLeq(a: string, b: string) {
    a == "" || (b != "" && (a[0] < b[0] || (a[0] == b[0] && LexLeq(a[1..], b[1..]))))
  }

  function PrefixFrame(prefix: string): string {
    if prefix == "" then "" else Frame("prefix", prefix)
  }

  function Encode(prefix: string, fps: seq<string>): string {
    PrefixFrame(prefix) + Frames(Sorting.Sort(LexLeq, fps))
  }

  lemma FrameByPieces(tag: string, open: string, s: string)
    requires open == tag + "["
    ensures (open + Decimal(|s|) + "]:") + s == Frame(tag, s)
  {
  }

  lemma {:induction false} FramesAppend(fps: seq<string>, fp: string)
    ensures Frames(fps + [fp]) == Frames(fps) + Frame("fp", fp)
    decreases |fps|
  {
    var last := Frame("fp", fp);
    if fps == [] {
      assert fps + [fp] == [fp] && [fp][1..] == [];
      assert Frames([fp]) == last + "" == last;
    } else {
      FramesAppend(fps[1..], fp);
      assert (fps + [fp])[0] == fps[0] && (fps + [fp])[1..] == fps[1..] + [fp];
      ConcatAssoc(Frame("fp", fps[0]), Frames(fps[1..]), last);
    }
  }

  lemma NextFrame(head: string, sorted: seq<string>, i: nat)
    requires i < |sorted|
    ensures (head + Frames(sorted[..i])) + ("fp[" + Decimal(|sorted[i]|) + "]:") + sorted[i] ==
      head + Frames(sorted[..i + 1])
  {
    var before, opening := Frames(sorted[..i]), "fp[" + Decimal(|sorted[i]|) + "]:";
    FramesAppend(sorted[..i], sorted[i]);
    assert sorted[..i + 1] == sorted[..i] + [sorted[i]];
    FrameByPieces("fp", "fp[", sorted[i]);
    ConcatAssoc(head + before, opening, sorted[i]);
    ConcatAssoc(head, before, opening + sorted[i]);
  }

  /** Feeds the prefix and the sorted inputs to the hasher, piece by piece. */
  method CombineFingerprints(hash: string -> string, prefix: string, fps: seq<string>) returns (fingerprint: string)
    ensures fingerprint == hash(Encode(prefix, fps))
  {
    var hashed := "";
    if prefix != "" {
      hashed := "prefix[" + Decimal(|prefix|) + "]:";
      hashed := hashed + prefix;
      FrameByPieces("prefix", "prefix[", prefix);
    }
    assert hashed == PrefixFrame(prefix);
    var sorted := Sorting.Sort(LexLeq, fps);
    for i := 0 to |sorted|
      invariant hashed == PrefixFrame(prefix) + Frames(sorted[..i])
    {
      NextFrame(PrefixFrame(prefix), sorted, i);
      hashed := hashed + ("fp[" + Decimal(|sorted[i]|) + "]:");
      hashed := hashed + sorted[i];
    }
    assert sorted[..|sorted|] == sorted;
    return hash(hashed);
  }

  // ---------------------------------------------------------------- the byte order

  lemma {:induction false} LexTotal(a: string, b: string)
    ensures LexLeq(a, b) || LexLeq(b, a)
    ensures LexLeq(a, b) && LexLeq(b, a) ==> a == b
    decreases |a|
  {
    if a != "" && b != "" && a[0] == b[0] {
      LexTotal(a[1..], b[1..]);
      assert a == [a[0]] + a[1..] && b == [b[0]] + b[1..];
    }
  }

  lemma {:induction false} LexTransitive(a: string, b: string, c: string)
    requires LexLeq(a, b) && LexLeq(b, c)
    ensures LexLeq(a, c)
    decreases |a|
  {
    if a != "" && a[0] == b[0] && b[0] == c[0] {
      LexTransitive(a[1..], b[1..], c[1..]);
    }
  }

  lemma LexIsTotalOrder()
    ensures Sorting.TotalPreorder(LexLeq) && Sorting.Antisymmetric(LexLeq)
  {
    forall a, b ensures (LexLeq(a, b) || LexLeq(b, a)) && (LexLeq(a, b) && LexLeq(b, a) ==> a == b) {
      LexTotal(a, b);
    }
    forall a, b, c | LexLeq(a, b) && LexLeq(b, c) ensures LexLeq(a, c) {
      LexTransitive(a, b, c);
    }
  }

  // ---------------------------------------------------------------- unique decodability

  lemma {:induction false} DecimalIsDigits(n: nat)
    ensures Decimal(n) != "" && ']' !in Decimal(n)
    decreases n
  {
    if n >= 10 { DecimalIsDigits(n / 10); }
  }

  lemma {:induction false} DecimalInjective(a: nat, b: nat)
    requires Decimal(a) == Decimal(b)
    ensures a == b
    decreases a
  {
    DecimalIsDigits(a / 10);
    DecimalIsDigits(b / 10);
    var s, t := Decimal(a), Decimal(b);
    if a >= 10 && b >= 10 {
      assert Decimal(a / 10) == s[..|s| - 1] == t[..|t| - 1] == Decimal(b / 10);
      DecimalInjective(a / 10, b / 10);
      assert Digit(a % 10) == s[|s| - 1] == t[|t| - 1] == Digit(b % 10);
    }
  }

  /** A delimiter that occurs in neither head splits equal texts the same way. */
  lemma {:induction false} SplitAtDelimiter(c: char, a: string, x: string, b: string, y: string)
    requires a + [c] + x == b + [c] + y
    requires c !in a && c !in b
    ensures a == b && x == y
    decreases |a|
  {
    var s, t := a + [c] + x, b + [c] + y;
    assert s[0] == (if a == "" then c else a[0]) && t[0] == (if b == "" then c else b[0]);
    if a != "" && b != "" {
      assert s[1..] == a[1..] + [c] + x && t[1..] == b[1..] + [c] + y;
      SplitAtDelimiter(c, a[1..], x, b[1..], y);
      assert a == [a[0]] + a[1..] && b == [b[0]] + b[1..];
    } else {
      assert x == s[|a| + 1..] && y == t[|b| + 1..];
    }
  }

  lemma StripSame(h: string, x: string, y: string)
    requires h + x == h + y
    ensures x == y
  {
    assert (h + x)[|h|..] == x && (h + y)[|h|..] == y;
  }

  /** A frame can be read back off the front of any text. */
  lemma FrameReadsBack(tag: string, s: string, x: string, t: string, y: string)
    requires Frame(tag, s) + x == Frame(tag, t) + y
    ensures s == t && x == y
  {
    var head, n, m := tag + "[", Decimal(|s|), Decimal(|t|);
    assert Frame(tag, s) + x == head + (n + "]" + (":" + s + x));
    assert Frame(tag, t) + y == head + (m + "]" + (":" + t + y));
    StripSame(head, n + "]" + (":" + s + x), m + "]" + (":" + t + y));
    DecimalIsDigits(|s|);
    DecimalIsDigits(|t|);
    SplitAtDelimiter(']', n, ":" + s + x, m, ":" + t + y);
    DecimalInjective(|s|, |t|);
    var rest := ":" + s + x;
    assert s == rest[1..|s| + 1] && x == rest[|s| + 1..];
    assert rest == ":" + t + y;
    assert t == rest[1..|t| + 1] && y == rest[|t| + 1..];
  }

  lemma FrameStarts(tag: string, s: string)
    requires tag != ""
    ensures Frame(tag, s) != "" && Frame(tag, s)[0] == tag[0]
  {
  }

  lemma {:induction false} FramesReadBack(a: seq<string>, b: seq<string>)
    requires Frames(a) == Frames(b)
    ensures a == b
    decreases |a|
  {
    if a != [] { FrameStarts("fp", a[0]); }
    if b != [] { FrameStarts("fp", b[0]); }
    if a != [] && b != [] {
      FrameReadsBack("fp", a[0], Frames(a[1..]), b[0], Frames(b[1..]));
      FramesReadBack(a[1..], b[1..]);
      assert a == [a[0]] + a[1..] && b == [b[0]] + b[1..];
    }
  }

  lemma PartsStart(p: string, a: seq<string>)
    ensures var s := PrefixFrame(p) + Frames(a);
      (s == "" <==> p == "" && a == []) && (p != "" ==> s[0] == 'p') && (p == "" && a != [] ==> s[0] == 'f')
  {
    if p != "" { FrameStarts("prefix", p); }
    if a != [] { FrameStarts("fp", a[0]); }
  }

  lemma PartsReadBack(p: string, a: seq<string>, q: string, b: seq<string>)
    requires PrefixFrame(p) + Frames(a) == PrefixFrame(q) + Frames(b)
    ensures p == q && a == b
  {
    PartsStart(p, a);
    PartsStart(q, b);
    if p != "" {
      FrameReadsBack("prefix", p, Frames(a), q, Frames(b));
    } else {
      assert "" + Frames(a) == Frames(a) && "" + Frames(b) == Frames(b);
    }
    FramesReadBack(a, b);
  }

  /** The hashed bytes determine the prefix and the multiset of inputs, and nothing else: input order is invisible. */
  lemma EncodeIsUniquelyDecodable(p: string, a: seq<string>, q: string, b: seq<string>)
    ensures Encode(p, a) == Encode(q, b) <==> p == q && multiset(a) == multiset(b)
  {
    var sa, sb := Sorting.Sort(LexLeq, a), Sorting.Sort(LexLeq, b);
    if Encode(p, a) == Encode(q, b) {
      PartsReadBack(p, sa, q, sb);
      assert multiset(a) == multiset(sa) == multiset(sb) == multiset(b);
    }
    if multiset(a) == multiset(b) {
      LexIsTotalOrder();
      Sorting.SortSorted(LexLeq, a);
      Sorting.SortSorted(LexLeq, b);
      Sorting.SortedIsUnique(LexLeq, sa, sb);
    }
  }
}
