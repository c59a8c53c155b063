/** The text that is hashed for a fingerprint, spelled out. */
module FingerprintLaws {
  import opened Basics
  import opened Fingerprints
  import opened FingerprintTrees
  import opened NodeTrees
  import opened TaskLists
  import Sorting

  // ---------------------------------------------------------------- decimal numbers

  /** The number a text of digits stands for. */
  function Value(digits: string): int {
    if digits == "" then 0
    else Value(digits[..|digits| - 1]) * 10 + (digits[|digits| - 1] as int - '0' as int)
  }

  lemma DigitIs(d: nat)
    requires d < 10
    ensures Digit(d) as int == '0' as int + d
  {
  }

  /** A length is written in digits, without a zero in front, and stands for itself. */
  lemma {:induction false} DecimalReads(n: nat)
    ensures Value(Decimal(n)) == n
    ensures Decimal(n) != "" && (Decimal(n)[0] == '0' ==> n == 0)
    ensures forall i :: 0 <= i < |Decimal(n)| ==> '0' <= Decimal(n)[i] <= '9'
    decreases n
  {
    if n < 10 {
      DigitIs(n);
      assert [Digit(n)][..0] == "";
    } else {
      DecimalReads(n / 10);
      DigitIs(n % 10);
      assert Decimal(n)[..|Decimal(n)| - 1] == Decimal(n / 10);
    }
  }

  // ---------------------------------------------------------------- the order of the inputs

  /** A text comes before another if it is its beginning, or smaller where they first differ. */
  lemma {:induction false} LexLeqIff(a: string, b: string)
    ensures LexLeq(a, b) <==>
      a <= b || exists i :: 0 <= i < |a| && i < |b| && a[..i] == b[..i] && a[i] < b[i]
    decreases |a|
  {
    if a != "" && b != "" && a[0] == b[0] {
      LexLeqIff(a[1..], b[1..]);
      assert a == [a[0]] + a[1..] && b == [b[0]] + b[1..];
      assert a <= b <==> a[1..] <= b[1..];
      if i :| 0 <= i < |a| && i < |b| && a[..i] == b[..i] && a[i] < b[i] {
        assert i > 0 && a[1..][..i - 1] == a[..i][1..] && b[1..][..i - 1] == b[..i][1..];
        assert a[1..][i - 1] < b[1..][i - 1];
      }
      if j :| 0 <= j < |a[1..]| && j < |b[1..]| && a[1..][..j] == b[1..][..j] && a[1..][j] < b[1..][j] {
        assert a[..j + 1] == [a[0]] + a[1..][..j] && b[..j + 1] == [b[0]] + b[1..][..j];
        assert a[j + 1] < b[j + 1];
      }
    } else if a != "" && b != "" && a[0] < b[0] {
      assert a[..0] == b[..0];
    } else if a != "" && b != "" {
      assert !(a <= b);
      forall i | 0 < i < |a| && i < |b| ensures a[..i] != b[..i] {
        assert a[..i][0] == a[0] && b[..i][0] == b[0];
      }
    }
  }

  // ---------------------------------------------------------------- the text

  lemma PrefixFramed(prefix: string)
    ensures Frame("prefix", prefix) == "prefix[" + Decimal(|prefix|) + "]:" + prefix
  {
    assert "prefix" + "[" == "prefix[";
  }

  /** Without inputs, only the prefix and its length are hashed; an empty prefix leaves nothing. */
  lemma PrefixAlone(prefix: string)
    ensures Encode(prefix, []) == if prefix == "" then "" else "prefix[" + Decimal(|prefix|) + "]:" + prefix
  {
    var none: seq<string> := [];
    assert Frames(Sorting.Sort(LexLeq, none)) == "";
    assert PrefixFrame(prefix) + "" == PrefixFrame(prefix);
    PrefixFramed(prefix);
  }

  lemma SortedStays(s: seq<string>)
    requires Sorting.SortedBy(LexLeq, s)
    ensures Sorting.Sort(LexLeq, s) == s
  {
    LexIsTotalOrder();
    Sorting.SortSorted(LexLeq, s);
    Sorting.SortedIsUnique(LexLeq, Sorting.Sort(LexLeq, s), s);
  }

  /** Inputs that are in order follow one by one, each with its length. */
  lemma NextInput(prefix: string, fps: seq<string>, fp: string)
    requires forall i, j :: 0 <= i < j < |fps + [fp]| ==> LexLeq((fps + [fp])[i], (fps + [fp])[j])
    ensures Encode(prefix, fps + [fp]) == Encode(prefix, fps) + ("fp[" + Decimal(|fp|) + "]:" + fp)
  {
    var all := fps + [fp];
    LexIsTotalOrder();
    assert Sorting.SortedBy(LexLeq, all);
    forall i, j | 0 <= i < j < |fps| ensures LexLeq(fps[i], fps[j]) {
      assert all[i] == fps[i] && all[j] == fps[j];
    }
    SortedStays(fps);
    SortedStays(all);
    FramesAppend(fps, fp);
    assert "fp" + "[" == "fp[";
    ConcatAssoc(PrefixFrame(prefix), Frames(fps), Frame("fp", fp));
  }

  /** Inputs in any other order give the same text. */
  lemma OrderDoesNotMatter(prefix: string, a: seq<string>, b: seq<string>)
    requires multiset(a) == multiset(b)
    ensures Encode(prefix, a) == Encode(prefix, b)
  {
    EncodeIsUniquelyDecodable(prefix, a, prefix, b);
  }

  /** What is hashed first is "ts:", the project, a colon and the name. */
  lemma PrefixText(base: string, name: string)
    ensures TaskPrefix(base, name) == "ts:" + base + ":" + name
  {
  }

  lemma DigestText(hash: string -> string, base: string, t: DepTree, text: string)
    requires text == TaskPrefix(base, t.name)
    ensures Digest(hash, base, t) == hash(Encode(text, Digests(hash, base, t.deps)))
  {
  }

  /** The fingerprint of a task is the hash of that and of the fingerprints of its dependencies. */
  lemma NodeFingerprint(hash: string -> string, base: string, ts: seq<TaskSpec>, k: nat, fp: string, text: string)
    requires IsDigested(hash, base, ts, k, fp) && text == "ts:" + base + ":" + ts[k].name
    ensures fp == hash(Encode(text, Digests(hash, base, NodeTree(ts, k).deps)))
    ensures ts[k].deps == [] ==> fp == hash("prefix[" + Decimal(|text|) + "]:" + text)
  {
    var t := NodeTree(ts, k);
    PrefixText(base, ts[k].name);
    DigestText(hash, base, t, text);
    if ts[k].deps == [] {
      assert t.deps == [];
      PrefixAlone(text);
    }
  }
}
