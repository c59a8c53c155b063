/** What the filter makes of the text of a glob: one law for each construct, and what follows from them. */
module GlobLaws {
  import opened Globs
  import opened InputFilter

  // ---------------------------------------------------------------- one law for each construct

  lemma DenotesCons(p: Piece, ps: seq<Piece>, s: string)
    ensures Denotes([p] + ps, s, false) <==>
      exists k :: 0 <= k <= |s| && Covers(p, s[..k], false) && Denotes(ps, s[k..], false)
  {
    assert ([p] + ps)[1..] == ps;
  }

  /** The glob starts with a piece, and the rest of it is matched behind what the piece covers. */
  lemma FirstPiece(glob: string, p: Piece, rest: string, s: string)
    requires Pieces(glob) == [p] + Pieces(rest)
    ensures GlobMatches(glob, s) <==> exists k :: 0 <= k <= |s| && Covers(p, s[..k], false) && GlobMatches(rest, s[k..])
  {
    CompiledGlobDenotes(glob, s);
    DenotesCons(p, Pieces(rest), s);
    forall k | 0 <= k <= |s| ensures GlobMatches(rest, s[k..]) <==> Denotes(Pieces(rest), s[k..], false) {
      CompiledGlobDenotes(rest, s[k..]);
    }
  }

  lemma EmptyGlob(s: string)
    ensures GlobMatches("", s) <==> s == ""
  {
    CompiledGlobDenotes("", s);
  }

  /** Exactly one character is taken off the text. */
  lemma OneCharacter(glob: string, p: Piece, rest: string, s: string)
    requires Pieces(glob) == [p] + Pieces(rest) && forall t :: Covers(p, t, false) ==> |t| == 1
    ensures GlobMatches(glob, s) <==> s != "" && Covers(p, s[..1], false) && GlobMatches(rest, s[1..])
  {
    FirstPiece(glob, p, rest, s);
    if GlobMatches(glob, s) {
      var k :| 0 <= k <= |s| && Covers(p, s[..k], false) && GlobMatches(rest, s[k..]);
      assert |s[..k]| == 1;
    }
  }

  /** Any other character stands for itself. */
  lemma PlainCharacter(c: char, glob: string, s: string)
    requires c != '*' && c != '?'
    ensures GlobMatches([c] + glob, s) <==> s != "" && s[0] == c && GlobMatches(glob, s[1..])
  {
    assert ([c] + glob)[1..] == glob;
    OneCharacter([c] + glob, Literal(c), glob, s);
  }

  /** A question mark stands for one character that is no slash. */
  lemma QuestionMark(glob: string, s: string)
    ensures GlobMatches("?" + glob, s) <==> s != "" && s[0] != '/' && GlobMatches(glob, s[1..])
  {
    assert ("?" + glob)[1..] == glob;
    OneCharacter("?" + glob, OneChar, glob, s);
  }

  /** A single star stands for any text without a slash. */
  lemma OneStar(glob: string, s: string)
    requires glob == "" || glob[0] != '*'
    ensures GlobMatches("*" + glob, s) <==> exists k :: 0 <= k <= |s| && '/' !in s[..k] && GlobMatches(glob, s[k..])
  {
    assert ("*" + glob)[1..] == glob;
    FirstPiece("*" + glob, AnyName, glob, s);
  }

  /** Two stars stand for any text on one line. */
  lemma TwoStarsAnywhere(glob: string, s: string)
    requires glob == "" || glob[0] != '/'
    ensures GlobMatches("**" + glob, s) <==> exists k :: 0 <= k <= |s| && '\n' !in s[..k] && GlobMatches(glob, s[k..])
  {
    assert ("**" + glob)[2..] == glob;
    FirstPiece("**" + glob, AnyText, glob, s);
  }

  lemma DirsCover(s: string, k: nat)
    requires k <= |s|
    ensures Covers(AnyDirs, s[..k], false) <==> k == 0 || (s[k - 1] == '/' && '\n' !in s[..k - 1])
  {
    if k > 0 { assert s[..k] == s[..k - 1] + [s[k - 1]]; }
  }

  /** Two stars and a slash stand for nothing, or for any directories on one line. */
  lemma TwoStarsSlash(glob: string, s: string)
    ensures GlobMatches("**/" + glob, s) <==>
      GlobMatches(glob, s) ||
      exists k :: 0 <= k < |s| && s[k] == '/' && '\n' !in s[..k] && GlobMatches(glob, s[k + 1..])
  {
    assert ("**/" + glob)[3..] == glob;
    FirstPiece("**/" + glob, AnyDirs, glob, s);
    assert s[0..] == s;
    if GlobMatches("**/" + glob, s) {
      var k: nat :| 0 <= k <= |s| && Covers(AnyDirs, s[..k], false) && GlobMatches(glob, s[k..]);
      DirsCover(s, k);
      if k > 0 { assert s[(k - 1) + 1..] == s[k..]; }
    }
    if GlobMatches(glob, s) {
      DirsCover(s, 0);
    } else if k: nat :| 0 <= k < |s| && s[k] == '/' && '\n' !in s[..k] && GlobMatches(glob, s[k + 1..]) {
      DirsCover(s, k + 1);
    }
  }

  /** On one line: the glob matches the text or what follows one of its slashes. */
  lemma TwoStarsSlashOnOneLine(glob: string, s: string)
    requires '\n' !in s
    ensures GlobMatches("**/" + glob, s) <==>
      GlobMatches(glob, s) || exists k :: 0 <= k < |s| && s[k] == '/' && GlobMatches(glob, s[k + 1..])
  {
    TwoStarsSlash(glob, s);
  }

  // ---------------------------------------------------------------- what follows

  /** A glob without stars and question marks matches itself and nothing else. */
  lemma {:induction false} PlainGlob(glob: string, s: string)
    requires '*' !in glob && '?' !in glob
    ensures GlobMatches(glob, s) <==> s == glob
    decreases |glob|
  {
    if glob == "" {
      EmptyGlob(s);
    } else {
      assert glob == [glob[0]] + glob[1..];
      PlainCharacter(glob[0], glob[1..], s);
      if s != "" {
        PlainGlob(glob[1..], s[1..]);
        assert s == [s[0]] + s[1..];
      }
    }
  }

  function Slashes(s: string): nat {
    multiset(s)['/']
  }

  lemma SlashesSplit(s: string, k: nat)
    requires k <= |s|
    ensures Slashes(s) == Slashes(s[..k]) + Slashes(s[k..])
  {
    assert s == s[..k] + s[k..];
  }

  predicate NoTwoStars(glob: string) {
    forall i :: 0 <= i < |glob| - 1 ==> !(glob[i] == '*' && glob[i + 1] == '*')
  }

  /** Without two adjacent stars a match never crosses a directory: it has exactly the glob's slashes. */
  lemma {:induction false} MatchHasGlobsSlashes(glob: string, s: string)
    requires NoTwoStars(glob) && GlobMatches(glob, s)
    ensures Slashes(s) == Slashes(glob)
    decreases |glob|
  {
    if glob == "" {
      EmptyGlob(s);
    } else {
      var c, rest := glob[0], glob[1..];
      assert glob == [c] + rest;
      forall i | 0 <= i < |rest| - 1 ensures !(rest[i] == '*' && rest[i + 1] == '*') {
        assert rest[i] == glob[i + 1] && rest[i + 1] == glob[i + 1 + 1];
      }
      SlashesSplit(glob, 1);
      if c == '*' {
        assert rest == "" || rest[0] != '*' by { if rest != "" { assert glob[0 + 1] == rest[0]; } }
        OneStar(rest, s);
        var k :| 0 <= k <= |s| && '/' !in s[..k] && GlobMatches(rest, s[k..]);
        MatchHasGlobsSlashes(rest, s[k..]);
        SlashesSplit(s, k);
      } else {
        if c == '?' { QuestionMark(rest, s); } else { PlainCharacter(c, rest, s); }
        MatchHasGlobsSlashes(rest, s[1..]);
        SlashesSplit(s, 1);
        assert s[..1] == [s[0]];
      }
    }
  }

  lemma NamesMatch()
    ensures GlobMatches("*.rs", "b.rs")
  {
    PlainGlob(".rs", ".rs");
    OneStar(".rs", "b.rs");
    assert "*" + ".rs" == "*.rs" && "b.rs"[..1] == "b" && "b.rs"[1..] == ".rs";
  }

  lemma PathsDoNot()
    ensures !GlobMatches("*.rs", "a/b.rs")
  {
    assert Slashes("*.rs") == 0 && Slashes("a/b.rs") == 1;
    if GlobMatches("*.rs", "a/b.rs") { MatchHasGlobsSlashes("*.rs", "a/b.rs"); }
  }

  /** So an include of a name pattern does not reach into directories, and one with two stars does. */
  lemma NamePatternExample()
    ensures GlobMatches("*.rs", "b.rs") && !GlobMatches("*.rs", "a/b.rs") && GlobMatches("**/*.rs", "a/b.rs")
  {
    NamesMatch();
    PathsDoNot();
    var s := "a/b.rs";
    TwoStarsSlash("*.rs", s);
    assert "**/" + "*.rs" == "**/*.rs" && s[1] == '/' && s[1 + 1..] == "b.rs" && s[..1] == "a";
  }
}
