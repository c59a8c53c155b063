/** The input filter: globs compiled to regular expression text, parsed, and matched against normalised paths. */
module InputFilter {
  import opened Basics
  import opened Globs
  import opened Paths
  import opened Regexes
  import opened Options

  // ---------------------------------------------------------------- compilation

  predicate Escaped(c: char) {
    c in {'.', '(', ')', '+', '|', '^', '$', '[', ']', '{', '}', '\\'}
  }

  function Emit(p: Piece): string {
    match p
    case AnyDirs => "(?:.*/)?"
    case AnyText => ".*"
    case AnyName => "[^/]*"
    case OneChar => "[^/]"
    case Literal(c) => if Escaped(c) then ['\\', c] else [c]
  }

  function EmitAll(ps: seq<Piece>): string {
    if ps == [] then "" else Emit(ps[0]) + EmitAll(ps[1..])
  }

  function CompiledText(glob: string): string {
    "^" + (EmitAll(Pieces(glob)) + "$")
  }

  lemma NextPiece(rest: string, emitted: string, left: string)
    requires rest != "" && Pieces(rest)[1..] == Pieces(left) && Pieces(rest) != []
    requires emitted == Emit(Pieces(rest)[0])
    ensures EmitAll(Pieces(rest)) == emitted + EmitAll(Pieces(left))
  {
  }

  /** Walks over the characters of the glob, looking ahead for second stars and slashes. */
  method GlobToRegex(glob: string) returns (text: string, regex: Option<Regex>)
    ensures text == CompiledText(glob) && regex == Parse(text)
  {
    text := "^";
    var i := 0;
    assert glob[0..] == glob;
    while i < |glob|
      invariant i <= |glob|
      invariant text + EmitAll(Pieces(glob[i..])) == "^" + EmitAll(Pieces(glob))
    {
      ghost var rest := glob[i..];
      var c := glob[i];
      i := i + 1;
      assert rest[1..] == glob[i..];
      var emitted: string;
      if c == '*' {
        if i < |glob| && glob[i] == '*' {
          i := i + 1;
          assert rest[2..] == glob[i..];
          if i < |glob| && glob[i] == '/' {
            i := i + 1;
            assert rest[3..] == glob[i..];
            emitted := "(?:.*/)?";
          } else {
            emitted := ".*";
          }
        } else {
          emitted := "[^/]*";
        }
      } else if c == '?' {
        emitted := "[^/]";
      } else if Escaped(c) {
        emitted := ['\\', c];
      } else {
        emitted := [c];
      }
      NextPiece(rest, emitted, glob[i..]);
      ConcatAssoc(text, emitted, EmitAll(Pieces(glob[i..])));
      text := text + emitted;
    }
    assert glob[i..] == "" && text + "" == text;
    ConcatAssoc("^", EmitAll(Pieces(glob)), "$");
    text := text + "$";
    regex := Parse(text);
  }

  // ---------------------------------------------------------------- the text parses to what was meant

  function Meaning(p: Piece): Regex {
    match p
    case AnyDirs => Maybe(Sequence([Star(Dot), Char('/')]))
    case AnyText => Star(Dot)
    case AnyName => Star(NotSlash)
    case OneChar => NotSlash
    case Literal(c) => Char(c)
  }

  function Meanings(ps: seq<Piece>): seq<Regex> {
    if ps == [] then [End] else [Meaning(ps[0])] + Meanings(ps[1..])
  }

  /** Pieces a glob can have: stars and question marks are never literal. */
  predicate FromGlob(ps: seq<Piece>) {
    forall i :: 0 <= i < |ps| ==> ps[i] != Literal('*') && ps[i] != Literal('?')
  }

  lemma {:induction false} PiecesFromGlob(glob: string)
    ensures FromGlob(Pieces(glob))
    decreases |glob|
  {
    if glob != "" {
      if glob[0] == '*' && |glob| > 1 && glob[1] == '*' {
        if |glob| > 2 && glob[2] == '/' { PiecesFromGlob(glob[3..]); } else { PiecesFromGlob(glob[2..]); }
      } else {
        PiecesFromGlob(glob[1..]);
      }
    }
  }

  predicate NoPostfix(s: string) {
    s == "" || (s[0] != '*' && s[0] != '?')
  }

  lemma EmitStartsPlain(ps: seq<Piece>)
    requires FromGlob(ps)
    ensures NoPostfix(EmitAll(ps) + "$") && EmitAll(ps) + "$" != "" && (EmitAll(ps) + "$")[0] != ')'
  {
    if ps != [] {
      assert Emit(ps[0]) != "";
      assert (EmitAll(ps) + "$")[0] == Emit(ps[0])[0];
    }
  }

  /** One item and the parts after it make up the parts of the whole text. */
  lemma ParseItem(s: string, item: Regex, left: string, parts: seq<Regex>, rest: string)
    requires s != "" && s[0] != ')' && ParseAtom(s).Some?
    requires var atom := ParseAtom(s).value; ParsePostfix(atom.value, atom.rest) == Parsed(item, left)
    requires ParseParts(left) == Some(Parsed(parts, rest))
    ensures ParseParts(s) == Some(Parsed([item] + parts, rest))
  {
  }

  lemma ParseSlash(closing: string)
    requires closing != "" && closing[0] == ')'
    ensures ParseParts("/" + closing) == Some(Parsed([Char('/')], closing))
  {
    assert ("/" + closing)[1..] == closing;
    ParseItem("/" + closing, Char('/'), closing, [], closing);
    assert [Char('/')] + [] == [Char('/')];
  }

  lemma ParseGroupBody(left: string)
    ensures ParseParts(".*/)" + left) == Some(Parsed([Star(Dot), Char('/')], ")" + left))
  {
    var inner, closing := "*/)" + left, ")" + left;
    assert (".*/)" + left)[1..] == inner && inner[1..] == "/" + closing;
    ParseSlash(closing);
    ParseItem(".*/)" + left, Star(Dot), "/" + closing, [Char('/')], closing);
    assert [Star(Dot)] + [Char('/')] == [Star(Dot), Char('/')];
  }

  lemma ParseAnyDirs(rest: string)
    ensures var s := "(?:.*/)?" + rest;
      ParseAtom(s) == Some(Parsed(Sequence([Star(Dot), Char('/')]), "?" + rest)) &&
      ("?" + rest)[1..] == rest
  {
    var s := "(?:.*/)?" + rest;
    ParseGroupBody("?" + rest);
    assert GROUP <= s && s[3..] == ".*/)" + ("?" + rest);
    assert (")" + ("?" + rest))[1..] == "?" + rest;
  }

  /** Each emitted piece is read back as one item, whatever plain text follows. */
  lemma ParseOnePiece(p: Piece, rest: string)
    requires p != Literal('*') && p != Literal('?') && NoPostfix(rest)
    ensures Emit(p) + rest != "" && (Emit(p) + rest)[0] != ')'
    ensures ParseAtom(Emit(p) + rest).Some?
    ensures var atom := ParseAtom(Emit(p) + rest).value; ParsePostfix(atom.value, atom.rest) == Parsed(Meaning(p), rest)
  {
    var s := Emit(p) + rest;
    match p {
      case AnyDirs => ParseAnyDirs(rest);
      case AnyText => assert s[1..] == "*" + rest && s[1..][1..] == rest;
      case AnyName => assert CLASS <= s && s[4..] == "*" + rest && s[4..][1..] == rest;
      case OneChar => assert CLASS <= s && s[4..] == rest;
      case Literal(c) => assert if Escaped(c) then s[2..] == rest else s[1..] == rest;
    }
  }

  lemma {:induction false} ParsePieces(ps: seq<Piece>)
    requires FromGlob(ps)
    ensures ParseParts(EmitAll(ps) + "$") == Some(Parsed(Meanings(ps), ""))
    decreases |ps|
  {
    if ps == [] {
      assert EmitAll(ps) + "$" == "$" && "$"[1..] == "";
      ParseItem("$", End, "", [], "");
      assert [End] + [] == [End];
    } else {
      var rest := EmitAll(ps[1..]) + "$";
      ParsePieces(ps[1..]);
      EmitStartsPlain(ps[1..]);
      ConcatAssoc(Emit(ps[0]), EmitAll(ps[1..]), "$");
      ParseOnePiece(ps[0], rest);
      ParseItem(Emit(ps[0]) + rest, Meaning(ps[0]), rest, Meanings(ps[1..]), "");
    }
  }

  /** The compiled text of every glob is well formed, so no pattern is ever dropped. */
  lemma CompiledTextParses(glob: string)
    ensures Parse(CompiledText(glob)) == Some(Sequence([Start] + Meanings(Pieces(glob))))
  {
    var tail := EmitAll(Pieces(glob)) + "$";
    PiecesFromGlob(glob);
    ParsePieces(Pieces(glob));
    EmitStartsPlain(Pieces(glob));
    assert CompiledText(glob)[1..] == tail;
    ParseItem(CompiledText(glob), Start, tail, Meanings(Pieces(glob)), "");
  }

  // ---------------------------------------------------------------- what the expression accepts

  lemma {:induction false} StarDotMatches(s: string, i: nat, j: nat)
    ensures Matches(Star(Dot), s, i, j) <==> i <= j <= |s| && '\n' !in s[i..j]
    decreases j - i
  {
    if i < j <= |s| {
      assert s[i..j] == [s[i]] + s[i + 1..j];
      StarDotMatches(s, i + 1, j);
      if s[i] != '\n' { assert Matches(Dot, s, i, i + 1); }
    }
  }

  lemma {:induction false} StarNotSlashMatches(s: string, i: nat, j: nat)
    ensures Matches(Star(NotSlash), s, i, j) <==> i <= j <= |s| && '/' !in s[i..j]
    decreases j - i
  {
    if i < j <= |s| {
      assert s[i..j] == [s[i]] + s[i + 1..j];
      StarNotSlashMatches(s, i + 1, j);
      if s[i] != '/' { assert Matches(NotSlash, s, i, i + 1); }
    }
  }

  /** A leading-directories group: anything on the line, then a slash. */
  lemma DirsMatch(s: string, i: nat, j: nat)
    ensures Matches(Sequence([Star(Dot), Char('/')]), s, i, j)
      <==> i < j <= |s| && s[j - 1] == '/' && '\n' !in s[i..j]
  {
    var slash := [Char('/')];
    var parts := [Star(Dot)] + slash;
    assert parts == [Star(Dot), Char('/')] && parts[1..] == slash && slash[1..] == [];
    forall m: nat
      ensures MatchesAll(slash, s, m, j) <==> m + 1 == j && j <= |s| && s[m] == '/'
    {
      if m + 1 == j && j <= |s| && s[m] == '/' {
        assert Matches(slash[0], s, m, j) && MatchesAll(slash[1..], s, j, j);
      }
    }
    if i < j <= |s| {
      StarDotMatches(s, i, j - 1);
      assert s[i..j] == s[i..j - 1] + [s[j - 1]];
    }
  }

  /** What an emitted item matches is what its piece covers, with the two-star forms kept on one line. */
  lemma MeaningCovers(p: Piece, s: string, i: nat, j: nat)
    ensures Matches(Meaning(p), s, i, j) <==> i <= j <= |s| && Covers(p, s[i..j], false)
  {
    StarDotMatches(s, i, j);
    StarNotSlashMatches(s, i, j);
    DirsMatch(s, i, j);
  }

  lemma EndMatches(s: string, i: nat, j: nat)
    requires i <= |s|
    ensures MatchesAll([End], s, i, j) <==> j == |s| && s[i..] == ""
  {
    var items := [End];
    assert items[1..] == [];
    if MatchesAll(items, s, i, j) { var m := SplitFirst(items, s, i, j); }
    if j == |s| && s[i..] == "" { assert Matches(items[0], s, i, j) && MatchesAll(items[1..], s, j, j); }
  }

  lemma DenotesFirst(ps: seq<Piece>, s: string, i: nat, m: nat)
    requires ps != [] && i <= m <= |s| && Matches(Meaning(ps[0]), s, i, m) && Denotes(ps[1..], s[m..], false)
    ensures Denotes(ps, s[i..], false)
  {
    MeaningCovers(ps[0], s, i, m);
    assert s[i..][..m - i] == s[i..m] && s[i..][m - i..] == s[m..];
  }

  lemma DenotesSplit(ps: seq<Piece>, s: string, i: nat) returns (m: nat)
    requires ps != [] && i <= |s| && Denotes(ps, s[i..], false)
    ensures i <= m <= |s| && Matches(Meaning(ps[0]), s, i, m) && Denotes(ps[1..], s[m..], false)
  {
    var k :| 0 <= k <= |s[i..]| && Covers(ps[0], s[i..][..k], false) && Denotes(ps[1..], s[i..][k..], false);
    m := i + k;
    assert s[i..][..k] == s[i..m] && s[i..][k..] == s[m..];
    MeaningCovers(ps[0], s, i, m);
  }

  lemma {:induction false} MeaningsDenote(ps: seq<Piece>, s: string, i: nat, j: nat)
    requires i <= |s|
    ensures MatchesAll(Meanings(ps), s, i, j) <==> j == |s| && Denotes(ps, s[i..], false)
    decreases |ps|
  {
    var items := Meanings(ps);
    if ps == [] {
      EndMatches(s, i, j);
    } else {
      assert items[1..] == Meanings(ps[1..]);
      if MatchesAll(items, s, i, j) {
        var m := SplitFirst(items, s, i, j);
        MeaningsDenote(ps[1..], s, m, j);
        DenotesFirst(ps, s, i, m);
      }
      if j == |s| && Denotes(ps, s[i..], false) {
        var m := DenotesSplit(ps, s, i);
        MeaningsDenote(ps[1..], s, m, j);
        assert Matches(items[0], s, i, m) && MatchesAll(items[1..], s, m, j);
      }
    }
  }

  /** What the filter does with a glob: compile it, and search the text for the result. */
  predicate GlobMatches(glob: string, s: string)
  {
    Parse(CompiledText(glob)).Some? && IsMatch(Parse(CompiledText(glob)).value, s)
  }

  lemma AnchoredMatches(ps: seq<Piece>, s: string, i: nat, j: nat)
    ensures Matches(Sequence([Start] + Meanings(ps)), s, i, j) <==> i == 0 && j == |s| && Denotes(ps, s, false)
  {
    var parts := [Start] + Meanings(ps);
    assert s[0..] == s && parts[1..] == Meanings(ps);
    MeaningsDenote(ps, s, 0, j);
    if Matches(Sequence(parts), s, i, j) {
      var m := SplitFirst(parts, s, i, j);
    }
    if i == 0 && j == |s| && Denotes(ps, s, false) {
      assert Matches(parts[0], s, 0, 0) && MatchesAll(parts[1..], s, 0, j);
    }
  }

  /** The anchored expression accepts exactly what the glob denotes when two stars stay on one line. */
  lemma CompiledGlobDenotes(glob: string, s: string)
    ensures GlobMatches(glob, s) <==> Denotes(Pieces(glob), s, false)
  {
    var ps := Pieces(glob);
    CompiledTextParses(glob);
    forall i: nat, j: nat | i <= |s| && j <= |s|
      ensures Matches(Sequence([Start] + Meanings(ps)), s, i, j) <==> i == 0 && j == |s| && Denotes(ps, s, false)
    {
      AnchoredMatches(ps, s, i, j);
    }
    if Denotes(ps, s, false) {
      assert Matches(Sequence([Start] + Meanings(ps)), s, 0, |s|);
    }
  }

  /** On text without line breaks, compilation preserves the meaning of every glob. */
  lemma CompilationPreservesMeaning(glob: string, s: string)
    requires '\n' !in s
    ensures GlobMatches(glob, s) <==> Denotes(Pieces(glob), s, true)
  {
    CompiledGlobDenotes(glob, s);
    OneLineAgrees(Pieces(glob), s);
  }

  lemma TwoStars(s: string, multiline: bool)
    ensures Denotes(Pieces("**"), s, multiline) <==> multiline || '\n' !in s
  {
    assert "**"[2..] == "" && Pieces("**") == [AnyText];
    assert s[..|s|] == s && s[|s|..] == "";
    if multiline || '\n' !in s {
      assert Covers(AnyText, s[..|s|], multiline) && Denotes([AnyText][1..], s[|s|..], multiline);
    }
  }

  /** The lines are where it stops: with a line break in the text, some glob is misread. */
  lemma MeaningPreservedIff(s: string)
    ensures (forall glob: string :: GlobMatches(glob, s) <==> Denotes(Pieces(glob), s, true)) <==> '\n' !in s
  {
    if '\n' !in s {
      forall glob: string ensures GlobMatches(glob, s) <==> Denotes(Pieces(glob), s, true) {
        CompilationPreservesMeaning(glob, s);
      }
    } else {
      TwoStars(s, true);
      TwoStars(s, false);
      CompiledGlobDenotes("**", s);
    }
  }

  /** Two stars stand for any text, and the expression refuses one with a line break. */
  lemma LineBreakExample()
    ensures Denotes(Pieces("**"), "a\nb", true) && !GlobMatches("**", "a\nb")
  {
    var s := "a\nb";
    assert s[1] == '\n';
    TwoStars(s, true);
    TwoStars(s, false);
    CompiledGlobDenotes("**", s);
  }

  // ---------------------------------------------------------------- the filter

  predicate AnyMatches(globs: seq<string>, s: string) {
    exists i :: 0 <= i < |globs| && GlobMatches(globs[i], s)
  }

  /** The expressions of the globs, in order; none is missing. */
  predicate CompiledFrom(regexes: seq<Regex>, globs: seq<string>) {
    |regexes| == |globs| &&
    forall i :: 0 <= i < |globs| ==> Parse(CompiledText(globs[i])) == Some(regexes[i])
  }

  /** Keeps the globs that compile, which is all of them. */
  method CompileAll(globs: seq<string>) returns (regexes: seq<Regex>)
    ensures CompiledFrom(regexes, globs)
  {
    regexes := [];
    for i := 0 to |globs|
      invariant CompiledFrom(regexes, globs[..i])
    {
      var text, regex := GlobToRegex(globs[i]);
      CompiledTextParses(globs[i]);
      if regex.Some? {
        regexes := regexes + [regex.value];
      }
    }
    assert globs[..|globs|] == globs;
  }

  ghost predicate AnyDenotes(globs: seq<string>, s: string) {
    exists i :: 0 <= i < |globs| && Denotes(Pieces(globs[i]), s, true)
  }

  /** Hence a one-line path is decided by the globs' own meaning. */
  lemma AnyMatchesDenotes(globs: seq<string>, s: string)
    requires '\n' !in s
    ensures AnyMatches(globs, s) <==> AnyDenotes(globs, s)
  {
    forall i | 0 <= i < |globs| ensures GlobMatches(globs[i], s) <==> Denotes(Pieces(globs[i]), s, true) {
      CompilationPreservesMeaning(globs[i], s);
    }
  }

  /** The search through one list of expressions. */
  method SomeMatch(regexes: seq<Regex>, s: string, ghost globs: seq<string>) returns (found: bool)
    requires CompiledFrom(regexes, globs)
    ensures found <==> AnyMatches(globs, s)
  {
    for i := 0 to |regexes|
      invariant forall k :: 0 <= k < i ==> !GlobMatches(globs[k], s)
    {
      assert GlobMatches(globs[i], s) <==> IsMatch(regexes[i], s);
      if IsMatch(regexes[i], s) {
        return true;
      }
    }
    return false;
  }

  class MicroInputFilter {
    const includeRegexes: seq<Regex>
    const excludeRegexes: seq<Regex>

    ghost const includes: seq<string>

    ghost const excludes: seq<string>

    ghost predicate Valid() {
      CompiledFrom(includeRegexes, includes) && CompiledFrom(excludeRegexes, excludes)
    }

    constructor (includeGlobs: seq<string>, excludeGlobs: seq<string>)
      ensures Valid() && includes == includeGlobs && excludes == excludeGlobs
    {
      var included := CompileAll(includeGlobs);
      var excluded := CompileAll(excludeGlobs);
      includeRegexes, excludeRegexes := included, excluded;
      includes, excludes := includeGlobs, excludeGlobs;
    }

    /** No exclude matches, and there are no includes or one of them matches. */
    method Matches(relativePath: string) returns (accepted: bool)
      requires Valid()
      ensures var s := ForwardSlashes(relativePath);
        accepted <==> !AnyMatches(excludes, s) && (includes == [] || AnyMatches(includes, s))
      ensures var s := ForwardSlashes(relativePath);
        '\n' !in relativePath ==>
          (accepted <==> !AnyDenotes(excludes, s) && (includes == [] || AnyDenotes(includes, s)))
    {
      var normalized := ForwardSlashes(relativePath);
      if '\n' !in relativePath {
        AnyMatchesDenotes(includes, normalized);
        AnyMatchesDenotes(excludes, normalized);
      }
      var excluded := SomeMatch(excludeRegexes, normalized, excludes);
      if excluded {
        return false;
      }
      if |includeRegexes| == 0 {
        return true;
      }
      accepted := SomeMatch(includeRegexes, normalized, includes);
    }
  }
}
