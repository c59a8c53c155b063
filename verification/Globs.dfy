/** Globs as they are documented, independent of any regular expression. */
module Globs {

  /** The pieces of a glob. */
  datatype Piece = AnyDirs | AnyText | AnyName | OneChar | Literal(c: char)

  /**
    Reads a glob from the front: two stars and a slash, two stars, one star, a question mark, or any other
    character.
   */
  function Pieces(glob: string): seq<Piece> {
    if glob == "" then []
    else if glob[0] == '*' then
      if |glob| > 1 && glob[1] == '*' then
        if |glob| > 2 && glob[2] == '/' then [AnyDirs] + Pieces(glob[3..])
        else [AnyText] + Pieces(glob[2..])
      else [AnyName] + Pieces(glob[1..])
    else if glob[0] == '?' then [OneChar] + Pieces(glob[1..])
    else [Literal(glob[0])] + Pieces(glob[1..])
  }

  /**
    What one piece stands for. `multiline` says whether the two-star forms run across line breaks,
    which a glob promises and the compiled expression does not.
   */
  predicate Covers(p: Piece, s: string, multiline: bool) {
    match p
    case AnyDirs => s == "" || (s[|s| - 1] == '/' && (multiline || '\n' !in s))
    case AnyText => multiline || '\n' !in s
    case AnyName => '/' !in s
    case OneChar => |s| == 1 && s[0] != '/'
    case Literal(c) => s == [c]
  }

  /** The text is the pieces' parts one after the other. */
  ghost predicate Denotes(ps: seq<Piece>, s: string, multiline: bool) {
    if ps == [] then s == ""
    else exists k :: 0 <= k <= |s| && Covers(ps[0], s[..k], multiline) && Denotes(ps[1..], s[k..], multiline)
  }

  /** On text without line breaks both readings agree. */
  lemma {:induction false} OneLineAgrees(ps: seq<Piece>, s: string)
    requires '\n' !in s
    ensures Denotes(ps, s, true) <==> Denotes(ps, s, false)
    decreases |ps|
  {
    if ps != [] {
      forall k | 0 <= k <= |s|
        ensures Covers(ps[0], s[..k], true) <==> Covers(ps[0], s[..k], false)
        ensures Denotes(ps[1..], s[k..], true) <==> Denotes(ps[1..], s[k..], false)
      {
        OneLineAgrees(ps[1..], s[k..]);
      }
    }
  }
}
