/** The fragment of regular expression syntax that compiled globs use. Other text does not parse. */
module Regexes {
  import opened Options

  datatype Regex =
    | Start
    | End
    | Char(c: char)
    | Dot
    | NotSlash
    | Sequence(parts: seq<Regex>)
    | Star(r: Regex)
    | Maybe(r: Regex)

  predicate IsMeta(c: char) {
    c in {'\\', '.', '+', '*', '?', '(', ')', '|', '[', ']', '{', '}', '^', '$'}
  }

  // ---------------------------------------------------------------- meaning

  /** The expression matches the text from position i to position j. A dot stops at line breaks, the class does not. */
  predicate Matches(r: Regex, s: string, i: nat, j: nat)
    decreases r, 1, j - i
  {
    i <= j <= |s| &&
    match r
    case Start => i == j == 0
    case End => i == j == |s|
    case Char(c) => j == i + 1 && s[i] == c
    case Dot => j == i + 1 && s[i] != '\n'
    case NotSlash => j == i + 1 && s[i] != '/'
    case Sequence(parts) => MatchesAll(parts, s, i, j)
    case Star(body) => i == j || exists m: nat :: i < m <= j && Matches(body, s, i, m) && Matches(r, s, m, j)
    case Maybe(body) => i == j || Matches(body, s, i, j)
  }

  predicate MatchesAll(parts: seq<Regex>, s: string, i: nat, j: nat)
    decreases parts, 0, 0
  {
    i <= j <= |s| &&
    if parts == [] then i == j
    else exists m: nat :: i <= m <= j && Matches(parts[0], s, i, m) && MatchesAll(parts[1..], s, m, j)
  }

  lemma {:induction false} SplitFirst(parts: seq<Regex>, s: string, i: nat, j: nat) returns (m: nat)
    requires parts != [] && MatchesAll(parts, s, i, j)
    ensures i <= m <= j <= |s| && Matches(parts[0], s, i, m) && MatchesAll(parts[1..], s, m, j)
  {
    m :| i <= m <= j && Matches(parts[0], s, i, m) && MatchesAll(parts[1..], s, m, j);
  }

  /** The search the filter runs: a match anywhere in the text. */
  predicate IsMatch(r: Regex, s: string) {
    exists i: nat, j: nat :: i <= |s| && j <= |s| && Matches(r, s, i, j)
  }

  // ---------------------------------------------------------------- syntax

  datatype Parsed<T> = Parsed(value: T, rest: string)

  /** The class that excludes the slash, the only one in the fragment. */
  const CLASS := "[^/]"

  const GROUP := "(?:"

  /** An atom: an escape, an anchor, the dot, the class, a group or a plain character. */
  function ParseAtom(s: string): (r: Option<Parsed<Regex>>)
    ensures r.Some? ==> |r.value.rest| < |s|
    decreases |s|, 0
  {
    if s == "" then None
    else if s[0] == '\\' then
      if |s| > 1 && IsMeta(s[1]) then Some(Parsed(Char(s[1]), s[2..])) else None
    else if s[0] == '^' then Some(Parsed(Start, s[1..]))
    else if s[0] == '$' then Some(Parsed(End, s[1..]))
    else if s[0] == '.' then Some(Parsed(Dot, s[1..]))
    else if s[0] == '[' then
      if CLASS <= s then Some(Parsed(NotSlash, s[4..])) else None
    else if s[0] == '(' then
      if GROUP <= s then
        match ParseParts(s[3..])
        case Some(body) =>
          if body.rest != "" && body.rest[0] == ')' then Some(Parsed(Sequence(body.value), body.rest[1..])) else None
        case None => None
      else None
    else if IsMeta(s[0]) then None
    else Some(Parsed(Char(s[0]), s[1..]))
  }

  /** A postfix operator, if one follows. */
  function ParsePostfix(r: Regex, s: string): Parsed<Regex> {
    if s != "" && s[0] == '*' then Parsed(Star(r), s[1..])
    else if s != "" && s[0] == '?' then Parsed(Maybe(r), s[1..])
    else Parsed(r, s)
  }

  /** Atoms with their operators, up to the end of the text or of the enclosing group. */
  function ParseParts(s: string): (r: Option<Parsed<seq<Regex>>>)
    ensures r.Some? ==> |r.value.rest| <= |s|
    decreases |s|, 1
  {
    if s == "" || s[0] == ')' then Some(Parsed([], s))
    else
      match ParseAtom(s)
      case None => None
      case Some(atom) =>
        var item := ParsePostfix(atom.value, atom.rest);
        match ParseParts(item.rest)
        case None => None
        case Some(more) => Some(Parsed([item.value] + more.value, more.rest))
  }

  function Parse(text: string): Option<Regex> {
    match ParseParts(text)
    case Some(p) => if p.rest == "" then Some(Sequence(p.value)) else None
    case None => None
  }
}
