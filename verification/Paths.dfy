/** Paths as text. */
module Paths {
  type Path = string

  /** The path with forward slashes only. */
  function ForwardSlashes(path: Path): (r: string)
    ensures |r| == |path|
    ensures forall i :: 0 <= i < |path| ==> r[i] == if path[i] == '\\' then '/' else path[i]
  {
    if path == "" then "" else [if path[0] == '\\' then '/' else path[0]] + ForwardSlashes(path[1..])
  }
}
