/** Protocol paths: relative, '/'-separated, without empty, dot or dot-dot components. */
module Paths {
  import opened Prelude
  import opened Bytes

  const SLASH: byte := 47
  const DOT: byte := 46

  datatype PathError = Empty | Absolute | Nul | EmptyComponent | DotComponent | DotDotComponent

  /** The bytes before the first '/', or all of them. */
  function FirstComponent(s: Bytes): (c: Bytes)
    ensures |c| <= |s| && c == s[..|c|]
    ensures |c| < |s| ==> s[|c|] == SLASH
  {
    if |s| == 0 || s[0] == SLASH then [] else [s[0]] + FirstComponent(s[1..])
  }

  function CheckComponents(s: Bytes): Result<(), PathError>
    decreases |s|
  {
    var c := FirstComponent(s);
    if c == [] then Err(EmptyComponent)
    else if c == [DOT] then Err(DotComponent)
    else if c == [DOT, DOT] then Err(DotDotComponent)
    else if |c| == |s| then Ok(())
    else CheckComponents(s[|c| + 1..])
  }

  function ParsePath(s: Bytes): (r: Result<Bytes, PathError>)
    ensures r.Ok? ==> r.value == s && |s| > 0
  {
    if s == [] then Err(Empty)
    else if s[0] == SLASH then Err(Absolute)
    else if 0 in s then Err(Nul)
    else
      var _ :- CheckComponents(s);
      Ok(s)
  }
}
