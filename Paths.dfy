/** `filepath.Base` on a system whose path separator is `/`. */
module Paths {
  import opened Bytes

  const Slash: byte := 0x2F
  const Dot: byte := 0x2E

  /** `path` without its trailing slashes. */
  function StripTrailingSlashes(path: Str): (r: Str)
    ensures r == [] || r[|r| - 1] != Slash
    ensures |r| <= |path| && r == path[..|r|]
    ensures forall i | |r| <= i < |path| :: path[i] == Slash
  {
    if path != [] && path[|path| - 1] == Slash then StripTrailingSlashes(path[..|path| - 1])
    else path
  }

  /** The bytes of `path` after its last slash. */
  function AfterLastSlash(path: Str): (r: Str)
    ensures Slash !in r
    ensures |r| <= |path| && path == path[..|path| - |r|] + r
    ensures |r| < |path| ==> path[|path| - |r| - 1] == Slash
    ensures path != [] && path[|path| - 1] != Slash ==> r != []
  {
    if path == [] || path[|path| - 1] == Slash then []
    else
      var r := AfterLastSlash(path[..|path| - 1]) + [path[|path| - 1]];
      assert path[..|path| - 1] == path[..|path| - |r|] + r[..|r| - 1];
      r
  }

  /** `filepath.Base`: the last element of `path`; "." for the empty path
      and "/" for a path made only of slashes. */
  function Base(path: Str): (r: Str)
    ensures r != []
    ensures r == [Slash] || Slash !in r
    ensures path != [] && path[|path| - 1] != Slash ==>
      exists q :: path == q + r && (q == [] || q[|q| - 1] == Slash)
  {
    if path == [] then [Dot]
    else
      var p := StripTrailingSlashes(path);
      if p == [] then [Slash]
      else
        var r := AfterLastSlash(p);
        assert p == path ==> path == path[..|path| - |r|] + r;
        r
  }
}
