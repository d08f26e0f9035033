/** `get_joinable_rear_path`: a path made fit to be the later argument of
    a path join by dropping every leading `/`. */
module RearPath {

  /** A run of `k` slashes. */
  function Slashes(k: nat): (s: string)
    ensures |s| == k && forall i :: 0 <= i < k ==> s[i] == '/'
  {
    seq(k, _ => '/')
  }

  /** Python's `s.startswith('/')`. */
  predicate StartsWithSlash(s: string): (b: bool)
    ensures b <==> "/" <= s
  {
    |s| > 0 && s[0] == '/'
  }

  /** Strip leading slashes, one per recursive step. */
  function JoinableRearPath(path: string): (r: string)
    ensures !StartsWithSlash(r)
    ensures |r| <= |path| && path == Slashes(|path| - |r|) + r
    decreases |path|
  {
    if StartsWithSlash(path) then
      var r := JoinableRearPath(path[1..]);
      assert path == Slashes(1) + path[1..];
      assert Slashes(1) + Slashes(|path| - 1 - |r|) == Slashes(|path| - |r|);
      r
    else
      assert Slashes(0) + path == path;
      path
  }

  /** The inverse direction: prepending any number of slashes to a path
      that does not start with one, then stripping, gives it back. */
  lemma {:induction false} StripSlashes(k: nat, rest: string)
    requires !StartsWithSlash(rest)
    ensures JoinableRearPath(Slashes(k) + rest) == rest
  {
    if k == 0 {
      assert Slashes(0) + rest == rest;
    } else {
      var p := Slashes(k) + rest;
      assert p[1..] == Slashes(k - 1) + rest;
      StripSlashes(k - 1, rest);
    }
  }

  /** Stripping is idempotent. */
  lemma Idempotent(path: string)
    ensures JoinableRearPath(JoinableRearPath(path)) == JoinableRearPath(path)
  {
  }
}
