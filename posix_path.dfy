/**
 * POSIX `basename` and `dirname` (IEEE Std 1003.1-2017, XSH "basename" and
 * "dirname") as pure functions on byte strings. The model follows the rules
 * every implementation shares: trailing slashes are ignored, the empty path
 * gives ".", a path without a slash has directory ".", and a path made only of
 * slashes gives "/". The implementation-defined treatment of a leading "//"
 * is not modelled.
 */
module PosixPath {
  import opened Bytes

  /** The longest prefix of `s` that does not end in '/'. */
  function StripTrailingSlashes(s: seq<byte>): (r: seq<byte>)
    ensures r <= s
    ensures r == [] || r[|r| - 1] != SLASH
    ensures forall i :: |r| <= i < |s| ==> s[i] == SLASH
  {
    if |s| > 0 && s[|s| - 1] == SLASH then StripTrailingSlashes(s[..|s| - 1]) else s
  }

  /** The index just past the last '/' in `t`, or 0 when `t` has no '/'. */
  function SegmentStart(t: seq<byte>): (k: nat)
    ensures k <= |t|
    ensures k > 0 ==> t[k - 1] == SLASH
    ensures forall i :: k <= i < |t| ==> t[i] != SLASH
  {
    if |t| == 0 then 0
    else if t[|t| - 1] == SLASH then |t|
    else SegmentStart(t[..|t| - 1])
  }

  /** POSIX basename: the final component of `path`. */
  function Basename(path: seq<byte>): (b: seq<byte>)
    ensures b != []
    ensures b == [SLASH] || b == [DOT] || SLASH !in b
  {
    if path == [] then [DOT]
    else
      var t := StripTrailingSlashes(path);
      if t == [] then [SLASH] else t[SegmentStart(t)..]
  }

  /** POSIX dirname: everything before the final component of `path`. */
  function Dirname(path: seq<byte>): (d: seq<byte>)
    ensures d != []
    ensures d == [SLASH] || d[|d| - 1] != SLASH
  {
    if path == [] then [DOT]
    else
      var t := StripTrailingSlashes(path);
      if t == [] then [SLASH]
      else
        var k := SegmentStart(t);
        if k == 0 then [DOT]
        else
          var h := StripTrailingSlashes(t[..k]);
          if h == [] then [SLASH] else h
  }

  /** A run of one or more slashes counts as a single separator. */
  ghost predicate AllSlashes(s: seq<byte>)
  {
    forall i :: 0 <= i < |s| ==> s[i] == SLASH
  }

  /** A single path component: non-empty and free of '/'. */
  ghost predicate IsComponent(b: seq<byte>)
  {
    b != [] && SLASH !in b
  }

  lemma {:induction false} StripOfSlashedSuffix(t: seq<byte>, trail: seq<byte>)
    requires t == [] || t[|t| - 1] != SLASH
    requires AllSlashes(trail)
    ensures StripTrailingSlashes(t + trail) == t
    decreases |trail|
  {
    if trail != [] {
      var shorter := trail[..|trail| - 1];
      assert (t + trail)[..|t + trail| - 1] == t + shorter;
      StripOfSlashedSuffix(t, shorter);
    } else {
      assert t + trail == t;
    }
  }

  lemma {:induction false} SegmentStartOfComponent(d: seq<byte>, b: seq<byte>)
    requires SLASH !in b
    requires d == [] || d[|d| - 1] == SLASH
    ensures SegmentStart(d + b) == |d|
    decreases |b|
  {
    if b != [] {
      var shorter := b[..|b| - 1];
      assert (d + b)[..|d + b| - 1] == d + shorter;
      assert (d + b)[|d + b| - 1] == b[|b| - 1];
      SegmentStartOfComponent(d, shorter);
    } else {
      assert d + b == d;
    }
  }

  /**
   * Reference characterisation, with a directory: for the path
   * `dir + sep + base + trail`, where `sep` is one or more slashes, `base` a
   * component and `trail` zero or more slashes, basename is `base` and
   * dirname is `dir` (or "/" when `dir` is empty).
   */
  lemma SplitWithDirectory(dir: seq<byte>, sep: seq<byte>, base: seq<byte>, trail: seq<byte>)
    requires dir == [] || dir[|dir| - 1] != SLASH
    requires sep != [] && AllSlashes(sep)
    requires IsComponent(base)
    requires AllSlashes(trail)
    ensures Basename(dir + sep + base + trail) == base
    ensures Dirname(dir + sep + base + trail) == if dir == [] then [SLASH] else dir
  {
    var path := dir + sep + base + trail;
    var t := dir + sep + base;
    assert path == t + trail;
    StripOfSlashedSuffix(t, trail);
    assert StripTrailingSlashes(path) == t;
    assert (dir + sep)[|dir + sep| - 1] == SLASH;
    SegmentStartOfComponent(dir + sep, base);
    assert SegmentStart(t) == |dir + sep|;
    assert t[|dir + sep|..] == base;
    assert t[..|dir + sep|] == dir + sep;
    StripOfSlashedSuffix(dir, sep);
  }

  /**
   * Reference characterisation, without a directory: for `base + trail`,
   * basename is `base` and dirname is ".".
   */
  lemma SplitWithoutDirectory(base: seq<byte>, trail: seq<byte>)
    requires IsComponent(base)
    requires AllSlashes(trail)
    ensures Basename(base + trail) == base
    ensures Dirname(base + trail) == [DOT]
  {
    StripOfSlashedSuffix(base, trail);
    SegmentStartOfComponent([], base);
    assert [] + base == base;
  }

  /** The empty path and all-slash paths: "." and "/" for both functions. */
  lemma {:induction false} DegeneratePaths(slashes: seq<byte>)
    requires slashes != [] && AllSlashes(slashes)
    ensures Basename([]) == [DOT] && Dirname([]) == [DOT]
    ensures Basename(slashes) == [SLASH] && Dirname(slashes) == [SLASH]
  {
    StripOfSlashedSuffix([], slashes);
    assert [] + slashes == slashes;
  }

  /**
   * Whenever basename is a real component (neither "." nor "/" stands in for
   * it), dirname and basename together are at most one byte longer than the
   * path; the extra byte is the "." that stands for a missing directory.
   */
  lemma ComponentsFit(path: seq<byte>)
    requires Basename(path) != [DOT] && Basename(path) != [SLASH]
    ensures |Dirname(path)| + |Basename(path)| <= |path| + 1
  {
    assert path != [];
    var t := StripTrailingSlashes(path);
    assert t != [];
    var k := SegmentStart(t);
    assert Basename(path) == t[k..];
    if k > 0 {
      var h := StripTrailingSlashes(t[..k]);
      assert Dirname(path) == if h == [] then [SLASH] else h;
    } else {
      assert Dirname(path) == [DOT];
    }
  }
}
