/**
 * `isVerifiedResFork` (macresforks.c:107-142): a path is a verified resource
 * fork when its base name starts with "._" and the path formed from its
 * directory, a '/', and the base name without that prefix exists. The
 * existence test (`access(path, F_OK)`) is the oracle `fileExists`.
 */
module ResFork {
  import opened Bytes
  import opened PosixPath
  import opened NullDelimited

  /** The naming convention of a resource-fork companion file. */
  predicate HasForkPrefix(base: seq<byte>)
  {
    |base| >= 2 && base[0] == DOT && base[1] == UNDERSCORE
  }

  /**
   * The primary-file path that the companion `str` stands for. It is never
   * longer than `str`, so it fits a scratch buffer of `strlen(str) + 1` bytes.
   */
  function Candidate(str: Path): (c: Path)
    requires HasForkPrefix(Basename(str))
    ensures |c| <= |str|
  {
    ComponentsFit(str);
    Dirname(str) + [SLASH] + Basename(str)[2..]
  }

  /**
   * The path whose existence the verifier asks about, or None when the base
   * name does not follow the convention and no question is asked.
   */
  function Query(str: Path): (q: Option<Path>)
    ensures q.Some? ==> |q.value| <= |str|
  {
    if HasForkPrefix(Basename(str)) then
      Some(Candidate(str))
    else None
  }

  /** The verdict of `isVerifiedResFork` under the filesystem `fileExists`. */
  function IsVerifiedResFork(str: Path, fileExists: Path -> bool): (verified: bool)
    ensures verified ==> HasForkPrefix(Basename(str)) && fileExists(Candidate(str))
  {
    match Query(str)
    case None => false
    case Some(candidate) => fileExists(candidate)
  }

  /**
   * A path whose base name lacks the "._" prefix, including one whose base
   * name is shorter than two bytes, is rejected without asking the oracle:
   * the verdict is false whatever the filesystem holds.
   */
  lemma RejectedWithoutQuery(str: Path, fileExists: Path -> bool)
    requires !HasForkPrefix(Basename(str))
    ensures Query(str) == None
    ensures !IsVerifiedResFork(str, fileExists)
  {
  }

  /**
   * A path whose base name carries the prefix is accepted exactly when its
   * candidate exists.
   */
  lemma AcceptedIffCandidateExists(str: Path, fileExists: Path -> bool)
    requires HasForkPrefix(Basename(str))
    ensures Query(str) == Some(Dirname(str) + [SLASH] + Basename(str)[2..])
    ensures IsVerifiedResFork(str, fileExists) <==> fileExists(Dirname(str) + [SLASH] + Basename(str)[2..])
  {
  }

  /** The verdict depends on the filesystem only through the one queried path. */
  lemma VerdictDependsOnQueryOnly(str: Path, e1: Path -> bool, e2: Path -> bool)
    requires Query(str) == None || e1(Query(str).value) == e2(Query(str).value)
    ensures IsVerifiedResFork(str, e1) == IsVerifiedResFork(str, e2)
  {
  }

  /** The empty path (base name ".") and "/"-only paths are never forks. */
  lemma DegeneratePathsRejected(slashes: seq<byte>, fileExists: Path -> bool)
    requires slashes != [] && AllSlashes(slashes)
    ensures Query([]) == None && !IsVerifiedResFork([], fileExists)
    ensures Query(slashes) == None && !IsVerifiedResFork(slashes, fileExists)
  {
    DegeneratePaths(slashes);
  }

  /**
   * The candidate names the same directory and differs from the input only
   * in losing the two bytes right after the last separator: for
   * `dir + "/" + "._" + name` it is `dir + "/" + name`.
   */
  lemma CandidateInSameDirectory(dir: Path, name: Path)
    requires dir != [] && dir[|dir| - 1] != SLASH
    requires SLASH !in name
    ensures Query(dir + [SLASH] + [DOT, UNDERSCORE] + name) == Some(dir + [SLASH] + name)
  {
    var base := [DOT, UNDERSCORE] + name;
    assert SLASH !in base;
    SplitWithDirectory(dir, [SLASH], base, []);
    assert dir + [SLASH] + base + [] == dir + [SLASH] + [DOT, UNDERSCORE] + name;
    assert base[2..] == name;
  }

  /** Without a directory the candidate is relative to ".": `"._" + name` gives `"./" + name`. */
  lemma CandidateInCurrentDirectory(name: Path)
    requires SLASH !in name
    ensures Query([DOT, UNDERSCORE] + name) == Some([DOT, SLASH] + name)
  {
    var base := [DOT, UNDERSCORE] + name;
    assert SLASH !in base;
    SplitWithoutDirectory(base, []);
    assert base + [] == base;
    assert base[2..] == name;
    assert HasForkPrefix(base);
    assert [DOT] + [SLASH] + name == [DOT, SLASH] + name;
  }

  /**
   * A base name of exactly "._" is not special-cased: the candidate is the
   * directory followed by '/'.
   */
  lemma BareDotUnderscore(dir: Path)
    requires dir != [] && dir[|dir| - 1] != SLASH
    ensures Query(dir + [SLASH, DOT, UNDERSCORE]) == Some(dir + [SLASH])
  {
    CandidateInSameDirectory(dir, []);
    assert dir + [SLASH] + [DOT, UNDERSCORE] + [] == dir + [SLASH, DOT, UNDERSCORE];
    assert dir + [SLASH] + [] == dir + [SLASH];
  }

  /**
   * `isVerifiedResFork` as the source runs it: the base name is taken from a
   * private copy of `str`, and only when it carries the prefix is the
   * candidate assembled in a scratch buffer of `strlen(str) + 1` bytes and
   * handed to the oracle. `str` is a value and cannot change. Returns the
   * verdict and the path handed to the oracle, if any.
   */
  method CheckResFork(str: Path, fileExists: Path -> bool) returns (verified: bool, queried: Option<Path>)
    requires NUL !in str
    ensures queried == Query(str)
    ensures verified == IsVerifiedResFork(str, fileExists)
  {
    var base := Basename(str);
    var nbase := |base|;
    if nbase < 2 || base[0] != DOT || base[1] != UNDERSCORE {
      return false, None;
    }
    var dir := Dirname(str);
    ComponentsFit(str);
    var tmp := new byte[|str| + 1];
    var candidate := AssembleCandidate(tmp, dir, base);
    queried := Some(candidate);
    verified := fileExists(candidate);
  }

  /**
   * The assembly of the candidate in the scratch buffer `tmp`: the directory
   * and its terminator (`strcpy(tmp, dir)`), a '/' over that terminator, then
   * the base name from its third byte up to and including its terminator.
   * Every write lands inside the buffer, and the bytes before the first NUL
   * are `dir + "/" + base[2..]`.
   */
  method AssembleCandidate(tmp: array<byte>, dir: Path, base: Path) returns (candidate: Path)
    requires |base| >= 2 && NUL !in base
    requires |dir| + |base| <= tmp.Length
    modifies tmp
    ensures candidate == dir + [SLASH] + base[2..]
    ensures tmp[..|candidate| + 1] == candidate + [NUL]
  {
    var ndir := |dir|;
    var nbase := |base|;
    CopyString(tmp, dir);
    tmp[ndir] := SLASH;

    var terminated := base + [NUL];
    var x := 0;
    while x < nbase - 2 + 1
      invariant 0 <= x <= nbase - 1
      invariant tmp[..ndir + 1] == dir + [SLASH]
      invariant forall j :: ndir + 1 <= j < ndir + 1 + x ==> tmp[j] == terminated[j - ndir + 1]
    {
      tmp[ndir + 1 + x] := terminated[x + 2];
      x := x + 1;
    }

    var end := ndir + 1 + nbase - 2;
    candidate := tmp[..end];
    assert candidate == dir + [SLASH] + base[2..];
    assert tmp[end] == NUL;
    assert tmp[..end + 1] == candidate + [NUL];
  }

  /** `strcpy(dst, src)`: the bytes of `src` and a terminator at the front of `dst`. */
  method CopyString(dst: array<byte>, src: seq<byte>)
    requires |src| < dst.Length
    modifies dst
    ensures dst[..|src| + 1] == src + [NUL]
    ensures dst[|src| + 1..] == old(dst[|src| + 1..])
  {
    var i := 0;
    while i < |src|
      invariant 0 <= i <= |src|
      invariant dst[..i] == src[..i]
      invariant dst[|src| + 1..] == old(dst[|src| + 1..])
    {
      dst[i] := src[i];
      i := i + 1;
    }
    dst[|src|] := NUL;
  }
}
