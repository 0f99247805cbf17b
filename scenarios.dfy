/**
 * Whole runs of the filter on small inputs, derived from the general
 * lemmas: the companion of an existing file passes, a companion without its
 * primary file and an ordinary file do not, and a bare "._" asks about its
 * directory. Each is stated for any directory and name, then instantiated
 * with concrete paths.
 */
module Scenarios {
  import opened Bytes
  import opened PosixPath
  import opened NullDelimited
  import opened ResFork
  import opened Driver

  /** `dir + "/" + name` */
  function InDir(dir: Path, name: Path): Path
  {
    dir + [SLASH] + name
  }

  /** The resource-fork companion of `name`: `"._" + name`. */
  function Fork(name: Path): Path
  {
    [DOT, UNDERSCORE] + name
  }

  /** A directory as it appears before a separator in a well-formed path. */
  ghost predicate PlainDir(dir: Path)
  {
    dir != [] && dir[|dir| - 1] != SLASH && NUL !in dir
  }

  /** A name of an ordinary file. */
  ghost predicate PlainName(name: Path)
  {
    IsComponent(name) && NUL !in name && !HasForkPrefix(name)
  }

  lemma JoinOne(a: Path)
    ensures Join([a]) == a + [NUL]
  {
    assert [a][1..] == [];
  }

  lemma JoinTwo(a: Path, b: Path)
    ensures Join([a, b]) == a + [NUL] + b + [NUL]
  {
    assert [a, b][1..] == [b];
    JoinOne(b);
  }

  /** An ordinary file name is never passed through and never causes a query. */
  lemma OrdinaryFileRejected(dir: Path, name: Path, fileExists: Path -> bool)
    requires PlainDir(dir) && PlainName(name)
    ensures Query(InDir(dir, name)) == None
    ensures !IsVerifiedResFork(InDir(dir, name), fileExists)
  {
    SplitWithDirectory(dir, [SLASH], name, []);
    assert dir + [SLASH] + name + [] == InDir(dir, name);
    RejectedWithoutQuery(InDir(dir, name), fileExists);
  }

  /**
   * Input `dir/name\0dir/._name\0` (the wire form of the two paths) with
   * `dir/name` on disk: the output is
   * `dir/._name\0`.
   */
  lemma CompanionOfExistingFilePasses(dir: Path, name: Path, fileExists: Path -> bool)
    requires PlainDir(dir) && PlainName(name)
    requires fileExists(InDir(dir, name))
    ensures FilterOutput(Join([InDir(dir, name), InDir(dir, Fork(name))]), fileExists)
      == InDir(dir, Fork(name)) + [NUL]
  {
    var plain, fork := InDir(dir, name), InDir(dir, Fork(name));
    var accept := Verifier(fileExists);
    assert NUL !in Fork(name);
    FilterOutputOfTwo(plain, fork, fileExists);
    assert Emitted(plain, accept) == [] by {
      OrdinaryFileRejected(dir, name, fileExists);
      VerifierAccepts(fileExists, plain);
    }
    assert Emitted(fork, accept) == fork + [NUL] by {
      assert fork == dir + [SLASH] + [DOT, UNDERSCORE] + name;
      CandidateInSameDirectory(dir, name);
      VerifierAccepts(fileExists, fork);
    }
    assert [] + (fork + [NUL]) == fork + [NUL];
  }

  /** Input `dir/._name\0` with `dir/name` absent: nothing is written. */
  lemma CompanionWithoutPrimaryDropped(dir: Path, name: Path, fileExists: Path -> bool)
    requires PlainDir(dir) && SLASH !in name && NUL !in name
    requires !fileExists(InDir(dir, name))
    ensures FilterOutput(InDir(dir, Fork(name)) + [NUL], fileExists) == []
  {
    var fork := InDir(dir, Fork(name));
    JoinOne(fork);
    assert NUL !in Fork(name);
    assert NulFree([fork]);
    FilterOutputOfJoin([fork], fileExists);
    assert fork == dir + [SLASH] + [DOT, UNDERSCORE] + name;
    CandidateInSameDirectory(dir, name);
    assert Query(fork) == Some(InDir(dir, name));
    VerifierAccepts(fileExists, fork);
    SelectedOne(fork, Verifier(fileExists));
  }

  /**
   * Input `name\0` for an ordinary name without a directory: nothing is
   * written and the filesystem is never asked.
   */
  lemma UnprefixedNameNeverQueried(name: Path, fileExists: Path -> bool)
    requires PlainName(name)
    ensures Query(name) == None
    ensures FilterOutput(name + [NUL], fileExists) == []
  {
    JoinOne(name);
    assert NulFree([name]);
    FilterOutputOfJoin([name], fileExists);
    SplitWithoutDirectory(name, []);
    assert name + [] == name;
    RejectedWithoutQuery(name, fileExists);
    VerifierAccepts(fileExists, name);
    SelectedOne(name, Verifier(fileExists));
  }

  /**
   * Input `dir/._\0`: the base name "._" is not special-cased, so the
   * filesystem is asked about `dir/` and the path passes exactly when
   * `dir/` exists.
   */
  lemma BareForkAsksAboutDirectory(dir: Path, fileExists: Path -> bool)
    requires PlainDir(dir)
    ensures Query(InDir(dir, Fork([]))) == Some(dir + [SLASH])
    ensures FilterOutput(InDir(dir, Fork([])) + [NUL], fileExists) ==
      if fileExists(dir + [SLASH]) then InDir(dir, Fork([])) + [NUL] else []
  {
    var fork := InDir(dir, Fork([]));
    BareDotUnderscore(dir);
    assert dir + [SLASH, DOT, UNDERSCORE] == fork;
    JoinOne(fork);
    assert NulFree([fork]);
    FilterOutputOfJoin([fork], fileExists);
    VerifierAccepts(fileExists, fork);
    SelectedOne(fork, Verifier(fileExists));
  }

  /** "/tmp" */
  const Tmp: Path := [SLASH, 0x74, 0x6D, 0x70]
  /** "foo" */
  const Foo: Path := [0x66, 0x6F, 0x6F]
  /** "bar" */
  const Bar: Path := [0x62, 0x61, 0x72]
  /** "notes.txt" */
  const Notes: Path := [0x6E, 0x6F, 0x74, 0x65, 0x73, DOT, 0x74, 0x78, 0x74]
  /** "a" */
  const A: Path := [0x61]

  /** "/tmp/foo\0/tmp/._foo\0" with "/tmp/foo" present gives "/tmp/._foo\0". */
  lemma ScenarioExistingPrimary(fileExists: Path -> bool)
    requires fileExists(InDir(Tmp, Foo))
    ensures Join([InDir(Tmp, Foo), InDir(Tmp, Fork(Foo))])
      == InDir(Tmp, Foo) + [NUL] + InDir(Tmp, Fork(Foo)) + [NUL]
    ensures FilterOutput(Join([InDir(Tmp, Foo), InDir(Tmp, Fork(Foo))]), fileExists)
      == InDir(Tmp, Fork(Foo)) + [NUL]
  {
    JoinTwo(InDir(Tmp, Foo), InDir(Tmp, Fork(Foo)));
    CompanionOfExistingFilePasses(Tmp, Foo, fileExists);
  }

  /** "/tmp/._bar\0" with "/tmp/bar" absent gives no output. */
  lemma ScenarioMissingPrimary(fileExists: Path -> bool)
    requires !fileExists(InDir(Tmp, Bar))
    ensures FilterOutput(InDir(Tmp, Fork(Bar)) + [NUL], fileExists) == []
  {
    CompanionWithoutPrimaryDropped(Tmp, Bar, fileExists);
  }

  /** "notes.txt\0" gives no output and no query. */
  lemma ScenarioOrdinaryName(fileExists: Path -> bool)
    ensures Query(Notes) == None
    ensures FilterOutput(Notes + [NUL], fileExists) == []
  {
    UnprefixedNameNeverQueried(Notes, fileExists);
  }

  /** "a/._\0" asks about "a/". */
  lemma ScenarioBareFork(fileExists: Path -> bool)
    ensures Query(InDir(A, Fork([]))) == Some(A + [SLASH])
  {
    BareForkAsksAboutDirectory(A, fileExists);
  }
}
