/**
 * The filter loop of `main` (macresforks.c:172-182): every token read from
 * the input that `isVerifiedResFork` accepts is written to the output, in
 * order, followed by one NUL.
 */
module Driver {
  import opened Bytes
  import opened PosixPath
  import opened NullDelimited
  import opened Reader
  import opened ResFork

  /** The output stream: every byte written to it so far. */
  class OutStream {
    var written: seq<byte>

    constructor ()
      ensures written == []
    {
      written := [];
    }

    /** `fprintf`: appends `s` to what has been written. */
    method Write(s: seq<byte>)
      modifies this
      ensures written == old(written) + s
    {
      written := written + s;
    }
  }

  /** The tokens of `ts` that `accept` admits, in their original order. */
  function Selected(ts: seq<Path>, accept: Path -> bool): seq<Path>
  {
    if ts == [] then []
    else (if accept(ts[0]) then [ts[0]] else []) + Selected(ts[1..], accept)
  }

  /** The verifier under the filesystem `fileExists`, as a predicate on paths. */
  function Verifier(fileExists: Path -> bool): Path -> bool
  {
    t => IsVerifiedResFork(t, fileExists)
  }

  /** What the filter writes for the input `s`. */
  function FilterOutput(s: seq<byte>, fileExists: Path -> bool): seq<byte>
  {
    Join(Selected(Tokens(s), Verifier(fileExists)))
  }

  lemma {:induction false} SelectedAppend(a: seq<Path>, b: seq<Path>, accept: Path -> bool)
    ensures Selected(a + b, accept) == Selected(a, accept) + Selected(b, accept)
    decreases |a|
  {
    if a == [] {
      assert a + b == b;
    } else {
      assert (a + b)[1..] == a[1..] + b;
      SelectedAppend(a[1..], b, accept);
    }
  }

  /**
   * Selection keeps exactly the admitted tokens: a path is selected if and
   * only if it is one of the tokens and `accept` admits it.
   */
  lemma {:induction false} SelectedMembers(ts: seq<Path>, accept: Path -> bool, p: Path)
    ensures p in Selected(ts, accept) <==> p in ts && accept(p)
    decreases |ts|
  {
    if ts != [] {
      SelectedMembers(ts[1..], accept, p);
      assert ts == [ts[0]] + ts[1..];
    }
  }

  /** Selection never reorders: it is the whole list when every token is admitted. */
  lemma {:induction false} SelectedAll(ts: seq<Path>, accept: Path -> bool)
    requires forall i :: 0 <= i < |ts| ==> accept(ts[i])
    ensures Selected(ts, accept) == ts
    decreases |ts|
  {
    if ts != [] {
      assert accept(ts[0]);
      SelectedAll(ts[1..], accept);
    }
  }

  /** The verdict of `Verifier(fileExists)` on a path is that of the verifier. */
  lemma VerifierAccepts(fileExists: Path -> bool, t: Path)
    ensures Verifier(fileExists)(t) == IsVerifiedResFork(t, fileExists)
  {
  }

  /** A single token is kept exactly when `accept` admits it. */
  lemma SelectedOne(t: Path, accept: Path -> bool)
    ensures Selected([t], accept) == if accept(t) then [t] else []
  {
    assert [t][1..] == [];
  }

  /** On input written in the wire format, the filter selects among the written tokens. */
  lemma FilterOutputOfJoin(ts: seq<Path>, fileExists: Path -> bool)
    requires NulFree(ts)
    ensures FilterOutput(Join(ts), fileExists) == Join(Selected(ts, Verifier(fileExists)))
  {
    TokensJoin(ts);
  }

  /** On two NUL-free paths in wire form, the filter writes what each one earns. */
  lemma FilterOutputOfTwo(a: Path, b: Path, fileExists: Path -> bool)
    requires NUL !in a && NUL !in b
    ensures FilterOutput(Join([a, b]), fileExists) ==
      Emitted(a, Verifier(fileExists)) + Emitted(b, Verifier(fileExists))
  {
    var accept := Verifier(fileExists);
    var sa, sb := Selected([a], accept), Selected([b], accept);
    assert FilterOutput(Join([a, b]), fileExists) == Join(Selected([a, b], accept)) by {
      FilterOutputOfJoin([a, b], fileExists);
    }
    assert Selected([a, b], accept) == sa + sb by {
      assert [a, b] == [a] + [b];
      SelectedAppend([a], [b], accept);
    }
    assert Join(sa + sb) == Join(sa) + Join(sb) by {
      JoinAppend(sa, sb);
    }
    JoinSelectedOne(a, accept);
    JoinSelectedOne(b, accept);
  }

  /** Selecting among one token writes what that token earns. */
  lemma JoinSelectedOne(t: Path, accept: Path -> bool)
    ensures Join(Selected([t], accept)) == Emitted(t, accept)
  {
    SelectedOne(t, accept);
    assert Join([t]) == t + [NUL] + Join([]) by { assert [t][1..] == []; }
  }

  /**
   * The filter passes a path through if and only if it is one of the input's
   * tokens and the verifier accepts it.
   */
  lemma PassesIff(s: seq<byte>, fileExists: Path -> bool, p: Path)
    ensures p in Selected(Tokens(s), Verifier(fileExists)) <==>
      p in Tokens(s) && IsVerifiedResFork(p, fileExists)
  {
    SelectedMembers(Tokens(s), Verifier(fileExists), p);
  }

  /** When every token is accepted, the output is the input, terminated. */
  lemma AllAcceptedEchoesInput(s: seq<byte>, fileExists: Path -> bool)
    requires forall t :: t in Tokens(s) ==> IsVerifiedResFork(t, fileExists)
    ensures FilterOutput(s, fileExists) == Terminated(s)
  {
    var ts := Tokens(s);
    forall i | 0 <= i < |ts| ensures Verifier(fileExists)(ts[i]) {
      assert ts[i] in ts;
    }
    SelectedAll(ts, Verifier(fileExists));
    JoinTokens(s);
  }
  /** Dropping tokens never makes the written form longer. */
  lemma {:induction false} SelectedJoinShorter(ts: seq<Path>, accept: Path -> bool)
    ensures |Join(Selected(ts, accept))| <= |Join(ts)|
    decreases |ts|
  {
    if ts != [] {
      var head := if accept(ts[0]) then [ts[0]] else [];
      SelectedJoinShorter(ts[1..], accept);
      JoinAppend(head, Selected(ts[1..], accept));
      assert Join([ts[0]]) == ts[0] + [NUL] + Join([]);
    }
  }

  /**
   * The filter only removes paths: its output is never longer than the
   * input with its final terminator added.
   */
  lemma OutputNoLongerThanInput(s: seq<byte>, fileExists: Path -> bool)
    ensures |FilterOutput(s, fileExists)| <= |Terminated(s)|
  {
    SelectedJoinShorter(Tokens(s), Verifier(fileExists));
    JoinTokens(s);
  }


  /**
   * One round of the filter loop on the output side: processing one more
   * token grows the output by that token and a NUL exactly when `accept`
   * admits it.
   */
  lemma SelectStep(done: seq<Path>, t: Path, accept: Path -> bool)
    ensures Join(Selected(done + [t], accept)) == Join(Selected(done, accept)) + Emitted(t, accept)
  {
    var kept := Selected(done, accept);
    SelectedAppend(done, [t], accept);
    assert [t][1..] == [];
    if accept(t) {
      assert Selected([t], accept) == [t];
      JoinAppend(kept, [t]);
      assert Join([t]) == t + [NUL] + Join([]);
    } else {
      assert Selected([t], accept) == [];
      assert kept + [] == kept;
    }
  }

  lemma Reassociate(a: seq<byte>, b: seq<byte>, c: seq<byte>)
    ensures (a + b) + c == a + (b + c)
  {
  }

  /**
   * The output of the filter on the input `s`, read token by token as the
   * loop reads it.
   */
  function Filtered(s: seq<byte>, accept: Path -> bool): seq<byte>
    decreases |s|
  {
    if s == [] then [] else Emitted(Token(s), accept) + Filtered(s[Consumed(s)..], accept)
  }

  /** What the loop writes for one token: the token and a NUL, or nothing. */
  function Emitted(t: Path, accept: Path -> bool): seq<byte>
  {
    if accept(t) then t + [NUL] else []
  }

  /** Filtering token by token is selecting among all the tokens and joining them. */
  lemma {:induction false} FilteredIsJoinSelected(s: seq<byte>, accept: Path -> bool)
    ensures Filtered(s, accept) == Join(Selected(Tokens(s), accept))
    decreases |s|
  {
    if s != [] {
      var rest := s[Consumed(s)..];
      FilteredIsJoinSelected(rest, accept);
      SelectedAppend([Token(s)], Tokens(rest), accept);
      assert Tokens(s) == [Token(s)] + Tokens(rest);
      SelectStep([], Token(s), accept);
      assert [] + [Token(s)] == [Token(s)];
      JoinAppend(Selected([Token(s)], accept), Selected(Tokens(rest), accept));
    }
  }

  /**
   * The body of the filter loop for the C string held in `str`: the path is
   * judged and, when accepted, written followed by one NUL.
   */
  method EmitIfVerified(str: array<byte>, out: OutStream, fileExists: Path -> bool)
    modifies out
    ensures out.written == old(out.written) + Emitted(Token(str[..]), Verifier(fileExists))
  {
    // the C string held in str: its bytes before the first NUL
    var path := Token(str[..]);
    var verified, _ := CheckResFork(path, fileExists);
    if verified {
      // fprintf(stdout, "%s", str); fprintf(stdout, "%c", '\0')
      out.Write(path);
      out.Write([NUL]);
    }
  }

  /**
   * The filter loop. It stops at the first null from `NextStr`, which comes
   * only once the input is exhausted; by then it has written, in order and
   * each followed by one NUL, exactly the tokens the verifier accepts.
   */
  method Run(input: ByteStream, out: OutStream, fileExists: Path -> bool)
    requires input.Valid()
    modifies input, out
    ensures input.Valid() && input.Remaining() == []
    ensures out.written == old(out.written) + FilterOutput(old(input.Remaining()), fileExists)
  {
    ghost var accept := Verifier(fileExists);
    ghost var all := input.Remaining();
    ghost var before := all;
    var str := NextStr(input);
    while str != null
      invariant input.Valid()
      invariant str == null <==> before == []
      invariant str != null ==> str[..] == Token(before) + [NUL]
      invariant input.Remaining() == before[Consumed(before)..]
      invariant out.written + Filtered(before, accept) == old(out.written) + Filtered(all, accept)
      decreases |before|
    {
      ghost var written := out.written;
      TokenOfCString(Token(before));
      EmitIfVerified(str, out, fileExists);
      ghost var rest := before[Consumed(before)..];
      Reassociate(written, Emitted(Token(before), accept), Filtered(rest, accept));
      before := rest;
      str := NextStr(input);
    }
    assert out.written + [] == out.written;
    FilteredIsJoinSelected(all, accept);
  }
}
