/**
 * The wire format of the filter: paths separated by NUL bytes, where the last
 * path may lack its terminator. These functions say what one read of a token
 * takes from the remaining input and how repeated reads split the whole input.
 */
module NullDelimited {
  import opened Bytes

  /** The number of bytes before the first NUL of `s` (all of `s` if it has none). */
  function TokenLength(s: seq<byte>): (k: nat)
    ensures k <= |s|
    ensures forall i :: 0 <= i < k ==> s[i] != NUL
    ensures k < |s| ==> s[k] == NUL
  {
    if s == [] || s[0] == NUL then 0 else 1 + TokenLength(s[1..])
  }

  /** The token at the front of `s`: its longest NUL-free prefix. */
  function Token(s: seq<byte>): (t: Path)
    ensures t <= s && NUL !in t
    ensures |t| == |s| || s[|t|] == NUL
  {
    s[..TokenLength(s)]
  }

  /** How many bytes one read takes: the token and its terminator, if present. */
  function Consumed(s: seq<byte>): (c: nat)
    ensures c <= |s|
    ensures s != [] ==> c > 0
    ensures s[..c] == Token(s) || s[..c] == Token(s) + [NUL]
    ensures c == |s| || s[..c] == Token(s) + [NUL]
  {
    var k := TokenLength(s);
    if k < |s| then k + 1 else |s|
  }

  /**
   * The tokens that reads take from `s`, one after the other, until it is
   * empty. Every read consumes at least one byte, so there are never more
   * tokens than bytes.
   */
  function Tokens(s: seq<byte>): (ts: seq<Path>)
    ensures |ts| <= |s|
    decreases |s|
  {
    if s == [] then [] else [Token(s)] + Tokens(s[Consumed(s)..])
  }

  /**
   * The wire form of a list of tokens: each followed by one NUL. It is empty
   * only for no tokens.
   */
  function Join(ts: seq<Path>): (w: seq<byte>)
    ensures |ts| <= |w|
    ensures w == [] <==> ts == []
  {
    if ts == [] then [] else ts[0] + [NUL] + Join(ts[1..])
  }

  /** A list of tokens that can be written to the wire unambiguously. */
  ghost predicate NulFree(ts: seq<Path>)
  {
    forall i :: 0 <= i < |ts| ==> NUL !in ts[i]
  }

  /** The input with a terminator added to its last path when it lacks one. */
  function Terminated(s: seq<byte>): (r: seq<byte>)
    ensures s <= r
  {
    if s == [] || s[|s| - 1] == NUL then s else s + [NUL]
  }

  /**
   * Token is the unique NUL-free prefix that is followed by a NUL or by the end
   * of the input.
   */
  lemma TokenUnique(s: seq<byte>, t: Path)
    requires NUL !in t
    requires s == t || t + [NUL] <= s
    ensures Token(s) == t
  {
    var k := TokenLength(s);
    assert s[..|t|] == t;
    if s != t {
      assert s[|t|] == (t + [NUL])[|t|];
    }
    assert k == |t|;
  }

  lemma {:induction false} JoinAppend(a: seq<Path>, b: seq<Path>)
    ensures Join(a + b) == Join(a) + Join(b)
    decreases |a|
  {
    if a == [] {
      assert a + b == b;
    } else {
      assert (a + b)[1..] == a[1..] + b;
      JoinAppend(a[1..], b);
    }
  }

  /** A non-empty wire form always ends in a terminator. */
  lemma {:induction false} JoinEndsInNul(ts: seq<Path>)
    requires ts != []
    ensures Join(ts)[|Join(ts)| - 1] == NUL
    decreases |ts|
  {
    if ts[1..] != [] {
      JoinEndsInNul(ts[1..]);
      assert Join(ts) == (ts[0] + [NUL]) + Join(ts[1..]);
    }
  }

  lemma {:induction false} TokensNulFree(s: seq<byte>)
    ensures NulFree(Tokens(s))
    decreases |s|
  {
    if s != [] {
      TokensNulFree(s[Consumed(s)..]);
    }
  }

  /**
   * Reading tokens until the input is exhausted partitions it: writing the
   * tokens back, each with one terminator, gives the input again, with one
   * NUL added if and only if the input did not end in one.
   */
  lemma {:induction false} JoinTokens(s: seq<byte>)
    ensures Join(Tokens(s)) == Terminated(s)
    decreases |s|
  {
    if s != [] {
      var t, c := Token(s), Consumed(s);
      var rest := s[c..];
      assert Join(Tokens(s)) == t + [NUL] + Join(Tokens(rest)) by {
        var ts := Tokens(s);
        assert ts[0] == t && ts[1..] == Tokens(rest);
      }
      JoinTokens(rest);
      if s[..c] == t + [NUL] {
        assert s == t + [NUL] + rest;
        TerminatedAfterNul(t + [NUL], rest);
      } else {
        assert Terminated(s) == t + [NUL] && Terminated(rest) == [] by {
          assert c == |s| && s == t && rest == [];
          assert s[|s| - 1] in t;
        }
      }
    }
  }

  /** Appending to a terminated prefix: only the suffix may need a terminator. */
  lemma TerminatedAfterNul(a: seq<byte>, b: seq<byte>)
    requires a != [] && a[|a| - 1] == NUL
    ensures Terminated(a + b) == a + Terminated(b)
  {
    if b != [] {
      assert (a + b)[|a + b| - 1] == b[|b| - 1];
    } else {
      assert a + b == a;
    }
  }

  /**
   * The converse round trip: NUL-free tokens written to the wire are read back
   * as exactly the same tokens, empty ones included.
   */
  lemma {:induction false} TokensJoin(ts: seq<Path>)
    requires NulFree(ts)
    ensures Tokens(Join(ts)) == ts
    decreases |ts|
  {
    if ts != [] {
      var rest := Join(ts[1..]);
      assert Join(ts) == ts[0] + [NUL] + rest;
      TokenBeforeNul(ts[0], rest);
      TokensJoin(ts[1..]);
    }
  }

  /** A NUL-free path, a NUL, and more: one read takes exactly the path and the NUL. */
  lemma TokenBeforeNul(t: Path, rest: seq<byte>)
    requires NUL !in t
    ensures Token(t + [NUL] + rest) == t
    ensures Consumed(t + [NUL] + rest) == |t| + 1
    ensures (t + [NUL] + rest)[|t| + 1..] == rest
  {
    var s := t + [NUL] + rest;
    assert t + [NUL] <= s;
    TokenUnique(s, t);
  }

  /** A NUL-terminated path is read back as the path itself, with nothing left over. */
  lemma TokenOfCString(t: Path)
    requires NUL !in t
    ensures Token(t + [NUL]) == t
    ensures Consumed(t + [NUL]) == |t| + 1
  {
    TokenUnique(t + [NUL], t);
  }

  /**
   * A NUL as the first remaining byte is an empty token, not the end of the
   * stream, and only that NUL is consumed.
   */
  lemma LeadingNulIsEmptyToken(rest: seq<byte>)
    ensures Token([NUL] + rest) == [] && Consumed([NUL] + rest) == 1
  {
    TokenUnique([NUL] + rest, []);
  }

  /**
   * A stream that ends on a terminator and the same stream one byte shorter
   * are split into the same tokens.
   */
  lemma TrailingTerminatorOptional(s: seq<byte>)
    requires s != [] && s[|s| - 1] != NUL
    ensures Tokens(s + [NUL]) == Tokens(s)
  {
    JoinTokens(s);
    TokensNulFree(s);
    TokensJoin(Tokens(s));
  }
}
