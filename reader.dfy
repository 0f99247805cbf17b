/**
 * The streaming tokenizer `nextStr` (macresforks.c:38-105): it reads one byte
 * at a time into a heap buffer that starts at 16 bytes and doubles whenever
 * it fills, and stops at a NUL or at the end of the stream.
 */
module Reader {
  import opened Bytes
  import opened NullDelimited

  /** What `fgetc` returns at the end of the stream. */
  const EOF: int := -1

  /** The capacity of a fresh token buffer. */
  const INITIAL_CAPACITY: nat := 16

  function Pow2(k: nat): (p: nat)
    ensures p >= 1
  {
    if k == 0 then 1 else 2 * Pow2(k - 1)
  }

  /** An input stream: the bytes it will ever deliver and a read cursor. */
  class ByteStream {
    const data: seq<byte>
    var pos: nat

    ghost predicate Valid()
      reads this
    {
      pos <= |data|
    }

    /** The bytes not read yet. */
    function Remaining(): seq<byte>
      reads this
      requires Valid()
    {
      data[pos..]
    }

    constructor (input: seq<byte>)
      ensures Valid() && data == input && Remaining() == input
    {
      data := input;
      pos := 0;
    }

    /** `fgetc`: the next byte, or EOF with the cursor left where it is. */
    method GetC() returns (ch: int)
      requires Valid()
      modifies this
      ensures Valid()
      ensures old(pos) == |data| ==> ch == EOF && pos == old(pos)
      ensures old(pos) < |data| ==> ch == data[old(pos)] as int && pos == old(pos) + 1
    {
      if pos == |data| {
        ch := EOF;
      } else {
        ch := data[pos] as int;
        pos := pos + 1;
      }
    }
  }

  /**
   * `realloc`: a buffer of `size` bytes whose first bytes are those of `buf`,
   * as many as both have. Allocation is taken to succeed.
   */
  method Realloc(buf: array<byte>, size: nat) returns (r: array<byte>)
    ensures fresh(r) && r.Length == size
    ensures size <= buf.Length ==> r[..] == buf[..size]
    ensures buf.Length <= size ==> r[..buf.Length] == buf[..]
  {
    r := new byte[size];
    var keep := if size <= buf.Length then size else buf.Length;
    var i := 0;
    while i < keep
      invariant 0 <= i <= keep
      invariant r[..i] == buf[..i]
    {
      r[i] := buf[i];
      i := i + 1;
    }
    assert r[..keep] == buf[..keep];
  }

  /**
   * The end of `nextStr`: the NUL written after the `n` bytes read, then the
   * buffer cut down to exactly the string and its terminator. The result is
   * `buf` itself when it already has that size.
   */
  method Terminate(buf: array<byte>, n: nat) returns (str: array<byte>)
    requires n < buf.Length
    modifies buf
    ensures str == buf || fresh(str)
    ensures str[..] == old(buf[..n]) + [NUL]
  {
    buf[n] := NUL;
    var size := n + 1;
    str := buf;
    if size != buf.Length {
      str := Realloc(buf, size);
    }
    assert str[..] == buf[..size];
  }

  /**
   * `nextStr`: reads the next token from `f`. Returns null only when the
   * stream is already exhausted; otherwise a fresh buffer holding exactly
   * the token followed by its NUL, having consumed the token and its
   * terminator (when the stream had one).
   */
  method NextStr(f: ByteStream) returns (str: array?<byte>)
    requires f.Valid()
    modifies f
    ensures f.Valid()
    ensures str == null <==> old(f.Remaining()) == []
    ensures str != null ==> fresh(str) && str[..] == Token(old(f.Remaining())) + [NUL]
    ensures f.Remaining() == old(f.Remaining())[Consumed(old(f.Remaining()))..]
  {
    ghost var start := f.pos;
    ghost var input := f.data[start..];
    var len: nat := INITIAL_CAPACITY;
    var n: nat := 0;
    ghost var doublings: nat := 0;
    var buf := new byte[len];

    var ch: int;
    while true
      invariant f.Valid() && f.pos == start + n
      invariant fresh(buf)
      invariant 0 <= n < len == buf.Length
      invariant len == INITIAL_CAPACITY * Pow2(doublings)
      invariant n <= TokenLength(input)
      invariant buf[..n] == input[..n]
      decreases |f.data| - f.pos
    {
      ch := f.GetC();

      if ch == EOF {
        if n == 0 {
          return null;
        }
        break;
      }

      if ch == 0 {
        break;
      }

      buf[n] := ch as byte;
      n := n + 1;
      assert buf[..n] == input[..n];

      if n == len {
        len := len * 2;
        doublings := doublings + 1;
        buf := Realloc(buf, len);
      }
    }

    // the loop stopped at a terminator or at the end of a non-empty token
    assert n == TokenLength(input);
    assert f.pos == start + Consumed(input);
    str := Terminate(buf, n);
  }
}
