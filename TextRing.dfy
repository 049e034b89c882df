/**
 * The circular text buffer (tcode_text_buffer_t, src/tcode.h:149-159) and its
 * producer tcode_getc (src/tcode.c:214-224).
 */
module TextRing {
  import opened Types

  /** `x` modulo TextBufferLen, for the operand range that index arithmetic on the ring produces. */
  function Wrap(x: int): (r: nat)
    requires 0 <= x + TextBufferLen < 3 * TextBufferLen
    ensures r < TextBufferLen
  {
    if x < 0 then x + TextBufferLen else if x >= TextBufferLen then x - TextBufferLen else x
  }

  lemma WrapIsMod(x: int)
    requires 0 <= x + TextBufferLen < 3 * TextBufferLen
    ensures Wrap(x) == x % TextBufferLen
  {
  }

  /** Distance from `tail` forward to `head` around a ring of TextBufferLen cells. */
  function Distance(head: nat, tail: nat): (n: nat)
    requires head < TextBufferLen && tail < TextBufferLen
    ensures n < TextBufferLen
  {
    Wrap(head - tail)
  }

  /** The `n` cells of `s` starting at `from`, wrapping past the end. */
  function Window(s: seq<byte>, from: nat, n: nat): seq<byte>
    requires |s| == TextBufferLen && from < TextBufferLen && n <= TextBufferLen
  {
    seq(n, i requires 0 <= i < n => s[Wrap(from + i)])
  }

  /** `s` with `w` written into consecutive cells from `at`, wrapping past the end. */
  function Written(s: seq<byte>, at: nat, w: seq<byte>): seq<byte>
    requires |s| == TextBufferLen && at < TextBufferLen && |w| <= TextBufferLen
  {
    seq(TextBufferLen, j requires 0 <= j < TextBufferLen =>
      var i := Wrap(j - at); if i < |w| then w[i] else s[j])
  }

  /** A snapshot of a text buffer: its cells and its two indices. */
  datatype Ring = Ring(bytes: seq<byte>, head: nat, tail: nat) {
    ghost predicate Valid() {
      |bytes| == TextBufferLen && head < TextBufferLen && tail < TextBufferLen
    }

    /** Number of unread bytes, the `buffer_len` that tcode_parse_buffer computes. */
    function Span(): nat
      requires Valid()
    {
      Distance(head, tail)
    }

    /** The unread bytes, oldest first. */
    function Contents(): seq<byte>
      requires Valid()
    {
      Window(bytes, tail, Span())
    }

    /** Bytes that can be written before `head` runs into `tail` (the last one included). */
    function Room(): nat
      requires Valid()
    {
      TextBufferLen - Span()
    }
  }

  /**
   * What tcode_getc does with the bytes `d` the stream delivers before its
   * end marker: each is stored at `head`, which advances, until `head` lands
   * on `tail`; that byte is still stored and the call reports an overflow.
   */
  function Push(r: Ring, d: seq<byte>): (p: (Status, Ring))
    requires r.Valid()
    ensures p.1.Valid() && p.1.tail == r.tail
    ensures p.0 == Ok <==> |d| < r.Room()
    ensures p.0 != Ok ==> p.0 == BufferOverflow && p.1.head == r.tail
  {
    if |d| < r.Room() then
      (Ok, Ring(Written(r.bytes, r.head, d), Wrap(r.head + |d|), r.tail))
    else
      (BufferOverflow, Ring(Written(r.bytes, r.head, d[..r.Room()]), Wrap(r.head + r.Room()), r.tail))
  }

  /** The bytes getc returns before it returns 0xFF (a 0xFF byte, or the end of the stream as EOF). */
  function Chunk(input: seq<byte>): (r: seq<byte>)
    ensures r <= input && Sentinel !in r
    ensures |r| < |input| ==> input[|r|] == Sentinel
  {
    if input == [] || input[0] == Sentinel then [] else [input[0]] + Chunk(input[1..])
  }

  /** getc on a stream of which `pos` bytes have been consumed: EOF reads as 0xFF. */
  function NextByte(input: seq<byte>, pos: nat): byte {
    if pos < |input| then input[pos] else Sentinel
  }

  lemma WrittenSnoc(s: seq<byte>, at: nat, w: seq<byte>, c: byte)
    requires |s| == TextBufferLen && at < TextBufferLen && |w| < TextBufferLen
    ensures Written(s, at, w + [c]) == Written(s, at, w)[Wrap(at + |w|) := c]
  {
    var k := Wrap(at + |w|);
    forall j | 0 <= j < TextBufferLen
      ensures Written(s, at, w + [c])[j] == Written(s, at, w)[k := c][j]
    {
      var i := Wrap(j - at);
      if j == k {
        assert i == |w|;
      } else {
        assert i != |w|;
      }
    }
  }

  lemma WrittenNothing(s: seq<byte>, at: nat)
    requires |s| == TextBufferLen && at < TextBufferLen
    ensures Written(s, at, []) == s
  {
    forall j | 0 <= j < TextBufferLen
      ensures Written(s, at, [])[j] == s[j]
    {
      assert Wrap(j - at) >= 0;
    }
  }

  /** Advancing `head` one cell at a time: the C update `(head + 1) % len` after `pos` steps. */
  lemma WrapSucc(h: nat, pos: nat)
    requires h < TextBufferLen && pos < TextBufferLen
    ensures (Wrap(h + pos) + 1) % TextBufferLen == Wrap(h + pos + 1)
  {
    WrapIsMod(Wrap(h + pos) + 1);
  }

  /** After `pos` writes from `head`, `head` meets `tail` exactly when the room is used up. */
  lemma MeetsTail(r: Ring, pos: nat)
    requires r.Valid() && 0 < pos <= r.Room()
    ensures Wrap(r.head + pos) == r.tail <==> pos == r.Room()
  {
    assert r.head == Wrap(r.tail + r.Span());
  }

  /** One pass of tcode_getc's loop: byte `pos` of `d` goes to `head`, which then advances. */
  lemma GetcStep(r: Ring, d: seq<byte>, pos: nat)
    requires r.Valid() && pos < |d| && pos < r.Room()
    ensures Written(r.bytes, r.head, d[..pos + 1]) == Written(r.bytes, r.head, d[..pos])[Wrap(r.head + pos) := d[pos]]
    ensures (Wrap(r.head + pos) + 1) % TextBufferLen == Wrap(r.head + pos + 1)
    ensures Wrap(r.head + pos + 1) == r.tail <==> pos + 1 == r.Room()
  {
    WrittenSnoc(r.bytes, r.head, d[..pos], d[pos]);
    assert d[..pos + 1] == d[..pos] + [d[pos]];
    WrapSucc(r.head, pos);
    MeetsTail(r, pos + 1);
  }

  /** Push in closed form once the loop has stored `n` bytes and stopped with `st`. */
  lemma PushResult(r: Ring, d: seq<byte>, n: nat, st: Status)
    requires r.Valid()
    requires (st == Ok && n == |d| < r.Room()) || (st == BufferOverflow && n == r.Room() <= |d|)
    ensures Push(r, d) == (st, Ring(Written(r.bytes, r.head, d[..n]), Wrap(r.head + n), r.tail))
  {
    if st == Ok {
      assert d[..n] == d;
    }
  }

  /** Storing fewer bytes than the room appends them to the unread contents. */
  lemma {:induction false} PushContents(r: Ring, d: seq<byte>)
    requires r.Valid() && |d| < r.Room()
    ensures Push(r, d).0 == Ok
    ensures Push(r, d).1.Valid() && Push(r, d).1.Contents() == r.Contents() + d
    ensures Push(r, d).1.tail == r.tail
  {
    var r' := Push(r, d).1;
    var n := r.Span();
    assert r.head == Wrap(r.tail + n);
    assert r'.Span() == n + |d|;
    forall i | 0 <= i < n + |d|
      ensures r'.Contents()[i] == (r.Contents() + d)[i]
    {
      var j := Wrap(r.tail + i);
      var k := Wrap(j - r.head);
      if i < n {
        assert k == TextBufferLen - n + i;
      } else {
        assert k == i - n;
      }
    }
  }

  /** Reaching the room fills the cells up to the one before `tail`; `head` lands on `tail` and the buffer reads as empty. */
  lemma PushOverflows(r: Ring, d: seq<byte>)
    requires r.Valid() && |d| >= r.Room()
    ensures Push(r, d).0 == BufferOverflow
    ensures Push(r, d).1.head == r.tail && Push(r, d).1.Span() == 0
    ensures Push(r, d).1.Contents() == []
  {
    assert r.head == Wrap(r.tail + r.Span());
  }

  /** From an empty buffer 127 bytes fit; the 128th byte is the overflow. */
  lemma PushFromEmpty(r: Ring, d: seq<byte>)
    requires r.Valid() && r.head == r.tail
    ensures Push(r, d).0 == Ok <==> |d| <= TextBufferLen - 1
    ensures |d| <= TextBufferLen - 1 ==> Push(r, d).1.Contents() == d
  {
    if |d| <= TextBufferLen - 1 {
      PushContents(r, d);
    }
  }

  /** Moving `tail` forward over `u` unread bytes drops them from the front of the contents. */
  lemma AdvanceTail(r: Ring, u: nat)
    requires r.Valid() && u <= r.Span()
    ensures r.(tail := Wrap(r.tail + u)).Valid()
    ensures r.(tail := Wrap(r.tail + u)).Span() == r.Span() - u
    ensures r.(tail := Wrap(r.tail + u)).Contents() == r.Contents()[u..]
  {
    var r' := r.(tail := Wrap(r.tail + u));
    assert r.head == Wrap(r.tail + r.Span());
    assert r'.Span() == r.Span() - u;
    forall i | 0 <= i < r.Span() - u
      ensures r'.Contents()[i] == r.Contents()[u + i]
    {
      assert Wrap(r'.tail + i) == Wrap(r.tail + u + i);
    }
  }

  // ---------------------------------------------------------------------------
  // tcode_getc where plain char is signed

  /**
   * The first `n` bytes getc delivers from `input`, EOF included as 0xFF: with
   * a signed `char c`, `c != 0xFF` compares a value in -128..127 with 255 and
   * never fails, so the loop stores every one of them.
   */
  function SignedStream(input: seq<byte>, n: nat): (r: seq<byte>)
    ensures |r| == n
  {
    seq(n, i requires 0 <= i < n => NextByte(input, i))
  }

  /** tcode_getc as written, compiled with a signed char: it stops only when `head` reaches `tail`. */
  function GetcSignedChar(r: Ring, input: seq<byte>): (p: (Status, Ring))
    requires r.Valid()
    ensures p.0 == BufferOverflow && p.1.head == r.tail && p.1.tail == r.tail
  {
    Push(r, SignedStream(input, r.Room()))
  }

  /** Whatever the stream holds, the signed-char loop overflows and leaves the buffer reading as empty. */
  lemma SignedCharOverflows(r: Ring, input: seq<byte>)
    requires r.Valid()
    ensures GetcSignedChar(r, input).0 == BufferOverflow
    ensures GetcSignedChar(r, input).1.Contents() == []
  {
    PushOverflows(r, SignedStream(input, r.Room()));
  }

  /** An empty stream on an empty buffer: the intended loop reports Ok, the signed-char one an overflow. */
  lemma SignedCharEmptyStream(r: Ring)
    requires r.Valid() && r.head == r.tail
    ensures Push(r, Chunk([])) == (Ok, r)
    ensures GetcSignedChar(r, []).0 == BufferOverflow
  {
    WrittenNothing(r.bytes, r.head);
    SignedCharOverflows(r, []);
  }

  /** tcode_text_buffer_t: 128 cells written at `head` and read from `tail`. */
  class TextBuffer {
    const data: array<byte>
    var head: nat
    var tail: nat

    ghost predicate Valid()
      reads this
    {
      data.Length == TextBufferLen && head < TextBufferLen && tail < TextBufferLen
    }

    function Model(): (r: Ring)
      reads this, data
    {
      Ring(data[..], head, tail)
    }

    /** TCODE_TEXT_BUFFER_DEFAULT: zeroed cells, both indices 0. */
    constructor ()
      ensures Valid() && fresh(data)
      ensures head == 0 && tail == 0 && Model().Contents() == []
      ensures forall i :: 0 <= i < TextBufferLen ==> data[i] == Nul
    {
      data := new byte[TextBufferLen](_ => Nul);
      head, tail := 0, 0;
    }

    /**
     * tcode_getc: copy stream bytes into the ring until getc yields 0xFF,
     * or stop with BufferOverflow once `head` reaches `tail`. `calls` counts
     * the getc calls made: after Ok that includes the call that returned
     * 0xFF (a 0xFF byte of the stream, or EOF), after an overflow it is the
     * number of bytes stored; the stream goes on after its first `calls` bytes.
     */
    method Getc(input: seq<byte>) returns (err: Status, calls: nat)
      requires Valid()
      modifies this, data
      ensures Valid() && tail == old(tail)
      ensures (err, Model()) == Push(old(Model()), Chunk(input))
      ensures err == Ok ==> calls == |Chunk(input)| + 1
      ensures err == BufferOverflow ==> calls == old(Model()).Room() <= |Chunk(input)|
    {
      ghost var r0 := Model();
      ghost var d := Chunk(input);
      ghost var room := r0.Room();
      var pos := 0;
      var c := NextByte(input, pos);
      calls := 1;
      WrittenNothing(r0.bytes, r0.head);
      assert d[..0] == [];
      while c != Sentinel
        invariant Valid() && tail == r0.tail
        invariant pos <= |d| && pos < room
        invariant head == Wrap(r0.head + pos)
        invariant data[..] == Written(r0.bytes, r0.head, d[..pos])
        invariant c == NextByte(input, pos)
        invariant calls == pos + 1
        decreases |input| - pos
      {
        assert pos < |d| && d[pos] == c;
        GetcStep(r0, d, pos);
        data[head] := c;
        head := (head + 1) % TextBufferLen;
        pos := pos + 1;
        if head == tail {
          err := BufferOverflow;
          PushResult(r0, d, pos, err);
          return;
        }
        c := NextByte(input, pos);
        calls := calls + 1;
      }
      err := Ok;
      PushResult(r0, d, pos, err);
    }
  }
}
