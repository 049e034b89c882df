/**
 * The session of src/tcode.c: the active queue `_tcode_buffer` and the pending
 * queue `_pending_buffer` (src/tcode.c:8-9), the tokenizer tcode_parse_buffer
 * (src/tcode.c:158-212) that feeds them from a text buffer, and the tick
 * tcode_run_buffer (src/tcode.c:20-43) that walks the active queue.
 */
module TCode {
  import opened Types
  import opened Decoder
  import opened TextRing
  import opened Queue

  /** The bytes that end a token. */
  predicate IsTerminator(c: byte) {
    c == Space || c == Newline
  }

  /** The position of the first terminator in `s`, if there is one. */
  function FindTerminator(s: seq<byte>): (r: Option<nat>)
    ensures r.Some? ==> r.value < |s| && IsTerminator(s[r.value])
    ensures r.Some? ==> forall i :: 0 <= i < r.value ==> !IsTerminator(s[i])
    ensures r.None? ==> forall i :: 0 <= i < |s| ==> !IsTerminator(s[i])
  {
    if s == [] then None
    else if IsTerminator(s[0]) then Some(0)
    else match FindTerminator(s[1..])
      case None => None
      case Some(k) => Some(k + 1)
  }

  /** The contents of the active and the pending queue. */
  datatype Queues = Queues(active: seq<Command>, pending: seq<Command>)

  /**
   * One tcode_parse_buffer call on the unread bytes `occ`: how many bytes it
   * consumes and the queues afterwards. With no terminator nothing happens.
   * Otherwise the bytes before the first terminator are decoded from a default
   * command (flagged for immediate execution when the terminator is a
   * newline); a successful decode is appended to the pending queue, and a
   * newline then moves the pending queue onto the end of the active queue.
   */
  function ParseStep(occ: seq<byte>, q: Queues): (p: (nat, Queues))
    ensures p.0 <= |occ|
    ensures p.0 == 0 <==> FindTerminator(occ) == None
    ensures p.0 == 0 ==> p.1 == q
    ensures p.0 > 0 ==> IsTerminator(occ[p.0 - 1])
    ensures q.active <= p.1.active
    ensures |p.1.active| + |p.1.pending| <= |q.active| + |q.pending| + 1
  {
    match FindTerminator(occ)
    case None => (0, q)
    case Some(k) => (k + 1, Flush(q, Token(occ, k + 1), occ[k] == Newline))
  }

  /**
   * The command decoded from the bytes before the terminator at `used - 1`,
   * starting from a default command flagged for immediate execution when the
   * terminator is a newline; None when the decode fails.
   */
  function Token(occ: seq<byte>, used: nat): Option<Command>
    requires 0 < used <= |occ|
  {
    var e: byte := if occ[used - 1] == Newline then 1 else 0;
    Decode(CString(occ[..used - 1]), DefaultCommand.(executeImmediate := e))
  }

  /** The queues after a token: a decoded token joins pending, and a newline moves pending onto active. */
  function Flush(q: Queues, tok: Option<Command>, newline: bool): Queues {
    var pending := if tok.Some? then q.pending + [tok.value] else q.pending;
    if newline then Queues(q.active + pending, []) else Queues(q.active, pending)
  }

  /** ParseStep unfolded for a call that consumed `used` bytes. */
  lemma ParseStepIs(occ: seq<byte>, q: Queues, used: nat, tok: Option<Command>, newline: bool)
    requires used == 0 ==> FindTerminator(occ) == None && tok == None && !newline
    requires used > 0 ==> used <= |occ| && FindTerminator(occ) == Some(used - 1)
    requires used > 0 ==> tok == Token(occ, used) && newline == (occ[used - 1] == Newline)
    ensures ParseStep(occ, q) == (used, Flush(q, tok, newline))
  {
    if used == 0 {
      assert Flush(q, tok, newline) == q;
    } else {
      assert FindTerminator(occ).value + 1 == used;
    }
  }

  /** Exactly one terminated token is consumed, or nothing when the bytes hold no terminator. */
  lemma ParseStepConsumes(occ: seq<byte>, q: Queues)
    ensures ParseStep(occ, q).0 <= |occ|
    ensures ParseStep(occ, q).0 == 0 <==> forall i :: 0 <= i < |occ| ==> !IsTerminator(occ[i])
    ensures ParseStep(occ, q).0 == 0 ==> ParseStep(occ, q).1 == q
    ensures ParseStep(occ, q).0 > 0 ==>
      var used := ParseStep(occ, q).0;
      IsTerminator(occ[used - 1]) && forall i :: 0 <= i < used - 1 ==> !IsTerminator(occ[i])
  {
  }

  /**
   * A space-terminated token only grows the pending queue; a newline moves
   * all of pending, with the token when it decoded, onto the active queue,
   * whether or not the token decoded.
   */
  lemma ParseStepQueues(occ: seq<byte>, q: Queues)
    requires ParseStep(occ, q).0 > 0
    ensures var (used, q') := ParseStep(occ, q);
      var tok := if Token(occ, used).Some? then [Token(occ, used).value] else [];
      if occ[used - 1] == Space then q'.active == q.active && q'.pending == q.pending + tok
      else q'.active == q.active + q.pending + tok && q'.pending == []
  {
    var k := FindTerminator(occ).value;
    assert ParseStep(occ, q).0 == k + 1;
    assert q.active + (q.pending + []) == q.active + q.pending + [];
  }

  /** What a command decoded from a default command looks like. */
  predicate Decoded(c: Command) {
    && c.kind != Invalid
    && c.channel <= 9
    && 0.0 <= c.magnitude < 1.0
    && c.speed >= 0.0
    && c.interval >= 0.0
    && c.transitionMagnitude == 0.0
    && c.lastTransitionMs == 0
    && c.executeImmediate <= 1
  }

  /** Every queued command was decoded, and the pending ones are not flagged for immediate execution. */
  predicate QueuesDecoded(q: Queues) {
    && (forall i :: 0 <= i < |q.active| ==> Decoded(q.active[i]))
    && (forall i :: 0 <= i < |q.pending| ==> Decoded(q.pending[i]) && q.pending[i].executeImmediate == 0)
  }

  lemma DecodedToken(s: seq<byte>, e: byte)
    requires e <= 1 && Decode(s, DefaultCommand.(executeImmediate := e)).Some?
    ensures Decoded(Decode(s, DefaultCommand.(executeImmediate := e)).value)
    ensures Decode(s, DefaultCommand.(executeImmediate := e)).value.executeImmediate == e
  {
    DecodeFromDefault(s, e);
  }

  /** tcode_parse_buffer keeps both queues made of decoded commands. */
  lemma {:induction false} ParseStepKeepsDecoded(occ: seq<byte>, q: Queues)
    requires QueuesDecoded(q)
    ensures QueuesDecoded(ParseStep(occ, q).1)
  {
    var r := FindTerminator(occ);
    if r.Some? {
      var k := r.value;
      var e: byte := if occ[k] == Newline then 1 else 0;
      var s := CString(occ[..k]);
      if Decode(s, DefaultCommand.(executeImmediate := e)).Some? {
        DecodedToken(s, e);
      }
    }
  }

  /** The command tcode_run_buffer hands to the callback: only `type` and `magnitude` are set. */
  function Notice(c: Command): (n: Command)
    ensures n.kind == c.kind && n.magnitude == c.magnitude
    ensures n.channel == 0 && n.speed == 0.0 && n.interval == 0.0
    ensures n.transitionMagnitude == 0.0 && n.lastTransitionMs == 0 && n.executeImmediate == 0
  {
    DefaultCommand.(kind := c.kind, magnitude := c.magnitude)
  }

  /**
   * One entry after a tick: an entry with neither interval nor speed is
   * passed to tcode_buffer_remove_idx and so stays; any other entry moves by
   * its transition magnitude, without clamping.
   */
  function Tick(c: Command): (t: Command)
    ensures SameHeader(t, c) && t.speed == c.speed && t.interval == c.interval
    ensures t.magnitude == c.magnitude <==> (c.interval <= 0.0 && c.speed <= 0.0) || c.transitionMagnitude == 0.0
    ensures t.magnitude != c.magnitude ==> t.magnitude == c.magnitude + c.transitionMagnitude
  {
    if c.interval <= 0.0 && c.speed <= 0.0 then c
    else c.(magnitude := c.magnitude + c.transitionMagnitude)
  }

  /** Decoded commands have no transition, so a tick leaves them as they are. */
  lemma TickDecoded(c: Command)
    requires Decoded(c)
    ensures Tick(c) == c
    ensures Notice(c).kind == c.kind && Notice(c).magnitude == c.magnitude && Notice(c).channel == 0
  {
  }

  /** Nothing bounds the magnitude a tick produces. */
  lemma TickUnclamped(c: Command)
    requires c.speed > 0.0 && c.magnitude == 0.9 && c.transitionMagnitude == 0.2
    ensures Tick(c).magnitude > 1.0
  {
  }

  /** Two tokens on a line: neither replaces the other, and the newline flushes both. */
  lemma TwoLinearTokens()
    ensures var occ := Ascii("L090 L010\n");
      var (u1, q1) := ParseStep(occ, Queues([], []));
      var (u2, q2) := ParseStep(occ[u1..], q1);
      && u1 == 5 && u2 == 5
      && q2.pending == []
      && q2.active == [
        DefaultCommand.(kind := Linear, magnitude := 0.9),
        DefaultCommand.(kind := Linear, magnitude := 0.1, executeImmediate := 1)]
  {
    var c1 := DefaultCommand.(kind := Linear, magnitude := 0.9);
    var c2 := DefaultCommand.(kind := Linear, magnitude := 0.1, executeImmediate := 1);
    var rest := Ascii("L010") + [Newline];
    assert Ascii("L090 L010\n") == Ascii("L090") + [Space] + rest;
    SpaceToken(Ascii("L090"), rest, c1);
    assert (Ascii("L090") + [Space] + rest)[5..] == rest;
    NewlineToken(Ascii("L010"), [c1], c2);
    assert [c1] + [c2] == [c1, c2];
  }

  /** "L090" and a space go to the pending queue. */
  lemma SpaceToken(token: seq<byte>, rest: seq<byte>, c: Command)
    requires token == Ascii("L090") && c == DefaultCommand.(kind := Linear, magnitude := 0.9)
    ensures ParseStep(token + [Space] + rest, Queues([], [])) == (5, Queues([], [c]))
  {
    DecodeLinearExamples(0);
    FirstToken(token, Space, rest, c);
    ParseStepIs(token + [Space] + rest, Queues([], []), 5, Some(c), false);
    assert [] + [c] == [c];
  }

  /** "L010" and a newline move the pending queue, with the new command, to the active queue. */
  lemma NewlineToken(token: seq<byte>, pending: seq<Command>, c: Command)
    requires token == Ascii("L010") && c == DefaultCommand.(kind := Linear, magnitude := 0.1, executeImmediate := 1)
    ensures ParseStep(token + [Newline], Queues([], pending)) == (5, Queues(pending + [c], []))
  {
    DecodeLinearExamples(1);
    FirstToken(token, Newline, [], c);
    assert token + [Newline] + [] == token + [Newline];
    ParseStepIs(token + [Newline], Queues([], pending), 5, Some(c), true);
    assert [] + (pending + [c]) == pending + [c];
  }

  /** A four-byte token and its terminator at the front of the unread bytes. */
  lemma FirstToken(token: seq<byte>, t: byte, rest: seq<byte>, c: Command)
    requires |token| == 4 && IsTerminator(t)
    requires forall i :: 0 <= i < 4 ==> !IsTerminator(token[i]) && token[i] != Nul
    requires Decode(token, DefaultCommand.(executeImmediate := if t == Newline then 1 else 0)) == Some(c)
    ensures FindTerminator(token + [t] + rest) == Some(4)
    ensures Token(token + [t] + rest, 5) == Some(c)
  {
    var occ := token + [t] + rest;
    assert occ[1..][1..][1..][1..][0] == t;
    assert occ[..4] == token;
    assert CString(token) == token;
  }

  /** The C string in `flat` once the terminator's slot holds NUL: the token's bytes up to any NUL among them. */
  lemma TokenString(flat: seq<byte>, occ: seq<byte>, k: nat)
    requires k < |flat| && k < |occ| && flat[k] == Nul
    requires forall i :: 0 <= i < k ==> flat[i] == occ[i]
    ensures CString(flat) == CString(occ[..k])
  {
    CStringUpTo(flat, k);
    assert flat[..k] == occ[..k];
  }

  /**
   * The token loop of tcode_parse_buffer: measures the unread span of `tb`,
   * copies bytes into the local `flat` array up to the first space or
   * newline and decodes them with tcode_parse_str. `used` is the number of
   * bytes the call consumes (the token and its terminator; 0 when there is
   * no terminator), `tokenErr` and `cmd` are the decoder's result. `occ`
   * names the unread bytes for the contract.
   */
  method ScanToken(tb: TextBuffer, ghost occ: seq<byte>) returns (used: nat, tokenErr: Status, cmd: Command)
    requires tb.Valid() && occ == tb.Model().Contents()
    ensures used <= |occ|
    ensures used == 0 <==> FindTerminator(occ) == None
    ensures used > 0 ==> FindTerminator(occ) == Some(used - 1)
    ensures used > 0 ==> Token(occ, used) == if tokenErr == Ok then Some(cmd) else None
    ensures used == 0 ==> tokenErr == Fail
    ensures cmd.executeImmediate != 0 <==> used > 0 && occ[used - 1] == Newline
  {
    cmd := DefaultCommand;
    used := 0;

    var bufferLen: nat;
    if tb.head < tb.tail {
      bufferLen := (tb.head + TextBufferLen) - tb.tail;
    } else {
      bufferLen := tb.head - tb.tail;
    }
    assert bufferLen == |occ|;
    tokenErr := Fail;
    if bufferLen <= 0 {
      return;
    }

    var flat := new byte[TextBufferLen];
    var tokenLen := 0;
    while tokenLen < bufferLen
      invariant tokenLen <= bufferLen
      invariant forall i :: 0 <= i < tokenLen ==> flat[i] == occ[i] && !IsTerminator(occ[i])
      decreases bufferLen - tokenLen
    {
      var idx := (tb.tail + tokenLen) % TextBufferLen;
      WrapIsMod(tb.tail + tokenLen);
      var c := tb.data[idx];
      assert c == occ[tokenLen];
      if c == Space || c == Newline {
        flat[tokenLen] := Nul;
        if c == Newline {
          cmd := cmd.(executeImmediate := 1);
        }
        TokenString(flat[..], occ, tokenLen);
        tokenErr, cmd := ParseStr(flat[..], cmd);
        used := tokenLen + 1;
        return;
      }
      flat[tokenLen] := c;
      tokenLen := tokenLen + 1;
    }
  }

  /** The two file-level queues of src/tcode.c, as fields of one object. */
  class Session {
    /** `_tcode_buffer`: the commands the tick walks. */
    const active: CommandQueue
    /** `_pending_buffer`: decoded commands waiting for a newline. */
    const pending: CommandQueue

    ghost predicate Valid()
      reads this
    {
      active != pending
    }

    function State(): Queues
      reads this, active, pending
    {
      Queues(active.items, pending.items)
    }

    constructor ()
      ensures Valid() && fresh(active) && fresh(pending)
      ensures State() == Queues([], [])
    {
      active := new CommandQueue();
      pending := new CommandQueue();
    }

    /**
     * tcode_parse_buffer: extracts at most one token from the unread bytes of
     * `tb`, moves `tail` past it and updates the queues as ParseStep says.
     * The C code sets `tail` to `(idx + 1) % len` inside the token loop, with
     * `idx == (tail + used - 1) % len`; here it is set after ScanToken
     * returns. The data callback and the response buffer are never used, so
     * they are not parameters. The result is always 0.
     */
    method ParseBuffer(tb: TextBuffer) returns (r: uint64)
      requires Valid() && tb.Valid()
      modifies tb, active, pending
      ensures Valid() && tb.Valid() && tb.head == old(tb.head)
      ensures r == 0
      ensures var (used, q) := ParseStep(old(tb.Model().Contents()), old(State()));
        tb.tail == Wrap(old(tb.tail) + used) && State() == q
      ensures tb.Model().Contents() == old(tb.Model().Contents())[ParseStep(old(tb.Model().Contents()), old(State())).0..]
    {
      ghost var ring := tb.Model();
      ghost var occ := ring.Contents();
      ghost var q0 := State();
      var used, tokenErr, cmd := ScanToken(tb, occ);
      ghost var tok := if tokenErr == Ok then Some(cmd) else None;
      ghost var newline := cmd.executeImmediate != 0;
      ParseStepIs(occ, q0, used, tok, newline);
      AdvanceTail(ring, used);
      if used > 0 {
        WrapIsMod(tb.tail + used);
        tb.tail := (tb.tail + used) % TextBufferLen;
      }
      assert tb.Model() == ring.(tail := Wrap(ring.tail + used));

      if tokenErr == Ok {
        var _ := pending.Enqueue(cmd);
      }
      if cmd.executeImmediate != 0 {
        active.Copy(pending);
        pending.Empty();
      }
      assert State() == Flush(q0, tok, newline);
      return 0;
    }

    /**
     * tcode_run_buffer: every active entry, in order, is reported to the
     * callback (the returned sequence) and then ticked. `ms` is not used.
     */
    method RunBuffer(ms: int) returns (err: Status, dispatched: seq<Command>)
      requires Valid()
      modifies active
      ensures err == Ok
      ensures |active.items| == |old(active.items)| == |dispatched|
      ensures forall i :: 0 <= i < |dispatched| ==> dispatched[i] == Notice(old(active.items)[i])
      ensures forall i :: 0 <= i < |active.items| ==> active.items[i] == Tick(old(active.items)[i])
    {
      var node := 0;
      var idx: uint64 := 0;
      dispatched := [];
      while node < |active.items|
        invariant node <= |active.items| == |old(active.items)| && |dispatched| == node
        invariant forall i :: 0 <= i < node ==> dispatched[i] == Notice(old(active.items)[i])
        invariant forall i :: 0 <= i < node ==> active.items[i] == Tick(old(active.items)[i])
        invariant forall i :: node <= i < |active.items| ==> active.items[i] == old(active.items)[i]
      {
        var cmd := active.items[node];
        var command := DefaultCommand.(kind := cmd.kind, magnitude := cmd.magnitude);
        dispatched := dispatched + [command];
        if cmd.interval <= 0.0 && cmd.speed <= 0.0 {
          active.RemoveIdx(idx);
        } else {
          active.items := active.items[node := cmd.(magnitude := cmd.magnitude + cmd.transitionMagnitude)];
        }
        idx := Incr(idx);
        node := node + 1;
      }
      err := Ok;
    }
  }
}
