/**
 * What an endpoint may ever write: over any run of sends, reads and closes, the bytes written are
 * whole frames, each acceptable to the peer, and every CLOSE carries a code that may be sent.
 */
module RoleDuality {
  import opened Bytes
  import opened Frames
  import opened Builder
  import opened CloseCodes
  import opened Session
  import EndToEnd
  import Utf8

  /** A frame the protocol lets an endpoint of this configuration send. */
  ghost predicate Legal(cfg: Config, f: Frame)
  {
    && (f.header.key.Some? <==> cfg.role.Client?)
    && !f.header.rsv2 && !f.header.rsv3
    && (f.header.rsv1 ==> cfg.deflate && f.header.fin && (f.header.opcode.Text? || f.header.opcode.Binary?))
    && (f.header.opcode.Close? ==>
          |f.payload| >= 2 && MayBeSent(f.payload[0] as nat * 256 + f.payload[1]) && f.header.fin)
  }

  /** A peer with the same negotiated flag and the opposite role accepts every legal frame. */
  lemma LegalIsAcceptable(cfg: Config, peer: Config, f: Frame)
    requires EndToEnd.Peers(cfg, peer) && Legal(cfg, f)
    ensures Acceptable(f.header, peer.role, peer.deflate)
  {
  }

  ghost predicate AllLegal(cfg: Config, fs: seq<Frame>)
  {
    forall f | f in fs :: Legal(cfg, f)
  }

  /** The same bytes written and the same room left; how many keys were drawn does not show. */
  predicate SameSide(a: Output, b: Output)
  {
    a.bytes == b.bytes && a.capacity == b.capacity
  }

  /**
   * `after` is what writing the wire images of legal frames makes of `before`: all of them, or as much as
   * the transport takes.
   */
  ghost predicate Extends(cfg: Config, before: Output, after: Output)
  {
    exists fs: seq<Frame> :: AllLegal(cfg, fs) && SameSide(after, Write(before, EncodeAll(fs)).0)
  }

  /** One write after another is one write of both, also when the first fails. */
  lemma WriteAppend(out: Output, out': Output, a: seq<byte>, b: seq<byte>)
    requires SameSide(out', Write(out, a).0)
    ensures SameSide(Write(out', b).0, Write(out, a + b).0)
  {
    assert out.bytes + a + b == out.bytes + (a + b);
    if out.capacity.Some? && |a + b| > out.capacity.value {
      var c := out.capacity.value;
      if |a| <= c {
        assert (a + b)[..c] == a + b[..c - |a|];
      } else {
        assert (a + b)[..c] == a[..c] && b[..0] == [];
      }
    }
  }

  lemma ExtendsSame(cfg: Config, before: Output, after: Output)
    requires SameSide(after, before)
    ensures Extends(cfg, before, after)
  {
    assert EncodeAll([]) == [] && before.bytes + [] == before.bytes;
    assert AllLegal(cfg, []) && SameSide(after, Write(before, EncodeAll([])).0);
  }

  lemma ExtendsTrans(cfg: Config, a: Output, b: Output, c: Output)
    requires Extends(cfg, a, b) && Extends(cfg, b, c)
    ensures Extends(cfg, a, c)
  {
    hide Legal, Encode, Write;
    var fs: seq<Frame> :| AllLegal(cfg, fs) && SameSide(b, Write(a, EncodeAll(fs)).0);
    var gs: seq<Frame> :| AllLegal(cfg, gs) && SameSide(c, Write(b, EncodeAll(gs)).0);
    EncodeAllAppend(fs, gs);
    WriteAppend(a, b, EncodeAll(fs), EncodeAll(gs));
    assert AllLegal(cfg, fs + gs) && SameSide(c, Write(a, EncodeAll(fs + gs)).0);
  }

  lemma SendFrameExtends(cfg: Config, out: Output, op: Opcode, fin: bool, rsv1: bool, payload: seq<byte>)
    requires Legal(cfg, FrameOf(op, fin, rsv1, NextKey(cfg, out), payload))
    ensures Extends(cfg, out, SendFrame(cfg, out, op, fin, rsv1, payload).0)
  {
    hide Encode, Legal;
    var f := FrameOf(op, fin, rsv1, NextKey(cfg, out), payload);
    assert [f][1..] == [] && EncodeAll([f]) == Encode(f) + [] == Encode(f);
    assert AllLegal(cfg, [f]) && SameSide(SendFrame(cfg, out, op, fin, rsv1, payload).0, Write(out, EncodeAll([f])).0);
  }

  lemma SendCloseExtends(cfg: Config, out: Output, code: Code, reason: seq<byte>)
    requires MayBeSent(code)
    ensures Extends(cfg, out, SendFrame(cfg, out, Close, true, false, CloseBody(code, reason)).0)
  {
    var body := CloseBody(code, reason);
    assert body[0] as nat * 256 + body[1] == code;
    hide Encode, SendFrame, Extends, MayBeSent;
    SendFrameExtends(cfg, out, Close, true, false, body);
  }

  lemma PerformExtends(cfg: Config, out: Output, call: Call)
    ensures Extends(cfg, out, Perform(cfg, out, call).0)
  {
    var p := WirePayload(cfg, call);
    if p.None? {
      ExtendsSame(cfg, out, out);
    } else {
      SendFrameExtends(cfg, out, CallOpcode(call), CallFin(call), Compresses(cfg, call), p.value);
    }
  }

  lemma CloseExtends(cfg: Config, c: Conn, code: Code, reason: seq<byte>)
    ensures Extends(cfg, c.out, CloseWith(cfg, c, code, reason).0.out)
  {
    hide SendFrame, Extends;
    SendCloseExtends(cfg, c.out, Sanitize(code), reason);
  }

  lemma DeliverExtends(cfg: Config, c: Conn, op: Opcode, payload: seq<byte>, compressed: bool)
    ensures Extends(cfg, c.out, Deliver(cfg, c, op, payload, compressed).1.out)
  {
    hide CloseWith, Extends, Utf8.WellFormed, Reason;
    CloseExtends(cfg, c, 1002, Reason("Compressed frame without negotiated extension"));
    CloseExtends(cfg, c, 1007, Reason("Invalid UTF-8 in text frame"));
    ExtendsSame(cfg, c.out, c.out);
  }

  lemma ContinuationExtends(cfg: Config, c: Conn, f: Frame)
    requires f.header.opcode.Continuation?
    ensures Extends(cfg, c.out, Dispatch(cfg, c, f).1.out)
  {
    hide CloseWith, Extends, Deliver, SendFrame, Reason, ReceivedCode, ReceivedReason, CloseBody;
    CloseExtends(cfg, c, 1002, Reason("Unexpected continuation frame"));
    ExtendsSame(cfg, c.out, c.out);
    var frag := c.fragment.(buffer := c.fragment.buffer + f.payload);
    DeliverExtends(cfg, c.(fragment := NO_FRAGMENT), frag.opcode, frag.buffer, frag.compressed);
  }

  lemma DataExtends(cfg: Config, c: Conn, f: Frame)
    requires f.header.opcode.Text? || f.header.opcode.Binary?
    ensures Extends(cfg, c.out, Dispatch(cfg, c, f).1.out)
  {
    hide CloseWith, Extends, Deliver, SendFrame, Reason, ReceivedCode, ReceivedReason, CloseBody;
    CloseExtends(cfg, c, 1002, Reason("New data frame before fragmented message completed"));
    ExtendsSame(cfg, c.out, c.out);
    DeliverExtends(cfg, c, f.header.opcode, f.payload, f.header.rsv1);
  }

  lemma ControlExtends(cfg: Config, c: Conn, f: Frame)
    requires IsControl(f.header.opcode)
    ensures Extends(cfg, c.out, Dispatch(cfg, c, f).1.out)
  {
    hide CloseWith, Extends, Deliver, SendFrame, Reason, ReceivedCode, ReceivedReason, CloseBody;
    match f.header.opcode
    case Close => SendCloseExtends(cfg, c.out, ReceivedCode(f.payload), []);
    case Ping => PongExtends(cfg, c.out, f.payload);
    case Pong => ExtendsSame(cfg, c.out, c.out);
  }

  lemma DispatchExtends(cfg: Config, c: Conn, f: Frame)
    ensures Extends(cfg, c.out, Dispatch(cfg, c, f).1.out)
  {
    hide Extends, Dispatch;
    match f.header.opcode
    case Continuation => ContinuationExtends(cfg, c, f);
    case Text => DataExtends(cfg, c, f);
    case Binary => DataExtends(cfg, c, f);
    case _ => ControlExtends(cfg, c, f);
  }

  lemma PongExtends(cfg: Config, out: Output, payload: seq<byte>)
    ensures Extends(cfg, out, SendFrame(cfg, out, Pong, true, false, payload).0)
  {
    hide Encode, SendFrame, Extends;
    SendFrameExtends(cfg, out, Pong, true, false, payload);
  }

  lemma {:induction false} ReadExtends(cfg: Config, c: Conn, input: seq<byte>, eof: bool)
    ensures Extends(cfg, c.out, ReadMessageStep(cfg, c, input, eof).1.out)
    decreases |input|
  {
    hide Dispatch, Extends, Visible, CloseWith;
    var (fr, c1, rest) := ReadFrameStep(cfg, c, input, eof);
    match fr
    case NoFrame => ExtendsSame(cfg, c.out, c.out);
    case FrameError(_) =>
      CloseExtends(cfg, c.(broken := true), 1002, Reason("invalid frame"));
      ExtendsSame(cfg, c.out, c.out);
    case Got(f) =>
      DispatchExtends(cfg, c, f);
      var c2 := Dispatch(cfg, c, f).1;
      ReadExtends(cfg, c2, rest, eof);
      if Dispatch(cfg, c, f).0.None? {
        ExtendsTrans(cfg, c.out, c2.out, ReadMessageStep(cfg, c2, rest, eof).1.out);
      }
  }

  // ---- Runs ----------------------------------------------------------------------------

  /** What the application may do, in any order; `Arrive` makes more bytes available. */
  datatype Action = DoSend(call: Call) | DoClose(code: Code, reason: seq<byte>) | DoRead | Arrive(bytes: seq<byte>)

  datatype RunState = RunState(conn: Conn, input: seq<byte>)

  function Act(cfg: Config, st: RunState, a: Action, eof: bool): (st': RunState)
  {
    match a
    case DoSend(call) => st.(conn := st.conn.(out := Perform(cfg, st.conn.out, call).0))
    case DoClose(code, reason) => st.(conn := CloseWith(cfg, st.conn, code, reason).0)
    case DoRead =>
      var (_, c, rest) := ReadMessageStep(cfg, st.conn, st.input, eof);
      RunState(c, rest)
    case Arrive(bytes) => st.(input := st.input + bytes)
  }

  function Run(cfg: Config, st: RunState, actions: seq<Action>, eof: bool): (st': RunState)
    decreases |actions|
  {
    if actions == [] then st else Run(cfg, Act(cfg, st, actions[0], eof), actions[1..], eof)
  }

  lemma ActExtends(cfg: Config, st: RunState, a: Action, eof: bool)
    ensures Extends(cfg, st.conn.out, Act(cfg, st, a, eof).conn.out)
  {
    hide Perform, CloseWith, ReadMessageStep, Extends;
    match a
    case DoSend(call) => PerformExtends(cfg, st.conn.out, call);
    case DoClose(code, reason) => CloseExtends(cfg, st.conn, code, reason);
    case DoRead => ReadExtends(cfg, st.conn, st.input, eof);
    case Arrive(_) => ExtendsSame(cfg, st.conn.out, st.conn.out);
  }

  /**
   * Over every run, what is written is a sequence of whole legal frames, each acceptable to the peer, or as
   * much of one as a failing transport takes.
   */
  lemma {:induction false} RunWritesLegalFrames(cfg: Config, st: RunState, actions: seq<Action>, eof: bool)
    ensures Extends(cfg, st.conn.out, Run(cfg, st, actions, eof).conn.out)
    decreases |actions|
  {
    hide Act, Extends;
    if actions == [] {
      ExtendsSame(cfg, st.conn.out, st.conn.out);
    } else {
      var next := Act(cfg, st, actions[0], eof);
      ActExtends(cfg, st, actions[0], eof);
      RunWritesLegalFrames(cfg, next, actions[1..], eof);
      ExtendsTrans(cfg, st.conn.out, next.conn.out, Run(cfg, next, actions[1..], eof).conn.out);
    }
  }
}
