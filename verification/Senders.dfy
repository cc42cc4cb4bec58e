/**
 * What each call of the Rust endpoint puts on the wire, in the terms of the frame format: which frame, with
 * which bits, number and payload, and what happens when the codec or the transport fails.
 */
module Senders {
  import opened Bytes
  import opened Frames
  import opened Builder
  import opened CloseCodes
  import opened Session
  import opened WireFormat
  import Utf8

  /** What was written after `out`. */
  function Appended(out: Output, out': Output): (s: seq<byte>)
  {
    if |out.bytes| <= |out'.bytes| then out'.bytes[|out.bytes|..] else []
  }

  /** `out'` is `out` with one frame written, which is laid out as `f`. */
  ghost predicate Wrote(out: Output, out': Output, f: Frame)
  {
    out.bytes <= out'.bytes && Layout(Appended(out, out'), f)
  }

  /** Clients mask with the next key, servers do not mask. */
  function KeyFor(cfg: Config, drawn: nat): (key: Option<Key>)
  {
    match cfg.role
    case Client => Some(cfg.keys(drawn))
    case Server => None
  }

  /** Whole text and binary messages are compressed where the extension is negotiated and built. */
  predicate MustCompress(cfg: Config, call: Call)
  {
    && cfg.deflate && cfg.deflateBuilt
    && match call
       case SendText(_, fin) => fin
       case SendBinary(_, fin) => fin
       case _ => false
  }

  /** The frame of a call, field by field. */
  function FrameOfCall(cfg: Config, drawn: nat, call: Call, payload: seq<byte>): (f: Frame)
  {
    var key, rsv1 := KeyFor(cfg, drawn), MustCompress(cfg, call);
    match call
    case SendText(_, fin) => Frame(Header(fin, rsv1, false, false, Text, key), payload)
    case SendBinary(_, fin) => Frame(Header(fin, rsv1, false, false, Binary, key), payload)
    case SendContinuation(_, fin) => Frame(Header(fin, false, false, false, Continuation, key), payload)
    case SendPing(_) => Frame(Header(true, false, false, false, Ping, key), payload)
    case SendPong(_) => Frame(Header(true, false, false, false, Pong, key), payload)
  }

  /** One frame written to a transport that takes everything. */
  lemma SendFrameWrites(cfg: Config, out: Output, op: Opcode, fin: bool, rsv1: bool, payload: seq<byte>)
    requires out.capacity.None? && |payload| < 0x8000_0000_0000_0000
    ensures var (out', ok) := SendFrame(cfg, out, op, fin, rsv1, payload);
            && ok && out'.capacity.None? && out'.drawn == out.drawn + (if cfg.role.Client? then 1 else 0)
            && Wrote(out, out', Frame(Header(fin, rsv1, false, false, op, KeyFor(cfg, out.drawn)), payload))
  {
    hide Encode, Layout;
    var f := Frame(Header(fin, rsv1, false, false, op, KeyFor(cfg, out.drawn)), payload);
    EncodeLaysOut(f);
    assert (out.bytes + Encode(f))[|out.bytes|..] == Encode(f);
  }

  /**
   * Every sender writes exactly its frame: the opcode of the call, its FIN bit, RSV1 and the compressed
   * data exactly where the message must be compressed, masked exactly by clients. If compression fails,
   * nothing is written and that is the error.
   */
  lemma CallWrites(cfg: Config, out: Output, call: Call)
    requires out.capacity.None?
    ensures var (out', e) := Perform(cfg, out, call);
            var body := if MustCompress(cfg, call) then cfg.compress(call.data) else Some(call.data);
            if body.None? then out' == out && e == Some(CodecError)
            else
              |body.value| < 0x8000_0000_0000_0000 ==>
                e == None && Wrote(out, out', FrameOfCall(cfg, out.drawn, call, body.value))
  {
    hide SendFrame, Wrote;
    var body := if MustCompress(cfg, call) then cfg.compress(call.data) else Some(call.data);
    assert WirePayload(cfg, call) == body;
    if body.Some? && |body.value| < 0x8000_0000_0000_0000 {
      SendFrameWrites(cfg, out, CallOpcode(call), CallFin(call), Compresses(cfg, call), body.value);
    }
  }

  /** A CLOSE frame with a code and a reason. */
  function CloseFrame(cfg: Config, drawn: nat, code: Code, reason: seq<byte>): (f: Frame)
  {
    Frame(Header(true, false, false, false, Close, KeyFor(cfg, drawn)), [code / 256, code % 256] + reason)
  }

  lemma CloseFrameWrites(cfg: Config, out: Output, code: Code, reason: seq<byte>)
    requires out.capacity.None? && |reason| < 0x7FFF_FFFF_FFFF_FFFE
    ensures var (out', ok) := SendFrame(cfg, out, Close, true, false, CloseBody(code, reason));
            ok && Wrote(out, out', CloseFrame(cfg, out.drawn, code, reason))
  {
    hide SendFrame, Wrote;
    SendFrameWrites(cfg, out, Close, true, false, CloseBody(code, reason));
  }

  /** What the peer makes of a CLOSE: the code if it may be sent, and the reason. */
  lemma CloseReceived(code: Code, reason: seq<byte>)
    ensures ReceivedCode(CloseBody(code, reason)) == (if MayBeSent(code) then code else 1002)
    ensures ReceivedReason(CloseBody(code, reason)) == reason
  {
    assert ([code / 256, code % 256] + reason)[2..] == reason;
  }

  /**
   * `close` writes one CLOSE, with the code if that may be sent and 1002 otherwise, and only then is the
   * connection closed.
   */
  lemma CloseWrites(cfg: Config, c: Conn, code: Code, reason: seq<byte>)
    requires c.out.capacity.None? && |reason| < 0x7FFF_FFFF_FFFF_FFFE
    ensures var (c', ok) := CloseWith(cfg, c, code, reason);
            && ok && c' == c.(open := false, out := c'.out)
            && Wrote(c.out, c'.out, CloseFrame(cfg, c.out.drawn, if MayBeSent(code) then code else 1002, reason))
  {
    hide SendFrame, Wrote, MayBeSent;
    CloseFrameWrites(cfg, c.out, Sanitize(code), reason);
  }

  /** If the transport does not take the CLOSE, `close` fails and the connection stays as open as it was. */
  lemma CloseFails(cfg: Config, c: Conn, code: Code, reason: seq<byte>)
    ensures var (c', ok) := CloseWith(cfg, c, code, reason);
            && c' == c.(open := c.open && !ok, out := c'.out)
            && (ok <==> SendFrame(cfg, c.out, Close, true, false, CloseBody(Sanitize(code), reason)).1)
  {
    hide SendFrame;
  }

  /** A ping is answered by one pong with the same payload. */
  lemma PingWrites(cfg: Config, c: Conn, f: Frame)
    requires f.header.opcode.Ping? && c.out.capacity.None? && |f.payload| < 0x8000_0000_0000_0000
    ensures var (done, c') := Dispatch(cfg, c, f);
            && done == None && c' == c.(out := c'.out)
            && Wrote(c.out, c'.out, Frame(Header(true, false, false, false, Pong, KeyFor(cfg, c.out.drawn)), f.payload))
  {
    hide SendFrame, Wrote;
    SendFrameWrites(cfg, c.out, Pong, true, false, f.payload);
  }

  /** If the pong cannot be written, that is the error of the call, and nothing else changes. */
  lemma PingFails(cfg: Config, c: Conn, f: Frame)
    requires f.header.opcode.Ping?
    ensures var ((done, c'), ok) := (Dispatch(cfg, c, f), SendFrame(cfg, c.out, Pong, true, false, f.payload).1);
            done == (if ok then None else Some(Failed(IoError))) && c' == c.(out := c'.out)
  {
    hide SendFrame;
  }

  /** A violation is reported as one even if the CLOSE for it cannot be written; then the connection stays open. */
  lemma ViolationReported(cfg: Config, c: Conn, why: string)
    ensures var (o, c') := FailProtocol(cfg, c, why);
            var ok := SendFrame(cfg, c.out, Close, true, false, CloseBody(1002, Reason(why))).1;
            o == Failed(ProtocolError) && c' == c.(open := c.open && !ok, out := c'.out)
  {
    hide SendFrame, Reason;
  }

  /** Ill-formed text is closed with 1007; only there does a failed write hide the violation. */
  lemma IllFormedTextReported(cfg: Config, c: Conn, data: seq<byte>)
    requires !Utf8.WellFormed(data)
    ensures var (o, c') := Deliver(cfg, c, Text, data, false);
            var reason := Reason("Invalid UTF-8 in text frame");
            var ok := SendFrame(cfg, c.out, Close, true, false, CloseBody(1007, reason)).1;
            && o == Failed(if ok then ProtocolError else IoError) && c' == c.(open := c.open && !ok, out := c'.out)
  {
    hide SendFrame, Reason, Utf8.WellFormed;
  }

  /** The code the peer's CLOSE stands for. */
  ghost predicate CodeOf(payload: seq<byte>, code: Code)
  {
    if |payload| < 2 then code == 1000
    else
      var sent: Code := payload[0] as nat * 256 + payload[1];
      code == if MayBeSent(sent) then sent else 1002
  }

  /**
   * The peer's CLOSE is remembered with its code and reason; the reply is one CLOSE with that code and no
   * reason, after which the connection is closed. If the reply cannot be written, that is the error and
   * the connection stays open, but the peer's code and reason are remembered all the same.
   */
  lemma CloseAnswered(cfg: Config, c: Conn, payload: seq<byte>, code: Code)
    requires CodeOf(payload, code)
    ensures var (o, c') := HandleClose(cfg, c, payload);
            var reason := if |payload| < 2 then [] else payload[2..];
            && c'.lastClose == Some((code, cfg.lossy(reason))) && c'.fragment == c.fragment && c'.broken == c.broken
            && (o == Ended <==> SendFrame(cfg, c.out, Close, true, false, CloseBody(code, [])).1)
            && ((o == Ended && !c'.open) || (o == Failed(IoError) && c'.open == c.open))
            && (c.out.capacity.None? ==> o == Ended && Wrote(c.out, c'.out, CloseFrame(cfg, c.out.drawn, code, [])))
  {
    hide SendFrame, Wrote;
    assert ReceivedCode(payload) == code;
    if c.out.capacity.None? {
      CloseFrameWrites(cfg, c.out, code, []);
    }
  }
}
