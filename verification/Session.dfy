/**
 * What one endpoint of the Rust crate does, as functions on values: writing frames, validating and
 * dispatching received ones, reassembling fragments. `RustConnection` proves the code against these
 * functions and `EndToEnd` proves what they achieve.
 */
module Session {
  import opened Bytes
  import opened Frames
  import opened Builder
  import opened CloseCodes
  import Utf8

  datatype Role = Client | Server

  /**
   * What stays fixed during a session: the role, whether permessage-deflate was negotiated and is
   * compiled in, the codec (which may fail), the source of masking keys, and the decoding of received text
   * that replaces what is not UTF-8.
   */
  datatype Config = Config(role: Role, deflate: bool, deflateBuilt: bool,
                           compress: seq<byte> -> Option<seq<byte>>, decompress: seq<byte> -> Option<seq<byte>>,
                           keys: nat -> Key, lossy: seq<byte> -> seq<byte>)

  datatype Message = Message(opcode: Opcode, payload: seq<byte>)

  datatype Fragment = Fragment(active: bool, buffer: seq<byte>, opcode: Opcode, compressed: bool)

  /** `FragmentState::reset` */
  const NO_FRAGMENT := Fragment(false, [], Text, false)

  /**
   * The outgoing side of the transport: bytes written, how many more it takes before writes fail
   * (`None`: it never fails), and how many masking keys were drawn.
   */
  datatype Output = Output(bytes: seq<byte>, capacity: Option<nat>, drawn: nat)

  /** State of a connection apart from its input. `broken` is set when the parser met an error. */
  datatype Conn = Conn(open: bool, broken: bool, fragment: Fragment, lastClose: Option<(Code, seq<byte>)>, out: Output)

  datatype Failure = ProtocolError | IoError | CodecError

  // ---- Writing -------------------------------------------------------------------------

  /** `write_all`: everything, or as much as the transport takes and a failure. */
  function Write(out: Output, data: seq<byte>): (r: (Output, bool))
  {
    match out.capacity
    case None => (out.(bytes := out.bytes + data), true)
    case Some(c) =>
      if |data| <= c then (out.(bytes := out.bytes + data, capacity := Some(c - |data|)), true)
      else (out.(bytes := out.bytes + data[..c], capacity := Some(0)), false)
  }

  /** The key the next frame is masked with: clients mask, servers do not. */
  function NextKey(cfg: Config, out: Output): (key: Option<Key>)
  {
    if cfg.role.Client? then Some(cfg.keys(out.drawn)) else None
  }

  function Draw(cfg: Config, out: Output): (r: Output)
  {
    if cfg.role.Client? then out.(drawn := out.drawn + 1) else out
  }

  /** `send_frame_into` with `build_into_opcode`. */
  function SendFrame(cfg: Config, out: Output, op: Opcode, fin: bool, rsv1: bool, payload: seq<byte>): (r: (Output,
                     bool))
  {
    Write(Draw(cfg, out), Encode(FrameOf(op, fin, rsv1, NextKey(cfg, out), payload)))
  }

  /** `close`: sends a CLOSE with a sanitized code; the connection is closed if that could be written. */
  function CloseWith(cfg: Config, c: Conn, code: Code, reason: seq<byte>): (r: (Conn, bool))
  {
    var (out, ok) := SendFrame(cfg, c.out, Close, true, false, CloseBody(Sanitize(code), reason));
    (c.(out := out, open := if ok then false else c.open), ok)
  }

  /** The public senders. */
  datatype Call = SendText(data: seq<byte>, fin: bool) | SendBinary(data: seq<byte>, fin: bool)
                | SendContinuation(data: seq<byte>, fin: bool) | SendPing(data: seq<byte>) | SendPong(data: seq<byte>)

  function CallOpcode(call: Call): (op: Opcode)
  {
    match call
    case SendText(_, _) => Text
    case SendBinary(_, _) => Binary
    case SendContinuation(_, _) => Continuation
    case SendPing(_) => Ping
    case SendPong(_) => Pong
  }

  function CallFin(call: Call): (fin: bool)
  {
    match call
    case SendText(_, fin) => fin
    case SendBinary(_, fin) => fin
    case SendContinuation(_, fin) => fin
    case _ => true
  }

  /** Whether `send_data_frame` compresses: only complete text and binary messages. */
  predicate Compresses(cfg: Config, call: Call)
  {
    cfg.deflateBuilt && cfg.deflate && CallFin(call) && (call.SendText? || call.SendBinary?)
  }

  /** The payload a call puts on the wire, unless compression fails. */
  function WirePayload(cfg: Config, call: Call): (p: Option<seq<byte>>)
  {
    if Compresses(cfg, call) then cfg.compress(call.data) else Some(call.data)
  }

  /** `send_text`, `send_binary`, `send_continuation`, `send_ping`, `send_pong` */
  function Perform(cfg: Config, out: Output, call: Call): (r: (Output, Option<Failure>))
  {
    var p := WirePayload(cfg, call);
    if p.None? then (out, Some(CodecError))
    else
      var (out', ok) := SendFrame(cfg, out, CallOpcode(call), CallFin(call), Compresses(cfg, call), p.value);
      (out', if ok then None else Some(IoError))
  }

  // ---- Reading frames ------------------------------------------------------------------

  /** `validate_incoming`, in the order of its checks. */
  predicate Acceptable(h: Header, role: Role, deflate: bool)
  {
    var dataOpcode := h.opcode.Text? || h.opcode.Binary? || h.opcode.Continuation?;
    if h.rsv1 && (!deflate || !dataOpcode) then false
    else if h.rsv1 && h.opcode.Continuation? then false
    else if h.rsv2 || h.rsv3 || (!deflate && h.rsv1) then false
    else if role.Server? && h.key.None? then false
    else if role.Client? && h.key.Some? then false
    else true
  }

  datatype FrameResult = Got(frame: Frame) | NoFrame | FrameError(failure: Failure)

  /** Reason texts of the CLOSE frames the endpoint sends on its own. */
  function Reason(why: string): (s: seq<byte>)
  {
    seq(|why|, i requires 0 <= i < |why| => why[i] as int % 256)
  }

  /**
   * `read_frame` on the bytes `input` that are buffered or still to arrive, whatever pieces they
   * arrive in. `eof` tells whether the transport ends or fails after them.
   */
  function ReadFrameStep(cfg: Config, c: Conn, input: seq<byte>, eof: bool): (r: (FrameResult, Conn, seq<byte>))
    ensures r.0.Got? ==> |r.2| < |input| && r.1 == c && c.open
  {
    if !c.open then (NoFrame, c, input)
    else match Visible(input)
      case Whole(f, n) =>
        (if Acceptable(f.header, cfg.role, cfg.deflate) then Got(f) else FrameError(ProtocolError), c, input[n..])
      case Malformed =>
        (FrameError(ProtocolError), CloseWith(cfg, c.(broken := true), 1002, Reason("invalid frame")).0, input)
      case NeedMore =>
        if eof then (NoFrame, c.(open := false), input) else (FrameError(IoError), c, input)
  }

  /** `read_frame` on an open connection, by what the parser reports. */
  lemma ReadFrameCases(cfg: Config, c: Conn, input: seq<byte>, eof: bool)
    requires c.open
    ensures var r := ReadFrameStep(cfg, c, input, eof);
            match Visible(input)
            case Whole(f, n) =>
              && r.1 == c && r.2 == input[n..]
              && r.0 == if Acceptable(f.header, cfg.role, cfg.deflate) then Got(f) else FrameError(ProtocolError)
            case Malformed =>
              && r.0 == FrameError(ProtocolError) && r.2 == input
              && r.1 == CloseWith(cfg, c.(broken := true), 1002, Reason("invalid frame")).0
            case NeedMore =>
              r == if eof then (NoFrame, c.(open := false), input) else (FrameError(IoError), c, input)
  {
    hide Visible, Acceptable, CloseWith;
  }

  // ---- Reading messages ----------------------------------------------------------------

  datatype Outcome = Delivered(message: Message) | Ended | Failed(failure: Failure)

  /** `fail_protocol`: tries to close with 1002 and reports the violation whether or not that worked. */
  function FailProtocol(cfg: Config, c: Conn, why: string): (r: (Outcome, Conn))
  {
    (Failed(ProtocolError), CloseWith(cfg, c, 1002, Reason(why)).0)
  }

  /** `deliver_message` */
  function Deliver(cfg: Config, c: Conn, op: Opcode, payload: seq<byte>, compressed: bool): (r: (Outcome, Conn))
  {
    if compressed && (!cfg.deflate || !cfg.deflateBuilt) then
      FailProtocol(cfg, c, "Compressed frame without negotiated extension")
    else
      var plain := if compressed then cfg.decompress(payload) else Some(payload);
      if plain.None? then (Failed(CodecError), c)
      else if op.Text? && !Utf8.WellFormed(plain.value) then
        var (c', ok) := CloseWith(cfg, c, 1007, Reason("Invalid UTF-8 in text frame"));
        (Failed(if ok then ProtocolError else IoError), c')
      else (Delivered(Message(op, plain.value)), c)
  }

  /** `handle_close_frame`: remembers the peer's code and reason and echoes the code. */
  function HandleClose(cfg: Config, c: Conn, payload: seq<byte>): (r: (Outcome, Conn))
  {
    var code := ReceivedCode(payload);
    var c1 := c.(lastClose := Some((code, cfg.lossy(ReceivedReason(payload)))));
    var (out, ok) := SendFrame(cfg, c1.out, Close, true, false, CloseBody(code, []));
    if ok then (Ended, c1.(out := out, open := false)) else (Failed(IoError), c1.(out := out))
  }

  /** What the body of the `read_message` loop does with one frame: `None` to go on reading. */
  function Dispatch(cfg: Config, c: Conn, f: Frame): (r: (Option<Outcome>, Conn))
  {
    match f.header.opcode
    case Close =>
      var (o, c') := HandleClose(cfg, c, f.payload); (Some(o), c')
    case Ping =>
      var (out, ok) := SendFrame(cfg, c.out, Pong, true, false, f.payload);
      (if ok then None else Some(Failed(IoError)), c.(out := out))
    case Pong => (None, c)
    case Continuation =>
      if !c.fragment.active then
        var (o, c') := FailProtocol(cfg, c, "Unexpected continuation frame"); (Some(o), c')
      else
        var frag := c.fragment.(buffer := c.fragment.buffer + f.payload);
        if !f.header.fin then (None, c.(fragment := frag))
        else
          var (o, c') := Deliver(cfg, c.(fragment := NO_FRAGMENT), frag.opcode, frag.buffer, frag.compressed);
          (Some(o), c')
    case _ =>
      if c.fragment.active then
        var (o, c') := FailProtocol(cfg, c, "New data frame before fragmented message completed"); (Some(o), c')
      else if !f.header.fin then
        (None, c.(fragment := Fragment(true, f.payload, f.header.opcode, f.header.rsv1)))
      else
        var (o, c') := Deliver(cfg, c, f.header.opcode, f.payload, f.header.rsv1); (Some(o), c')
  }

  /** `read_message`: frames are dispatched until one of them ends the call. */
  function ReadMessageStep(cfg: Config, c: Conn, input: seq<byte>, eof: bool): (r: (Outcome, Conn, seq<byte>))
    ensures r.0.Delivered? ==> |r.2| < |input|
    decreases |input|
  {
    var (fr, c1, rest) := ReadFrameStep(cfg, c, input, eof);
    match fr
    case NoFrame => (Ended, c1, rest)
    case FrameError(e) => (Failed(e), c1, rest)
    case Got(f) =>
      var (done, c2) := Dispatch(cfg, c1, f);
      if done.Some? then (done.value, c2, rest) else ReadMessageStep(cfg, c2, rest, eof)
  }

  lemma DeliverKeepsParser(cfg: Config, c: Conn, op: Opcode, payload: seq<byte>, compressed: bool)
    ensures Deliver(cfg, c, op, payload, compressed).1.broken == c.broken
  {
    hide SendFrame, Utf8.WellFormed, Reason, CloseBody;
  }

  lemma DispatchKeepsParser(cfg: Config, c: Conn, f: Frame)
    ensures Dispatch(cfg, c, f).1.broken == c.broken
  {
    hide SendFrame, Reason, CloseBody, ReceivedCode, ReceivedReason, Deliver, Sanitize;
    if f.header.opcode.Continuation? {
      var frag := c.fragment.(buffer := c.fragment.buffer + f.payload);
      DeliverKeepsParser(cfg, c.(fragment := NO_FRAGMENT), frag.opcode, frag.buffer, frag.compressed);
    } else {
      DeliverKeepsParser(cfg, c, f.header.opcode, f.payload, f.header.rsv1);
    }
  }

  /** Only a malformed frame breaks the parser, so a delivered message leaves it intact. */
  lemma {:induction false} DeliveredKeepsParser(cfg: Config, c: Conn, input: seq<byte>, eof: bool)
    ensures var r := ReadMessageStep(cfg, c, input, eof); r.0.Delivered? ==> r.1.broken == c.broken
    decreases |input|
  {
    hide Dispatch, ReadFrameStep;
    var (fr, c1, rest) := ReadFrameStep(cfg, c, input, eof);
    if fr.Got? {
      DispatchKeepsParser(cfg, c1, fr.frame);
      DeliveredKeepsParser(cfg, Dispatch(cfg, c1, fr.frame).1, rest, eof);
    }
  }

  // ---- Sessions ------------------------------------------------------------------------

  /** The messages of successive `read_message` calls up to the first that delivers none, and how that one ended. */
  datatype Transcript = Transcript(messages: seq<Message>, last: Outcome, conn: Conn, rest: seq<byte>)

  function ReadAll(cfg: Config, c: Conn, input: seq<byte>, eof: bool): (t: Transcript)
    decreases |input|
  {
    var (o, c', rest) := ReadMessageStep(cfg, c, input, eof);
    if o.Delivered? then
      var t := ReadAll(cfg, c', rest, eof);
      t.(messages := [o.message] + t.messages)
    else Transcript([], o, c', rest)
  }

  lemma ReadAllFirst(cfg: Config, c: Conn, input: seq<byte>, eof: bool)
    ensures var (o, c', rest) := ReadMessageStep(cfg, c, input, eof);
            ReadAll(cfg, c, input, eof) ==
            if o.Delivered? then
              var t := ReadAll(cfg, c', rest, eof);
              t.(messages := [o.message] + t.messages)
            else Transcript([], o, c', rest)
  {
    hide ReadMessageStep;
  }

  /** How `echo_session` answers a message. */
  function EchoCall(m: Message): (call: Option<Call>)
  {
    match m.opcode
    case Text => Some(SendText(m.payload, true))
    case Binary => Some(SendBinary(m.payload, true))
    case _ => None
  }

  /** `echo_session`: answers every message until the connection ends or a call fails. */
  function Echo(cfg: Config, c: Conn, input: seq<byte>, eof: bool): (r: (Option<Failure>, Conn, seq<byte>))
    decreases |input|
  {
    if !c.open then (None, c, input)
    else
      var (o, c1, rest) := ReadMessageStep(cfg, c, input, eof);
      match o
      case Ended => (None, c1, rest)
      case Failed(e) => (Some(e), c1, rest)
      case Delivered(m) =>
        if m.opcode.Text? && !Utf8.WellFormed(m.payload) then (Some(ProtocolError), c1, rest)
        else
          var call := EchoCall(m);
          if call.None? then Echo(cfg, c1, rest, eof)
          else
            var (out, e) := Perform(cfg, c1.out, call.value);
            if e.Some? then (e, c1.(out := out), rest) else Echo(cfg, c1.(out := out), rest, eof)
  }
}
