/**
 * The blocking connection of the Rust crate: persistent read buffer and cursor, fragment state,
 * outbound buffer and open flag, updated by `read_frame` and `read_message`.
 */
module RustConnection {
  import opened Bytes
  import opened Masking
  import opened Frames
  import opened Builder
  import opened CloseCodes
  import opened Session
  import P = Parser
  import Utf8

  datatype ReadOutcome = Data(bytes: seq<byte>) | Eof | Broken

  /**
   * The transport. `chunks` are the pieces later reads will return, in order; after them reads
   * report the end of the stream or an error, according to `eof`.
   */
  class Stream {
    var chunks: seq<seq<byte>>
    const eof: bool
    var out: Output

    ghost predicate Valid()
      reads this
    {
      forall i | 0 <= i < |chunks| :: chunks[i] != []
    }

    constructor (chunks: seq<seq<byte>>, eof: bool, capacity: Option<nat>)
      requires forall i | 0 <= i < |chunks| :: chunks[i] != []
      ensures Valid() && this.chunks == chunks && this.eof == eof && out == Output([], capacity, 0)
    {
      this.chunks, this.eof, this.out := chunks, eof, Output([], capacity, 0);
    }

    method Read() returns (r: ReadOutcome)
      requires Valid()
      modifies this`chunks
      ensures Valid()
      ensures old(chunks) == [] ==> chunks == [] && r == if eof then Eof else Broken
      ensures old(chunks) != [] ==> r == Data(old(chunks)[0]) && chunks == old(chunks)[1..]
    {
      if |chunks| == 0 {
        r := if eof then Eof else Broken;
      } else {
        r := Data(chunks[0]);
        chunks := chunks[1..];
      }
    }

    method WriteAll(data: seq<byte>) returns (ok: bool)
      modifies this`out
      ensures (out, ok) == Write(old(out), data)
    {
      match out.capacity
      case None =>
        out, ok := out.(bytes := out.bytes + data), true;
      case Some(c) =>
        if |data| <= c {
          out, ok := out.(bytes := out.bytes + data, capacity := Some(c - |data|)), true;
        } else {
          out, ok := out.(bytes := out.bytes + data[..c], capacity := Some(0)), false;
        }
    }
  }

  // ---- Conservation of received bytes --------------------------------------------------

  /** `s` is nothing but wire images of the frames `fs`, in order. */
  ghost predicate Splits(s: seq<byte>, fs: seq<Frame>)
    decreases |fs|
  {
    if fs == [] then s == []
    else Decode(s).Whole? && Decode(s).frame == fs[0] && Splits(s[Decode(s).size..], fs[1..])
  }

  lemma {:induction false} SplitsAppend(s: seq<byte>, fs: seq<Frame>, t: seq<byte>, f: Frame)
    requires Splits(s, fs) && Decode(t) == Whole(f, |t|)
    ensures Splits(s + t, fs + [f])
    decreases |fs|
  {
    hide Decode;
    if fs == [] {
      assert s + t == t && t[|t|..] == [] && [f][1..] == [] && fs + [f] == [f];
      assert Splits([], []);
    } else {
      var n := Decode(s).size;
      DecodePrefix(s, t);
      SplitsAppend(s[n..], fs[1..], t, f);
      assert (s + t)[n..] == s[n..] + t && (fs + [f])[1..] == fs[1..] + [f];
    }
  }

  /** Everything received decodes to the frames handed out, then to the frames still pending. */
  lemma {:induction false} Conserved(s: seq<byte>, fs: seq<Frame>, pending: seq<byte>)
    requires Splits(s, fs)
    ensures DecodeStream(s + pending) == fs + DecodeStream(pending)
    decreases |fs|
  {
    hide Decode;
    if fs == [] {
      assert s + pending == pending && fs + DecodeStream(pending) == DecodeStream(pending);
    } else {
      var n := Decode(s).size;
      DecodePrefix(s, pending);
      Conserved(s[n..], fs[1..], pending);
      assert (s + pending)[n..] == s[n..] + pending;
      assert [fs[0]] + (fs[1..] + DecodeStream(pending)) == fs + DecodeStream(pending);
    }
  }

  /** What a completed frame means for the bytes before and after it. */
  lemma FrameCut(before: seq<byte>, unread: seq<byte>, used: nat, f: Frame)
    requires used <= |unread| && Visible(before + unread) == Whole(f, |before| + used)
    ensures (before + unread)[|before| + used..] == unread[used..]
    ensures Decode(before + unread[..used]) == Whole(f, |before + unread[..used]|)
    ensures before + unread[..used] + unread[used..] == before + unread
  {
    P.DecodeExact(before + unread);
    assert (before + unread)[..|before| + used] == before + unread[..used];
    hide Decode;
  }

  /** Bytes that have not arrived yet do not change what the pending ones show. */
  lemma LaterBytes(pending: seq<byte>, later: seq<byte>)
    ensures Visible(pending).Whole? ==>
              && Visible(pending + later) == Visible(pending)
              && (pending + later)[Visible(pending).size..] == pending[Visible(pending).size..] + later
    ensures Visible(pending).Malformed? ==> Visible(pending + later).Malformed?
  {
    hide Visible;
    VisiblePrefix(pending, later);
  }

  /** The transcript `all` is the messages read so far and then what `later` says. */
  ghost predicate Follows(all: Transcript, messages: seq<Message>, later: Transcript)
  {
    all == later.(messages := messages + later.messages)
  }

  lemma FollowsItself(t: Transcript)
    ensures Follows(t, [], t)
  {
    assert [] + t.messages == t.messages;
  }

  lemma FollowsNext(cfg: Config, all: Transcript, messages: seq<Message>, c: Conn, input: seq<byte>, eof: bool)
    requires Follows(all, messages, ReadAll(cfg, c, input, eof))
    ensures var (o, c', rest) := ReadMessageStep(cfg, c, input, eof);
            if o.Delivered? then Follows(all, messages + [o.message], ReadAll(cfg, c', rest, eof))
            else all == Transcript(messages, o, c', rest)
  {
    hide ReadMessageStep, ReadAll;
    ReadAllFirst(cfg, c, input, eof);
    var (o, c', rest) := ReadMessageStep(cfg, c, input, eof);
    if o.Delivered? {
      var later := ReadAll(cfg, c', rest, eof).messages;
      assert messages + ([o.message] + later) == messages + [o.message] + later;
    } else {
      assert messages + [] == messages;
    }
  }

  // ---- The connection ------------------------------------------------------------------

  class Connection {
    const cfg: Config
    const order: ByteOrder
    const stream: Stream
    const parser: P.Parser
    const outbound: ByteVec
    var open: bool
    var fragment: Fragment
    var lastClose: Option<(Code, seq<byte>)>
    var buf: seq<byte>
    var pos: nat
    /** All bytes read from the stream so far. */
    ghost var received: seq<byte>
    /** The part of them already turned into frames, and those frames. */
    ghost var consumed: seq<byte>
    ghost var emitted: seq<Frame>

    ghost predicate Valid()
      reads this, stream, parser
    {
      && stream.Valid() && parser.Valid() && pos <= |buf|
      && (!parser.failed ==> received == consumed + Pending() && Splits(consumed, emitted))
    }

    /** Bytes received and not yet part of an emitted frame. */
    ghost function Pending(): (s: seq<byte>)
      reads this, parser
      requires pos <= |buf|
    {
      parser.seen + buf[pos..]
    }

    /** Bytes pending or still to arrive. */
    ghost function Input(): (s: seq<byte>)
      reads this, stream, parser
      requires pos <= |buf|
    {
      Pending() + Concat(stream.chunks)
    }

    ghost function Abs(): (c: Conn)
      reads this, stream, parser
    {
      Conn(open, parser.failed, fragment, lastClose, stream.out)
    }

    /** An open connection whose parser met an error reads garbage; nothing is promised of it. */
    ghost predicate Usable()
      reads this, parser
    {
      open ==> !parser.failed
    }

    /** Never grows while reading and shrinks with every frame. */
    ghost function Remaining(): (n: nat)
      reads this, stream, parser
      requires pos <= |buf|
    {
      2 * (|buf| - pos + |Concat(stream.chunks)|) + (if parser.state.AtPayload? then 1 else 0)
    }

    constructor (cfg: Config, order: ByteOrder, stream: Stream)
      requires stream.Valid()
      ensures Valid() && Usable() && this.cfg == cfg && this.stream == stream
      ensures Abs() == Conn(true, false, NO_FRAGMENT, None, stream.out) && Input() == Concat(stream.chunks)
      ensures fresh(parser) && fresh(outbound)
    {
      this.cfg, this.order, this.stream := cfg, order, stream;
      parser := new P.Parser();
      outbound := new ByteVec();
      open, fragment, lastClose := true, NO_FRAGMENT, None;
      buf, pos := [], 0;
      received, consumed, emitted := [], [], [];
    }

    /** `send_frame_into` with `build_into_opcode` */
    method SendOpcode(op: Opcode, fin: bool, rsv1: bool, payload: seq<byte>) returns (ok: bool)
      modifies stream`out, outbound
      ensures (stream.out, ok) == SendFrame(cfg, old(stream.out), op, fin, rsv1, payload)
    {
      var mask := cfg.role.Client?;
      var key := cfg.keys(stream.out.drawn);
      if mask {
        stream.out := stream.out.(drawn := stream.out.drawn + 1);
      }
      EncodeInto(order, outbound, op, payload, fin, mask, rsv1, key);
      ok := stream.WriteAll(outbound.bytes);
    }

    /** `send_frame_into` with `build_close_into` */
    method SendClose(code: Code, reason: seq<byte>) returns (ok: bool)
      modifies stream`out, outbound
      ensures (stream.out, ok) == SendFrame(cfg, old(stream.out), Close, true, false, CloseBody(code, reason))
    {
      var mask := cfg.role.Client?;
      var key := cfg.keys(stream.out.drawn);
      if mask {
        stream.out := stream.out.(drawn := stream.out.drawn + 1);
      }
      BuildCloseInto(order, outbound, code, reason, mask, key);
      ok := stream.WriteAll(outbound.bytes);
    }

    /** `send_text`, `send_binary` (through `send_data_frame`), `send_continuation`, `send_ping` and `send_pong` */
    method Send(call: Call) returns (e: Option<Failure>)
      modifies stream`out, outbound
      ensures (stream.out, e) == Perform(cfg, old(stream.out), call)
    {
      hide SendFrame;
      var payload, rsv1 := call.data, false;
      if cfg.deflateBuilt && cfg.deflate && CallFin(call) && (call.SendText? || call.SendBinary?) {
        var compressed := cfg.compress(call.data);
        if compressed.None? {
          return Some(CodecError);
        }
        payload, rsv1 := compressed.value, true;
      }
      var ok := SendOpcode(CallOpcode(call), CallFin(call), rsv1, payload);
      return if ok then None else Some(IoError);
    }

    /** `close` */
    method CloseConnection(code: Code, reason: seq<byte>) returns (ok: bool)
      modifies this`open, stream`out, outbound
      ensures (Abs(), ok) == CloseWith(cfg, old(Abs()), code, reason)
    {
      ok := SendClose(Sanitize(code), reason);
      if ok {
        open := false;
      }
    }

    /** One round of `parser.parse(&rs.buf[rs.pos..])` and what follows it on completion. */
    method ParseBuffered() returns (result: P.ParseResult, frame: Option<Frame>)
      requires Valid()
      modifies this`buf, this`pos, this`consumed, this`emitted, parser
      ensures Valid() && (old(parser.failed) ==> parser.failed) && (result.Complete? ==> frame.Some?)
      ensures Remaining() <= old(Remaining()) && (result.Complete? ==> Remaining() < old(Remaining()))
      ensures !old(parser.failed) ==>
        match result
        case Incomplete =>
          !parser.failed && Pending() == old(Pending()) && emitted == old(emitted) && Visible(Pending()).NeedMore?
        case Complete =>
          && !parser.failed && frame.Some? && emitted == old(emitted) + [frame.value]
          && var n := |old(Pending())| - |Pending()|;
          n >= 0 && Visible(old(Pending())) == Whole(frame.value, n) && Pending() == old(Pending())[n..]
        case Error => parser.failed && Visible(old(Pending())).Malformed?
    {
      hide Visible, Splits, P.Consistent, Concat;
      ghost var before, unread := parser.seen, buf[pos..];
      var used;
      result, used := parser.Parse(order, buf[pos..]);
      pos := pos + used;
      frame := None;
      assert buf[pos..] == unread[used..];
      if result.Complete? {
        var taken := TakeCompleted(before, unread, used);
        frame := Some(taken);
      } else if result.Incomplete? {
        assert !parser.failed ==> parser.seen + unread[used..] == before + unread;
      }
    }

    /** Takes the completed frame; a fully consumed buffer is emptied. */
    method TakeCompleted(ghost before: seq<byte>, ghost unread: seq<byte>, ghost used: nat) returns (frame: Frame)
      requires parser.Valid() && stream.Valid() && parser.state.AtHeader? && pos <= |buf|
      requires used <= |unread| && buf[pos..] == unread[used..]
      requires !parser.failed ==>
                 && received == consumed + (before + unread) && Splits(consumed, emitted) && parser.seen == []
                 && Visible(before + unread) == Whole(Frame(parser.header.Meaning(), parser.buffer), |before| + used)
      modifies this`buf, this`pos, this`consumed, this`emitted, parser
      ensures Valid() && parser.failed == old(parser.failed) && parser.state.AtHeader?
      ensures |buf| - pos == old(|buf| - pos)
      ensures !parser.failed ==>
                && emitted == old(emitted) + [frame] && Visible(before + unread) == Whole(frame, |before| + used)
                && Pending() == (before + unread)[|before| + used..]
    {
      hide Visible, Splits, P.Consistent, Concat;
      frame := parser.TakeFrame();
      if !parser.failed {
        FrameCut(before, unread, used, frame);
        SplitsAppend(consumed, emitted, before + unread[..used], frame);
        assert consumed + (before + unread) == consumed + (before + unread[..used]) + unread[used..];
        consumed, emitted := consumed + (before + unread[..used]), emitted + [frame];
      }
      if pos == |buf| {
        buf, pos := [], 0;
      }
      assert buf[pos..] == unread[used..];
      assert !parser.failed ==> Pending() == unread[used..];
    }

    /** Drops the consumed part of the buffer and reads the next piece from the stream. */
    method Fill() returns (n: ReadOutcome)
      requires Valid()
      modifies this`buf, this`pos, this`received, stream`chunks
      ensures Valid() && |stream.chunks| <= |old(stream.chunks)| && (n.Data? ==> |stream.chunks| < |old(stream.chunks)|)
      ensures Input() == old(Input()) && Remaining() == old(Remaining())
      ensures !n.Data? ==> stream.chunks == [] && Pending() == old(Pending()) == Input()
      ensures !n.Data? ==> n == if stream.eof then Eof else Broken
    {
      hide Splits, P.Consistent, Concat;
      ghost var was := Pending();
      if stream.chunks == [] {
        P.NoPieces(stream.chunks);
      } else {
        P.ConcatFirst(stream.chunks);
      }
      if pos > 0 {
        buf := buf[pos..];
        pos := 0;
      }
      assert Pending() == was;
      ghost var chunks := stream.chunks;
      n := stream.Read();
      if n.Data? {
        buf := buf + n.bytes;
        received := received + n.bytes;
        assert Pending() == was + n.bytes;
        assert was + Concat(chunks) == was + n.bytes + Concat(stream.chunks);
        assert !parser.failed ==> consumed + (was + n.bytes) == consumed + was + n.bytes;
      } else {
        assert was + Concat(stream.chunks) == was;
      }
    }

    /** The result and the state are those of `expected`. */
    ghost predicate FrameRead(r: FrameResult, expected: (FrameResult, Conn, seq<byte>))
      reads this, stream, parser
      requires pos <= |buf|
    {
      r == expected.0 && Abs() == expected.1 && (!parser.failed ==> Input() == expected.2)
    }

    /** One iteration of the `read_frame` loop; `None` when it has to go round again. */
    method TryReadFrame() returns (r: Option<FrameResult>)
      requires Valid() && open
      modifies this, stream, parser, outbound
      ensures Valid() && Remaining() <= old(Remaining())
      ensures r.None? ==> |stream.chunks| < |old(stream.chunks)| && Abs() == old(Abs()) && fragment == old(fragment)
      ensures r.None? && !parser.failed ==> Input() == old(Input()) && emitted == old(emitted)
      ensures r.Some? && r.value.Got? ==> Remaining() < old(Remaining())
      ensures r.Some? && !old(parser.failed) ==>
                && FrameRead(r.value, ReadFrameStep(cfg, old(Abs()), old(Input()), stream.eof))
                && (r.value.Got? ==> emitted == old(emitted) + [r.value.frame])
                && (r.value.NoFrame? ==> Visible(Pending()).NeedMore?)
    {
      hide Visible, Splits, P.Consistent, CloseWith, Acceptable, Concat, Reason, ReadFrameStep;
      if !parser.failed {
        LaterBytes(Pending(), Concat(stream.chunks));
      }
      ReadFrameCases(cfg, Abs(), Input(), stream.eof);
      var result, frame := ParseBuffered();
      match result {
        case Complete =>
          if !Acceptable(frame.value.header, cfg.role, cfg.deflate) {
            return Some(FrameError(ProtocolError));
          }
          return Some(Got(frame.value));
        case Error =>
          var ok := CloseConnection(1002, Reason("invalid frame"));
          return Some(FrameError(ProtocolError));
        case Incomplete =>
          r := ReadMore();
      }
    }

    /** The incomplete case of the loop: reads once, and ends the call if there is nothing to read. */
    method ReadMore() returns (r: Option<FrameResult>)
      requires Valid() && open
      modifies this`buf, this`pos, this`received, this`open, stream`chunks
      ensures Valid() && Input() == old(Input()) && Remaining() == old(Remaining())
      ensures r.None? ==> |stream.chunks| < |old(stream.chunks)| && Abs() == old(Abs())
      ensures r.Some? ==> stream.chunks == [] && Pending() == old(Pending()) == Input()
      ensures r.Some? ==> r.value == (if stream.eof then NoFrame else FrameError(IoError)) && open == !stream.eof
    {
      hide Visible, Splits, P.Consistent, Concat;
      var n := Fill();
      match n {
        case Eof =>
          open := false;
          return Some(NoFrame);
        case Broken =>
          return Some(FrameError(IoError));
        case Data(_) =>
          return None;
      }
    }

    /** `read_frame` */
    method ReadFrame() returns (r: FrameResult)
      requires Valid()
      modifies this, stream, parser, outbound
      ensures Valid() && (r.Got? ==> Remaining() < old(Remaining()))
      ensures old(Usable()) ==> FrameRead(r, ReadFrameStep(cfg, old(Abs()), old(Input()), stream.eof))
      ensures old(Usable()) && r.Got? ==> emitted == old(emitted) + [r.frame]
      ensures old(Usable()) && r.NoFrame? && old(open) ==> Visible(Pending()).NeedMore?
    {
      if !open {
        return NoFrame;
      }
      hide Visible, Splits, P.Consistent, Concat, ReadFrameStep;
      while true
        invariant Valid() && Abs() == old(Abs()) && Remaining() <= old(Remaining())
        invariant !parser.failed ==> Input() == old(Input()) && emitted == old(emitted)
        decreases |stream.chunks|
      {
        var step := TryReadFrame();
        if step.Some? {
          return step.value;
        }
      }
    }

    /** `deliver_message` */
    method DeliverMessage(op: Opcode, payload: seq<byte>, compressed: bool) returns (r: Session.Outcome)
      modifies this`open, stream`out, outbound
      ensures (r, Abs()) == Deliver(cfg, old(Abs()), op, payload, compressed)
    {
      hide CloseWith, Utf8.WellFormed;
      var plain := payload;
      if compressed {
        if !cfg.deflate || !cfg.deflateBuilt {
          var _ := CloseConnection(1002, Reason("Compressed frame without negotiated extension"));
          return Failed(ProtocolError);
        }
        var d := cfg.decompress(plain);
        if d.None? {
          return Failed(CodecError);
        }
        plain := d.value;
      }
      if op.Text? {
        var valid := Utf8.IsValidUtf8(order, plain);
        if !valid {
          var ok := CloseConnection(1007, Reason("Invalid UTF-8 in text frame"));
          return Failed(if ok then ProtocolError else IoError);
        }
      }
      return Delivered(Message(op, plain));
    }

    /** `handle_close_frame` */
    method HandleCloseFrame(payload: seq<byte>) returns (r: Session.Outcome)
      modifies this`open, this`lastClose, stream`out, outbound
      ensures (r, Abs()) == HandleClose(cfg, old(Abs()), payload)
    {
      hide SendFrame;
      var code := ReceivedCode(payload);
      lastClose := Some((code, cfg.lossy(ReceivedReason(payload))));
      var ok := SendClose(code, []);
      if !ok {
        return Failed(IoError);
      }
      open := false;
      return Ended;
    }

    /** The body of the `read_message` loop after a frame was read. */
    method HandleFrame(f: Frame) returns (done: Option<Session.Outcome>)
      modifies this`open, this`lastClose, this`fragment, stream`out, outbound
      ensures (done, Abs()) == Dispatch(cfg, old(Abs()), f)
    {
      hide SendFrame, Deliver, HandleClose, CloseWith;
      var fin := f.header.fin;
      match f.header.opcode {
        case Close =>
          var o := HandleCloseFrame(f.payload);
          return Some(o);
        case Ping =>
          var ok := SendOpcode(Pong, true, false, f.payload);
          return if ok then None else Some(Failed(IoError));
        case Pong =>
          return None;
        case Continuation =>
          if !fragment.active {
            var _ := CloseConnection(1002, Reason("Unexpected continuation frame"));
            return Some(Failed(ProtocolError));
          }
          fragment := fragment.(buffer := fragment.buffer + f.payload);
          if fin {
            var frag := fragment;
            fragment := NO_FRAGMENT;
            var o := DeliverMessage(frag.opcode, frag.buffer, frag.compressed);
            return Some(o);
          }
          return None;
        case _ =>
          if fragment.active {
            var _ := CloseConnection(1002, Reason("New data frame before fragmented message completed"));
            return Some(Failed(ProtocolError));
          }
          if !fin {
            fragment := Fragment(true, f.payload, f.header.opcode, f.header.rsv1);
            return None;
          }
          var o := DeliverMessage(f.header.opcode, f.payload, f.header.rsv1);
          return Some(o);
      }
    }

    /** `read_message` */
    method ReadMessage() returns (r: Session.Outcome)
      requires Valid()
      modifies this, stream, parser, outbound
      ensures Valid() && (r.Delivered? ==> Remaining() < old(Remaining()))
      ensures old(Usable()) ==>
                var (o, c, rest) := ReadMessageStep(cfg, old(Abs()), old(Input()), stream.eof);
                r == o && Abs() == c && (!parser.failed ==> Input() == rest)
    {
      hide Dispatch, Visible, Splits, P.Consistent, ReadFrameStep;
      while true
        invariant Valid() && Remaining() <= old(Remaining())
        invariant old(Usable()) ==> Usable()
        invariant old(Usable()) ==>
                    ReadMessageStep(cfg, old(Abs()), old(Input()), stream.eof) ==
                    ReadMessageStep(cfg, Abs(), Input(), stream.eof)
        decreases Remaining()
      {
        var fr := ReadFrame();
        match fr {
          case NoFrame => return Ended;
          case FrameError(e) => return Failed(e);
          case Got(f) =>
            var done := HandleFrame(f);
            if done.Some? {
              return done.value;
            }
        }
      }
    }

    /** Calls `read_message` until it delivers nothing: the messages delivered, and how the last call ended. */
    method ReadMessages() returns (messages: seq<Message>, last: Session.Outcome)
      requires Valid() && !parser.failed
      modifies this, stream, parser, outbound
      ensures Valid()
      ensures var t := ReadAll(cfg, old(Abs()), old(Input()), stream.eof);
              messages == t.messages && last == t.last && Abs() == t.conn && (!parser.failed ==> Input() == t.rest)
    {
      hide ReadMessageStep, ReadAll, Splits, P.Consistent, Concat, Visible, Pending, Input, Remaining, Follows;
      messages := [];
      ghost var all := ReadAll(cfg, Abs(), Input(), stream.eof);
      FollowsItself(all);
      while true
        invariant Valid() && !parser.failed && Follows(all, messages, ReadAll(cfg, Abs(), Input(), stream.eof))
        decreases Remaining()
      {
        ghost var c, input := Abs(), Input();
        DeliveredKeepsParser(cfg, c, input, stream.eof);
        last := ReadMessage();
        FollowsNext(cfg, all, messages, c, input, stream.eof);
        if !last.Delivered? {
          return;
        }
        messages := messages + [last.message];
      }
    }

    /** `echo_session` */
    method EchoSession() returns (e: Option<Failure>)
      requires Valid()
      modifies this, stream, parser, outbound
      ensures Valid()
      ensures old(Usable()) ==>
                var (f, c, rest) := Echo(cfg, old(Abs()), old(Input()), stream.eof);
                e == f && Abs() == c && (!parser.failed ==> Input() == rest)
    {
      hide ReadMessageStep, Perform, Splits, P.Consistent, Utf8.WellFormed, Concat;
      while open
        invariant Valid()
        invariant old(Usable()) ==> Usable()
        invariant old(Usable()) ==>
                    Echo(cfg, old(Abs()), old(Input()), stream.eof) == Echo(cfg, Abs(), Input(), stream.eof)
        decreases Remaining()
      {
        DeliveredKeepsParser(cfg, Abs(), Input(), stream.eof);
        var o := ReadMessage();
        match o {
          case Ended => break;
          case Failed(f) => return Some(f);
          case Delivered(m) =>
            if m.opcode.Text? {
              var valid := Utf8.IsValidUtf8(order, m.payload);
              if !valid {
                return Some(ProtocolError);
              }
            }
            var call := EchoCall(m);
            if call.Some? {
              e := Send(call.value);
              if e.Some? {
                return;
              }
            }
        }
      }
      return None;
    }

    /**
     * Once a read found no further frame, every complete frame received has been handed out, except
     * possibly a last one with an empty payload that ends with the last byte received.
     */
    lemma FramesConserved()
      requires Valid() && !parser.failed && Visible(Pending()).NeedMore?
      ensures received == consumed + parser.seen + buf[pos..] && Splits(consumed, emitted)
      ensures DecodeStream(received) == emitted + DecodeStream(Pending())
      ensures DecodeStream(Pending()) != [] ==>
                && Decode(Pending()).Whole? && Decode(Pending()).frame.payload == []
                && Decode(Pending()).size == |Pending()|
    {
      hide Decode;
      assert consumed + Pending() == consumed + parser.seen + buf[pos..];
      Conserved(consumed, emitted, Pending());
      HeldBackFrame(Pending());
    }
  }
}
