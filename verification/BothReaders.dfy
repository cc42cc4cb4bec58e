/**
 * The two implementations side by side: the Rust connection is related to the same reassembly rules
 * as the C++ reader, and so, on every input whose frames are not empty, legal or not, both deliver the
 * same messages.
 */
module BothReaders {
  import opened Bytes
  import opened Frames
  import opened Builder
  import opened CloseCodes
  import opened Session
  import opened Reassembly
  import opened CppReassembly
  import C = CppReader
  import Utf8

  /** A Rust connection between two frames whose writes do not fail. */
  predicate Reading(c: Conn)
  {
    c.open && c.out.capacity.None?
  }

  /** Violations the Rust connection reports without a CLOSE, leaving the connection open. */
  predicate Silent(cause: Cause)
  {
    cause.RefusedHeader? || cause.CodecFailed?
  }

  /** What the violation of a rule looks like. */
  ghost predicate Refused(cfg: Config, out: Output, o: Outcome, c': Conn, cause: Cause)
  {
    && o == Failed(if cause.CodecFailed? then CodecError else ProtocolError)
    && if Silent(cause) then c'.out == out && c'.open
       else
         && !c'.open
         && exists why ::
              && Explains(cause, why)
              && c'.out == SendFrame(cfg, out, Close, true, false, CloseBody(CodeFor(cause), Reason(why))).0
  }

  ghost predicate Finished(cfg: Config, out: Output, o: Outcome, c': Conn, ending: Ending)
  {
    match ending
    case Violated(cause) => Refused(cfg, out, o, c', cause)
    case PeerClosed(code, reason) =>
      && o == Ended && !c'.open && c'.lastClose == Some((code, cfg.lossy(reason)))
      && c'.out == SendFrame(cfg, out, Close, true, false, CloseBody(code, [])).0
    case _ => false
  }

  /** What the rules of one frame look like in the Rust connection. */
  ghost predicate Follows(cfg: Config, c: Conn, done: Option<Outcome>, c': Conn, e: Effect)
  {
    if e.ending.StillOpen? then
      && done == (if e.messages == [] then None else Some(Delivered(e.messages[0]))) && |e.messages| <= 1
      && Reading(c') && c'.out == Answered(cfg, c.out, e.pings) && PartialOf(c'.fragment) == e.partial
    else e.messages == [] && e.pings == [] && done.Some? && Finished(cfg, c.out, done.value, c', e.ending)
  }

  lemma WriteSucceeds(cfg: Config, out: Output, op: Opcode, payload: seq<byte>)
    requires out.capacity.None?
    ensures SendFrame(cfg, out, op, true, false, payload).1
    ensures SendFrame(cfg, out, op, true, false, payload).0.capacity.None?
  {
    hide Encode;
  }

  lemma NothingAnswered(cfg: Config, out: Output)
    ensures Answered(cfg, out, []) == out
  {
  }

  lemma CloseRefuses(cfg: Config, c: Conn, cause: Cause, why: string)
    requires Reading(c) && !Silent(cause) && Explains(cause, why)
    ensures var (c', ok) := CloseWith(cfg, c, CodeFor(cause), Reason(why));
            ok && Refused(cfg, c.out, Failed(ProtocolError), c', cause)
  {
    hide SendFrame, CloseBody, Reason, Explains;
    WriteSucceeds(cfg, c.out, Close, CloseBody(CodeFor(cause), Reason(why)));
    assert Sanitize(CodeFor(cause)) == CodeFor(cause);
  }

  lemma DeliverFollows(cfg: Config, c: Conn, kind: Opcode, data: seq<byte>, compressed: bool)
    requires Reading(c) && !c.fragment.active
    ensures var (o, c') := Deliver(cfg, c, kind, data, compressed);
            Follows(cfg, c, Some(o), c', Complete(cfg, kind, compressed, data))
  {
    hide SendFrame, CloseBody, Reason, Utf8.WellFormed, Answered, CloseWith;
    NothingAnswered(cfg, c.out);
    var plain := if compressed then cfg.decompress(data) else Some(data);
    if compressed && !Negotiated(cfg) {
      CloseRefuses(cfg, c, NotNegotiated, "Compressed frame without negotiated extension");
    } else if plain.Some? && kind.Text? && !Utf8.WellFormed(plain.value) {
      CloseRefuses(cfg, c, IllFormedText, "Invalid UTF-8 in text frame");
    }
  }

  lemma ControlFollows(cfg: Config, c: Conn, f: Frame)
    requires Reading(c) && Acceptable(f.header, cfg.role, cfg.deflate) && IsControl(f.header.opcode)
    ensures var (done, c') := Dispatch(cfg, c, f);
            Follows(cfg, c, done, c', Rule(cfg, PartialOf(c.fragment), f))
  {
    hide SendFrame, CloseBody, Reason, Complete, Acceptable, Deliver, CloseWith, Answered, ReceivedCode, ReceivedReason;
    NothingAnswered(cfg, c.out);
    match f.header.opcode
    case Close =>
      WriteSucceeds(cfg, c.out, Close, CloseBody(ReceivedCode(f.payload), []));
    case Ping =>
      WriteSucceeds(cfg, c.out, Pong, f.payload);
      AnsweredOne(cfg, c.out, f.payload);
    case Pong =>
  }

  lemma ContinuationFollows(cfg: Config, c: Conn, f: Frame)
    requires Reading(c) && Acceptable(f.header, cfg.role, cfg.deflate) && f.header.opcode.Continuation?
    ensures var (done, c') := Dispatch(cfg, c, f);
            Follows(cfg, c, done, c', Rule(cfg, PartialOf(c.fragment), f))
  {
    hide SendFrame, CloseBody, Reason, Complete, Acceptable, Deliver, CloseWith, Answered, ReceivedCode, ReceivedReason;
    NothingAnswered(cfg, c.out);
    if !c.fragment.active {
      CloseRefuses(cfg, c, NothingToContinue, "Unexpected continuation frame");
    } else if f.header.fin {
      var frag := c.fragment.(buffer := c.fragment.buffer + f.payload);
      DeliverFollows(cfg, c.(fragment := NO_FRAGMENT), frag.opcode, frag.buffer, frag.compressed);
    }
  }

  lemma DataFollows(cfg: Config, c: Conn, f: Frame)
    requires Reading(c) && Acceptable(f.header, cfg.role, cfg.deflate)
    requires (f.header.opcode.Text? || f.header.opcode.Binary?)
    ensures var (done, c') := Dispatch(cfg, c, f);
            Follows(cfg, c, done, c', Rule(cfg, PartialOf(c.fragment), f))
  {
    var h := f.header;
    hide SendFrame, CloseBody, Reason, Complete, Acceptable, Deliver, CloseWith, Answered, ReceivedCode, ReceivedReason;
    NothingAnswered(cfg, c.out);
    if c.fragment.active {
      CloseRefuses(cfg, c, Interrupted, "New data frame before fragmented message completed");
    } else if h.fin {
      DeliverFollows(cfg, c, h.opcode, f.payload, h.rsv1);
    }
  }

  /** Handling an accepted frame has the effect the rules give it. */
  lemma DispatchFollows(cfg: Config, c: Conn, f: Frame)
    requires Reading(c) && Acceptable(f.header, cfg.role, cfg.deflate)
    ensures var (done, c') := Dispatch(cfg, c, f);
            Follows(cfg, c, done, c', Rule(cfg, PartialOf(c.fragment), f))
  {
    hide Dispatch, Rule, Follows, Acceptable, Reading;
    match f.header.opcode
    case Continuation => ContinuationFollows(cfg, c, f);
    case Text => DataFollows(cfg, c, f);
    case Binary => DataFollows(cfg, c, f);
    case _ => ControlFollows(cfg, c, f);
  }

  // ---- Every input ---------------------------------------------------------------------

  /** What successive `read_message` calls make of an effect, when the transport ends (`eof`) or fails. */
  ghost predicate Reads(cfg: Config, c: Conn, t: Transcript, e: Effect, eof: bool)
  {
    && t.messages == e.messages
    && var out := Answered(cfg, c.out, e.pings);
       if e.ending.StillOpen? then
         && t.last == (if eof then Ended else Failed(IoError)) && t.conn.open == !eof
         && t.conn.out == out && PartialOf(t.conn.fragment) == e.partial
       else Finished(cfg, out, t.last, t.conn, e.ending)
  }

  /** The effect of a stream: that of its frames, and of the malformed frame the parser stops at. */
  function Framed(e: Effect, malformed: bool): (w: Effect)
  {
    if e.ending.StillOpen? && malformed then e.(ending := Violated(BadFraming)) else e
  }

  /** A frame that goes on: its messages, then what the rest gives. */
  lemma ReadAllGoesOn(cfg: Config, c: Conn, input: seq<byte>, e: Effect, eof: bool)
    requires Reading(c) && Visible(input).Whole? && Acceptable(Visible(input).frame.header, cfg.role, cfg.deflate)
    requires var f := Visible(input).frame;
             Follows(cfg, c, Dispatch(cfg, c, f).0, Dispatch(cfg, c, f).1, e) && e.ending.StillOpen?
    ensures var Whole(f, n) := Visible(input);
            var t := ReadAll(cfg, Dispatch(cfg, c, f).1, input[n..], eof);
            ReadAll(cfg, c, input, eof) == t.(messages := e.messages + t.messages)
  {
    hide Dispatch, Visible, Acceptable, Answered;
    var Whole(f, n) := Visible(input);
    var c', tail := Dispatch(cfg, c, f).1, input[n..];
    var t := ReadAll(cfg, c', tail, eof);
    assert ReadFrameStep(cfg, c, input, eof) == (Got(f), c, tail);
    hide ReadFrameStep;
    if e.messages == [] {
      assert ReadMessageStep(cfg, c, input, eof) == ReadMessageStep(cfg, c', tail, eof);
      assert [] + t.messages == t.messages;
    } else {
      assert e.messages == [e.messages[0]];
    }
  }

  /** A frame that ends the session. */
  lemma ReadAllStops(cfg: Config, c: Conn, input: seq<byte>, e: Effect, eof: bool)
    requires Reading(c) && Visible(input).Whole? && Acceptable(Visible(input).frame.header, cfg.role, cfg.deflate)
    requires var f := Visible(input).frame;
             Follows(cfg, c, Dispatch(cfg, c, f).0, Dispatch(cfg, c, f).1, e) && !e.ending.StillOpen?
    ensures Reads(cfg, c, ReadAll(cfg, c, input, eof), e, eof)
  {
    hide Dispatch, Visible, Acceptable, Answered, SendFrame, CloseBody;
    NothingAnswered(cfg, c.out);
  }

  /** A frame whose header is refused. */
  lemma ReadAllRefuses(cfg: Config, c: Conn, input: seq<byte>, partial: Partial, eof: bool)
    requires Reading(c) && Visible(input).Whole? && !Acceptable(Visible(input).frame.header, cfg.role, cfg.deflate)
    ensures Reads(cfg, c, ReadAll(cfg, c, input, eof), Effect([], [], partial, Violated(RefusedHeader)), eof)
  {
    hide Visible, Acceptable, Answered, SendFrame, CloseBody;
    NothingAnswered(cfg, c.out);
  }

  /** No further frame, or octets that cannot begin one. */
  lemma ReadAllEnds(cfg: Config, c: Conn, input: seq<byte>, eof: bool)
    requires Reading(c) && !Visible(input).Whole?
    ensures Reads(cfg, c, ReadAll(cfg, c, input, eof),
                  Framed(Effect([], [], PartialOf(c.fragment), StillOpen), Visible(input).Malformed?), eof)
  {
    hide Visible, Answered, SendFrame, CloseBody, CloseWith, Reason;
    NothingAnswered(cfg, c.out);
    if Visible(input).Malformed? {
      CloseRefuses(cfg, c.(broken := true), BadFraming, "invalid frame");
    }
  }

  lemma ReadsThen(cfg: Config, c: Conn, c': Conn, t: Transcript, e: Effect, e2: Effect, eof: bool)
    requires e.ending.StillOpen? && c'.out == Answered(cfg, c.out, e.pings) && Reads(cfg, c', t, e2, eof)
    ensures Reads(cfg, c, t.(messages := e.messages + t.messages),
                  Effect(e.messages + e2.messages, e.pings + e2.pings, e2.partial, e2.ending), eof)
  {
    AnsweredAppend(cfg, c.out, e.pings, e2.pings);
    hide Answered, SendFrame, CloseBody, PartialOf;
  }

  /**
   * On every input the Rust connection does what the rules say of the frames its parser reports: successive
   * reads give exactly their messages, every ping is answered, a CLOSE of the peer is echoed and remembered,
   * and the first violation is an error: without a CLOSE for a refused header or a codec failure, after
   * exactly one with the code of the rule for any other.
   */
  lemma {:induction false} RustFolds(cfg: Config, c: Conn, input: seq<byte>, eof: bool)
    requires Reading(c)
    ensures var p := ParseStream(input);
            Reads(cfg, c, ReadAll(cfg, c, input, eof), Framed(Fold(cfg, PartialOf(c.fragment), p.frames), p.malformed),
                  eof)
    decreases |input|
  {
    hide ReadAll, Dispatch, Visible, Acceptable, Rule, Answered, SendFrame, PartialOf, Reads;
    if !Visible(input).Whole? {
      ReadAllEnds(cfg, c, input, eof);
    } else {
      var Whole(f, n) := Visible(input);
      var p, e := ParseStream(input[n..]), Rule(cfg, PartialOf(c.fragment), f);
      assert ParseStream(input) == Parsed([f] + p.frames, p.rest, p.malformed);
      FoldCons(cfg, PartialOf(c.fragment), f, p.frames);
      if !Acceptable(f.header, cfg.role, cfg.deflate) {
        RefusedRule(cfg, PartialOf(c.fragment), f);
        ReadAllRefuses(cfg, c, input, PartialOf(c.fragment), eof);
      } else {
        DispatchFollows(cfg, c, f);
        if e.ending.StillOpen? {
          var c' := Dispatch(cfg, c, f).1;
          ReadAllGoesOn(cfg, c, input, e, eof);
          RustFolds(cfg, c', input[n..], eof);
          var e2 := Framed(Fold(cfg, e.partial, p.frames), p.malformed);
          ReadsThen(cfg, c, c', ReadAll(cfg, c', input[n..], eof), e, e2, eof);
        } else {
          ReadAllStops(cfg, c, input, e, eof);
        }
      }
    }
  }

  lemma RefusedRule(cfg: Config, partial: Partial, f: Frame)
    requires !Acceptable(f.header, cfg.role, cfg.deflate)
    ensures Rule(cfg, partial, f) == Effect([], [], partial, Violated(RefusedHeader))
  {
    hide Acceptable;
  }

  // ---- Both ----------------------------------------------------------------------------

  /** Without empty frames the incremental parser reports every complete frame. */
  lemma {:induction false} AllReported(input: seq<byte>)
    requires forall f | f in DecodeStream(input) :: f.payload != []
    ensures ParseStream(input).frames == DecodeStream(input) && ParseStream(input).rest == Remainder(input)
    decreases |input|
  {
    var d := Decode(input);
    hide Decode;
    if d.Whole? {
      var tail := input[d.size..];
      assert d.frame in DecodeStream(input);
      assert forall f | f in DecodeStream(tail) :: f in DecodeStream(input);
      AllReported(tail);
    }
  }

  /**
   * Both implementations deliver the same messages from every input whose complete frames are not empty,
   * and write the same bytes if the session ends with the peer's CLOSE or with the last complete frame.
   */
  lemma SameMessages(cfg: Config, c: Conn, r: C.Reader, input: seq<byte>)
    requires Reading(c) && Ready(cfg, r) && c.fragment == r.fragment && c.out == r.out
    requires forall f | f in DecodeStream(input) :: f.payload != []
    ensures var rust, cpp := ReadAll(cfg, c, input, true), C.ReadLoop(cfg, r, input);
            var e := Fold(cfg, PartialOf(c.fragment), DecodeStream(input));
            && cpp.delivered == r.delivered + rust.messages
            && (e.ending.PeerClosed? || (e.ending.StillOpen? && Remainder(input) == []) ==> cpp.out == rust.conn.out)
  {
    hide ReadAll, C.ReadLoop, Answered, SendFrame, CloseBody, PartialOf, BadHeader, Overlong, SeenAll, Decode;
    var e := Fold(cfg, PartialOf(c.fragment), DecodeStream(input));
    RustFolds(cfg, c, input, true);
    AllReported(input);
    HeldBackFrame(input);
    ReaderSimulates(cfg, r, input);
    SeenAsSent(cfg, r.payload, DecodeStream(input));
    if Remainder(input) == [] {
      NothingBad(cfg);
    }
    hide Fold, DecodeStream, ParseStream, Remainder;
  }

  lemma NothingBad(cfg: Config)
    ensures !BadHeader(cfg, []) && !Overlong([]) && !Decode([]).Malformed?
  {
  }

  // ---- What can ever be delivered ------------------------------------------------------

  /** A message as applications may see it: binary, or text that is well-formed UTF-8. */
  predicate Presentable(m: Message)
  {
    m.opcode.Binary? || (m.opcode.Text? && Utf8.WellFormed(m.payload))
  }

  /** A message in progress is of one of the two kinds. */
  predicate Sound(partial: Partial)
  {
    partial.InProgress? ==> partial.kind.Text? || partial.kind.Binary?
  }

  lemma {:induction false} FoldPresentable(cfg: Config, partial: Partial, fs: seq<Frame>)
    requires Sound(partial)
    ensures forall m | m in Fold(cfg, partial, fs).messages :: Presentable(m)
    decreases |fs|
  {
    hide Acceptable, Utf8.WellFormed, ReceivedCode, ReceivedReason;
    if fs != [] {
      var e := Rule(cfg, partial, fs[0]);
      assert Sound(e.partial) && forall m | m in e.messages :: Presentable(m);
      hide Rule, Presentable;
      FoldPresentable(cfg, e.partial, fs[1..]);
    }
  }

  /**
   * Whatever octets arrive, both implementations deliver only binary messages and well-formed text. For the C++
   * reader this holds in spite of its stale buffer.
   */
  lemma OnlyPresentable(cfg: Config, c: Conn, r: C.Reader, input: seq<byte>, eof: bool)
    requires Reading(c) && Ready(cfg, r) && Sound(PartialOf(c.fragment)) && Sound(PartialOf(r.fragment))
    ensures forall m | m in ReadAll(cfg, c, input, eof).messages :: Presentable(m)
    ensures forall m | m in C.ReadLoop(cfg, r, input).delivered :: m in r.delivered || Presentable(m)
  {
    hide ReadAll, C.ReadLoop, Answered, SendFrame, CloseBody, PartialOf, BadHeader, Overlong, SeenAll, Decode,
         Presentable;
    RustFolds(cfg, c, input, eof);
    FoldPresentable(cfg, PartialOf(c.fragment), ParseStream(input).frames);
    ReaderSimulates(cfg, r, input);
    FoldPresentable(cfg, PartialOf(r.fragment), SeenAll(cfg, r.payload, DecodeStream(input)));
    hide Fold, DecodeStream, ParseStream, Remainder;
  }
}
