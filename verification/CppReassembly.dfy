/**
 * The C++ reader simulates the reassembly rules on every input, up to one defect: a frame with an
 * empty payload is handled with what the payload buffer still holds. The simulation is first proved
 * for the frames as the reader sees them, with no hypothesis on the input; where the two views
 * differ is then characterised exactly.
 */
module CppReassembly {
  import opened Bytes
  import opened Frames
  import opened Builder
  import opened CloseCodes
  import opened Session
  import opened Reassembly
  import C = CppReader
  import E = EndToEnd
  import Utf8

  // ---- Frames as the reader sees them --------------------------------------------------

  /** What the payload buffer holds after a frame handled with payload `p`. */
  function Kept(cfg: Config, h: Header, p: seq<byte>): (b: seq<byte>)
  {
    if h.fin && (h.opcode.Text? || h.opcode.Binary?) && h.rsv1 && cfg.decompress(p).Some?
    then cfg.decompress(p).value else p
  }

  function Seen(buffer: seq<byte>, f: Frame): (g: Frame)
  {
    if f.payload == [] then f.(payload := buffer) else f
  }

  /** The frames with every empty payload replaced by the stale contents of the buffer. */
  function SeenAll(cfg: Config, buffer: seq<byte>, fs: seq<Frame>): (gs: seq<Frame>)
    ensures |gs| == |fs|
    decreases |fs|
  {
    if fs == [] then []
    else
      var g := Seen(buffer, fs[0]);
      [g] + SeenAll(cfg, Kept(cfg, g.header, g.payload), fs[1..])
  }

  // ---- The simulation relation ---------------------------------------------------------

  function PartialOf(f: Fragment): (p: Partial)
  {
    if f.active then InProgress(f.opcode, f.compressed, f.buffer) else NoPartial
  }

  /** A reader between two frames. The C++ connection has the negotiated flag only where deflate is compiled in. */
  predicate Ready(cfg: Config, r: C.Reader)
  {
    && r.open && !r.closing && !r.crashed && (cfg.deflate ==> cfg.deflateBuilt)
    && (r.fragment.active && r.fragment.compressed ==> Negotiated(cfg))
  }

  function Pongs(bodies: seq<seq<byte>>): (calls: seq<Call>)
    ensures |calls| == |bodies|
  {
    if bodies == [] then [] else [SendPong(bodies[0])] + Pongs(bodies[1..])
  }

  /** The output after one pong for every ping. */
  function Answered(cfg: Config, out: Output, pings: seq<seq<byte>>): (out': Output)
  {
    E.SendAll(cfg, out, Pongs(pings))
  }

  /**
   * `r'` is what the effect `e` makes of `r`: its messages delivered, its pings answered, and a session
   * that has ended marked by exactly one CLOSE frame as the last thing written and one call of the
   * close callback with the same code.
   */
  ghost predicate Shows(cfg: Config, r: C.Reader, r': C.Reader, e: Effect)
  {
    && r'.delivered == r.delivered + e.messages
    && (r'.closing <==> r.closing || e.ending.Violated?)
    && (r'.crashed <==> e.ending.Terminated?)
    && var out := Answered(cfg, r.out, e.pings);
       match e.ending
       case StillOpen => r'.out == out && r'.closes == r.closes && PartialOf(r'.fragment) == e.partial
       case Violated(cause) =>
         var code := CodeFor(cause);
         && !r'.open
         && exists why :: && Explains(cause, why) && r'.closes == r.closes + [(code, Reason(why))]
                          && r'.out == SendFrame(cfg, out, Close, true, false, CloseBody(code, Reason(why))).0
       case PeerClosed(code, reason) =>
         && !r'.open && r'.closes == r.closes + [(code, reason)]
         && r'.out == SendFrame(cfg, out, Close, true, false, CloseBody(code, [])).0
       case Terminated => r'.out == out && r'.closes == r.closes
  }

  /** A complete header that is not accepted; its payload need not have arrived. */
  predicate BadHeader(cfg: Config, s: seq<byte>)
  {
    && |s| >= 2 && |s| >= HeaderSize(s[1])
    && var op := OpcodeOf(s[0] % 16);
       op.None? || !Acceptable(HeaderOf(s[0], op.value, DeclaredKey(s)), cfg.role, cfg.deflate)
  }

  /** A complete header with a length that no buffer can have. */
  predicate Overlong(s: seq<byte>)
  {
    |s| >= 2 && |s| >= HeaderSize(s[1]) && DeclaredLength(s) > MAX_PAYLOAD
  }

  /** The effect of frames followed by `rest`, which holds no complete frame. */
  function Finish(cfg: Config, e: Effect, rest: seq<byte>): (w: Effect)
  {
    if !e.ending.StillOpen? then e
    else if BadHeader(cfg, rest) then e.(ending := Violated(RefusedHeader))
    else if Overlong(rest) then e.(ending := Terminated)
    else e
  }

  lemma {:induction false} PongsAppend(a: seq<seq<byte>>, b: seq<seq<byte>>)
    ensures Pongs(a + b) == Pongs(a) + Pongs(b)
  {
    if a == [] {
      assert a + b == b;
    } else {
      assert (a + b)[1..] == a[1..] + b;
      PongsAppend(a[1..], b);
    }
  }

  lemma AnsweredAppend(cfg: Config, out: Output, a: seq<seq<byte>>, b: seq<seq<byte>>)
    ensures Answered(cfg, out, a + b) == Answered(cfg, Answered(cfg, out, a), b)
  {
    PongsAppend(a, b);
    E.SendAllConcat(cfg, out, Pongs(a), Pongs(b));
  }

  /** One effect after another. */
  lemma ShowsThen(cfg: Config, r: C.Reader, r1: C.Reader, r2: C.Reader, e: Effect, e2: Effect)
    requires Shows(cfg, r, r1, e) && e.ending.StillOpen? && Shows(cfg, r1, r2, e2)
    ensures Shows(cfg, r, r2, Effect(e.messages + e2.messages, e.pings + e2.pings, e2.partial, e2.ending))
  {
    AnsweredAppend(cfg, r.out, e.pings, e2.pings);
    hide Answered, SendFrame, PartialOf, CloseBody;
    assert r.delivered + e.messages + e2.messages == r.delivered + (e.messages + e2.messages);
  }

  // ---- One frame -----------------------------------------------------------------------

  /** The checks of `validate_frame_header` are those of the specification, which the Rust endpoint makes too. */
  lemma HeaderChecksAgree(cfg: Config, h: C.RawHeader)
    requires h.op < 16
    ensures C.HeaderProblem(cfg, h).None?
       <==> OpcodeOf(h.op).Some? && Acceptable(C.Meaning(h, OpcodeOf(h.op).value), cfg.role, Negotiated(cfg))
  {
  }

  lemma Fails(cfg: Config, r: C.Reader, code: Code, why: string, e: Effect)
    requires Ready(cfg, r) && e.messages == [] && e.pings == []
    requires e.ending.Violated? && CodeFor(e.ending.cause) == code && Explains(e.ending.cause, why)
    ensures Shows(cfg, r, C.FailWith(cfg, r, code, why), e) && !C.FailWith(cfg, r, code, why).open
  {
    hide SendFrame, CloseBody, Reason, Explains;
    assert Answered(cfg, r.out, []) == r.out;
    assert C.FailWith(cfg, r, code, why).closes == r.closes + [(code, Reason(why))];
  }

  lemma DeliverSimulates(cfg: Config, r: C.Reader, kind: Opcode, data: seq<byte>, compressed: bool, own: bool)
    requires Ready(cfg, r) && (compressed ==> Negotiated(cfg))
    ensures var e := Complete(cfg, kind, compressed, data);
            var r' := C.DeliverTo(cfg, r, kind, data, compressed, own);
            && Shows(cfg, r, r'.(fragment := NO_FRAGMENT), e)
            && (e.ending.StillOpen? ==> r'.open && !r'.closing && r'.fragment == r.fragment)
            && (e.ending.StillOpen? && own ==> r'.payload == if compressed then cfg.decompress(data).value else data)
            && (!own ==> r'.payload == r.payload)
  {
    hide SendFrame, CloseBody, Reason, Utf8.WellFormed;
    var e := Complete(cfg, kind, compressed, data);
    var plain := if compressed then cfg.decompress(data) else Some(data);
    if plain.None? {
      Fails(cfg, r, 1002, "permessage-deflate decompression failed", e);
    } else {
      var r1 := if own then r.(payload := plain.value) else r;
      if kind.Text? && !Utf8.WellFormed(plain.value) {
        Fails(cfg, r1, 1007, "Invalid UTF-8 in text frame", e);
      } else {
        assert Answered(cfg, r.out, []) == r.out;
      }
    }
  }

  lemma AnsweredOne(cfg: Config, out: Output, body: seq<byte>)
    ensures Answered(cfg, out, [body]) == SendFrame(cfg, out, Pong, true, false, body).0
  {
    hide SendFrame;
    assert Pongs([body]) == [SendPong(body)];
    var calls := [SendPong(body)];
    assert calls[1..] == [];
    assert E.SendAll(cfg, out, calls) == Perform(cfg, out, SendPong(body)).0;
  }

  /** `r'` is what the rules make of a reader that has `r.payload` in its buffer and a frame with header `h`. */
  ghost predicate Simulates(cfg: Config, r: C.Reader, r': C.Reader, h: Header)
  {
    var e := Rule(cfg, PartialOf(r.fragment), Frame(h, r.payload));
    && Shows(cfg, r, r', e)
    && if e.ending.StillOpen? then Ready(cfg, r') && r'.payload == Kept(cfg, h, r.payload) else !r'.open
  }

  lemma ControlSimulates(cfg: Config, r: C.Reader, h: Header)
    requires Ready(cfg, r) && Acceptable(h, cfg.role, cfg.deflate) && IsControl(h.opcode)
    ensures Simulates(cfg, r, C.Handle(cfg, r, h), h)
  {
    var e := Rule(cfg, PartialOf(r.fragment), Frame(h, r.payload));
    assert Answered(cfg, r.out, []) == r.out;
    hide SendFrame, CloseBody, Reason, Complete, Acceptable, C.DeliverTo, C.FailWith, Answered, Negotiated,
         ReceivedCode,
         ReceivedReason;
    if h.opcode.Ping? {
      AnsweredOne(cfg, r.out, r.payload);
    }
  }

  lemma ContinuationSimulates(cfg: Config, r: C.Reader, h: Header)
    requires Ready(cfg, r) && Acceptable(h, cfg.role, cfg.deflate) && h.opcode.Continuation?
    ensures Simulates(cfg, r, C.Handle(cfg, r, h), h)
  {
    var e := Rule(cfg, PartialOf(r.fragment), Frame(h, r.payload));
    assert Answered(cfg, r.out, []) == r.out;
    hide SendFrame, CloseBody, Reason, Complete, Acceptable, C.DeliverTo, C.FailWith, Answered, Negotiated,
         ReceivedCode,
         ReceivedReason;
    if !r.fragment.active {
      Fails(cfg, r, 1002, "Unexpected continuation frame", e);
    } else if h.fin {
      var frag := r.fragment.(buffer := r.fragment.buffer + r.payload);
      DeliverSimulates(cfg, r.(fragment := frag), frag.opcode, frag.buffer, frag.compressed, false);
      ShowsSame(cfg, r.(fragment := frag), r, C.Handle(cfg, r, h), e);
    }
  }

  lemma DataSimulates(cfg: Config, r: C.Reader, h: Header)
    requires Ready(cfg, r) && Acceptable(h, cfg.role, cfg.deflate) && (h.opcode.Text? || h.opcode.Binary?)
    ensures Simulates(cfg, r, C.Handle(cfg, r, h), h)
  {
    var e := Rule(cfg, PartialOf(r.fragment), Frame(h, r.payload));
    assert Answered(cfg, r.out, []) == r.out;
    assert h.rsv1 ==> Negotiated(cfg);
    hide SendFrame, CloseBody, Reason, Complete, Acceptable, C.DeliverTo, C.FailWith, Answered, Negotiated,
         ReceivedCode,
         ReceivedReason;
    if r.fragment.active {
      Fails(cfg, r, 1002, "New data frame before fragmented message completed", e);
    } else if h.fin {
      DeliverSimulates(cfg, r, h.opcode, r.payload, h.rsv1, true);
      CompleteEnds(cfg, h.opcode, h.rsv1, r.payload);
      ShowsFragment(cfg, r, C.Handle(cfg, r, h), e);
    }
  }

  /** Handling an accepted frame has the effect the rules give it. */
  lemma HandleSimulates(cfg: Config, r: C.Reader, h: Header)
    requires Ready(cfg, r) && Acceptable(h, cfg.role, cfg.deflate)
    ensures Simulates(cfg, r, C.Handle(cfg, r, h), h)
  {
    hide Simulates, C.Handle, Acceptable, Ready;
    match h.opcode
    case Continuation => ContinuationSimulates(cfg, r, h);
    case Text => DataSimulates(cfg, r, h);
    case Binary => DataSimulates(cfg, r, h);
    case _ => ControlSimulates(cfg, r, h);
  }

  lemma CompleteEnds(cfg: Config, kind: Opcode, compressed: bool, data: seq<byte>)
    ensures var e := Complete(cfg, kind, compressed, data);
            && e.partial.NoPartial?
            && (e.ending.StillOpen? && compressed ==> cfg.decompress(data).Some?)
  {
  }

  /** Which fragment the reader starts from does not show, nor which inactive one it ends with. */
  lemma ShowsSame(cfg: Config, r: C.Reader, q: C.Reader, r': C.Reader, e: Effect)
    requires Shows(cfg, r, r', e) && q == r.(fragment := q.fragment)
    ensures Shows(cfg, q, r', e)
  {
    hide Answered, SendFrame, CloseBody;
  }

  lemma ShowsFragment(cfg: Config, r: C.Reader, r': C.Reader, e: Effect)
    requires Shows(cfg, r, r'.(fragment := NO_FRAGMENT), e) && e.partial.NoPartial?
    requires e.ending.StillOpen? ==> !r'.fragment.active
    ensures Shows(cfg, r, r', e)
  {
    hide Answered, SendFrame, CloseBody, Reason, Explains;
  }

  /** What the reader does with the first complete frame of the input. */
  lemma ReadOneIs(cfg: Config, r: C.Reader, input: seq<byte>)
    requires Ready(cfg, r) && Decode(input).Whole?
    ensures var Whole(f, n) := Decode(input);
            if Acceptable(f.header, cfg.role, cfg.deflate) then
              C.ReadOne(cfg, r, input) == (C.Handle(cfg, r.(payload := C.Buffered(r, f.payload)), f.header), input[n..])
            else exists why :: C.ReadOne(cfg, r, input).0 == C.FailWith(cfg, r, 1002, why)
  {
    hide C.ParseRaw, Decode, OnWire, C.HeaderProblem, Acceptable, C.Handle, C.FailWith, OpcodeOf, C.Meaning, C.Torn;
    C.InlineAgrees(input);
    var (h, n) := C.ParseRaw(input).value;
    HeaderChecksAgree(cfg, h);
    if C.HeaderProblem(cfg, h).Some? {
      assert C.ReadOne(cfg, r, input).0 == C.FailWith(cfg, r, 1002, C.HeaderProblem(cfg, h).value);
    }
  }

  /** Reading the first complete frame of the input has the effect of the frame as seen. */
  lemma ReadOneSimulates(cfg: Config, r: C.Reader, input: seq<byte>)
    requires Ready(cfg, r) && Decode(input).Whole?
    ensures var f := Seen(r.payload, Decode(input).frame);
            var e := Rule(cfg, PartialOf(r.fragment), f);
            var (r', rest) := C.ReadOne(cfg, r, input);
            && Shows(cfg, r, r', e)
            && (e.ending.StillOpen? ==> Ready(cfg, r') && r'.payload == Kept(cfg, f.header, f.payload))
            && (e.ending.StillOpen? ==> rest == input[Decode(input).size..])
            && (!e.ending.StillOpen? ==> !r'.open)
  {
    hide Decode, Acceptable, C.Handle, C.FailWith, C.ReadOne, SendFrame, Shows, Kept;
    ReadOneIs(cfg, r, input);
    var f := Seen(r.payload, Decode(input).frame);
    var e := Rule(cfg, PartialOf(r.fragment), f);
    if Acceptable(f.header, cfg.role, cfg.deflate) {
      var r1 := r.(payload := f.payload);
      hide Rule;
      HandleSimulates(cfg, r1, f.header);
      ShowsPayload(cfg, r, r1, C.Handle(cfg, r1, f.header), e);
    } else {
      var why :| C.ReadOne(cfg, r, input).0 == C.FailWith(cfg, r, 1002, why);
      Fails(cfg, r, 1002, why, e);
    }
  }

  lemma ShowsPayload(cfg: Config, r: C.Reader, r1: C.Reader, r': C.Reader, e: Effect)
    requires Shows(cfg, r1, r', e) && r1 == r.(payload := r1.payload)
    ensures Shows(cfg, r, r', e)
  {
    hide Answered, SendFrame, CloseBody;
  }

  /**
   * On octets that hold no complete frame the reader stops: with a CLOSE if a bad header is there, with the
   * process if an overlong one is, silently otherwise.
   */
  lemma ReadRest(cfg: Config, r: C.Reader, input: seq<byte>)
    requires Ready(cfg, r) && !Decode(input).Whole?
    ensures var r' := C.ReadLoop(cfg, r, input);
            !r'.open && Shows(cfg, r, r', Finish(cfg, Effect([], [], PartialOf(r.fragment), StillOpen), input))
  {
    var e := Effect([], [], PartialOf(r.fragment), StillOpen);
    var p := C.ParseRaw(input);
    if p.None? {
      StopShows(cfg, r, r.payload, e);
    } else {
      var (h, n) := p.value;
      HeaderChecksAgree(cfg, h);
      assert BadHeader(cfg, input) <==> C.HeaderProblem(cfg, h).Some?;
      if C.HeaderProblem(cfg, h).Some? {
        Fails(cfg, r, 1002, C.HeaderProblem(cfg, h).value, e.(ending := Violated(RefusedHeader)));
      } else if h.len > MAX_PAYLOAD {
        CrashShows(cfg, r, e.(ending := Terminated));
      } else {
        C.HeaderOpcode(cfg, h);
        if |input| >= n + h.len {
          C.DecodersAgree(input);
          assert false;
        }
        hide C.Torn, Overlong, BadHeader;
        StopShows(cfg, r, C.Torn(r.payload, input[n..], h.len), e);
      }
    }
  }

  lemma StopShows(cfg: Config, r: C.Reader, payload: seq<byte>, e: Effect)
    requires !r.crashed && e == Effect([], [], PartialOf(r.fragment), StillOpen)
    ensures Shows(cfg, r, r.(open := false, payload := payload), e)
  {
    hide SendFrame;
    assert Answered(cfg, r.out, []) == r.out;
  }

  lemma CrashShows(cfg: Config, r: C.Reader, e: Effect)
    requires e.messages == [] && e.pings == [] && e.ending.Terminated?
    ensures Shows(cfg, r, r.(open := false, crashed := true), e)
  {
    hide SendFrame;
    assert Answered(cfg, r.out, []) == r.out;
  }

  // ---- Every input ---------------------------------------------------------------------

  /**
   * On every input the reader does what the rules say of the frames it sees: it delivers their
   * messages in order, answers their pings in order, and at the first violation or CLOSE writes one
   * CLOSE with the prescribed code, reports it once, and delivers nothing more. An acceptable header with
   * a length above 2^63-1 ends the process instead.
   */
  lemma {:induction false} ReaderSimulates(cfg: Config, r: C.Reader, input: seq<byte>)
    requires Ready(cfg, r)
    ensures var e := Fold(cfg, PartialOf(r.fragment), SeenAll(cfg, r.payload, DecodeStream(input)));
            var r' := C.ReadLoop(cfg, r, input);
            !r'.open && Shows(cfg, r, r', Finish(cfg, e, Remainder(input)))
    decreases |input|
  {
    if !Decode(input).Whole? {
      ReadRest(cfg, r, input);
    } else {
      ReadOneSimulates(cfg, r, input);
      var fs, rest := DecodeStream(input), Remainder(input);
      var n := Decode(input).size;
      assert fs[0] == Decode(input).frame && fs[1..] == DecodeStream(input[n..]) && rest == Remainder(input[n..]);
      var f := Seen(r.payload, fs[0]);
      var gs := SeenAll(cfg, r.payload, fs);
      assert gs[0] == f && gs[1..] == SeenAll(cfg, Kept(cfg, f.header, f.payload), fs[1..]);
      var e := Rule(cfg, PartialOf(r.fragment), f);
      var r1 := C.ReadOne(cfg, r, input).0;
      hide Decode, C.ReadOne, Rule, Shows, SeenAll, Seen, DecodeStream, Remainder, PartialOf, Kept, BadHeader;
      if e.ending.StillOpen? {
        ReaderSimulates(cfg, r1, input[n..]);
        var e2 := Fold(cfg, e.partial, gs[1..]);
        StillOpenPartial(cfg, r, r1, e);
        ShowsThen(cfg, r, r1, C.ReadLoop(cfg, r, input), e, Finish(cfg, e2, rest));
      }
    }
  }

  /** Exactly when the reader takes the process down: at an acceptable header with a length no buffer can have. */
  lemma CrashExact(cfg: Config, r: C.Reader, input: seq<byte>)
    requires Ready(cfg, r)
    ensures var e := Fold(cfg, PartialOf(r.fragment), SeenAll(cfg, r.payload, DecodeStream(input)));
            C.ReadLoop(cfg, r, input).crashed <==>
            e.ending.StillOpen? && !BadHeader(cfg, Remainder(input)) && Overlong(Remainder(input))
  {
    ReaderSimulates(cfg, r, input);
    FoldNeverTerminates(cfg, PartialOf(r.fragment), SeenAll(cfg, r.payload, DecodeStream(input)));
    hide C.ReadLoop, Fold, SeenAll, DecodeStream, Remainder, BadHeader, Overlong, Answered, SendFrame;
  }

  /** No complete frame ends the process. */
  lemma {:induction false} FoldNeverTerminates(cfg: Config, partial: Partial, fs: seq<Frame>)
    ensures !Fold(cfg, partial, fs).ending.Terminated?
    decreases |fs|
  {
    hide Acceptable;
    if fs != [] {
      FoldNeverTerminates(cfg, Rule(cfg, partial, fs[0]).partial, fs[1..]);
    }
  }

  lemma StillOpenPartial(cfg: Config, r: C.Reader, r1: C.Reader, e: Effect)
    requires Shows(cfg, r, r1, e) && e.ending.StillOpen?
    ensures PartialOf(r1.fragment) == e.partial
  {
    hide Answered, SendFrame;
  }

  /** Frames without empty payloads are seen as they are. */
  lemma {:induction false} SeenAsSent(cfg: Config, buffer: seq<byte>, fs: seq<Frame>)
    requires forall f | f in fs :: f.payload != []
    ensures SeenAll(cfg, buffer, fs) == fs
    decreases |fs|
  {
    hide Kept;
    if fs != [] {
      SeenAsSent(cfg, Kept(cfg, fs[0].header, fs[0].payload), fs[1..]);
    }
  }

  /** A list of non-empty frames has, octet for octet, the effect the rules give it. */
  lemma NonEmptyFrames(cfg: Config, r: C.Reader, fs: seq<Frame>)
    requires Ready(cfg, r) && forall f | f in fs :: Sendable(f) && f.payload != []
    ensures Shows(cfg, r, C.ReadLoop(cfg, r, EncodeAll(fs)), Fold(cfg, PartialOf(r.fragment), fs))
  {
    ReaderSimulates(cfg, r, EncodeAll(fs));
    DecodeEncoded(fs, []);
    SeenAsSent(cfg, r.payload, fs);
    assert EncodeAll(fs) + [] == EncodeAll(fs) && fs + DecodeStream([]) == fs && Remainder([]) == [];
    hide Shows, C.ReadLoop, Fold, EncodeAll;
  }
}
