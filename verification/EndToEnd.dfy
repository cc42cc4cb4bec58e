/**
 * What two endpoints achieve together: for every sequence of send calls the other side reads exactly the
 * messages sent, answers exactly the pings, and accepts every frame. `Delivery` joins this with the
 * connections that do it, however the bytes are cut into pieces on the way.
 */
module EndToEnd {
  import opened Bytes
  import opened Frames
  import opened Builder
  import opened Session
  import Utf8

  // ---- What a sequence of calls means to the application -------------------------------

  /** The message under construction: none, or one of a kind with the data sent so far. */
  datatype Assembly = Idle | Partial(kind: Opcode, data: seq<byte>)

  /** Fragments are sent in order: a continuation only inside a message, a new message only outside. */
  predicate Allowed(asm: Assembly, call: Call)
  {
    match call
    case SendText(_, _) => asm.Idle?
    case SendBinary(_, _) => asm.Idle?
    case SendContinuation(_, _) => asm.Partial?
    case _ => true
  }

  function After(asm: Assembly, call: Call): (next: Assembly)
  {
    match call
    case SendText(d, fin) => if fin then Idle else Partial(Text, d)
    case SendBinary(d, fin) => if fin then Idle else Partial(Binary, d)
    case SendContinuation(d, fin) => if fin || asm.Idle? then Idle else Partial(asm.kind, asm.data + d)
    case _ => asm
  }

  /** The message a call completes, if it completes one. */
  function Completed(asm: Assembly, call: Call): (m: Option<Message>)
  {
    match call
    case SendText(d, fin) => if fin then Some(Message(Text, d)) else None
    case SendBinary(d, fin) => if fin then Some(Message(Binary, d)) else None
    case SendContinuation(d, fin) => if fin && asm.Partial? then Some(Message(asm.kind, asm.data + d)) else None
    case _ => None
  }

  predicate WellOrdered(calls: seq<Call>, asm: Assembly)
  {
    calls == [] || (Allowed(asm, calls[0]) && WellOrdered(calls[1..], After(asm, calls[0])))
  }

  /** The message a call completes, as a list of at most one. */
  function CompletedList(asm: Assembly, call: Call): (ms: seq<Message>)
  {
    var m := Completed(asm, call);
    if m.Some? then [m.value] else []
  }

  /** The messages a sequence of calls sends. */
  function Messages(calls: seq<Call>, asm: Assembly): (ms: seq<Message>)
  {
    if calls == [] then [] else CompletedList(asm, calls[0]) + Messages(calls[1..], After(asm, calls[0]))
  }

  /** What is left under construction. */
  function Left(calls: seq<Call>, asm: Assembly): (a: Assembly)
  {
    if calls == [] then asm else Left(calls[1..], After(asm, calls[0]))
  }

  /** The pongs that answer the pings among the calls, in order. */
  function Answers(calls: seq<Call>): (pongs: seq<Call>)
  {
    if calls == [] then []
    else (if calls[0].SendPing? then [SendPong(calls[0].data)] else []) + Answers(calls[1..])
  }

  /** Text messages are valid UTF-8. */
  predicate TextValid(ms: seq<Message>)
  {
    forall m | m in ms :: m.opcode.Text? ==> Utf8.WellFormed(m.payload)
  }

  function Flat(parts: seq<seq<byte>>): (s: seq<byte>)
  {
    if parts == [] then [] else parts[0] + Flat(parts[1..])
  }

  /** The continuations that send these parts, the last of them with FIN. */
  function Continuations(parts: seq<seq<byte>>): (calls: seq<Call>)
    ensures |calls| == |parts|
  {
    if parts == [] then [] else [SendContinuation(parts[0], |parts| == 1)] + Continuations(parts[1..])
  }

  lemma FlatStep(parts: seq<seq<byte>>)
    ensures Flat(parts) == if parts == [] then [] else parts[0] + Flat(parts[1..])
  {
  }

  lemma ContinuationsStep(parts: seq<seq<byte>>)
    ensures Continuations(parts) ==
            if parts == [] then [] else [SendContinuation(parts[0], |parts| == 1)] + Continuations(parts[1..])
  {
  }

  /** A part that is not the last, and one that is. */
  lemma PartStep(kind: Opcode, sent: seq<byte>, part: seq<byte>, last: bool, rest: seq<Call>)
    ensures Messages([SendContinuation(part, last)] + rest, Partial(kind, sent)) ==
            if last then [Message(kind, sent + part)] + Messages(rest, Idle)
            else Messages(rest, Partial(kind, sent + part))
  {
    var calls := [SendContinuation(part, last)] + rest;
    assert calls[1..] == rest;
  }

  /** A fragmented message is its parts in order, of the kind of its first frame. */
  lemma {:induction false} FragmentsJoin(kind: Opcode, sent: seq<byte>, parts: seq<seq<byte>>, rest: seq<Call>)
    requires parts != []
    ensures Messages(Continuations(parts) + rest, Partial(kind, sent))
         == [Message(kind, sent + Flat(parts))] + Messages(rest, Idle)
    decreases |parts|
  {
    hide Messages, Flat, Continuations;
    var part, others := parts[0], parts[1..];
    FlatStep(parts);
    ContinuationsStep(parts);
    if |parts| == 1 {
      FlatStep(others);
      ContinuationsStep(others);
      PartStep(kind, sent, part, true, rest);
      assert Continuations(parts) == [SendContinuation(part, true)] && Flat(parts) == part;
    } else {
      var later := Continuations(others) + rest;
      PartStep(kind, sent, part, false, later);
      FragmentsJoin(kind, sent + part, others, rest);
      assert sent + part + Flat(others) == sent + (part + Flat(others));
      assert [SendContinuation(part, false)] + Continuations(others) + rest
          == [SendContinuation(part, false)] + later;
    }
  }

  /** The calls that carry data. */
  function DataCalls(calls: seq<Call>): (ds: seq<Call>)
  {
    if calls == [] then []
    else (if calls[0].SendPing? || calls[0].SendPong? then [] else [calls[0]]) + DataCalls(calls[1..])
  }

  /** Pings and pongs between fragments do not disturb the messages. */
  lemma {:induction false} ControlIsTransparent(calls: seq<Call>, asm: Assembly)
    ensures Messages(calls, asm) == Messages(DataCalls(calls), asm)
    decreases |calls|
  {
    if calls != [] {
      var rest := DataCalls(calls[1..]);
      ControlIsTransparent(calls[1..], After(asm, calls[0]));
      if calls[0].SendPing? || calls[0].SendPong? {
        assert DataCalls(calls) == rest;
      } else {
        assert DataCalls(calls)[0] == calls[0] && DataCalls(calls)[1..] == rest;
      }
    }
  }

  // ---- What a sequence of calls puts on the wire ---------------------------------------

  function SendAll(cfg: Config, out: Output, calls: seq<Call>): (r: Output)
    decreases |calls|
  {
    if calls == [] then out else SendAll(cfg, Perform(cfg, out, calls[0]).0, calls[1..])
  }

  /** Two ends of one session: opposite roles, the same negotiated flag. */
  predicate Peers(s: Config, r: Config)
  {
    s.role != r.role && s.deflate == r.deflate && (s.deflateBuilt ==> r.deflateBuilt)
  }

  /** The codec works on what the call sends, and the frame length fits its field. */
  predicate Sound(s: Config, r: Config, call: Call)
  {
    var p := WirePayload(s, call);
    && p.Some? && |p.value| <= MAX_PAYLOAD
    && (Compresses(s, call) ==> r.decompress(p.value) == Some(call.data))
  }

  predicate AllSound(s: Config, r: Config, calls: seq<Call>)
  {
    forall call | call in calls :: Sound(s, r, call)
  }

  /** The payload of the frame of a call whose compression does not fail. */
  function PayloadFor(cfg: Config, call: Call): (p: seq<byte>)
  {
    var p := WirePayload(cfg, call);
    if p.Some? then p.value else []
  }

  function FrameFor(cfg: Config, drawn: nat, call: Call): (f: Frame)
  {
    FrameOf(CallOpcode(call), CallFin(call), Compresses(cfg, call),
            if cfg.role.Client? then Some(cfg.keys(drawn)) else None, PayloadFor(cfg, call))
  }

  function Drawn(cfg: Config, drawn: nat): (n: nat)
  {
    if cfg.role.Client? then drawn + 1 else drawn
  }

  function FramesFor(cfg: Config, drawn: nat, calls: seq<Call>): (fs: seq<Frame>)
    ensures |fs| == |calls|
    decreases |calls|
  {
    if calls == [] then [] else [FrameFor(cfg, drawn, calls[0])] + FramesFor(cfg, Drawn(cfg, drawn), calls[1..])
  }

  /** A call on a transport that takes everything appends the wire image of its frame. */
  lemma PerformWrites(cfg: Config, out: Output, call: Call)
    requires WirePayload(cfg, call).Some? && out.capacity.None?
    ensures Perform(cfg, out, call)
         == (Output(out.bytes + Encode(FrameFor(cfg, out.drawn, call)), None, Drawn(cfg, out.drawn)), None)
  {
    hide Encode;
  }

  /** The wire carries whole frames, one per call, in the order of the calls. */
  lemma {:induction false} SendAllWrites(cfg: Config, out: Output, calls: seq<Call>)
    requires forall call | call in calls :: WirePayload(cfg, call).Some?
    requires out.capacity.None?
    ensures SendAll(cfg, out, calls).bytes == out.bytes + EncodeAll(FramesFor(cfg, out.drawn, calls))
    ensures SendAll(cfg, out, calls).capacity.None?
    decreases |calls|
  {
    hide Encode, Perform;
    if calls != [] {
      PerformWrites(cfg, out, calls[0]);
      var out' := Perform(cfg, out, calls[0]).0;
      SendAllWrites(cfg, out', calls[1..]);
      var fs := FramesFor(cfg, out.drawn, calls);
      assert fs[1..] == FramesFor(cfg, out'.drawn, calls[1..]);
      assert out.bytes + Encode(fs[0]) + EncodeAll(fs[1..]) == out.bytes + (Encode(fs[0]) + EncodeAll(fs[1..]));
    }
  }

  /** Sending one script after another. */
  lemma {:induction false} SendAllConcat(cfg: Config, out: Output, a: seq<Call>, b: seq<Call>)
    ensures SendAll(cfg, out, a + b) == SendAll(cfg, SendAll(cfg, out, a), b)
    decreases |a|
  {
    hide Perform;
    if a == [] {
      assert a + b == b;
    } else {
      assert (a + b)[1..] == a[1..] + b;
      SendAllConcat(cfg, Perform(cfg, out, a[0]).0, a[1..], b);
    }
  }

  // ---- Role duality --------------------------------------------------------------------

  /** Every frame a sender emits passes the validation of the opposite role. */
  lemma FrameAccepted(s: Config, r: Config, drawn: nat, call: Call)
    requires Peers(s, r) && WirePayload(s, call).Some?
    ensures Acceptable(FrameFor(s, drawn, call).header, r.role, r.deflate)
    ensures FrameFor(s, drawn, call).header.rsv1 ==>
              s.deflate && CallFin(call) && (call.SendText? || call.SendBinary?)
  {
  }

  // ---- The receiving side, frame by frame ----------------------------------------------

  function FragmentFor(asm: Assembly): (f: Fragment)
  {
    match asm
    case Idle => NO_FRAGMENT
    case Partial(kind, data) => Fragment(true, data, kind, false)
  }

  /** The receiver after the frame of one call: fragments tracked, pings answered. */
  function Follow(r: Config, c: Conn, asm: Assembly, call: Call): (c': Conn)
  {
    c.(fragment := FragmentFor(After(asm, call)),
       out := if call.SendPing? then Perform(r, c.out, SendPong(call.data)).0 else c.out)
  }

  /** The receiver is idle or inside the message under construction, and its writes do not fail. */
  predicate InStep(c: Conn, asm: Assembly)
  {
    c.open && !c.broken && c.fragment == FragmentFor(asm) && c.out.capacity.None?
    && (asm.Partial? ==> asm.kind.Text? || asm.kind.Binary?)
  }

  lemma DispatchFollows(s: Config, r: Config, c: Conn, asm: Assembly, drawn: nat, call: Call)
    requires Peers(s, r) && Sound(s, r, call) && Allowed(asm, call) && InStep(c, asm)
    requires var m := Completed(asm, call); m.Some? && m.value.opcode.Text? ==> Utf8.WellFormed(m.value.payload)
    ensures var m := Completed(asm, call);
            Dispatch(r, c, FrameFor(s, drawn, call)) ==
            (if m.Some? then Some(Delivered(m.value)) else None, Follow(r, c, asm, call))
    ensures InStep(Follow(r, c, asm, call), After(asm, call))
  {
    hide Encode, Utf8.WellFormed;
    if call.SendPing? {
      PerformWrites(r, c.out, SendPong(call.data));
    }
  }

  /** A frame that is visible and acceptable is read without touching the connection. */
  lemma ReadFrameGets(r: Config, c: Conn, f: Frame, tail: seq<byte>, eof: bool)
    requires c.open && Sendable(f) && (f.payload != [] || tail != []) && Acceptable(f.header, r.role, r.deflate)
    ensures ReadFrameStep(r, c, Encode(f) + tail, eof) == (Got(f), c, tail)
  {
    hide Visible, Encode;
    RoundTripVisible(f, tail);
    assert (Encode(f) + tail)[|Encode(f)|..] == tail;
  }

  /** Reading on after the frame of one call. */
  lemma ReadOne(s: Config, r: Config, c: Conn, asm: Assembly, drawn: nat, call: Call, tail: seq<byte>, eof: bool)
    requires Peers(s, r) && Sound(s, r, call) && Allowed(asm, call) && InStep(c, asm)
    requires var m := Completed(asm, call); m.Some? && m.value.opcode.Text? ==> Utf8.WellFormed(m.value.payload)
    requires PayloadFor(s, call) != [] || tail != []
    ensures InStep(Follow(r, c, asm, call), After(asm, call))
    ensures var input := Encode(FrameFor(s, drawn, call)) + tail;
            var c' := Follow(r, c, asm, call);
            var m := Completed(asm, call);
            if m.Some? then ReadMessageStep(r, c, input, eof) == (Delivered(m.value), c', tail)
            else ReadMessageStep(r, c, input, eof) == ReadMessageStep(r, c', tail, eof)
  {
    var f := FrameFor(s, drawn, call);
    FrameAccepted(s, r, drawn, call);
    DispatchFollows(s, r, c, asm, drawn, call);
    assert c.open && Sendable(f) && f.payload == PayloadFor(s, call);
    hide Dispatch, ReadFrameStep, Encode, Acceptable, InStep, Follow;
    ReadFrameGets(r, c, f, tail, eof);
  }

  function FollowAll(r: Config, c: Conn, asm: Assembly, calls: seq<Call>): (c': Conn)
    decreases |calls|
  {
    if calls == [] then c else FollowAll(r, Follow(r, c, asm, calls[0]), After(asm, calls[0]), calls[1..])
  }

  /** The last frame can be seen: it has a payload, or more bytes follow. */
  predicate LastVisible(s: Config, calls: seq<Call>, rest: seq<byte>)
  {
    calls == [] || rest != [] || PayloadFor(s, calls[|calls| - 1]) != []
  }

  lemma ReadAllOne(s: Config, r: Config, c: Conn, asm: Assembly, drawn: nat, call: Call, tail: seq<byte>, eof: bool)
    requires Peers(s, r) && Sound(s, r, call) && Allowed(asm, call) && InStep(c, asm)
    requires TextValid(CompletedList(asm, call))
    requires PayloadFor(s, call) != [] || tail != []
    ensures InStep(Follow(r, c, asm, call), After(asm, call))
    ensures var t := ReadAll(r, Follow(r, c, asm, call), tail, eof);
            ReadAll(r, c, Encode(FrameFor(s, drawn, call)) + tail, eof)
            == t.(messages := CompletedList(asm, call) + t.messages)
  {
    var m := Completed(asm, call);
    assert m.Some? ==> m.value in CompletedList(asm, call);
    ReadOne(s, r, c, asm, drawn, call, tail, eof);
    hide ReadMessageStep, Follow, Encode, FrameFor, Completed, InStep;
    if m.None? {
      var t := ReadAll(r, Follow(r, c, asm, call), tail, eof);
      assert [] + t.messages == t.messages;
    }
  }

  /** The wire images of the later calls, or what follows them, make the first frame visible. */
  lemma TailVisible(s: Config, drawn: nat, calls: seq<Call>, rest: seq<byte>)
    requires calls != [] && LastVisible(s, calls, rest)
    ensures LastVisible(s, calls[1..], rest)
    ensures PayloadFor(s, calls[0]) != [] || EncodeAll(FramesFor(s, drawn, calls[1..])) + rest != []
  {
    hide PayloadFor, Encode, FrameFor;
    var later := calls[1..];
    if later != [] {
      assert later[|later| - 1] == calls[|calls| - 1];
      var fs := FramesFor(s, drawn, later);
      assert |EncodeAll(fs)| >= |Encode(fs[0])| >= 2;
    }
  }

  lemma FollowInStep(r: Config, c: Conn, asm: Assembly, call: Call)
    requires Allowed(asm, call) && InStep(c, asm)
    ensures InStep(Follow(r, c, asm, call), After(asm, call))
  {
    hide Encode;
    if call.SendPing? {
      PerformWrites(r, c.out, SendPong(call.data));
    }
  }

  lemma {:induction false} FollowAllInStep(r: Config, c: Conn, asm: Assembly, calls: seq<Call>)
    requires WellOrdered(calls, asm) && InStep(c, asm)
    ensures InStep(FollowAll(r, c, asm, calls), Left(calls, asm))
    decreases |calls|
  {
    hide InStep, Follow, After, Allowed;
    if calls != [] {
      FollowInStep(r, c, asm, calls[0]);
      FollowAllInStep(r, Follow(r, c, asm, calls[0]), After(asm, calls[0]), calls[1..]);
    }
  }

  /** The first call's frame, then the frames of the others. */
  lemma FramesForCons(s: Config, drawn: nat, calls: seq<Call>, rest: seq<byte>)
    requires calls != []
    ensures EncodeAll(FramesFor(s, drawn, calls)) + rest
         == Encode(FrameFor(s, drawn, calls[0])) + (EncodeAll(FramesFor(s, Drawn(s, drawn), calls[1..])) + rest)
  {
    hide Encode, FrameFor;
    var fs := FramesFor(s, drawn, calls);
    assert fs[1..] == FramesFor(s, Drawn(s, drawn), calls[1..]);
  }

  lemma {:induction false} ReadAllFollows(s: Config, r: Config, c: Conn, asm: Assembly, drawn: nat, calls: seq<Call>,
                                          rest: seq<byte>, eof: bool)
    requires Peers(s, r) && AllSound(s, r, calls) && WellOrdered(calls, asm) && TextValid(Messages(calls, asm))
    requires InStep(c, asm) && LastVisible(s, calls, rest)
    ensures var t := ReadAll(r, FollowAll(r, c, asm, calls), rest, eof);
            ReadAll(r, c, EncodeAll(FramesFor(s, drawn, calls)) + rest, eof) ==
            t.(messages := Messages(calls, asm) + t.messages)
    decreases |calls|
  {
    hide ReadAll, Encode, Sound, PayloadFor, InStep, Follow, Utf8.WellFormed, FrameFor, LastVisible, After, Allowed,
         Completed;
    var t := ReadAll(r, FollowAll(r, c, asm, calls), rest, eof);
    if calls == [] {
      assert EncodeAll(FramesFor(s, drawn, calls)) + rest == rest;
      assert Messages(calls, asm) + t.messages == t.messages;
    } else {
      var call, later := calls[0], calls[1..];
      var tail := EncodeAll(FramesFor(s, Drawn(s, drawn), later)) + rest;
      FramesForCons(s, drawn, calls, rest);
      hide EncodeAll, FramesFor;
      TailTexts(calls, asm);
      TailVisible(s, Drawn(s, drawn), calls, rest);
      ReadAllOne(s, r, c, asm, drawn, call, tail, eof);
      ReadAllFollows(s, r, Follow(r, c, asm, call), After(asm, call), Drawn(s, drawn), later, rest, eof);
      var ms := Messages(later, After(asm, call));
      assert CompletedList(asm, call) + (ms + t.messages) == Messages(calls, asm) + t.messages;
    }
  }

  lemma TailTexts(calls: seq<Call>, asm: Assembly)
    requires calls != [] && WellOrdered(calls, asm) && TextValid(Messages(calls, asm))
    ensures TextValid(Messages(calls[1..], After(asm, calls[0])))
    ensures TextValid(CompletedList(asm, calls[0]))
  {
    hide Utf8.WellFormed, CompletedList, After;
    assert Messages(calls, asm) == CompletedList(asm, calls[0]) + Messages(calls[1..], After(asm, calls[0]));
    forall m | m in Messages(calls[1..], After(asm, calls[0])) ensures m in Messages(calls, asm) {}
  }

  /** Following all calls tracks what is under construction and answers every ping. */
  lemma {:induction false} FollowAllState(r: Config, c: Conn, asm: Assembly, calls: seq<Call>)
    requires c.fragment == FragmentFor(asm)
    ensures FollowAll(r, c, asm, calls) ==
            c.(fragment := FragmentFor(Left(calls, asm)), out := SendAll(r, c.out, Answers(calls)))
    decreases |calls|
  {
    hide Perform, After, FragmentFor;
    if calls != [] {
      var c' := Follow(r, c, asm, calls[0]);
      FollowAllState(r, c', After(asm, calls[0]), calls[1..]);
      if calls[0].SendPing? {
        var pong := SendPong(calls[0].data);
        assert Answers(calls) == [pong] + Answers(calls[1..]);
        assert Answers(calls)[0] == pong && Answers(calls)[1..] == Answers(calls[1..]);
      } else {
        assert Answers(calls) == Answers(calls[1..]);
      }
    }
  }

  // ---- End to end ----------------------------------------------------------------------

  /** The bytes a sequence of calls puts on the wire. */
  function Wire(s: Config, out: Output, calls: seq<Call>): (w: seq<byte>)
  {
    EncodeAll(FramesFor(s, out.drawn, calls))
  }

  /** An idle open connection whose writes do not fail. */
  predicate Fresh(c: Conn)
  {
    c.open && !c.broken && c.fragment == NO_FRAGMENT && c.out.capacity.None?
  }

  lemma FreshInStep(c: Conn)
    requires Fresh(c)
    ensures InStep(c, Idle)
  {
  }

  /** A well-ordered sequence of calls the codec can carry, with valid text. */
  predicate Script(s: Config, r: Config, calls: seq<Call>)
  {
    AllSound(s, r, calls) && WellOrdered(calls, Idle) && TextValid(Messages(calls, Idle))
  }

  /**
   * End to end: the peer of a sender reads exactly the messages sent, in order, then the end of the
   * stream, and has written exactly the pongs that answer the pings, in order.
   */
  lemma MessagesDelivered(s: Config, out: Output, r: Config, c: Conn, calls: seq<Call>)
    requires Peers(s, r) && Script(s, r, calls) && Fresh(c) && LastVisible(s, calls, [])
    requires out.capacity.None?
    ensures SendAll(s, out, calls).bytes == out.bytes + Wire(s, out, calls)
    ensures ReadAll(r, c, Wire(s, out, calls), true)
         == Transcript(Messages(calls, Idle), Ended,
                       c.(open := false, fragment := FragmentFor(Left(calls, Idle)),
                          out := SendAll(r, c.out, Answers(calls))), [])
  {
    forall call | call in calls ensures WirePayload(s, call).Some? { assert Sound(s, r, call); }
    SendAllWrites(s, out, calls);
    FreshInStep(c);
    var wire := Wire(s, out, calls);
    assert wire + [] == wire;
    ReadAllFollows(s, r, c, Idle, out.drawn, calls, [], true);
    FollowAllState(r, c, Idle, calls);
    FollowAllInStep(r, c, Idle, calls);
    EndOfStream(r, FollowAll(r, c, Idle, calls), []);
    hide *;
    assert Messages(calls, Idle) + [] == Messages(calls, Idle);
  }

  /** With no further frame to be seen, reading reports the end of the stream. */
  lemma EndOfStream(r: Config, c: Conn, rest: seq<byte>)
    requires c.open && Visible(rest).NeedMore?
    ensures ReadAll(r, c, rest, true) == Transcript([], Ended, c.(open := false), rest)
  {
    hide Visible;
  }

  lemma {:induction false} FramesForAppend(s: Config, drawn: nat, calls: seq<Call>, last: Call)
    ensures exists d: nat :: FramesFor(s, drawn, calls + [last]) == FramesFor(s, drawn, calls) + [FrameFor(s, d, last)]
    decreases |calls|
  {
    hide FrameFor;
    if calls == [] {
      assert calls + [last] == [last] && [last][1..] == [];
      assert FramesFor(s, drawn, calls + [last]) == FramesFor(s, drawn, calls) + [FrameFor(s, drawn, last)];
    } else {
      assert (calls + [last])[1..] == calls[1..] + [last];
      FramesForAppend(s, Drawn(s, drawn), calls[1..], last);
      var d: nat :| FramesFor(s, Drawn(s, drawn), calls[1..] + [last])
                 == FramesFor(s, Drawn(s, drawn), calls[1..]) + [FrameFor(s, d, last)];
      assert FramesFor(s, drawn, calls + [last]) == FramesFor(s, drawn, calls) + [FrameFor(s, d, last)];
    }
  }

  lemma {:induction false} ScriptAppend(calls: seq<Call>, asm: Assembly, last: Call)
    requires WellOrdered(calls + [last], asm)
    ensures WellOrdered(calls, asm)
    ensures Messages(calls + [last], asm) == Messages(calls, asm) + CompletedList(Left(calls, asm), last)
    decreases |calls|
  {
    hide CompletedList, After, Allowed;
    if calls == [] {
      assert calls + [last] == [last] && [last][1..] == [];
    } else {
      assert (calls + [last])[1..] == calls[1..] + [last];
      ScriptAppend(calls[1..], After(asm, calls[0]), last);
    }
  }

  /** Everything the application sees of a script: its messages read, and its pings answered. */
  predicate Achieved(r: Config, c: Conn, t: Transcript, calls: seq<Call>)
  {
    t.messages == Messages(calls, Idle) && t.conn.out == SendAll(r, c.out, Answers(calls))
  }

  /**
   * Exactly when the theorem holds: a last frame with an empty payload at the end of the stream stays in
   * the parser, so all messages are read and all pings answered if and only if that frame has a payload,
   * or neither completes a message nor is a ping.
   */
  lemma DeliveryExact(s: Config, out: Output, r: Config, c: Conn, calls: seq<Call>, last: Call)
    requires Peers(s, r) && Script(s, r, calls + [last]) && Fresh(c)
    ensures Achieved(r, c, ReadAll(r, c, Wire(s, out, calls + [last]), true), calls + [last]) <==>
            PayloadFor(s, last) != [] || (Completed(Left(calls, Idle), last).None? && !last.SendPing?)
  {
    var all := calls + [last];
    ScriptAppend(calls, Idle, last);
    assert all[|all| - 1] == last && last in all;
    forall call | call in calls ensures Sound(s, r, call) { assert call in all; }
    assert c.out.capacity.None?;
    hide ReadAll, Wire, Sound, Completed, FrameFor, PayloadFor, Fresh, Peers, SendAll, Achieved;
    if PayloadFor(s, last) != [] {
      AllRead(s, out, r, c, all);
    } else {
      FramesForAppend(s, out.drawn, calls, last);
      var d: nat :| FramesFor(s, out.drawn, all) == FramesFor(s, out.drawn, calls) + [FrameFor(s, d, last)];
      assert FrameFor(s, d, last).payload == PayloadFor(s, last) by { FramePayload(s, d, last); }
      HeldBack(s, out, c, r, calls, FrameFor(s, d, last), all);
      HeldBackExact(r, c, ReadAll(r, c, Wire(s, out, all), true), calls, last);
    }
  }

  /** What achieves a script achieves the script with one call more just if that call shows in nothing. */
  lemma HeldBackExact(r: Config, c: Conn, t: Transcript, calls: seq<Call>, last: Call)
    requires Achieved(r, c, t, calls) && WellOrdered(calls + [last], Idle) && c.out.capacity.None?
    ensures Achieved(r, c, t, calls + [last]) <==> Completed(Left(calls, Idle), last).None? && !last.SendPing?
  {
    hide SendAll, WellOrdered, Completed;
    ScriptAppend(calls, Idle, last);
    AnswersAppend(calls, last);
    hide Messages, Answers;
    var ms, extra := Messages(calls, Idle), CompletedList(Left(calls, Idle), last);
    assert |ms + extra| == |ms| + |extra| && ms + [] == ms && Answers(calls) + [] == Answers(calls);
    if last.SendPing? {
      OnlyPongs(calls);
      PongShows(r, c.out, Answers(calls), last.data);
    }
  }

  lemma {:induction false} OnlyPongs(calls: seq<Call>)
    ensures forall call | call in Answers(calls) :: call.SendPong?
  {
    if calls != [] {
      OnlyPongs(calls[1..]);
    }
  }

  lemma {:induction false} AnswersAppend(calls: seq<Call>, last: Call)
    ensures Answers(calls + [last]) == Answers(calls) + (if last.SendPing? then [SendPong(last.data)] else [])
  {
    var more := if last.SendPing? then [SendPong(last.data)] else [];
    var all := calls + [last];
    if calls == [] {
      assert all == [last] && [last][1..] == [];
    } else {
      assert all[1..] == calls[1..] + [last] && all[0] == calls[0];
      AnswersAppend(calls[1..], last);
      var first := if calls[0].SendPing? then [SendPong(calls[0].data)] else [];
      var later := Answers(calls[1..]);
      assert Answers(all) == first + Answers(all[1..]) && Answers(calls) == first + later;
      hide Answers;
      assert first + (later + more) == first + later + more;
    }
  }

  /** One pong more is more bytes. */
  lemma PongShows(r: Config, out: Output, pongs: seq<Call>, data: seq<byte>)
    requires out.capacity.None? && forall call | call in pongs :: call.SendPong?
    ensures SendAll(r, out, pongs + [SendPong(data)]) != SendAll(r, out, pongs)
  {
    hide Encode;
    SendAllWrites(r, out, pongs);
    SendAllConcat(r, out, pongs, [SendPong(data)]);
    var mid := SendAll(r, out, pongs);
    SendAllWrites(r, mid, [SendPong(data)]);
    var fs := FramesFor(r, mid.drawn, [SendPong(data)]);
    assert |EncodeAll(fs)| >= |Encode(fs[0])| >= 2;
  }

  lemma FramePayload(s: Config, drawn: nat, call: Call)
    ensures FrameFor(s, drawn, call).payload == PayloadFor(s, call)
  {
  }

  /** With a last frame that has a payload everything is read. */
  lemma AllRead(s: Config, out: Output, r: Config, c: Conn, calls: seq<Call>)
    requires Peers(s, r) && Script(s, r, calls) && Fresh(c) && LastVisible(s, calls, [])
    ensures Achieved(r, c, ReadAll(r, c, Wire(s, out, calls), true), calls)
  {
    hide ReadAll, Peers, InStep, Sound, EncodeAll, FramesFor, LastVisible;
    FreshInStep(c);
    ReadAllFollows(s, r, c, Idle, out.drawn, calls, [], true);
    assert Wire(s, out, calls) + [] == Wire(s, out, calls);
    FollowAllInStep(r, c, Idle, calls);
    var c' := FollowAll(r, c, Idle, calls);
    assert c'.open by { InStepOpen(c', Left(calls, Idle)); }
    FollowAllState(r, c, Idle, calls);
    EndOfStream(r, c', []);
    assert Messages(calls, Idle) + [] == Messages(calls, Idle);
  }

  lemma InStepOpen(c: Conn, asm: Assembly)
    requires InStep(c, asm)
    ensures c.open
  {
  }

  /** A last empty frame changes nothing the application sees. */
  lemma HeldBack(s: Config, out: Output, c: Conn, r: Config, calls: seq<Call>, f: Frame, all: seq<Call>)
    requires Peers(s, r) && AllSound(s, r, calls) && WellOrdered(calls, Idle) && TextValid(Messages(calls, Idle))
    requires Fresh(c)
    requires FramesFor(s, out.drawn, all) == FramesFor(s, out.drawn, calls) + [f] && f.payload == []
    ensures Achieved(r, c, ReadAll(r, c, Wire(s, out, all), true), calls)
  {
    hide Dispatch, Encode, Sound, ReadAll, Perform, FrameFor;
    FreshInStep(c);
    EncodeAllAppend(FramesFor(s, out.drawn, calls), [f]);
    assert [f][1..] == [] && EncodeAll([f]) == Encode(f) + [] == Encode(f);
    ReadAllFollows(s, r, c, Idle, out.drawn, calls, Encode(f), true);
    FollowAllInStep(r, c, Idle, calls);
    FollowAllState(r, c, Idle, calls);
    assert Encode(f) + [] == Encode(f);
    RoundTrip(f, []);
    EndOfStream(r, FollowAll(r, c, Idle, calls), Encode(f));
    assert Messages(calls, Idle) + [] == Messages(calls, Idle);
  }

  /** The smallest cases: an empty binary message sent alone is never read. */
  lemma EmptyMessageNotRead(s: Config, out: Output, r: Config, c: Conn)
    requires Peers(s, r) && !s.deflate && Fresh(c)
    ensures ReadAll(r, c, Wire(s, out, [SendBinary([], true)]), true).messages == []
    ensures Messages([SendBinary([], true)], Idle) == [Message(Binary, [])]
  {
    AloneHeldBack(s, out, r, c, SendBinary([], true));
  }

  /** And an empty ping sent alone is never answered. */
  lemma EmptyPingNotAnswered(s: Config, out: Output, r: Config, c: Conn)
    requires Peers(s, r) && Fresh(c)
    ensures ReadAll(r, c, Wire(s, out, [SendPing([])]), true).conn.out == c.out
    ensures SendAll(r, c.out, Answers([SendPing([])])) != c.out
  {
    AloneHeldBack(s, out, r, c, SendPing([]));
    AnswersAppend([], SendPing([]));
    assert [] + [SendPing([])] == [SendPing([])] && Answers([]) == [];
    PongShows(r, c.out, [], []);
  }

  lemma AloneHeldBack(s: Config, out: Output, r: Config, c: Conn, call: Call)
    requires Peers(s, r) && Fresh(c) && PayloadFor(s, call) == []
    ensures Achieved(r, c, ReadAll(r, c, Wire(s, out, [call]), true), [])
  {
    hide ReadAll, Wire, PayloadFor;
    var calls := [call];
    assert calls == [] + [call];
    FramesForAppend(s, out.drawn, [], call);
    var d: nat :| FramesFor(s, out.drawn, [] + [call]) == FramesFor(s, out.drawn, []) + [FrameFor(s, d, call)];
    FramePayload(s, d, call);
    HeldBack(s, out, c, r, [], FrameFor(s, d, call), calls);
  }
}
