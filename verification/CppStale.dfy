/**
 * Exactly when the C++ reader departs from the reassembly rules, and what it delivers of the
 * messages a Rust endpoint sends.
 */
module CppStale {
  import opened Bytes
  import opened Frames
  import opened CloseCodes
  import opened Session
  import opened Reassembly
  import opened CppReassembly
  import C = CppReader
  import E = EndToEnd
  import Utf8

  // ---- Stale payloads ------------------------------------------------------------------

  /** Completing a message with `a` or with `b` cannot be told apart. */
  predicate SameContent(cfg: Config, kind: Opcode, compressed: bool, a: seq<byte>, b: seq<byte>)
  {
    var x := if compressed then cfg.decompress(a) else Some(a);
    var y := if compressed then cfg.decompress(b) else Some(b);
    || x == y
    || (compressed && !Negotiated(cfg))
    || (kind.Text? && x.Some? && y.Some? && !Utf8.WellFormed(x.value) && !Utf8.WellFormed(y.value))
  }

  /**
   * When an empty frame may be handled with the stale octets `b`: they are none, or the frame is
   * refused whatever its payload, or its payload is not used, or says the same.
   */
  predicate Harmless(cfg: Config, partial: Partial, h: Header, b: seq<byte>)
  {
    || b == []
    || !Acceptable(h, cfg.role, cfg.deflate)
    || match h.opcode
       case Pong => true
       case Ping => false
       case Close => |b| == 1 || (|b| == 2 && b == [3, 232])
       case Continuation =>
         || partial.NoPartial?
         || (h.fin && SameContent(cfg, partial.kind, partial.compressed, partial.data, partial.data + b))
       case _ =>
         partial.InProgress? || (h.fin && SameContent(cfg, h.opcode, h.rsv1, [], b))
  }

  lemma CompleteExact(cfg: Config, kind: Opcode, compressed: bool, a: seq<byte>, b: seq<byte>)
    ensures Complete(cfg, kind, compressed, a) == Complete(cfg, kind, compressed, b) <==>
            SameContent(cfg, kind, compressed, a, b)
  {
    hide Utf8.WellFormed;
    var x := if compressed then cfg.decompress(a) else Some(a);
    var y := if compressed then cfg.decompress(b) else Some(b);
    if x.Some? && y.Some? && Complete(cfg, kind, compressed, a) == Complete(cfg, kind, compressed, b) {
      var ms, ns := Complete(cfg, kind, compressed, a).messages, Complete(cfg, kind, compressed, b).messages;
      assert ms == ns;
      if ms != [] {
        assert ms[0] == Message(kind, x.value) && ns[0] == Message(kind, y.value);
      }
    }
  }

  lemma CloseExact(b: seq<byte>)
    requires b != []
    ensures ReceivedCode(b) == ReceivedCode([]) && ReceivedReason(b) == ReceivedReason([])
       <==> |b| == 1 || (|b| == 2 && b == [3, 232])
  {
  }

  /** One empty frame has the effect it should have if and only if the stale octets are harmless. */
  lemma StaleExact(cfg: Config, partial: Partial, f: Frame, b: seq<byte>)
    requires f.payload == []
    ensures Rule(cfg, partial, Seen(b, f)) == Rule(cfg, partial, f) <==> Harmless(cfg, partial, f.header, b)
  {
    var h := f.header;
    var g := Seen(b, f);
    hide Acceptable, Complete, SameContent;
    if b == [] {
      assert g == f;
    } else if Acceptable(h, cfg.role, cfg.deflate) {
      match h.opcode
      case Close =>
        CloseExact(b);
      case Ping =>
        assert Rule(cfg, partial, g).pings[0] == b && Rule(cfg, partial, f).pings[0] == [];
      case Pong =>
      case Continuation =>
        if partial.InProgress? {
          assert partial.data + [] == partial.data;
          CompleteExact(cfg, partial.kind, partial.compressed, partial.data, partial.data + b);
          assert |partial.data + b| > |partial.data|;
        }
      case _ =>
        CompleteExact(cfg, h.opcode, h.rsv1, [], b);
    }
  }

  /** Every frame up to the end of the session is non-empty or harmless. */
  predicate AllHarmless(cfg: Config, partial: Partial, b: seq<byte>, fs: seq<Frame>)
    decreases |fs|
  {
    fs == [] ||
    (var f := fs[0];
     && (f.payload == [] ==> Harmless(cfg, partial, f.header, b))
     && var e := Rule(cfg, partial, f);
        var g := Seen(b, f);
        e.ending.StillOpen? ==> AllHarmless(cfg, e.partial, Kept(cfg, g.header, g.payload), fs[1..]))
  }

  /** The reader and the rules agree on the first `k` frames. */
  predicate AgreeAfter(cfg: Config, partial: Partial, b: seq<byte>, fs: seq<Frame>, k: nat)
    requires k <= |fs|
  {
    Fold(cfg, partial, SeenAll(cfg, b, fs[..k])) == Fold(cfg, partial, fs[..k])
  }

  lemma SeenCons(cfg: Config, b: seq<byte>, f: Frame, fs: seq<Frame>)
    ensures var g := Seen(b, f);
            SeenAll(cfg, b, [f] + fs) == [g] + SeenAll(cfg, Kept(cfg, g.header, g.payload), fs)
  {
    hide Kept;
    assert ([f] + fs)[0] == f && ([f] + fs)[1..] == fs;
  }

  lemma EffectCancel(e: Effect, x: Effect, y: Effect)
    ensures (Effect(e.messages + x.messages, e.pings + x.pings, x.partial, x.ending)
             == Effect(e.messages + y.messages, e.pings + y.pings, y.partial, y.ending))
            <==> x == y
  {
    if e.messages + x.messages == e.messages + y.messages {
      assert x.messages == (e.messages + x.messages)[|e.messages|..] == y.messages;
    }
    if e.pings + x.pings == e.pings + y.pings {
      assert x.pings == (e.pings + x.pings)[|e.pings|..] == y.pings;
    }
  }

  /** Agreement after one frame more than `k`, reduced to agreement after `k`. */
  lemma AgreeCons(cfg: Config, partial: Partial, b: seq<byte>, fs: seq<Frame>, k: nat)
    requires 0 < k <= |fs| && Rule(cfg, partial, Seen(b, fs[0])) == Rule(cfg, partial, fs[0])
    ensures var e := Rule(cfg, partial, fs[0]);
            var g := Seen(b, fs[0]);
            AgreeAfter(cfg, partial, b, fs, k) <==>
            !e.ending.StillOpen? || AgreeAfter(cfg, e.partial, Kept(cfg, g.header, g.payload), fs[1..], k - 1)
  {
    var f, tail := fs[0], fs[1..];
    var e, g := Rule(cfg, partial, f), Seen(b, f);
    var b' := Kept(cfg, g.header, g.payload);
    assert fs[..k] == [f] + tail[..k - 1];
    SeenCons(cfg, b, f, tail[..k - 1]);
    FoldCons(cfg, partial, f, tail[..k - 1]);
    FoldCons(cfg, partial, g, SeenAll(cfg, b', tail[..k - 1]));
    hide Rule, Seen, Kept, SeenAll, Fold;
    EffectCancel(e, Fold(cfg, e.partial, SeenAll(cfg, b', tail[..k - 1])), Fold(cfg, e.partial, tail[..k - 1]));
  }

  lemma AgreeOne(cfg: Config, partial: Partial, b: seq<byte>, fs: seq<Frame>)
    requires fs != []
    ensures AgreeAfter(cfg, partial, b, fs, 1) ==> Rule(cfg, partial, Seen(b, fs[0])) == Rule(cfg, partial, fs[0])
  {
    var f, g := fs[0], Seen(b, fs[0]);
    assert fs[..1] == [f] + [];
    SeenCons(cfg, b, f, []);
    assert SeenAll(cfg, Kept(cfg, g.header, g.payload), []) == [];
    FoldCons(cfg, partial, f, []);
    FoldCons(cfg, partial, g, []);
    FoldNothing(cfg, partial, f);
    FoldNothing(cfg, partial, g);
  }

  /** A frame on its own has just its own effect. */
  lemma FoldNothing(cfg: Config, partial: Partial, f: Frame)
    ensures Fold(cfg, partial, [f] + []) == Rule(cfg, partial, f)
  {
    hide Rule;
    FoldCons(cfg, partial, f, []);
    var e := Rule(cfg, partial, f);
    assert e.messages + [] == e.messages && e.pings + [] == e.pings;
  }

  /**
   * Over whole runs: the reader has done what the rules say after every number of frames if and
   * only if each empty frame met a harmless buffer.
   */
  lemma {:induction false} RunExact(cfg: Config, partial: Partial, b: seq<byte>, fs: seq<Frame>)
    ensures (forall k: nat :: k <= |fs| ==> AgreeAfter(cfg, partial, b, fs, k)) <==> AllHarmless(cfg, partial, b, fs)
    decreases |fs|
  {
    if fs == [] {
      assert fs[..0] == [];
    } else {
      var f, g := fs[0], Seen(b, fs[0]);
      var e, tail := Rule(cfg, partial, f), fs[1..];
      var b' := Kept(cfg, g.header, g.payload);
      if f.payload == [] {
        StaleExact(cfg, partial, f, b);
      }
      hide Rule, Harmless, Kept, Acceptable;
      if Rule(cfg, partial, g) == e {
        RunExact(cfg, e.partial, b', tail);
        hide Fold, SeenAll;
        RunTail(cfg, partial, b, fs);
      } else {
        AgreeOne(cfg, partial, b, fs);
        assert !AgreeAfter(cfg, partial, b, fs, 1);
      }
    }
  }

  lemma RunTail(cfg: Config, partial: Partial, b: seq<byte>, fs: seq<Frame>)
    requires fs != [] && Rule(cfg, partial, Seen(b, fs[0])) == Rule(cfg, partial, fs[0])
    ensures var e := Rule(cfg, partial, fs[0]);
            var g := Seen(b, fs[0]);
            var b' := Kept(cfg, g.header, g.payload);
            (forall k: nat :: k <= |fs| ==> AgreeAfter(cfg, partial, b, fs, k)) <==>
            !e.ending.StillOpen? || (forall k: nat :: k <= |fs| - 1 ==> AgreeAfter(cfg, e.partial, b', fs[1..], k))
  {
    var e := Rule(cfg, partial, fs[0]);
    var g := Seen(b, fs[0]);
    var b' := Kept(cfg, g.header, g.payload);
    assert fs[..0] == [] && AgreeAfter(cfg, partial, b, fs, 0);
    hide Rule, Seen, Kept, Fold, SeenAll, AgreeAfter;
    forall k: nat | 0 < k <= |fs|
      ensures AgreeAfter(cfg, partial, b, fs, k) <==>
              !e.ending.StillOpen? || AgreeAfter(cfg, e.partial, b', fs[1..], k - 1)
    {
      AgreeCons(cfg, partial, b, fs, k);
    }
    if e.ending.StillOpen? && forall k: nat :: k <= |fs| ==> AgreeAfter(cfg, partial, b, fs, k) {
      forall k: nat | k <= |fs| - 1 ensures AgreeAfter(cfg, e.partial, b', fs[1..], k) {
        assert AgreeAfter(cfg, partial, b, fs, k + 1);
      }
    }
  }

  lemma StaleTwice(cfg: Config, b: seq<byte>, full: Frame, empty: Frame)
    requires cfg.role.Client? && full == Frame(Header(true, false, false, false, Binary, None), [1])
    requires empty == full.(payload := [])
    ensures Fold(cfg, NoPartial, SeenAll(cfg, b, [full, empty]))
         == Effect([Message(Binary, [1]), Message(Binary, [1])], [], NoPartial, StillOpen)
  {
    assert Rule(cfg, NoPartial, full) == Effect([Message(Binary, [1])], [], NoPartial, StillOpen);
    hide Rule;
    assert [full, empty] == [full] + ([empty] + []);
    SeenCons(cfg, b, full, [empty] + []);
    SeenCons(cfg, [1], empty, []);
    assert SeenAll(cfg, [1], []) == [];
    FoldCons(cfg, NoPartial, full, [full] + []);
    FoldNothing(cfg, NoPartial, full);
  }

  /** The defect: an empty binary message sent after the message `[1]` is delivered as `[1]` again. */
  lemma EmptyMessageDeliveredStale(cfg: Config, r: C.Reader)
    requires Ready(cfg, r) && cfg.role.Client? && r.fragment == NO_FRAGMENT
    ensures var h := Header(true, false, false, false, Binary, None);
            C.ReadLoop(cfg, r, EncodeAll([Frame(h, [1]), Frame(h, [])])).delivered ==
            r.delivered + [Message(Binary, [1]), Message(Binary, [1])]
  {
    hide EncodeAll, C.ReadLoop, DecodeStream, Remainder, SeenAll, Fold, BadHeader, Answered, SendFrame;
    var h := Header(true, false, false, false, Binary, None);
    var fs := [Frame(h, [1]), Frame(h, [])];
    ReaderSimulates(cfg, r, EncodeAll(fs));
    DecodeEncoded(fs, []);
    NothingDecoded();
    assert EncodeAll(fs) + [] == EncodeAll(fs) && fs + DecodeStream([]) == fs;
    StaleTwice(cfg, r.payload, fs[0], fs[1]);
  }

  // ---- From a Rust sender to a C++ reader ----------------------------------------------

  function PartialFor(asm: E.Assembly): (p: Partial)
  {
    match asm
    case Idle => NoPartial
    case Partial(kind, data) => InProgress(kind, false, data)
  }

  function PingBodies(calls: seq<Call>): (bodies: seq<seq<byte>>)
  {
    if calls == [] then []
    else (if calls[0].SendPing? then [calls[0].data] else []) + PingBodies(calls[1..])
  }

  lemma {:induction false} AnswersArePongs(calls: seq<Call>)
    ensures Pongs(PingBodies(calls)) == E.Answers(calls)
  {
    if calls != [] {
      AnswersArePongs(calls[1..]);
      if calls[0].SendPing? {
        var rest := PingBodies(calls[1..]);
        assert PingBodies(calls) == [calls[0].data] + rest;
        assert ([calls[0].data] + rest)[1..] == rest;
      } else {
        assert PingBodies(calls) == PingBodies(calls[1..]);
      }
    }
  }

  /** What the rules make of the frame of one call. */
  lemma CallRule(s: Config, r: Config, drawn: nat, call: Call, asm: E.Assembly)
    requires E.Peers(s, r) && E.Sound(s, r, call) && E.Allowed(asm, call)
    requires E.TextValid(E.CompletedList(asm, call))
    ensures Rule(r, PartialFor(asm), E.FrameFor(s, drawn, call))
         == Effect(E.CompletedList(asm, call), if call.SendPing? then [call.data] else [],
                   PartialFor(E.After(asm, call)), StillOpen)
  {
    hide Utf8.WellFormed;
    var m := E.Completed(asm, call);
    assert m.Some? ==> m.value in E.CompletedList(asm, call);
  }

  /** The rules find in the frames of a script exactly its messages and pings, and no violation. */
  lemma {:induction false} ScriptFold(s: Config, r: Config, drawn: nat, calls: seq<Call>, asm: E.Assembly)
    requires E.Peers(s, r) && E.AllSound(s, r, calls) && E.WellOrdered(calls, asm)
    requires E.TextValid(E.Messages(calls, asm))
    ensures Fold(r, PartialFor(asm), E.FramesFor(s, drawn, calls))
         == Effect(E.Messages(calls, asm), PingBodies(calls), PartialFor(E.Left(calls, asm)), StillOpen)
    decreases |calls|
  {
    hide Utf8.WellFormed, E.Sound, E.After, E.Allowed, E.CompletedList, E.FrameFor, Rule, PartialFor;
    if calls != [] {
      var call := calls[0];
      E.TailTexts(calls, asm);
      CallRule(s, r, drawn, call, asm);
      ScriptFold(s, r, E.Drawn(s, drawn), calls[1..], E.After(asm, call));
      FoldCons(r, PartialFor(asm), E.FrameFor(s, drawn, call), E.FramesFor(s, E.Drawn(s, drawn), calls[1..]));
    }
  }

  lemma {:induction false} FramesNonEmpty(s: Config, r: Config, drawn: nat, calls: seq<Call>)
    requires E.AllSound(s, r, calls) && forall call | call in calls :: E.PayloadFor(s, call) != []
    ensures forall f | f in E.FramesFor(s, drawn, calls) :: Sendable(f) && f.payload != []
    decreases |calls|
  {
    if calls != [] {
      var fs := E.FramesFor(s, drawn, calls);
      FramesNonEmpty(s, r, E.Drawn(s, drawn), calls[1..]);
      assert E.Sound(s, r, calls[0]);
      hide E.Sound, E.PayloadFor, WirePayload;
      forall f | f in fs ensures Sendable(f) && f.payload != [] {
        if f != fs[0] {
          assert f in E.FramesFor(s, E.Drawn(s, drawn), calls[1..]);
        }
      }
    }
  }

  /**
   * Between the two implementations: a C++ reader delivers exactly the messages of a Rust sender's
   * script whose frames are not empty, and answers exactly its pings, in order.
   */
  lemma RustToCpp(s: Config, out: Output, r: Config, q: C.Reader, calls: seq<Call>)
    requires E.Peers(s, r) && E.Script(s, r, calls) && Ready(r, q) && q.fragment == NO_FRAGMENT
    requires forall call | call in calls :: E.PayloadFor(s, call) != []
    ensures var q' := C.ReadLoop(r, q, E.Wire(s, out, calls));
            && q'.delivered == q.delivered + E.Messages(calls, E.Idle)
            && q'.out == E.SendAll(r, q.out, E.Answers(calls))
            && q'.closes == q.closes
  {
    FramesNonEmpty(s, r, out.drawn, calls);
    ScriptFold(s, r, out.drawn, calls, E.Idle);
    NonEmptyFrames(r, q, E.FramesFor(s, out.drawn, calls));
    AnswersArePongs(calls);
    hide C.ReadLoop, EncodeAll, E.FramesFor, Fold, E.SendAll;
  }
}
