/** An echo server and its client: what comes back is what was sent. */
module EchoServer {
  import opened Bytes
  import opened Frames
  import opened Session
  import opened EndToEnd
  import Utf8

  /** What `echo_session` sends in reply to one call of the peer. */
  function Reply(asm: Assembly, call: Call): (calls: seq<Call>)
  {
    if call.SendPing? then [SendPong(call.data)]
    else
      var m := Completed(asm, call);
      if m.Some? && EchoCall(m.value).Some? then [EchoCall(m.value).value] else []
  }

  function Replies(calls: seq<Call>, asm: Assembly): (rs: seq<Call>)
  {
    if calls == [] then [] else Reply(asm, calls[0]) + Replies(calls[1..], After(asm, calls[0]))
  }

  predicate DataKind(asm: Assembly)
  {
    asm.Partial? ==> asm.kind.Text? || asm.kind.Binary?
  }

  lemma ReplyMeaning(asm: Assembly, call: Call)
    requires Allowed(asm, call) && DataKind(asm)
    ensures DataKind(After(asm, call))
    ensures WellOrdered(Reply(asm, call), Idle) && Left(Reply(asm, call), Idle) == Idle
    ensures Messages(Reply(asm, call), Idle) == CompletedList(asm, call)
    ensures |Reply(asm, call)| <= 1 && Answers(Reply(asm, call)) == []
  {
    var rs := Reply(asm, call);
    if rs != [] {
      assert rs[1..] == [];
    }
  }

  lemma {:induction false} ScriptConcat(a: seq<Call>, b: seq<Call>, asm: Assembly)
    requires WellOrdered(a, asm) && WellOrdered(b, Left(a, asm))
    ensures WellOrdered(a + b, asm)
    ensures Messages(a + b, asm) == Messages(a, asm) + Messages(b, Left(a, asm))
    decreases |a|
  {
    hide CompletedList, After, Allowed;
    if a == [] {
      assert a + b == b;
    } else {
      assert (a + b)[1..] == a[1..] + b;
      ScriptConcat(a[1..], b, After(asm, a[0]));
    }
  }

  /** The replies are a well-ordered script of whole messages: the ones received. */
  lemma {:induction false} RepliesMeaning(calls: seq<Call>, asm: Assembly)
    requires WellOrdered(calls, asm) && DataKind(asm)
    ensures WellOrdered(Replies(calls, asm), Idle)
    ensures Messages(Replies(calls, asm), Idle) == Messages(calls, asm)
    decreases |calls|
  {
    hide Reply, CompletedList, After, Allowed, DataKind;
    if calls != [] {
      ReplyMeaning(asm, calls[0]);
      RepliesMeaning(calls[1..], After(asm, calls[0]));
      ScriptConcat(Reply(asm, calls[0]), Replies(calls[1..], After(asm, calls[0])), Idle);
    }
  }

  lemma SendAllOne(cfg: Config, out: Output, call: Call)
    ensures SendAll(cfg, out, [call]) == Perform(cfg, out, call).0
  {
    assert [call][1..] == [];
  }

  /** The server after reading the frame of one call and replying. */
  function EchoFollow(r: Config, c: Conn, asm: Assembly, call: Call): (c': Conn)
  {
    c.(fragment := FragmentFor(After(asm, call)), out := SendAll(r, c.out, Reply(asm, call)))
  }

  lemma EchoAfterMessage(r: Config, c: Conn, input: seq<byte>, m: Message, c1: Conn, tail: seq<byte>, call: Call,
                         out: Output, eof: bool)
    requires c.open && ReadMessageStep(r, c, input, eof) == (Delivered(m), c1, tail)
    requires EchoCall(m) == Some(call) && Perform(r, c1.out, call) == (out, None)
    requires m.opcode.Text? ==> Utf8.WellFormed(m.payload)
    ensures Echo(r, c, input, eof) == Echo(r, c1.(out := out), tail, eof)
  {
    hide ReadMessageStep, Perform, Utf8.WellFormed;
  }

  lemma EchoAfterSilence(r: Config, c: Conn, input: seq<byte>, c1: Conn, tail: seq<byte>, eof: bool)
    requires c.open && c1.open && ReadMessageStep(r, c, input, eof) == ReadMessageStep(r, c1, tail, eof)
    ensures Echo(r, c, input, eof) == Echo(r, c1, tail, eof)
  {
    hide ReadMessageStep, Perform, Utf8.WellFormed;
  }

  /** The reply to a completed message is written whole. */
  lemma ReplyWritten(s: Config, r: Config, c: Conn, asm: Assembly, call: Call)
    requires Allowed(asm, call) && InStep(c, asm) && AllSound(r, s, Reply(asm, call)) && Completed(asm, call).Some?
    ensures var m := Completed(asm, call).value;
            && EchoCall(m).Some?
            && Perform(r, Follow(r, c, asm, call).out, EchoCall(m).value) == (EchoFollow(r, c, asm, call).out, None)
    ensures InStep(EchoFollow(r, c, asm, call), After(asm, call))
  {
    var answer := EchoCall(Completed(asm, call).value).value;
    assert Reply(asm, call) == [answer];
    assert Sound(r, s, answer);
    SendAllOne(r, c.out, answer);
    PerformWrites(r, c.out, answer);
    hide Perform, Encode, SendAll;
  }

  /** Without a completed message the server only follows. */
  lemma NothingToEcho(r: Config, c: Conn, asm: Assembly, call: Call)
    requires Completed(asm, call).None?
    ensures EchoFollow(r, c, asm, call) == Follow(r, c, asm, call)
  {
    if call.SendPing? {
      SendAllOne(r, c.out, SendPong(call.data));
    }
    hide Perform;
  }

  lemma EchoOne(s: Config, r: Config, c: Conn, asm: Assembly, drawn: nat, call: Call, tail: seq<byte>, eof: bool)
    requires Peers(s, r) && Sound(s, r, call) && Allowed(asm, call) && InStep(c, asm)
    requires AllSound(r, s, Reply(asm, call))
    requires TextValid(CompletedList(asm, call))
    requires PayloadFor(s, call) != [] || tail != []
    ensures Echo(r, c, Encode(FrameFor(s, drawn, call)) + tail, eof) == Echo(r, EchoFollow(r, c, asm, call), tail, eof)
    ensures InStep(EchoFollow(r, c, asm, call), After(asm, call))
  {
    var m := Completed(asm, call);
    assert m.Some? ==> m.value in CompletedList(asm, call);
    var c1 := Follow(r, c, asm, call);
    var input := Encode(FrameFor(s, drawn, call)) + tail;
    ReadOne(s, r, c, asm, drawn, call, tail, eof);
    assert c.open && c1.open;
    hide ReadMessageStep, Encode, Perform, Completed, After, FrameFor, Utf8.WellFormed, Echo, SendAll, InStep,
         FragmentFor;
    if m.Some? {
      ReplyWritten(s, r, c, asm, call);
      EchoAfterMessage(r, c, input, m.value, c1, tail, EchoCall(m.value).value, EchoFollow(r, c, asm, call).out, eof);
    } else {
      NothingToEcho(r, c, asm, call);
      EchoAfterSilence(r, c, input, c1, tail, eof);
    }
  }

  function EchoFollowAll(r: Config, c: Conn, asm: Assembly, calls: seq<Call>): (c': Conn)
    decreases |calls|
  {
    if calls == [] then c else EchoFollowAll(r, EchoFollow(r, c, asm, calls[0]), After(asm, calls[0]), calls[1..])
  }

  lemma {:induction false} EchoFollowAllState(r: Config, c: Conn, asm: Assembly, calls: seq<Call>)
    requires c.fragment == FragmentFor(asm)
    ensures EchoFollowAll(r, c, asm, calls)
         == c.(fragment := FragmentFor(Left(calls, asm)), out := SendAll(r, c.out, Replies(calls, asm)))
    decreases |calls|
  {
    hide Perform, After, FragmentFor, Reply, SendAll;
    if calls == [] {
      SendAllNone(r, c.out);
    } else {
      EchoFollowAllState(r, EchoFollow(r, c, asm, calls[0]), After(asm, calls[0]), calls[1..]);
      SendAllConcat(r, c.out, Reply(asm, calls[0]), Replies(calls[1..], After(asm, calls[0])));
    }
  }

  lemma SendAllNone(cfg: Config, out: Output)
    ensures SendAll(cfg, out, []) == out
  {
  }

  lemma SoundTail(r: Config, s: Config, calls: seq<Call>, asm: Assembly)
    requires calls != [] && AllSound(r, s, Replies(calls, asm))
    ensures AllSound(r, s, Reply(asm, calls[0])) && AllSound(r, s, Replies(calls[1..], After(asm, calls[0])))
  {
    hide Sound, Reply, After;
    assert Replies(calls, asm) == Reply(asm, calls[0]) + Replies(calls[1..], After(asm, calls[0]));
  }

  lemma {:induction false} EchoFollows(s: Config, r: Config, c: Conn, asm: Assembly, drawn: nat, calls: seq<Call>,
                                       rest: seq<byte>, eof: bool)
    requires Peers(s, r) && AllSound(s, r, calls) && WellOrdered(calls, asm) && TextValid(Messages(calls, asm))
    requires AllSound(r, s, Replies(calls, asm)) && InStep(c, asm) && LastVisible(s, calls, rest)
    ensures Echo(r, c, EncodeAll(FramesFor(s, drawn, calls)) + rest, eof) ==
            Echo(r, EchoFollowAll(r, c, asm, calls), rest, eof)
    ensures InStep(EchoFollowAll(r, c, asm, calls), Left(calls, asm))
    decreases |calls|
  {
    hide Echo, Encode, Sound, PayloadFor, InStep, EchoFollow, Utf8.WellFormed, FrameFor, LastVisible, After, Allowed,
         Reply, CompletedList;
    if calls == [] {
      assert EncodeAll(FramesFor(s, drawn, calls)) + rest == rest;
    } else {
      var call, later := calls[0], calls[1..];
      var tail := EncodeAll(FramesFor(s, Drawn(s, drawn), later)) + rest;
      FramesForCons(s, drawn, calls, rest);
      hide EncodeAll, FramesFor;
      TailTexts(calls, asm);
      SoundTail(r, s, calls, asm);
      TailVisible(s, Drawn(s, drawn), calls, rest);
      EchoOne(s, r, c, asm, drawn, call, tail, eof);
      EchoFollows(s, r, EchoFollow(r, c, asm, call), After(asm, call), Drawn(s, drawn), later, rest, eof);
    }
  }

  /**
   * A client that sends any well-ordered calls to an echo server and then reads gets back exactly the
   * messages it sent, whatever the fragmentation, the interleaved pings and the masking keys.
   */
  lemma EchoRoundTrip(client: Config, out: Output, cc: Conn, server: Config, sc: Conn, calls: seq<Call>)
    requires Peers(client, server) && Peers(server, client) && Script(client, server, calls) && Fresh(cc) && Fresh(sc)
    requires AllSound(server, client, Replies(calls, Idle))
    requires LastVisible(client, calls, []) && LastVisible(server, Replies(calls, Idle), [])
    ensures Echo(server, sc, Wire(client, out, calls), true)
         == (None, sc.(open := false, fragment := FragmentFor(Left(calls, Idle)),
                       out := SendAll(server, sc.out, Replies(calls, Idle))), [])
    ensures SendAll(server, sc.out, Replies(calls, Idle)).bytes ==
            sc.out.bytes + Wire(server, sc.out, Replies(calls, Idle))
    ensures ReadAll(client, cc, Wire(server, sc.out, Replies(calls, Idle)), true).messages == Messages(calls, Idle)
  {
    var wire := Wire(client, out, calls);
    assert wire + [] == wire;
    FreshInStep(sc);
    EchoFollows(client, server, sc, Idle, out.drawn, calls, [], true);
    EchoFollowAllState(server, sc, Idle, calls);
    EchoEnds(server, EchoFollowAll(server, sc, Idle, calls));
    RepliesMeaning(calls, Idle);
    MessagesDelivered(server, sc.out, client, cc, Replies(calls, Idle));
    hide *;
  }

  lemma EchoEnds(r: Config, c: Conn)
    requires c.open
    ensures Echo(r, c, [], true) == (None, c.(open := false), [])
  {
  }
}
