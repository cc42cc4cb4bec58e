/**
 * The lock operations of the Rust connection: every code path as the locks it takes and drops, the frames
 * it builds in the shared buffer and the writes it makes, and the discipline all of them keep.
 * `ConcurrentSends` interleaves them.
 */
module SendLocks {
  import opened Bytes

  datatype Lock = FragmentLock | ReadStateLock | ParserLock | OutboundLock | StreamLock | OpenLock | DeflateLock
                | LastCloseLock

  /**
   * What a thread does next: take or drop a lock, build a frame in the shared `outbound` buffer, or
   * run `send_raw`, which locks the stream and writes either that buffer or the caller's own bytes.
   */
  datatype Action = Acquire(lock: Lock) | Release(lock: Lock) | Build(frame: seq<byte>)
                  | SendRaw(own: Option<seq<byte>>)

  // ---- The code paths ------------------------------------------------------------------

  /** `send_frame_into` */
  function SendPath(frame: seq<byte>): (p: seq<Action>)
  {
    [Acquire(OutboundLock), Build(frame), SendRaw(None), Release(OutboundLock)]
  }

  /** A lock held only to read or assign one value. */
  function Touch(l: Lock): (p: seq<Action>)
  {
    [Acquire(l), Release(l)]
  }

  /** `close`; also the end of `handle_close_frame` and of `fail_protocol`. */
  function ClosePath(frame: seq<byte>): (p: seq<Action>)
  {
    SendPath(frame) + Touch(OpenLock)
  }

  /** `deliver_message`: `bad` is the CLOSE frame it sends when the message is refused with one. */
  function DeliverPath(bad: Option<seq<byte>>): (p: seq<Action>)
  {
    Touch(DeflateLock) + (if bad.Some? then ClosePath(bad.value) else [])
  }

  /** What one frame makes `read_message` do, with the frames it writes. */
  datatype Reaction = AnswerClose(frame: seq<byte>) | AnswerPing(frame: seq<byte>) | IgnorePong
                    | Refuse(frame: seq<byte>) | StoreFragment | FinishFragments(bad: Option<seq<byte>>)
                    | DeliverWhole(bad: Option<seq<byte>>)

  /** The `fragment` lock is held while a frame is refused or delivered whole, not while fragments are. */
  function ReactionPath(r: Reaction): (p: seq<Action>)
  {
    match r
    case AnswerClose(frame) => Touch(LastCloseLock) + ClosePath(frame)
    case AnswerPing(frame) => SendPath(frame)
    case IgnorePong => []
    case Refuse(frame) => [Acquire(FragmentLock)] + ClosePath(frame) + [Release(FragmentLock)]
    case StoreFragment => Touch(FragmentLock)
    case FinishFragments(bad) => Touch(FragmentLock) + DeliverPath(bad)
    case DeliverWhole(bad) => [Acquire(FragmentLock)] + DeliverPath(bad) + [Release(FragmentLock)]
  }

  /** How the loop of `read_frame` ends after some number of reads. */
  datatype FrameEnd = HasFrame | ParserFails(frame: seq<byte>) | EndOfStream | ReadFails

  function ReadsPath(rounds: nat): (p: seq<Action>)
  {
    if rounds == 0 then [] else Touch(StreamLock) + ReadsPath(rounds - 1)
  }

  function FrameEndPath(end: FrameEnd): (p: seq<Action>)
  {
    var unlock := [Release(ParserLock), Release(ReadStateLock)];
    match end
    case HasFrame => Touch(DeflateLock) + unlock
    case ParserFails(frame) => unlock + ClosePath(frame)
    case EndOfStream => unlock + Touch(OpenLock)
    case ReadFails => unlock
  }

  /** `read_frame` on an open connection. */
  function ReadFramePath(rounds: nat, end: FrameEnd): (p: seq<Action>)
  {
    Touch(OpenLock) + [Acquire(ReadStateLock), Acquire(ParserLock)] + ReadsPath(rounds) + FrameEndPath(end)
  }

  /** A call of the public interface with its choices resolved; any number of threads make any of them. */
  datatype Operation = SendData(frame: seq<byte>) | CompressionFails | SendOther(frame: seq<byte>)
                     | CloseConnection(frame: seq<byte>) | SendPrepared(bytes: seq<byte>) | Query(lock: Lock)
                     | ReadFrame(rounds: nat, end: FrameEnd) | React(reaction: Reaction)

  /**
   * `read_message` is any sequence of `ReadFrame` and `React`; `handle_incoming` of the async connection is a
   * `React` or, for ill-formed text, a `CloseConnection`.
   */
  function OperationPath(op: Operation): (p: seq<Action>)
  {
    match op
    case SendData(frame) => Touch(DeflateLock) + SendPath(frame)
    case CompressionFails => Touch(DeflateLock)
    case SendOther(frame) => SendPath(frame)
    case CloseConnection(frame) => ClosePath(frame)
    case SendPrepared(bytes) => [SendRaw(Some(bytes))]
    case Query(lock) => Touch(lock)
    case ReadFrame(rounds, end) => ReadFramePath(rounds, end)
    case React(reaction) => ReactionPath(reaction)
  }

  function Program(ops: seq<Operation>): (p: seq<Action>)
  {
    if ops == [] then [] else OperationPath(ops[0]) + Program(ops[1..])
  }

  /** The frames an operation is to send, in order. */
  function FramesOf(op: Operation): (fs: seq<seq<byte>>)
  {
    match op
    case SendData(frame) => [frame]
    case SendOther(frame) => [frame]
    case CloseConnection(frame) => [frame]
    case SendPrepared(bytes) => [bytes]
    case ReadFrame(_, ParserFails(frame)) => [frame]
    case React(AnswerClose(frame)) => [frame]
    case React(AnswerPing(frame)) => [frame]
    case React(Refuse(frame)) => [frame]
    case React(FinishFragments(Some(frame))) => [frame]
    case React(DeliverWhole(Some(frame))) => [frame]
    case _ => []
  }

  function AllFrames(ops: seq<Operation>): (fs: seq<seq<byte>>)
  {
    if ops == [] then [] else FramesOf(ops[0]) + AllFrames(ops[1..])
  }

  // ---- The discipline every path keeps -------------------------------------------------

  /** Fragment before outbound before stream; read state before parser before stream; the rest are leaves. */
  function Rank(l: Lock): (n: nat)
  {
    match l
    case FragmentLock => 0
    case ReadStateLock => 1
    case ParserLock => 2
    case OutboundLock => 3
    case StreamLock => 4
    case _ => 5
  }

  predicate Above(l: Lock, held: set<Lock>)
  {
    forall h | h in held :: Rank(h) < Rank(l)
  }

  /**
   * Locks are taken in rank order and all dropped in the end; `outbound` is touched only under its
   * lock and written only after a frame was built in it. `built` is the frame built so far.
   */
  predicate Disciplined(p: seq<Action>, held: set<Lock>, built: Option<seq<byte>>)
  {
    if p == [] then held == {}
    else match p[0]
      case Acquire(l) => Above(l, held) && Disciplined(p[1..], held + {l}, built)
      case Release(l) => l in held && Disciplined(p[1..], held - {l}, if l.OutboundLock? then None else built)
      case Build(f) => OutboundLock in held && Disciplined(p[1..], held, Some(f))
      case SendRaw(own) =>
        && Above(StreamLock, held) && (own.None? ==> OutboundLock in held && built.Some?)
        && Disciplined(p[1..], held, built)
  }

  /** The frames a path sends. */
  function Sends(p: seq<Action>, built: Option<seq<byte>>): (fs: seq<seq<byte>>)
  {
    if p == [] then []
    else match p[0]
      case Build(f) => Sends(p[1..], Some(f))
      case SendRaw(Some(bytes)) => [bytes] + Sends(p[1..], built)
      case SendRaw(None) => (if built.Some? then [built.value] else []) + Sends(p[1..], built)
      case Release(l) => Sends(p[1..], if l.OutboundLock? then None else built)
      case Acquire(_) => Sends(p[1..], built)
  }

  /** A path that can be run with `held` and gives it back: the building block of programs. */
  ghost predicate Balanced(p: seq<Action>, held: set<Lock>, fs: seq<seq<byte>>)
  {
    && (forall q {:trigger p + q} :: Disciplined(q, held, None) ==> Disciplined(p + q, held, None))
    && (forall q {:trigger p + q} :: Sends(p + q, None) == fs + Sends(q, None))
  }

  lemma Sequence(p1: seq<Action>, p2: seq<Action>, held: set<Lock>, fs1: seq<seq<byte>>, fs2: seq<seq<byte>>)
    requires Balanced(p1, held, fs1) && Balanced(p2, held, fs2)
    ensures Balanced(p1 + p2, held, fs1 + fs2)
  {
    var p := p1 + p2;
    forall q ensures Disciplined(q, held, None) ==> Disciplined(p + q, held, None) {
      assert p + q == p1 + (p2 + q);
    }
    forall q ensures Sends(p + q, None) == fs1 + fs2 + Sends(q, None) {
      assert p + q == p1 + (p2 + q);
      assert fs1 + (fs2 + Sends(q, None)) == fs1 + fs2 + Sends(q, None);
    }
  }

  /** Running a balanced path inside a lock. */
  lemma Inside(l: Lock, p: seq<Action>, held: set<Lock>, fs: seq<seq<byte>>)
    requires Above(l, held) && l !in held && Balanced(p, held + {l}, fs)
    ensures Balanced([Acquire(l)] + p + [Release(l)], held, fs)
  {
    var whole := [Acquire(l)] + p + [Release(l)];
    forall q ensures Disciplined(q, held, None) ==> Disciplined(whole + q, held, None) {
      var tail := [Release(l)] + q;
      assert tail[1..] == q && held + {l} - {l} == held;
      assert whole + q == [Acquire(l)] + (p + tail);
      assert ([Acquire(l)] + (p + tail))[1..] == p + tail;
    }
    forall q ensures Sends(whole + q, None) == fs + Sends(q, None) {
      var tail := [Release(l)] + q;
      assert tail[1..] == q;
      assert whole + q == [Acquire(l)] + (p + tail);
      assert ([Acquire(l)] + (p + tail))[1..] == p + tail;
    }
  }

  lemma Nothing(held: set<Lock>)
    ensures Balanced([], held, [])
  {
    forall q: seq<Action> ensures [] + q == q {}
  }

  lemma TouchBalanced(l: Lock, held: set<Lock>)
    requires Above(l, held) && l !in held
    ensures Balanced(Touch(l), held, [])
  {
    Nothing(held + {l});
    Inside(l, [], held, []);
    assert [Acquire(l)] + [] + [Release(l)] == Touch(l);
  }

  lemma SendBalanced(frame: seq<byte>, held: set<Lock>)
    requires Above(OutboundLock, held) && OutboundLock !in held
    ensures Balanced(SendPath(frame), held, [frame])
  {
    var p := SendPath(frame);
    forall q ensures Disciplined(q, held, None) ==> Disciplined(p + q, held, None) {
      SendRuns(frame, held, q);
    }
    forall q ensures Sends(p + q, None) == [frame] + Sends(q, None) {
      SendRuns(frame, held, q);
    }
  }

  lemma SendRuns(frame: seq<byte>, held: set<Lock>, q: seq<Action>)
    requires Above(OutboundLock, held) && OutboundLock !in held
    ensures Disciplined(q, held, None) ==> Disciplined(SendPath(frame) + q, held, None)
    ensures Sends(SendPath(frame) + q, None) == [frame] + Sends(q, None)
  {
    var p1 := [Build(frame), SendRaw(None), Release(OutboundLock)] + q;
    var p2 := [SendRaw(None), Release(OutboundLock)] + q;
    var p3 := [Release(OutboundLock)] + q;
    assert (SendPath(frame) + q)[1..] == p1 && p1[1..] == p2 && p2[1..] == p3 && p3[1..] == q;
    var inside := held + {OutboundLock};
    assert inside - {OutboundLock} == held;
    assert Sends(p3, Some(frame)) == Sends(q, None);
    assert Sends(p2, Some(frame)) == [frame] + Sends(p3, Some(frame));
    assert Sends(p1, None) == Sends(p2, Some(frame));
    if Disciplined(q, held, None) {
      assert Disciplined(p3, inside, Some(frame));
      assert Disciplined(p2, inside, Some(frame));
      assert Disciplined(p1, inside, None);
    }
  }

  lemma PreparedBalanced(bytes: seq<byte>)
    ensures Balanced([SendRaw(Some(bytes))], {}, [bytes])
  {
    var p := [SendRaw(Some(bytes))];
    forall q ensures Disciplined(q, {}, None) ==> Disciplined(p + q, {}, None) {
      assert (p + q)[1..] == q;
    }
    forall q ensures Sends(p + q, None) == [bytes] + Sends(q, None) {
      assert (p + q)[1..] == q;
    }
  }

  lemma CloseBalanced(frame: seq<byte>, held: set<Lock>)
    requires held <= {FragmentLock}
    ensures Balanced(ClosePath(frame), held, [frame])
  {
    SendBalanced(frame, held);
    TouchBalanced(OpenLock, held);
    Sequence(SendPath(frame), Touch(OpenLock), held, [frame], []);
    assert [frame] + [] == [frame];
  }

  function OptionalFrame(bad: Option<seq<byte>>): (fs: seq<seq<byte>>)
  {
    if bad.Some? then [bad.value] else []
  }

  lemma DeliverBalanced(bad: Option<seq<byte>>, held: set<Lock>)
    requires held <= {FragmentLock}
    ensures Balanced(DeliverPath(bad), held, OptionalFrame(bad))
  {
    hide Balanced;
    var last := if bad.Some? then ClosePath(bad.value) else [];
    TouchBalanced(DeflateLock, held);
    if bad.Some? {
      CloseBalanced(bad.value, held);
    } else {
      Nothing(held);
    }
    Sequence(Touch(DeflateLock), last, held, [], OptionalFrame(bad));
    assert [] + OptionalFrame(bad) == OptionalFrame(bad);
  }

  lemma ReactionBalanced(r: Reaction)
    ensures Balanced(ReactionPath(r), {}, FramesOf(React(r)))
  {
    hide Balanced;
    var inside := {} + {FragmentLock};
    match r
    case AnswerClose(frame) =>
      TouchBalanced(LastCloseLock, {});
      CloseBalanced(frame, {});
      Sequence(Touch(LastCloseLock), ClosePath(frame), {}, [], [frame]);
      assert [] + [frame] == [frame];
    case AnswerPing(frame) =>
      SendBalanced(frame, {});
    case IgnorePong =>
      Nothing({});
    case Refuse(frame) =>
      CloseBalanced(frame, inside);
      Inside(FragmentLock, ClosePath(frame), {}, [frame]);
    case StoreFragment =>
      TouchBalanced(FragmentLock, {});
    case FinishFragments(bad) =>
      TouchBalanced(FragmentLock, {});
      DeliverBalanced(bad, {});
      Sequence(Touch(FragmentLock), DeliverPath(bad), {}, [], OptionalFrame(bad));
      assert [] + OptionalFrame(bad) == OptionalFrame(bad);
    case DeliverWhole(bad) =>
      DeliverBalanced(bad, inside);
      Inside(FragmentLock, DeliverPath(bad), {}, OptionalFrame(bad));
  }

  lemma {:induction false} ReadsBalanced(rounds: nat, held: set<Lock>)
    requires held <= {ReadStateLock, ParserLock}
    ensures Balanced(ReadsPath(rounds), held, [])
  {
    hide Balanced;
    if rounds == 0 {
      Nothing(held);
    } else {
      TouchBalanced(StreamLock, held);
      ReadsBalanced(rounds - 1, held);
      Sequence(Touch(StreamLock), ReadsPath(rounds - 1), held, [], []);
      NoFrames();
    }
  }

  /** The part of `read_frame` under the locks of the read state and the parser. */
  function LockedReads(rounds: nat, has: bool): (p: seq<Action>)
  {
    ReadsPath(rounds) + (if has then Touch(DeflateLock) else [])
  }

  lemma LockedReadsBalanced(rounds: nat, has: bool)
    ensures Balanced(Locked(rounds, has), {}, [])
  {
    hide Balanced;
    var outer := {} + {ReadStateLock};
    var inner := outer + {ParserLock};
    ReadsBalanced(rounds, inner);
    if has {
      TouchBalanced(DeflateLock, inner);
    } else {
      Nothing(inner);
    }
    Sequence(ReadsPath(rounds), if has then Touch(DeflateLock) else [], inner, [], []);
    NoFrames();
    Inside(ParserLock, LockedReads(rounds, has), outer, []);
    Inside(ReadStateLock, [Acquire(ParserLock)] + LockedReads(rounds, has) + [Release(ParserLock)], {}, []);
  }

  lemma NoFrames()
    ensures var none: seq<seq<byte>> := []; none + none == none
  {
  }

  /** The part of `read_frame` after those locks are dropped. */
  function AfterReads(end: FrameEnd): (p: seq<Action>)
  {
    match end
    case ParserFails(frame) => ClosePath(frame)
    case EndOfStream => Touch(OpenLock)
    case _ => []
  }

  lemma AfterReadsBalanced(rounds: nat, end: FrameEnd)
    ensures Balanced(AfterReads(end), {}, FramesOf(ReadFrame(rounds, end)))
  {
    hide Balanced;
    match end
    case ParserFails(frame) => CloseBalanced(frame, {});
    case EndOfStream => TouchBalanced(OpenLock, {});
    case _ => Nothing({});
  }

  function Locked(rounds: nat, has: bool): (p: seq<Action>)
  {
    var inner := [Acquire(ParserLock)] + LockedReads(rounds, has) + [Release(ParserLock)];
    [Acquire(ReadStateLock)] + inner + [Release(ReadStateLock)]
  }

  lemma ReadFrameParts(rounds: nat, end: FrameEnd)
    ensures ReadFramePath(rounds, end) == Touch(OpenLock) + Locked(rounds, end.HasFrame?) + AfterReads(end)
  {
    hide ReadsPath, ClosePath;
  }

  lemma ReadFrameBalanced(rounds: nat, end: FrameEnd)
    ensures Balanced(ReadFramePath(rounds, end), {}, FramesOf(ReadFrame(rounds, end)))
  {
    var fs := FramesOf(ReadFrame(rounds, end));
    TouchBalanced(OpenLock, {});
    LockedReadsBalanced(rounds, end.HasFrame?);
    AfterReadsBalanced(rounds, end);
    ReadFrameParts(rounds, end);
    hide *;
    Sequence(Touch(OpenLock), Locked(rounds, end.HasFrame?), {}, [], []);
    NoFrames();
    Sequence(Touch(OpenLock) + Locked(rounds, end.HasFrame?), AfterReads(end), {}, [], fs);
    assert [] + fs == fs;
  }

  lemma OperationBalanced(op: Operation)
    ensures Balanced(OperationPath(op), {}, FramesOf(op))
  {
    hide Balanced;
    match op
    case SendData(frame) =>
      TouchBalanced(DeflateLock, {});
      SendBalanced(frame, {});
      Sequence(Touch(DeflateLock), SendPath(frame), {}, [], [frame]);
      assert [] + [frame] == [frame];
    case CompressionFails => TouchBalanced(DeflateLock, {});
    case SendOther(frame) => SendBalanced(frame, {});
    case CloseConnection(frame) => CloseBalanced(frame, {});
    case SendPrepared(bytes) => PreparedBalanced(bytes);
    case Query(lock) => TouchBalanced(lock, {});
    case ReadFrame(rounds, end) => ReadFrameBalanced(rounds, end);
    case React(reaction) => ReactionBalanced(reaction);
  }

  /** Every sequence of calls keeps the discipline and sends its frames in order. */
  lemma {:induction false} ProgramDisciplined(ops: seq<Operation>)
    ensures Disciplined(Program(ops), {}, None) && Sends(Program(ops), None) == AllFrames(ops)
  {
    if ops != [] {
      ProgramDisciplined(ops[1..]);
      OperationBalanced(ops[0]);
      assert Program(ops) == OperationPath(ops[0]) + Program(ops[1..]);
    }
  }

  // ---- What is locked when the stream is used ------------------------------------------

  /** The locks held after one action. */
  function Next(a: Action, held: set<Lock>): (locks: set<Lock>)
  {
    if a.Acquire? then held + {a.lock} else if a.Release? then held - {a.lock} else held
  }

  /** The locks held when an action uses the stream, for a write or for a read. */
  function Use(a: Action, held: set<Lock>): (us: seq<set<Lock>>)
  {
    if a.SendRaw? || a == Acquire(StreamLock) then [held] else []
  }

  function LocksAfter(p: seq<Action>, held: set<Lock>): (locks: set<Lock>)
  {
    if p == [] then held else LocksAfter(p[1..], Next(p[0], held))
  }

  /** The locks held at each use of the stream. */
  function AtStream(p: seq<Action>, held: set<Lock>): (us: seq<set<Lock>>)
  {
    if p == [] then [] else Use(p[0], held) + AtStream(p[1..], Next(p[0], held))
  }

  lemma {:induction false} Append(p: seq<Action>, q: seq<Action>, held: set<Lock>)
    ensures LocksAfter(p + q, held) == LocksAfter(q, LocksAfter(p, held))
    ensures AtStream(p + q, held) == AtStream(p, held) + AtStream(q, LocksAfter(p, held))
    decreases |p|
  {
    if p == [] {
      assert p + q == q;
    } else {
      hide Next, Use;
      assert (p + q)[0] == p[0] && (p + q)[1..] == p[1..] + q;
      Append(p[1..], q, Next(p[0], held));
    }
  }

  /** A path that gives back what it takes and uses the stream with these locks held. */
  predicate Uses(p: seq<Action>, held: set<Lock>, us: seq<set<Lock>>)
  {
    AtStream(p, held) == us && LocksAfter(p, held) == held
  }

  lemma UsesThen(p: seq<Action>, q: seq<Action>, held: set<Lock>, us: seq<set<Lock>>, vs: seq<set<Lock>>)
    requires Uses(p, held, us) && Uses(q, held, vs)
    ensures Uses(p + q, held, us + vs)
  {
    hide AtStream, LocksAfter;
    Append(p, q, held);
  }

  lemma UsesWithin(l: Lock, p: seq<Action>, held: set<Lock>, us: seq<set<Lock>>)
    requires l !in held && !l.StreamLock? && Uses(p, held + {l}, us)
    ensures Uses([Acquire(l)] + p + [Release(l)], held, us)
  {
    Append([Acquire(l)], p, held);
    Append([Acquire(l)] + p, [Release(l)], held);
    One(Acquire(l), held);
    One(Release(l), held + {l});
    hide AtStream, LocksAfter;
    assert held + {l} - {l} == held;
    assert [] + us + [] == us;
  }

  lemma One(a: Action, held: set<Lock>)
    ensures AtStream([a], held) == Use(a, held) && LocksAfter([a], held) == Next(a, held)
  {
    hide Next, Use;
    assert [a][1..] == [];
  }

  lemma UsesNothing(held: set<Lock>)
    ensures Uses([], held, [])
  {
  }

  lemma UsesTouch(l: Lock, held: set<Lock>)
    requires l !in held
    ensures Uses(Touch(l), held, if l.StreamLock? then [held] else [])
  {
    Append([Acquire(l)], [Release(l)], held);
    One(Acquire(l), held);
    One(Release(l), held + {l});
    hide AtStream, LocksAfter;
    assert [Acquire(l)] + [Release(l)] == Touch(l) && held + {l} - {l} == held;
  }

  lemma UsesSend(frame: seq<byte>, held: set<Lock>)
    requires OutboundLock !in held
    ensures Uses(SendPath(frame), held, [held + {OutboundLock}])
  {
    var inside := held + {OutboundLock};
    Append([Build(frame)], [SendRaw(None)], inside);
    One(Build(frame), inside);
    One(SendRaw(None), inside);
    hide AtStream, LocksAfter;
    UsesWithin(OutboundLock, [Build(frame)] + [SendRaw(None)], held, [inside]);
    assert [Acquire(OutboundLock)] + ([Build(frame)] + [SendRaw(None)]) + [Release(OutboundLock)] == SendPath(frame);
  }

  lemma UsesClose(frame: seq<byte>, held: set<Lock>)
    requires held <= {FragmentLock}
    ensures Uses(ClosePath(frame), held, [held + {OutboundLock}])
  {
    hide Uses;
    UsesSend(frame, held);
    UsesTouch(OpenLock, held);
    UsesThen(SendPath(frame), Touch(OpenLock), held, [held + {OutboundLock}], []);
    assert [held + {OutboundLock}] + [] == [held + {OutboundLock}];
  }

  lemma UsesDeliver(bad: Option<seq<byte>>, held: set<Lock>)
    requires held <= {FragmentLock}
    ensures Uses(DeliverPath(bad), held, if bad.Some? then [held + {OutboundLock}] else [])
  {
    hide Uses;
    UsesTouch(DeflateLock, held);
    if bad.Some? {
      UsesClose(bad.value, held);
    } else {
      UsesNothing(held);
    }
    var us := if bad.Some? then [held + {OutboundLock}] else [];
    UsesThen(Touch(DeflateLock), if bad.Some? then ClosePath(bad.value) else [], held, [], us);
    assert [] + us == us;
  }

  /** Only the lock of the shared buffer, or that and the lock of the fragments. */
  const OUTBOUND := {OutboundLock}
  const OUTBOUND_IN_FRAGMENT := {FragmentLock, OutboundLock}
  const READING := {ReadStateLock, ParserLock}

  /** What each operation has locked when it uses the stream. */
  function LockedAt(op: Operation): (us: seq<set<Lock>>)
  {
    match op
    case SendData(_) => [OUTBOUND]
    case SendOther(_) => [OUTBOUND]
    case CloseConnection(_) => [OUTBOUND]
    case SendPrepared(_) => [{}]
    case ReadFrame(rounds, end) => seq(rounds, _ => READING) + if end.ParserFails? then [OUTBOUND] else []
    case React(AnswerClose(_)) => [OUTBOUND]
    case React(AnswerPing(_)) => [OUTBOUND]
    case React(Refuse(_)) => [OUTBOUND_IN_FRAGMENT]
    case React(FinishFragments(Some(_))) => [OUTBOUND]
    case React(DeliverWhole(Some(_))) => [OUTBOUND_IN_FRAGMENT]
    case Query(StreamLock) => [{}]
    case _ => []
  }

  lemma {:induction false} UsesReads(rounds: nat)
    ensures Uses(ReadsPath(rounds), READING, seq(rounds, _ => READING))
  {
    if rounds == 0 {
      UsesNothing(READING);
    } else {
      hide Uses;
      UsesTouch(StreamLock, READING);
      UsesReads(rounds - 1);
      UsesThen(Touch(StreamLock), ReadsPath(rounds - 1), READING, [READING], seq(rounds - 1, _ => READING));
      assert [READING] + seq(rounds - 1, _ => READING) == seq(rounds, _ => READING);
    }
  }

  lemma UsesLocked(rounds: nat, has: bool)
    ensures Uses(Locked(rounds, has), {}, seq(rounds, _ => READING))
  {
    hide Uses;
    var outer, us := {} + {ReadStateLock}, seq(rounds, _ => READING);
    assert outer + {ParserLock} == READING;
    UsesReads(rounds);
    if has {
      UsesTouch(DeflateLock, READING);
    } else {
      UsesNothing(READING);
    }
    UsesThen(ReadsPath(rounds), if has then Touch(DeflateLock) else [], READING, us, []);
    assert us + [] == us;
    UsesWithin(ParserLock, LockedReads(rounds, has), outer, us);
    UsesWithin(ReadStateLock, [Acquire(ParserLock)] + LockedReads(rounds, has) + [Release(ParserLock)], {}, us);
  }

  lemma UsesAfterReads(end: FrameEnd)
    ensures Uses(AfterReads(end), {}, if end.ParserFails? then [OUTBOUND] else [])
  {
    hide Uses;
    assert {} + {OutboundLock} == OUTBOUND;
    match end
    case ParserFails(frame) => UsesClose(frame, {});
    case EndOfStream => UsesTouch(OpenLock, {});
    case _ => UsesNothing({});
  }

  lemma UsesReadFrame(rounds: nat, end: FrameEnd)
    ensures Uses(ReadFramePath(rounds, end), {}, LockedAt(ReadFrame(rounds, end)))
  {
    var us, vs := seq(rounds, _ => READING), if end.ParserFails? then [OUTBOUND] else [];
    ReadFrameParts(rounds, end);
    UsesTouch(OpenLock, {});
    UsesLocked(rounds, end.HasFrame?);
    UsesAfterReads(end);
    hide Uses, ReadFramePath, Locked, AfterReads;
    UsesThen(Touch(OpenLock), Locked(rounds, end.HasFrame?), {}, [], us);
    assert [] + us == us;
    UsesThen(Touch(OpenLock) + Locked(rounds, end.HasFrame?), AfterReads(end), {}, us, vs);
  }

  lemma UsesReaction(r: Reaction)
    ensures Uses(ReactionPath(r), {}, LockedAt(React(r)))
  {
    hide Uses;
    var inside := {} + {FragmentLock};
    assert {} + {OutboundLock} == OUTBOUND && inside + {OutboundLock} == OUTBOUND_IN_FRAGMENT;
    match r
    case AnswerClose(frame) =>
      UsesTouch(LastCloseLock, {});
      UsesClose(frame, {});
      UsesThen(Touch(LastCloseLock), ClosePath(frame), {}, [], [OUTBOUND]);
      assert [] + [OUTBOUND] == [OUTBOUND];
    case AnswerPing(frame) =>
      UsesSend(frame, {});
    case IgnorePong =>
      UsesNothing({});
    case Refuse(frame) =>
      UsesClose(frame, inside);
      UsesWithin(FragmentLock, ClosePath(frame), {}, [OUTBOUND_IN_FRAGMENT]);
    case StoreFragment =>
      UsesTouch(FragmentLock, {});
    case FinishFragments(bad) =>
      UsesTouch(FragmentLock, {});
      UsesDeliver(bad, {});
      UsesThen(Touch(FragmentLock), DeliverPath(bad), {}, [], LockedAt(React(r)));
      assert [] + LockedAt(React(r)) == LockedAt(React(r));
    case DeliverWhole(bad) =>
      UsesDeliver(bad, inside);
      UsesWithin(FragmentLock, DeliverPath(bad), {}, LockedAt(React(r)));
  }

  /**
   * Which locks each call holds when it writes or reads the stream: a frame is written with the shared buffer
   * locked, and the fragments only when a frame out of order or a whole message is refused; the reader's own locks
   * are held while it reads and are dropped before it answers a malformed frame.
   */
  lemma LockedAtStream(op: Operation)
    ensures AtStream(OperationPath(op), {}) == LockedAt(op)
  {
    assert {} + {OutboundLock} == OUTBOUND;
    assert Uses(OperationPath(op), {}, LockedAt(op)) by {
      hide Uses;
      match op
      case SendData(frame) =>
        UsesTouch(DeflateLock, {});
        UsesSend(frame, {});
        UsesThen(Touch(DeflateLock), SendPath(frame), {}, [], [OUTBOUND]);
        assert [] + [OUTBOUND] == [OUTBOUND];
      case CompressionFails => UsesTouch(DeflateLock, {});
      case SendOther(frame) => UsesSend(frame, {});
      case CloseConnection(frame) => UsesClose(frame, {});
      case SendPrepared(bytes) => UsesPrepared(bytes);
      case Query(lock) => UsesTouch(lock, {});
      case ReadFrame(rounds, end) => UsesReadFrame(rounds, end);
      case React(reaction) => UsesReaction(reaction);
    }
  }

  lemma UsesPrepared(bytes: seq<byte>)
    ensures Uses([SendRaw(Some(bytes))], {}, [{}])
  {
    One(SendRaw(Some(bytes)), {});
  }
}
