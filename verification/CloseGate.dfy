/**
 * The C++ connection's close and send operations under `write_mutex_`. Every read of `is_open_` or
 * `is_closing_`, every assignment to them, taking and dropping the mutex, the socket write, closing the
 * socket, joining the reader and the close callback is a step of its own, and any number of threads
 * interleave. A socket write may fail at any time.
 */
module CloseGate {
  import opened Bytes

  /**
   * What an operation puts on the wire. `GateClose` is the CLOSE of `close` and `fail_with_close`,
   * `ReplyClose` that of `handle_close_frame`.
   */
  datatype Written = DataOrControl | GateClose | ReplyClose

  /**
   * `Send` stands for the data senders and `send_ping`, `CloseCall` for `close`. The others run on the
   * reader thread: `AnswerPing` is `handle_ping_frame`, `Fail` is `fail_with_close`, `ReplyToClose` is
   * `handle_close_frame`; each follows the condition of the read loop and a read, which fails on a closed
   * socket. The second look at `is_open_` at the top of `read_one_frame` is left out, which only allows
   * more interleavings.
   */
  datatype Op = Send | CloseCall | AnswerPing | Fail | ReplyToClose

  datatype Pc = LoopOpen | LoopClosing | Reading | FirstCheck | SecondCheck | SetClosing | Ready | LockedCheck
              | LockedRecheck | Writing | Unlocking | Clearing | ClosingSocket | Joining | Calling

  /**
   * `connected` tells whether the socket is open, `locked` is the mutex, `wire` the whole frames written,
   * `lost` the number of CLOSE writes that failed, `calls` the number of `on_close` calls.
   */
  datatype Shared = Shared(open: bool, closing: bool, connected: bool, locked: bool, wire: seq<Written>, lost: nat,
                           calls: nat)

  predicate ByReader(op: Op)
  {
    op.AnswerPing? || op.Fail? || op.ReplyToClose?
  }

  predicate Closes(op: Op)
  {
    op.CloseCall? || op.Fail? || op.ReplyToClose?
  }

  function Begin(op: Op): (pc: Pc)
  {
    if ByReader(op) then LoopOpen else FirstCheck
  }

  function Image(op: Op): (w: Written)
  {
    match op
    case CloseCall => GateClose
    case Fail => GateClose
    case ReplyToClose => ReplyClose
    case _ => DataOrControl
  }

  /** Where an operation goes when it finds the connection not open or closing. */
  function GiveUp(op: Op): (pc: Option<Pc>)
  {
    if op.Fail? then Some(Clearing) else None
  }

  /** The socket write of an operation, which succeeds on an open socket if `ok`. Its error is only logged. */
  function Write(sh: Shared, op: Op, ok: bool): (sh': Shared)
  {
    if ok && sh.connected then sh.(wire := sh.wire + [Image(op)])
    else if Closes(op) then sh.(lost := sh.lost + 1)
    else sh
  }

  /** One step of an operation: the new shared state and where it continues, `None` when it is finished. */
  function Move(sh: Shared, op: Op, pc: Pc, ok: bool): (r: (Shared, Option<Pc>))
  {
    match pc
    case LoopOpen => (sh, if sh.open then Some(LoopClosing) else None)
    case LoopClosing => (sh, if sh.closing then None else Some(Reading))
    case Reading =>
      if !sh.connected then (sh.(open := false), None)
      else (sh, Some(if op.ReplyToClose? then Ready else FirstCheck))
    case FirstCheck =>
      // `handle_ping_frame` looks at `is_closing_` first, the others at `is_open_`; senders check only that here
      if op.AnswerPing? then (sh, if sh.closing then None else Some(SecondCheck))
      else if op.Send? then (sh, if sh.open then Some(Ready) else None)
      else (sh, if sh.open then Some(SecondCheck) else GiveUp(op))
    case SecondCheck =>
      if op.AnswerPing? then (sh, if sh.open then Some(Ready) else None)
      else (sh, if sh.closing then GiveUp(op) else Some(SetClosing))
    case SetClosing => (sh.(closing := true), Some(Ready))
    case Ready => (sh.(locked := true), Some(if Closes(op) then Writing else LockedCheck))
    case LockedCheck =>
      var passes := if op.AnswerPing? then !sh.closing else sh.open;
      (sh, Some(if passes then LockedRecheck else Unlocking))
    case LockedRecheck =>
      var passes := if op.AnswerPing? then sh.open else !sh.closing;
      (sh, Some(if passes then Writing else Unlocking))
    case Writing => (Write(sh, op, ok), Some(Unlocking))
    case Unlocking => (sh.(locked := false), if Closes(op) then Some(Clearing) else None)
    case Clearing => (sh.(open := false), Some(if op.ReplyToClose? then Calling else ClosingSocket))
    case ClosingSocket => (sh.(connected := false), Some(if op.CloseCall? then Joining else Calling))
    case Joining => (sh, Some(Calling))
    case Calling => (sh.(calls := sh.calls + 1), None)
  }

  // ---- Interleavings -------------------------------------------------------------------

  /** A thread inside the first of the operations it has left. */
  datatype Thread = Thread(ops: seq<Op>, pc: Pc)

  /** Thread 0 is the reader, which `close` joins. */
  datatype System = System(shared: Shared, threads: seq<Thread>)

  function Arrive(ops: seq<Op>): (th: Thread)
  {
    Thread(ops, if ops == [] then FirstCheck else Begin(ops[0]))
  }

  predicate Enabled(s: System, t: nat)
  {
    && t < |s.threads| && s.threads[t].ops != []
    && (s.threads[t].pc.Ready? ==> !s.shared.locked)
    && (s.threads[t].pc.Joining? ==> t == 0 || s.threads[0].ops == [])
  }

  function Step(s: System, t: nat, ok: bool): (s': System)
    requires Enabled(s, t)
  {
    var th := s.threads[t];
    var (sh, pc) := Move(s.shared, th.ops[0], th.pc, ok);
    System(sh, s.threads[t := if pc.Some? then th.(pc := pc.value) else Arrive(th.ops[1..])])
  }

  const ACTIVE := Shared(true, false, true, false, [], 0, 0)

  function Initial(programs: seq<seq<Op>>): (s: System)
  {
    System(ACTIVE, seq(|programs|, i requires 0 <= i < |programs| => Arrive(programs[i])))
  }

  /** Which thread moves next, and whether a write it makes succeeds. */
  type Choice = (nat, bool)

  /** The state after the first `k` choices of a schedule; a blocked choice changes nothing. */
  function After(programs: seq<seq<Op>>, schedule: seq<Choice>, k: nat): (s: System)
    requires k <= |schedule|
  {
    if k == 0 then Initial(programs)
    else
      var s := After(programs, schedule, k - 1);
      var (t, ok) := schedule[k - 1];
      if Enabled(s, t) then Step(s, t, ok) else s
  }

  function Run(programs: seq<seq<Op>>, schedule: seq<Choice>): (s: System)
  {
    After(programs, schedule, |schedule|)
  }

  // ---- After a CLOSE of `close` or `fail_with_close` -----------------------------------

  /** Between taking and dropping the mutex. */
  predicate Critical(pc: Pc)
  {
    pc.LockedCheck? || pc.LockedRecheck? || pc.Writing? || pc.Unlocking?
  }

  predicate InCritical(th: Thread)
  {
    th.ops != [] && Critical(th.pc)
  }

  /** Which steps an operation has. */
  predicate PcOk(op: Op, pc: Pc)
  {
    && (op.Send? ==> !pc.SecondCheck?)
    && (!Closes(op) ==> !pc.SetClosing? && !pc.Clearing? && !pc.ClosingSocket? && !pc.Joining? && !pc.Calling?)
    && (Closes(op) ==> !pc.LockedCheck? && !pc.LockedRecheck?)
    && (op.ReplyToClose? ==> !pc.FirstCheck? && !pc.SecondCheck? && !pc.SetClosing? && !pc.ClosingSocket?)
    && (!op.CloseCall? ==> !pc.Joining?)
    && (!ByReader(op) ==> !pc.LoopOpen? && !pc.LoopClosing? && !pc.Reading?)
  }

  /** What holds of one thread wherever it stands. */
  predicate ThreadOk(sh: Shared, th: Thread)
  {
    && (InCritical(th) ==> sh.locked)
    && (th.ops != [] ==>
          var op := th.ops[0];
          && PcOk(op, th.pc)
          && (Image(op).GateClose? && (th.pc.Ready? || th.pc.Writing?) ==> sh.closing)
          && (!Closes(op) && th.pc.Writing? ==> GateClose !in sh.wire)
          && (op.AnswerPing? && th.pc.LockedRecheck? ==> GateClose !in sh.wire)
          && (th.pc.ClosingSocket? || th.pc.Joining? || th.pc.Calling? ==> !sh.open))
  }

  /** No data, ping or pong comes after a CLOSE written by `close` or `fail_with_close`. */
  predicate NothingAfterGate(wire: seq<Written>)
  {
    forall i, j | 0 <= i < j < |wire| :: wire[i].GateClose? ==> !wire[j].DataOrControl?
  }

  predicate Inv(s: System)
  {
    && (forall t: nat | t < |s.threads| :: ThreadOk(s.shared, s.threads[t]))
    && (forall t: nat, u: nat | t < u < |s.threads| :: !(InCritical(s.threads[t]) && InCritical(s.threads[u])))
    && (s.shared.locked ==> exists t: nat :: t < |s.threads| && InCritical(s.threads[t]))
    && (GateClose in s.shared.wire ==> s.shared.closing)
    && NothingAfterGate(s.shared.wire)
    && (!s.shared.connected ==> !s.shared.open)
  }

  lemma PcStep(sh: Shared, op: Op, pc: Pc, ok: bool)
    requires PcOk(op, pc)
    ensures var next := Move(sh, op, pc, ok).1; next.Some? ==> PcOk(op, next.value)
  {
  }

  lemma ArriveOk(sh: Shared, ops: seq<Op>)
    ensures ThreadOk(sh, Arrive(ops))
  {
  }

  lemma MoverOk(s: System, t: nat, ok: bool)
    requires Inv(s) && Enabled(s, t)
    ensures ThreadOk(Step(s, t, ok).shared, Step(s, t, ok).threads[t])
  {
    var th := s.threads[t];
    assert ThreadOk(s.shared, th);
    var (sh, pc) := Move(s.shared, th.ops[0], th.pc, ok);
    if pc.None? {
      hide ThreadOk, Move;
      ArriveOk(sh, th.ops[1..]);
    } else {
      PcStep(s.shared, th.ops[0], th.pc, ok);
      hide PcOk, NothingAfterGate;
      GoesOnOk(s.shared, th, ok);
    }
  }

  /** What the steps towards a write have seen. */
  lemma WriteSteps(sh: Shared, op: Op, pc: Pc, ok: bool)
    requires PcOk(op, pc)
    ensures var (sh', next) := Move(sh, op, pc, ok);
            && (sh.closing ==> sh'.closing) && (sh'.open ==> sh.open)
            && (next == Some(Ready) && Image(op).GateClose? ==> sh'.closing)
            && (next == Some(Writing) && Image(op).GateClose? ==> pc.Ready?)
            && (next == Some(Writing) && !Closes(op) ==>
                  sh' == sh && pc.LockedRecheck? && (op.Send? ==> !sh.closing))
            && (next == Some(LockedRecheck) && op.AnswerPing? ==> sh' == sh && !sh.closing)
            && (next.Some? && (next.value.ClosingSocket? || next.value.Joining? || next.value.Calling?) ==>
                  !sh'.open || pc.ClosingSocket? || pc.Joining?)
            && (!pc.Writing? ==> sh'.wire == sh.wire)
  {
  }

  lemma GoesOnOk(sh: Shared, th: Thread, ok: bool)
    requires th.ops != [] && ThreadOk(sh, th) && (th.pc.Ready? ==> !sh.locked)
    requires (GateClose in sh.wire ==> sh.closing) && (!sh.connected ==> !sh.open)
    requires var next := Move(sh, th.ops[0], th.pc, ok).1; next.Some? && PcOk(th.ops[0], next.value)
    ensures var (sh', pc) := Move(sh, th.ops[0], th.pc, ok); ThreadOk(sh', th.(pc := pc.value))
  {
    var op, pc := th.ops[0], th.pc;
    WriteSteps(sh, op, pc, ok);
    LockMove(sh, op, pc, ok);
    assert pc.Writing? ==> Move(sh, op, pc, ok).1 == Some(Unlocking);
    hide Move, PcOk, Closes, Image;
  }

  lemma OtherOk(s: System, t: nat, ok: bool, u: nat)
    requires Inv(s) && Enabled(s, t) && u < |s.threads| && u != t
    ensures ThreadOk(Step(s, t, ok).shared, s.threads[u])
  {
    hide NothingAfterGate;
    var th := s.threads[t];
    assert ThreadOk(s.shared, th) && ThreadOk(s.shared, s.threads[u]);
    assert InCritical(th) ==> !InCritical(s.threads[u]);
  }

  lemma WireOk(s: System, t: nat, ok: bool)
    requires Inv(s) && Enabled(s, t)
    ensures var sh := Step(s, t, ok).shared;
            (GateClose in sh.wire ==> sh.closing) && NothingAfterGate(sh.wire) && (!sh.connected ==> !sh.open)
  {
    assert ThreadOk(s.shared, s.threads[t]);
  }

  /** How a step changes the mutex and whether its thread is between taking and dropping it. */
  lemma LockMove(sh: Shared, op: Op, pc: Pc, ok: bool)
    ensures var (sh', next) := Move(sh, op, pc, ok);
            var inside := next.Some? && Critical(next.value);
            if pc.Ready? then sh'.locked && inside
            else if Critical(pc) then (if inside then sh'.locked == sh.locked else !sh'.locked)
            else sh'.locked == sh.locked && !inside
  {
    hide Image, ByReader;
  }

  lemma MutexOk(s: System, t: nat, ok: bool)
    requires Inv(s) && Enabled(s, t)
    ensures var s' := Step(s, t, ok);
            && (forall u: nat, v: nat | u < v < |s'.threads| ::
                  !(InCritical(s'.threads[u]) && InCritical(s'.threads[v])))
            && (s'.shared.locked ==> exists u: nat :: u < |s'.threads| && InCritical(s'.threads[u]))
  {
    var th := s.threads[t];
    assert !Critical(Begin(th.ops[0])) && (|th.ops| > 1 ==> !Critical(Begin(th.ops[1])));
    hide NothingAfterGate, Move, PcOk, Critical, Begin;
    var s' := Step(s, t, ok);
    assert ThreadOk(s.shared, th);
    LockMove(s.shared, th.ops[0], th.pc, ok);
    forall u: nat | u < |s.threads| && u != t ensures InCritical(s'.threads[t]) ==> !InCritical(s'.threads[u]) {
      assert ThreadOk(s.shared, s.threads[u]);
    }
    if s'.shared.locked && !InCritical(s'.threads[t]) {
      var u: nat :| u < |s.threads| && InCritical(s.threads[u]);
      assert InCritical(s'.threads[u]);
    }
  }

  lemma InvStep(s: System, t: nat, ok: bool)
    requires Inv(s) && Enabled(s, t)
    ensures Inv(Step(s, t, ok))
  {
    var s' := Step(s, t, ok);
    MutexOk(s, t, ok);
    WireOk(s, t, ok);
    hide ThreadOk, NothingAfterGate, Move, InCritical;
    forall u: nat | u < |s'.threads| ensures ThreadOk(s'.shared, s'.threads[u]) {
      if u == t {
        MoverOk(s, t, ok);
      } else {
        OtherOk(s, t, ok, u);
      }
    }
  }

  lemma {:induction false} RunInv(programs: seq<seq<Op>>, schedule: seq<Choice>, k: nat)
    requires k <= |schedule|
    ensures Inv(After(programs, schedule, k))
  {
    if k > 0 {
      RunInv(programs, schedule, k - 1);
      hide Inv, Step, Enabled;
      var s := After(programs, schedule, k - 1);
      var (t, ok) := schedule[k - 1];
      if Enabled(s, t) {
        InvStep(s, t, ok);
      }
    }
  }

  /**
   * In every interleaving: once `close` or `fail_with_close` has written its CLOSE, no data, ping or pong
   * is written.
   */
  lemma CloseIsLast(programs: seq<seq<Op>>, schedule: seq<Choice>)
    ensures NothingAfterGate(Run(programs, schedule).shared.wire)
  {
    RunInv(programs, schedule, |schedule|);
  }

  // ---- Once the gate is shut -----------------------------------------------------------

  /** A sender that has the mutex and has found the connection open. */
  predicate FoundOpen(op: Op, pc: Pc)
  {
    !Closes(op) && (pc.Writing? || (op.Send? && pc.LockedRecheck?))
  }

  /** A sender that has the mutex and has found that nobody is closing. */
  predicate FoundNoClosing(op: Op, pc: Pc)
  {
    !Closes(op) && (pc.Writing? || (op.AnswerPing? && pc.LockedRecheck?))
  }

  predicate SawOpen(th: Thread)
  {
    th.ops != [] && FoundOpen(th.ops[0], th.pc)
  }

  predicate SawNoClosing(th: Thread)
  {
    th.ops != [] && FoundNoClosing(th.ops[0], th.pc)
  }

  /** The connection is closed, or being closed, and no sender has found otherwise under the mutex. */
  predicate GateShut(s: System)
  {
    || (!s.shared.open && forall t: nat | t < |s.threads| :: !SawOpen(s.threads[t]))
    || (s.shared.closing && forall t: nat | t < |s.threads| :: !SawNoClosing(s.threads[t]))
  }

  /** `later` is `wire` with nothing but CLOSE frames after it. */
  predicate OnlyCloses(wire: seq<Written>, later: seq<Written>)
  {
    wire <= later && forall i | |wire| <= i < |later| :: !later[i].DataOrControl?
  }

  /** What one step finds at a shut gate. */
  lemma ShutFinds(sh: Shared, op: Op, pc: Pc, ok: bool)
    requires PcOk(op, pc)
    ensures var next := Move(sh, op, pc, ok).1;
            next.Some? ==>
              && (!sh.open && !FoundOpen(op, pc) ==> !FoundOpen(op, next.value))
              && (sh.closing && !FoundNoClosing(op, pc) ==> !FoundNoClosing(op, next.value))
  {
    hide Write;
  }

  /** What it changes. */
  lemma ShutChanges(sh: Shared, op: Op, pc: Pc, ok: bool)
    requires !FoundOpen(op, pc) || !FoundNoClosing(op, pc)
    ensures var sh' := Move(sh, op, pc, ok).0;
            OnlyCloses(sh.wire, sh'.wire) && (!sh.open ==> !sh'.open) && (sh.closing ==> sh'.closing)
  {
    assert pc.Writing? ==> Closes(op);
  }

  lemma ArriveSawNothing(ops: seq<Op>)
    ensures !SawOpen(Arrive(ops)) && !SawNoClosing(Arrive(ops))
  {
  }

  lemma ShutStep(s: System, t: nat, ok: bool)
    requires Inv(s) && Enabled(s, t) && GateShut(s)
    ensures GateShut(Step(s, t, ok)) && OnlyCloses(s.shared.wire, Step(s, t, ok).shared.wire)
  {
    var th := s.threads[t];
    assert ThreadOk(s.shared, th);
    hide Move, FoundOpen, FoundNoClosing, OnlyCloses, PcOk, Arrive, NothingAfterGate;
    ShutFinds(s.shared, th.ops[0], th.pc, ok);
    ShutChanges(s.shared, th.ops[0], th.pc, ok);
    ArriveSawNothing(th.ops[1..]);
  }

  /**
   * In every run: once the gate is shut it stays shut, and no data, ping or pong is written any more. So what comes
   * after a CLOSE, if anything, is from the one sender that had the mutex when `is_open_` was cleared.
   */
  lemma {:induction false} ShutForGood(programs: seq<seq<Op>>, schedule: seq<Choice>, k: nat, m: nat)
    requires k <= m <= |schedule| && GateShut(After(programs, schedule, k))
    ensures GateShut(After(programs, schedule, m))
    ensures OnlyCloses(After(programs, schedule, k).shared.wire, After(programs, schedule, m).shared.wire)
    decreases m
  {
    hide GateShut, OnlyCloses;
    if m == k {
      OnlyClosesSame(After(programs, schedule, k).shared.wire);
    } else {
      var s, s' := After(programs, schedule, m - 1), After(programs, schedule, m);
      var (t, ok) := schedule[m - 1];
      assert s' == if Enabled(s, t) then Step(s, t, ok) else s;
      hide Step, Enabled, Inv, After;
      ShutForGood(programs, schedule, k, m - 1);
      RunInv(programs, schedule, m - 1);
      if Enabled(s, t) {
        ShutStep(s, t, ok);
        OnlyClosesThen(After(programs, schedule, k).shared.wire, s.shared.wire, s'.shared.wire);
      }
    }
  }

  lemma OnlyClosesSame(wire: seq<Written>)
    ensures OnlyCloses(wire, wire)
  {
  }

  lemma OnlyClosesThen(a: seq<Written>, b: seq<Written>, c: seq<Written>)
    requires OnlyCloses(a, b) && OnlyCloses(b, c)
    ensures OnlyCloses(a, c)
  {
    assert forall i | |a| <= i < |b| :: c[i] == b[i];
  }

  // ---- Operations that are not interleaved ---------------------------------------------

  /** Steps still to go at most. */
  function Distance(pc: Pc): (n: nat)
  {
    match pc
    case LoopOpen => 15 case LoopClosing => 14 case Reading => 13 case FirstCheck => 12 case SecondCheck => 11
    case SetClosing => 10 case Ready => 9 case LockedCheck => 8 case LockedRecheck => 7 case Writing => 6
    case Unlocking => 5 case Clearing => 4 case ClosingSocket => 3 case Joining => 2 case Calling => 1
  }

  /** All remaining steps of an operation with no other thread in between. */
  function Alone(sh: Shared, op: Op, pc: Pc, ok: bool): (r: Shared)
    decreases Distance(pc)
  {
    var (sh', pc') := Move(sh, op, pc, ok);
    if pc'.None? then sh' else Alone(sh', op, pc'.value, ok)
  }

  /**
   * What an uninterrupted operation amounts to: nothing unless the connection is open and nobody is closing it,
   * for one of the reader's the end of the loop if the socket is closed; otherwise its write, and for a closing
   * one the end of the session.
   */
  function Atomic(sh: Shared, op: Op, ok: bool): (r: Shared)
  {
    if !sh.open || sh.closing then sh
    else if ByReader(op) && !sh.connected then sh.(open := false)
    else if Closes(op) then
      var gate := !op.ReplyToClose?;
      Write(sh, op, ok).(open := false, closing := gate, connected := sh.connected && !gate, calls := sh.calls + 1)
    else Write(sh, op, ok)
  }

  /** Between operations that are not interleaved: a closing connection or a closed socket is not open. */
  predicate Settled(sh: Shared)
  {
    !sh.locked && (sh.closing || !sh.connected ==> !sh.open)
  }

  /**
   * The steps of an operation run alone have exactly the effect of the operation, whatever state the others
   * have left. `fail_with_close` is only reached while the read loop goes on.
   */
  lemma AloneIsAtomic(sh: Shared, op: Op, ok: bool)
    requires !sh.locked
    ensures Alone(sh, op, Begin(op), ok) == Atomic(sh, op, ok) && (Settled(sh) ==> Settled(Atomic(sh, op, ok)))
  {
    var inside := sh.open && !sh.closing && (ByReader(op) ==> sh.connected);
    AloneEnters(sh, op, ok);
    if inside && Closes(op) {
      CloseAlone(if op.ReplyToClose? then sh else sh.(closing := true), op, ok);
    } else if inside || (op.Send? && sh.open) {
      SendAlone(sh, op, ok);
    }
    hide Alone, Move, Begin;
  }

  /** The checks before the mutex. */
  lemma AloneEnters(sh: Shared, op: Op, ok: bool)
    ensures Alone(sh, op, Begin(op), ok) ==
            if !sh.open || sh.closing then (if op.Send? && sh.open then Alone(sh, op, Ready, ok) else sh)
            else if ByReader(op) && !sh.connected then sh.(open := false)
            else Alone(if op.CloseCall? || op.Fail? then sh.(closing := true) else sh, op, Ready, ok)
  {
    hide Alone;
    AloneStep(sh, op, LoopOpen, ok);
    AloneStep(sh, op, LoopClosing, ok);
    AloneStep(sh, op, Reading, ok);
    AloneStep(sh, op, FirstCheck, ok);
    AloneStep(sh, op, SecondCheck, ok);
    AloneStep(sh, op, SetClosing, ok);
  }

  lemma SendAlone(sh: Shared, op: Op, ok: bool)
    requires sh.open && !sh.locked && !Closes(op) && (op.AnswerPing? ==> !sh.closing)
    ensures Alone(sh, op, Ready, ok) == if sh.closing then sh else Write(sh, op, ok)
  {
    var held := sh.(locked := true);
    if !sh.closing {
      assert Alone(held, op, Writing, ok) == Write(sh, op, ok);
    }
  }

  lemma CloseAlone(sh: Shared, op: Op, ok: bool)
    requires !sh.locked && Closes(op)
    ensures Alone(sh, op, Ready, ok) ==
            Write(sh, op, ok).(open := false, connected := sh.connected && op.ReplyToClose?, calls := sh.calls + 1)
  {
    var wrote := Write(sh, op, ok);
    ShutAlone(wrote, op, ok);
    hide Write, Alone;
    AloneStep(sh, op, Ready, ok);
    AloneStep(sh.(locked := true), op, Writing, ok);
    assert Write(sh.(locked := true), op, ok) == wrote.(locked := true) by { WriteUnlocked(sh, op, ok); }
    AloneStep(wrote.(locked := true), op, Unlocking, ok);
    assert wrote.(locked := true).(locked := false) == wrote by { WriteUnlocked(sh, op, ok); }
    assert wrote.calls == sh.calls && wrote.connected == sh.connected by { WriteUnlocked(sh, op, ok); }
  }

  /** A write does not look at the mutex, nor change it, the socket or the number of callbacks. */
  lemma WriteUnlocked(sh: Shared, op: Op, ok: bool)
    ensures Write(sh.(locked := true), op, ok) == Write(sh, op, ok).(locked := true)
    ensures Write(sh, op, ok).locked == sh.locked && Write(sh, op, ok).calls == sh.calls
    ensures Write(sh, op, ok).connected == sh.connected
  {
  }

  lemma AloneStep(sh: Shared, op: Op, pc: Pc, ok: bool)
    ensures var (sh', pc') := Move(sh, op, pc, ok);
            Alone(sh, op, pc, ok) == if pc'.None? then sh' else Alone(sh', op, pc'.value, ok)
  {
    hide Move;
  }

  /** From clearing `is_open_` to the callback. */
  lemma ShutAlone(sh: Shared, op: Op, ok: bool)
    requires Closes(op)
    ensures Alone(sh, op, Clearing, ok) ==
            sh.(open := false, connected := sh.connected && op.ReplyToClose?, calls := sh.calls + 1)
  {
    hide Alone;
    var shut := sh.(open := false);
    AloneStep(sh, op, Clearing, ok);
    AloneStep(shut, op, ClosingSocket, ok);
    AloneStep(shut.(connected := false), op, Joining, ok);
    AloneStep(shut.(connected := false), op, Calling, ok);
    AloneStep(shut, op, Calling, ok);
  }

  /**
   * Once the reader is past the loop condition, `fail_with_close` always ends the session: whatever other threads
   * have done meanwhile, the connection is closed, the socket with it, and the callback runs once more. A CLOSE is
   * tried exactly if the connection is still open and nobody else is closing it.
   */
  lemma FailAlone(sh: Shared, ok: bool)
    requires !sh.locked
    ensures var sh' := Alone(sh, Fail, FirstCheck, ok);
            && !sh'.open && !sh'.connected && !sh'.locked && sh'.calls == sh.calls + 1
            && (if sh.open && !sh.closing then sh'.closing && sh'.wire == Write(sh, Fail, ok).wire
                else sh'.wire == sh.wire && sh'.lost == sh.lost)
  {
    CloseAlone(sh.(closing := true), Fail, ok);
    ShutAlone(sh, Fail, ok);
    hide Alone, Write;
    AloneStep(sh, Fail, FirstCheck, ok);
    AloneStep(sh, Fail, SecondCheck, ok);
    AloneStep(sh, Fail, SetClosing, ok);
    WriteClosing(sh, ok);
    WriteUnlocked(sh, Fail, ok);
  }

  lemma WriteClosing(sh: Shared, ok: bool)
    ensures Write(sh.(closing := true), Fail, ok) == Write(sh, Fail, ok).(closing := true)
  {
  }

  // ---- `close` waits for the reader ----------------------------------------------------

  /** A `close` of another thread that is about to run the callback. */
  predicate Reports(s: System, t: nat)
  {
    0 < t < |s.threads| && s.threads[t].ops != [] && s.threads[t].ops[0].CloseCall? && s.threads[t].pc.Calling?
  }

  /** The only way to the callback of `close` is past the join. */
  lemma JoinFirst(sh: Shared, pc: Pc, ok: bool)
    ensures Move(sh, CloseCall, pc, ok).1 == Some(Calling) ==> pc.Joining? || pc.Clearing?
    ensures pc.Clearing? ==> Move(sh, CloseCall, pc, ok).1 == Some(ClosingSocket)
  {
  }

  /**
   * In every run: when `close` reports the end to the application, the reader has finished, so no message is
   * delivered after it.
   */
  lemma {:induction false} ReaderJoined(programs: seq<seq<Op>>, schedule: seq<Choice>, k: nat, t: nat)
    requires k <= |schedule| && Reports(After(programs, schedule, k), t)
    ensures After(programs, schedule, k).threads[0].ops == []
  {
    if k > 0 {
      var s := After(programs, schedule, k - 1);
      var (u, ok) := schedule[k - 1];
      if Reports(s, t) {
        ReaderJoined(programs, schedule, k - 1, t);
      } else {
        hide After, Move;
        JoinFirst(s.shared, s.threads[t].pc, ok);
      }
    }
  }

  /** Operations one after the other, each with the outcome of its write. */
  function InTurn(ops: seq<(Op, bool)>): (sh: Shared)
  {
    if ops == [] then ACTIVE
    else
      var (op, ok) := ops[|ops| - 1];
      Alone(InTurn(ops[..|ops| - 1]), op, Begin(op), ok)
  }

  predicate IsClose(w: Written)
  {
    !w.DataOrControl?
  }

  /**
   * A CLOSE is the last thing written; a CLOSE, written or lost, goes with exactly one callback and the
   * end of the session.
   */
  predicate CloseEnds(sh: Shared)
  {
    && (forall i | 0 <= i < |sh.wire| - 1 :: !IsClose(sh.wire[i]))
    && sh.calls == (if sh.wire != [] && IsClose(sh.wire[|sh.wire| - 1]) then 1 else 0) + sh.lost
    && sh.calls == if sh.open then 0 else 1
  }

  lemma AtomicCloseEnds(sh: Shared, op: Op, ok: bool)
    requires Settled(sh) && CloseEnds(sh)
    ensures CloseEnds(Atomic(sh, op, ok))
  {
  }

  /**
   * With operations that do not overlap, nothing follows any CLOSE and the callback runs at most once,
   * just when the write of one was tried.
   */
  lemma {:induction false} InTurnCloses(ops: seq<(Op, bool)>)
    ensures Settled(InTurn(ops)) && CloseEnds(InTurn(ops))
  {
    hide CloseEnds, Alone, Atomic, Move;
    if ops == [] {
      StartsOpen();
    } else {
      var init := ops[..|ops| - 1];
      var (op, ok) := ops[|ops| - 1];
      InTurnCloses(init);
      AloneIsAtomic(InTurn(init), op, ok);
      AtomicCloseEnds(InTurn(init), op, ok);
    }
  }

  lemma StartsOpen()
    ensures Settled(ACTIVE) && CloseEnds(ACTIVE)
  {
  }
}
