/**
 * Exactly which programs of threads can race at the gate of `CloseGate`: which can write two CLOSE frames
 * or call back twice, and which can write data, a ping or a pong after a CLOSE. The conditions can be
 * read off the programs, and hold for all of them: in particular for those of a connection, in which
 * only thread 0 runs the operations of the reader.
 */
module CloseRaces {
  import opened Bytes
  import opened CloseGate

  // ---- Reachable states ----------------------------------------------------------------

  ghost predicate Reachable(programs: seq<seq<Op>>, s: System)
  {
    exists schedule :: Run(programs, schedule) == s
  }

  lemma {:induction false} SamePrefix(programs: seq<seq<Op>>, schedule: seq<Choice>, next: Choice, k: nat)
    requires k <= |schedule|
    ensures After(programs, schedule + [next], k) == After(programs, schedule, k)
  {
    hide Step, Enabled;
    if k > 0 {
      SamePrefix(programs, schedule, next, k - 1);
      assert (schedule + [next])[k - 1] == schedule[k - 1];
    }
  }

  /** A step whose write, if it is one, succeeds. */
  lemma ReachStep(programs: seq<seq<Op>>, s: System, t: nat)
    requires Reachable(programs, s) && Enabled(s, t)
    ensures Reachable(programs, Step(s, t, true))
  {
    hide Step, Enabled;
    var schedule :| Run(programs, schedule) == s;
    SamePrefix(programs, schedule, (t, true), |schedule|);
    assert Run(programs, schedule + [(t, true)]) == Step(s, t, true);
  }

  lemma ReachInitial(programs: seq<seq<Op>>)
    ensures Reachable(programs, Initial(programs))
  {
    assert Run(programs, []) == Initial(programs);
  }

  /** An operation gets from `pc` to `pc'` by steps of its own that nothing blocks. */
  predicate Leads(sh: Shared, op: Op, pc: Pc, sh': Shared, pc': Pc)
    decreases Distance(pc)
  {
    || (sh == sh' && pc == pc')
    || (&& !pc.Joining? && (pc.Ready? ==> !sh.locked)
        && var (sh1, pc1) := Move(sh, op, pc, true); pc1.Some? && Leads(sh1, op, pc1.value, sh', pc'))
  }

  /** The system with thread `t` at `pc`. */
  function At(sh: Shared, threads: seq<Thread>, t: nat, pc: Pc): (s: System)
    requires t < |threads|
  {
    System(sh, threads[t := threads[t].(pc := pc)])
  }

  lemma AtStep(sh: Shared, threads: seq<Thread>, t: nat, pc: Pc)
    requires t < |threads| && threads[t].ops != [] && !pc.Joining? && (pc.Ready? ==> !sh.locked)
    requires Move(sh, threads[t].ops[0], pc, true).1.Some?
    ensures var (sh', pc') := Move(sh, threads[t].ops[0], pc, true);
            && Enabled(At(sh, threads, t, pc), t)
            && Step(At(sh, threads, t, pc), t, true) == At(sh', threads, t, pc'.value)
  {
    hide Move;
    var s := At(sh, threads, t, pc);
    var (sh', pc') := Move(sh, threads[t].ops[0], pc, true);
    assert s.threads[t := s.threads[t].(pc := pc'.value)] == threads[t := threads[t].(pc := pc'.value)];
  }

  lemma MoveForward(sh: Shared, op: Op, pc: Pc)
    ensures var next := Move(sh, op, pc, true).1; next.Some? ==> Distance(next.value) < Distance(pc)
  {
  }

  lemma {:induction false} LeadsReach(programs: seq<seq<Op>>, sh: Shared, threads: seq<Thread>, t: nat, pc: Pc,
                                      sh': Shared, pc': Pc)
    requires t < |threads| && threads[t].ops != [] && Reachable(programs, At(sh, threads, t, pc))
    requires Leads(sh, threads[t].ops[0], pc, sh', pc')
    ensures Reachable(programs, At(sh', threads, t, pc'))
    decreases Distance(pc)
  {
    hide Reachable, At, Enabled, Step, Move;
    if sh != sh' || pc != pc' {
      MoveForward(sh, threads[t].ops[0], pc);
      var (sh1, pc1) := Move(sh, threads[t].ops[0], pc, true);
      AtStep(sh, threads, t, pc);
      ReachStep(programs, At(sh, threads, t, pc), t);
      LeadsReach(programs, sh1, threads, t, pc1.value, sh', pc');
    }
  }

  /** A thread at the start of an operation. */
  lemma ArriveAt(sh: Shared, threads: seq<Thread>, t: nat)
    requires t < |threads| && threads[t].ops != [] && threads[t] == Arrive(threads[t].ops)
    ensures System(sh, threads) == At(sh, threads, t, Begin(threads[t].ops[0]))
  {
    assert threads == threads[t := threads[t]];
  }

  // ---- What operations do while nothing has been closed --------------------------------

  predicate Calm(sh: Shared)
  {
    sh.open && !sh.closing && sh.connected && !sh.locked
  }

  /** Where a closing operation stands once it is past its checks. */
  function Past(op: Op): (pc: Pc)
  {
    if op.ReplyToClose? then Ready else SetClosing
  }

  lemma LeadsPastChecks(sh: Shared, op: Op)
    requires Calm(sh) && Closes(op)
    ensures Leads(sh, op, Begin(op), sh, Past(op))
  {
    assert !op.ReplyToClose? ==> Leads(sh, op, SecondCheck, sh, Past(op));
    assert !op.ReplyToClose? ==> Leads(sh, op, FirstCheck, sh, Past(op));
    assert ByReader(op) ==> Leads(sh, op, Reading, sh, Past(op));
    assert ByReader(op) ==> Leads(sh, op, LoopClosing, sh, Past(op));
  }

  /** The shared state after the CLOSE of an operation, before it clears `is_open_`. */
  function Wrote(sh: Shared, op: Op): (sh': Shared)
  {
    sh.(closing := sh.closing || !op.ReplyToClose?, wire := sh.wire + [Image(op)])
  }

  /** Past its checks a closing operation writes its CLOSE whatever other threads have set meanwhile. */
  lemma LeadsThrough(sh: Shared, op: Op)
    requires sh.connected && !sh.locked && Closes(op)
    ensures Leads(sh, op, Past(op), Wrote(sh, op), Clearing)
  {
    var end := Wrote(sh, op);
    var ready := sh.(closing := end.closing);
    assert Leads(end, op, Clearing, end, Clearing);
    assert Leads(end.(locked := true), op, Unlocking, end, Clearing);
    assert Leads(ready.(locked := true), op, Writing, end, Clearing);
    assert Leads(ready, op, Ready, end, Clearing);
  }

  lemma LeadsData(sh: Shared, op: Op)
    requires sh.open && !sh.closing && sh.connected && !sh.locked && !Closes(op)
    ensures Leads(sh, op, Begin(op), sh.(locked := true, wire := sh.wire + [DataOrControl]), Unlocking)
  {
    var held := sh.(locked := true);
    var end := held.(wire := sh.wire + [DataOrControl]);
    assert Leads(held, op, Writing, end, Unlocking);
    assert Leads(held, op, LockedRecheck, end, Unlocking);
    assert Leads(held, op, LockedCheck, end, Unlocking);
    assert Leads(sh, op, Ready, end, Unlocking);
    if op.AnswerPing? {
      assert Leads(sh, op, SecondCheck, end, Unlocking);
      assert Leads(sh, op, FirstCheck, end, Unlocking);
      assert Leads(sh, op, Reading, end, Unlocking);
      assert Leads(sh, op, LoopClosing, end, Unlocking);
    }
  }

  /** A thread writes its data frame and is done with the operation. */
  lemma DataReach(programs: seq<seq<Op>>, sh: Shared, threads: seq<Thread>, t: nat)
    requires Reachable(programs, System(sh, threads)) && Calm(sh)
    requires t < |threads| && threads[t].ops != [] && threads[t] == Arrive(threads[t].ops) && !Closes(threads[t].ops[0])
    ensures Reachable(programs, System(sh.(wire := sh.wire + [DataOrControl]),
                                       threads[t := Arrive(threads[t].ops[1..])]))
  {
    hide Reachable, Leads;
    var op := threads[t].ops[0];
    var end := sh.(locked := true, wire := sh.wire + [DataOrControl]);
    ArriveAt(sh, threads, t);
    LeadsData(sh, op);
    LeadsReach(programs, sh, threads, t, Begin(op), end, Unlocking);
    var s := At(end, threads, t, Unlocking);
    ReachStep(programs, s, t);
    assert s.threads[t := Arrive(threads[t].ops[1..])] == threads[t := Arrive(threads[t].ops[1..])];
  }

  function Data(n: nat): (w: seq<Written>)
  {
    seq(n, _ => DataOrControl)
  }

  /** A thread runs its first `n` operations, none of which closes. */
  lemma {:induction false} Drain(programs: seq<seq<Op>>, sh: Shared, threads: seq<Thread>, t: nat, n: nat)
    requires Reachable(programs, System(sh, threads)) && Calm(sh)
    requires t < |threads| && n <= |threads[t].ops| && threads[t] == Arrive(threads[t].ops)
    requires forall i | 0 <= i < n :: !Closes(threads[t].ops[i])
    ensures Reachable(programs, System(sh.(wire := sh.wire + Data(n)), threads[t := Arrive(threads[t].ops[n..])]))
    decreases n
  {
    hide Reachable;
    var ops := threads[t].ops;
    if n == 0 {
      assert sh.wire + Data(0) == sh.wire && ops[0..] == ops && threads == threads[t := threads[t]];
    } else {
      DataReach(programs, sh, threads, t);
      var sh1, next := sh.(wire := sh.wire + [DataOrControl]), threads[t := Arrive(ops[1..])];
      Drain(programs, sh1, next, t, n - 1);
      assert ops[1..][n - 1..] == ops[n..];
      assert next[t := Arrive(ops[n..])] == threads[t := Arrive(ops[n..])];
      assert sh.wire + [DataOrControl] + Data(n - 1) == sh.wire + Data(n);
    }
  }

  // ---- Two closing threads -------------------------------------------------------------

  function CloseCount(wire: seq<Written>): (n: nat)
  {
    if wire == [] then 0 else CloseCount(wire[..|wire| - 1]) + (if IsClose(wire[|wire| - 1]) then 1 else 0)
  }

  lemma CountOne(wire: seq<Written>, w: Written)
    ensures CloseCount(wire + [w]) == CloseCount(wire) + if IsClose(w) then 1 else 0
  {
    assert (wire + [w])[..|wire|] == wire;
  }

  /** How many operations come before the first that closes. */
  function Leading(ops: seq<Op>): (n: nat)
    ensures n <= |ops| && (forall i | 0 <= i < n :: !Closes(ops[i])) && (n < |ops| ==> Closes(ops[n]))
  {
    if ops == [] || Closes(ops[0]) then 0 else 1 + Leading(ops[1..])
  }

  predicate HasClosing(ops: seq<Op>)
  {
    Leading(ops) < |ops|
  }

  /** A thread runs up to its first closing operation and through the checks of that. */
  lemma ReachPast(programs: seq<seq<Op>>, sh: Shared, threads: seq<Thread>, t: nat)
    requires Reachable(programs, System(sh, threads)) && Calm(sh)
    requires t < |threads| && threads[t] == Arrive(threads[t].ops) && HasClosing(threads[t].ops)
    ensures var n := Leading(threads[t].ops);
            Reachable(programs, System(sh.(wire := sh.wire + Data(n)),
                                       threads[t := Thread(threads[t].ops[n..], Past(threads[t].ops[n]))]))
  {
    hide Reachable, Leads;
    var ops, n := threads[t].ops, Leading(threads[t].ops);
    Drain(programs, sh, threads, t, n);
    var sh1, next := sh.(wire := sh.wire + Data(n)), threads[t := Arrive(ops[n..])];
    assert ops[n..][0] == ops[n];
    ArriveAt(sh1, next, t);
    LeadsPastChecks(sh1, ops[n]);
    LeadsReach(programs, sh1, next, t, Begin(ops[n]), sh1, Past(ops[n]));
    assert next[t := next[t].(pc := Past(ops[n]))] == threads[t := Thread(ops[n..], Past(ops[n]))];
  }

  /** It then writes its CLOSE. */
  lemma ReachWrote(programs: seq<seq<Op>>, sh: Shared, threads: seq<Thread>, t: nat)
    requires Reachable(programs, System(sh, threads)) && sh.connected && !sh.locked
    requires t < |threads| && threads[t].ops != [] && Closes(threads[t].ops[0])
    requires threads[t].pc == Past(threads[t].ops[0])
    ensures Reachable(programs, At(Wrote(sh, threads[t].ops[0]), threads, t, Clearing))
  {
    hide Reachable, Leads;
    var op := threads[t].ops[0];
    assert threads == threads[t := threads[t].(pc := Past(op))];
    LeadsThrough(sh, op);
    LeadsReach(programs, sh, threads, t, Past(op), Wrote(sh, op), Clearing);
  }

  /** Two threads with a closing operation each can both write a CLOSE. */
  lemma BothClose(programs: seq<seq<Op>>, t: nat, u: nat)
    requires t < |programs| && u < |programs| && t != u && HasClosing(programs[t]) && HasClosing(programs[u])
    ensures exists s :: Reachable(programs, s) && CloseCount(s.shared.wire) >= 2
  {
    hide Reachable, Closes;
    ReachInitial(programs);
    var ths := Initial(programs).threads;
    var a, b := programs[t][Leading(programs[t])..], programs[u][Leading(programs[u])..];
    ReachPast(programs, ACTIVE, ths, t);
    var sh1 := ACTIVE.(wire := ACTIVE.wire + Data(Leading(programs[t])));
    var ths1 := ths[t := Thread(a, Past(a[0]))];
    ReachPast(programs, sh1, ths1, u);
    var sh2 := sh1.(wire := sh1.wire + Data(Leading(programs[u])));
    var ths2 := ths1[u := Thread(b, Past(b[0]))];
    ReachWrote(programs, sh2, ths2, t);
    var sh3, ths3 := Wrote(sh2, a[0]), ths2[t := ths2[t].(pc := Clearing)];
    ReachWrote(programs, sh3, ths3, u);
    CountOne(sh2.wire, Image(a[0]));
    CountOne(sh3.wire, Image(b[0]));
    assert IsClose(Image(a[0])) && IsClose(Image(b[0])) by { ClosesWritesClose(a[0]); ClosesWritesClose(b[0]); }
    var s := At(Wrote(sh3, b[0]), ths3, u, Clearing);
    assert Reachable(programs, s) && CloseCount(s.shared.wire) >= 2;
  }

  lemma ClosesWritesClose(op: Op)
    requires Closes(op)
    ensures IsClose(Image(op))
  {
  }

  // ---- One closing thread --------------------------------------------------------------

  /** Only thread `c` runs operations that close. */
  predicate OneCloser(threads: seq<Thread>, c: nat)
  {
    forall t: nat | t < |threads| && t != c :: forall op | op in threads[t].ops :: !Closes(op)
  }

  /** The one closing thread is between two operations: nothing is closed yet, or all of it is. */
  predicate Resting(n: nat, sh: Shared)
  {
    || (n == 0 && sh.calls == 0 && sh.open && sh.connected && !sh.closing)
    || (n == 1 && sh.calls == 1 && !sh.open)
  }

  /** How far it has come inside an operation, when `n` CLOSE frames were written or lost. */
  predicate OpPhase(n: nat, sh: Shared, op: Op, pc: Pc)
  {
    if n == 0 && sh.calls == 0 && !sh.closing then
      && sh.open && sh.connected
      && !pc.Clearing? && !pc.ClosingSocket? && !pc.Joining? && !pc.Calling?
      && (Closes(op) ==> !pc.Unlocking?)
      && (Image(op).GateClose? ==> !pc.Ready? && !pc.Writing?)
    else if n == 0 then
      sh.calls == 0 && sh.open && sh.connected && Image(op).GateClose? && (pc.Ready? || pc.Writing?)
    else if sh.calls == 0 then
      && n == 1 && Closes(op)
      && if sh.open then sh.connected && (pc.Unlocking? || pc.Clearing?)
         else pc.ClosingSocket? || pc.Joining? || pc.Calling?
    else n == 1 && sh.calls == 1 && !sh.open && (pc.LoopOpen? || (pc.FirstCheck? && !ByReader(op)))
  }

  /** CLOSE frames written or lost. */
  function Tried(sh: Shared): (n: nat)
  {
    CloseCount(sh.wire) + sh.lost
  }

  predicate Phase(sh: Shared, th: Thread)
  {
    var n := Tried(sh);
    if th.ops == [] then Resting(n, sh) else OpPhase(n, sh, th.ops[0], th.pc)
  }

  lemma RestingArrives(sh: Shared, ops: seq<Op>)
    requires Resting(Tried(sh), sh)
    ensures Phase(sh, Arrive(ops))
  {
  }

  lemma OpPhaseMove(n: nat, sh: Shared, op: Op, pc: Pc, ok: bool)
    requires OpPhase(n, sh, op, pc) && PcOk(op, pc)
    ensures var (sh', pc') := Move(sh, op, pc, ok);
            var n' := if pc.Writing? && Closes(op) then n + 1 else n;
            if pc'.Some? then OpPhase(n', sh', op, pc'.value) else Resting(n', sh')
  {
  }

  lemma TriedMove(sh: Shared, op: Op, pc: Pc, ok: bool)
    ensures Tried(Move(sh, op, pc, ok).0) == Tried(sh) + if pc.Writing? && Closes(op) then 1 else 0
  {
    CountOne(sh.wire, Image(op));
    hide CloseCount;
  }

  lemma PhaseMove(s: System, c: nat, ok: bool)
    requires Enabled(s, c) && ThreadOk(s.shared, s.threads[c]) && Phase(s.shared, s.threads[c])
    ensures Phase(Step(s, c, ok).shared, Step(s, c, ok).threads[c])
  {
    hide Move, OpPhase, Resting, PcOk, Tried;
    var th := s.threads[c];
    OpPhaseMove(Tried(s.shared), s.shared, th.ops[0], th.pc, ok);
    TriedMove(s.shared, th.ops[0], th.pc, ok);
    var (sh, pc) := Move(s.shared, th.ops[0], th.pc, ok);
    if pc.None? {
      RestingArrives(sh, th.ops[1..]);
    }
  }

  lemma PhaseOther(s: System, t: nat, ok: bool, c: nat)
    requires Enabled(s, t) && ThreadOk(s.shared, s.threads[t]) && !Closes(s.threads[t].ops[0])
    requires c < |s.threads| && c != t && Phase(s.shared, s.threads[c]) && (!s.shared.connected ==> !s.shared.open)
    ensures Phase(Step(s, t, ok).shared, s.threads[c])
  {
    hide Tried;
    TriedMove(s.shared, s.threads[t].ops[0], s.threads[t].pc, ok);
  }

  lemma PhaseStep(s: System, t: nat, ok: bool, c: nat)
    requires Inv(s) && Enabled(s, t) && c < |s.threads| && OneCloser(s.threads, c) && Phase(s.shared, s.threads[c])
    ensures var s' := Step(s, t, ok);
            c < |s'.threads| && OneCloser(s'.threads, c) && Phase(s'.shared, s'.threads[c])
  {
    assert ThreadOk(s.shared, s.threads[t]) && (!s.shared.connected ==> !s.shared.open);
    hide Phase, ThreadOk, Move, Closes, NothingAfterGate, InCritical;
    if t == c {
      PhaseMove(s, c, ok);
    } else {
      assert s.threads[t].ops[0] in s.threads[t].ops;
      PhaseOther(s, t, ok, c);
    }
  }

  lemma InitialPhase(ops: seq<Op>)
    ensures Phase(ACTIVE, Arrive(ops))
  {
    assert Tried(ACTIVE) == 0;
    RestingArrives(ACTIVE, ops);
  }

  lemma {:induction false} RunPhase(programs: seq<seq<Op>>, c: nat, schedule: seq<Choice>, k: nat)
    requires c < |programs| && OneCloser(Initial(programs).threads, c) && k <= |schedule|
    ensures var s := After(programs, schedule, k);
            c < |s.threads| && OneCloser(s.threads, c) && Phase(s.shared, s.threads[c])
  {
    hide OneCloser, Phase, Inv, Step, Enabled;
    if k == 0 {
      InitialPhase(programs[c]);
    } else {
      RunPhase(programs, c, schedule, k - 1);
      RunInv(programs, schedule, k - 1);
      var s := After(programs, schedule, k - 1);
      var (t, ok) := schedule[k - 1];
      if Enabled(s, t) {
        PhaseStep(s, t, ok, c);
      }
    }
  }

  /**
   * With a single thread that closes, such as the reader when the application does not call `close`,
   * every interleaving with any number of senders tries to write at most one CLOSE and calls back at most
   * once, and only after that.
   */
  lemma OneCloseOneCallback(programs: seq<seq<Op>>, c: nat, schedule: seq<Choice>)
    requires c < |programs| && OneCloser(Initial(programs).threads, c)
    ensures var sh := Run(programs, schedule).shared;
            CloseCount(sh.wire) + sh.lost <= 1 && sh.calls <= CloseCount(sh.wire) + sh.lost
  {
    RunPhase(programs, c, schedule, |schedule|);
  }

  /** At most one CLOSE on the wire and at most one callback. */
  predicate AtMostOnce(sh: Shared)
  {
    CloseCount(sh.wire) <= 1 && sh.calls <= 1
  }

  /** Two different threads have an operation that closes. */
  predicate TwoClosers(programs: seq<seq<Op>>)
  {
    exists t, u | 0 <= t < |programs| && 0 <= u < |programs| ::
      t != u && HasClosing(programs[t]) && HasClosing(programs[u])
  }

  lemma {:induction false} NoClosing(ops: seq<Op>)
    requires !HasClosing(ops)
    ensures forall op | op in ops :: !Closes(op)
  {
    forall op | op in ops ensures !Closes(op) {
      var i :| 0 <= i < |ops| && ops[i] == op;
      assert i < Leading(ops);
    }
  }

  /** Without two closing threads there is one thread outside of which nothing closes. */
  lemma SomeCloser(programs: seq<seq<Op>>) returns (c: nat)
    requires programs != [] && !TwoClosers(programs)
    ensures c < |programs| && OneCloser(Initial(programs).threads, c)
  {
    if t: nat :| t < |programs| && HasClosing(programs[t]) {
      c := t;
    } else {
      c := 0;
    }
    forall t: nat | t < |programs| && t != c ensures forall op | op in Initial(programs).threads[t].ops :: !Closes(op) {
      NoClosing(programs[t]);
    }
  }

  /** With no threads nothing happens. */
  lemma {:induction false} NobodyMoves(schedule: seq<Choice>, k: nat)
    requires k <= |schedule|
    ensures After([], schedule, k) == Initial([])
  {
    if k > 0 {
      NobodyMoves(schedule, k - 1);
      var s := After([], schedule, k - 1);
      var (t, ok) := schedule[k - 1];
      assert |s.threads| == 0 && !Enabled(s, t);
    }
  }

  /**
   * Exactly when every run writes at most one CLOSE and calls back at most once: when at most one thread
   * has an operation that closes.
   */
  lemma AtMostOnceExact(programs: seq<seq<Op>>)
    ensures (forall schedule :: AtMostOnce(Run(programs, schedule).shared)) <==> !TwoClosers(programs)
  {
    if TwoClosers(programs) {
      var t, u :| 0 <= t < |programs| && 0 <= u < |programs|
                  && t != u && HasClosing(programs[t]) && HasClosing(programs[u]);
      BothClose(programs, t, u);
      var s :| Reachable(programs, s) && CloseCount(s.shared.wire) >= 2;
      var schedule :| Run(programs, schedule) == s;
      assert !AtMostOnce(Run(programs, schedule).shared);
    } else {
      forall schedule ensures AtMostOnce(Run(programs, schedule).shared) {
        if programs == [] {
          NobodyMoves(schedule, |schedule|);
        } else {
          var c := SomeCloser(programs);
          OneCloseOneCallback(programs, c, schedule);
        }
      }
    }
  }

  // ---- Data after a CLOSE --------------------------------------------------------------

  /** Data, a ping or a pong comes after some CLOSE. */
  predicate LateData(wire: seq<Written>)
  {
    exists i, j | 0 <= i < j < |wire| :: IsClose(wire[i]) && !IsClose(wire[j])
  }

  predicate HasClose(wire: seq<Written>)
  {
    exists i | 0 <= i < |wire| :: IsClose(wire[i])
  }

  /** One thread would first close by answering the peer's CLOSE while another begins with data or a ping. */
  predicate AnswerRace(programs: seq<seq<Op>>)
  {
    exists t, u | 0 <= t < |programs| && 0 <= u < |programs| ::
      t != u && AnswersFirst(programs[t]) && programs[u] != [] && !Closes(programs[u][0])
  }

  predicate AnswersFirst(ops: seq<Op>)
  {
    HasClosing(ops) && ops[Leading(ops)].ReplyToClose?
  }

  /** In such a race the data can come last. */
  lemma AnswerThenData(programs: seq<seq<Op>>, t: nat, u: nat)
    requires t < |programs| && u < |programs| && t != u && AnswersFirst(programs[t])
    requires programs[u] != [] && !Closes(programs[u][0])
    ensures exists s :: Reachable(programs, s) && LateData(s.shared.wire)
  {
    hide Reachable;
    ReachInitial(programs);
    var ths := Initial(programs).threads;
    var a := programs[t][Leading(programs[t])..];
    ReachPast(programs, ACTIVE, ths, t);
    var sh1 := ACTIVE.(wire := ACTIVE.wire + Data(Leading(programs[t])));
    var ths1 := ths[t := Thread(a, Ready)];
    ReachWrote(programs, sh1, ths1, t);
    var sh2, ths2 := Wrote(sh1, a[0]), ths1[t := ths1[t].(pc := Clearing)];
    DataReach(programs, sh2, ths2, u);
    var s := System(sh2.(wire := sh2.wire + [DataOrControl]), ths2[u := Arrive(programs[u][1..])]);
    var n := |sh1.wire|;
    assert s.shared.wire[n] == ReplyClose && s.shared.wire[n + 1] == DataOrControl;
    assert Reachable(programs, s) && LateData(s.shared.wire);
  }

  /** Closed for good: no operation that begins now writes data. */
  predicate Shut(sh: Shared)
  {
    !sh.open || sh.closing
  }

  /** What is left of a thread's program, and that a closing operation among those done has shut the gate. */
  predicate Progress(program: seq<Op>, sh: Shared, ops: seq<Op>)
  {
    && |ops| <= |program| && ops == program[|program| - |ops|..]
    && (|program| - |ops| <= Leading(program) || Shut(sh))
  }

  lemma ProgressMove(program: seq<Op>, sh: Shared, th: Thread, ok: bool)
    requires th.ops != [] && Progress(program, sh, th.ops) && ThreadOk(sh, th)
    ensures var (sh', pc) := Move(sh, th.ops[0], th.pc, ok);
            && Progress(program, sh', th.ops)
            && (pc.None? ==> Progress(program, sh', th.ops[1..]))
  {
    var op := th.ops[0];
    var k := |program| - |th.ops|;
    assert op == program[k] && th.ops[1..] == program[k + 1..];
    var (sh', pc) := Move(sh, op, th.pc, ok);
    assert Shut(sh) ==> Shut(sh');
    if pc.None? && Closes(op) {
      FinishedCloses(sh, th, ok);
    } else if k == Leading(program) {
      assert Closes(op);
    }
  }

  /** A closing operation that ends leaves the gate shut, whether or not it did the closing. */
  lemma FinishedCloses(sh: Shared, th: Thread, ok: bool)
    requires th.ops != [] && ThreadOk(sh, th) && Closes(th.ops[0]) && Move(sh, th.ops[0], th.pc, ok).1.None?
    ensures Shut(Move(sh, th.ops[0], th.pc, ok).0)
  {
  }

  lemma ShutStays(sh: Shared, op: Op, pc: Pc, ok: bool)
    ensures Shut(sh) ==> Shut(Move(sh, op, pc, ok).0)
  {
  }

  /** A thread between the CLOSE of `handle_close_frame` and clearing `is_open_`. */
  predicate Answering(th: Thread)
  {
    th.ops != [] && th.ops[0].ReplyToClose? && (th.pc.Unlocking? || th.pc.Clearing?)
  }

  /** A CLOSE on the wire has shut the gate, or its writer is about to. */
  predicate CloseSeen(s: System)
  {
    HasClose(s.shared.wire) && !Shut(s.shared) ==> exists t: nat :: t < |s.threads| && Answering(s.threads[t])
  }

  /** What a thread that is about to write data knows, if the programs cannot race. */
  predicate DataSafe(sh: Shared, th: Thread)
  {
    th.ops != [] && !Closes(th.ops[0]) && HasClose(sh.wire) ==>
      && !th.pc.Writing?
      && (th.pc.LockedRecheck? ==> if th.ops[0].AnswerPing? then !sh.open else sh.closing)
  }

  predicate RaceFree(programs: seq<seq<Op>>, s: System)
  {
    && |s.threads| == |programs| && CloseSeen(s) && !LateData(s.shared.wire)
    && (forall t: nat | t < |programs| :: Progress(programs[t], s.shared, s.threads[t].ops))
    && (forall t: nat | t < |programs| :: DataSafe(s.shared, s.threads[t]))
  }

  /** While the gate is not shut, a thread about to send has closed nothing, nor has one about to answer a CLOSE. */
  lemma StillFirst(program: seq<Op>, sh: Shared, ops: seq<Op>)
    requires Progress(program, sh, ops) && ops != [] && !Shut(sh)
    ensures ops[0].ReplyToClose? ==> AnswersFirst(program)
    ensures !Closes(ops[0]) ==> program != [] && !Closes(program[0])
  {
    var k := |program| - |ops|;
    assert ops[0] == program[k];
  }

  /** A sender that holds the mutex with a CLOSE on the wire finds the gate shut. */
  lemma SenderFindsShut(programs: seq<seq<Op>>, s: System, u: nat)
    requires Inv(s) && RaceFree(programs, s) && !AnswerRace(programs) && HasClose(s.shared.wire)
    requires u < |programs| && InCritical(s.threads[u]) && !Closes(s.threads[u].ops[0])
    ensures Shut(s.shared)
  {
    hide NothingAfterGate, ThreadOk, LateData, HasClose, AnswersFirst;
    if !Shut(s.shared) {
      var t: nat :| t < |s.threads| && Answering(s.threads[t]);
      assert t != u;
      assert Progress(programs[t], s.shared, s.threads[t].ops) && Progress(programs[u], s.shared, s.threads[u].ops);
      StillFirst(programs[t], s.shared, s.threads[t].ops);
      StillFirst(programs[u], s.shared, s.threads[u].ops);
    }
  }

  lemma HasCloseAppend(wire: seq<Written>, w: Written)
    ensures HasClose(wire + [w]) <==> HasClose(wire) || IsClose(w)
    ensures LateData(wire + [w]) <==> LateData(wire) || (HasClose(wire) && !IsClose(w))
  {
    var all := wire + [w];
    if HasClose(wire) {
      var i :| 0 <= i < |wire| && IsClose(wire[i]);
      assert IsClose(all[i]);
      assert all[|wire|] == w;
    }
    if IsClose(w) {
      assert IsClose(all[|wire|]);
    }
    if LateData(wire) {
      var i, j :| 0 <= i < j < |wire| && IsClose(wire[i]) && !IsClose(wire[j]);
      assert IsClose(all[i]) && !IsClose(all[j]);
    }
  }

  /** What a step of `op` can add to the wire. */
  lemma WireMove(sh: Shared, op: Op, pc: Pc, ok: bool)
    ensures var sh' := Move(sh, op, pc, ok).0;
            sh'.wire == sh.wire || (pc.Writing? && sh'.wire == sh.wire + [Image(op)])
  {
    hide Image, Closes, ByReader, GiveUp;
  }

  lemma WireStep(programs: seq<seq<Op>>, s: System, t: nat, ok: bool)
    requires RaceFree(programs, s) && Enabled(s, t)
    ensures !LateData(Step(s, t, ok).shared.wire)
    ensures HasClose(Step(s, t, ok).shared.wire) ==>
              HasClose(s.shared.wire) || (s.threads[t].pc.Writing? && Closes(s.threads[t].ops[0]))
  {
    var th := s.threads[t];
    assert DataSafe(s.shared, th);
    hide LateData, HasClose, Progress, CloseSeen;
    WireMove(s.shared, th.ops[0], th.pc, ok);
    HasCloseAppend(s.shared.wire, Image(th.ops[0]));
    hide Move;
  }

  lemma SeenStep(programs: seq<seq<Op>>, s: System, t: nat, ok: bool)
    requires Inv(s) && RaceFree(programs, s) && Enabled(s, t)
    ensures CloseSeen(Step(s, t, ok))
  {
    var s', th := Step(s, t, ok), s.threads[t];
    assert ThreadOk(s.shared, th);
    hide Progress, DataSafe, LateData, NothingAfterGate;
    WireStep(programs, s, t, ok);
    ShutStays(s.shared, th.ops[0], th.pc, ok);
    if HasClose(s'.shared.wire) && !Shut(s'.shared) {
      hide HasClose;
      if th.pc.Writing? && Closes(th.ops[0]) {
        assert Answering(s'.threads[t]);
      } else {
        var u: nat :| u < |s.threads| && Answering(s.threads[u]);
        assert Answering(s'.threads[u]);
      }
    }
  }

  lemma SafeOther(programs: seq<seq<Op>>, s: System, t: nat, ok: bool, u: nat)
    requires Inv(s) && RaceFree(programs, s) && Enabled(s, t) && u < |programs| && u != t
    ensures DataSafe(Step(s, t, ok).shared, s.threads[u])
  {
    assert DataSafe(s.shared, s.threads[u]) && ThreadOk(s.shared, s.threads[u]);
    WireStep(programs, s, t, ok);
    assert InCritical(s.threads[t]) ==> !InCritical(s.threads[u]);
    hide HasClose, LateData, NothingAfterGate, Progress, CloseSeen;
  }

  /** How an operation that does not close comes to its write. */
  lemma DataPc(sh: Shared, op: Op, pc: Pc, ok: bool)
    requires !Closes(op)
    ensures var next := Move(sh, op, pc, ok).1;
            && (next == Some(Writing) ==> pc.LockedRecheck? && if op.AnswerPing? then sh.open else !sh.closing)
            && (next == Some(LockedRecheck) ==> pc.LockedCheck?)
            && (pc.LockedCheck? ==> Move(sh, op, pc, ok).0 == sh)
            && (pc.LockedCheck? && next == Some(LockedRecheck) ==> if op.AnswerPing? then !sh.closing else sh.open)
  {
    hide Image;
  }

  lemma SafeMover(programs: seq<seq<Op>>, s: System, t: nat, ok: bool)
    requires Inv(s) && RaceFree(programs, s) && !AnswerRace(programs) && Enabled(s, t)
    ensures DataSafe(Step(s, t, ok).shared, Step(s, t, ok).threads[t])
  {
    var th := s.threads[t];
    assert DataSafe(s.shared, th) && ThreadOk(s.shared, th);
    WireStep(programs, s, t, ok);
    if HasClose(s.shared.wire) && InCritical(th) && !Closes(th.ops[0]) {
      SenderFindsShut(programs, s, t);
    }
    if !Closes(th.ops[0]) {
      DataPc(s.shared, th.ops[0], th.pc, ok);
    }
    hide HasClose, LateData, NothingAfterGate, Progress, CloseSeen, AnswerRace, PcOk, Move, Closes;
  }

  lemma ProgressStep(programs: seq<seq<Op>>, s: System, t: nat, ok: bool, u: nat)
    requires Inv(s) && RaceFree(programs, s) && Enabled(s, t) && u < |programs|
    ensures Progress(programs[u], Step(s, t, ok).shared, Step(s, t, ok).threads[u].ops)
  {
    var th := s.threads[t];
    assert ThreadOk(s.shared, th);
    assert Progress(programs[u], s.shared, s.threads[u].ops);
    hide HasClose, LateData, NothingAfterGate, CloseSeen, DataSafe, ThreadOk, Move;
    if u == t {
      ProgressMove(programs[t], s.shared, th, ok);
    } else {
      ShutStays(s.shared, th.ops[0], th.pc, ok);
    }
  }

  lemma RaceFreeStep(programs: seq<seq<Op>>, s: System, t: nat, ok: bool)
    requires Inv(s) && RaceFree(programs, s) && !AnswerRace(programs) && Enabled(s, t)
    ensures RaceFree(programs, Step(s, t, ok))
  {
    var s' := Step(s, t, ok);
    assert |s'.threads| == |programs| && forall u | 0 <= u < |programs| && u != t :: s'.threads[u] == s.threads[u];
    WireStep(programs, s, t, ok);
    SeenStep(programs, s, t, ok);
    SafeMover(programs, s, t, ok);
    hide HasClose, LateData, CloseSeen, DataSafe, Progress, AnswerRace, Inv, Step, Enabled;
    forall u: nat | u < |programs| ensures Progress(programs[u], s'.shared, s'.threads[u].ops) {
      ProgressStep(programs, s, t, ok, u);
    }
    forall u: nat | u < |programs| ensures DataSafe(s'.shared, s'.threads[u]) {
      if u != t {
        SafeOther(programs, s, t, ok, u);
      }
    }
  }

  lemma InitialRaceFree(programs: seq<seq<Op>>)
    ensures RaceFree(programs, Initial(programs))
  {
  }

  lemma {:induction false} RunRaceFree(programs: seq<seq<Op>>, schedule: seq<Choice>, k: nat)
    requires k <= |schedule| && !AnswerRace(programs)
    ensures RaceFree(programs, After(programs, schedule, k))
  {
    hide RaceFree, AnswerRace, Inv, Step, Enabled;
    if k == 0 {
      InitialRaceFree(programs);
    } else {
      RunRaceFree(programs, schedule, k - 1);
      RunInv(programs, schedule, k - 1);
      var s := After(programs, schedule, k - 1);
      var (t, ok) := schedule[k - 1];
      if Enabled(s, t) {
        RaceFreeStep(programs, s, t, ok);
      }
    }
  }

  /**
   * Exactly when no run writes data, a ping or a pong after a CLOSE: when there are no two threads of
   * which one would close first by answering the peer's CLOSE and the other begins with such a frame.
   */
  lemma NoLateDataExact(programs: seq<seq<Op>>)
    ensures (forall schedule :: !LateData(Run(programs, schedule).shared.wire)) <==> !AnswerRace(programs)
  {
    hide LateData, AnswersFirst, RaceFree, Closes;
    if AnswerRace(programs) {
      var t, u :| 0 <= t < |programs| && 0 <= u < |programs|
                  && t != u && AnswersFirst(programs[t]) && programs[u] != [] && !Closes(programs[u][0]);
      AnswerThenData(programs, t, u);
      var s :| Reachable(programs, s) && LateData(s.shared.wire);
      var schedule :| Run(programs, schedule) == s;
      assert LateData(Run(programs, schedule).shared.wire);
    } else {
      forall schedule ensures !LateData(Run(programs, schedule).shared.wire) {
        RunRaceFree(programs, schedule, |schedule|);
        RaceFreeWire(programs, Run(programs, schedule));
      }
    }
  }

  lemma RaceFreeWire(programs: seq<seq<Op>>, s: System)
    requires RaceFree(programs, s)
    ensures !LateData(s.shared.wire)
  {
  }

  // ---- The smallest races --------------------------------------------------------------

  /**
   * `handle_close_frame` clears `is_open_` only after it has dropped the mutex: a sender can write after
   * its CLOSE.
   */
  lemma DataAfterReply()
    ensures exists schedule :: LateData(Run([[ReplyToClose], [Send]], schedule).shared.wire)
  {
    var programs := [[ReplyToClose], [Send]];
    assert programs[0][0] == ReplyToClose && programs[1][0] == Send;
    AnswerThenData(programs, 0, 1);
    hide LateData;
    var s :| Reachable(programs, s) && LateData(s.shared.wire);
    var schedule :| Run(programs, schedule) == s;
  }

  /** A closing operation goes from its CLOSE to the callback, except that `close` waits for the reader. */
  lemma LeadsShut(sh: Shared, op: Op)
    requires op.Fail? || op.CloseCall?
    ensures Leads(sh, op, Clearing, sh.(open := false, connected := false), if op.Fail? then Calling else Joining)
  {
    var shut := sh.(open := false, connected := false);
    assert Leads(sh.(open := false), op, ClosingSocket, shut, if op.Fail? then Calling else Joining);
  }

  /** A closing operation that has written its CLOSE runs to its end, once the reader has ended. */
  lemma Finishes(programs: seq<seq<Op>>, sh: Shared, threads: seq<Thread>, t: nat)
    requires t < |threads| && threads[t].ops != [] && (threads[t].ops[0].Fail? || threads[t].ops[0].CloseCall?)
    requires Reachable(programs, At(sh, threads, t, Clearing)) && (t == 0 || threads[0].ops == [])
    ensures Reachable(programs, System(sh.(open := false, connected := false, calls := sh.calls + 1),
                                       threads[t := Arrive(threads[t].ops[1..])]))
  {
    hide Reachable, Leads;
    var op, shut := threads[t].ops[0], sh.(open := false, connected := false);
    LeadsShut(sh, op);
    LeadsReach(programs, sh, threads, t, Clearing, shut, if op.Fail? then Calling else Joining);
    if op.CloseCall? {
      var waiting := At(shut, threads, t, Joining);
      ReachStep(programs, waiting, t);
      assert Step(waiting, t, true) == At(shut, threads, t, Calling);
    }
    var s := At(shut, threads, t, Calling);
    ReachStep(programs, s, t);
    assert s.threads[t := Arrive(threads[t].ops[1..])] == threads[t := Arrive(threads[t].ops[1..])];
  }

  /**
   * The reader fails the connection while another thread closes it: both find it open, both write their
   * CLOSE before either closes the socket, and both call back.
   */
  lemma TwoCloses()
    ensures exists schedule ::
              Run([[Fail], [CloseCall]], schedule).shared ==
              Shared(false, true, false, false, [GateClose, GateClose], 0, 2)
  {
    var programs := [[Fail], [CloseCall]];
    var a, b, done := Thread([Fail], Clearing), Thread([CloseCall], Clearing), Arrive([]);
    var sh := Shared(true, true, true, false, [GateClose, GateClose], 0, 0);
    BothWrote(programs);
    assert [a, b] == [a, b][0 := a.(pc := Clearing)];
    hide Reachable;
    Finishes(programs, sh, [a, b], 0);
    assert [a, b][0 := done] == [done, b] == [done, b][1 := b.(pc := Clearing)];
    sh := sh.(open := false, connected := false, calls := 1);
    Finishes(programs, sh, [done, b], 1);
    EndState(programs, System(sh.(calls := 2), [done, b][1 := done]));
  }

  lemma EndState(programs: seq<seq<Op>>, s: System)
    requires Reachable(programs, s)
    ensures exists schedule :: Run(programs, schedule).shared == s.shared
  {
    var schedule :| Run(programs, schedule) == s;
    assert Run(programs, schedule).shared == s.shared;
  }

  lemma BothWrote(programs: seq<seq<Op>>)
    requires programs == [[Fail], [CloseCall]]
    ensures Reachable(programs, System(Shared(true, true, true, false, [GateClose, GateClose], 0, 0),
                                       [Thread([Fail], Clearing), Thread([CloseCall], Clearing)]))
  {
    hide Reachable;
    ReachInitial(programs);
    var ths := Initial(programs).threads;
    assert programs[0] == [Fail] && programs[1] == [CloseCall];
    ReachPast(programs, ACTIVE, ths, 0);
    var a, b := Thread([Fail], SetClosing), Thread([CloseCall], SetClosing);
    assert ACTIVE.wire + Data(0) == [] && [Fail][0..] == [Fail] && [CloseCall][0..] == [CloseCall];
    assert ths[0 := a] == [a, ths[1]];
    ReachPast(programs, ACTIVE, [a, ths[1]], 1);
    assert [a, ths[1]][1 := b] == [a, b];
    ReachWrote(programs, ACTIVE, [a, b], 0);
    var sh := Wrote(ACTIVE, Fail);
    assert [a, b][0 := a.(pc := Clearing)] == [a.(pc := Clearing), b];
    ReachWrote(programs, sh, [a.(pc := Clearing), b], 1);
    assert [a.(pc := Clearing), b][1 := b.(pc := Clearing)] == [a.(pc := Clearing), b.(pc := Clearing)];
    assert Wrote(sh, CloseCall) == Shared(true, true, true, false, [GateClose, GateClose], 0, 0);
  }
}
