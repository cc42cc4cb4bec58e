/**
 * The C++ server's registries of pending and active connections against `stop()`. Accept workers,
 * close callbacks and the shutdown sweep interleave at the granularity of the server's mutexes and
 * of single socket operations.
 */
module ServerShutdown {

  /** A connection's socket: not yet adopted, open, or closed. */
  datatype Socket = Unadopted | Opened | Closed

  /** Where `handle_accept` stands for one connection. */
  datatype WorkerPc = Registering | Adopting | Handshaking | Activating | Adding | Unregistering | Done

  /** Where `shutdown_all_sockets` stands; `left` are the connections its current loop has yet to close. */
  datatype StopPc = Running | SweepPending(left: set<nat>) | TakeActive | SweepActive(left: set<nat>) | Swept

  /**
   * Connections are numbered. `pending` and `active` are `pending_handshakes_` and `connections_`. The
   * rest records history: whose handshake succeeded, whose close callback ran, which connections were
   * registered and which were pending when the sweep began, which of those it reached before they had
   * a socket, and which were active when it looked.
   */
  datatype System = System(pc: seq<WorkerPc>, sock: seq<Socket>, pending: set<nat>, active: set<nat>, stop: StopPc,
                           succeeded: set<nat>, removed: set<nat>, known: set<nat>, taken: set<nat>, missed: set<nat>,
                           snapshot: set<nat>)

  /**
   * `Work` is the next step of a worker, which fails where it can if `ok` is false; `Callback` is the close
   * callback.
   */
  datatype Choice = Work(c: nat, ok: bool) | Callback(c: nat, closes: bool) | Stop(c: nat)

  function CloseSocket(s: Socket): (r: Socket)
  {
    if s.Opened? then Closed else s
  }

  function WorkerStep(s: System, c: nat, ok: bool): (s': System)
    requires c < |s.pc| == |s.sock|
  {
    match s.pc[c]
    case Registering => s.(pc := s.pc[c := Adopting], pending := s.pending + {c})
    case Adopting =>
      if ok then s.(pc := s.pc[c := Handshaking], sock := s.sock[c := Opened]) else s.(pc := s.pc[c := Unregistering])
    case Handshaking =>
      // reading and writing need an open socket
      if ok && s.sock[c].Opened? then s.(pc := s.pc[c := Activating], succeeded := s.succeeded + {c})
      else s.(pc := s.pc[c := Unregistering])
    case Activating => s.(pc := s.pc[c := Adding])
    case Adding => s.(pc := s.pc[c := Unregistering], active := s.active + {c})
    case Unregistering => s.(pc := s.pc[c := Done], pending := s.pending - {c})
    case Done => s
  }

  /**
   * The reader of an activated connection calls back: `remove_connection`, with or without closing the socket
   * first.
   */
  function CallbackStep(s: System, c: nat, closes: bool): (s': System)
    requires c < |s.pc| == |s.sock|
  {
    if c !in s.succeeded || s.pc[c].Activating? then s
    else s.(active := s.active - {c}, removed := s.removed + {c},
            sock := s.sock[c := if closes then Closed else s.sock[c]])
  }

  function StopStep(s: System, c: nat): (s': System)
    requires |s.pc| == |s.sock|
  {
    match s.stop
    case Running =>
      s.(stop := SweepPending(s.pending), taken := s.pending, pending := {},
         known := set d: nat | 0 <= d < |s.pc| && !s.pc[d].Registering?)
    case SweepPending(left) =>
      if left == {} then s.(stop := TakeActive)
      else if c in left && c < |s.sock| then
        s.(stop := SweepPending(left - {c}), sock := s.sock[c := CloseSocket(s.sock[c])],
           missed := if s.sock[c].Unadopted? then s.missed + {c} else s.missed)
      else s
    case TakeActive => s.(stop := SweepActive(s.active), snapshot := s.active)
    case SweepActive(left) =>
      if left == {} then s.(stop := Swept)
      else if c in left && c < |s.sock| then
        s.(stop := SweepActive(left - {c}), sock := s.sock[c := CloseSocket(s.sock[c])])
      else s
    case Swept => s
  }

  function Step(s: System, choice: Choice): (s': System)
    requires |s.pc| == |s.sock|
    ensures |s'.pc| == |s'.sock| == |s.pc|
  {
    match choice
    case Work(c, ok) => if c < |s.pc| then WorkerStep(s, c, ok) else s
    case Callback(c, closes) => if c < |s.pc| then CallbackStep(s, c, closes) else s
    case Stop(c) => StopStep(s, c)
  }

  /** A running server to which `n` clients will connect. */
  function Initial(n: nat): (s: System)
  {
    System(seq(n, _ => Registering), seq(n, _ => Unadopted), {}, {}, Running, {}, {}, {}, {}, {}, {})
  }

  function Run(n: nat, schedule: seq<Choice>, k: nat): (s: System)
    requires k <= |schedule|
    ensures |s.pc| == |s.sock| == n
  {
    if k == 0 then Initial(n) else Step(Run(n, schedule, k - 1), schedule[k - 1])
  }

  // ---- The invariant -------------------------------------------------------------------

  /** A worker, its socket and the registries. */
  predicate WorkerOk(s: System, c: nat)
    requires c < |s.pc| == |s.sock|
  {
    && (s.pc[c].Registering? || s.pc[c].Adopting? ==> s.sock[c].Unadopted?)
    && (s.pc[c].Handshaking? || c in s.succeeded ==> !s.sock[c].Unadopted?)
    && (c in s.succeeded ==> s.pc[c].Activating? || s.pc[c].Adding? || s.pc[c].Unregistering? || s.pc[c].Done?)
    && (s.pc[c].Activating? || s.pc[c].Adding? ==> c in s.succeeded)
    && (c in s.active ==> c in s.succeeded)
    && (c in s.succeeded - s.removed && (s.pc[c].Unregistering? || s.pc[c].Done?) ==> c in s.active)
    && (s.pc[c].Registering? ==> c !in s.known)
    && (c in s.removed ==> c in s.succeeded)
    && (s.stop.Running? && !s.pc[c].Registering? && !s.pc[c].Done? ==> c in s.pending)
    && (c in s.pending ==> !s.pc[c].Registering? && !s.pc[c].Done?)
  }

  /** The pending connections taken: still to be closed, met without a socket, or closed. */
  predicate PendingSweepOk(s: System, c: nat)
    requires c < |s.pc| == |s.sock|
  {
    && (c in s.known - s.taken ==> s.pc[c].Done?)
    && (c in s.taken ==> (s.stop.SweepPending? && c in s.stop.left) || c in s.missed || s.sock[c].Closed?)
    && (c in s.missed ==> c in s.taken)
    && (s.stop.SweepPending? && c in s.stop.left ==> c in s.taken && c !in s.missed)
    && (s.stop.Running? ==> c !in s.known && c !in s.taken)
  }

  /** The active connections found: still to be closed, or closed; and nothing else closes a socket. */
  predicate ActiveSweepOk(s: System, c: nat)
    requires c < |s.pc| == |s.sock|
  {
    var looked := s.stop.SweepActive? || s.stop.Swept?;
    && (c in s.snapshot ==> looked && c in s.succeeded)
    && (c in s.snapshot ==> (s.stop.SweepActive? && c in s.stop.left) || s.sock[c].Closed?)
    && (s.stop.SweepActive? && c in s.stop.left ==> c in s.snapshot)
    && (looked && c in s.known - s.taken && c in s.succeeded - s.removed ==> c in s.snapshot)
    && (s.sock[c].Closed? && c !in s.removed ==> c in s.taken - s.missed || c in s.snapshot)
  }

  predicate Inv(s: System)
  {
    && |s.pc| == |s.sock|
    && (forall c: nat | c < |s.pc| :: WorkerOk(s, c) && PendingSweepOk(s, c) && ActiveSweepOk(s, c))
    && (forall c | c in s.pending :: c < |s.pc|)
    && (forall c | c in s.active :: c < |s.pc|)
    && (s.stop.SweepPending? || s.stop.SweepActive? ==> forall c | c in s.stop.left :: c < |s.pc|)
  }

  lemma WorkerInv(s: System, c: nat, ok: bool)
    requires Inv(s) && c < |s.pc|
    ensures Inv(WorkerStep(s, c, ok))
  {
    assert WorkerOk(s, c) && PendingSweepOk(s, c) && ActiveSweepOk(s, c);
    var s' := WorkerStep(s, c, ok);
    forall d: nat | d < |s'.pc| ensures WorkerOk(s', d) && PendingSweepOk(s', d) && ActiveSweepOk(s', d) {
      assert WorkerOk(s, d) && PendingSweepOk(s, d) && ActiveSweepOk(s, d);
    }
  }

  lemma CallbackInv(s: System, c: nat, closes: bool)
    requires Inv(s) && c < |s.pc|
    ensures Inv(CallbackStep(s, c, closes))
  {
    var s' := CallbackStep(s, c, closes);
    forall d: nat | d < |s'.pc| ensures WorkerOk(s', d) && PendingSweepOk(s', d) && ActiveSweepOk(s', d) {
      assert WorkerOk(s, d) && PendingSweepOk(s, d) && ActiveSweepOk(s, d);
    }
  }

  lemma StopInv(s: System, c: nat)
    requires Inv(s)
    ensures Inv(StopStep(s, c))
  {
    var s' := StopStep(s, c);
    forall d: nat | d < |s'.pc| ensures WorkerOk(s', d) && PendingSweepOk(s', d) && ActiveSweepOk(s', d) {
      assert WorkerOk(s, d) && PendingSweepOk(s, d) && ActiveSweepOk(s, d);
    }
  }

  lemma {:induction false} RunInv(n: nat, schedule: seq<Choice>, k: nat)
    requires k <= |schedule|
    ensures Inv(Run(n, schedule, k))
  {
    if k > 0 {
      RunInv(n, schedule, k - 1);
      hide Inv, WorkerStep, CallbackStep, StopStep;
      var s := Run(n, schedule, k - 1);
      match schedule[k - 1]
      case Work(c, ok) => if c < |s.pc| { WorkerInv(s, c, ok); }
      case Callback(c, closes) => if c < |s.pc| { CallbackInv(s, c, closes); }
      case Stop(c) => StopInv(s, c);
    }
  }

  // ---- What the sweep achieves ---------------------------------------------------------

  /**
   * From the end of the sweep on, in every interleaving: a connection registered before the pending
   * list was taken, whose handshake succeeded and whose close callback has not run, has its socket
   * closed if and only if the sweep did not meet it before `adopt`, or found it active afterwards.
   */
  lemma SweepExact(n: nat, schedule: seq<Choice>, k: nat, c: nat)
    requires k <= |schedule| && c < n
    requires var s := Run(n, schedule, k);
             s.stop.Swept? && c in s.known && c in s.succeeded && c !in s.removed
    ensures var s := Run(n, schedule, k);
            s.sock[c].Closed? <==> c !in s.missed || c in s.snapshot
  {
    RunInv(n, schedule, k);
    var s := Run(n, schedule, k);
    assert WorkerOk(s, c) && PendingSweepOk(s, c) && ActiveSweepOk(s, c);
  }

  /** The connection has its socket, was not missed, and was known when the sweep began. */
  predicate Counted(s: System, c: nat)
    requires c < |s.sock|
  {
    !s.sock[c].Unadopted? && c !in s.missed && (s.stop.Running? || c in s.known)
  }

  lemma CountedStep(s: System, choice: Choice, c: nat)
    requires |s.pc| == |s.sock| && c < |s.sock| && WorkerOk(s, c) && Counted(s, c)
    ensures Counted(Step(s, choice), c)
  {
  }

  lemma {:induction false} StaysCounted(n: nat, schedule: seq<Choice>, k: nat, m: nat, c: nat)
    requires k <= m <= |schedule| && c < n && Counted(Run(n, schedule, k), c)
    ensures Counted(Run(n, schedule, m), c)
    decreases m
  {
    hide Counted, Step, WorkerOk, PendingSweepOk, ActiveSweepOk;
    if m > k {
      StaysCounted(n, schedule, k, m - 1, c);
      RunInv(n, schedule, m - 1);
      var s := Run(n, schedule, m - 1);
      assert WorkerOk(s, c);
      CountedStep(s, schedule[m - 1], c);
    }
  }

  /** So every connection that had its socket while the server was still running is closed by the sweep. */
  lemma SweepCloses(n: nat, schedule: seq<Choice>, k: nat, m: nat, c: nat)
    requires k <= m <= |schedule| && c < n
    requires Run(n, schedule, k).stop.Running? && !Run(n, schedule, k).sock[c].Unadopted?
    requires var s := Run(n, schedule, m); s.stop.Swept? && c in s.succeeded && c !in s.removed
    ensures Run(n, schedule, m).sock[c].Closed?
  {
    RunInv(n, schedule, k);
    assert PendingSweepOk(Run(n, schedule, k), c);
    hide Run, Inv, WorkerOk, ActiveSweepOk;
    StaysCounted(n, schedule, k, m, c);
    SweepExact(n, schedule, m, c);
  }

  lemma RunStep(n: nat, schedule: seq<Choice>, k: nat, s: System)
    requires 0 < k <= |schedule| && Step(Run(n, schedule, k - 1), schedule[k - 1]) == s
    ensures Run(n, schedule, k) == s
  {
  }

  /** The sweep of the pending list as a registered connection without a socket meets it. */
  lemma PendingSweepMisses(sched: seq<Choice>)
    requires |sched| == 10 && sched[0] == Work(0, true) && forall k | 1 <= k < 6 :: sched[k] == Stop(0)
    ensures Run(1, sched, 3) == System([Adopting], [Unadopted], {}, {}, SweepPending({}), {}, {}, {0}, {0}, {0}, {})
  {
    var s := Initial(1);
    assert Run(1, sched, 0) == s;
    hide Run;
    s := s.(pc := [Adopting], pending := {0});
    RunStep(1, sched, 1, s);
    s := s.(stop := SweepPending({0}), taken := {0}, known := {0}, pending := {});
    RunStep(1, sched, 2, s);
    s := s.(stop := SweepPending({}), missed := {0});
    RunStep(1, sched, 3, s);
  }

  /** The rest of the sweep, which finds nothing active. */
  lemma SweepMisses(sched: seq<Choice>)
    requires |sched| == 10 && sched[0] == Work(0, true) && forall k | 1 <= k < 6 :: sched[k] == Stop(0)
    ensures Run(1, sched, 6) == System([Adopting], [Unadopted], {}, {}, Swept, {}, {}, {0}, {0}, {0}, {})
  {
    hide Run;
    PendingSweepMisses(sched);
    var s := Run(1, sched, 3).(stop := TakeActive);
    RunStep(1, sched, 4, s);
    s := s.(stop := SweepActive({}));
    RunStep(1, sched, 5, s);
    s := s.(stop := Swept);
    RunStep(1, sched, 6, s);
  }

  /**
   * The gap: `stop()` reaches a registered connection before `adopt`, closes nothing, finds no active
   * connection, and the connection is then adopted, accepted and left open.
   */
  lemma MissedConnection()
    ensures var w, t := Work(0, true), Stop(0);
            var s := Run(1, [w, t, t, t, t, t, w, w, w, w], 10);
            && s.stop.Swept? && s.known == {0} && s.succeeded == {0} && s.removed == {}
            && s.sock[0].Opened? && s.active == {0}
  {
    hide Run;
    var w, t := Work(0, true), Stop(0);
    var sched := [w, t, t, t, t, t, w, w, w, w];
    SweepMisses(sched);
    var s := Run(1, sched, 6).(pc := [Handshaking], sock := [Opened]);
    RunStep(1, sched, 7, s);
    s := s.(pc := [Activating], succeeded := {0});
    RunStep(1, sched, 8, s);
    s := s.(pc := [Adding]);
    RunStep(1, sched, 9, s);
    s := s.(pc := [Unregistering], active := {0});
    RunStep(1, sched, 10, s);
  }
}
