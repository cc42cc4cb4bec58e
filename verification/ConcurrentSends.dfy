/**
 * The interleavings of the threads of `SendLocks`: what the wire carries in every run, and why no
 * run can deadlock on the connection's locks.
 */
module ConcurrentSends {
  import opened Bytes
  import opened Frames
  import opened SendLocks

  /**
   * `sending` counts the octets already written by a `send_raw` in progress; `built` is the thread's frame in
   * `outbound`.
   */
  datatype Thread = Thread(todo: seq<Action>, sending: Option<nat>, built: Option<seq<byte>>)

  /** `log` records who took the stream lock to send what, in the order the lock was taken. */
  datatype System = System(threads: seq<Thread>, owner: map<Lock, nat>, outbound: seq<byte>, wire: seq<byte>,
                           log: seq<(nat, seq<byte>)>)

  // ---- Steps ---------------------------------------------------------------------------

  /** What a `send_raw` writes: the caller's bytes or whatever the shared buffer holds. */
  function Source(s: System, own: Option<seq<byte>>): (data: seq<byte>)
  {
    if own.Some? then own.value else s.outbound
  }

  /** Whether thread `t` can move, writing `n` octets if it is writing. */
  predicate Enabled(s: System, t: nat, n: nat)
  {
    && t < |s.threads|
    && var th := s.threads[t];
       && th.todo != []
       && match th.todo[0]
          case Acquire(l) => l !in s.owner
          case Release(l) => l in s.owner && s.owner[l] == t
          case Build(_) => true
          case SendRaw(own) =>
            if th.sending.None? then StreamLock !in s.owner
            else th.sending.value == |Source(s, own)| || 1 <= n <= |Source(s, own)| - th.sending.value
  }

  function Pop(th: Thread): (r: Thread)
    requires th.todo != []
  {
    th.(todo := th.todo[1..])
  }

  function Step(s: System, t: nat, n: nat): (s': System)
    requires Enabled(s, t, n)
  {
    var th := s.threads[t];
    match th.todo[0]
    case Acquire(l) => s.(threads := s.threads[t := Pop(th)], owner := s.owner[l := t])
    case Release(l) =>
      s.(threads := s.threads[t := Pop(th).(built := if l.OutboundLock? then None else th.built)],
         owner := s.owner - {l})
    case Build(f) => s.(threads := s.threads[t := Pop(th).(built := Some(f))], outbound := f)
    case SendRaw(own) =>
      var data := Source(s, own);
      if th.sending.None? then
        s.(threads := s.threads[t := th.(sending := Some(0))], owner := s.owner[StreamLock := t],
           log := s.log + [(t, data)])
      else if th.sending.value == |data| then
        s.(threads := s.threads[t := Pop(th).(sending := None)], owner := s.owner - {StreamLock})
      else
        s.(threads := s.threads[t := th.(sending := Some(th.sending.value + n))],
           wire := s.wire + data[th.sending.value..th.sending.value + n])
  }

  function Initial(calls: seq<seq<Operation>>): (s: System)
  {
    System(seq(|calls|, i requires 0 <= i < |calls| => Thread(Program(calls[i]), None, None)), map[], [], [], [])
  }

  /**
   * The state after a schedule: each entry names a thread and how much it would write; blocked choices change
   * nothing.
   */
  function Run(calls: seq<seq<Operation>>, schedule: seq<(nat, nat)>): (s: System)
  {
    if schedule == [] then Initial(calls)
    else
      var last := |schedule| - 1;
      var s := Run(calls, schedule[..last]);
      var (t, n) := schedule[last];
      if Enabled(s, t, n) then Step(s, t, n) else s
  }

  // ---- The invariant -------------------------------------------------------------------

  /** Locks a thread holds, apart from the stream lock inside `send_raw`. */
  function Held(s: System, t: nat): (held: set<Lock>)
    requires t < |s.threads|
  {
    set l | l in s.owner && s.owner[l] == t && !(l.StreamLock? && s.threads[t].sending.Some?)
  }

  function LogData(log: seq<(nat, seq<byte>)>): (w: seq<byte>)
  {
    if log == [] then [] else LogData(log[..|log| - 1]) + log[|log| - 1].1
  }

  /** What one thread has sent. */
  function SentBy(log: seq<(nat, seq<byte>)>, t: nat): (fs: seq<seq<byte>>)
  {
    if log == [] then []
    else SentBy(log[..|log| - 1], t) + (if log[|log| - 1].0 == t then [log[|log| - 1].1] else [])
  }

  /** What a thread still has to send. */
  function ToSend(th: Thread): (fs: seq<seq<byte>>)
  {
    Sends(if th.sending.Some? && th.todo != [] then th.todo[1..] else th.todo, th.built)
  }

  predicate Writing(s: System, t: nat)
  {
    && t < |s.threads| && s.threads[t].sending.Some?
    && s.threads[t].todo != [] && s.threads[t].todo[0].SendRaw?
    && StreamLock in s.owner && s.owner[StreamLock] == t
    && s.threads[t].sending.value <= |Source(s, s.threads[t].todo[0].own)|
  }

  predicate ThreadOk(frames: seq<seq<byte>>, s: System, t: nat)
    requires t < |s.threads|
  {
    var th := s.threads[t];
    && Disciplined(th.todo, Held(s, t), th.built)
    && (th.built.Some? ==> OutboundLock in Held(s, t) && s.outbound == th.built.value)
    && (th.sending.Some? ==> Writing(s, t))
    && SentBy(s.log, t) + ToSend(th) == frames
  }

  /** The write in progress: by whom, of what, and how far it has come. */
  function Current(s: System): (c: Option<(nat, seq<byte>, nat)>)
  {
    if StreamLock in s.owner && Writing(s, s.owner[StreamLock]) then
      var th := s.threads[s.owner[StreamLock]];
      Some((s.owner[StreamLock], Source(s, th.todo[0].own), th.sending.value))
    else None
  }

  /** Everything logged is on the wire, the last entry up to where its writer has come. */
  predicate WireOk(s: System)
  {
    match Current(s)
    case Some((t, data, k)) =>
      && s.log != [] && s.log[|s.log| - 1] == (t, data) && k <= |data|
      && s.wire == LogData(s.log[..|s.log| - 1]) + data[..k]
    case None => s.wire == LogData(s.log)
  }

  predicate Inv(calls: seq<seq<Operation>>, s: System)
  {
    && |s.threads| == |calls|
    && Bounded(s)
    && (forall t: nat | t < |calls| :: ThreadOk(AllFrames(calls[t]), s, t))
    && WireOk(s)
  }

  lemma InitialOk(calls: seq<seq<Operation>>)
    ensures Inv(calls, Initial(calls))
  {
    var s := Initial(calls);
    forall t: nat | t < |calls| ensures ThreadOk(AllFrames(calls[t]), s, t) {
      ProgramDisciplined(calls[t]);
      assert Held(s, t) == {};
    }
  }

  /** The other threads are not affected by a step that leaves their locks, and the buffer if they own it, alone. */
  lemma OthersOk(frames: seq<seq<byte>>, s: System, s': System, t: nat, u: nat)
    requires u < |s.threads| == |s'.threads| && t != u && s'.threads[u] == s.threads[u] && ThreadOk(frames, s, u)
    requires forall l :: (l in s.owner && s.owner[l] == u) <==> (l in s'.owner && s'.owner[l] == u)
    requires s'.outbound != s.outbound ==> OutboundLock !in Held(s, u)
    requires s'.log == s.log || exists data :: s'.log == s.log + [(t, data)]
    ensures ThreadOk(frames, s', u)
  {
    hide Sends, SentBy;
    assert Held(s', u) == Held(s, u);
    if s'.log != s.log {
      var data :| s'.log == s.log + [(t, data)];
      SentAppend(s.log, t, data, u);
    }
    hide ToSend;
    var th := s.threads[u];
    if th.sending.Some? && th.todo[0].own.None? {
      assert OutboundLock in Held(s, u);
    }
  }

  lemma SentAppend(log: seq<(nat, seq<byte>)>, t: nat, data: seq<byte>, u: nat)
    ensures SentBy(log + [(t, data)], u) == SentBy(log, u) + (if t == u then [data] else [])
    ensures LogData(log + [(t, data)]) == LogData(log) + data
  {
    assert (log + [(t, data)])[..|log|] == log;
  }

  /** The moving thread keeps its own invariant. */
  lemma MoverOk(frames: seq<seq<byte>>, s: System, t: nat, n: nat)
    requires Enabled(s, t, n) && ThreadOk(frames, s, t)
    ensures |Step(s, t, n).threads| == |s.threads| && ThreadOk(frames, Step(s, t, n), t)
  {
    hide SentBy;
    var th := s.threads[t];
    var s' := Step(s, t, n);
    match th.todo[0]
    case Acquire(l) =>
      assert Held(s', t) == Held(s, t) + {l};
    case Release(l) =>
      assert Held(s', t) == Held(s, t) - {l};
    case Build(f) =>
      assert Held(s', t) == Held(s, t);
    case SendRaw(own) =>
      SenderOk(frames, s, t, n);
  }

  lemma SenderOk(frames: seq<seq<byte>>, s: System, t: nat, n: nat)
    requires Enabled(s, t, n) && ThreadOk(frames, s, t) && s.threads[t].todo[0].SendRaw?
    ensures |Step(s, t, n).threads| == |s.threads| && ThreadOk(frames, Step(s, t, n), t)
  {
    hide SentBy, LogData;
    var th := s.threads[t];
    var s' := Step(s, t, n);
    assert Held(s', t) == Held(s, t);
    if th.sending.None? {
      var data := Source(s, th.todo[0].own);
      var later := Sends(th.todo[1..], th.built);
      SentAppend(s.log, t, data, t);
      FirstSend(th, data);
      hide Sends, Disciplined;
      assert SentBy(s.log, t) + ([data] + later) == SentBy(s.log, t) + [data] + later;
    } else {
      assert Disciplined(th.todo[1..], Held(s, t), th.built);
      hide Sends, Disciplined, Held;
    }
  }

  lemma FirstSend(th: Thread, data: seq<byte>)
    requires th.todo != [] && th.todo[0].SendRaw? && th.sending.None?
    requires if th.todo[0].own.Some? then data == th.todo[0].own.value else th.built == Some(data)
    ensures ToSend(th) == [data] + Sends(th.todo[1..], th.built)
  {
  }

  /** Taking or dropping a lock or building a frame does not touch the write in progress. */
  lemma QuietStep(frames: seq<seq<byte>>, s: System, t: nat, n: nat)
    requires Enabled(s, t, n) && ThreadOk(frames, s, t) && !s.threads[t].todo[0].SendRaw?
    requires s.threads[t].todo[0].Build? ==> BufferFree(s, t)
    ensures Current(Step(s, t, n)) == Current(s)
  {
    hide SentBy, Sends, ToSend, Disciplined, Held;
    var s' := Step(s, t, n);
    if StreamLock in s.owner && s.owner[StreamLock] != t {
      var u := s.owner[StreamLock];
      assert u < |s.threads| ==> s'.threads[u] == s.threads[u];
    }
  }

  /** No other thread is writing from the shared buffer. */
  predicate BufferFree(s: System, t: nat)
  {
    forall u: nat | u < |s.threads| && u != t && s.threads[u].sending.Some? ::
      Writing(s, u) && s.threads[u].todo[0].own.Some?
  }

  /** Beginning, continuing and finishing a write. */
  lemma SendStep(frames: seq<seq<byte>>, s: System, t: nat, n: nat)
    requires Enabled(s, t, n) && ThreadOk(frames, s, t) && s.threads[t].todo[0].SendRaw?
    ensures var th, s' := s.threads[t], Step(s, t, n);
            var data := Source(s, th.todo[0].own);
            if th.sending.None? then Current(s) == None && Current(s') == Some((t, data, 0))
            else
              && Current(s) == Some((t, data, th.sending.value))
              && Current(s') == (if th.sending.value == |data| then None else Some((t, data, th.sending.value + n)))
  {
    hide SentBy, Sends, ToSend, Disciplined, Held;
  }

  lemma WireStep(frames: seq<seq<byte>>, s: System, t: nat, n: nat)
    requires Enabled(s, t, n) && ThreadOk(frames, s, t) && WireOk(s)
    requires s.threads[t].todo[0].Build? ==> BufferFree(s, t)
    ensures WireOk(Step(s, t, n))
  {
    hide ThreadOk, Current, BufferFree, LogData;
    match s.threads[t].todo[0]
    case Acquire(_) => QuietStep(frames, s, t, n);
    case Release(_) => QuietStep(frames, s, t, n);
    case Build(_) => QuietStep(frames, s, t, n);
    case SendRaw(own) =>
      SendStep(frames, s, t, n);
      WrittenStep(s, t, n);
  }

  /** What a sending step does to the log and the wire keeps them in step. */
  lemma WrittenStep(s: System, t: nat, n: nat)
    requires Enabled(s, t, n) && WireOk(s) && s.threads[t].todo[0].SendRaw?
    requires var th, s' := s.threads[t], Step(s, t, n);
             var data := Source(s, th.todo[0].own);
             if th.sending.None? then Current(s) == None && Current(s') == Some((t, data, 0))
             else
               && Current(s) == Some((t, data, th.sending.value))
               && Current(s') == (if th.sending.value == |data| then None else Some((t, data, th.sending.value + n)))
    ensures WireOk(Step(s, t, n))
  {
    hide Current, LogData, WireOk;
    var th, s' := s.threads[t], Step(s, t, n);
    var data := Source(s, th.todo[0].own);
    if th.sending.None? {
      WriteBegins(s, s', t, data);
    } else if th.sending.value == |data| {
      WriteEnds(s, s', t, data);
    } else {
      WriteGoesOn(s, s', t, data, th.sending.value, n);
    }
  }

  lemma WriteBegins(s: System, s': System, t: nat, data: seq<byte>)
    requires WireOk(s) && Current(s) == None && Current(s') == Some((t, data, 0))
    requires s'.log == s.log + [(t, data)] && s'.wire == s.wire
    ensures WireOk(s')
  {
    hide Current, LogData;
    assert s'.log[..|s'.log| - 1] == s.log;
    assert data[..0] == [];
  }

  lemma WriteEnds(s: System, s': System, t: nat, data: seq<byte>)
    requires WireOk(s) && Current(s) == Some((t, data, |data|)) && Current(s') == None
    requires s'.log == s.log && s'.wire == s.wire
    ensures WireOk(s')
  {
    hide Current, LogData;
    var init := s.log[..|s.log| - 1];
    assert s.log == init + [(t, data)];
    SentAppend(init, t, data, t);
    assert data[..|data|] == data;
  }

  lemma WriteGoesOn(s: System, s': System, t: nat, data: seq<byte>, k: nat, n: nat)
    requires k + n <= |data| && WireOk(s) && Current(s) == Some((t, data, k)) && Current(s') == Some((t, data, k + n))
    requires s'.log == s.log && s'.wire == s.wire + data[k..k + n]
    ensures WireOk(s')
  {
    hide Current, LogData;
    assert data[..k] + data[k..k + n] == data[..k + n];
  }

  lemma BuilderAlone(calls: seq<seq<Operation>>, s: System, t: nat)
    requires Inv(calls, s) && t < |s.threads| && s.threads[t].todo != [] && s.threads[t].todo[0].Build?
    ensures BufferFree(s, t)
  {
    hide SentBy, Sends, ToSend, WireOk;
    assert ThreadOk(AllFrames(calls[t]), s, t);
    forall u: nat | u < |s.threads| && u != t && s.threads[u].sending.Some?
      ensures Writing(s, u) && s.threads[u].todo[0].own.Some?
    {
      assert ThreadOk(AllFrames(calls[u]), s, u);
      assert OutboundLock in Held(s, t);
    }
  }

  /** One step changes only the mover, its own locks and, under the lock, the buffer. */
  lemma StepLocal(frames: seq<seq<byte>>, s: System, t: nat, n: nat, u: nat)
    requires Enabled(s, t, n) && ThreadOk(frames, s, t) && u < |s.threads| && u != t
    ensures var s' := Step(s, t, n);
            && |s'.threads| == |s.threads| && s'.threads[u] == s.threads[u]
            && (forall l :: (l in s.owner && s.owner[l] == u) <==> (l in s'.owner && s'.owner[l] == u))
            && (s'.outbound != s.outbound ==> OutboundLock !in Held(s, u))
            && (s'.log == s.log || exists data :: s'.log == s.log + [(t, data)])
  {
    hide SentBy, Sends, ToSend;
    if s.threads[t].todo[0].Build? {
      assert OutboundLock in Held(s, t);
    }
  }

  /** Owners and log entries name threads. */
  predicate Bounded(s: System)
  {
    && (forall l | l in s.owner :: s.owner[l] < |s.threads|)
    && (forall i | 0 <= i < |s.log| :: s.log[i].0 < |s.threads|)
  }

  lemma BoundedStep(s: System, t: nat, n: nat)
    requires Bounded(s) && Enabled(s, t, n)
    ensures Bounded(Step(s, t, n)) && |Step(s, t, n).threads| == |s.threads|
  {
  }

  lemma InvStep(calls: seq<seq<Operation>>, s: System, t: nat, n: nat)
    requires Inv(calls, s) && Enabled(s, t, n)
    ensures Inv(calls, Step(s, t, n))
  {
    var s' := Step(s, t, n);
    var mine := AllFrames(calls[t]);
    BoundedStep(s, t, n);
    hide Step, ThreadOk, WireOk, Writing, BufferFree, AllFrames, Bounded;
    assert ThreadOk(mine, s, t) && WireOk(s);
    if s.threads[t].todo[0].Build? {
      BuilderAlone(calls, s, t);
    }
    WireStep(mine, s, t, n);
    forall u: nat | u < |calls| ensures ThreadOk(AllFrames(calls[u]), s', u) {
      if u != t {
        OtherStep(mine, AllFrames(calls[u]), s, t, n, u);
      } else {
        MoverOk(mine, s, t, n);
      }
    }
  }

  lemma OtherStep(mine: seq<seq<byte>>, theirs: seq<seq<byte>>, s: System, t: nat, n: nat, u: nat)
    requires Enabled(s, t, n) && ThreadOk(mine, s, t) && u < |s.threads| && u != t && ThreadOk(theirs, s, u)
    ensures |Step(s, t, n).threads| == |s.threads| && ThreadOk(theirs, Step(s, t, n), u)
  {
    hide ThreadOk, Step, Held;
    StepLocal(mine, s, t, n, u);
    OthersOk(theirs, s, Step(s, t, n), t, u);
  }

  lemma {:induction false} RunInv(calls: seq<seq<Operation>>, schedule: seq<(nat, nat)>)
    ensures Inv(calls, Run(calls, schedule))
  {
    if schedule == [] {
      InitialOk(calls);
    } else {
      var last := |schedule| - 1;
      RunInv(calls, schedule[..last]);
      hide Inv, Enabled, Step;
      var s := Run(calls, schedule[..last]);
      var (t, n) := schedule[last];
      if Enabled(s, t, n) {
        InvStep(calls, s, t, n);
      }
    }
  }

  // ---- What every run achieves ---------------------------------------------------------

  /**
   * At every moment of every run the wire is the frames of the sends begun so far, whole and in the
   * order the stream lock was taken, except that the last may still be partly written; and each
   * thread has sent, in its own order, a prefix of what it is to send.
   */
  lemma WholeFrames(calls: seq<seq<Operation>>, schedule: seq<(nat, nat)>)
    ensures var s := Run(calls, schedule);
            && s.wire <= LogData(s.log)
            && (s.log != [] ==> LogData(s.log[..|s.log| - 1]) <= s.wire)
            && (Current(s).None? ==> s.wire == LogData(s.log))
            && |s.threads| == |calls|
            && (forall t: nat | t < |calls| :: SentBy(s.log, t) + ToSend(s.threads[t]) == AllFrames(calls[t]))
  {
    RunInv(calls, schedule);
    var s := Run(calls, schedule);
    hide SentBy, ToSend, Held, Sends, Disciplined, Current, WireOk, LogData, Run;
    assert forall t: nat | t < |calls| :: ThreadOk(AllFrames(calls[t]), s, t);
    WireBetween(s);
  }

  /** The wire lies between the log without its last entry and the whole log. */
  lemma WireBetween(s: System)
    requires WireOk(s)
    ensures s.wire <= LogData(s.log) && (s.log != [] ==> LogData(s.log[..|s.log| - 1]) <= s.wire)
    ensures Current(s).None? ==> s.wire == LogData(s.log)
  {
    hide Current;
    if Current(s).Some? {
      var data, k := Current(s).value.1, Current(s).value.2;
      assert data == data[..k] + data[k..];
      assert LogData(s.log) == s.wire + data[k..];
    } else if s.log != [] {
      assert LogData(s.log) == LogData(s.log[..|s.log| - 1]) + s.log[|s.log| - 1].1;
    }
  }

  /**
   * When all threads are done, the wire is an interleaving of whole frames: each thread's frames
   * appear once each and in that thread's order, and every lock is free.
   */
  lemma AllSent(calls: seq<seq<Operation>>, schedule: seq<(nat, nat)>)
    requires forall t: nat | t < |Run(calls, schedule).threads| :: Run(calls, schedule).threads[t].todo == []
    ensures var s := Run(calls, schedule);
            && s.wire == LogData(s.log) && s.owner == map[]
            && forall t: nat | t < |calls| :: SentBy(s.log, t) == AllFrames(calls[t])
  {
    RunInv(calls, schedule);
    var s := Run(calls, schedule);
    forall t: nat | t < |calls| ensures SentBy(s.log, t) == AllFrames(calls[t]) {
      assert ThreadOk(AllFrames(calls[t]), s, t);
      assert SentBy(s.log, t) + [] == SentBy(s.log, t);
    }
    NobodyOwns(calls, s);
    hide Held, Disciplined;
  }

  /** Threads that are done own nothing. */
  lemma NobodyOwns(calls: seq<seq<Operation>>, s: System)
    requires Inv(calls, s) && forall t: nat | t < |s.threads| :: s.threads[t].todo == []
    ensures s.owner == map[]
  {
    hide Held, Disciplined, SentBy, Sends, ToSend, WireOk;
    forall l ensures l !in s.owner {
      if l in s.owner {
        var u := s.owner[l];
        assert ThreadOk(AllFrames(calls[u]), s, u);
        OwnerBusy(s, u, l);
      }
    }
  }

  // ---- Deadlock ------------------------------------------------------------------------

  /** The lock a thread is about to take. */
  function Wanted(s: System, t: nat): (l: Option<Lock>)
    requires t < |s.threads|
  {
    var th := s.threads[t];
    if th.todo == [] then None
    else match th.todo[0]
      case Acquire(l) => Some(l)
      case SendRaw(_) => if th.sending.None? then Some(StreamLock) else None
      case _ => None
  }

  /** Thread `t` waits for a lock that `u` owns. */
  predicate WaitsFor(s: System, t: nat, u: nat)
    requires t < |s.threads|
  {
    var l := Wanted(s, t);
    l.Some? && l.value in s.owner && s.owner[l.value] == u
  }

  /** A thread that wants a lock owns only locks of lower rank. */
  lemma WantedAbove(calls: seq<seq<Operation>>, s: System, t: nat, l: Lock)
    requires Inv(calls, s) && t < |s.threads| && Wanted(s, t).Some? && l in s.owner && s.owner[l] == t
    ensures Rank(l) < Rank(Wanted(s, t).value)
  {
    hide SentBy, Sends, ToSend, WireOk;
    assert ThreadOk(AllFrames(calls[t]), s, t);
    assert l in Held(s, t);
  }

  predicate WaitPath(s: System, path: seq<nat>)
  {
    && (forall i | 0 <= i < |path| :: path[i] < |s.threads|)
    && (forall i | 0 < i < |path| :: WaitsFor(s, path[i - 1], path[i]))
  }

  /** Along a chain of waiting threads the ranks of the locks waited for rise. */
  lemma {:induction false} WaitPathRises(calls: seq<seq<Operation>>, s: System, path: seq<nat>, i: nat)
    requires Inv(calls, s) && WaitPath(s, path) && i < |path| && Wanted(s, path[|path| - 1]).Some?
    ensures Wanted(s, path[i]).Some?
    ensures i < |path| - 1 ==> Rank(Wanted(s, path[i]).value) < Rank(Wanted(s, path[|path| - 1]).value)
    decreases |path| - i
  {
    hide Inv, Wanted;
    if i < |path| - 1 {
      WaitPathRises(calls, s, path, i + 1);
      var l := Wanted(s, path[i]);
      assert WaitsFor(s, path[i + 1 - 1], path[i + 1]);
      WantedAbove(calls, s, path[i + 1], l.value);
    }
  }

  /** In no run do threads wait for each other's locks in a cycle. */
  lemma NoWaitCycle(calls: seq<seq<Operation>>, schedule: seq<(nat, nat)>, path: seq<nat>)
    requires |path| >= 2 && WaitPath(Run(calls, schedule), path)
    ensures path[0] != path[|path| - 1]
  {
    RunInv(calls, schedule);
    hide Inv, Run, Wanted;
    var s := Run(calls, schedule);
    if path[0] == path[|path| - 1] {
      assert WaitsFor(s, path[1 - 1], path[1]);
      WaitPathRises(calls, s, path, 0);
    }
  }

  /** Following owners of wanted locks leads to a thread that can move. */
  lemma {:induction false} OwnerCanMove(calls: seq<seq<Operation>>, s: System, t: nat)
    requires Inv(calls, s) && t < |s.threads| && s.threads[t].todo != []
    ensures exists u, n :: Enabled(s, u, n)
    decreases if Wanted(s, t).Some? then 6 - Rank(Wanted(s, t).value) else 0
  {
    hide SentBy, Sends, ToSend, WireOk;
    assert ThreadOk(AllFrames(calls[t]), s, t);
    var l := Wanted(s, t);
    if l.Some? && l.value in s.owner {
      var u := s.owner[l.value];
      assert ThreadOk(AllFrames(calls[u]), s, u);
      OwnerBusy(s, u, l.value);
      if Wanted(s, u).Some? {
        WantedAbove(calls, s, u, l.value);
      }
      OwnerCanMove(calls, s, u);
    } else if l.Some? {
      assert Enabled(s, t, 0);
    } else {
      assert Enabled(s, t, 1);
    }
  }

  lemma OwnerBusy(s: System, u: nat, l: Lock)
    requires u < |s.threads| && l in s.owner && s.owner[l] == u
    requires Disciplined(s.threads[u].todo, Held(s, u), s.threads[u].built)
    requires (s.threads[u].sending.Some? ==> Writing(s, u))
    ensures s.threads[u].todo != []
  {
    if s.threads[u].sending.None? {
      assert l in Held(s, u);
    }
  }

  /** No deadlock: in every run, as long as some thread is not done, some thread can move. */
  lemma NoDeadlock(calls: seq<seq<Operation>>, schedule: seq<(nat, nat)>, t: nat)
    requires t < |Run(calls, schedule).threads| && Run(calls, schedule).threads[t].todo != []
    ensures exists u, n :: Enabled(Run(calls, schedule), u, n)
  {
    RunInv(calls, schedule);
    OwnerCanMove(calls, Run(calls, schedule), t);
  }

  // ---- What the peer sees --------------------------------------------------------------

  function LogFrames(log: seq<(nat, seq<byte>)>): (fs: seq<Frame>)
  {
    if log == [] then []
    else
      var d := Decode(log[|log| - 1].1);
      LogFrames(log[..|log| - 1]) + (if d.Whole? then [d.frame] else [])
  }

  /** The wire image of one frame. */
  ghost predicate Image(data: seq<byte>)
  {
    exists f :: Sendable(f) && Encode(f) == data
  }

  lemma {:induction false} LogEncodes(log: seq<(nat, seq<byte>)>)
    requires forall i | 0 <= i < |log| :: Image(log[i].1)
    ensures LogData(log) == EncodeAll(LogFrames(log)) && forall f | f in LogFrames(log) :: Sendable(f)
  {
    hide Encode, Decode;
    if log != [] {
      var init, data := log[..|log| - 1], log[|log| - 1].1;
      LogEncodes(init);
      assert Image(data);
      var f :| Sendable(f) && Encode(f) == data;
      RoundTrip(f, []);
      assert Encode(f) + [] == data;
      EncodeAllAppend(LogFrames(init), [f]);
      assert EncodeAll([f]) == Encode(f) + EncodeAll([f][1..]) && [f][1..] == [];
    }
  }

  lemma {:induction false} EntrySent(log: seq<(nat, seq<byte>)>, i: nat)
    requires i < |log|
    ensures log[i].1 in SentBy(log, log[i].0)
  {
    if i < |log| - 1 {
      EntrySent(log[..|log| - 1], i);
    }
  }

  /** Frames sent by concurrent threads are decoded by the peer as exactly those frames, in lock order. */
  lemma PeerSeesWholeFrames(calls: seq<seq<Operation>>, schedule: seq<(nat, nat)>)
    requires forall t, data | 0 <= t < |calls| && data in AllFrames(calls[t]) :: Image(data)
    requires Current(Run(calls, schedule)).None?
    ensures var s := Run(calls, schedule); DecodeStream(s.wire) == LogFrames(s.log)
  {
    RunInv(calls, schedule);
    var s := Run(calls, schedule);
    hide Run, Image, LogFrames, Encode, SentBy, ToSend, AllFrames, Decode, Current;
    forall i | 0 <= i < |s.log| ensures Image(s.log[i].1) {
      var t := s.log[i].0;
      EntrySent(s.log, i);
      assert ThreadOk(AllFrames(calls[t]), s, t);
      assert s.log[i].1 in AllFrames(calls[t]);
    }
    LogEncodes(s.log);
    assert s.wire + [] == s.wire;
    DecodeEncoded(LogFrames(s.log), []);
    NothingDecoded();
  }
}
