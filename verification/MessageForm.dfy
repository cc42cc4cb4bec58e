/**
 * What the reassembly rules come to, said without them: which frames belong to one message, in terms of their
 * positions in the stream, and what the message is. Since both implementations are held to the rules, this is
 * what both of them deliver.
 */
module MessageForm {
  import opened Bytes
  import opened Frames
  import opened CloseCodes
  import opened Session
  import opened Reassembly

  predicate Starts(f: Frame)
  {
    f.header.opcode.Text? || f.header.opcode.Binary?
  }

  /** A frame with a part of a message in it. */
  predicate Carries(f: Frame)
  {
    Starts(f) || f.header.opcode.Continuation?
  }

  /** A message was begun at `j`: no other was since, and no frame from there on was its last. */
  predicate Unfinished(fs: seq<Frame>, j: nat)
  {
    && j < |fs| && Starts(fs[j]) && !fs[j].header.fin
    && forall i | j < i < |fs| :: !Starts(fs[i]) && (Carries(fs[i]) ==> !fs[i].header.fin)
  }

  /** The parts of a message that the frames from `j` on carry, in order. */
  function PartsFrom(fs: seq<Frame>, j: nat): (data: seq<byte>)
    decreases |fs| - j
  {
    if j >= |fs| then [] else (if Carries(fs[j]) then fs[j].payload else []) + PartsFrom(fs, j + 1)
  }

  /** The message in progress that was begun at `j`. */
  function BegunAt(fs: seq<Frame>, j: nat): (p: Partial)
    requires j < |fs|
  {
    InProgress(fs[j].header.opcode, fs[j].header.rsv1, PartsFrom(fs, j))
  }

  lemma PartsStep(fs: seq<Frame>, j: nat)
    ensures PartsFrom(fs, j) ==
            if j >= |fs| then [] else (if Carries(fs[j]) then fs[j].payload else []) + PartsFrom(fs, j + 1)
  {
    hide Carries;
  }

  lemma {:induction false} PartsAppend(fs: seq<Frame>, f: Frame, j: nat)
    requires j <= |fs|
    ensures PartsFrom(fs + [f], j) == PartsFrom(fs, j) + if Carries(f) then f.payload else []
    decreases |fs| - j
  {
    var gs := fs + [f];
    PartsStep(gs, j);
    PartsStep(fs, j);
    PartsStep(gs, |gs|);
    hide PartsFrom, Carries;
    if j == |fs| {
      assert gs[j] == f;
    } else {
      PartsAppend(fs, f, j + 1);
      assert gs[j] == fs[j];
    }
  }

  lemma FoldNone(cfg: Config, partial: Partial)
    ensures Fold(cfg, partial, []) == Effect([], [], partial, StillOpen)
  {
  }

  /** One frame more. */
  lemma {:induction false} FoldAppend(cfg: Config, partial: Partial, fs: seq<Frame>, f: Frame)
    ensures var e := Fold(cfg, partial, fs);
            var r := Rule(cfg, e.partial, f);
            Fold(cfg, partial, fs + [f]) ==
            if !e.ending.StillOpen? then e else Effect(e.messages + r.messages, e.pings + r.pings, r.partial, r.ending)
    decreases |fs|
  {
    hide Rule, Fold;
    if fs == [] {
      assert fs + [f] == [f] + [];
      FoldCons(cfg, partial, f, []);
      FoldNone(cfg, partial);
      FoldNone(cfg, Rule(cfg, partial, f).partial);
    } else {
      var g := fs[0];
      assert fs == [g] + fs[1..] && fs + [f] == [g] + (fs[1..] + [f]);
      FoldCons(cfg, partial, g, fs[1..] + [f]);
      FoldCons(cfg, partial, g, fs[1..]);
      FoldAppend(cfg, Rule(cfg, partial, g).partial, fs[1..], f);
    }
  }

  /** The message in progress after some frames is the one begun at the position `at`, if there is one. */
  predicate Tracks(fs: seq<Frame>, partial: Partial, at: Option<nat>)
  {
    match at
    case Some(j) => j < |fs| && Unfinished(fs, j) && partial == BegunAt(fs, j)
    case None => partial.NoPartial? && forall j: nat | j < |fs| :: !Unfinished(fs, j)
  }

  lemma UnfinishedAppend(fs: seq<Frame>, f: Frame, j: nat)
    requires j < |fs|
    ensures Unfinished(fs + [f], j) <==> Unfinished(fs, j) && !Starts(f) && (Carries(f) ==> !f.header.fin)
  {
    var gs := fs + [f];
    assert gs[|fs|] == f;
    if Unfinished(gs, j) {
      assert forall i | j <= i < |fs| :: gs[i] == fs[i];
    }
  }

  lemma Same(fs: seq<Frame>, i: nat, j: nat)
    requires Unfinished(fs, i) && Unfinished(fs, j)
    ensures i == j
  {
  }

  /** Which message is in progress after a frame that is accepted and goes on. */
  lemma TracksStep(cfg: Config, fs: seq<Frame>, partial: Partial, at: Option<nat>, f: Frame) returns (at': Option<nat>)
    requires Tracks(fs, partial, at) && Rule(cfg, partial, f).ending.StillOpen?
    ensures Tracks(fs + [f], Rule(cfg, partial, f).partial, at')
  {
    hide Acceptable, Unfinished, PartsFrom, Complete, ReceivedCode, ReceivedReason;
    var next := Rule(cfg, partial, f).partial;
    var last := Carries(f) && f.header.fin;
    RuleProgress(cfg, partial, f);
    hide Rule;
    NewOne(fs, f);
    if Starts(f) && !f.header.fin {
      at' := Some(|fs|);
      PartsAppend(fs, f, |fs|);
      NoParts(fs);
      assert (fs + [f])[|fs|] == f;
    } else if at.Some? && !last {
      at' := at;
      var j := at.value;
      UnfinishedAppend(fs, f, j);
      PartsAppend(fs, f, j);
      assert (fs + [f])[j] == fs[j];
      assert PartsFrom(fs, j) + [] == PartsFrom(fs, j);
    } else {
      at' := None;
      forall j: nat | j < |fs| ensures !Unfinished(fs + [f], j) {
        UnfinishedAppend(fs, f, j);
      }
    }
  }

  /** How a frame that goes on changes the message in progress. */
  lemma RuleProgress(cfg: Config, partial: Partial, f: Frame)
    requires Rule(cfg, partial, f).ending.StillOpen?
    ensures Rule(cfg, partial, f).partial ==
            if !Carries(f) then partial
            else if f.header.fin then NoPartial
            else if Starts(f) then InProgress(f.header.opcode, f.header.rsv1, f.payload)
            else if partial.InProgress? then partial.(data := partial.data + f.payload)
            else partial
    ensures Starts(f) ==> partial.NoPartial?
    ensures f.header.opcode.Continuation? ==> partial.InProgress?
  {
    hide Acceptable;
  }

  lemma InRange(fs: seq<Frame>, j: nat)
    requires Unfinished(fs, j)
    ensures j < |fs|
  {
  }

  lemma NoParts(fs: seq<Frame>)
    ensures PartsFrom(fs, |fs|) == []
  {
  }

  lemma NewOne(fs: seq<Frame>, f: Frame)
    ensures Unfinished(fs + [f], |fs|) <==> Starts(f) && !f.header.fin
  {
  }

  /** After any frames that leave the session open. */
  lemma {:induction false} FoldTracks(cfg: Config, fs: seq<Frame>) returns (at: Option<nat>)
    requires Fold(cfg, NoPartial, fs).ending.StillOpen?
    ensures Tracks(fs, Fold(cfg, NoPartial, fs).partial, at)
    decreases |fs|
  {
    hide Rule, Unfinished, BegunAt;
    if fs == [] {
      at := None;
    } else {
      var init, f := fs[..|fs| - 1], fs[|fs| - 1];
      assert fs == init + [f];
      FoldAppend(cfg, NoPartial, init, f);
      hide Fold, Tracks;
      var was := FoldTracks(cfg, init);
      at := TracksStep(cfg, init, Fold(cfg, NoPartial, init).partial, was, f);
    }
  }

  lemma CompleteCauses(cfg: Config, kind: Opcode, compressed: bool, data: seq<byte>)
    ensures var e := Complete(cfg, kind, compressed, data).ending;
            e.StillOpen? || (e.Violated? && (e.cause.NotNegotiated? || e.cause.CodecFailed? || e.cause.IllFormedText?))
  {
  }

  /** Some message has been begun and not finished. */
  predicate Busy(fs: seq<Frame>)
  {
    exists j: nat :: j < |fs| && Unfinished(fs, j)
  }

  /**
   * The order of frames. After any frames that left the session open, a further accepted frame is refused for its
   * place exactly if it continues a message where none is unfinished, or starts one where one is.
   */
  lemma OrderExact(cfg: Config, fs: seq<Frame>, f: Frame)
    requires Fold(cfg, NoPartial, fs).ending.StillOpen? && Acceptable(f.header, cfg.role, cfg.deflate)
    ensures var ending := Fold(cfg, NoPartial, fs + [f]).ending;
            && (ending == Violated(NothingToContinue) <==> f.header.opcode.Continuation? && !Busy(fs))
            && (ending == Violated(Interrupted) <==> Starts(f) && Busy(fs))
  {
    hide Acceptable, Unfinished, PartsFrom, Complete, ReceivedCode, ReceivedReason, BegunAt;
    var at := FoldTracks(cfg, fs);
    FoldAppend(cfg, NoPartial, fs, f);
    var partial := Fold(cfg, NoPartial, fs).partial;
    assert partial.InProgress? <==> Busy(fs) by { BusyIs(fs, partial, at); }
    hide Fold, Tracks;
    if partial.InProgress? {
      CompleteCauses(cfg, partial.kind, partial.compressed, partial.data + f.payload);
    }
    CompleteCauses(cfg, f.header.opcode, f.header.rsv1, f.payload);
  }

  lemma BusyIs(fs: seq<Frame>, partial: Partial, at: Option<nat>)
    requires Tracks(fs, partial, at)
    ensures partial.InProgress? <==> Busy(fs)
  {
    hide Unfinished, PartsFrom;
  }

  /** `f` ends a message after `fs`, and `j` is the place of its first frame. */
  predicate Ends(fs: seq<Frame>, f: Frame, j: nat)
  {
    f.header.fin && if Starts(f) then j == |fs| && !Busy(fs) else f.header.opcode.Continuation? && Unfinished(fs, j)
  }

  /**
   * What a message is: when its last frame arrives, the parts from its first frame on, in order, are completed as
   * a message of the kind of the first frame, and as a compressed one exactly if that frame has RSV1.
   */
  lemma MessageExact(cfg: Config, fs: seq<Frame>, f: Frame, j: nat)
    requires Fold(cfg, NoPartial, fs).ending.StillOpen? && Acceptable(f.header, cfg.role, cfg.deflate)
    requires Ends(fs, f, j)
    ensures var (e, e', gs) := (Fold(cfg, NoPartial, fs), Fold(cfg, NoPartial, fs + [f]), fs + [f]);
            && j < |gs|
            && var c := Complete(cfg, gs[j].header.opcode, gs[j].header.rsv1, PartsFrom(gs, j));
               e'.messages == e.messages + c.messages && e'.ending == c.ending
  {
    hide Acceptable, Unfinished, PartsFrom, Complete, ReceivedCode, ReceivedReason;
    var at := FoldTracks(cfg, fs);
    FoldAppend(cfg, NoPartial, fs, f);
    var partial := Fold(cfg, NoPartial, fs).partial;
    BusyIs(fs, partial, at);
    hide Fold;
    if Starts(f) {
      NoParts(fs);
      PartsAppend(fs, f, j);
      assert PartsFrom(fs + [f], j) == f.payload && (fs + [f])[j] == f;
      assert Rule(cfg, partial, f) == Complete(cfg, f.header.opcode, f.header.rsv1, f.payload);
    } else {
      InRange(fs, j);
      Same(fs, at.value, j);
      PartsAppend(fs, f, j);
      assert (fs + [f])[j] == fs[j];
      assert Rule(cfg, partial, f) == Complete(cfg, partial.kind, partial.compressed, partial.data + f.payload);
    }
  }
}
