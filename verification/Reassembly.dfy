/**
 * The reassembly rules of section 5.4 of RFC 6455, as a fold over frames that knows nothing of
 * buffers: which messages a stream of frames carries, which pings it contains, and where and with
 * which code it breaks the protocol. The C++ reader is proved to simulate it.
 */
module Reassembly {
  import opened Bytes
  import opened Frames
  import opened CloseCodes
  import opened Session
  import Utf8

  /** Why a stream of frames breaks the protocol. */
  datatype Cause = BadFraming | RefusedHeader | NothingToContinue | Interrupted | NotNegotiated | CodecFailed
                 | IllFormedText

  /** The close code that goes with a cause. */
  function CodeFor(cause: Cause): (code: Code)
    ensures MayBeSent(code)
  {
    if cause.IllFormedText? then 1007 else 1002
  }

  /** The text that goes with a cause; for a refused header it depends on the check that failed. */
  predicate Explains(cause: Cause, why: string)
  {
    match cause
    case BadFraming => why == "invalid frame"
    case RefusedHeader => true
    case NothingToContinue => why == "Unexpected continuation frame"
    case Interrupted => why == "New data frame before fragmented message completed"
    case NotNegotiated => why == "Compressed frame without negotiated extension"
    case CodecFailed => why == "permessage-deflate decompression failed"
    case IllFormedText => why == "Invalid UTF-8 in text frame"
  }

  /** `Terminated` is the end of the process, which only the C++ reader can cause. */
  datatype Ending = StillOpen | Violated(cause: Cause) | PeerClosed(code: Code, reason: seq<byte>) | Terminated

  /** A message in progress: its kind, whether it is compressed, and its data so far. */
  datatype Partial = NoPartial | InProgress(kind: Opcode, compressed: bool, data: seq<byte>)

  datatype Effect = Effect(messages: seq<Message>, pings: seq<seq<byte>>, partial: Partial, ending: Ending)

  /** Whether compressed messages can be read: the extension was negotiated and is compiled in. */
  predicate Negotiated(cfg: Config)
  {
    cfg.deflate && cfg.deflateBuilt
  }

  /** A complete payload either is a message or violates the protocol. */
  function Complete(cfg: Config, kind: Opcode, compressed: bool, data: seq<byte>): (e: Effect)
  {
    var plain := if compressed then cfg.decompress(data) else Some(data);
    if compressed && !Negotiated(cfg) then Effect([], [], NoPartial, Violated(NotNegotiated))
    else if plain.None? then Effect([], [], NoPartial, Violated(CodecFailed))
    else if kind.Text? && !Utf8.WellFormed(plain.value) then Effect([], [], NoPartial, Violated(IllFormedText))
    else Effect([Message(kind, plain.value)], [], NoPartial, StillOpen)
  }

  /** The rules for one frame. */
  function Rule(cfg: Config, partial: Partial, f: Frame): (e: Effect)
  {
    var h := f.header;
    if !Acceptable(h, cfg.role, cfg.deflate) then Effect([], [], partial, Violated(RefusedHeader))
    else match h.opcode
      case Close => Effect([], [], partial, PeerClosed(ReceivedCode(f.payload), ReceivedReason(f.payload)))
      case Ping => Effect([], [f.payload], partial, StillOpen)
      case Pong => Effect([], [], partial, StillOpen)
      case Continuation =>
        if partial.NoPartial? then Effect([], [], partial, Violated(NothingToContinue))
        else if !h.fin then Effect([], [], partial.(data := partial.data + f.payload), StillOpen)
        else Complete(cfg, partial.kind, partial.compressed, partial.data + f.payload)
      case _ =>
        if partial.InProgress? then Effect([], [], partial, Violated(Interrupted))
        else if !h.fin then Effect([], [], InProgress(h.opcode, h.rsv1, f.payload), StillOpen)
        else Complete(cfg, h.opcode, h.rsv1, f.payload)
  }

  /** The rules applied frame by frame, up to the first frame that ends the session. */
  function Fold(cfg: Config, partial: Partial, fs: seq<Frame>): (e: Effect)
    decreases |fs|
  {
    if fs == [] then Effect([], [], partial, StillOpen)
    else
      var e := Rule(cfg, partial, fs[0]);
      if !e.ending.StillOpen? then e
      else
        var r := Fold(cfg, e.partial, fs[1..]);
        Effect(e.messages + r.messages, e.pings + r.pings, r.partial, r.ending)
  }

  lemma FoldCons(cfg: Config, partial: Partial, f: Frame, fs: seq<Frame>)
    ensures var e := Rule(cfg, partial, f);
            Fold(cfg, partial, [f] + fs) ==
            if !e.ending.StillOpen? then e
            else
              var r := Fold(cfg, e.partial, fs);
              Effect(e.messages + r.messages, e.pings + r.pings, r.partial, r.ending)
  {
    hide Rule;
    assert ([f] + fs)[0] == f && ([f] + fs)[1..] == fs;
  }
}
