/**
 * The incremental frame parser of the C++ library. It has the states of the Rust parser but does not
 * report how much it consumed: what a call leaves unread is lost to a caller that passes only new
 * bytes next time. `used` is ghost for that reason.
 */
module CppParser {
  import opened Bytes
  import opened Masking
  import opened Frames
  import opened P = Parser
  import C = CppReader

  const EMPTY_HEADER := FrameHeader(false, false, false, false, Continuation, false, 0, [0, 0, 0, 0])

  // ---- Where a stream may be cut -------------------------------------------------------

  /** Octets a state needs at once. */
  function Wants(state: State, h: FrameHeader): (n: nat)
  {
    match state
    case AtHeader => 2
    case AtLength => if h.payloadLen == 126 then 2 else 8
    case AtKey => 4
    case AtPayload => 0
  }

  /** `s` does not end inside the first two octets, the extended length or the masking key. */
  predicate SafeCut(s: seq<byte>)
  {
    s == [] || (|s| >= 2 && (|s| == 2 || |s| == FixedSize(s) || |s| >= HeaderSize(s[1])))
  }

  lemma ConsistentIsSafe(state: State, h: FrameHeader, remaining: nat, buffer: seq<byte>, seen: seq<byte>)
    requires Consistent(state, h, remaining, buffer, seen)
    ensures SafeCut(seen)
  {
    hide OpcodeOf, HeaderOf, DeclaredLength, DeclaredKey, OnWire;
  }

  lemma StuckIsUnsafe(state: State, h: FrameHeader, remaining: nat, buffer: seq<byte>, seen: seq<byte>, rest: seq<byte>)
    requires Consistent(state, h, remaining, buffer, seen) && 0 < |rest| < Wants(state, h)
    ensures !SafeCut(seen + rest)
  {
    hide OpcodeOf, HeaderOf, DeclaredLength, DeclaredKey, OnWire;
    var s := seen + rest;
    assert |seen| >= 2 ==> s[1] == seen[1];
  }

  /**
   * Octets that make the parser leave its state: those it wants at once, or the rest of the payload, for
   * which it looks only when an octet is there.
   */
  function ToLeave(state: State, h: FrameHeader, remaining: nat): (n: nat)
  {
    if !state.AtPayload? then Wants(state, h) else if remaining == 0 then 1 else remaining
  }

  /** How far in a frame a state is. */
  function Stage(state: State): (n: nat)
  {
    match state
    case AtHeader => 0
    case AtLength => 1
    case AtKey => 2
    case AtPayload => 3
  }

  /** `bytes_needed` */
  function BytesNeeded(state: State, h: FrameHeader, remaining: nat): (n: nat)
  {
    match state
    case AtHeader => 2
    case AtLength => if h.payloadLen <= 125 then 0 else if h.payloadLen <= 65535 then 2 else 8
    case AtKey => if h.mask then 4 else 0
    case AtPayload => remaining
  }

  /**
   * It is the number of octets that make the parser leave its state in all states but two: before a 64-bit
   * length it answers 2, and before the end of an empty payload 0. That `ToLeave` is that number is part of
   * the contract of `FrameParser.Parse`.
   */
  lemma BytesNeededExact(state: State, h: FrameHeader, remaining: nat, buffer: seq<byte>, seen: seq<byte>)
    requires Consistent(state, h, remaining, buffer, seen)
    ensures BytesNeeded(state, h, remaining) == ToLeave(state, h, remaining) <==>
            !(state.AtLength? && seen[1] % 128 == 127) && !(state.AtPayload? && remaining == 0)
  {
    hide OpcodeOf, HeaderOf, DeclaredLength, DeclaredKey, OnWire;
  }

  // ---- The class -----------------------------------------------------------------------

  class FrameParser {
    var state: State
    var header: FrameHeader
    var payloadRemaining: nat
    var buffer: seq<byte>
    /** Octets of the current frame absorbed so far. */
    ghost var seen: seq<byte>
    /** Set once an error was reported; nothing is promised afterwards. */
    ghost var failed: bool

    ghost predicate Valid()
      reads this
    {
      failed || Consistent(state, header, payloadRemaining, buffer, seen)
    }

    constructor ()
      ensures Valid() && !failed && seen == []
    {
      state, payloadRemaining, buffer, header := AtHeader, 0, [], EMPTY_HEADER;
      seen, failed := [], false;
    }

    /** `reset` */
    method Reset()
      modifies this
      ensures Valid() && !failed && seen == [] && state == AtHeader
    {
      state, payloadRemaining, buffer, header := AtHeader, 0, [], EMPTY_HEADER;
      seen, failed := [], false;
    }

    /** What one sub-parser does with the rest of the input when it neither fails nor completes a frame. */
    ghost predicate Absorbed(before: seq<byte>, data: seq<byte>, used: nat)
      reads this
      requires used <= |data|
    {
      !failed && Valid() && seen == before + data[..used] && (used == 0 ==> Visible(before + data).NeedMore?)
    }

    /** `parse_header` */
    method ParseHeader(data: seq<byte>) returns (error: bool, used: nat)
      requires Valid() && state == AtHeader
      modifies this
      ensures used <= |data| && (old(failed) ==> failed) && (error ==> used > 0)
      ensures used == 0 ==> state == old(state) && header == old(header) && |data| < Wants(state, header)
      ensures used > 0 ==> |data| >= Wants(old(state), old(header)) && (error || Stage(state) > Stage(old(state)))
      ensures !old(failed) && !error ==> Absorbed(old(seen), data, used)
      ensures !old(failed) && error ==> failed && Visible(old(seen) + data).Malformed?
    {
      assert !failed ==> seen == [] && seen + data == data;
      DecodeAtHeader(data);
      hide Visible, OpcodeOf, Consistent, FixedRead, ExtWidth;
      if |data| < 2 {
        return false, 0;
      }
      var first, second := data[0], data[1];
      header := header.(fin := first >= 0x80, rsv1 := first / 64 % 2 == 1, rsv2 := first / 32 % 2 == 1,
                        rsv3 := first / 16 % 2 == 1, mask := second >= 0x80, payloadLen := second % 128);
      var op := OpcodeOf(first % 16);
      if op.None? {
        failed := true;
        return true, 2;
      }
      header := header.(opcode := op.value);
      seen := [first, second];
      assert data[..2] == seen;
      FixedFields(first, second, header);
      HeaderParsed(header, seen);
      if header.payloadLen <= 125 {
        state := if header.mask then AtKey else AtPayload;
        payloadRemaining := header.payloadLen;
        buffer := [];
      } else {
        state := AtLength;
        payloadRemaining := 0;
        LengthIgnoresBuffer(header, buffer, seen);
      }
      return false, 2;
    }

    /** `parse_payload_length` */
    method ParsePayloadLength(data: seq<byte>) returns (error: bool, used: nat)
      requires Valid() && state == AtLength
      modifies this
      ensures used <= |data| && (old(failed) ==> failed) && (error ==> used > 0)
      ensures used == 0 ==> state == old(state) && header == old(header) && |data| < Wants(state, header)
      ensures used > 0 ==> |data| >= Wants(old(state), old(header)) && (error || Stage(state) > Stage(old(state)))
      ensures !old(failed) && !error ==> Absorbed(old(seen), data, used)
      ensures !old(failed) && error ==> failed && Visible(old(seen) + data).Malformed?
    {
      if !failed {
        LengthStep(header, seen, data);
      }
      hide Visible, BigEndian, Consistent, FixedRead, ExtWidth;
      var width := if header.payloadLen == 126 then 2 else 8;
      if |data| < width {
        return false, 0;
      }
      var len := ReadBigEndian(data[..width]);
      header := header.(payloadLen := len);
      if len > MAX_PAYLOAD {
        failed := true;
        return true, width;
      }
      state := if header.mask then AtKey else AtPayload;
      payloadRemaining := len;
      buffer := [];
      seen := seen + data[..width];
      return false, width;
    }

    /** `parse_masking_key` */
    method ParseMaskingKey(data: seq<byte>) returns (used: nat)
      requires Valid() && state == AtKey
      modifies this
      ensures used <= |data| && failed == old(failed)
      ensures used == 0 ==> state == old(state) && header == old(header) && |data| < Wants(state, header)
      ensures used > 0 ==> |data| >= Wants(old(state), old(header)) && Stage(state) > Stage(old(state))
      ensures !old(failed) ==> Absorbed(old(seen), data, used)
    {
      hide Visible, OpcodeOf, HeaderOf, OnWire, DeclaredLength, DeclaredKey;
      if |data| < 4 {
        if !failed {
          HeaderStable(seen, data);
          DecodeInPayload(seen + data);
        }
        return 0;
      }
      if !failed {
        KeyParsed(header, seen, data[..4]);
        seen := seen + data[..4];
      }
      header := header.(maskingKey := data[..4]);
      state := AtPayload;
      payloadRemaining := header.payloadLen;
      return 4;
    }

    /** `parse_payload`; on completion the frame is what `header` and `buffer` hold. */
    method ParsePayload(order: ByteOrder, data: seq<byte>) returns (complete: bool, used: nat)
      requires Valid() && state == AtPayload && data != []
      modifies this
      ensures used <= |data| && failed == old(failed) && (!complete ==> used == |data| && state == AtPayload)
      ensures complete <==> |data| >= ToLeave(AtPayload, old(header), old(payloadRemaining))
      ensures !failed && !complete ==> Absorbed(old(seen), data, used)
      ensures !failed && complete ==>
                Visible(old(seen) + data) == Whole(Frame(header.Meaning(), buffer), |old(seen)| + used)
    {
      hide Visible, PayloadRead;
      ghost var before := seen;
      if payloadRemaining == 0 {
        state := AtHeader;
        if !failed {
          PayloadDone(header, buffer, seen, data);
        }
        return true, 0;
      }
      used := if payloadRemaining <= |data| then payloadRemaining else |data|;
      if !failed {
        PayloadParsed(header, buffer, seen, data[..used]);
        seen := before + data[..used];
      }
      buffer := Absorb(order, header, buffer, data[..used]);
      payloadRemaining := payloadRemaining - used;
      if payloadRemaining == 0 {
        state := AtHeader;
        if !failed {
          assert seen + data[used..] == before + data;
          PayloadDone(header, buffer, seen, data[used..]);
        }
        return true, used;
      } else {
        return false, used;
      }
    }

    /**
     * `parse`: the frame found, if the result is complete. An incomplete call has absorbed all of its
     * input if and only if the input ends at a safe cut; otherwise the octets after the last safe cut
     * are lost. The parser leaves its state exactly on as many octets as `ToLeave` says.
     */
    method Parse(order: ByteOrder, data: seq<byte>) returns (result: ParseResult, frame: Option<Frame>, ghost used: nat)
      requires Valid()
      modifies this
      ensures used <= |data| && (old(failed) && !result.Complete? ==> failed) && (result.Complete? <==> frame.Some?)
      ensures result.Incomplete? && state == old(state) <==>
              |data| < ToLeave(old(state), old(header), old(payloadRemaining))
      ensures !old(failed) ==> match result
                case Incomplete =>
                  && !failed && Valid() && seen == old(seen) + data[..used] && Visible(old(seen) + data).NeedMore?
                  && (used == |data| <==> SafeCut(old(seen) + data))
                case Complete =>
                  && !failed && Valid() && seen == []
                  && Visible(old(seen) + data) == Whole(frame.value, |old(seen)| + used)
                case Error => failed && Visible(old(seen) + data).Malformed?
    {
      hide Visible, Consistent, SafeCut;
      ghost var before, need := seen, ToLeave(state, header, payloadRemaining);
      var consumed := 0;
      frame := None;
      assert before + data[..0] == before;
      while consumed < |data|
        invariant consumed <= |data| && Valid() && failed == old(failed) && frame == None
        invariant !failed ==> seen == before + data[..consumed]
        invariant consumed == 0 ==>
                    state == old(state) && header == old(header) && payloadRemaining == old(payloadRemaining)
        invariant 0 < consumed < |data| ==> Stage(state) > Stage(old(state))
        invariant consumed > 0 && state != old(state) ==>
                    Stage(state) > Stage(old(state)) && |data| >= need
        invariant consumed > 0 && state == old(state) ==> |data| < need
      {
        var rest, start := data[consumed..], consumed;
        assert !failed ==> seen + rest == before + data;
        var error, complete, n := false, false, 0;
        match state {
          case AtHeader => error, n := ParseHeader(rest);
          case AtLength => error, n := ParsePayloadLength(rest);
          case AtKey => n := ParseMaskingKey(rest);
          case AtPayload => complete, n := ParsePayload(order, rest);
        }
        consumed := consumed + n;
        if error {
          return Error, None, consumed;
        }
        if complete {
          frame := Some(Frame(Header(header.fin, header.rsv1, header.rsv2, header.rsv3, header.opcode,
                                     if header.mask then Some(header.maskingKey) else None), buffer));
          Reset();
          return Complete, frame, consumed;
        }
        NextPiece(before, data, start, n);
        if consumed == start {
          if !failed {
            StuckIsUnsafe(state, header, payloadRemaining, buffer, seen, rest);
          }
          return Incomplete, None, consumed;
        }
      }
      if !failed {
        assert before + data[..consumed] == before + data;
        ConsistentNeedsMore(state, header, payloadRemaining, buffer, seen);
        ConsistentIsSafe(state, header, payloadRemaining, buffer, seen);
      }
      return Incomplete, None, consumed;
    }
  }

  // ---- The two decoders ----------------------------------------------------------------

  /** The wire image of one frame with a payload, in any of the length forms. */
  ghost predicate Image(s: seq<byte>)
  {
    var d := Decode(s);
    d.Whole? && d.size == |s| && d.frame.payload != []
  }

  /** Fed frames with payloads one at a time, the parser reports each of them and loses nothing. */
  method ParseFrames(order: ByteOrder, images: seq<seq<byte>>) returns (frames: seq<Frame>)
    requires forall i | 0 <= i < |images| :: Image(images[i])
    ensures |frames| == |images| && forall i | 0 <= i < |images| :: Decode(images[i]) == Whole(frames[i], |images[i]|)
  {
    hide Decode;
    frames := [];
    var parser := new FrameParser();
    for i := 0 to |images|
      invariant parser.Valid() && !parser.failed && parser.seen == [] && fresh(parser)
      invariant |frames| == i && forall j | 0 <= j < i :: Decode(images[j]) == Whole(frames[j], |images[j]|)
    {
      assert Image(images[i]) && [] + images[i] == images[i];
      var result, frame, used := parser.Parse(order, images[i]);
      frames := frames + [frame.value];
    }
  }

  lemma {:induction false} StreamOfImages(images: seq<seq<byte>>, frames: seq<Frame>)
    requires |frames| == |images| && forall i | 0 <= i < |images| :: Decode(images[i]) == Whole(frames[i], |images[i]|)
    ensures DecodeStream(Concat(images)) == frames
  {
    hide Decode;
    if images != [] {
      var tail := Concat(images[1..]);
      DecodePrefix(images[0], tail);
      StreamOfImages(images[1..], frames[1..]);
      assert Concat(images) == images[0] + tail;
      assert (images[0] + tail)[|images[0]|..] == tail;
    } else {
      NothingDecoded();
    }
  }

  /**
   * The two C++ decoders agree: the header fields and the unmasked payload that the connection's inline
   * reader takes from the front of a stream are those of the frame the parser reports for its image.
   */
  method DecodersAgreeOn(order: ByteOrder, image: seq<byte>, rest: seq<byte>) returns (frame: Frame)
    requires Image(image)
    ensures C.ParseRaw(image + rest).Some?
    ensures var (h, n) := C.ParseRaw(image + rest).value;
            && OpcodeOf(h.op) == Some(frame.header.opcode) && C.Meaning(h, frame.header.opcode) == frame.header
            && n + h.len == |image| && OnWire(h.key, image[n..]) == frame.payload
  {
    var frames := ParseFrames(order, [image]);
    frame := frames[0];
    DecodePrefix(image, rest);
    C.InlineAgrees(image + rest);
    assert (image + rest)[..|image|] == image;
    hide Decode, C.ParseRaw, OnWire, C.Meaning;
    var (h, n) := C.ParseRaw(image + rest).value;
    assert (image + rest)[n..n + h.len] == image[n..];
  }

  /** Before a 64-bit length the parser says it needs 2 octets and needs 8. */
  method WrongBeforeLength(order: ByteOrder) returns (needed: nat, leaving: nat)
    ensures needed == 2 && leaving == 8
  {
    var parser := new FrameParser();
    assert [] + [0x82, 0x7F] == [0x82, 0x7F] && Visible([0x82, 0x7F]).NeedMore? && SafeCut([0x82, 0x7F]);
    var result, frame, used := parser.Parse(order, [0x82, 0x7F]);
    assert parser.seen == [0x82, 0x7F];
    assert parser.state == AtLength;
    needed := BytesNeeded(parser.state, parser.header, parser.payloadRemaining);
    leaving := ToLeave(parser.state, parser.header, parser.payloadRemaining);
  }

  /** Before the end of an empty payload it says it needs none and needs one. */
  method WrongAtEmptyPayload(order: ByteOrder) returns (needed: nat, leaving: nat)
    ensures needed == 0 && leaving == 1
  {
    var parser := new FrameParser();
    assert [] + [0x82, 0x00] == [0x82, 0x00] && Visible([0x82, 0x00]).NeedMore? && SafeCut([0x82, 0x00]);
    var result, frame, used := parser.Parse(order, [0x82, 0x00]);
    assert parser.seen == [0x82, 0x00];
    assert parser.state == AtPayload && parser.payloadRemaining == 0;
    needed := BytesNeeded(parser.state, parser.header, parser.payloadRemaining);
    leaving := ToLeave(parser.state, parser.header, parser.payloadRemaining);
  }

  /** The cost of not reporting what was consumed: a header cut in two is lost and the frame never found. */
  method CutHeaderIsLost(order: ByteOrder) returns (first: ParseResult, second: ParseResult)
    ensures first.Incomplete? && second.Incomplete?
    ensures Decode([0x82] + [0x01, 0x07]).Whole?
  {
    var parser := new FrameParser();
    ghost var n;
    var frame;
    assert [] + [0x82] == [0x82] && Visible([0x82]).NeedMore?;
    first, frame, n := parser.Parse(order, [0x82]);
    assert parser.seen == [];
    assert [] + [0x01, 0x07] == [0x01, 0x07] && Visible([0x01, 0x07]).NeedMore?;
    second, frame, n := parser.Parse(order, [0x01, 0x07]);
    assert [0x82] + [0x01, 0x07] == [0x82, 0x01, 0x07];
  }
}
