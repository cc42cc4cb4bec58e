/**
 * The incremental frame parser of the Rust crate. Bytes arrive in arbitrary pieces; the ghost field
 * `seen` holds the octets of the current frame absorbed so far, and the contract of `Parse` says that
 * the result is the one the whole-input decoder gives on `seen` followed by the new bytes.
 */
module Parser {
  import opened Bytes
  import opened Masking
  import opened Frames

  datatype ParseResult = Incomplete | Complete | Error

  datatype State = AtHeader | AtLength | AtKey | AtPayload

  /** Octets before the masking key. */
  function FixedSize(s: seq<byte>): (n: nat)
    requires |s| >= 2
  {
    2 + ExtWidth(s[1])
  }

  // ---- What the decoder says of a frame in progress ------------------------------------

  lemma DecodeAtHeader(s: seq<byte>)
    ensures |s| < 2 ==> Visible(s).NeedMore?
    ensures |s| >= 2 && OpcodeOf(s[0] % 16).None? ==> Visible(s).Malformed?
  {
  }

  /** The fixed part alone never completes a frame, and errors show as soon as it is there. */
  lemma DecodeAtLength(s: seq<byte>)
    requires |s| >= 2 && OpcodeOf(s[0] % 16).Some?
    ensures |s| < FixedSize(s) ==> Visible(s).NeedMore?
    ensures |s| >= FixedSize(s) && DeclaredLength(s) > MAX_PAYLOAD ==> Visible(s).Malformed?
  {
  }

  lemma DecodeInPayload(s: seq<byte>)
    requires |s| >= 2 && OpcodeOf(s[0] % 16).Some? && |s| >= FixedSize(s) && DeclaredLength(s) <= MAX_PAYLOAD
    ensures |s| < HeaderSize(s[1]) + DeclaredLength(s) ==> Visible(s).NeedMore?
    ensures |s| == HeaderSize(s[1]) && DeclaredLength(s) == 0 ==> Visible(s).NeedMore?
  {
  }

  lemma DecodeAfterPayload(s: seq<byte>)
    requires |s| >= 2 && OpcodeOf(s[0] % 16).Some? && |s| >= FixedSize(s) && DeclaredLength(s) <= MAX_PAYLOAD
    requires |s| >= HeaderSize(s[1]) + DeclaredLength(s) && (DeclaredLength(s) > 0 || |s| > HeaderSize(s[1]))
    ensures var start, key := HeaderSize(s[1]), DeclaredKey(s);
            Visible(s) == Whole(Frame(HeaderOf(s[0], OpcodeOf(s[0] % 16).value, key),
                                      OnWire(key, s[start..start + DeclaredLength(s)])), start + DeclaredLength(s))
  {
    hide Masked;
  }

  /** The fields of a frame whose fixed part and key are just complete. */
  lemma AtPayloadStart(s: seq<byte>)
    requires |s| >= 2 && |s| == HeaderSize(s[1])
    ensures OnWire(DeclaredKey(s), s[HeaderSize(s[1])..]) == []
    ensures s[1] < 0x80 ==> DeclaredKey(s) == None
  {
  }

  lemma LengthField(fixed: seq<byte>, data: seq<byte>, width: nat)
    requires |fixed| == 2 && ExtWidth(fixed[1]) == width && 0 < width <= |data|
    ensures DeclaredLength(fixed + data) == BigEndian(data[..width])
    ensures DeclaredLength(fixed + data[..width]) == BigEndian(data[..width])
  {
    hide BigEndian;
    assert (fixed + data)[2..2 + width] == data[..width];
    assert (fixed + data[..width])[2..2 + width] == data[..width];
  }

  /** The header fields do not change as octets are appended. */
  lemma HeaderStable(s: seq<byte>, t: seq<byte>)
    requires |s| >= 2 && |s| >= FixedSize(s)
    ensures (s + t)[0] == s[0] && (s + t)[1] == s[1]
    ensures DeclaredLength(s + t) == DeclaredLength(s)
    ensures |s| >= HeaderSize(s[1]) ==> DeclaredKey(s + t) == DeclaredKey(s)
  {
    SliceLeft(s, t, 2, FixedSize(s));
    if |s| >= HeaderSize(s[1]) && s[1] >= 0x80 {
      SliceLeft(s, t, HeaderSize(s[1]) - 4, HeaderSize(s[1]));
    }
  }

  /** A frame is decoded from its own octets. */
  lemma DecodeExact(s: seq<byte>)
    requires Decode(s).Whole?
    ensures Decode(s[..Decode(s).size]) == Decode(s)
  {
    var n := Decode(s).size;
    var t, start := s[..n], HeaderSize(s[1]);
    assert |t| == n == start + DeclaredLength(s);
    hide Masked, OpcodeOf, HeaderOf, OnWire;
    assert s == t + s[n..];
    HeaderStable(t, s[n..]);
    SliceLeft(t, s[n..], start, n);
    hide DeclaredLength, DeclaredKey;
  }

  /** Unmasking a payload piece by piece. */
  lemma OnWireAppend(key: Option<Key>, a: seq<byte>, b: seq<byte>)
    ensures OnWire(key, a + b) == OnWire(key, a) + (if key.Some? then Masked(b, key.value, |a|) else b)
  {
    if key.Some? {
      MaskSplit(a, b, key.value, 0);
    }
  }

  /** Header fields as the parser keeps them; the key is meaningful only when `mask` is set. */
  datatype FrameHeader = FrameHeader(fin: bool, rsv1: bool, rsv2: bool, rsv3: bool, opcode: Opcode, mask: bool,
                                     payloadLen: nat, maskingKey: Key)
  {
    ghost function Meaning(): (h: Header)
    {
      Header(fin, rsv1, rsv2, rsv3, opcode, if mask then Some(maskingKey) else None)
    }
  }

  /** The first two octets are in `seen` and their fields in the header. */
  ghost predicate FixedRead(h: FrameHeader, seen: seq<byte>)
  {
    && |seen| >= 2
    && OpcodeOf(seen[0] % 16) == Some(h.opcode)
    && HeaderOf(seen[0], h.opcode, None) == Header(h.fin, h.rsv1, h.rsv2, h.rsv3, h.opcode, None)
    && h.mask == (seen[1] >= 0x80)
  }

  /** The declared length is in `seen` and in the header, and within bounds. */
  ghost predicate LengthRead(h: FrameHeader, seen: seq<byte>)
  {
    && FixedRead(h, seen)
    && |seen| >= FixedSize(seen)
    && h.payloadLen == DeclaredLength(seen) <= MAX_PAYLOAD
  }

  /** Header and key are in; `buffer` is the unmasked payload so far. */
  ghost predicate PayloadRead(h: FrameHeader, buffer: seq<byte>, seen: seq<byte>)
  {
    && LengthRead(h, seen)
    && |seen| >= HeaderSize(seen[1])
    && DeclaredKey(seen) == h.Meaning().key
    && buffer == OnWire(DeclaredKey(seen), seen[HeaderSize(seen[1])..])
  }

  /** The parser fields are what the octets in `seen` determine. */
  ghost predicate Consistent(state: State, h: FrameHeader, remaining: nat, buffer: seq<byte>, seen: seq<byte>)
  {
    match state
    case AtHeader => seen == []
    case AtLength => FixedRead(h, seen) && |seen| == 2 && ExtWidth(seen[1]) > 0 && h.payloadLen == seen[1] % 128
    case AtKey => LengthRead(h, seen) && h.mask && |seen| == FixedSize(seen) && buffer == []
    case AtPayload =>
      PayloadRead(h, buffer, seen) && remaining + |buffer| == h.payloadLen && (remaining > 0 || h.payloadLen == 0)
  }

  /** A frame in progress is not reported by the decoder either. */
  lemma ConsistentNeedsMore(state: State, h: FrameHeader, remaining: nat, buffer: seq<byte>, seen: seq<byte>)
    requires Consistent(state, h, remaining, buffer, seen)
    ensures Visible(seen).NeedMore?
  {
    hide Visible;
    if seen == [] {
      DecodeAtHeader(seen);
    } else {
      DecodeAtLength(seen);
      if |seen| >= FixedSize(seen) {
        DecodeInPayload(seen);
      }
    }
  }

  /** The fields as `parse_header` takes them from the first two octets. */
  lemma FixedFields(first: byte, second: byte, h: FrameHeader)
    requires OpcodeOf(first % 16) == Some(h.opcode) && h.mask == (second >= 0x80) && h.fin == (first >= 0x80)
    requires h.rsv1 == (first / 64 % 2 == 1) && h.rsv2 == (first / 32 % 2 == 1) && h.rsv3 == (first / 16 % 2 == 1)
    ensures FixedRead(h, [first, second])
  {
  }

  /** After `parse_header`. */
  lemma HeaderParsed(h: FrameHeader, seen: seq<byte>)
    requires |seen| == 2 && FixedRead(h, seen) && h.payloadLen == seen[1] % 128
    ensures var next := if h.payloadLen > 125 then AtLength else if h.mask then AtKey else AtPayload;
            Consistent(next, h, if h.payloadLen > 125 then 0 else h.payloadLen, [], seen)
  {
    hide FixedRead, OnWire;
    if h.payloadLen <= 125 {
      LengthParsed(h, seen);
    }
  }

  /** Before the length is known the buffer still holds an earlier payload. */
  lemma LengthIgnoresBuffer(h: FrameHeader, buffer: seq<byte>, seen: seq<byte>)
    requires Consistent(AtLength, h, 0, [], seen)
    ensures Consistent(AtLength, h, 0, buffer, seen)
  {
  }

  /** After the length is known, in either form. */
  lemma LengthParsed(h: FrameHeader, seen: seq<byte>)
    requires FixedRead(h, seen) && |seen| == FixedSize(seen) && h.payloadLen == DeclaredLength(seen) <= MAX_PAYLOAD
    ensures Consistent(if h.mask then AtKey else AtPayload, h, h.payloadLen, [], seen)
  {
    assert h.mask == (seen[1] >= 0x80);
    hide FixedRead, OnWire, DeclaredLength;
    if !h.mask {
      AtPayloadStart(seen);
    }
  }

  /** What `parse_payload_length` finds. */
  lemma LengthStep(h: FrameHeader, seen: seq<byte>, data: seq<byte>)
    requires FixedRead(h, seen) && |seen| == 2 && ExtWidth(seen[1]) > 0 && h.payloadLen == seen[1] % 128
    ensures var width := if h.payloadLen % 128 == 126 then 2 else 8;
            && (|data| < width ==> Visible(seen + data).NeedMore?)
            && (|data| >= width ==>
                 var len := BigEndian(data[..width]);
                 && (len > MAX_PAYLOAD ==> Visible(seen + data).Malformed?)
                 && (len <= MAX_PAYLOAD ==>
                      Consistent(if h.mask then AtKey else AtPayload, h.(payloadLen := len), len, [],
                                 seen + data[..width])))
  {
    hide Visible, BigEndian, Consistent;
    var width := ExtWidth(seen[1]);
    DecodeAtLength(seen + data);
    if |data| >= width {
      LengthField(seen, data, width);
      var len := BigEndian(data[..width]);
      hide DeclaredLength;
      if len <= MAX_PAYLOAD {
        LengthParsed(h.(payloadLen := len), seen + data[..width]);
      }
    }
  }

  /** After `parse_masking_key`. */
  lemma KeyParsed(h: FrameHeader, seen: seq<byte>, key: Key)
    requires LengthRead(h, seen) && h.mask && |seen| == FixedSize(seen)
    ensures Consistent(AtPayload, h.(maskingKey := key), h.payloadLen, [], seen + key)
  {
    var next := seen + key;
    HeaderStable(seen, key);
    assert next[HeaderSize(next[1]) - 4..HeaderSize(next[1])] == key;
    AtPayloadStart(next);
    hide OnWire, DeclaredLength, OpcodeOf, HeaderOf;
  }

  /** After more payload. */
  lemma PayloadParsed(h: FrameHeader, buffer: seq<byte>, seen: seq<byte>, piece: seq<byte>)
    requires PayloadRead(h, buffer, seen)
    ensures PayloadRead(h, buffer + (if h.mask then Masked(piece, h.maskingKey, |buffer|) else piece), seen + piece)
  {
    hide OnWire, DeclaredLength, OpcodeOf, HeaderOf, Masked, DeclaredKey;
    var next, start := seen + piece, HeaderSize(seen[1]);
    HeaderStable(seen, piece);
    assert next[start..] == seen[start..] + piece;
    OnWireAppend(DeclaredKey(next), seen[start..], piece);
  }

  /** With no payload outstanding, the decoder reports the frame held in the fields. */
  lemma PayloadDone(h: FrameHeader, buffer: seq<byte>, seen: seq<byte>, rest: seq<byte>)
    requires PayloadRead(h, buffer, seen) && |buffer| == h.payloadLen && (buffer != [] || rest != [])
    ensures Visible(seen + rest) == Whole(Frame(h.Meaning(), buffer), |seen|)
  {
    var s, start := seen + rest, HeaderSize(seen[1]);
    HeaderStable(seen, rest);
    DecodeAfterPayload(s);
    assert s[start..start + h.payloadLen] == seen[start..];
    hide Visible, OpcodeOf, OnWire, DeclaredKey, DeclaredLength;
  }

  class Parser {
    var state: State
    var header: FrameHeader
    var payloadRemaining: nat
    var buffer: seq<byte>
    /** Octets of the current frame absorbed so far. */
    ghost var seen: seq<byte>
    /** Set once an error was reported; nothing is promised about the frames after it. */
    ghost var failed: bool

    ghost predicate Valid()
      reads this
    {
      failed || Consistent(state, header, payloadRemaining, buffer, seen)
    }

    constructor ()
      ensures Valid() && !failed && seen == [] && state == AtHeader
    {
      state, payloadRemaining, buffer := AtHeader, 0, [];
      header := FrameHeader(false, false, false, false, Text, false, 0, [0, 0, 0, 0]);
      seen, failed := [], false;
    }

    /** What one call means for a parser that had absorbed `before` and is given `data`. */
    ghost predicate Outcome(before: seq<byte>, data: seq<byte>, result: ParseResult, used: nat)
      reads this
      requires used <= |data|
    {
      match result
      case Incomplete => !failed && Valid() && seen == before + data[..used]
      case Complete =>
        && !failed && Valid() && state == AtHeader && seen == []
        && Visible(before + data) == Whole(Frame(header.Meaning(), buffer), |before| + used)
      case Error => failed && Visible(before + data).Malformed?
    }

    /** `parse_header` */
    method ParseHeader(data: seq<byte>) returns (result: ParseResult, used: nat)
      requires Valid() && state == AtHeader
      modifies this
      ensures used <= |data| && (old(failed) ==> failed)
      ensures !result.Complete? && (used == 0 ==> state == old(state))
      ensures !old(failed) ==> Outcome(old(seen), data, result, used)
      ensures !old(failed) && result.Incomplete? && used == 0 ==> Visible(old(seen) + data).NeedMore?
    {
      assert !failed ==> seen == [] && seen + data == data;
      DecodeAtHeader(data);
      hide Visible, OpcodeOf, Consistent, FixedRead, ExtWidth;
      if |data| < 2 {
        return Incomplete, 0;
      }
      var first, second := data[0], data[1];
      header := header.(fin := first >= 0x80, rsv1 := first / 64 % 2 == 1, rsv2 := first / 32 % 2 == 1,
                        rsv3 := first / 16 % 2 == 1);
      var op := OpcodeOf(first % 16);
      if op.None? {
        failed := true;
        return Error, 0;
      }
      header := header.(opcode := op.value, mask := second >= 0x80, payloadLen := second % 128);
      seen := [first, second];
      assert data[..2] == seen;
      FixedFields(first, second, header);
      HeaderParsed(header, seen);
      if header.payloadLen <= 125 {
        state := if header.mask then AtKey else AtPayload;
        payloadRemaining := header.payloadLen;
        buffer := [];
      } else {
        state := AtLength;
        payloadRemaining := 0;
        LengthIgnoresBuffer(header, buffer, seen);
      }
      return Incomplete, 2;
    }

    /** `parse_payload_length` */
    method ParsePayloadLength(data: seq<byte>) returns (result: ParseResult, used: nat)
      requires Valid() && state == AtLength
      modifies this
      ensures used <= |data| && (old(failed) ==> failed)
      ensures !result.Complete? && (used == 0 ==> state == old(state))
      ensures !old(failed) ==> Outcome(old(seen), data, result, used)
      ensures !old(failed) && result.Incomplete? && used == 0 ==> Visible(old(seen) + data).NeedMore?
    {
      if !failed {
        LengthStep(header, seen, data);
      }
      hide Visible, BigEndian, Consistent;
      var width := if header.payloadLen % 128 == 126 then 2 else 8;
      if |data| < width {
        return Incomplete, 0;
      }
      var len := ReadBigEndian(data[..width]);
      header := header.(payloadLen := len);
      used := width;
      if len > MAX_PAYLOAD {
        failed := true;
        return Error, used;
      }
      state := if header.mask then AtKey else AtPayload;
      payloadRemaining := len;
      buffer := [];
      seen := seen + data[..width];
      return Incomplete, used;
    }

    /** `parse_masking_key` */
    method ParseMaskingKey(data: seq<byte>) returns (result: ParseResult, used: nat)
      requires Valid() && state == AtKey
      modifies this
      ensures used <= |data| && (old(failed) ==> failed)
      ensures !result.Complete? && (used == 0 ==> state == old(state))
      ensures !old(failed) ==> Outcome(old(seen), data, result, used)
      ensures !old(failed) && result.Incomplete? && used == 0 ==> Visible(old(seen) + data).NeedMore?
    {
      hide Visible, OpcodeOf, HeaderOf, OnWire, DeclaredLength, DeclaredKey;
      if |data| < 4 {
        if !failed {
          HeaderStable(seen, data);
          DecodeInPayload(seen + data);
        }
        return Incomplete, 0;
      }
      if !failed {
        KeyParsed(header, seen, data[..4]);
        seen := seen + data[..4];
      }
      header := header.(maskingKey := data[..4]);
      state := AtPayload;
      payloadRemaining := header.payloadLen;
      return Incomplete, 4;
    }

    /** `parse_payload` */
    method ParsePayload(order: ByteOrder, data: seq<byte>) returns (result: ParseResult, used: nat)
      requires Valid() && state == AtPayload && data != []
      modifies this
      ensures used <= |data| && (old(failed) ==> failed)
      ensures result.Complete? ==> state == AtHeader
      ensures !result.Complete? ==> used > 0 && state == AtPayload
      ensures !old(failed) ==> Outcome(old(seen), data, result, used)
    {
      hide Visible, PayloadRead;
      ghost var before := seen;
      if payloadRemaining == 0 {
        state := AtHeader;
        if !failed {
          PayloadDone(header, buffer, seen, data);
          seen := [];
        }
        return Complete, 0;
      }
      used := if payloadRemaining <= |data| then payloadRemaining else |data|;
      if !failed {
        PayloadParsed(header, buffer, seen, data[..used]);
        seen := before + data[..used];
      }
      buffer := Absorb(order, header, buffer, data[..used]);
      payloadRemaining := payloadRemaining - used;
      if payloadRemaining == 0 {
        state := AtHeader;
        if !failed {
          assert seen + data[used..] == before + data;
          PayloadDone(header, buffer, seen, data[used..]);
          seen := [];
        }
        return Complete, used;
      } else {
        return Incomplete, used;
      }
    }

    /** `parse`: consumes bytes until the frame is complete, an error shows or no progress is made. */
    method Parse(order: ByteOrder, data: seq<byte>) returns (result: ParseResult, consumed: nat)
      requires Valid()
      modifies this
      ensures Valid() && consumed <= |data| && (old(failed) ==> failed)
      ensures result.Complete? ==> state == AtHeader && (consumed > 0 || old(state) == AtPayload)
      ensures consumed == 0 && !result.Complete? ==> state == old(state)
      ensures !old(failed) ==> Outcome(old(seen), data, result, consumed)
      ensures !old(failed) && result.Incomplete? ==> Visible(old(seen) + data).NeedMore?
    {
      hide Visible, Consistent;
      ghost var before := seen;
      consumed := 0;
      assert before + data[..0] == before;
      while consumed < |data|
        invariant consumed <= |data| && Valid() && failed == old(failed)
        invariant !failed ==> seen == before + data[..consumed]
        invariant consumed == 0 ==> state == old(state)
      {
        var rest := data[consumed..];
        var used;
        ghost var upTo := seen;
        match state {
          case AtHeader => result, used := ParseHeader(rest);
          case AtLength => result, used := ParsePayloadLength(rest);
          case AtKey => result, used := ParseMaskingKey(rest);
          case AtPayload => result, used := ParsePayload(order, rest);
        }
        assert !old(failed) ==> upTo + rest == before + data;
        NextPiece(before, data, consumed, used);
        consumed := consumed + used;
        match result {
          case Error => return;
          case Complete => return;
          case Incomplete =>
        }
        if used == 0 {
          return Incomplete, consumed;
        }
      }
      if !failed {
        assert before + data[..consumed] == before + data;
        ConsistentNeedsMore(state, header, payloadRemaining, buffer, seen);
      }
      return Incomplete, consumed;
    }

    /** `take_frame`: hands out the completed frame and leaves the buffer empty. */
    method TakeFrame() returns (frame: Frame)
      requires Valid() && (failed || state == AtHeader)
      modifies this
      ensures frame == Frame(old(header.Meaning()), old(buffer))
      ensures Valid() && state == old(state) && seen == old(seen) && failed == old(failed)
    {
      frame := Frame(Header(header.fin, header.rsv1, header.rsv2, header.rsv3, header.opcode,
                            if header.mask then Some(header.maskingKey) else None), buffer);
      buffer := [];
    }
  }

  /** One more frame reported of a stream that begins with the octets of a frame in progress. */
  lemma ReportedFirst(s: seq<byte>, later: seq<byte>)
    ensures Visible(s).Whole? ==>
              var Whole(f, n) := Visible(s);
              var p := ParseStream(s[n..] + later);
              ParseStream(s + later) == Parsed([f] + p.frames, p.rest, p.malformed)
    ensures Visible(s).Malformed? ==> ParseStream(s + later) == Parsed([], s + later, true)
  {
    hide Visible;
    VisiblePrefix(s, later);
    if Visible(s).Whole? {
      assert (s + later)[Visible(s).size..] == s[Visible(s).size..] + later;
    }
  }

  /**
   * Feeding a stream in any pieces, and presenting again what a call did not consume, reports the frames
   * of the whole stream and ends in an error exactly if the stream does.
   */
  method ParseChunks(order: ByteOrder, chunks: seq<seq<byte>>) returns (frames: seq<Frame>, malformed: bool)
    ensures frames == ParseStream(Concat(chunks)).frames && malformed == ParseStream(Concat(chunks)).malformed
  {
    hide Visible, ParseStream, Concat, Consistent;
    frames, malformed := [], false;
    var parser := new Parser();
    var unread := [];
    ghost var all := ParseStream(Concat(chunks));
    assert chunks[0..] == chunks && [] + [] + Concat(chunks) == Concat(chunks);
    Pending([]);
    for i := 0 to |chunks|
      invariant fresh(parser) && parser.Valid() && !parser.failed && Visible(parser.seen + unread).NeedMore?
      invariant var p := ParseStream(parser.seen + unread + Concat(chunks[i..]));
                all.frames == frames + p.frames && all.malformed == p.malformed
    {
      ghost var later := Concat(chunks[i + 1..]);
      ConcatFirst(chunks[i..]);
      assert chunks[i..][1..] == chunks[i + 1..];
      assert parser.seen + unread + (chunks[i] + later) == parser.seen + (unread + chunks[i]) + later;
      unread := unread + chunks[i];
      var result := Complete;
      while result.Complete?
        invariant fresh(parser) && parser.Valid() && !parser.failed && !result.Error?
        invariant var p := ParseStream(parser.seen + unread + later);
                  all.frames == frames + p.frames && all.malformed == p.malformed
        invariant result.Incomplete? ==> Visible(parser.seen + unread).NeedMore?
        decreases 2 * |unread| + (if parser.state.AtPayload? then 1 else 0), result.Complete?
      {
        ghost var before, s := parser.seen, parser.seen + unread;
        ReportedFirst(s, later);
        var used;
        result, used := parser.Parse(order, unread);
        assert before + unread[..used] + unread[used..] == s;
        assert s[|before| + used..] == unread[used..];
        unread := unread[used..];
        match result {
          case Error =>
            assert frames + [] == frames;
            return frames, true;
          case Complete =>
            var frame := parser.TakeFrame();
            ghost var rest := ParseStream(parser.seen + unread + later).frames;
            assert parser.seen + unread == unread;
            assert frames + ([frame] + rest) == frames + [frame] + rest;
            frames := frames + [frame];
          case Incomplete =>
        }
      }
    }
    assert Concat(chunks[|chunks|..]) == [] by { NoPieces(chunks[|chunks|..]); }
    assert parser.seen + unread + [] == parser.seen + unread;
    Pending(parser.seen + unread);
    assert frames + [] == frames;
  }

  /** Octets that show no frame. */
  lemma Pending(s: seq<byte>)
    ensures Visible([]).NeedMore?
    ensures Visible(s).NeedMore? ==> ParseStream(s) == Parsed([], s, false)
  {
  }

  lemma ConcatFirst(parts: seq<seq<byte>>)
    requires parts != []
    ensures Concat(parts) == parts[0] + Concat(parts[1..])
  {
  }

  lemma NoPieces(parts: seq<seq<byte>>)
    requires parts == []
    ensures Concat(parts) == []
  {
  }

  /** The buffer grown by `piece`, which is unmasked at the running offset. */
  method Absorb(order: ByteOrder, header: FrameHeader, buffer: seq<byte>, piece: seq<byte>) returns (grown: seq<byte>)
    ensures grown == buffer + (if header.mask then Masked(piece, header.maskingKey, |buffer|) else piece)
  {
    var offset := |buffer|;
    if header.mask {
      var a := new byte[offset + |piece|](i => if 0 <= i < |buffer| then buffer[i] else 0);
      CopyAndUnmask(order, a, offset, piece, header.maskingKey, offset);
      grown := a[..];
    } else {
      grown := buffer + piece;
    }
  }

  /** The loop that gathers a length field. */
  method ReadBigEndian(s: seq<byte>) returns (n: nat)
    ensures n == BigEndian(s)
  {
    n := 0;
    for i := 0 to |s|
      invariant n == BigEndian(s[..i])
    {
      n := 256 * n + s[i];
      assert s[..i + 1][..i] == s[..i];
    }
    assert s[..|s|] == s;
  }
}
