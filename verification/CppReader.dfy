/**
 * The reading side of the C++ connection: its inline decoder, header validation, reassembly and
 * delivery, as functions on values and as the class whose methods update the fields.
 */
module CppReader {
  import opened Bytes
  import opened Masking
  import opened Frames
  import opened Builder
  import opened CloseCodes
  import opened Session
  import P = Parser
  import Utf8

  /** Header fields as read: the opcode is any four-bit number, the length any 64-bit one. */
  datatype RawHeader = RawHeader(fin: bool, rsv1: bool, rsv2: bool, rsv3: bool, op: nat, key: Option<Key>, len: nat)

  /**
   * What the reader keeps. `payload` is `payload_buffer_`, which outlives the frame it was read for;
   * `crashed` tells that an exception left the reader thread and ended the process.
   */
  datatype Reader = Reader(open: bool, closing: bool, crashed: bool, payload: seq<byte>, fragment: Fragment,
                           out: Output,
                           delivered: seq<Message>, closes: seq<(Code, seq<byte>)>)

  // ---- The inline decoder --------------------------------------------------------------

  /** The header at the start of `s` and the octets it takes; `None` while it is not complete. */
  function ParseRaw(s: seq<byte>): (r: Option<(RawHeader, nat)>)
    ensures r.Some? ==> 2 <= r.value.1 <= |s| && r.value.0.op < 16
  {
    if |s| < 2 || |s| < HeaderSize(s[1]) then None
    else Some((RawHeader(s[0] >= 0x80, s[0] / 64 % 2 == 1, s[0] / 32 % 2 == 1, s[0] / 16 % 2 == 1, s[0] % 16,
                         DeclaredKey(s), DeclaredLength(s)), HeaderSize(s[1])))
  }

  /** `validate_frame_header`: the reason a header is refused, by the first check that fails. */
  function HeaderProblem(cfg: Config, h: RawHeader): (why: Option<string>)
  {
    var dataOpcode := h.op == 1 || h.op == 2 || h.op == 0;
    if cfg.deflateBuilt && h.rsv1 && (!cfg.deflate || !dataOpcode) then Some("RSV1 set without permessage-deflate")
    else if cfg.deflateBuilt && h.rsv1 && h.op == 0 then Some("RSV1 on continuation frame")
    else if cfg.deflateBuilt && (h.rsv2 || h.rsv3 || (!cfg.deflate && h.rsv1)) then
      Some("RSV bits set without extension negotiation")
    else if !cfg.deflateBuilt && (h.rsv1 || h.rsv2 || h.rsv3) then Some("RSV bits set without extension negotiation")
    else if !(h.op <= 0x2 || 0x8 <= h.op <= 0xA) then Some("Invalid frame opcode")
    else if cfg.role.Server? && h.key.None? then Some("Client frame must be masked")
    else if cfg.role.Client? && h.key.Some? then Some("Server frame must not be masked")
    else None
  }

  function Meaning(h: RawHeader, op: Opcode): (r: Header)
  {
    Header(h.fin, h.rsv1, h.rsv2, h.rsv3, op, h.key)
  }

  /**
   * The two decoders agree: on octets whose opcode is defined and whose length is below 2^63, the
   * header and payload the inline reader finds are those of the whole-input decoder, and both need
   * the same octets.
   */
  lemma DecodersAgree(s: seq<byte>)
    requires |s| >= 2 && OpcodeOf(s[0] % 16).Some?
    requires |s| >= 2 + ExtWidth(s[1]) ==> DeclaredLength(s) <= MAX_PAYLOAD
    ensures Decode(s).Whole? <==> ParseRaw(s).Some? && |s| >= ParseRaw(s).value.1 + ParseRaw(s).value.0.len
    ensures Decode(s).Whole? ==>
              var (h, n) := ParseRaw(s).value;
              Decode(s) == Whole(Frame(Meaning(h, OpcodeOf(h.op).value), OnWire(h.key, s[n..n + h.len])), n + h.len)
    ensures !Decode(s).Malformed?
  {
    hide Masked, OnWire, DeclaredKey;
  }

  /** On a complete frame the inline reader finds its header, its payload and its end. */
  lemma InlineAgrees(s: seq<byte>)
    requires Decode(s).Whole?
    ensures ParseRaw(s).Some?
    ensures var (h, n) := ParseRaw(s).value;
            var Whole(f, size) := Decode(s);
            && OpcodeOf(h.op) == Some(f.header.opcode) && Meaning(h, f.header.opcode) == f.header
            && n + h.len == size && h.len <= MAX_PAYLOAD && OnWire(h.key, s[n..n + h.len]) == f.payload
  {
    hide OnWire, DeclaredKey;
    DecodersAgree(s);
  }

  // ---- Failing and delivering ----------------------------------------------------------

  /** `fail_with_close` while the connection is open: one CLOSE, then the close callback. */
  function FailWith(cfg: Config, r: Reader, code: Code, why: string): (r': Reader)
  {
    var body := CloseBody(code, Reason(why));
    var out := if r.open && !r.closing then SendFrame(cfg, r.out, Close, true, false, body).0 else r.out;
    r.(open := false, closing := r.closing || r.open, out := out, closes := r.closes + [(code, Reason(why))])
  }

  /** `deliver_message`; `own` tells whether the message is `payload_buffer_` itself, which decompression replaces. */
  function DeliverTo(cfg: Config, r: Reader, op: Opcode, data: seq<byte>, compressed: bool, own: bool): (r': Reader)
  {
    if cfg.deflateBuilt && compressed && !cfg.deflate then
      FailWith(cfg, r, 1002, "Compressed frame without negotiated extension")
    else
      var plain := if cfg.deflateBuilt && compressed then cfg.decompress(data) else Some(data);
      if plain.None? then FailWith(cfg, r, 1002, "permessage-deflate decompression failed")
      else
        var r1 := if own then r.(payload := plain.value) else r;
        if op.Text? && !Utf8.WellFormed(plain.value) then FailWith(cfg, r1, 1007, "Invalid UTF-8 in text frame")
        else r1.(delivered := r1.delivered + [Message(op, plain.value)])
  }

  /** `handle_close_frame` */
  function AnswerClose(cfg: Config, r: Reader): (r': Reader)
  {
    var code := ReceivedCode(r.payload);
    r.(open := false, out := SendFrame(cfg, r.out, Close, true, false, CloseBody(code, [])).0,
       closes := r.closes + [(code, ReceivedReason(r.payload))])
  }

  /** `handle_frame`: the payload is whatever `payload_buffer_` holds. */
  function Handle(cfg: Config, r: Reader, h: Header): (r': Reader)
  {
    match h.opcode
    case Close => AnswerClose(cfg, r)
    case Ping =>
      if r.closing || !r.open then r else r.(out := SendFrame(cfg, r.out, Pong, true, false, r.payload).0)
    case Pong => r
    case Continuation =>
      if !r.fragment.active then FailWith(cfg, r, 1002, "Unexpected continuation frame")
      else
        var frag := r.fragment.(buffer := r.fragment.buffer + r.payload);
        if !h.fin then r.(fragment := frag)
        else
          var r1 := DeliverTo(cfg, r.(fragment := frag), frag.opcode, frag.buffer, frag.compressed, false);
          r1.(fragment := NO_FRAGMENT)
    case _ =>
      if r.fragment.active then FailWith(cfg, r, 1002, "New data frame before fragmented message completed")
      else if !h.fin then r.(fragment := Fragment(true, r.payload, h.opcode, h.rsv1))
      else DeliverTo(cfg, r, h.opcode, r.payload, h.rsv1, true)
  }

  /** The payload buffer after a frame was read: a frame of length 0 leaves the previous contents. */
  function Buffered(r: Reader, payload: seq<byte>): (b: seq<byte>)
  {
    if payload == [] then r.payload else payload
  }

  lemma HeaderOpcode(cfg: Config, h: RawHeader)
    requires HeaderProblem(cfg, h).None? && h.op < 16
    ensures OpcodeOf(h.op).Some?
  {
  }

  /** The buffer resized to `len`. */
  function Resized(was: seq<byte>, len: nat): (b: seq<byte>)
    ensures |b| == len
  {
    if len <= |was| then was[..len] else was + seq(len - |was|, _ => 0)
  }

  /** The buffer after a read that got only `got` of the `len` octets it was resized for. */
  function Torn(was: seq<byte>, got: seq<byte>, len: nat): (b: seq<byte>)
  {
    if |got| <= len then got + Resized(was, len)[|got|..] else got
  }

  /**
   * `read_one_frame` on the octets `input` still to come, and what remains of them. Resizing the payload
   * buffer to a length above 2^63-1 throws, and nothing catches that.
   */
  function ReadOne(cfg: Config, r: Reader, input: seq<byte>): (x: (Reader, seq<byte>))
    ensures x.0.open ==> |x.1| < |input|
  {
    if !r.open then (r, input)
    else
      var p := ParseRaw(input);
      if p.None? then (r.(open := false), [])
      else
        var (h, n) := p.value;
        var why := HeaderProblem(cfg, h);
        if why.Some? then (FailWith(cfg, r, 1002, why.value), input[n..])
        else if h.len > MAX_PAYLOAD then (r.(open := false, crashed := true), input[n..])
        else if |input| < n + h.len then (r.(open := false, payload := Torn(r.payload, input[n..], h.len)), [])
        else
          var payload := OnWire(h.key, input[n..n + h.len]);
          HeaderOpcode(cfg, h);
          (Handle(cfg, r.(payload := Buffered(r, payload)), Meaning(h, OpcodeOf(h.op).value)), input[n + h.len..])
  }

  /** `read_loop` */
  function ReadLoop(cfg: Config, r: Reader, input: seq<byte>): (r': Reader)
    decreases |input|, r.open
  {
    if !r.open || r.closing then r
    else
      var (r1, rest) := ReadOne(cfg, r, input);
      if r1.open then ReadLoop(cfg, r1, rest) else r1
  }

  // ---- The class -----------------------------------------------------------------------

  class Connection {
    const cfg: Config
    const order: ByteOrder
    const outbound: ByteVec
    /** Octets the peer has sent and the reader has not consumed; after them reads fail. */
    var input: seq<byte>
    var out: Output
    var isOpen: bool
    var isClosing: bool
    var crashed: bool
    var header: RawHeader
    var payloadBuffer: seq<byte>
    var messageBuffer: seq<byte>
    var fragmented: bool
    var messageOpcode: Opcode
    var messageCompressed: bool
    /** What the callbacks have recorded. */
    var delivered: seq<Message>
    var closes: seq<(Code, seq<byte>)>

    /** The reader's state. */
    ghost function Abs(): (r: Reader)
      reads this
    {
      Reader(isOpen, isClosing, crashed, payloadBuffer,
             Fragment(fragmented, messageBuffer, messageOpcode, messageCompressed), out,
             delivered, closes)
    }

    constructor (cfg: Config, order: ByteOrder, input: seq<byte>, out: Output)
      ensures this.cfg == cfg && this.order == order && this.input == input
      ensures Abs() == Reader(true, false, false, [], NO_FRAGMENT, out, [], [])
    {
      this.cfg, this.order, this.input, this.out := cfg, order, input, out;
      outbound := new ByteVec();
      isOpen, isClosing, crashed := true, false, false;
      header := RawHeader(false, false, false, false, 0, None, 0);
      payloadBuffer, messageBuffer, fragmented, messageOpcode, messageCompressed := [], [], false, Text, false;
      delivered, closes := [], [];
    }

    /** `socket_.write`; its error is only logged. */
    method WriteBytes(data: seq<byte>)
      modifies this`out
      ensures out == Write(old(out), data).0
    {
      var r := Write(out, data);
      out := r.0;
    }

    /** Builds and writes a PONG or other frame from a payload. */
    method WriteFrame(op: Opcode, payload: seq<byte>)
      modifies this`out, outbound
      ensures out == SendFrame(cfg, old(out), op, true, false, payload).0
    {
      var mask := cfg.role.Client?;
      var key := cfg.keys(out.drawn);
      if mask {
        out := out.(drawn := out.drawn + 1);
      }
      CppBuildInto(order, outbound, op, payload, true, mask, key, false);
      WriteBytes(outbound.bytes);
    }

    method WriteClose(code: Code, reason: seq<byte>)
      modifies this`out, outbound
      ensures out == SendFrame(cfg, old(out), Close, true, false, CloseBody(code, reason)).0
    {
      var mask := cfg.role.Client?;
      var key := cfg.keys(out.drawn);
      if mask {
        out := out.(drawn := out.drawn + 1);
      }
      CppBuildCloseInto(order, outbound, code, reason, mask, key);
      WriteBytes(outbound.bytes);
    }

    /** `fail_with_close` */
    method FailWithClose(code: Code, why: string)
      modifies this`isOpen, this`isClosing, this`out, this`closes, outbound
      ensures Abs() == FailWith(cfg, old(Abs()), code, why)
    {
      if isOpen && !isClosing {
        isClosing := true;
        WriteClose(code, Reason(why));
      }
      isOpen := false;
      closes := closes + [(code, Reason(why))];
    }

    /** `deliver_message` */
    method DeliverMessage(op: Opcode, data: seq<byte>, compressed: bool, own: bool)
      modifies this`isOpen, this`isClosing, this`out, this`closes, this`payloadBuffer, this`delivered, outbound
      ensures Abs() == DeliverTo(cfg, old(Abs()), op, data, compressed, own)
    {
      hide FailWith, Utf8.WellFormed;
      var plain := data;
      if cfg.deflateBuilt && compressed {
        if !cfg.deflate {
          FailWithClose(1002, "Compressed frame without negotiated extension");
          return;
        }
        var d := cfg.decompress(data);
        if d.None? {
          FailWithClose(1002, "permessage-deflate decompression failed");
          return;
        }
        plain := d.value;
      }
      if own {
        payloadBuffer := plain;
      }
      if op.Text? {
        var valid := Utf8.IsValidUtf8(order, plain);
        if !valid {
          FailWithClose(1007, "Invalid UTF-8 in text frame");
          return;
        }
      }
      delivered := delivered + [Message(op, plain)];
    }

    /** `handle_close_frame` */
    method HandleCloseFrame()
      modifies this`isOpen, this`out, this`closes, outbound
      ensures Abs() == AnswerClose(cfg, old(Abs()))
    {
      hide SendFrame;
      var code, reason := 1000, [];
      if |payloadBuffer| >= 2 {
        code := payloadBuffer[0] as nat * 256 + payloadBuffer[1];
        if !IsValid(code) {
          code := 1002;
        }
        reason := payloadBuffer[2..];
      }
      WriteClose(code, []);
      isOpen := false;
      closes := closes + [(code, reason)];
    }

    /** `handle_frame` */
    method HandleFrame(h: Header)
      modifies this`isOpen, this`isClosing, this`out, this`closes, this`payloadBuffer, this`delivered, this`fragmented,
               this`messageBuffer, this`messageOpcode, this`messageCompressed, outbound
      ensures Abs() == Handle(cfg, old(Abs()), h)
    {
      match h.opcode {
        case Close =>
          hide FailWith, DeliverTo, SendFrame, AnswerClose;
          HandleCloseFrame();
        case Ping =>
          hide FailWith, DeliverTo, SendFrame, AnswerClose;
          if isClosing || !isOpen {
            return;
          }
          WriteFrame(Pong, payloadBuffer);
        case Pong =>
        case Continuation =>
          hide Handle;
          HandleContinuation(h);
        case _ =>
          hide Handle;
          HandleData(h);
      }
    }

    /** The part of `handle_frame` for continuation frames. */
    method HandleContinuation(h: Header)
      requires h.opcode.Continuation?
      modifies this`isOpen, this`isClosing, this`out, this`closes, this`payloadBuffer, this`delivered, this`fragmented,
               this`messageBuffer, this`messageOpcode, this`messageCompressed, outbound
      ensures Abs() == Handle(cfg, old(Abs()), h)
    {
      hide FailWith, DeliverTo, SendFrame, AnswerClose, Reason;
      if !fragmented {
        FailWithClose(1002, "Unexpected continuation frame");
        return;
      }
      messageBuffer := messageBuffer + payloadBuffer;
      if h.fin {
        DeliverMessage(messageOpcode, messageBuffer, messageCompressed, false);
        fragmented, messageBuffer, messageOpcode, messageCompressed := false, [], Text, false;
      }
    }

    /** The part of `handle_frame` for text and binary frames. */
    method HandleData(h: Header)
      requires h.opcode.Text? || h.opcode.Binary?
      modifies this`isOpen, this`isClosing, this`out, this`closes, this`payloadBuffer, this`delivered, this`fragmented,
               this`messageBuffer, this`messageOpcode, this`messageCompressed, outbound
      ensures Abs() == Handle(cfg, old(Abs()), h)
    {
      hide FailWith, DeliverTo, SendFrame, AnswerClose, Reason;
      if fragmented {
        FailWithClose(1002, "New data frame before fragmented message completed");
        return;
      }
      if !h.fin {
        fragmented, messageOpcode, messageBuffer, messageCompressed := true, h.opcode, payloadBuffer, h.rsv1;
        return;
      }
      DeliverMessage(h.opcode, payloadBuffer, h.rsv1, true);
    }

    /** `read_exact`: all `n` octets, or a failure that has consumed what there was. */
    method ReadExact(n: nat) returns (data: seq<byte>, ok: bool)
      modifies this`input
      ensures ok == (|old(input)| >= n)
      ensures ok ==> data == old(input)[..n] && input == old(input)[n..]
      ensures !ok ==> data == old(input) && input == []
    {
      ok := |input| >= n;
      var k := if ok then n else |input|;
      data, input := input[..k], input[k..];
    }

    /** The header part of `parse_header`: two octets, then the extended length, then the key. */
    method ParseHeader() returns (ok: bool)
      modifies this`input, this`header
      ensures ok == ParseRaw(old(input)).Some?
      ensures ok ==> header == ParseRaw(old(input)).value.0 && input == old(input)[ParseRaw(old(input)).value.1..]
      ensures !ok ==> input == []
    {
      ghost var s := input;
      var two, got := ReadExact(2);
      if !got {
        return false;
      }
      var first, second := two[0], two[1];
      var len, key := second % 128, None;
      if len == 126 || len == 127 {
        var width := if len == 126 then 2 else 8;
        var ext;
        ext, got := ReadExact(width);
        if !got {
          return false;
        }
        len := P.ReadBigEndian(ext);
        assert ext == s[2..2 + width];
      }
      assert len == DeclaredLength(s) && input == s[2 + ExtWidth(second)..];
      hide DeclaredLength;
      if second >= 0x80 {
        var k;
        k, got := ReadExact(4);
        if !got {
          return false;
        }
        key := Some(k);
        assert k == s[HeaderSize(second) - 4..HeaderSize(second)];
      }
      assert key == DeclaredKey(s);
      hide DeclaredKey;
      header := RawHeader(first >= 0x80, first / 64 % 2 == 1, first / 32 % 2 == 1, first / 16 % 2 == 1, first % 16,
                          key, len);
      return true;
    }

    /** `read_payload` up to the unmasked contents of `payload_buffer_`. */
    method ReadPayload() returns (ok: bool)
      modifies this`input, this`payloadBuffer, this`crashed
      ensures ok == (header.len <= MAX_PAYLOAD && |old(input)| >= header.len)
      ensures crashed == (old(crashed) || header.len > MAX_PAYLOAD)
      ensures ok ==> payloadBuffer == Buffered(old(Abs()), OnWire(header.key, old(input)[..header.len]))
      ensures ok ==> input == old(input)[header.len..]
      ensures header.len > MAX_PAYLOAD ==> payloadBuffer == old(payloadBuffer) && input == old(input)
      ensures |old(input)| < header.len <= MAX_PAYLOAD ==>
                payloadBuffer == Torn(old(payloadBuffer), old(input), header.len) && input == []
    {
      if header.len == 0 {
        return true;
      }
      if header.len > MAX_PAYLOAD {
        crashed := true;
        return false;
      }
      payloadBuffer := Resized(payloadBuffer, header.len);
      var raw, got := ReadExact(header.len);
      payloadBuffer := raw + payloadBuffer[|raw|..];
      if !got {
        return false;
      }
      assert payloadBuffer == raw;
      if header.key.Some? {
        var a := new byte[|raw|](i requires 0 <= i < |raw| => raw[i]);
        assert a[..] == raw;
        ApplyMask(order, a, 0, header.key.value);
        payloadBuffer := a[..];
        assert payloadBuffer == Masked(raw, header.key.value, 0);
      }
      return true;
    }

    /** `read_one_frame` */
    method ReadOneFrame() returns (more: bool)
      modifies this, outbound
      ensures Abs() == ReadOne(cfg, old(Abs()), old(input)).0 && more == isOpen
      ensures input == ReadOne(cfg, old(Abs()), old(input)).1
    {
      hide ParseRaw, HeaderProblem, Handle, FailWith, OnWire, Torn;
      ghost var s := input;
      if !isOpen {
        return false;
      }
      var ok := ParseHeader();
      if !ok {
        isOpen := false;
        return false;
      }
      ghost var n := ParseRaw(s).value.1;
      var why := HeaderProblem(cfg, header);
      if why.Some? {
        FailWithClose(1002, why.value);
        return isOpen;
      }
      ok := ReadPayload();
      if !ok {
        isOpen := false;
        return false;
      }
      assert s[n..][..header.len] == s[n..n + header.len] && s[n..][header.len..] == s[n + header.len..];
      HeaderOpcode(cfg, header);
      var op := OpcodeOf(header.op).value;
      HandleFrame(Header(header.fin, header.rsv1, header.rsv2, header.rsv3, op, header.key));
      return isOpen;
    }

    /** `read_loop` */
    method Run()
      modifies this, outbound
      ensures Abs() == ReadLoop(cfg, old(Abs()), old(input))
    {
      hide ReadOne;
      while isOpen && !isClosing
        invariant ReadLoop(cfg, Abs(), input) == ReadLoop(cfg, old(Abs()), old(input))
        decreases |input|, isOpen
      {
        var more := ReadOneFrame();
        if !more {
          break;
        }
      }
    }
  }

  /** A header with a length of 2^63 ends the process. */
  lemma OverlongCrashes(cfg: Config, r: Reader)
    requires r.open && !r.closing && cfg.role.Client?
    ensures ReadLoop(cfg, r, [0x82, 127, 0x80, 0, 0, 0, 0, 0, 0, 0]) == r.(open := false, crashed := true)
  {
    var s: seq<byte> := [0x82, 127, 0x80, 0, 0, 0, 0, 0, 0, 0];
    assert s[2..10] == [0x80, 0, 0, 0, 0, 0, 0, 0];
    OverlongLength(s[2..10]);
    var h := RawHeader(true, false, false, false, 2, None, 0x8000_0000_0000_0000);
    assert ParseRaw(s) == Some((h, 10));
    hide ParseRaw, Handle, FailWith, Torn;
    assert HeaderProblem(cfg, h).None?;
    assert ReadOne(cfg, r, s).0 == r.(open := false, crashed := true);
  }

  lemma OverlongLength(s: seq<byte>)
    requires s == [0x80, 0, 0, 0, 0, 0, 0, 0]
    ensures BigEndian(s) == 0x8000_0000_0000_0000
  {
    assert BigEndian(s[..1]) == 0x80 by { assert s[..1][..0] == []; }
    assert BigEndian(s[..2]) == 0x8000 by { assert s[..2][..1] == s[..1]; }
    assert BigEndian(s[..3]) == 0x80_0000 by { assert s[..3][..2] == s[..2]; }
    assert BigEndian(s[..4]) == 0x8000_0000 by { assert s[..4][..3] == s[..3]; }
    assert BigEndian(s[..5]) == 0x80_0000_0000 by { assert s[..5][..4] == s[..4]; }
    assert BigEndian(s[..6]) == 0x8000_0000_0000 by { assert s[..6][..5] == s[..5]; }
    assert BigEndian(s[..7]) == 0x80_0000_0000_0000 by { assert s[..7][..6] == s[..6]; }
    assert s[..7] == s[..|s| - 1];
  }
}
