/**
 * Frames and their wire images (section 5.2 of RFC 6455): the encoding, a decoder that sees the
 * whole input at once, and the round-trip and unique-decoding theorems that relate them.
 */
module Frames {
  import opened Bytes
  import opened Masking

  datatype Opcode = Continuation | Text | Binary | Close | Ping | Pong

  predicate IsControl(op: Opcode)
  {
    op.Close? || op.Ping? || op.Pong?
  }

  /** `Opcode::from_u8` */
  function OpcodeOf(v: nat): (op: Option<Opcode>)
  {
    match v
    case 0x0 => Some(Continuation)
    case 0x1 => Some(Text)
    case 0x2 => Some(Binary)
    case 0x8 => Some(Close)
    case 0x9 => Some(Ping)
    case 0xA => Some(Pong)
    case _ => None
  }

  function OpcodeValue(op: Opcode): (v: nat)
    ensures v < 16 && OpcodeOf(v) == Some(op)
  {
    match op
    case Continuation => 0x0
    case Text => 0x1
    case Binary => 0x2
    case Close => 0x8
    case Ping => 0x9
    case Pong => 0xA
  }

  /** Header fields. `key` is the masking key when the MASK bit is set and `None` otherwise. */
  datatype Header = Header(fin: bool, rsv1: bool, rsv2: bool, rsv3: bool, opcode: Opcode, key: Option<Key>)

  /** A frame with its payload unmasked. */
  datatype Frame = Frame(header: Header, payload: seq<byte>)

  /** Largest payload length a frame may declare. */
  const MAX_PAYLOAD: nat := 0x7FFF_FFFF_FFFF_FFFF

  /** A frame whose payload length fits the 63-bit field. */
  predicate Sendable(f: Frame)
  {
    |f.payload| <= MAX_PAYLOAD
  }

  function Flag(on: bool, weight: nat): (n: nat)
  {
    if on then weight else 0
  }

  // ---- Encoding ------------------------------------------------------------------------

  function FirstByte(h: Header): (b: byte)
  {
    Flag(h.fin, 0x80) + Flag(h.rsv1, 0x40) + Flag(h.rsv2, 0x20) + Flag(h.rsv3, 0x10) + OpcodeValue(h.opcode)
  }

  /** The second octet and the extended length, in the shortest of the three forms. */
  function LengthForm(masked: bool, len: nat): (s: seq<byte>)
    ensures |s| >= 1
  {
    if len <= 125 then [Flag(masked, 0x80) + len]
    else if len <= 0xFFFF then [Flag(masked, 0x80) + 126] + ToBigEndian(len, 2)
    else [Flag(masked, 0x80) + 127] + ToBigEndian(len, 8)
  }

  function KeyBytes(key: Option<Key>): (s: seq<byte>)
  {
    if key.Some? then key.value else []
  }

  /** The payload as it travels: masked from offset 0 when there is a key. */
  function OnWire(key: Option<Key>, payload: seq<byte>): (s: seq<byte>)
    ensures |s| == |payload|
  {
    if key.Some? then Masked(payload, key.value, 0) else payload
  }

  function EncodeHeader(h: Header, len: nat): (s: seq<byte>)
    ensures |s| >= 2
  {
    [FirstByte(h)] + LengthForm(h.key.Some?, len) + KeyBytes(h.key)
  }

  /** The wire image of a frame. */
  function Encode(f: Frame): (s: seq<byte>)
    ensures |s| >= 2
  {
    EncodeHeader(f.header, |f.payload|) + OnWire(f.header.key, f.payload)
  }

  function EncodeAll(fs: seq<Frame>): (s: seq<byte>)
  {
    if fs == [] then [] else Encode(fs[0]) + EncodeAll(fs[1..])
  }

  lemma {:induction false} EncodeAllAppend(fs: seq<Frame>, gs: seq<Frame>)
    ensures EncodeAll(fs + gs) == EncodeAll(fs) + EncodeAll(gs)
  {
    hide Encode;
    if fs == [] {
      assert fs + gs == gs;
    } else {
      EncodeAllAppend(fs[1..], gs);
      assert (fs + gs)[1..] == fs[1..] + gs;
      assert EncodeAll(fs + gs) == Encode(fs[0]) + (EncodeAll(fs[1..]) + EncodeAll(gs));
    }
  }

  // ---- Decoding ------------------------------------------------------------------------

  /** Octets of extended length announced by the second octet. */
  function ExtWidth(second: byte): (n: nat)
  {
    if second % 128 == 126 then 2 else if second % 128 == 127 then 8 else 0
  }

  function KeyWidth(second: byte): (n: nat)
  {
    if second >= 0x80 then 4 else 0
  }

  /** Octets before the payload. */
  function HeaderSize(second: byte): (n: nat)
  {
    2 + ExtWidth(second) + KeyWidth(second)
  }

  function DeclaredLength(s: seq<byte>): (n: nat)
    requires |s| >= 2 && |s| >= 2 + ExtWidth(s[1])
  {
    if ExtWidth(s[1]) == 0 then s[1] % 128 else BigEndian(s[2..2 + ExtWidth(s[1])])
  }

  function DeclaredKey(s: seq<byte>): (key: Option<Key>)
    requires |s| >= 2 && |s| >= HeaderSize(s[1])
  {
    if s[1] >= 0x80 then Some(s[HeaderSize(s[1]) - 4..HeaderSize(s[1])]) else None
  }

  function HeaderOf(first: byte, op: Opcode, key: Option<Key>): (h: Header)
  {
    Header(first >= 0x80, first / 64 % 2 == 1, first / 32 % 2 == 1, first / 16 % 2 == 1, op, key)
  }

  datatype Decoded = NeedMore | Malformed | Whole(frame: Frame, size: nat)

  /** The first frame of `s`, decoded from the whole of `s` at once. */
  function Decode(s: seq<byte>): (d: Decoded)
    ensures d.Whole? ==> 2 <= d.size <= |s| && Sendable(d.frame)
  {
    if |s| < 2 then NeedMore
    else
      var op := OpcodeOf(s[0] % 16);
      if op.None? then Malformed
      else if |s| < 2 + ExtWidth(s[1]) then NeedMore
      else
        var len := DeclaredLength(s);
        var start := HeaderSize(s[1]);
        if len > MAX_PAYLOAD then Malformed
        else if |s| < start + len then NeedMore
        else
          var key := DeclaredKey(s);
          Whole(Frame(HeaderOf(s[0], op.value, key), OnWire(key, s[start..start + len])), start + len)
  }

  /**
   * What an incremental parser can report of `s`: it works only while octets remain, so a frame
   * with an empty payload that ends exactly at the end of `s` is still held back.
   */
  function Visible(s: seq<byte>): (d: Decoded)
    ensures d.Whole? ==> 2 <= d.size <= |s| && Sendable(d.frame)
  {
    var d := Decode(s);
    if d.Whole? && d.frame.payload == [] && d.size == |s| then NeedMore else d
  }

  /** Octets that follow never change a decoded frame or a detected error. */
  lemma DecodePrefix(s: seq<byte>, t: seq<byte>)
    ensures Decode(s).Whole? ==> Decode(s + t) == Decode(s)
    ensures Decode(s).Malformed? ==> Decode(s + t).Malformed?
  {
    var u := s + t;
    if |s| >= 2 && |s| >= 2 + ExtWidth(s[1]) {
      assert u[0] == s[0] && u[1] == s[1];
      SliceLeft(s, t, 2, 2 + ExtWidth(s[1]));
      if Decode(s).Whole? {
        var start, len := HeaderSize(s[1]), DeclaredLength(s);
        SliceLeft(s, t, start, start + len);
        if s[1] >= 0x80 {
          SliceLeft(s, t, start - 4, start);
        }
      }
    }
  }

  /** The same for what an incremental parser reports. */
  lemma VisiblePrefix(s: seq<byte>, t: seq<byte>)
    ensures Visible(s).Whole? ==> Visible(s + t) == Visible(s)
    ensures Visible(s).Malformed? ==> Visible(s + t).Malformed?
  {
    hide Decode;
    DecodePrefix(s, t);
  }

  // ---- Round trip ----------------------------------------------------------------------

  /** The bits of an octet added up from its flags and its low half. */
  lemma FlagBits(a: bool, b: bool, c: bool, d: bool, low: nat)
    requires low < 16
    ensures var x := Flag(a, 0x80) + Flag(b, 0x40) + Flag(c, 0x20) + Flag(d, 0x10) + low;
            && x % 16 == low && (x >= 0x80 <==> a) && (x / 64 % 2 == 1 <==> b) && (x / 32 % 2 == 1 <==> c)
            && (x / 16 % 2 == 1 <==> d)
  {
    var high := Flag(a, 8) + Flag(b, 4) + Flag(c, 2) + Flag(d, 1);
    HighBits(a, b, c, d);
    HighHalf(high, low);
    assert Flag(a, 0x80) + Flag(b, 0x40) + Flag(c, 0x20) + Flag(d, 0x10) == 16 * high;
  }

  lemma HighBits(a: bool, b: bool, c: bool, d: bool)
    ensures var high := Flag(a, 8) + Flag(b, 4) + Flag(c, 2) + Flag(d, 1);
            && high < 16 && (high >= 8 <==> a) && (high / 4 % 2 == 1 <==> b) && (high / 2 % 2 == 1 <==> c)
            && (high % 2 == 1 <==> d)
  {
  }

  lemma HighHalf(high: nat, low: nat)
    requires low < 16
    ensures var x := 16 * high + low;
            x % 16 == low && x / 16 == high && x / 32 == high / 2 && x / 64 == high / 4 && (x >= 0x80 <==> high >= 8)
  {
  }

  lemma FirstByteFields(h: Header)
    ensures OpcodeOf(FirstByte(h) % 16) == Some(h.opcode)
    ensures HeaderOf(FirstByte(h), h.opcode, h.key) == h
  {
    hide Flag, OpcodeOf, OpcodeValue;
    FlagBits(h.fin, h.rsv1, h.rsv2, h.rsv3, OpcodeValue(h.opcode));
  }

  lemma ExtWidthOfForm(masked: bool, short: nat)
    requires short < 128
    ensures var b := Flag(masked, 0x80) + short;
            && (b >= 0x80 <==> masked) && b % 128 == short
            && ExtWidth(b) == (if short == 126 then 2 else if short == 127 then 8 else 0)
  {
  }

  lemma ExtendedLengthDecodes(masked: bool, len: nat, first: byte, width: nat)
    requires (width == 2 && len < 0x1_0000) || (width == 8 && len < 0x1_0000_0000_0000_0000)
    ensures var s := [first] + [Flag(masked, 0x80) + (if width == 2 then 126 else 127)] + ToBigEndian(len, width);
            (s[1] >= 0x80 <==> masked) && ExtWidth(s[1]) == width && DeclaredLength(s) == len
  {
    ExtWidthOfForm(masked, if width == 2 then 126 else 127);
    Power256Values();
    BigEndianRoundTrip(len, width);
    var s := [first] + [Flag(masked, 0x80) + (if width == 2 then 126 else 127)] + ToBigEndian(len, width);
    hide ToBigEndian, BigEndian;
    assert s[2..2 + width] == ToBigEndian(len, width);
  }

  lemma LengthFormDecodes(masked: bool, len: nat, first: byte)
    requires len <= MAX_PAYLOAD
    ensures var s := [first] + LengthForm(masked, len);
            && (s[1] >= 0x80 <==> masked)
            && |s| == 2 + ExtWidth(s[1])
            && DeclaredLength(s) == len
  {
    if len <= 125 {
      ExtWidthOfForm(masked, len);
    } else {
      var width := if len <= 0xFFFF then 2 else 8;
      ExtendedLengthDecodes(masked, len, first, width);
      hide ToBigEndian, BigEndian, DeclaredLength, ExtWidth, Flag;
      var short := [Flag(masked, 0x80) + (if width == 2 then 126 else 127)];
      assert [first] + LengthForm(masked, len) == [first] + short + ToBigEndian(len, width);
    }
  }

  lemma Power256Values()
    ensures Power256(2) == 0x1_0000 && Power256(8) == 0x1_0000_0000_0000_0000
  {
    assert Power256(4) == 0x1_0000_0000;
    assert Power256(6) == 0x1_0000_0000_0000;
  }

  lemma OnWireTwice(key: Option<Key>, payload: seq<byte>)
    ensures OnWire(key, OnWire(key, payload)) == payload
  {
    if key.Some? {
      MaskInvolution(payload, key.value, 0);
    }
  }

  lemma KeyBytesDecode(pre: seq<byte>, key: Option<Key>, after: seq<byte>)
    requires |pre| >= 2 && (pre[1] >= 0x80 <==> key.Some?) && |pre| == 2 + ExtWidth(pre[1])
    ensures DeclaredKey(pre + KeyBytes(key) + after) == key
    ensures HeaderSize(pre[1]) == |pre + KeyBytes(key)|
  {
    var head := pre + KeyBytes(key);
    if key.Some? {
      SliceLeft(head, after, |pre|, |head|);
      SliceRight(pre, key.value, |pre|, |head|);
    }
  }

  /** Decoding a frame put together from its parts: fixed octets and length, key, payload. */
  lemma DecodeAssembled(pre: seq<byte>, op: Opcode, key: Option<Key>, body: seq<byte>, rest: seq<byte>)
    requires |pre| >= 2 && (pre[1] >= 0x80 <==> key.Some?) && |pre| == 2 + ExtWidth(pre[1])
    requires OpcodeOf(pre[0] % 16) == Some(op) && DeclaredLength(pre) == |body| <= MAX_PAYLOAD
    ensures Decode(pre + KeyBytes(key) + body + rest)
         == Whole(Frame(HeaderOf(pre[0], op, key), OnWire(key, body)), |pre + KeyBytes(key) + body|)
  {
    var head := pre + KeyBytes(key);
    var s := head + body + rest;
    var after := KeyBytes(key) + (body + rest);
    assert s == head + (body + rest) && s == pre + after;
    KeyBytesDecode(pre, key, body + rest);
    SliceLeft(pre, after, 2, 2 + ExtWidth(pre[1]));
    SliceRight(head, body + rest, |head|, |head| + |body|);
    SliceLeft(body, rest, 0, |body|);
    hide Masked, HeaderOf, OnWire, DeclaredKey;
    assert s[0] == pre[0] && s[1] == pre[1];
    assert DeclaredLength(s) == |body|;
    hide DeclaredLength;
    assert s[|head|..|head| + |body|] == body;
  }

  /** Decoding an encoded frame gives the frame back and consumes exactly its octets. */
  lemma RoundTrip(f: Frame, rest: seq<byte>)
    requires Sendable(f)
    ensures Decode(Encode(f) + rest) == Whole(f, |Encode(f)|)
  {
    hide Masked, LengthForm, FirstByte, HeaderOf, OnWire, DeclaredLength, Decode;
    var h, len := f.header, |f.payload|;
    var form := LengthForm(h.key.Some?, len);
    var pre := [FirstByte(h)] + form;
    var body := OnWire(h.key, f.payload);
    LengthFormDecodes(h.key.Some?, len, FirstByte(h));
    FirstByteFields(h);
    DecodeAssembled(pre, h.opcode, h.key, body, rest);
    OnWireTwice(h.key, f.payload);
    assert Encode(f) == pre + KeyBytes(h.key) + body;
  }

  /** Within a stream the frame is reported as soon as its payload or one later octet is there. */
  lemma RoundTripVisible(f: Frame, rest: seq<byte>)
    requires Sendable(f) && (f.payload != [] || rest != [])
    ensures Visible(Encode(f) + rest) == Whole(f, |Encode(f)|)
  {
    hide Decode, Encode;
    RoundTrip(f, rest);
  }

  /** A concatenation of wire images determines the list of frames. */
  lemma {:induction false} UniqueDecoding(fs: seq<Frame>, gs: seq<Frame>)
    requires forall f | f in fs :: Sendable(f)
    requires forall g | g in gs :: Sendable(g)
    requires EncodeAll(fs) == EncodeAll(gs)
    ensures fs == gs
  {
    hide Decode, Encode;
    if fs == [] || gs == [] {
    } else {
      RoundTrip(fs[0], EncodeAll(fs[1..]));
      RoundTrip(gs[0], EncodeAll(gs[1..]));
      assert fs[0] == gs[0];
      var n := |Encode(fs[0])|;
      assert EncodeAll(fs[1..]) == EncodeAll(fs)[n..] && EncodeAll(gs[1..]) == EncodeAll(gs)[n..];
      UniqueDecoding(fs[1..], gs[1..]);
      assert fs == [fs[0]] + fs[1..] && gs == [gs[0]] + gs[1..];
    }
  }

  // ---- Minimality of the encoding ------------------------------------------------------

  /** No accepted length field is shorter than `LengthForm`, and only `LengthForm` itself is as short. */
  lemma LengthFormMinimal(s: seq<byte>)
    requires |s| >= 2 && |s| >= 2 + ExtWidth(s[1])
    ensures |LengthForm(s[1] >= 0x80, DeclaredLength(s))| <= 1 + ExtWidth(s[1])
    ensures |LengthForm(s[1] >= 0x80, DeclaredLength(s))| == 1 + ExtWidth(s[1])
        ==> LengthForm(s[1] >= 0x80, DeclaredLength(s)) == s[1..2 + ExtWidth(s[1])]
  {
    var w := ExtWidth(s[1]);
    Power256Values();
    if w > 0 {
      var ext := s[2..2 + w];
      BigEndianBound(ext);
      ToBigEndianOf(ext);
      assert s[1..2 + w] == [s[1]] + ext;
    } else {
      assert s[1..2] == [s[1]];
    }
  }

  lemma OpcodeOfInverse(v: nat)
    requires OpcodeOf(v).Some?
    ensures OpcodeValue(OpcodeOf(v).value) == v
  {
  }

  lemma TopBits(x: byte)
    ensures x == 128 * (x / 128) + 64 * (x / 64 % 2) + 32 * (x / 32 % 2) + 16 * (x / 16 % 2) + x % 16
  {
    assert x / 64 / 2 == x / 128;
    assert x / 32 / 2 == x / 64;
    assert x / 16 / 2 == x / 32;
  }

  lemma FirstByteOfHeaderOf(first: byte, op: Opcode, key: Option<Key>)
    requires OpcodeOf(first % 16) == Some(op)
    ensures FirstByte(HeaderOf(first, op, key)) == first
  {
    OpcodeOfInverse(first % 16);
    TopBits(first);
    TopFlag(first);
    hide OpcodeOf, OpcodeValue;
  }

  lemma TopFlag(x: byte)
    ensures Flag(x >= 0x80, 0x80) == 128 * (x / 128)
    ensures Flag(x / 64 % 2 == 1, 0x40) == 64 * (x / 64 % 2)
    ensures Flag(x / 32 % 2 == 1, 0x20) == 32 * (x / 32 % 2)
    ensures Flag(x / 16 % 2 == 1, 0x10) == 16 * (x / 16 % 2)
  {
  }

  /**
   * `Encode` is the shortest wire image of a frame: whatever octets decode to `f`, they are at
   * least as many, and as many only when they are `Encode(f)` itself.
   */
  lemma EncodeIsMinimal(s: seq<byte>)
    requires Decode(s).Whole?
    ensures var Whole(f, n) := Decode(s);
            && |Encode(f)| <= n
            && (|Encode(f)| == n <==> Encode(f) == s[..n])
  {
    var Whole(f, n) := Decode(s);
    var start, len, w := HeaderSize(s[1]), DeclaredLength(s), ExtWidth(s[1]);
    var raw := s[start..start + len];
    var key := DeclaredKey(s);
    var form := LengthForm(s[1] >= 0x80, len);
    assert f == Frame(HeaderOf(s[0], OpcodeOf(s[0] % 16).value, key), OnWire(key, raw));
    hide Masked, LengthForm, FirstByte, HeaderOf, OnWire, DeclaredLength, OpcodeOf, Decode;
    LengthFormMinimal(s);
    FirstByteOfHeaderOf(s[0], OpcodeOf(s[0] % 16).value, key);
    OnWireTwice(key, raw);
    assert KeyBytes(key) == s[2 + w..start];
    assert Encode(f) == [s[0]] + form + KeyBytes(key) + raw by {
      HeaderOfFields(s[0], OpcodeOf(s[0] % 16).value, key);
    }
    Cut(s, 2 + w, start, n);
  }

  lemma Cut(s: seq<byte>, a: nat, b: nat, c: nat)
    requires 1 <= a <= b <= c <= |s|
    ensures s[..c] == [s[0]] + s[1..a] + s[a..b] + s[b..c]
  {
  }

  lemma HeaderOfFields(first: byte, op: Opcode, key: Option<Key>)
    ensures HeaderOf(first, op, key).opcode == op && HeaderOf(first, op, key).key == key
  {
  }

  // ---- Streams -------------------------------------------------------------------------

  /** The frames an incremental parser reports of a stream, what it keeps, and whether it stopped on an error. */
  datatype Parsed = Parsed(frames: seq<Frame>, rest: seq<byte>, malformed: bool)

  function ParseStream(s: seq<byte>): (p: Parsed)
    decreases |s|
  {
    match Visible(s)
    case NeedMore => Parsed([], s, false)
    case Malformed => Parsed([], s, true)
    case Whole(f, n) =>
      var p := ParseStream(s[n..]);
      Parsed([f] + p.frames, p.rest, p.malformed)
  }

  /** Complete frames of a stream, held back or not. */
  function DecodeStream(s: seq<byte>): (fs: seq<Frame>)
    decreases |s|
  {
    var d := Decode(s);
    if d.Whole? then [d.frame] + DecodeStream(s[d.size..]) else []
  }

  /**
   * The reported frames are all complete frames, except that a last frame with an empty payload
   * ending exactly at the end of the stream is kept back in `rest`.
   */
  lemma {:induction false} HeldBackFrame(s: seq<byte>)
    ensures var p := ParseStream(s);
            DecodeStream(s) == p.frames + DecodeStream(p.rest)
    ensures var p := ParseStream(s);
            !p.malformed && DecodeStream(p.rest) != [] ==>
              Decode(p.rest).Whole? && Decode(p.rest).frame.payload == [] && Decode(p.rest).size == |p.rest|
    ensures var p := ParseStream(s);
            p.malformed <==> Decode(p.rest).Malformed?
    decreases |s|
  {
    hide Decode;
    match Visible(s)
    case NeedMore =>
    case Malformed =>
    case Whole(f, n) =>
      HeldBackFrame(s[n..]);
      var p := ParseStream(s[n..]);
      assert [f] + (p.frames + DecodeStream(p.rest)) == ([f] + p.frames) + DecodeStream(p.rest);
  }

  /** Parsing a wire image reports its frame, then goes on with what follows. */
  lemma ParseEncodedOne(f: Frame, tail: seq<byte>)
    requires Sendable(f) && (f.payload != [] || tail != [])
    ensures var p := ParseStream(tail);
            ParseStream(Encode(f) + tail) == Parsed([f] + p.frames, p.rest, p.malformed)
  {
    hide Visible, Encode;
    RoundTripVisible(f, tail);
    var s := Encode(f) + tail;
    assert s[|Encode(f)|..] == tail;
  }

  /** The same for the wire images of a list of frames. */
  lemma {:induction false} ParseEncoded(fs: seq<Frame>, rest: seq<byte>)
    requires forall f | f in fs :: Sendable(f)
    requires fs == [] || rest != [] || fs[|fs| - 1].payload != []
    ensures var p := ParseStream(rest);
            ParseStream(EncodeAll(fs) + rest) == Parsed(fs + p.frames, p.rest, p.malformed)
  {
    hide Visible, Encode, ParseStream;
    var p := ParseStream(rest);
    if fs == [] {
      assert EncodeAll(fs) + rest == rest;
      assert fs + p.frames == p.frames;
    } else {
      var tail := EncodeAll(fs[1..]) + rest;
      assert EncodeAll(fs) + rest == Encode(fs[0]) + tail;
      ParseEncoded(fs[1..], rest);
      ParseEncodedOne(fs[0], tail);
      assert [fs[0]] + (fs[1..] + p.frames) == fs + p.frames;
    }
  }

  /** Octets of a stream after its last complete frame. */
  function Remainder(s: seq<byte>): (rest: seq<byte>)
    decreases |s|
  {
    var d := Decode(s);
    if d.Whole? then Remainder(s[d.size..]) else s
  }

  lemma DecodeEncodedOne(f: Frame, tail: seq<byte>)
    requires Sendable(f)
    ensures DecodeStream(Encode(f) + tail) == [f] + DecodeStream(tail)
    ensures Remainder(Encode(f) + tail) == Remainder(tail)
  {
    hide Decode, Encode;
    RoundTrip(f, tail);
    var s := Encode(f) + tail;
    assert s[|Encode(f)|..] == tail;
  }

  /** The frames of a stream that starts with wire images. */
  lemma {:induction false} DecodeEncoded(fs: seq<Frame>, rest: seq<byte>)
    requires forall f | f in fs :: Sendable(f)
    ensures DecodeStream(EncodeAll(fs) + rest) == fs + DecodeStream(rest)
    ensures Remainder(EncodeAll(fs) + rest) == Remainder(rest)
  {
    hide DecodeStream, Remainder, Encode;
    if fs == [] {
      assert EncodeAll(fs) + rest == rest;
    } else {
      var tail := EncodeAll(fs[1..]) + rest;
      assert EncodeAll(fs) + rest == Encode(fs[0]) + tail;
      DecodeEncodedOne(fs[0], tail);
      DecodeEncoded(fs[1..], rest);
      assert [fs[0]] + (fs[1..] + DecodeStream(rest)) == fs + DecodeStream(rest);
    }
  }

  lemma NothingDecoded()
    ensures DecodeStream([]) == [] && Remainder([]) == []
  {
  }
}
