/**
 * The frame format of section 5.2 of RFC 6455, bit by bit and with the numbers of the standard, stated
 * apart from the encoder and the decoder: what decodes to a frame is exactly what is laid out as that
 * frame, and the examples of section 5.7 come out as printed there.
 */
module WireFormat {
  import opened Bytes
  import opened Masking
  import opened Frames
  import opened Builder
  import P = Parser

  // ---- The format ----------------------------------------------------------------------

  /** The opcode numbers of the standard. */
  ghost predicate Numbered(op: Opcode, n: nat)
  {
    || (n == 0x0 && op.Continuation?) || (n == 0x1 && op.Text?) || (n == 0x2 && op.Binary?)
    || (n == 0x8 && op.Close?) || (n == 0x9 && op.Ping?) || (n == 0xA && op.Pong?)
  }

  /** Octets of the extended length, by the seven-bit length. */
  ghost function Extension(short: nat): (n: nat)
  {
    if short == 126 then 2 else if short == 127 then 8 else 0
  }

  /** Four octets in network order. */
  ghost function Word(s: seq<byte>, i: nat): (n: nat)
    requires i + 4 <= |s|
  {
    s[i] as nat * 0x100_0000 + s[i + 1] as nat * 0x1_0000 + s[i + 2] as nat * 0x100 + s[i + 3]
  }

  /** The length in network order: seven bits, two octets or eight. */
  ghost predicate Length(s: seq<byte>, n: nat)
    requires |s| >= 2
  {
    var short := s[1] % 128;
    if short < 126 then n == short
    else if short == 126 then |s| >= 4 && n == s[2] as nat * 0x100 + s[3]
    else |s| >= 10 && n == 0x1_0000_0000 * Word(s, 2) + Word(s, 6)
  }

  /** The first octet: FIN and the reserved bits above the opcode. */
  ghost predicate FirstOctet(b: byte, h: Header)
  {
    && (Bit(b, 7) <==> h.fin) && (Bit(b, 6) <==> h.rsv1) && (Bit(b, 5) <==> h.rsv2) && (Bit(b, 4) <==> h.rsv3)
    && Numbered(h.opcode, b % 16)
  }

  /** Octet `r` is octet `p`, with the bits flipped that are set in the key octet, if there is a key. */
  ghost predicate MaskedOctetIs(r: byte, p: byte, key: Option<Key>, i: nat)
  {
    forall j | 0 <= j < 8 :: Bit(r, j) <==> (Bit(p, j) != (key.Some? && Bit(key.value[i % 4], j)))
  }

  /** `s` is laid out as the frame `f`. */
  ghost predicate Layout(s: seq<byte>, f: Frame)
  {
    && |s| >= 2
    && var (key, n) := (f.header.key, |f.payload|);
       var fixed := 2 + Extension(s[1] % 128);
       var start := fixed + if key.Some? then 4 else 0;
       && FirstOctet(s[0], f.header) && (Bit(s[1], 7) <==> key.Some?)
       && |s| == start + n && Length(s, n) && n < 0x8000_0000_0000_0000
       && (key.Some? ==> s[fixed..start] == key.value)
       && forall i | 0 <= i < n :: MaskedOctetIs(s[start + i], f.payload[i], key, i)
  }

  // ---- The decoder follows it ----------------------------------------------------------

  lemma Powers()
    ensures Pow2(4) == 16 && Pow2(5) == 32 && Pow2(6) == 64 && Pow2(7) == 128
  {
    assert Pow2(2) == 4;
  }

  lemma OpcodeNumbers(op: Opcode, n: nat)
    ensures Numbered(op, n) <==> OpcodeOf(n) == Some(op)
    ensures Numbered(op, n) <==> OpcodeValue(op) == n
  {
  }

  lemma FirstOctetIs(b: byte, op: Opcode, key: Option<Key>, h: Header)
    requires h.opcode == op && h.key == key
    ensures FirstOctet(b, h) <==> OpcodeOf(b % 16) == Some(op) && HeaderOf(b, op, key) == h
  {
    Powers();
    OpcodeNumbers(op, b % 16);
    hide OpcodeOf, Pow2, Numbered;
  }

  lemma MaskBitIs(b: byte)
    ensures Bit(b, 7) <==> b >= 0x80
  {
    Powers();
    hide Pow2;
  }

  lemma BigEndianLast(s: seq<byte>)
    requires s != []
    ensures BigEndian(s) == 256 * BigEndian(s[..|s| - 1]) + s[|s| - 1]
  {
  }

  lemma MoreOctets(s: seq<byte>, k: nat)
    requires k < |s|
    ensures BigEndian(s[..k + 1]) == 256 * BigEndian(s[..k]) + s[k]
  {
    hide BigEndian;
    assert s[..k + 1][..k] == s[..k];
    BigEndianLast(s[..k + 1]);
  }

  lemma MoreWord(s: seq<byte>, k: nat)
    requires k + 4 <= |s|
    ensures BigEndian(s[..k + 4]) == 0x1_0000_0000 * BigEndian(s[..k]) + Word(s, k)
  {
    hide BigEndian;
    MoreOctets(s, k);
    MoreOctets(s, k + 1);
    MoreOctets(s, k + 2);
    MoreOctets(s, k + 3);
  }

  lemma NoOctets(s: seq<byte>)
    ensures BigEndian(s[..0]) == 0
  {
  }

  lemma TwoOctets(s: seq<byte>)
    requires |s| == 2
    ensures BigEndian(s) == s[0] as nat * 0x100 + s[1]
  {
    hide BigEndian;
    NoOctets(s);
    MoreOctets(s, 0);
    MoreOctets(s, 1);
    assert s[..2] == s;
  }

  lemma EightOctetsAre(s: seq<byte>)
    requires |s| == 8
    ensures BigEndian(s) == 0x1_0000_0000 * Word(s, 0) + Word(s, 4)
  {
    hide BigEndian, Word;
    NoOctets(s);
    MoreWord(s, 0);
    MoreWord(s, 4);
    assert s[..8] == s;
  }

  /** The length field means what the decoder reads. */
  lemma LengthIs(s: seq<byte>, n: nat)
    requires |s| >= 2 && |s| >= 2 + ExtWidth(s[1])
    ensures Length(s, n) <==> DeclaredLength(s) == n
    ensures Extension(s[1] % 128) == ExtWidth(s[1])
  {
    hide BigEndian;
    if s[1] % 128 == 126 {
      TwoOctets(s[2..4]);
    } else if s[1] % 128 == 127 {
      EightOctetsAre(s[2..10]);
    }
  }

  /** The payload octets on the wire. */
  lemma OnWireIs(raw: seq<byte>, payload: seq<byte>, key: Option<Key>)
    requires |raw| == |payload|
    ensures OnWire(key, raw) == payload <==> forall i | 0 <= i < |raw| :: MaskedOctetIs(raw[i], payload[i], key, i)
  {
    hide Xor;
    forall i | 0 <= i < |raw|
      ensures OnWire(key, raw)[i] == payload[i] <==> MaskedOctetIs(raw[i], payload[i], key, i)
    {
      OctetIs(raw[i], payload[i], key, i);
    }
    if OnWire(key, raw) == payload {
      forall i | 0 <= i < |raw| ensures MaskedOctetIs(raw[i], payload[i], key, i) {
        assert OnWire(key, raw)[i] == payload[i];
      }
    }
    hide MaskedOctetIs;
  }

  lemma OctetIs(r: byte, p: byte, key: Option<Key>, i: nat)
    ensures (if key.Some? then Xor(r, key.value[i % 4]) else r) == p <==> MaskedOctetIs(r, p, key, i)
  {
    var k := if key.Some? then key.value[i % 4] else 0;
    XorMeaning(r, k, p);
    XorZero(r);
    hide Xor, Bit;
    forall j | 0 <= j < 8 ensures key.None? ==> !Bit(k, j) { NoBits(j); }
  }

  /** The header part of both: the fields, where the payload starts, and how long it is. */
  lemma SameHeader(s: seq<byte>, f: Frame)
    requires |s| >= 2 && |s| >= HeaderSize(s[1])
    ensures FirstOctet(s[0], f.header) <==>
            OpcodeOf(s[0] % 16) == Some(f.header.opcode) && HeaderOf(s[0], f.header.opcode, f.header.key) == f.header
    ensures (Bit(s[1], 7) <==> s[1] >= 0x80) && Extension(s[1] % 128) == ExtWidth(s[1])
    ensures Length(s, |f.payload|) <==> DeclaredLength(s) == |f.payload|
  {
    hide BigEndian, FirstOctet, HeaderOf, OpcodeOf, Bit, DeclaredLength, Length;
    MaskBitIs(s[1]);
    FirstOctetIs(s[0], f.header.opcode, f.header.key, f.header);
    LengthIs(s, |f.payload|);
  }

  lemma WholeIsLaidOut(s: seq<byte>, f: Frame)
    requires Decode(s) == Whole(f, |s|)
    ensures Layout(s, f)
  {
    var raw := s[HeaderSize(s[1])..];
    assert raw == s[HeaderSize(s[1])..HeaderSize(s[1]) + DeclaredLength(s)];
    SameHeader(s, f);
    OnWireIs(raw, f.payload, DeclaredKey(s));
    hide BigEndian, OnWire, FirstOctet, OpcodeOf, MaskedOctetIs, Bit, DeclaredLength, Length, ExtWidth, Extension;
  }

  lemma LaidOutIsWhole(s: seq<byte>, f: Frame)
    requires Layout(s, f)
    ensures Decode(s) == Whole(f, |s|)
  {
    hide BigEndian, OnWire, FirstOctet, HeaderOf, OpcodeOf, MaskedOctetIs, Bit, DeclaredLength, Length;
    MaskBitIs(s[1]);
    assert Extension(s[1] % 128) == ExtWidth(s[1]);
    SameHeader(s, f);
    var raw := s[HeaderSize(s[1])..];
    assert f.header.key == DeclaredKey(s);
    OnWireIs(raw, f.payload, DeclaredKey(s));
    assert raw == s[HeaderSize(s[1])..HeaderSize(s[1]) + |f.payload|];
    hide ExtWidth, Extension, DeclaredKey;
  }

  /** What decodes to a frame is exactly what is laid out as that frame. */
  lemma DecodeIffLayout(s: seq<byte>, f: Frame)
    ensures Decode(s) == Whole(f, |s|) <==> Layout(s, f)
  {
    hide Decode, Layout;
    if Decode(s) == Whole(f, |s|) {
      WholeIsLaidOut(s, f);
    } else if Layout(s, f) {
      LaidOutIsWhole(s, f);
    }
  }

  /** So the encoder writes that layout, for every frame. */
  lemma EncodeLaysOut(f: Frame)
    requires Sendable(f)
    ensures Layout(Encode(f), f)
  {
    hide Encode, Decode, Layout;
    RoundTrip(f, []);
    assert Encode(f) + [] == Encode(f);
    DecodeIffLayout(Encode(f), f);
  }

  /** In a stream: the first frame is what a prefix is laid out as. */
  lemma DecodeInStream(s: seq<byte>, f: Frame, n: nat)
    ensures Decode(s) == Whole(f, n) <==> n <= |s| && Layout(s[..n], f)
  {
    hide Decode, Layout;
    if n <= |s| {
      var t := s[..n];
      DecodeIffLayout(t, f);
      assert t + s[n..] == s;
      if Layout(t, f) {
        DecodePrefix(t, s[n..]);
      }
      if Decode(s) == Whole(f, n) {
        P.DecodeExact(s);
      }
    }
  }

  /** What is refused as soon as it is there: an undefined opcode, and a length of 2^63 or more. */
  lemma DecodeErrorExact(s: seq<byte>)
    ensures Decode(s).Malformed? <==>
            && |s| >= 2
            && (|| s[0] % 16 !in {0x0, 0x1, 0x2, 0x8, 0x9, 0xA}
                || exists n :: Length(s, n) && n >= 0x8000_0000_0000_0000)
  {
    if |s| >= 2 {
      hide BigEndian, OnWire, HeaderOf, DeclaredKey;
      if |s| >= 2 + ExtWidth(s[1]) {
        var n := DeclaredLength(s);
        LengthIs(s, n);
        forall m | Length(s, m) ensures m == n { LengthIs(s, m); }
        hide DeclaredLength, Length;
      }
    }
  }

  // ---- The examples of section 5.7 of RFC 6455 -----------------------------------------

  const HELLO: seq<byte> := [0x48, 0x65, 0x6C, 0x6C, 0x6F]
  const KEY: Key := [0x37, 0xFA, 0x21, 0x3D]

  /** A frame as the encoders are asked for one. */
  function Image(op: Opcode, fin: bool, key: Option<Key>, payload: seq<byte>): (s: seq<byte>)
  {
    Encode(FrameOf(op, fin, false, key, payload))
  }

  lemma UnmaskedImage(op: Opcode, fin: bool, payload: seq<byte>)
    requires |payload| <= 125
    ensures Image(op, fin, None, payload) == [Flag(fin, 0x80) + OpcodeValue(op), |payload|] + payload
  {
  }

  lemma MaskedImage(op: Opcode, fin: bool, key: Key, payload: seq<byte>)
    requires |payload| <= 125
    ensures Image(op, fin, Some(key), payload) ==
            [Flag(fin, 0x80) + OpcodeValue(op), 0x80 + |payload|] + key + Masked(payload, key, 0)
  {
    hide Masked;
  }

  lemma XorNibble(a: nat, b: nat)
    ensures XorBits(a, b, 4) ==
            XorBit(a, b) + 2 * XorBit(a / 2, b / 2) + 4 * XorBit(a / 4, b / 4) + 8 * XorBit(a / 8, b / 8)
  {
    hide XorBit, XorBits;
    XorBitsStep(a, b, 4);
    XorBitsStep(a / 2, b / 2, 3);
    XorBitsStep(a / 4, b / 4, 2);
    XorBitsStep(a / 8, b / 8, 1);
    XorBitsNone(a / 16, b / 16);
    assert a / 2 / 2 == a / 4 && b / 2 / 2 == b / 4 && a / 4 / 2 == a / 8 && b / 4 / 2 == b / 8;
    assert a / 8 / 2 == a / 16 && b / 8 / 2 == b / 16;
  }

  lemma XorNibbles(a: byte, b: byte)
    ensures Xor(a, b) == XorBits(a % 16, b % 16, 4) + 16 * XorBits(a / 16, b / 16, 4)
  {
    Powers();
    XorBitsSplit(a % 16, b % 16, 4, a / 16, b / 16, 4);
    hide XorBits;
    ShiftedFour(a / 16);
    ShiftedFour(b / 16);
    ShiftedFour(XorBits(a / 16, b / 16, 4));
  }

  lemma ShiftedFour(x: nat)
    ensures Shifted(x, 4) == 16 * x
  {
    assert Shifted(x, 1) == 2 * Shifted(x, 0);
    assert Shifted(x, 3) == 2 * Shifted(x, 2);
  }

  lemma HelloOctet0()
    ensures Xor(0x48, 0x37) == 0x7F
  {
    hide Xor, XorBits;
    XorNibbles(0x48, 0x37);
    XorNibble(0x8, 0x7);
    XorNibble(0x4, 0x3);
  }

  lemma HelloOctet1()
    ensures Xor(0x65, 0xFA) == 0x9F
  {
    hide Xor, XorBits;
    XorNibbles(0x65, 0xFA);
    XorNibble(0x5, 0xA);
    XorNibble(0x6, 0xF);
  }

  lemma HelloOctet2()
    ensures Xor(0x6C, 0x21) == 0x4D
  {
    hide Xor, XorBits;
    XorNibbles(0x6C, 0x21);
    XorNibble(0xC, 0x1);
    XorNibble(0x6, 0x2);
  }

  lemma HelloOctet3()
    ensures Xor(0x6C, 0x3D) == 0x51
  {
    hide Xor, XorBits;
    XorNibbles(0x6C, 0x3D);
    XorNibble(0xC, 0xD);
    XorNibble(0x6, 0x3);
  }

  lemma HelloOctet4()
    ensures Xor(0x6F, 0x37) == 0x58
  {
    hide Xor, XorBits;
    XorNibbles(0x6F, 0x37);
    XorNibble(0xF, 0x7);
    XorNibble(0x6, 0x3);
  }

  /** XOR of the octets of "Hello" with the key of the examples. */
  lemma MaskedHello()
    ensures Masked(HELLO, KEY, 0) == [0x7F, 0x9F, 0x4D, 0x51, 0x58]
  {
    hide Xor;
    HelloOctet0();
    HelloOctet1();
    HelloOctet2();
    HelloOctet3();
    HelloOctet4();
  }

  /** A single-frame unmasked text message. */
  lemma HelloUnmasked()
    ensures Image(Text, true, None, HELLO) == [0x81, 0x05, 0x48, 0x65, 0x6C, 0x6C, 0x6F]
  {
    hide Image;
    UnmaskedImage(Text, true, HELLO);
  }

  /** A single-frame masked text message. */
  lemma HelloMasked()
    ensures Image(Text, true, Some(KEY), HELLO) == [0x81, 0x85, 0x37, 0xFA, 0x21, 0x3D, 0x7F, 0x9F, 0x4D, 0x51, 0x58]
  {
    hide Masked, Image;
    MaskedImage(Text, true, KEY, HELLO);
    MaskedHello();
  }

  /** A fragmented unmasked text message. */
  lemma HelloFragments()
    ensures Image(Text, false, None, [0x48, 0x65, 0x6C]) == [0x01, 0x03, 0x48, 0x65, 0x6C]
    ensures Image(Continuation, true, None, [0x6C, 0x6F]) == [0x80, 0x02, 0x6C, 0x6F]
  {
    hide Image;
    UnmaskedImage(Text, false, [0x48, 0x65, 0x6C]);
    UnmaskedImage(Continuation, true, [0x6C, 0x6F]);
  }

  /** An unmasked ping request. */
  lemma HelloPing()
    ensures Image(Ping, true, None, HELLO) == [0x89, 0x05, 0x48, 0x65, 0x6C, 0x6C, 0x6F]
  {
    hide Image;
    UnmaskedImage(Ping, true, HELLO);
  }

  /** The masked pong response. */
  lemma HelloPong()
    ensures Image(Pong, true, Some(KEY), HELLO) == [0x8A, 0x85, 0x37, 0xFA, 0x21, 0x3D, 0x7F, 0x9F, 0x4D, 0x51, 0x58]
  {
    hide Masked, Image;
    MaskedImage(Pong, true, KEY, HELLO);
    MaskedHello();
  }

  lemma UnmaskedForm(op: Opcode, payload: seq<byte>, form: seq<byte>)
    requires LengthForm(false, |payload|) == form
    ensures Image(op, true, None, payload) == [0x80 + OpcodeValue(op)] + form + payload
  {
    hide LengthForm;
  }

  lemma Two256()
    ensures ToBigEndian(256, 2) == [0x01, 0x00]
  {
    var a: seq<byte> := [0x01, 0x00];
    TwoOctets(a);
    ToBigEndianOf(a);
  }

  /** 256 octets of binary data. */
  lemma Binary256(payload: seq<byte>)
    requires |payload| == 256
    ensures Image(Binary, true, None, payload) == [0x82, 0x7E, 0x01, 0x00] + payload
  {
    Two256();
    hide ToBigEndian, Image;
    var form: seq<byte> := [0x7E] + [0x01, 0x00];
    assert LengthForm(false, 256) == form;
    hide LengthForm;
    UnmaskedForm(Binary, payload, form);
    assert [0x82] + form == [0x82, 0x7E, 0x01, 0x00];
  }

  /** The length 65536 in eight octets. */
  lemma Eight65536()
    ensures ToBigEndian(65536, 8) == [0x00, 0x00, 0x00, 0x00, 0x00, 0x01, 0x00, 0x00]
  {
    hide ToBigEndian, BigEndian;
    var b: seq<byte> := [0x00, 0x00, 0x00, 0x00, 0x00, 0x01, 0x00, 0x00];
    EightOctetsAre(b);
    ToBigEndianOf(b);
  }

  /** 64 KiB of binary data. */
  lemma Binary65536(payload: seq<byte>)
    requires |payload| == 65536
    ensures Image(Binary, true, None, payload) ==
            [0x82, 0x7F, 0x00, 0x00, 0x00, 0x00, 0x00, 0x01, 0x00, 0x00] + payload
  {
    hide ToBigEndian, Image;
    Eight65536();
    UnmaskedForm(Binary, payload, [0x7F] + ToBigEndian(65536, 8));
    hide *;
  }

  /** A CLOSE with code 1000 and one with a code and a reason. */
  lemma CloseExamples()
    ensures Image(Close, true, None, CloseBody(1000, [])) == [0x88, 0x02, 0x03, 0xE8]
    ensures Image(Close, true, None, CloseBody(1002, [0x6E, 0x6F])) == [0x88, 0x04, 0x03, 0xEA, 0x6E, 0x6F]
  {
    UnmaskedImage(Close, true, CloseBody(1000, []));
    UnmaskedImage(Close, true, CloseBody(1002, [0x6E, 0x6F]));
    hide Image;
  }
}
