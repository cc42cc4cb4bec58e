/**
 * The frame encoders: the Rust copy-then-mask encoder, chained builder and close encoder, and the
 * C++ builder. Each fills an output vector; all are proved to write the wire image of `Frames.Encode`.
 */
module Builder {
  import opened Bytes
  import opened Masking
  import opened Frames

  /** A growable byte vector that encoders clear, append to and mask in place. */
  class ByteVec {
    var bytes: seq<byte>

    constructor ()
      ensures bytes == []
    {
      bytes := [];
    }

    method Clear()
      modifies this
      ensures bytes == []
    {
      bytes := [];
    }

    method Push(b: byte)
      modifies this
      ensures bytes == old(bytes) + [b]
    {
      bytes := bytes + [b];
    }

    method Extend(s: seq<byte>)
      modifies this
      ensures bytes == old(bytes) + s
    {
      bytes := bytes + s;
    }

    /** `apply_mask(&mut out[start..], &key)` */
    method MaskFrom(order: ByteOrder, start: nat, key: Key)
      requires start <= |bytes|
      modifies this
      ensures bytes == old(bytes)[..start] + Masked(old(bytes)[start..], key, 0)
    {
      var a := new byte[|bytes|](i requires 0 <= i < |bytes| reads this => bytes[i]);
      assert a[..] == bytes;
      ApplyMask(order, a, start, key);
      bytes := a[..];
    }
  }

  /** The frame the send paths build: RSV2 and RSV3 clear. */
  function FrameOf(op: Opcode, fin: bool, rsv1: bool, key: Option<Key>, payload: seq<byte>): (f: Frame)
  {
    Frame(Header(fin, rsv1, false, false, op, key), payload)
  }

  function KeyIf(mask: bool, key: Key): (k: Option<Key>)
  {
    if mask then Some(key) else None
  }

  /** Payload of a CLOSE frame: the code in network order, then the reason. */
  function CloseBody(code: nat, reason: seq<byte>): (s: seq<byte>)
    requires code < 0x1_0000
  {
    [code / 256, code % 256] + reason
  }

  // ---- Length octets -------------------------------------------------------------------

  /** `n >> (8 * i)` */
  function ShiftOctets(n: nat, i: nat): (r: nat)
  {
    if i == 0 then n else ShiftOctets(n / 256, i - 1)
  }

  lemma {:induction false} ToBigEndianAt(n: nat, width: nat, k: nat)
    requires k < width
    ensures ToBigEndian(n, width)[k] == ShiftOctets(n, width - 1 - k) % 256
  {
    if k < width - 1 {
      ToBigEndianAt(n / 256, width - 1, k);
    }
  }

  /** Pushes the `width` low-order octets of a length, most significant first. */
  method PushBigEndian(out: ByteVec, n: nat, width: nat)
    modifies out
    ensures out.bytes == old(out.bytes) + ToBigEndian(n, width)
  {
    ghost var form := ToBigEndian(n, width);
    var i := width;
    while i > 0
      invariant 0 <= i <= width && out.bytes == old(out.bytes) + form[..width - i]
    {
      ToBigEndianAt(n, width, width - i);
      i := i - 1;
      out.Push(ShiftOctets(n, i) % 256);
      assert form[..width - i] == form[..width - i - 1] + [form[width - i - 1]];
    }
    assert form[..width] == form;
  }

  // ---- Rust ----------------------------------------------------------------------------

  /** `push_header`: everything before the masking key. */
  method PushHeader(out: ByteVec, op: Opcode, fin: bool, rsv1: bool, mask: bool, len: nat)
    modifies out
    ensures out.bytes == old(out.bytes) + ([FirstByte(FrameOf(op, fin, rsv1, None, []).header)] + LengthForm(mask, len))
  {
    ghost var was := out.bytes;
    var first := OpcodeValue(op);
    if fin {
      first := first + 0x80;
    }
    if rsv1 {
      first := first + 0x40;
    }
    assert first == FirstByte(FrameOf(op, fin, rsv1, None, []).header);
    hide FirstByte, LengthForm, OpcodeValue;
    out.Push(first);
    PushLength(out, mask, len);
    assert was + [first] + LengthForm(mask, len) == was + ([first] + LengthForm(mask, len));
  }

  /** The second octet and the extended length, if any. */
  method PushLength(out: ByteVec, mask: bool, len: nat)
    modifies out
    ensures out.bytes == old(out.bytes) + LengthForm(mask, len)
  {
    var maskBit := if mask then 0x80 else 0;
    if len < 126 {
      out.Push(maskBit + len);
    } else if len <= 0xFFFF {
      out.Push(maskBit + 126);
      PushBigEndian(out, len, 2);
    } else {
      out.Push(maskBit + 127);
      PushBigEndian(out, len, 8);
    }
  }

  /** Header, key and masked payload in this order are the wire image. */
  lemma Assemble(f: Frame, out: seq<byte>)
    requires out == [FirstByte(f.header)] + LengthForm(f.header.key.Some?, |f.payload|) + KeyBytes(f.header.key)
                    + OnWire(f.header.key, f.payload)
    ensures out == Encode(f)
  {
    hide FirstByte, LengthForm, OnWire;
  }

  /** What comes before the payload. */
  ghost function Head(f: Frame): (s: seq<byte>)
  {
    [FirstByte(f.header)] + LengthForm(f.header.key.Some?, |f.payload|) + KeyBytes(f.header.key)
  }

  /** The two octets of the code and the reason. */
  method PushCloseBody(out: ByteVec, code: nat, reason: seq<byte>)
    requires code < 0x1_0000
    modifies out
    ensures out.bytes == old(out.bytes) + CloseBody(code, reason)
  {
    ghost var was := out.bytes;
    out.Push(code / 256);
    out.Push(code % 256);
    out.Extend(reason);
    assert out.bytes == was + ([code / 256, code % 256] + reason);
  }

  /** The last step of the encoders: masks the payload behind the header in place. */
  method Seal(order: ByteOrder, out: ByteVec, start: nat, mask: bool, key: Key, ghost f: Frame)
    requires out.bytes == Head(f) + f.payload && start == |Head(f)| && f.header.key == KeyIf(mask, key)
    modifies out
    ensures out.bytes == Encode(f)
  {
    hide FirstByte, LengthForm, Encode, Masked, Head;
    ghost var head := Head(f);
    if mask {
      out.MaskFrom(order, start, key);
      assert (head + f.payload)[..start] == head && (head + f.payload)[start..] == f.payload;
    }
    assert out.bytes == head + OnWire(f.header.key, f.payload);
    HeadIs(f);
    Assemble(f, out.bytes);
  }

  lemma HeadIs(f: Frame)
    ensures Head(f) == [FirstByte(f.header)] + LengthForm(f.header.key.Some?, |f.payload|) + KeyBytes(f.header.key)
  {
  }

  /** `encode_into`: copies the payload once and masks it in place. */
  method EncodeInto(order: ByteOrder, out: ByteVec, op: Opcode, payload: seq<byte>, fin: bool, mask: bool, rsv1: bool,
                    key: Key)
    modifies out
    ensures out.bytes == Encode(FrameOf(op, fin, rsv1, KeyIf(mask, key), payload))
  {
    ghost var f := FrameOf(op, fin, rsv1, KeyIf(mask, key), payload);
    hide FirstByte, LengthForm, Encode;
    out.Clear();
    PushHeader(out, op, fin, rsv1, mask, |payload|);
    SameFirstByte(op, fin, rsv1, mask, key, payload);
    if mask {
      out.Extend(key);
    }
    var start := |out.bytes|;
    out.Extend(payload);
    Seal(order, out, start, mask, key, f);
  }

  lemma SameFirstByte(op: Opcode, fin: bool, rsv1: bool, mask: bool, key: Key, payload: seq<byte>)
    ensures FirstByte(FrameOf(op, fin, rsv1, None, []).header) ==
            FirstByte(FrameOf(op, fin, rsv1, KeyIf(mask, key), payload).header)
  {
  }

  /** The first octet as the builders add it up. */
  lemma FirstSum(h: Header)
    ensures OpcodeValue(h.opcode) + Flag(h.fin, 0x80) + Flag(h.rsv1, 0x40) + Flag(h.rsv2, 0x20) + Flag(h.rsv3, 0x10) ==
            FirstByte(h)
  {
    hide OpcodeValue;
  }

  /** `FrameBuilder`: the chained setters change a builder by value. */
  datatype FrameBuilder = FrameBuilder(fin: bool, rsv1: bool, rsv2: bool, rsv3: bool, opcode: Opcode, mask: bool,
                                       payload: seq<byte>)
  {
    /** `build_into`: masks its own payload first and copies it afterwards. */
    method BuildInto(order: ByteOrder, out: ByteVec, key: Key)
      modifies out
      ensures out.bytes == Encode(Frame(Header(fin, rsv1, rsv2, rsv3, opcode, KeyIf(mask, key)), payload))
    {
      ghost var f := Frame(Header(fin, rsv1, rsv2, rsv3, opcode, KeyIf(mask, key)), payload);
      hide LengthForm, Encode, FirstByte, OpcodeValue, Masked;
      FirstSum(f.header);
      var data := new ByteVec();
      data.Extend(payload);
      if mask {
        data.MaskFrom(order, 0, key);
        assert data.bytes == Masked(payload, key, 0);
      }
      out.Clear();
      var first := OpcodeValue(opcode);
      first := first + (if fin then 0x80 else 0) + (if rsv1 then 0x40 else 0);
      first := first + (if rsv2 then 0x20 else 0) + (if rsv3 then 0x10 else 0);
      out.Push(first);
      PushLength(out, mask, |data.bytes|);
      if mask {
        out.Extend(key);
      }
      out.Extend(data.bytes);
      assert first == FirstByte(f.header);
      hide Flag;
      Assemble(f, out.bytes);
    }
  }

  /** Rust `build_close_into`: the body is written piecewise and masked at the end. */
  method BuildCloseInto(order: ByteOrder, out: ByteVec, code: nat, reason: seq<byte>, mask: bool, key: Key)
    requires code < 0x1_0000
    modifies out
    ensures out.bytes == Encode(FrameOf(Close, true, false, KeyIf(mask, key), CloseBody(code, reason)))
  {
    ghost var f := FrameOf(Close, true, false, KeyIf(mask, key), CloseBody(code, reason));
    hide FirstByte, LengthForm, Encode, Masked;
    out.Clear();
    PushHeader(out, Close, true, false, mask, 2 + |reason|);
    SameFirstByte(Close, true, false, mask, key, CloseBody(code, reason));
    if mask {
      out.Extend(key);
    }
    var start := |out.bytes|;
    assert out.bytes == Head(f);
    hide Head;
    PushCloseBody(out, code, reason);
    Seal(order, out, start, mask, key, f);
  }

  // ---- C++ -----------------------------------------------------------------------------

  /** `append_payload_length` */
  method AppendPayloadLength(out: ByteVec, mask: bool, size: nat)
    modifies out
    ensures out.bytes == old(out.bytes) + LengthForm(mask, size)
  {
    var second := if mask then 0x80 else 0;
    if size <= 125 {
      out.Push(second + size);
    } else if size <= 65535 {
      out.Push(second + 126);
      forall k | 0 <= k < 2 { ToBigEndianAt(size, 2, k); }
      out.Extend([ShiftOctets(size, 1) % 256, ShiftOctets(size, 0) % 256]);
      assert ToBigEndian(size, 2) == [ShiftOctets(size, 1) % 256, ShiftOctets(size, 0) % 256];
    } else {
      out.Push(second + 127);
      var octets := EightOctets(size);
      out.Extend(octets);
    }
  }

  /** The eight unrolled pushes of a 64-bit length. */
  function EightOctets(size: nat): (s: seq<byte>)
    ensures s == ToBigEndian(size, 8)
  {
    assert forall k | 0 <= k < 8 :: ToBigEndian(size, 8)[k] == ShiftOctets(size, 7 - k) % 256 by {
      forall k | 0 <= k < 8 ensures ToBigEndian(size, 8)[k] == ShiftOctets(size, 7 - k) % 256 {
        ToBigEndianAt(size, 8, k);
      }
    }
    [ShiftOctets(size, 7) % 256, ShiftOctets(size, 6) % 256, ShiftOctets(size, 5) % 256, ShiftOctets(size, 4) % 256,
     ShiftOctets(size, 3) % 256, ShiftOctets(size, 2) % 256, ShiftOctets(size, 1) % 256, ShiftOctets(size, 0) % 256]
  }

  /** C++ `builder::build_into` */
  method CppBuildInto(order: ByteOrder, out: ByteVec, op: Opcode, data: seq<byte>, fin: bool, mask: bool, key: Key,
                      rsv1: bool)
    modifies out
    ensures out.bytes == Encode(FrameOf(op, fin, rsv1, KeyIf(mask, key), data))
  {
    ghost var f := FrameOf(op, fin, rsv1, KeyIf(mask, key), data);
    hide LengthForm, Encode, FirstByte, OpcodeValue, Masked;
    FirstSum(f.header);
    out.Clear();
    var first := (if fin then 0x80 else 0) + (if rsv1 then 0x40 else 0) + OpcodeValue(op);
    out.Push(first);
    AppendPayloadLength(out, mask, |data|);
    if mask {
      out.Extend(key);
    }
    var payloadOffset := |out.bytes|;
    assert out.bytes == Head(f);
    hide Head, Flag;
    out.Extend(data);
    Seal(order, out, payloadOffset, mask, key, f);
  }

  /** C++ `builder::build_close_into`: one branch for an empty reason, another otherwise. */
  method CppBuildCloseInto(order: ByteOrder, out: ByteVec, code: nat, reason: seq<byte>, mask: bool, key: Key)
    requires code < 0x1_0000
    modifies out
    ensures out.bytes == Encode(FrameOf(Close, true, false, KeyIf(mask, key), CloseBody(code, reason)))
  {
    hide LengthForm, Encode, FirstByte, OpcodeValue, Masked;
    if reason == [] {
      var payload := [code / 256, code % 256];
      assert CloseBody(code, reason) == payload;
      CppBuildInto(order, out, Close, payload, true, mask, key, false);
    } else {
      CppBuildLongClose(order, out, code, reason, mask, key);
    }
  }

  /** The branch with a reason. */
  method CppBuildLongClose(order: ByteOrder, out: ByteVec, code: nat, reason: seq<byte>, mask: bool, key: Key)
    requires code < 0x1_0000
    modifies out
    ensures out.bytes == Encode(FrameOf(Close, true, false, KeyIf(mask, key), CloseBody(code, reason)))
  {
    ghost var f := FrameOf(Close, true, false, KeyIf(mask, key), CloseBody(code, reason));
    hide LengthForm, Encode, FirstByte, OpcodeValue, Masked;
    FirstSum(f.header);
    var first := 0x80 + OpcodeValue(Close);
    out.Clear();
    out.Push(first);
    AppendPayloadLength(out, mask, 2 + |reason|);
    if mask {
      out.Extend(key);
    }
    var payloadOffset := |out.bytes|;
    assert out.bytes == Head(f);
    hide Head, Flag;
    PushCloseBody(out, code, reason);
    Seal(order, out, payloadOffset, mask, key, f);
  }
}
