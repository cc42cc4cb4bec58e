/**
 * UTF-8 validation of text payloads (section 8.1 of RFC 6455): the two-loop validator,
 * proved against the encoding of section 3 of RFC 3629.
 */
module Utf8 {
  import opened Bytes
  import Masking

  /** A Unicode scalar value: a code point that is not a surrogate. */
  type Scalar = v: nat | v <= 0x10FFFF && !(0xD800 <= v <= 0xDFFF) witness 0

  /** The UTF-8 encoding of one scalar value. */
  function EncodeScalar(v: Scalar): (s: seq<byte>)
    ensures 1 <= |s| <= 4
  {
    if v < 0x80 then [v]
    else if v < 0x800 then [0xC0 + v / 64, 0x80 + v % 64]
    else if v < 0x10000 then [0xE0 + v / 4096, 0x80 + v / 64 % 64, 0x80 + v % 64]
    else [0xF0 + v / 262144, 0x80 + v / 4096 % 64, 0x80 + v / 64 % 64, 0x80 + v % 64]
  }

  function Encode(vs: seq<Scalar>): (s: seq<byte>)
  {
    if vs == [] then [] else EncodeScalar(vs[0]) + Encode(vs[1..])
  }

  predicate IsContinuation(b: byte)
  {
    0x80 <= b <= 0xBF
  }

  /** Width of the well-formed sequence `s` starts with; 0 when there is none. */
  function LeadWidth(s: seq<byte>): (n: nat)
    ensures n <= |s|
  {
    if s == [] then 0
    else
      var c := s[0];
      if c <= 0x7F then 1
      else if 0xC2 <= c <= 0xDF then
        if |s| < 2 || !IsContinuation(s[1]) then 0 else 2
      else if 0xE0 <= c <= 0xEF then
        if |s| < 3 || !IsContinuation(s[1]) || !IsContinuation(s[2]) then 0
        else if c == 0xE0 && s[1] < 0xA0 then 0
        else if c == 0xED && s[1] >= 0xA0 then 0
        else 3
      else if 0xF0 <= c <= 0xF4 then
        if |s| < 4 || !IsContinuation(s[1]) || !IsContinuation(s[2]) || !IsContinuation(s[3]) then 0
        else if c == 0xF0 && s[1] < 0x90 then 0
        else if c == 0xF4 && s[1] >= 0x90 then 0
        else 4
      else 0
  }

  predicate WellFormed(s: seq<byte>)
  {
    s == [] || (LeadWidth(s) > 0 && WellFormed(s[LeadWidth(s)..]))
  }

  // ---- The scalar a well-formed sequence encodes ---------------------------------------

  function Scalar2(a: byte, b: byte): (v: int) { (a as int - 0xC0) * 64 + (b as int - 0x80) }

  function Scalar3(a: byte, b: byte, c: byte): (v: int)
  {
    (a as int - 0xE0) * 4096 + (b as int - 0x80) * 64 + (c as int - 0x80)
  }

  function Scalar4(a: byte, b: byte, c: byte, d: byte): (v: int)
  {
    (a as int - 0xF0) * 262144 + (b as int - 0x80) * 4096 + (c as int - 0x80) * 64 + (d as int - 0x80)
  }

  lemma Digits3(x: nat, y: nat, z: nat)
    requires y < 64 && z < 64
    ensures var v := x * 4096 + y * 64 + z; v / 4096 == x && v / 64 % 64 == y && v % 64 == z
  {
    var v := x * 4096 + y * 64 + z;
    assert v / 64 == x * 64 + y;
  }

  lemma Digits4(w: nat, x: nat, y: nat, z: nat)
    requires x < 64 && y < 64 && z < 64
    ensures var v := w * 262144 + x * 4096 + y * 64 + z;
            v / 262144 == w && v / 4096 % 64 == x && v / 64 % 64 == y && v % 64 == z
  {
    var v := w * 262144 + x * 4096 + y * 64 + z;
    Digits3(w * 64 + x, y, z);
    assert v == (w * 64 + x) * 4096 + y * 64 + z;
  }

  /** The first sequence of a string that starts well-formed encodes some scalar value. */
  lemma DecodeLead(s: seq<byte>) returns (v: Scalar)
    requires LeadWidth(s) > 0
    ensures EncodeScalar(v) == s[..LeadWidth(s)]
  {
    var n := LeadWidth(s);
    hide EncodeScalar;
    if n == 1 {
      v := Decode1(s[0]);
    } else if n == 2 {
      v := Decode2(s[0], s[1]);
    } else if n == 3 {
      v := Decode3(s[0], s[1], s[2]);
    } else {
      v := Decode4(s[0], s[1], s[2], s[3]);
    }
  }

  lemma Decode1(a: byte) returns (v: Scalar)
    requires a <= 0x7F
    ensures EncodeScalar(v) == [a]
  {
    v := a;
  }

  lemma Decode2(a: byte, b: byte) returns (v: Scalar)
    requires 0xC2 <= a <= 0xDF && IsContinuation(b)
    ensures EncodeScalar(v) == [a, b]
  {
    v := Scalar2(a, b);
  }

  lemma Decode3(a: byte, b: byte, c: byte) returns (v: Scalar)
    requires 0xE0 <= a <= 0xEF && IsContinuation(b) && IsContinuation(c)
    requires (a == 0xE0 ==> b >= 0xA0) && (a == 0xED ==> b < 0xA0)
    ensures EncodeScalar(v) == [a, b, c]
  {
    Digits3(a - 0xE0, b - 0x80, c - 0x80);
    v := Scalar3(a, b, c);
  }

  lemma Decode4(a: byte, b: byte, c: byte, d: byte) returns (v: Scalar)
    requires 0xF0 <= a <= 0xF4 && IsContinuation(b) && IsContinuation(c) && IsContinuation(d)
    requires (a == 0xF0 ==> b >= 0x90) && (a == 0xF4 ==> b < 0x90)
    ensures EncodeScalar(v) == [a, b, c, d]
  {
    Digits4(a - 0xF0, b - 0x80, c - 0x80, d - 0x80);
    v := Scalar4(a, b, c, d);
  }

  lemma LeadOctets3(v: Scalar)
    requires 0x800 <= v < 0x10000
    ensures v / 4096 <= 15
    ensures v / 4096 == 0 ==> v / 64 % 64 >= 0x20
    ensures v / 4096 == 13 ==> v / 64 % 64 < 0x20
  {
    assert v / 64 == 64 * (v / 4096) + v / 64 % 64;
  }

  lemma LeadOctets4(v: Scalar)
    requires 0x10000 <= v
    ensures v / 262144 <= 4
    ensures v / 262144 == 0 ==> v / 4096 % 64 >= 0x10
    ensures v / 262144 == 4 ==> v / 4096 % 64 < 0x10
  {
    assert v / 4096 == 64 * (v / 262144) + v / 4096 % 64;
  }

  /** The encoding of a scalar value is recognised whatever follows it. */
  lemma LeadWidthOfEncoding(v: Scalar, rest: seq<byte>)
    ensures LeadWidth(EncodeScalar(v) + rest) == |EncodeScalar(v)|
  {
    var e := EncodeScalar(v);
    var s := e + rest;
    if v < 0x80 {
      assert s[0] == e[0];
    } else if v < 0x800 {
      assert s[0] == e[0] && s[1] == e[1];
    } else if v < 0x10000 {
      assert s[0] == e[0] && s[1] == e[1] && s[2] == e[2];
      LeadOctets3(v);
    } else {
      assert s[0] == e[0] && s[1] == e[1] && s[2] == e[2] && s[3] == e[3];
      LeadOctets4(v);
    }
  }

  lemma EncodeScalarInjective(u: Scalar, v: Scalar)
    requires EncodeScalar(u) == EncodeScalar(v)
    ensures u == v
  {
    var s := EncodeScalar(u);
    Recompose(u);
    Recompose(v);
  }

  lemma Recompose(v: Scalar)
    ensures var s := EncodeScalar(v);
            v == match |s| case 1 => s[0] case 2 => Scalar2(s[0], s[1]) case 3 => Scalar3(s[0], s[1], s[2])
                           case _ => Scalar4(s[0], s[1], s[2], s[3])
  {
    assert v / 64 == 64 * (v / 4096) + v / 64 % 64;
    assert v / 4096 == 64 * (v / 262144) + v / 4096 % 64;
  }

  // ---- Theorems ------------------------------------------------------------------------

  /** A well-formed string is the encoding of some sequence of scalar values. */
  lemma {:induction false} DecodeWellFormed(s: seq<byte>) returns (vs: seq<Scalar>)
    requires WellFormed(s)
    ensures Encode(vs) == s
  {
    hide LeadWidth, EncodeScalar;
    if s == [] {
      vs := [];
    } else {
      var n := LeadWidth(s);
      var v := DecodeLead(s);
      var rest := DecodeWellFormed(s[n..]);
      vs := [v] + rest;
      assert vs[1..] == rest && s == s[..n] + s[n..];
    }
  }

  /** Every encoding is well-formed. */
  lemma {:induction false} EncodeWellFormed(vs: seq<Scalar>)
    ensures WellFormed(Encode(vs))
  {
    if vs != [] {
      EncodeWellFormed(vs[1..]);
      var head, rest := EncodeScalar(vs[0]), Encode(vs[1..]);
      LeadWidthOfEncoding(vs[0], rest);
      assert (head + rest)[|head|..] == rest;
    }
  }

  /** `WellFormed` is exactly "encodes some sequence of Unicode scalar values". */
  lemma WellFormedIffEncoding(s: seq<byte>)
    ensures WellFormed(s) <==> exists vs: seq<Scalar> :: Encode(vs) == s
  {
    if WellFormed(s) {
      var vs := DecodeWellFormed(s);
    }
    if vs: seq<Scalar> :| Encode(vs) == s {
      EncodeWellFormed(vs);
    }
  }

  /** Examples of section 7 of RFC 3629 and of table 3-7 of the Unicode standard. */
  lemma KnownEncodings()
    ensures EncodeScalar(0x41) == [0x41] && EncodeScalar(0x391) == [0xCE, 0x91]
    ensures EncodeScalar(0x2262) == [0xE2, 0x89, 0xA2] && EncodeScalar(0x233B4) == [0xF0, 0xA3, 0x8E, 0xB4]
    ensures !WellFormed([0xC0, 0x80]) && !WellFormed([0xE0, 0x9F, 0xBF]) && !WellFormed([0xED, 0xA0, 0x80])
    ensures !WellFormed([0xF4, 0x90, 0x80, 0x80]) && !WellFormed([0x80]) && !WellFormed([0xE2, 0x89])
  {
  }

  /** No two sequences of scalar values share an encoding. */
  lemma {:induction false} EncodingUnique(us: seq<Scalar>, vs: seq<Scalar>)
    requires Encode(us) == Encode(vs)
    ensures us == vs
  {
    if us == [] || vs == [] {
    } else {
      var s := Encode(us);
      var a, b := EncodeScalar(us[0]), EncodeScalar(vs[0]);
      LeadWidthOfEncoding(us[0], Encode(us[1..]));
      LeadWidthOfEncoding(vs[0], Encode(vs[1..]));
      assert a == s[..|a|] && b == s[..|b|];
      EncodeScalarInjective(us[0], vs[0]);
      assert Encode(us[1..]) == s[|a|..] && Encode(vs[1..]) == s[|b|..];
      EncodingUnique(us[1..], vs[1..]);
      assert us == [us[0]] + us[1..] && vs == [vs[0]] + vs[1..];
    }
  }

  // ---- The validator -------------------------------------------------------------------

  /** `word & 0x8080...80 != 0`: some octet of a word of `width` octets has its top bit set. */
  predicate HasHighBit(word: nat, width: nat)
  {
    width > 0 && (word % 256 >= 0x80 || HasHighBit(word / 256, width - 1))
  }

  lemma {:induction false} HighBitFirst(b: byte, q: nat, n: nat)
    requires !HasHighBit(256 * q + b, n + 1)
    ensures b < 0x80 && !HasHighBit(q, n)
  {
    DivMod256(q, b);
  }

  lemma {:induction false} HasHighBitOfLoad(s: seq<byte>, k: nat)
    requires !HasHighBit(Masking.LittleEndian(s), |s|) && k < |s|
    ensures s[k] < 0x80
  {
    hide HasHighBit;
    HighBitFirst(s[0], Masking.LittleEndian(s[1..]), |s| - 1);
    if k > 0 {
      HasHighBitOfLoad(s[1..], k - 1);
    }
  }

  lemma {:induction false} AsciiOctet(order: Masking.ByteOrder, s: seq<byte>, k: nat)
    requires !HasHighBit(Masking.Load(order, s), |s|) && k < |s|
    ensures s[k] < 0x80
  {
    hide HasHighBit, Masking.LittleEndian;
    var r := if order.LittleEndianOrder? then s else Masking.Reverse(s);
    var i := if order.LittleEndianOrder? then k else |s| - 1 - k;
    assert Masking.Load(order, s) == Masking.LittleEndian(r) && r[i] == s[k];
    hide *;
    HasHighBitOfLoad(r, i);
  }

  /** Eight octets that pass the word test are ASCII, so skipping them changes nothing. */
  lemma AsciiSkip(order: Masking.ByteOrder, s: seq<byte>)
    requires |s| >= 8 && !HasHighBit(Masking.Load(order, s[..8]), 8)
    ensures WellFormed(s) == WellFormed(s[8..])
  {
    hide WellFormed, LeadWidth, HasHighBit, Masking.Load;
    forall k | 0 <= k < 8
      ensures s[k] < 0x80
    {
      AsciiOctet(order, s[..8], k);
    }
    AsciiPrefix(s, 8);
  }

  lemma {:induction false} AsciiPrefix(s: seq<byte>, n: nat)
    requires n <= |s| && forall k | 0 <= k < n :: s[k] < 0x80
    ensures WellFormed(s) == WellFormed(s[n..])
  {
    if n > 0 {
      assert LeadWidth(s) == 1;
      AsciiPrefix(s[1..], n - 1);
      assert s[1..][n - 1..] == s[n..];
    } else {
      assert s[0..] == s;
    }
  }

  /**
   * `is_valid_utf8`: true exactly when the bytes are the encoding of some sequence of scalar
   * values, whatever the byte order of the eight-byte skip.
   */
  method IsValidUtf8(order: Masking.ByteOrder, data: seq<byte>) returns (ok: bool)
    ensures ok == WellFormed(data)
    ensures ok <==> exists vs: seq<Scalar> :: Encode(vs) == data
  {
    WellFormedIffEncoding(data);
    var i := 0;
    assert data[0..] == data;
    while i + 8 <= |data|
      invariant i <= |data| && WellFormed(data) == WellFormed(data[i..])
    {
      assert data[i..][..8] == data[i..i + 8];
      if HasHighBit(Masking.Load(order, data[i..i + 8]), 8) {
        break;
      }
      AsciiSkip(order, data[i..]);
      assert data[i..][8..] == data[i + 8..];
      i := i + 8;
    }
    ok := ScanMultibyte(data, i);
  }

  ghost function WidthAt(data: seq<byte>, i: nat): (n: nat)
    requires i <= |data|
  {
    LeadWidth(data[i..])
  }

  ghost predicate OkFrom(data: seq<byte>, i: nat)
    requires i <= |data|
  {
    WellFormed(data[i..])
  }

  /** The width of the sequence at a position, by the octets there. */
  lemma LeadAt(data: seq<byte>, i: nat)
    requires i < |data|
    ensures var (n, c) := (WidthAt(data, i), data[i]);
            && (c <= 0x7F ==> n == 1)
            && (0xC2 <= c <= 0xDF ==> n == if i + 1 < |data| && IsContinuation(data[i + 1]) then 2 else 0)
            && (0xE0 <= c <= 0xEF ==>
                  n == if i + 2 < |data| && IsContinuation(data[i + 1]) && IsContinuation(data[i + 2])
                          && (c == 0xE0 ==> data[i + 1] >= 0xA0) && (c == 0xED ==> data[i + 1] < 0xA0) then 3 else 0)
            && (0xF0 <= c <= 0xF4 ==>
                  n == if i + 3 < |data| && IsContinuation(data[i + 1]) && IsContinuation(data[i + 2])
                          && IsContinuation(data[i + 3])
                          && (c == 0xF0 ==> data[i + 1] >= 0x90) && (c == 0xF4 ==> data[i + 1] < 0x90) then 4 else 0)
            && (0x80 <= c < 0xC2 || 0xF5 <= c ==> n == 0)
  {
    hide IsContinuation;
  }

  lemma WellFormedAt(data: seq<byte>, i: nat)
    requires i < |data|
    ensures var n := WidthAt(data, i);
            i + n <= |data| && (OkFrom(data, i) <==> n > 0 && OkFrom(data, i + n))
  {
    hide LeadWidth;
    var n := LeadWidth(data[i..]);
    assert data[i..][n..] == data[i + n..];
  }

  /** The second loop, from index `first` on. */
  method ScanMultibyte(data: seq<byte>, first: nat) returns (ok: bool)
    requires first <= |data|
    ensures ok == WellFormed(data[first..])
  {
    assert OkFrom(data, |data|) && OkFrom(data, first) == WellFormed(data[first..]);
    hide OkFrom, WidthAt, WellFormed, IsContinuation;
    var i := first;
    while i < |data|
      invariant first <= i <= |data| && OkFrom(data, first) == OkFrom(data, i)
    {
      LeadAt(data, i);
      WellFormedAt(data, i);
      var c := data[i];
      var width := 1;
      if c <= 0x7F {
      } else if 0xC2 <= c <= 0xDF {
        if i + 1 >= |data| || !IsContinuation(data[i + 1]) {
          return false;
        }
        width := 2;
      } else if 0xE0 <= c <= 0xEF {
        if i + 2 >= |data| {
          return false;
        }
        var c1, c2 := data[i + 1], data[i + 2];
        if !IsContinuation(c1) || !IsContinuation(c2) || (c == 0xE0 && c1 < 0xA0) || (c == 0xED && c1 >= 0xA0) {
          return false;
        }
        width := 3;
      } else if 0xF0 <= c <= 0xF4 {
        if i + 3 >= |data| {
          return false;
        }
        var c1, c2, c3 := data[i + 1], data[i + 2], data[i + 3];
        if !IsContinuation(c1) || !IsContinuation(c2) || !IsContinuation(c3)
           || (c == 0xF0 && c1 < 0x90) || (c == 0xF4 && c1 >= 0x90) {
          return false;
        }
        width := 4;
      } else {
        return false;
      }
      i := i + width;
    }
    return true;
  }
}
