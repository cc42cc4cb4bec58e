/** Octets, the numbers they stand for, and the few sequence facts the other modules share. */
module Bytes {

  type byte = n: nat | n < 256 witness 0

  datatype Option<+T> = None | Some(value: T)

  /** The four-byte masking key of section 5.3 of RFC 6455. */
  type Key = k: seq<byte> | |k| == 4 witness [0, 0, 0, 0]

  // ---- Bits ----------------------------------------------------------------------------

  function Pow2(n: nat): (p: nat)
    ensures p > 0
  {
    if n == 0 then 1 else 2 * Pow2(n - 1)
  }

  function XorBit(a: nat, b: nat): (r: nat)
    ensures r < 2
  {
    if a % 2 == b % 2 then 0 else 1
  }

  /** Exclusive or of the `n` low-order bits of two numbers. */
  function XorBits(a: nat, b: nat, n: nat): (r: nat)
    ensures r < Pow2(n)
  {
    if n == 0 then 0 else XorBit(a, b) + 2 * XorBits(a / 2, b / 2, n - 1)
  }

  lemma Pow2Octet()
    ensures Pow2(8) == 256
  {
    assert Pow2(4) == 16;
  }

  /** Exclusive or of two octets. */
  function Xor(a: byte, b: byte): (r: byte)
  {
    Pow2Octet();
    XorBits(a, b, 8)
  }

  lemma HalveDouble(bit: nat, q: nat)
    requires bit < 2
    ensures (bit + 2 * q) % 2 == bit && (bit + 2 * q) / 2 == q
  {
  }

  lemma XorBitTwice(a: nat, k: nat)
    ensures XorBit(XorBit(a, k), k) == a % 2
  {
  }

  lemma XorBitParity(a: nat, a': nat, b: nat, b': nat)
    requires a % 2 == a' % 2 && b % 2 == b' % 2
    ensures XorBit(a, b) == XorBit(a', b')
  {
  }

  lemma {:induction false} XorBitsTwice(a: nat, k: nat, n: nat)
    requires a < Pow2(n)
    ensures XorBits(XorBits(a, k, n), k, n) == a
  {
    if n > 0 {
      var bit, q := XorBit(a, k), XorBits(a / 2, k / 2, n - 1);
      XorBitsTwice(a / 2, k / 2, n - 1);
      HalveDouble(bit, q);
      XorBitTwice(a, k);
      XorBitParity(bit + 2 * q, bit, k, k);
    }
  }

  /** XOR with the same octet twice changes nothing. */
  lemma XorTwice(a: byte, k: byte)
    ensures Xor(Xor(a, k), k) == a
  {
    Pow2Octet();
    XorBitsTwice(a, k, 8);
  }

  // ---- What the bits of a number are ---------------------------------------------------

  /** Bit `i` of a number is set; bit 0 is the lowest. */
  predicate Bit(x: nat, i: nat)
  {
    x / Pow2(i) % 2 == 1
  }

  lemma DivTwice(x: nat, p: nat)
    requires p > 0
    ensures x / (2 * p) == x / 2 / p
  {
    var q, r, b := x / 2 / p, x / 2 % p, x % 2;
    assert x == (2 * p) * q + (2 * r + b) by {
      assert x / 2 == p * q + r;
      assert 2 * (p * q) == (2 * p) * q;
    }
    QuotientIs(x, 2 * p, q, 2 * r + b);
  }

  lemma QuotientIs(x: nat, d: nat, q: nat, r: nat)
    requires d > 0 && r < d && x == d * q + r
    ensures x / d == q
  {
    var e := x / d - q;
    assert d * (x / d) == d * q + d * e;
    assert 0 - d < d * e < d;
    if e >= 1 {
      Multiple(d, e);
    } else if e <= -1 {
      Multiple(d, -e);
    }
  }

  lemma Multiple(d: nat, e: int)
    requires e >= 1
    ensures d * e >= d
  {
    assert d * e == d + d * (e - 1);
  }

  /** The bits of a number above the lowest are those of its half. */
  lemma BitOfHalf(x: nat, i: nat)
    ensures Bit(x, 0) <==> x % 2 == 1
    ensures Bit(x, i + 1) <==> Bit(x / 2, i)
  {
    DivTwice(x, Pow2(i));
  }

  /** Exclusive or: a bit of the result is set exactly if it is set in one of the two numbers and not in the other. */
  lemma {:induction false} XorBitsAt(a: nat, b: nat, n: nat, i: nat)
    requires i < n
    ensures Bit(XorBits(a, b, n), i) <==> Bit(a, i) != Bit(b, i)
  {
    hide Bit;
    var bit, q := XorBit(a, b), XorBits(a / 2, b / 2, n - 1);
    HalveDouble(bit, q);
    if i == 0 {
      BitOfHalf(a, 0);
      BitOfHalf(b, 0);
      BitOfHalf(bit + 2 * q, 0);
    } else {
      BitOfHalf(a, i - 1);
      BitOfHalf(b, i - 1);
      BitOfHalf(bit + 2 * q, i - 1);
      XorBitsAt(a / 2, b / 2, n - 1, i - 1);
    }
  }

  /** A number is determined by its bits. */
  lemma {:induction false} SameBits(a: nat, b: nat, n: nat)
    requires a < Pow2(n) && b < Pow2(n) && forall i | 0 <= i < n :: Bit(a, i) == Bit(b, i)
    ensures a == b
  {
    hide Bit;
    if n > 0 {
      BitOfHalf(a, 0);
      BitOfHalf(b, 0);
      forall i | 0 <= i < n - 1 ensures Bit(a / 2, i) == Bit(b / 2, i) {
        BitOfHalf(a, i);
        BitOfHalf(b, i);
        assert Bit(a, i + 1) == Bit(b, i + 1);
      }
      SameBits(a / 2, b / 2, n - 1);
    }
  }

  /** What `^` on octets is, bit by bit. */
  lemma XorMeaning(a: byte, k: byte, r: byte)
    ensures r == Xor(a, k) <==> forall i | 0 <= i < 8 :: Bit(r, i) <==> Bit(a, i) != Bit(k, i)
  {
    hide Bit, XorBits;
    Pow2Octet();
    forall i | 0 <= i < 8 ensures Bit(Xor(a, k), i) <==> Bit(a, i) != Bit(k, i) {
      XorBitsAt(a, k, 8, i);
    }
    if forall i | 0 <= i < 8 :: Bit(r, i) <==> Bit(a, i) != Bit(k, i) {
      SameBits(r, Xor(a, k), 8);
    }
  }

  /** XOR with zero changes nothing. */
  lemma XorZero(a: byte)
    ensures Xor(a, 0) == a
  {
    hide Bit;
    forall i | 0 <= i < 8 ensures !Bit(0, i) { NoBits(i); }
    XorMeaning(a, 0, a);
  }

  lemma NoBits(i: nat)
    ensures !Bit(0, i)
  {
  }

  /** A number shifted left by `m` bits. */
  function Shifted(x: nat, m: nat): (r: nat)
  {
    if m == 0 then x else 2 * Shifted(x, m - 1)
  }

  lemma HalveSum(lo: nat, x: nat)
    ensures (lo + 2 * x) % 2 == lo % 2 && (lo + 2 * x) / 2 == lo / 2 + x
  {
  }

  lemma XorBitsNone(a: nat, b: nat)
    ensures XorBits(a, b, 0) == 0
  {
  }

  lemma XorBitsStep(a: nat, b: nat, n: nat)
    requires n > 0
    ensures XorBits(a, b, n) == XorBit(a, b) + 2 * XorBits(a / 2, b / 2, n - 1)
  {
  }

  /** XOR works on the low and the high bits of two numbers separately. */
  lemma {:induction false} XorBitsSplit(lo: nat, lo': nat, m: nat, hi: nat, hi': nat, n: nat)
    requires lo < Pow2(m) && lo' < Pow2(m)
    ensures XorBits(lo + Shifted(hi, m), lo' + Shifted(hi', m), m + n)
         == XorBits(lo, lo', m) + Shifted(XorBits(hi, hi', n), m)
  {
    hide XorBit, XorBits;
    if m == 0 {
      XorBitsNone(lo, lo');
    } else {
      var x, y := Shifted(hi, m - 1), Shifted(hi', m - 1);
      XorBitsSplit(lo / 2, lo' / 2, m - 1, hi, hi', n);
      HalveSum(lo, x);
      HalveSum(lo', y);
      XorBitParity(lo + 2 * x, lo, lo' + 2 * y, lo');
      XorBitsStep(lo + 2 * x, lo' + 2 * y, m + n);
      XorBitsStep(lo, lo', m);
    }
  }

  lemma XorBitsSplitOctet(lo: byte, lo': byte, hi: nat, hi': nat, n: nat)
    ensures XorBits(256 * hi + lo, 256 * hi' + lo', 8 + n) == 256 * XorBits(hi, hi', n) + Xor(lo, lo')
  {
    Pow2Octet();
    XorBitsSplit(lo, lo', 8, hi, hi', n);
    ShiftedOctet(hi);
    ShiftedOctet(hi');
    ShiftedOctet(XorBits(hi, hi', n));
  }

  lemma ShiftedOctet(x: nat)
    ensures Shifted(x, 8) == 256 * x
  {
    assert Shifted(x, 1) == 2 * Shifted(x, 0);
    assert Shifted(x, 3) == 2 * Shifted(x, 2);
    assert Shifted(x, 5) == 2 * Shifted(x, 4);
    assert Shifted(x, 7) == 2 * Shifted(x, 6);
  }

  // ---- Numbers on the wire -------------------------------------------------------------

  /** The big-endian number written in a run of octets. */
  function BigEndian(s: seq<byte>): (n: nat)
  {
    if s == [] then 0 else 256 * BigEndian(s[..|s| - 1]) + s[|s| - 1]
  }

  /** The `width` low-order octets of a number, most significant first. */
  function ToBigEndian(n: nat, width: nat): (s: seq<byte>)
    ensures |s| == width
  {
    if width == 0 then [] else ToBigEndian(n / 256, width - 1) + [n % 256]
  }

  function Power256(width: nat): (p: nat)
    ensures p > 0
  {
    if width == 0 then 1 else 256 * Power256(width - 1)
  }

  lemma {:induction false} BigEndianRoundTrip(n: nat, width: nat)
    requires n < Power256(width)
    ensures BigEndian(ToBigEndian(n, width)) == n
  {
    if width > 0 {
      BigEndianRoundTrip(n / 256, width - 1);
      var s := ToBigEndian(n, width);
      assert s[..|s| - 1] == ToBigEndian(n / 256, width - 1);
    }
  }

  lemma {:induction false} BigEndianBound(s: seq<byte>)
    ensures BigEndian(s) < Power256(|s|)
  {
    if s != [] {
      BigEndianBound(s[..|s| - 1]);
    }
  }

  lemma DivMod256(q: nat, b: byte)
    ensures (256 * q + b) / 256 == q && (256 * q + b) % 256 == b
  {
  }

  lemma {:induction false} ToBigEndianOf(s: seq<byte>)
    ensures ToBigEndian(BigEndian(s), |s|) == s
  {
    if s != [] {
      var n := |s| - 1;
      ToBigEndianOf(s[..n]);
      DivMod256(BigEndian(s[..n]), s[n]);
      assert s == s[..n] + [s[n]];
    }
  }

  /** Concatenation of a list of byte strings. */
  function Concat(parts: seq<seq<byte>>): (s: seq<byte>)
  {
    if parts == [] then [] else parts[0] + Concat(parts[1..])
  }

  /** A slice that lies inside the first of two joined strings. */
  lemma SliceLeft(s: seq<byte>, t: seq<byte>, i: nat, j: nat)
    requires i <= j <= |s|
    ensures (s + t)[i..j] == s[i..j]
  {
  }

  /** A slice that lies inside the second of two joined strings. */
  lemma SliceRight(s: seq<byte>, t: seq<byte>, i: nat, j: nat)
    requires |s| <= i <= j <= |s| + |t|
    ensures (s + t)[i..j] == t[i - |s|..j - |s|]
  {
  }

  /** The next `n` octets behind what was taken of `s` before. */
  lemma NextPiece(before: seq<byte>, s: seq<byte>, i: nat, n: nat)
    requires i + n <= |s|
    ensures before + s[..i] + s[i..][..n] == before + s[..i + n]
  {
    assert s[..i] + s[i..][..n] == s[..i + n];
  }
}
