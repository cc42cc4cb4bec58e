/**
 * XOR masking of payloads (section 5.3 of RFC 6455): the word-at-a-time loops of
 * `apply_mask` and `copy_and_unmask`, proved against the byte-wise definition.
 */
module Masking {
  import opened Bytes

  /** Byte order of the words the loops load and store. */
  datatype ByteOrder = LittleEndianOrder | BigEndianOrder

  /** Octet k of a payload is XORed with key octet (offset + k) modulo 4. */
  function Masked(s: seq<byte>, key: Key, offset: nat): (r: seq<byte>)
    ensures |r| == |s|
  {
    seq(|s|, k requires 0 <= k < |s| => Xor(s[k], key[(offset + k) % 4]))
  }

  /** Masking twice with the same key and offset gives the payload back. */
  lemma MaskInvolution(s: seq<byte>, key: Key, offset: nat)
    ensures Masked(Masked(s, key, offset), key, offset) == s
  {
    var r := Masked(Masked(s, key, offset), key, offset);
    forall k | 0 <= k < |s|
      ensures r[k] == s[k]
    {
      XorTwice(s[k], key[(offset + k) % 4]);
    }
  }

  /** Masking a split payload piecewise with a running offset masks the whole. */
  lemma MaskSplit(a: seq<byte>, b: seq<byte>, key: Key, offset: nat)
    ensures Masked(a + b, key, offset) == Masked(a, key, offset) + Masked(b, key, offset + |a|)
  {
    var whole, parts := Masked(a + b, key, offset), Masked(a, key, offset) + Masked(b, key, offset + |a|);
    forall k | 0 <= k < |whole|
      ensures whole[k] == parts[k]
    {
      if k >= |a| {
        assert offset + k == offset + |a| + (k - |a|);
      }
    }
  }

  // ---- Machine words -------------------------------------------------------------------

  function Reverse(s: seq<byte>): (r: seq<byte>)
    ensures |r| == |s|
  {
    seq(|s|, k requires 0 <= k < |s| => s[|s| - 1 - k])
  }

  /** The number whose octets are `s`, least significant first. */
  function LittleEndian(s: seq<byte>): (w: nat)
  {
    if s == [] then 0 else 256 * LittleEndian(s[1..]) + s[0]
  }

  /** The `width` low-order octets of a word, least significant first. */
  function Octets(w: nat, width: nat): (s: seq<byte>)
    ensures |s| == width
  {
    if width == 0 then [] else [w % 256] + Octets(w / 256, width - 1)
  }

  /** A native load of `|s|` octets. */
  function Load(order: ByteOrder, s: seq<byte>): (w: nat)
  {
    LittleEndian(if order.LittleEndianOrder? then s else Reverse(s))
  }

  /** A native store of a word of `width` octets. */
  function Store(order: ByteOrder, w: nat, width: nat): (s: seq<byte>)
    ensures |s| == width
  {
    if order.LittleEndianOrder? then Octets(w, width) else Reverse(Octets(w, width))
  }

  /** `mask_key64`: the 32-bit key word repeated in both halves. */
  function KeyWord64(key32: nat): (w: nat)
  {
    key32 + 0x1_0000_0000 * key32
  }

  lemma {:induction false} OctetsCons(x: byte, q: nat, n: nat)
    ensures Octets(256 * q + x, n + 1) == [x] + Octets(q, n)
  {
    DivMod256(q, x);
  }

  /** XOR of two loaded words is XOR octet by octet. */
  lemma {:induction false} OctetsOfXor(s: seq<byte>, t: seq<byte>, k: nat)
    requires |s| == |t| && k < |s|
    ensures Octets(XorBits(LittleEndian(s), LittleEndian(t), 8 * |s|), |s|)[k] == Xor(s[k], t[k])
  {
    hide Xor, XorBits;
    var n := |s| - 1;
    XorBitsSplitOctet(s[0], t[0], LittleEndian(s[1..]), LittleEndian(t[1..]), 8 * n);
    OctetsCons(Xor(s[0], t[0]), XorBits(LittleEndian(s[1..]), LittleEndian(t[1..]), 8 * n), n);
    if k > 0 {
      OctetsOfXor(s[1..], t[1..], k - 1);
    }
  }

  /** A word load, XOR and store changes every octet of the word, under either byte order. */
  lemma {:induction false} XorOfLoads(order: ByteOrder, s: seq<byte>, t: seq<byte>, k: nat)
    requires |s| == |t| && k < |s|
    ensures Store(order, XorBits(Load(order, s), Load(order, t), 8 * |s|), |s|)[k] == Xor(s[k], t[k])
  {
    hide Octets, LittleEndian, Xor, XorBits;
    if order.LittleEndianOrder? {
      OctetsOfXor(s, t, k);
    } else {
      var r, q := Reverse(s), Reverse(t);
      assert r[|s| - 1 - k] == s[k] && q[|s| - 1 - k] == t[k];
      OctetsOfXor(r, q, |s| - 1 - k);
      var stored := Octets(XorBits(LittleEndian(r), LittleEndian(q), 8 * |s|), |s|);
      assert Reverse(stored)[k] == stored[|s| - 1 - k];
    }
  }

  lemma KeyWord64Loads(order: ByteOrder, key: Key)
    ensures KeyWord64(Load(order, key)) == Load(order, key + key)
  {
    var k := if order.LittleEndianOrder? then key else Reverse(key);
    assert Reverse(key + key) == Reverse(key) + Reverse(key);
    LittleEndianTwice(k);
  }

  lemma LittleEndianTwice(k: Key)
    ensures LittleEndian(k + k) == LittleEndian(k) + 0x1_0000_0000 * LittleEndian(k)
  {
    var w := LittleEndian(k);
    LittleEndianCons(k[3], k);
    LittleEndianCons(k[2], [k[3]] + k);
    LittleEndianCons(k[1], [k[2]] + ([k[3]] + k));
    LittleEndianCons(k[0], [k[1]] + ([k[2]] + ([k[3]] + k)));
    assert [k[0]] + ([k[1]] + ([k[2]] + ([k[3]] + k))) == k + k;
    LittleEndianCons(k[3], []);
    LittleEndianCons(k[2], [k[3]] + []);
    LittleEndianCons(k[1], [k[2]] + ([k[3]] + []));
    LittleEndianCons(k[0], [k[1]] + ([k[2]] + ([k[3]] + [])));
    assert [k[0]] + ([k[1]] + ([k[2]] + ([k[3]] + []))) == k;
  }

  lemma LittleEndianCons(b: byte, s: seq<byte>)
    ensures LittleEndian([b] + s) == 256 * LittleEndian(s) + b
  {
    assert ([b] + s)[1..] == s;
  }

  /** One 32-bit store masks four payload octets, under either byte order. */
  lemma WordMasks32(order: ByteOrder, s: seq<byte>, key: Key)
    requires |s| == 4
    ensures Store(order, XorBits(Load(order, s), Load(order, key), 32), 4) == Masked(s, key, 0)
  {
    hide Store, Load, Xor, XorBits;
    forall k | 0 <= k < 4
      ensures Store(order, XorBits(Load(order, s), Load(order, key), 32), 4)[k] == Masked(s, key, 0)[k]
    {
      XorOfLoads(order, s, key, k);
    }
  }

  /** One 64-bit store masks eight payload octets, under either byte order. */
  lemma WordMasks64(order: ByteOrder, s: seq<byte>, key: Key)
    requires |s| == 8
    ensures Store(order, XorBits(Load(order, s), KeyWord64(Load(order, key)), 64), 8) == Masked(s, key, 0)
  {
    hide Store, Load, KeyWord64, Xor, XorBits;
    KeyWord64Loads(order, key);
    forall k | 0 <= k < 8
      ensures Store(order, XorBits(Load(order, s), KeyWord64(Load(order, key)), 64), 8)[k] == Masked(s, key, 0)[k]
    {
      XorOfLoads(order, s, key + key, k);
    }
  }

  // ---- apply_mask ----------------------------------------------------------------------

  /** `was` with the `done` octets from `start` on masked: the state of a masking loop. */
  ghost function MaskedUpTo(was: seq<byte>, start: nat, key: Key, done: nat): (r: seq<byte>)
    requires start + done <= |was|
    ensures |r| == |was|
  {
    seq(|was|, k requires 0 <= k < |was| =>
          if start <= k < start + done then Xor(was[k], key[(k - start) % 4]) else was[k])
  }

  /** Replacing the next octets by their masked form advances the loop state, at a key boundary. */
  lemma MaskedUpToStep(was: seq<byte>, now: seq<byte>, start: nat, key: Key, done: nat, width: nat)
    requires start + done + width <= |was| && done % 4 == 0
    requires now == MaskedUpTo(was, start, key, done)
    ensures now[start + done..start + done + width] == was[start + done..start + done + width]
    ensures now[..start + done] + Masked(was[start + done..start + done + width], key, 0)
            + now[start + done + width..] == MaskedUpTo(was, start, key, done + width)
  {
    hide Xor;
    var next := Masked(was[start + done..start + done + width], key, 0);
    var r := now[..start + done] + next + now[start + done + width..];
    var at := start + done;
    var left, right := now[at..at + width], was[at..at + width];
    forall k | 0 <= k < width
      ensures left[k] == right[k]
    {
      assert now[at + k] == was[at + k];
    }
    forall k | 0 <= k < |was|
      ensures r[k] == MaskedUpTo(was, start, key, done + width)[k]
    {
      if start + done <= k < start + done + width {
        SameResidue(k - start - done, done);
      }
    }
  }

  lemma SameResidue(k: nat, done: nat)
    requires done % 4 == 0
    ensures k % 4 == (k + done) % 4
  {
  }

  lemma MaskedUpToStart(was: seq<byte>, start: nat, key: Key)
    requires start <= |was|
    ensures MaskedUpTo(was, start, key, 0) == was
  {
  }

  /** After the last octet the loop state is the masked payload. */
  lemma MaskedUpToEnd(was: seq<byte>, start: nat, key: Key)
    requires start <= |was|
    ensures MaskedUpTo(was, start, key, |was| - start) == was[..start] + Masked(was[start..], key, 0)
  {
    hide Xor;
  }

  /** Writes a run of octets into an array. */
  method StoreAt(a: array<byte>, at: nat, octets: seq<byte>)
    requires at + |octets| <= a.Length
    modifies a
    ensures a[..] == old(a[..])[..at] + octets + old(a[..])[at + |octets|..]
  {
    forall k | at <= k < at + |octets| {
      a[k] := octets[k - at];
    }
  }

  /** `store_u64_le(p, load_u64_le(p) ^ key64)` at the next word of a masking loop. */
  method MaskWord64(order: ByteOrder, a: array<byte>, start: nat, i: nat, key: Key, key64: nat, ghost was: seq<byte>)
    requires |was| == a.Length && start + i + 8 <= a.Length && i % 4 == 0
    requires key64 == KeyWord64(Load(order, key))
    requires a[..] == MaskedUpTo(was, start, key, i)
    modifies a
    ensures a[..] == MaskedUpTo(was, start, key, i + 8)
  {
    hide Load, Store, KeyWord64, XorBits, Masked, MaskedUpTo;
    var at := start + i;
    MaskedUpToStep(was, a[..], start, key, i, 8);
    WordMasks64(order, was[at..at + 8], key);
    assert a[at..at + 8] == a[..][at..at + 8];
    StoreAt(a, at, Store(order, XorBits(Load(order, a[at..at + 8]), key64, 64), 8));
  }

  /** `store_u32_le(p, load_u32_le(p) ^ key32)` at the next word of a masking loop. */
  method MaskWord32(order: ByteOrder, a: array<byte>, start: nat, i: nat, key: Key, key32: nat, ghost was: seq<byte>)
    requires |was| == a.Length && start + i + 4 <= a.Length && i % 4 == 0
    requires key32 == Load(order, key)
    requires a[..] == MaskedUpTo(was, start, key, i)
    modifies a
    ensures a[..] == MaskedUpTo(was, start, key, i + 4)
  {
    hide Load, Store, XorBits, Masked, MaskedUpTo;
    var at := start + i;
    MaskedUpToStep(was, a[..], start, key, i, 4);
    WordMasks32(order, was[at..at + 4], key);
    assert a[at..at + 4] == a[..][at..at + 4];
    StoreAt(a, at, Store(order, XorBits(Load(order, a[at..at + 4]), key32, 32), 4));
  }

  /** `data[i] ^= key[i & 3]` at the next octet of a masking loop. */
  method MaskByte(a: array<byte>, start: nat, i: nat, key: Key, ghost was: seq<byte>)
    requires |was| == a.Length && start + i < a.Length
    requires a[..] == MaskedUpTo(was, start, key, i)
    modifies a
    ensures a[..] == MaskedUpTo(was, start, key, i + 1)
  {
    hide Xor;
    assert a[start + i] == a[..][start + i];
    a[start + i] := Xor(a[start + i], key[i % 4]);
  }

  /** An unrolled group of eight-byte words. */
  method MaskWords(order: ByteOrder, a: array<byte>, start: nat, i: nat, words: nat, key: Key, key64: nat,
                   ghost was: seq<byte>)
    requires |was| == a.Length && start + i + 8 * words <= a.Length && i % 4 == 0
    requires key64 == KeyWord64(Load(order, key))
    requires a[..] == MaskedUpTo(was, start, key, i)
    modifies a
    ensures a[..] == MaskedUpTo(was, start, key, i + 8 * words)
  {
    hide Load, KeyWord64, MaskedUpTo;
    for j := 0 to words
      invariant a[..] == MaskedUpTo(was, start, key, i + 8 * j)
    {
      MaskWord64(order, a, start, i + 8 * j, key, key64, was);
    }
  }

  /** The loop over 64-byte blocks of eight words, and the one over 32-byte blocks of four. */
  method MaskGroups(order: ByteOrder, a: array<byte>, start: nat, first: nat, words: nat, key: Key, key64: nat,
                    ghost was: seq<byte>)
    returns (i: nat)
    requires |was| == a.Length && start + first <= a.Length && (first % 4 == 0 || start + first == a.Length)
    requires words > 0 && key64 == KeyWord64(Load(order, key))
    requires a[..] == MaskedUpTo(was, start, key, first)
    modifies a
    ensures start + i <= a.Length && (i % 4 == 0 || start + i == a.Length) && a[..] == MaskedUpTo(was, start, key, i)
  {
    hide Load, KeyWord64, MaskedUpTo;
    var size := a.Length - start;
    i := first;
    while i + 8 * words <= size
      invariant i <= size && (i % 4 == 0 || start + i == a.Length) && a[..] == MaskedUpTo(was, start, key, i)
    {
      MaskWords(order, a, start, i, words, key, key64, was);
      i := i + 8 * words;
    }
  }

  /** The loops over 64-, 32- and 8-byte blocks. */
  method MaskBlocks(order: ByteOrder, a: array<byte>, start: nat, first: nat, key: Key, key64: nat,
                    ghost was: seq<byte>)
    returns (i: nat)
    requires |was| == a.Length && start + first <= a.Length && (first % 4 == 0 || start + first == a.Length)
    requires key64 == KeyWord64(Load(order, key))
    requires a[..] == MaskedUpTo(was, start, key, first)
    modifies a
    ensures start + i <= a.Length && (i % 4 == 0 || start + i == a.Length) && a[..] == MaskedUpTo(was, start, key, i)
  {
    hide Load, KeyWord64, MaskedUpTo;
    var size := a.Length - start;
    i := MaskGroups(order, a, start, first, 8, key, key64, was);
    i := MaskGroups(order, a, start, i, 4, key, key64, was);
    while i + 8 <= size
      invariant i <= size && (i % 4 == 0 || start + i == a.Length) && a[..] == MaskedUpTo(was, start, key, i)
    {
      MaskWord64(order, a, start, i, key, key64, was);
      i := i + 8;
    }
  }

  /**
   * `apply_mask` on the slice of `a` from `start` on: the 64-, 32-, 8-, 4- and 1-byte loops
   * together are the byte-wise definition, for every length and either byte order.
   */
  method ApplyMask(order: ByteOrder, a: array<byte>, start: nat, key: Key)
    requires start <= a.Length
    modifies a
    ensures a[..] == old(a[..])[..start] + Masked(old(a[..])[start..], key, 0)
  {
    var size := a.Length - start;
    ghost var was := a[..];
    MaskedUpToStart(was, start, key);
    MaskedUpToEnd(was, start, key);
    hide Load, KeyWord64, Masked, MaskedUpTo;
    if size == 0 {
      return;
    }
    var i := 0;
    while i < size && i % 4 != 0
      invariant i <= size && a[..] == MaskedUpTo(was, start, key, i)
    {
      MaskByte(a, start, i, key, was);
      i := i + 1;
    }
    var key32 := Load(order, key);
    var key64 := KeyWord64(key32);
    i := MaskBlocks(order, a, start, i, key, key64, was);
    MaskRest(order, a, start, i, key, key32, was);
  }

  /** The loops over 4-byte words and the last bytes. */
  method MaskRest(order: ByteOrder, a: array<byte>, start: nat, first: nat, key: Key, key32: nat, ghost was: seq<byte>)
    requires |was| == a.Length && start + first <= a.Length && (first % 4 == 0 || start + first == a.Length)
    requires key32 == Load(order, key)
    requires a[..] == MaskedUpTo(was, start, key, first)
    modifies a
    ensures a[..] == MaskedUpTo(was, start, key, a.Length - start)
  {
    hide Load, MaskedUpTo;
    var size, i := a.Length - start, first;
    while i + 4 <= size
      invariant i <= size && (i % 4 == 0 || start + i == a.Length) && a[..] == MaskedUpTo(was, start, key, i)
    {
      MaskWord32(order, a, start, i, key, key32, was);
      i := i + 4;
    }
    while i < size
      invariant i <= size && a[..] == MaskedUpTo(was, start, key, i)
    {
      MaskByte(a, start, i, key, was);
      i := i + 1;
    }
  }

  // ---- copy_and_unmask -----------------------------------------------------------------

  /** `was` with the first `done` octets of `src` copied, unmasked, to `start`: the state of the copying loop. */
  ghost function CopiedUpTo(was: seq<byte>, start: nat, src: seq<byte>, key: Key, offset: nat,
                            done: nat): (r: seq<byte>)
    requires done <= |src| && start + |src| <= |was|
    ensures |r| == |was|
  {
    was[..start] + Masked(src[..done], key, offset) + was[start + done..]
  }

  lemma {:induction false} CopiedUpToStep(was: seq<byte>, now: seq<byte>, start: nat, src: seq<byte>, key: Key,
                                          offset: nat, done: nat, width: nat)
    requires done + width <= |src| && start + |src| <= |was|
    requires now == CopiedUpTo(was, start, src, key, offset, done)
    ensures now[..start + done] + Masked(src[done..done + width], key, offset + done) + now[start + done + width..]
         == CopiedUpTo(was, start, src, key, offset, done + width)
  {
    hide Masked;
    assert src[..done + width] == src[..done] + src[done..done + width];
    MaskSplit(src[..done], src[done..done + width], key, offset);
    assert now[start + done + width..] == was[start + done + width..];
    assert now[..start + done] == was[..start] + Masked(src[..done], key, offset);
  }

  /** At a multiple of four the running offset does not matter to the key. */
  lemma MaskAligned(s: seq<byte>, key: Key, offset: nat)
    requires offset % 4 == 0
    ensures Masked(s, key, offset) == Masked(s, key, 0)
  {
    hide Xor;
    forall k | 0 <= k < |s|
      ensures Masked(s, key, offset)[k] == Masked(s, key, 0)[k]
    {
      SameResidue(k, offset);
    }
  }

  /** One iteration of the copying loop; returns how many octets it copied. */
  method CopyNext(order: ByteOrder, dst: array<byte>, start: nat, src: seq<byte>, i: nat, key: Key,
                  key32: nat, key64: nat, offset: nat, ghost was: seq<byte>)
    returns (width: nat)
    requires i < |src| && start + |src| <= dst.Length == |was|
    requires key32 == Load(order, key) && key64 == KeyWord64(key32)
    requires dst[..] == CopiedUpTo(was, start, src, key, offset, i)
    modifies dst
    ensures 0 < width <= |src| - i
    ensures dst[..] == CopiedUpTo(was, start, src, key, offset, i + width)
  {
    hide *;
    var octets := UnmaskNext(order, src, i, key, key32, key64, offset + i);
    width := |octets|;
    CopiedUpToStep(was, dst[..], start, src, key, offset, i, width);
    StoreAt(dst, start + i, octets);
  }

  /** The next octets of the copy: eight or four at a time where the offset is aligned, otherwise one. */
  method UnmaskNext(order: ByteOrder, src: seq<byte>, i: nat, key: Key, key32: nat, key64: nat, pos: nat)
    returns (octets: seq<byte>)
    requires i < |src| && key32 == Load(order, key) && key64 == KeyWord64(key32)
    ensures 0 < |octets| <= |src| - i && octets == Masked(src[i..i + |octets|], key, pos)
  {
    hide *;
    if pos % 8 == 0 && i + 8 <= |src| {
      WordMasks64(order, src[i..i + 8], key);
      MaskAligned(src[i..i + 8], key, pos);
      octets := Store(order, XorBits(Load(order, src[i..i + 8]), key64, 64), 8);
    } else if pos % 4 == 0 && i + 4 <= |src| {
      WordMasks32(order, src[i..i + 4], key);
      MaskAligned(src[i..i + 4], key, pos);
      octets := Store(order, XorBits(Load(order, src[i..i + 4]), key32, 32), 4);
    } else {
      MaskedOctet(src, i, key, pos);
      octets := [Xor(src[i], key[pos % 4])];
    }
  }

  /**
   * `copy_and_unmask`: writes `src`, unmasked as if it began `offset` octets into the payload,
   * over `dst[start..start + |src|]`. The 8-byte step is taken only at offsets divisible by 8.
   */
  method CopyAndUnmask(order: ByteOrder, dst: array<byte>, start: nat, src: seq<byte>, key: Key, offset: nat)
    requires start + |src| <= dst.Length
    modifies dst
    ensures dst[..] == old(dst[..])[..start] + Masked(src, key, offset) + old(dst[..])[start + |src|..]
  {
    ghost var was := dst[..];
    assert CopiedUpTo(was, start, src, key, offset, 0) == was;
    assert src[..|src|] == src;
    hide Load, KeyWord64, Masked, Store, XorBits;
    if |src| == 0 {
      return;
    }
    var key32 := Load(order, key);
    var key64 := KeyWord64(key32);
    var i, pos := 0, offset;
    while i < |src|
      invariant i <= |src| && pos == offset + i
      invariant dst[..] == CopiedUpTo(was, start, src, key, offset, i)
    {
      var width := CopyNext(order, dst, start, src, i, key, key32, key64, offset, was);
      i, pos := i + width, pos + width;
    }
  }

  lemma MaskedOctet(s: seq<byte>, i: nat, key: Key, offset: nat)
    requires i < |s|
    ensures Masked(s[i..i + 1], key, offset) == [Xor(s[i], key[offset % 4])]
  {
    hide Xor;
  }
}
