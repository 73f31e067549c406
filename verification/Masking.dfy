/** Bulk masking: `xor_with_key` works on eight bytes at a time with an expanded key, and
    equals the byte-by-byte repeating XOR whenever it does not run off that key. */
module Masking {
  import opened Bytes

  // ---- XOR of bytes and of words ---------------------------------------------------------------

  function Bits(a: byte): bv8 {
    a as bv8
  }

  function Value(x: bv8): byte {
    x as byte
  }

  lemma ValueOfBits(a: byte)
    ensures Value(Bits(a)) == a
  {
    BitsOfByte(a);
  }

  lemma BitsOfValue(x: bv8)
    ensures Bits(Value(x)) == x
  {
    ByteOfBits(x);
  }

  function Xor8(x: bv8, y: bv8): bv8 {
    x ^ y
  }

  function Xor64(v: bv64, w: bv64): bv64 {
    v ^ w
  }

  function XorByte(a: byte, b: byte): byte {
    Value(Xor8(Bits(a), Bits(b)))
  }

  lemma XorTwice(a: byte, b: byte)
    ensures XorByte(XorByte(a, b), b) == a
  {
    hide Bits, Value, Xor8;
    BitsOfValue(Xor8(Bits(a), Bits(b)));
    XorBitsTwice(Bits(a), Bits(b));
    ValueOfBits(a);
  }

  lemma XorSwaps(a: byte, b: byte)
    ensures XorByte(a, b) == XorByte(b, a)
  {
    hide Bits, Value;
    XorBitsSwap(Bits(a), Bits(b));
  }

  lemma XorBitsSwap(x: bv8, y: bv8)
    ensures Xor8(x, y) == Xor8(y, x)
  {
  }

  lemma XorBitsTwice(x: bv8, y: bv8)
    ensures Xor8(Xor8(x, y), y) == x
  {
  }

  lemma HalfOfXor(x: bv8, y: bv8)
    ensures Half(Xor8(x, y)) == Xor8(Half(x), Half(y))
  {
  }

  lemma LowOfXor(x: bv8, y: bv8)
    ensures LowBit(Xor8(x, y)) <==> LowBit(x) != LowBit(y)
  {
  }

  lemma {:induction false} RestOfXor(x: bv8, y: bv8, i: nat)
    ensures Rest(Xor8(x, y), i) == Xor8(Rest(x, i), Rest(y, i))
  {
    hide Xor8, Half;
    if i > 0 {
      RestOfXor(x, y, i - 1);
      HalfOfXor(Rest(x, i - 1), Rest(y, i - 1));
    }
  }

  /** Each bit of the result tells whether those of the two bytes differ. */
  lemma {:induction false} XorByteBits(a: byte, b: byte, i: nat)
    ensures BitOf(XorByte(a, b), i) <==> BitOf(a, i) != BitOf(b, i)
  {
    hide Xor8, LowBit, Rest, BitOf;
    BitsOfValue(Xor8(Bits(a), Bits(b)));
    NextBit(a, i);
    NextBit(b, i);
    NextBit(XorByte(a, b), i);
    RestOfXor(Bits(a), Bits(b), i);
    LowOfXor(Rest(Bits(a), i), Rest(Bits(b), i));
  }

  /** `u64::from_le_bytes`. */
  function Word(s: seq<byte>): bv64
    requires |s| == 8
  {
    WordOf(Bits(s[0]), Bits(s[1]), Bits(s[2]), Bits(s[3]), Bits(s[4]), Bits(s[5]), Bits(s[6]), Bits(s[7]))
  }

  function WordOf(a: bv8, b: bv8, c: bv8, d: bv8, e: bv8, f: bv8, g: bv8, h: bv8): bv64 {
    (a as bv64) | ((b as bv64) << 8) | ((c as bv64) << 16) | ((d as bv64) << 24)
    | ((e as bv64) << 32) | ((f as bv64) << 40) | ((g as bv64) << 48) | ((h as bv64) << 56)
  }

  function Octet0(w: bv64): bv8 { (w & 0xFF) as bv8 }
  function Octet1(w: bv64): bv8 { ((w >> 8) & 0xFF) as bv8 }
  function Octet2(w: bv64): bv8 { ((w >> 16) & 0xFF) as bv8 }
  function Octet3(w: bv64): bv8 { ((w >> 24) & 0xFF) as bv8 }
  function Octet4(w: bv64): bv8 { ((w >> 32) & 0xFF) as bv8 }
  function Octet5(w: bv64): bv8 { ((w >> 40) & 0xFF) as bv8 }
  function Octet6(w: bv64): bv8 { ((w >> 48) & 0xFF) as bv8 }
  function Octet7(w: bv64): bv8 { ((w >> 56) & 0xFF) as bv8 }

  /** `to_le_bytes`. */
  function Unword(w: bv64): (s: seq<byte>)
    ensures |s| == 8
  {
    [Value(Octet0(w)), Value(Octet1(w)), Value(Octet2(w)), Value(Octet3(w)),
     Value(Octet4(w)), Value(Octet5(w)), Value(Octet6(w)), Value(Octet7(w))]
  }

  lemma OctetsOfWord(a: bv8, b: bv8, c: bv8, d: bv8, e: bv8, f: bv8, g: bv8, h: bv8)
    ensures var w := WordOf(a, b, c, d, e, f, g, h);
            && Octet0(w) == a && Octet1(w) == b && Octet2(w) == c && Octet3(w) == d
            && Octet4(w) == e && Octet5(w) == f && Octet6(w) == g && Octet7(w) == h
  {
  }

  lemma Octet0OfXor(v: bv64, w: bv64)
    ensures Octet0(Xor64(v, w)) == Xor8(Octet0(v), Octet0(w))
  {
  }

  lemma Octet1OfXor(v: bv64, w: bv64)
    ensures Octet1(Xor64(v, w)) == Xor8(Octet1(v), Octet1(w))
  {
  }

  lemma Octet2OfXor(v: bv64, w: bv64)
    ensures Octet2(Xor64(v, w)) == Xor8(Octet2(v), Octet2(w))
  {
  }

  lemma Octet3OfXor(v: bv64, w: bv64)
    ensures Octet3(Xor64(v, w)) == Xor8(Octet3(v), Octet3(w))
  {
  }

  lemma Octet4OfXor(v: bv64, w: bv64)
    ensures Octet4(Xor64(v, w)) == Xor8(Octet4(v), Octet4(w))
  {
  }

  lemma Octet5OfXor(v: bv64, w: bv64)
    ensures Octet5(Xor64(v, w)) == Xor8(Octet5(v), Octet5(w))
  {
  }

  lemma Octet6OfXor(v: bv64, w: bv64)
    ensures Octet6(Xor64(v, w)) == Xor8(Octet6(v), Octet6(w))
  {
  }

  lemma Octet7OfXor(v: bv64, w: bv64)
    ensures Octet7(Xor64(v, w)) == Xor8(Octet7(v), Octet7(w))
  {
  }

  /** One word step is eight byte steps. */
  lemma WordXor(d: seq<byte>, k: seq<byte>, i: nat)
    requires |d| == 8 && |k| == 8 && i < 8
    ensures Unword(Xor64(Word(d), Word(k)))[i] == XorByte(d[i], k[i])
  {
    hide Bits, Value, WordOf, Xor8, Xor64, Octet0, Octet1, Octet2, Octet3, Octet4, Octet5, Octet6, Octet7;
    var v, w := Word(d), Word(k);
    Octet0OfXor(v, w);
    Octet1OfXor(v, w);
    Octet2OfXor(v, w);
    Octet3OfXor(v, w);
    Octet4OfXor(v, w);
    Octet5OfXor(v, w);
    Octet6OfXor(v, w);
    Octet7OfXor(v, w);
    OctetsOfWord(Bits(d[0]), Bits(d[1]), Bits(d[2]), Bits(d[3]), Bits(d[4]), Bits(d[5]), Bits(d[6]), Bits(d[7]));
    OctetsOfWord(Bits(k[0]), Bits(k[1]), Bits(k[2]), Bits(k[3]), Bits(k[4]), Bits(k[5]), Bits(k[6]), Bits(k[7]));
  }

  // ---- The repeating XOR ---------------------------------------------------------------------------

  function RepeatXor(data: seq<byte>, key: seq<byte>): (r: seq<byte>)
    ensures |r| == |data|
  {
    if key == [] then data
    else seq(|data|, i requires 0 <= i < |data| => XorByte(data[i], key[i % |key|]))
  }

  /** Masking twice with the same key gives the data back. */
  lemma MaskTwice(data: seq<byte>, key: seq<byte>)
    ensures RepeatXor(RepeatXor(data, key), key) == data
  {
    hide XorByte;
    if key != [] {
      var once := RepeatXor(data, key);
      forall i | 0 <= i < |data|
        ensures RepeatXor(once, key)[i] == data[i]
      {
        XorTwice(data[i], key[i % |key|]);
      }
    }
  }

  // ---- The code ---------------------------------------------------------------------------------------

  /** `key_len.max(8).next_multiple_of(key_len)`. */
  function ExpandedLen(keyLen: nat): nat
    requires keyLen > 0
  {
    DivCeil(if keyLen > 8 then keyLen else 8, keyLen) * keyLen
  }

  lemma LongKeyStays(keyLen: nat)
    requires keyLen >= 8
    ensures ExpandedLen(keyLen) == keyLen
  {
    hide DivCeil;
    DivCeilBounds(keyLen, keyLen);
    var n := DivCeil(keyLen, keyLen);
    if n > 1 {
      MulMonotone(2, n, keyLen, keyLen);
    }
    assert n == 1;
  }

  lemma ShortKeyGrows(keyLen: nat)
    requires 0 < keyLen < 8
    ensures ExpandedLen(keyLen) >= 8
  {
    hide DivCeil;
    DivCeilBounds(8, keyLen);
  }

  lemma ExpandedIsMultiple(keyLen: nat)
    requires keyLen > 0
    ensures ExpandedLen(keyLen) >= 8 && ExpandedLen(keyLen) >= keyLen
    ensures keyLen >= 8 ==> ExpandedLen(keyLen) == keyLen
  {
    hide ExpandedLen;
    if keyLen >= 8 {
      LongKeyStays(keyLen);
    } else {
      ShortKeyGrows(keyLen);
    }
  }

  /** The word loop never reads past the expanded key. */
  predicate Fits(dataLen: nat, keyLen: nat) {
    keyLen == 0 || ExpandedLen(keyLen) % 8 == 0 || dataLen / 8 <= ExpandedLen(keyLen) / 8
  }

  /** As for the 32-byte secret: any data fits a key whose length divides 8 or is a
      multiple of it. */
  lemma WholeWordKeysFit(dataLen: nat, keyLen: nat)
    requires keyLen > 0 && (8 % keyLen == 0 || keyLen % 8 == 0)
    ensures Fits(dataLen, keyLen)
  {
    ExpandedIsMultiple(keyLen);
    if keyLen < 8 {
      assert keyLen == 1 || keyLen == 2 || keyLen == 4;
    }
  }

  /** Which lengths fit: keys of 1, 2, 4 bytes or whole words any data, other short keys
      less than two words, other long keys as many words as they have. */
  lemma FitsExactly(dataLen: nat, keyLen: nat)
    ensures Fits(dataLen, keyLen) <==>
              if keyLen == 0 || keyLen == 1 || keyLen == 2 || keyLen == 4 then true
              else if keyLen < 8 then dataLen < 16
              else keyLen % 8 == 0 || dataLen < keyLen - keyLen % 8 + 8
  {
    if keyLen >= 8 {
      hide ExpandedLen;
      LongKeyStays(keyLen);
      assert keyLen / 8 * 8 == keyLen - keyLen % 8;
    }
  }

  lemma ModMod(i: nat, q: nat, k: nat, r: nat)
    requires k > 0 && q > 0
    ensures (i % (q * k) + r) % k == (i + r) % k
  {
    var t, x := i / (q * k), i % (q * k);
    assert q * k > 0;
    assert i == t * (q * k) + x;
    Regroup(t, q, k);
    ModPlusMultiple(x + r, t * q, k);
  }

  lemma Regroup(t: nat, q: nat, k: nat)
    ensures t * (q * k) == (t * q) * k
  {
  }

  lemma ModPlusMultiple(x: nat, n: nat, k: nat)
    requires k > 0
    ensures (x + n * k) % k == x % k
  {
    var q, r := x / k, x % k;
    assert (q + n) * k == q * k + n * k;
    DivModUnique(x + n * k, k, q + n, r);
  }

  lemma DivModUnique(x: nat, k: nat, q: nat, r: nat)
    requires r < k && x == q * k + r
    ensures x % k == r
  {
    var q', r' := x / k, x % k;
    assert x == q' * k + r';
    if q < q' {
      MulMonotone(q + 1, q', k, k);
    }
    if q' < q {
      MulMonotone(q' + 1, q, k, k);
    }
  }

  /** The first `n` bytes are masked. */
  predicate MaskedTo(out: seq<byte>, data: seq<byte>, key: seq<byte>, n: nat)
    requires key != [] && n <= |data| == |out|
  {
    forall j :: 0 <= j < n ==> out[j] == XorByte(data[j], key[j % |key|])
  }

  /** A word step masks eight bytes. */
  lemma WordMasked(data: seq<byte>, key: seq<byte>, expanded: seq<byte>, di: nat)
    requires key != [] && |expanded| == ExpandedLen(|key|) && |expanded| > 0
    requires forall i :: 0 <= i < |expanded| ==> expanded[i] == key[i % |key|]
    requires di + 8 <= |data| && di % |expanded| + 8 <= |expanded|
    ensures var ki := di % |expanded|;
            var w := Unword(Xor64(Word(data[di..di + 8]), Word(expanded[ki..ki + 8])));
            forall j :: di <= j < di + 8 ==> w[j - di] == XorByte(data[j], key[j % |key|])
  {
    hide XorByte, ExpandedLen, Word, Unword, Xor64;
    var ki := di % |expanded|;
    var d, k := data[di..di + 8], expanded[ki..ki + 8];
    forall j | di <= j < di + 8
      ensures Unword(Xor64(Word(d), Word(k)))[j - di] == XorByte(data[j], key[j % |key|])
    {
      WordXor(d, k, j - di);
      KeyAt(di, |expanded|, |key|, j - di);
    }
  }

  /** The word loop; false where the code panics slicing the expanded key. */
  method MaskWords(data: seq<byte>, key: seq<byte>, expanded: seq<byte>, out: array<byte>) returns (ok: bool)
    requires key != [] && |expanded| == ExpandedLen(|key|) && out.Length == |data|
    requires forall i :: 0 <= i < |expanded| ==> expanded[i] == key[i % |key|]
    modifies out
    ensures ok <==> Fits(|data|, |key|)
    ensures ok ==> MaskedTo(out[..], data, key, |data| / 8 * 8)
  {
    hide XorByte, ExpandedLen, Word, Unword, Xor64;
    var keyLen, expandedLen := |key|, |expanded|;
    ExpandedIsMultiple(keyLen);
    for i := 0 to |data| / 8
      invariant MaskedTo(out[..], data, key, i * 8)
      invariant expandedLen % 8 == 0 || i <= expandedLen / 8
    {
      var di := i * 8;
      var ki := di % expandedLen;
      WordInKey(i, expandedLen);
      if ki + 8 > expandedLen {
        return false;
      }
      var d, k := data[di..di + 8], expanded[ki..ki + 8];
      var w := Unword(Xor64(Word(d), Word(k)));
      WordMasked(data, key, expanded, di);
      forall j | 0 <= j < 8 {
        out[di + j] := w[j];
      }
    }
    ok := true;
  }

  /** `xor_with_key`; `None` where the code panics. */
  method XorWithKey(data: seq<byte>, key: seq<byte>) returns (r: Option<seq<byte>>)
    ensures r.Some? <==> Fits(|data|, |key|)
    ensures r.Some? ==> r.value == RepeatXor(data, key)
    ensures r.Some? && key == [] ==> r.value == data
    ensures r.Some? && key != [] ==>
              |r.value| == |data| && forall i :: 0 <= i < |data| ==> r.value[i] == XorByte(data[i], key[i % |key|])
  {
    hide XorByte, ExpandedLen;
    if |key| == 0 {
      return Some(data);
    }
    var out := new byte[|data|](_ => 0);
    var expanded := ExpandKey(key, ExpandedLen(|key|));
    var ok := MaskWords(data, key, expanded, out);
    if !ok {
      return None;
    }
    var base := |data| / 8 * 8;
    for j := 0 to |data| % 8
      invariant MaskedTo(out[..], data, key, base + j)
    {
      out[base + j] := XorByte(data[base + j], key[(base + j) % |key|]);
    }
    assert out[..] == RepeatXor(data, key);
    r := Some(out[..]);
  }

  /** A word read at `8 * i` of an endlessly repeated key stays inside one copy unless the
      copy is not made of whole words and the last part of it has been reached. */
  lemma WordInKey(i: nat, expandedLen: nat)
    requires expandedLen >= 8 && (expandedLen % 8 == 0 || i <= expandedLen / 8)
    ensures i * 8 % expandedLen + 8 > expandedLen <==> expandedLen % 8 != 0 && i == expandedLen / 8
  {
    if expandedLen % 8 == 0 {
      var w := expandedLen / 8;
      assert i * 8 == (i / w) * expandedLen + (i % w) * 8 by {
        assert i == (i / w) * w + i % w;
        assert (i / w) * w * 8 == (i / w) * (w * 8);
      }
      DivModUnique(i * 8, expandedLen, i / w, (i % w) * 8);
    } else if i < expandedLen / 8 {
      DivModUnique(i * 8, expandedLen, 0, i * 8);
    } else {
      DivModUnique(i * 8, expandedLen, 0, i * 8);
    }
  }

  lemma KeyAt(di: nat, expandedLen: nat, keyLen: nat, r: nat)
    requires keyLen > 0 && expandedLen == ExpandedLen(keyLen)
    ensures (di % expandedLen + r) % keyLen == (di + r) % keyLen
  {
    var q := DivCeil(if keyLen > 8 then keyLen else 8, keyLen);
    ExpandedIsMultiple(keyLen);
    assert q > 0;
    ModMod(di, q, keyLen, r);
  }

  /** Copies of the key up to the expanded length. */
  method ExpandKey(key: seq<byte>, expandedLen: nat) returns (expanded: seq<byte>)
    requires key != []
    ensures |expanded| == expandedLen && forall i :: 0 <= i < expandedLen ==> expanded[i] == key[i % |key|]
  {
    expanded := [];
    ghost var copies := 0;
    while |expanded| < expandedLen
      invariant |expanded| == copies * |key|
      invariant forall i :: 0 <= i < |expanded| ==> expanded[i] == key[i % |key|]
      decreases expandedLen - |expanded|
    {
      ghost var had := |expanded|;
      expanded := expanded + key;
      forall i | had <= i < |expanded|
        ensures expanded[i] == key[i % |key|]
      {
        DivModUnique(i, |key|, copies, i - had);
      }
      copies := copies + 1;
    }
    expanded := expanded[..expandedLen];
  }
}
