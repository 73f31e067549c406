/** The bulk cipher: output feedback (section 6.4 of NIST SP 800-38A) over any block
    function, with PKCS#7 padding (section 6.3 of RFC 5652). */
module Ofb {
  import opened Bytes
  import opened Masking

  const BLOCK_SIZE := 16

  type Block = b: seq<byte> | |b| == BLOCK_SIZE witness seq(BLOCK_SIZE, _ => 0)

  // ---- Padding ----------------------------------------------------------------------------------

  function PadLen(n: nat): (p: byte)
    ensures 1 <= p <= BLOCK_SIZE && (n + p) % BLOCK_SIZE == 0
  {
    BLOCK_SIZE - n % BLOCK_SIZE
  }

  function Run(b: byte, n: nat): (s: seq<byte>)
    ensures |s| == n
  {
    seq(n, _ => b)
  }

  function Pad(data: seq<byte>): (r: seq<byte>)
    ensures |r| % BLOCK_SIZE == 0 && |r| >= BLOCK_SIZE
  {
    data + Run(PadLen(|data|), PadLen(|data|))
  }

  /** Drops well-formed padding; anything else is left as it is. */
  function Unpad(r: seq<byte>): seq<byte> {
    if r == [] then r
    else
      var p := r[|r| - 1];
      if 0 < p <= BLOCK_SIZE && |r| >= p && r[|r| - p..] == Run(p, p) then r[..|r| - p] else r
  }

  lemma UnpadOfPad(data: seq<byte>)
    ensures Unpad(Pad(data)) == data
  {
    var p := PadLen(|data|);
    var r := Pad(data);
    assert r[|r| - 1] == p;
    assert r[|r| - p..] == Run(p, p);
  }

  /** The padded text spelled out: a whole number of blocks, the text, and as many bytes
      as were missing, each holding their number. */
  lemma PadIs(data: seq<byte>)
    ensures var n := 16 - |data| % 16;
            1 <= n <= 16 && Pad(data) == data + seq(n, _ => n) && |Pad(data)| % 16 == 0
  {
  }

  /** What unpadding drops: the shortest text that, with that many bytes of their number
      behind it, is the padded one; without such an ending nothing. */
  lemma UnpadMeans(r: seq<byte>, u: seq<byte>)
    ensures Unpad(r) == u <==>
              if EndsPadded(r) then EndsWith(r, u) else r == u
  {
    if r != [] {
      var p := r[|r| - 1];
      if EndsPadded(r) {
        var v :| EndsWith(r, v);
        PaddedParts(r, v);
      }
      if 0 < p <= BLOCK_SIZE && |r| >= p && r[|r| - p..] == Run(p, p) {
        assert r == r[..|r| - p] + r[|r| - p..];
        assert EndsWith(r, r[..|r| - p]);
      }
      if EndsWith(r, u) {
        PaddedParts(r, u);
      }
    }
  }

  /** `r` is `u` with `n` bytes of `n` behind it, 1 to 16 of them. */
  predicate EndsWith(r: seq<byte>, u: seq<byte>) {
    |u| < |r| <= |u| + 16 && r == u + seq(|r| - |u|, _ => |r| - |u|)
  }

  ghost predicate EndsPadded(r: seq<byte>) {
    exists u :: EndsWith(r, u)
  }

  lemma PaddedParts(r: seq<byte>, u: seq<byte>)
    requires EndsWith(r, u)
    ensures var p := r[|r| - 1]; p == |r| - |u| && u == r[..|r| - p] && r[|r| - p..] == Run(p, p)
  {
  }

  // ---- Keystream --------------------------------------------------------------------------------------

  /** The feedback after `i` blocks: the block function applied `i` times to the IV. */
  function Feedback(f: Block -> Block, iv: Block, i: nat): Block {
    if i == 0 then iv else f(Feedback(f, iv, i - 1))
  }

  /** `n` bytes of `data` XORed with the keystream. */
  function Streamed(f: Block -> Block, iv: Block, data: seq<byte>): (r: seq<byte>)
    ensures |r| == |data|
  {
    seq(|data|, j requires 0 <= j < |data| =>
      XorByte(data[j], Feedback(f, iv, j / BLOCK_SIZE + 1)[j % BLOCK_SIZE]))
  }

  lemma StreamedTwice(f: Block -> Block, iv: Block, data: seq<byte>)
    ensures Streamed(f, iv, Streamed(f, iv, data)) == data
  {
    hide XorByte;
    var once := Streamed(f, iv, data);
    forall j | 0 <= j < |data|
      ensures Streamed(f, iv, once)[j] == data[j]
    {
      XorTwice(data[j], Feedback(f, iv, j / BLOCK_SIZE + 1)[j % BLOCK_SIZE]);
    }
  }

  function Encrypted(f: Block -> Block, iv: Block, data: seq<byte>): seq<byte> {
    iv + Streamed(f, iv, Pad(data))
  }

  function Decrypted(f: Block -> Block, ct: seq<byte>): seq<byte> {
    if |ct| < BLOCK_SIZE * 2 || |ct| % BLOCK_SIZE != 0 then []
    else Unpad(Streamed(f, ct[..BLOCK_SIZE], ct[BLOCK_SIZE..]))
  }

  /** For every plaintext, IV and block function, however poor. */
  lemma DecryptInverts(f: Block -> Block, iv: Block, data: seq<byte>)
    ensures Decrypted(f, Encrypted(f, iv, data)) == data
  {
    hide Streamed, Unpad, Pad;
    var ct := Encrypted(f, iv, data);
    assert ct[..BLOCK_SIZE] == iv && ct[BLOCK_SIZE..] == Streamed(f, iv, Pad(data));
    StreamedTwice(f, iv, Pad(data));
    UnpadOfPad(data);
  }

  // ---- What the keystream is ------------------------------------------------------------------

  function Xored(a: seq<byte>, b: seq<byte>): (r: seq<byte>)
    requires |a| == |b|
    ensures |r| == |a|
  {
    seq(|a|, j requires 0 <= j < |a| => XorByte(a[j], b[j]))
  }

  /** Block `i` of two texts, XORed. */
  function Difference(a: seq<byte>, b: seq<byte>, i: nat): Block
    requires 16 * i + 16 <= |a| && |a| == |b|
  {
    Xored(a[16 * i..16 * i + 16], b[16 * i..16 * i + 16])
  }

  /** Output feedback, told from the two texts alone: what turns one into the other is, in
      the first block, the IV through the block function, and in every later one the
      block function of what it was in the block before. */
  predicate Chained(f: Block -> Block, iv: Block, plain: seq<byte>, cipher: seq<byte>) {
    && |plain| == |cipher| && |plain| % 16 == 0
    && (plain != [] ==> Difference(cipher, plain, 0) == f(iv))
    && forall i {:trigger Difference(cipher, plain, i)} :: 0 < i < |plain| / 16 ==>
         Difference(cipher, plain, i) == f(Difference(cipher, plain, i - 1))
  }

  lemma XorUndone(a: byte, b: byte)
    ensures XorByte(XorByte(a, b), a) == b
  {
    hide XorByte;
    XorSwaps(a, b);
    XorTwice(b, a);
  }

  lemma StreamedAt(f: Block -> Block, iv: Block, data: seq<byte>, i: nat, j: nat)
    requires j < BLOCK_SIZE && i * BLOCK_SIZE + j < |data|
    ensures var at := i * BLOCK_SIZE + j;
            Streamed(f, iv, data)[at] == XorByte(data[at], Feedback(f, iv, i + 1)[j])
  {
    var at := i * BLOCK_SIZE + j;
    assert at / BLOCK_SIZE == i && at % BLOCK_SIZE == j;
  }

  lemma {:induction false} DifferenceIsFeedback(f: Block -> Block, iv: Block, data: seq<byte>, i: nat)
    requires 16 * i + 16 <= |data|
    ensures Difference(Streamed(f, iv, data), data, i) == Feedback(f, iv, i + 1)
  {
    hide XorByte, Streamed, Feedback;
    var d, k := Difference(Streamed(f, iv, data), data, i), Feedback(f, iv, i + 1);
    forall j | 0 <= j < 16
      ensures d[j] == k[j]
    {
      StreamedAt(f, iv, data, i, j);
      XorUndone(data[16 * i + j], k[j]);
    }
  }

  lemma {:induction false} StreamedChains(f: Block -> Block, iv: Block, data: seq<byte>)
    requires |data| % 16 == 0
    ensures Chained(f, iv, data, Streamed(f, iv, data))
  {
    hide Streamed;
    var cipher := Streamed(f, iv, data);
    if data != [] {
      DifferenceIsFeedback(f, iv, data, 0);
      assert Feedback(f, iv, 1) == f(Feedback(f, iv, 0));
    }
    forall i {:trigger Difference(cipher, data, i)} | 0 < i < |data| / 16
      ensures Difference(cipher, data, i) == f(Difference(cipher, data, i - 1))
    {
      DifferenceIsFeedback(f, iv, data, i);
      DifferenceIsFeedback(f, iv, data, i - 1);
    }
  }

  /** The ciphertext: the IV, then the padded text chained. */
  lemma {:induction false} EncryptedIs(f: Block -> Block, iv: Block, data: seq<byte>)
    ensures var n, ct := 16 - |data| % 16, Encrypted(f, iv, data);
            && |ct| > 16 && ct[..16] == iv && Chained(f, iv, data + seq(n, _ => n), ct[16..])
  {
    hide Streamed, Chained, Pad;
    PadIs(data);
    StreamedChains(f, iv, Pad(data));
    assert Encrypted(f, iv, data)[16..] == Streamed(f, iv, Pad(data));
  }

  /** The plaintext: nothing for a length no ciphertext has; otherwise what chains to the
      ciphertext after its IV, without its padding. */
  lemma {:induction false} DecryptedIs(f: Block -> Block, ct: seq<byte>) returns (padded: seq<byte>)
    ensures |ct| < 32 || |ct| % 16 != 0 ==> Decrypted(f, ct) == []
    ensures |ct| >= 32 && |ct| % 16 == 0 ==> Chained(f, ct[..16], ct[16..], padded) && Decrypted(f, ct) == Unpad(padded)
  {
    hide Streamed, Chained, Unpad;
    padded := [];
    if |ct| >= 32 && |ct| % 16 == 0 {
      padded := Streamed(f, ct[..16], ct[16..]);
      StreamedChains(f, ct[..16], ct[16..]);
    }
  }

  // ---- The code -----------------------------------------------------------------------------------------

  /** One block against its keystream block, byte by byte. */
  method XorBlock(data: seq<byte>, start: nat, keystream: Block) returns (block: array<byte>)
    requires start + BLOCK_SIZE <= |data|
    ensures fresh(block) && block.Length == BLOCK_SIZE
    ensures forall j :: 0 <= j < BLOCK_SIZE ==> block[j] == XorByte(data[start + j], keystream[j])
  {
    hide XorByte;
    block := new byte[BLOCK_SIZE](_ => 0);
    for j := 0 to BLOCK_SIZE
      invariant forall t :: 0 <= t < j ==> block[t] == XorByte(data[start + t], keystream[t])
    {
      block[j] := XorByte(data[start + j], keystream[j]);
    }
  }

  /** The loop `encrypt` and `decrypt` share: the keystream block, not the ciphertext, is
      fed back. */
  method Stream(f: Block -> Block, iv: Block, data: seq<byte>) returns (result: seq<byte>)
    requires |data| % BLOCK_SIZE == 0
    ensures result == Streamed(f, iv, data)
  {
    hide XorByte, Streamed;
    result := [];
    var feedback := iv;
    var numBlocks := |data| / BLOCK_SIZE;
    for i := 0 to numBlocks
      invariant feedback == Feedback(f, iv, i)
      invariant result == Streamed(f, iv, data)[..i * BLOCK_SIZE]
    {
      var start := i * BLOCK_SIZE;
      var keystream := f(feedback);
      var block := XorBlock(data, start, keystream);
      forall j | 0 <= j < BLOCK_SIZE
        ensures block[..][j] == Streamed(f, iv, data)[start + j]
      {
        StreamedAt(f, iv, data, i, j);
      }
      assert block[..] == Streamed(f, iv, data)[start..start + BLOCK_SIZE];
      result := result + block[..];
      feedback := keystream;
    }
    assert numBlocks * BLOCK_SIZE == |data|;
  }

  /** `encrypt`; the IV is whatever the system's generator gave. */
  method Encrypt(f: Block -> Block, iv: Block, data: seq<byte>) returns (result: seq<byte>)
    ensures result == Encrypted(f, iv, data)
    ensures |result| > 16 && result[..16] == iv
    ensures var n := 16 - |data| % 16; Chained(f, iv, data + seq(n, _ => n), result[16..])
  {
    hide Chained;
    EncryptedIs(f, iv, data);
    var padLen := BLOCK_SIZE - |data| % BLOCK_SIZE;
    var padded := data + Run(padLen, padLen);
    var body := Stream(f, iv, padded);
    result := iv + body;
  }

  /** The end of `decrypt`. */
  method RemovePadding(padded: seq<byte>) returns (result: seq<byte>)
    ensures result == Unpad(padded)
  {
    result := padded;
    if padded != [] {
      var padLen := padded[|padded| - 1];
      if padLen > 0 && padLen <= BLOCK_SIZE && |padded| >= padLen {
        var padStart := |padded| - padLen;
        var all := true;
        for i := padStart to |padded|
          invariant all <==> forall j :: padStart <= j < i ==> padded[j] == padLen
        {
          all := all && padded[i] == padLen;
        }
        if all {
          assert padded[padStart..] == Run(padLen, padLen);
          result := padded[..padStart];
        } else {
          var j :| padStart <= j < |padded| && padded[j] != padLen;
          assert padded[padStart..][j - padStart] != Run(padLen, padLen)[j - padStart];
        }
      }
    }
  }

  /** `decrypt`: an empty result for a length no ciphertext has. */
  method Decrypt(f: Block -> Block, data: seq<byte>) returns (result: seq<byte>)
    ensures result == Decrypted(f, data)
    ensures |data| < 32 || |data| % 16 != 0 ==> result == []
    ensures |data| >= 32 && |data| % 16 == 0 ==>
              exists padded :: Chained(f, data[..16], data[16..], padded) && result == Unpad(padded)
  {
    hide Chained, Unpad;
    ghost var plain := DecryptedIs(f, data);
    if |data| < BLOCK_SIZE * 2 || |data| % BLOCK_SIZE != 0 {
      return [];
    }
    var padded := Stream(f, data[..BLOCK_SIZE], data[BLOCK_SIZE..]);
    result := RemovePadding(padded);
  }
}
