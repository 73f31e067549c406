/** The symbol envelope of the data plane: one datagram, keyed (AES-256-GCM) or
    unkeyed (CRC-32). */
module Envelope {
  import opened Bytes
  import opened Wire
  import opened Crc32

  const ENVELOPE_MAGIC: seq<byte> := [0xAF, 0xFE]
  const ENVELOPE_VERSION: byte := 2
  const HEADER_PREFIX_LEN := 18
  const NONCE_LEN := 12
  const GCM_TAG_LEN := 16
  const CRC_TAG_LEN := 4
  const KEY_LEN := 32
  const AUTH_OVERHEAD := HEADER_PREFIX_LEN + NONCE_LEN + GCM_TAG_LEN
  const HEADER_LEN_PLAIN := HEADER_PREFIX_LEN + CRC_TAG_LEN
  const ENC_HEADER_LEN := HEADER_PREFIX_LEN + NONCE_LEN

  datatype Envelope = Envelope(sessionId: u64, blockId: u32, flags: byte, payload: seq<byte>)

  datatype EnvelopeError =
    PayloadTooLong | TooShort | BadMagic | BadVersion | Downgrade | Unexpected | LengthMismatch
    | CrcMismatch | BadKeyOrNonceLength | AuthenticationFailed

  // ---- Flags ---------------------------------------------------------------------------

  /** `flags & FLAG_AUTH != 0`; FLAG_AUTH is bit 0. */
  predicate Authed(flags: byte) {
    flags % 2 == 1
  }

  /** `flags & FLAG_ENCRYPTED != 0`; FLAG_ENCRYPTED is bit 1. */
  predicate Encrypted(flags: byte) {
    flags / 2 % 2 == 1
  }

  /** `flags & !(FLAG_AUTH | FLAG_ENCRYPTED)`. */
  function Cleared(flags: byte): byte {
    flags - flags % 4
  }

  /** `flags | FLAG_AUTH | FLAG_ENCRYPTED`. */
  function Raised(flags: byte): byte {
    flags - flags % 4 + 3
  }

  // ---- The sealed payload: AES-256-GCM as a parameter --------------------------------------

  /** The AEAD behind `symcrypto`, called once the key and nonce lengths are checked. */
  datatype Aead = Aead(
    seal: (seq<byte>, seq<byte>, seq<byte>, seq<byte>) -> Result<seq<byte>, EnvelopeError>,
    open: (seq<byte>, seq<byte>, seq<byte>, seq<byte>) -> Result<seq<byte>, EnvelopeError>)

  /** What is assumed of it: it opens what it sealed, and the tag adds 16 bytes. */
  ghost predicate Lawful(a: Aead) {
    forall k, n, aad, p :: a.seal(k, n, aad, p).Ok? ==>
      && |a.seal(k, n, aad, p).value| == |p| + GCM_TAG_LEN
      && a.open(k, n, aad, a.seal(k, n, aad, p).value) == Ok(p)
  }

  function Seal(a: Aead, key: seq<byte>, nonce: seq<byte>, aad: seq<byte>, p: seq<byte>):
    Result<seq<byte>, EnvelopeError>
  {
    if |key| != KEY_LEN || |nonce| != NONCE_LEN then Err(BadKeyOrNonceLength)
    else a.seal(key, nonce, aad, p)
  }

  function Open(a: Aead, key: seq<byte>, nonce: seq<byte>, aad: seq<byte>, sealed: seq<byte>):
    Result<seq<byte>, EnvelopeError>
  {
    if |key| != KEY_LEN || |nonce| != NONCE_LEN then Err(BadKeyOrNonceLength)
    else if |sealed| < GCM_TAG_LEN then Err(AuthenticationFailed)
    else a.open(key, nonce, aad, sealed)
  }

  // ---- Printing ----------------------------------------------------------------------------

  function Prefix(e: Envelope, flags: byte): (p: seq<byte>)
    ensures |p| == HEADER_PREFIX_LEN
  {
    ENVELOPE_MAGIC + [ENVELOPE_VERSION, flags]
    + BE(e.sessionId, 8) + BE(e.blockId, 4) + BE(|e.payload|, 2)
  }

  function Encoded(e: Envelope, key: Option<seq<byte>>, nonce: seq<byte>, a: Aead):
    Result<seq<byte>, EnvelopeError>
  {
    if |e.payload| > U16_MAX then Err(PayloadTooLong)
    else
      match key
      case Some(k) =>
        var prefix := Prefix(e, Raised(e.flags));
        var sealed :- Seal(a, k, nonce, prefix, e.payload);
        Ok(prefix + nonce + sealed)
      case None =>
        var prefix := Prefix(e, Cleared(e.flags));
        Ok(prefix + TagBE(Crc(prefix + e.payload)) + e.payload)
  }

  method WritePrefix(e: Envelope, flags: byte, out: Buffer)
    modifies out
    ensures out.bytes == old(out.bytes) + Prefix(e, flags)
  {
    out.bytes := out.bytes + ENVELOPE_MAGIC;
    out.PutU8(ENVELOPE_VERSION);
    out.PutU8(flags);
    out.bytes := out.bytes + BE(e.sessionId, 8);
    out.bytes := out.bytes + BE(e.blockId, 4);
    out.bytes := out.bytes + BE(|e.payload|, 2);
  }

  /** `encode`; `nonce` is what the random generator delivered. */
  method Encode(e: Envelope, key: Option<seq<byte>>, nonce: seq<byte>, a: Aead)
    returns (r: Result<seq<byte>, EnvelopeError>)
    requires |nonce| == NONCE_LEN
    ensures r == Encoded(e, key, nonce, a)
  {
    if |e.payload| > U16_MAX {
      return Err(PayloadTooLong);
    }
    var out := new Buffer();
    match key {
      case Some(k) =>
        WritePrefix(e, Raised(e.flags), out);
        out.bytes := out.bytes + nonce;
        var aad := out.bytes[..HEADER_PREFIX_LEN];
        assert aad == Prefix(e, Raised(e.flags));
        var sealed :- Seal(a, k, nonce, aad, e.payload);
        out.bytes := out.bytes + sealed;
      case None =>
        WritePrefix(e, Cleared(e.flags), out);
        assert out.bytes == Prefix(e, Cleared(e.flags));
        var crc := Crc(out.bytes + e.payload);
        out.bytes := out.bytes + TagBE(crc);
        out.bytes := out.bytes + e.payload;
    }
    r := Ok(out.bytes);
  }

  // ---- Parsing -----------------------------------------------------------------------------

  function Decode(buf: seq<byte>, key: Option<seq<byte>>, a: Aead): Result<Envelope, EnvelopeError> {
    if |buf| < HEADER_PREFIX_LEN then Err(TooShort)
    else if buf[0..2] != ENVELOPE_MAGIC then Err(BadMagic)
    else if buf[2] != ENVELOPE_VERSION then Err(BadVersion)
    else
      var flags := buf[3];
      if key.Some? && !(Authed(flags) && Encrypted(flags)) then Err(Downgrade)
      else if key.None? && (Authed(flags) || Encrypted(flags)) then Err(Unexpected)
      else
        Pow256Values();
        var sessionId := FromBE(buf[4..12]);
        var blockId := FromBE(buf[12..16]);
        var payloadLen := FromBE(buf[16..18]);
        var prefix := buf[0..HEADER_PREFIX_LEN];
        match key
        case Some(k) =>
          if |buf| != ENC_HEADER_LEN + payloadLen + GCM_TAG_LEN then Err(LengthMismatch)
          else
            var payload :- Open(a, k, buf[HEADER_PREFIX_LEN..ENC_HEADER_LEN], prefix, buf[ENC_HEADER_LEN..]);
            Ok(Envelope(sessionId, blockId, flags, payload))
        case None =>
          if |buf| != HEADER_LEN_PLAIN + payloadLen then Err(LengthMismatch)
          else
            var payload := buf[HEADER_LEN_PLAIN..];
            if TagBE(Crc(prefix + payload)) != buf[HEADER_PREFIX_LEN..HEADER_LEN_PLAIN] then Err(CrcMismatch)
            else Ok(Envelope(sessionId, blockId, flags, payload))
  }

  // ---- Round trips ---------------------------------------------------------------------------

  lemma PrefixFields(e: Envelope, flags: byte, rest: seq<byte>)
    requires |e.payload| <= U16_MAX
    ensures var buf := Prefix(e, flags) + rest;
            && buf[0..2] == ENVELOPE_MAGIC && buf[2] == ENVELOPE_VERSION && buf[3] == flags
            && FromBE(buf[4..12]) == e.sessionId && FromBE(buf[12..16]) == e.blockId
            && FromBE(buf[16..18]) == |e.payload| && buf[0..HEADER_PREFIX_LEN] == Prefix(e, flags)
  {
    hide BE, FromBE;
    Pow256Values();
    var buf := Prefix(e, flags) + rest;
    assert buf[4..12] == BE(e.sessionId, 8);
    assert buf[12..16] == BE(e.blockId, 4);
    assert buf[16..18] == BE(|e.payload|, 2);
    FromBEofBE(e.sessionId, 8);
    FromBEofBE(e.blockId, 4);
    FromBEofBE(|e.payload|, 2);
  }

  lemma PrefixOfFields(buf: seq<byte>, e: Envelope)
    requires |buf| >= HEADER_PREFIX_LEN && buf[0..2] == ENVELOPE_MAGIC && buf[2] == ENVELOPE_VERSION
    requires FromBE(buf[4..12]) == e.sessionId && FromBE(buf[12..16]) == e.blockId
    requires FromBE(buf[16..18]) == |e.payload|
    ensures buf[0..HEADER_PREFIX_LEN] == Prefix(e, buf[3])
  {
    hide BE, FromBE;
    BEofFromBE(buf[4..12]);
    BEofFromBE(buf[12..16]);
    BEofFromBE(buf[16..18]);
    assert buf[0..HEADER_PREFIX_LEN]
        == buf[0..2] + [buf[2], buf[3]] + buf[4..12] + buf[12..16] + buf[16..18];
  }

  lemma Apart(a: seq<byte>, b: seq<byte>, c: seq<byte>)
    ensures a + b + c == a + (b + c)
    ensures (a + b + c)[|a|..|a| + |b|] == b && (a + b + c)[|a| + |b|..] == c
  {
  }

  lemma RaisedFlags(flags: byte)
    ensures Authed(Raised(flags)) && Encrypted(Raised(flags))
  {
    hide Authed, Encrypted;
    assert Raised(flags) == 4 * (flags / 4) + 3;
    ThreeSetsBoth(flags / 4, Raised(flags));
  }

  lemma HalfOf(q: nat, x: nat)
    requires x == 2 * q + 1
    ensures x % 2 == 1 && x / 2 == q
  {
  }

  lemma ThreeSetsBoth(q: nat, flags: byte)
    requires flags == 4 * q + 3
    ensures Authed(flags) && Encrypted(flags)
  {
    HalfOf(2 * q + 1, flags);
    HalfOf(q, 2 * q + 1);
  }

  lemma OpenOfSeal(a: Aead, k: seq<byte>, nonce: seq<byte>, aad: seq<byte>, p: seq<byte>)
    requires Lawful(a) && Seal(a, k, nonce, aad, p).Ok?
    ensures |nonce| == NONCE_LEN && |Seal(a, k, nonce, aad, p).value| == |p| + GCM_TAG_LEN
    ensures Open(a, k, nonce, aad, Seal(a, k, nonce, aad, p).value) == Ok(p)
  {
  }

  lemma SealedRoundTrip(e: Envelope, k: seq<byte>, nonce: seq<byte>, a: Aead)
    requires Lawful(a) && Encoded(e, Some(k), nonce, a).Ok?
    ensures Decode(Encoded(e, Some(k), nonce, a).value, Some(k), a) == Ok(e.(flags := Raised(e.flags)))
  {
    hide Prefix, BE, FromBE, Seal, Open, Raised, Authed, Encrypted, Lawful;
    var prefix := Prefix(e, Raised(e.flags));
    RaisedFlags(e.flags);
    OpenOfSeal(a, k, nonce, prefix, e.payload);
    var sealed := Seal(a, k, nonce, prefix, e.payload).value;
    Apart(prefix, nonce, sealed);
    PrefixFields(e, Raised(e.flags), nonce + sealed);
  }

  lemma PlainRoundTrip(e: Envelope, nonce: seq<byte>, a: Aead)
    requires Encoded(e, None, nonce, a).Ok?
    ensures Decode(Encoded(e, None, nonce, a).value, None, a) == Ok(e.(flags := Cleared(e.flags)))
  {
    hide Prefix, BE, FromBE, Crc, TagBE;
    var prefix := Prefix(e, Cleared(e.flags));
    var tag := TagBE(Crc(prefix + e.payload));
    Apart(prefix, tag, e.payload);
    PrefixFields(e, Cleared(e.flags), tag + e.payload);
  }

  /** With or without a key, a receiver holding the same key gets back the envelope that
      was sent; only the two flags `encode` owns may differ. */
  lemma DecodeOfEncode(e: Envelope, key: Option<seq<byte>>, nonce: seq<byte>, a: Aead)
    requires (key.Some? ==> Lawful(a)) && Encoded(e, key, nonce, a).Ok?
    ensures Decode(Encoded(e, key, nonce, a).value, key, a)
         == Ok(e.(flags := if key.Some? then Raised(e.flags) else Cleared(e.flags)))
  {
    hide Encoded, Decode;
    match key
    case Some(k) => SealedRoundTrip(e, k, nonce, a);
    case None => PlainRoundTrip(e, nonce, a);
  }

  /** Unkeyed datagrams are canonical: one is accepted exactly when it is the encoding
      of the envelope it is accepted as. */
  lemma PlainIsCanonical(buf: seq<byte>, e: Envelope, nonce: seq<byte>, a: Aead)
    ensures Decode(buf, None, a) == Ok(e)
        <==> Cleared(e.flags) == e.flags && Encoded(e, None, nonce, a) == Ok(buf)
  {
    hide Prefix, BE, FromBE, Crc, TagBE;
    if Decode(buf, None, a) == Ok(e) {
      Pow256Values();
      PrefixOfFields(buf, e);
      assert buf == buf[0..HEADER_PREFIX_LEN] + buf[HEADER_PREFIX_LEN..HEADER_LEN_PLAIN] + buf[HEADER_LEN_PLAIN..];
    }
    if Encoded(e, None, nonce, a) == Ok(buf) {
      DecodeOfEncode(e, None, nonce, a);
    }
  }

  /** Every single-byte change to an accepted unkeyed datagram is caught. */
  lemma AnyByteFlipRejected(buf: seq<byte>, i: nat, b: byte, a: Aead)
    requires Decode(buf, None, a).Ok? && i < |buf| && b != buf[i]
    ensures Decode(buf[i := b], None, a).Err?
  {
    hide Crc, TagBE, FromBE;
    var buf' := buf[i := b];
    if Decode(buf', None, a).Ok? {
      var body, body' := Checked(buf), Checked(buf');
      var tag, tag' := buf[HEADER_PREFIX_LEN..HEADER_LEN_PLAIN], buf'[HEADER_PREFIX_LEN..HEADER_LEN_PLAIN];
      // A changed tag byte cannot match the unchanged checksum.
      if i < HEADER_PREFIX_LEN || i >= HEADER_LEN_PLAIN {
        var j := if i < HEADER_PREFIX_LEN then i else i - CRC_TAG_LEN;
        assert body' == body[j := b];
        assert tag == tag';
        OneByteChangesCrc(body, j, b);
        TagInjective(Crc(body), Crc(body'));
      }
    }
  }

  /** The bytes of an unkeyed datagram its CRC covers. */
  function Checked(buf: seq<byte>): seq<byte>
    requires |buf| >= HEADER_LEN_PLAIN
  {
    buf[0..HEADER_PREFIX_LEN] + buf[HEADER_LEN_PLAIN..]
  }

  // ---- The MTU -------------------------------------------------------------------------------

  /** `max_symbol_size`, with the two saturating subtractions. */
  function MaxSymbolSize(mtu: u16, authenticated: bool): u16 {
    var overhead := if authenticated then AUTH_OVERHEAD else HEADER_LEN_PLAIN;
    var room := if mtu < overhead then 0 else mtu - overhead;
    if room < 4 then 0 else room - 4
  }

  /** A symbol of the maximal size behind its four-byte id makes a datagram that fits
      the MTU, exactly when the MTU holds the overhead and the id at all; and when it
      does the datagram fills it. */
  lemma FullSymbolFits(mtu: u16, e: Envelope, key: Option<seq<byte>>, nonce: seq<byte>, a: Aead)
    requires (key.Some? ==> Lawful(a)) && |nonce| == NONCE_LEN
    requires |e.payload| == 4 + MaxSymbolSize(mtu, key.Some?)
    requires Encoded(e, key, nonce, a).Ok?
    ensures var overhead := if key.Some? then AUTH_OVERHEAD else HEADER_LEN_PLAIN;
            var size := |Encoded(e, key, nonce, a).value|;
            && (size <= mtu <==> mtu >= overhead + 4)
            && (mtu >= overhead + 4 ==> size == mtu)
  {
  }

  // ---- What a keyed receiver accepts ---------------------------------------------------------

  /** With a key nothing is accepted that does not carry both flags, whose length is not
      that of its fields, or whose prefix, as it came, and payload the cipher does not open
      under the nonce between them. */
  lemma KeyedAccepts(buf: seq<byte>, k: seq<byte>, e: Envelope, a: Aead)
    ensures Decode(buf, Some(k), a) == Ok(e) <==>
              && |k| == 32 && |buf| >= 46 && buf[..3] == [0xAF, 0xFE, 2]
              && buf[3] == e.flags && e.flags % 4 == 3
              && FromBE(buf[4..12]) == e.sessionId && FromBE(buf[12..16]) == e.blockId
              && FromBE(buf[16..18]) == |buf| - 46
              && a.open(k, buf[18..30], buf[..18], buf[30..]) == Ok(e.payload)
  {
    hide FromBE;
    Pow256Values();
    if |buf| >= 18 {
      BothFlags(buf[3]);
      assert buf[0..2] == buf[..3][..2] && buf[0..18] == buf[..18];
      assert buf[..3] == [0xAF, 0xFE, 2] <==> buf[0..2] == ENVELOPE_MAGIC && buf[2] == ENVELOPE_VERSION by {
        assert buf[..3] == buf[0..2] + [buf[2]];
      }
    }
  }

  /** What a datagram consists of. Without a key: the prefix with both flag bits off, the
      CRC-32 of prefix and payload, the payload. With one: the prefix with both on, the nonce,
      the payload sealed under that nonce and that prefix. */
  lemma EncodedIs(e: Envelope, key: Option<seq<byte>>, nonce: seq<byte>, a: Aead)
    requires |nonce| == 12
    ensures var r := Encoded(e, key, nonce, a);
            && (|e.payload| > 65535 ==> r == Err(PayloadTooLong))
            && (|e.payload| <= 65535 && key == None ==> r.Ok?)
            && (|e.payload| <= 65535 && key.Some? ==>
                  (r.Ok? <==> |key.value| == 32 && a.seal(key.value, nonce, Prefix(e, Raised(e.flags)), e.payload).Ok?))
            && (r.Ok? ==>
                  var b := r.value;
                  && |b| >= 22 && b[..3] == [0xAF, 0xFE, 2] && b[3] / 4 == e.flags / 4
                  && b[4..12] == BE(e.sessionId, 8) && b[12..16] == BE(e.blockId, 4) && b[16..18] == BE(|e.payload|, 2)
                  && match key
                     case None => b[3] % 4 == 0 && b[18..22] == TagBE(Crc(b[..18] + e.payload)) && b[22..] == e.payload
                     case Some(k) =>
                       && |b| >= 30 && b[3] % 4 == 3 && b[18..30] == nonce
                       && Ok(b[30..]) == a.seal(k, nonce, b[..18], e.payload))
  {
    hide BE, Crc, TagBE;
    var flags := if key == None then Cleared(e.flags) else Raised(e.flags);
    var r := Encoded(e, key, nonce, a);
    FlagsKept(e.flags);
    PrefixParts(e, flags);
    if r.Ok? {
      var p := Prefix(e, flags);
      assert r.value[..18] == p;
      SameFront(r.value, p);
    }
  }

  lemma FlagsKept(flags: byte)
    ensures Cleared(flags) % 4 == 0 && Cleared(flags) / 4 == flags / 4
    ensures Raised(flags) % 4 == 3 && Raised(flags) / 4 == flags / 4
  {
    var q, r := flags / 4, flags % 4;
    assert flags == 4 * q + r;
  }

  lemma PrefixParts(e: Envelope, flags: byte)
    ensures var p := Prefix(e, flags);
            && p[..3] == [0xAF, 0xFE, 2] && p[3] == flags
            && p[4..12] == BE(e.sessionId, 8) && p[12..16] == BE(e.blockId, 4) && p[16..18] == BE(|e.payload|, 2)
  {
    hide BE;
  }

  lemma SameFront(b: seq<byte>, p: seq<byte>)
    requires |b| >= 18 && |p| == 18 && b[..18] == p
    ensures b[..3] == p[..3] && b[3] == p[3] && b[4..12] == p[4..12] && b[12..16] == p[12..16]
    ensures b[16..18] == p[16..18]
  {
    assert b[3] == b[..18][3];
    assert b[..3] == b[..18][..3] && b[4..12] == b[..18][4..12];
    assert b[12..16] == b[..18][12..16] && b[16..18] == b[..18][16..18];
  }

  lemma BothFlags(flags: byte)
    ensures Authed(flags) && Encrypted(flags) <==> flags % 4 == 3
  {
    var q, r := flags / 4, flags % 4;
    if r == 3 {
      ThreeSetsBoth(q, flags);
    } else if r == 2 {
      assert flags == 2 * (2 * q + 1);
    } else if r == 1 {
      HalfOf(2 * q, flags);
    } else {
      assert flags == 2 * (2 * q);
    }
  }

  /** The authenticated prefix byte by byte. */
  lemma KnownPrefix(p: byte)
    ensures Prefix(Envelope(0x0102_0304_0506_0708, 0x0102_0304, 0, [p, 9]), 3)
         == [0xAF, 0xFE, 2, 3, 1, 2, 3, 4, 5, 6, 7, 8, 1, 2, 3, 4, 0, 2]
  {
    hide LE;
    KnownLE();
    ByteLE(2);
  }
}
