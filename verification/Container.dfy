/** The encrypted file format: a 20-byte header, the key-encapsulation ciphertext and the
    encrypted data, under one of three methods. */
module Container {
  import opened Bytes
  import opened Masking
  import opened Ofb

  datatype EncryptionMethod = Pqc | Neural | Hybrid

  const MAGIC: seq<byte> := [0x41, 0x46, 0x54, 0x45]
  const VERSION: byte := 1
  const HEADER_SIZE := 20
  const MAX_ORIGINAL_SIZE: nat := 0x100_0000_0000

  datatype CryptoError = TooShort | NotEncrypted | BadVersion | BadMethod | TooBig | KemTruncated | Refused | Panicked

  /** What the file's keys and the libraries provide. `seal` is the whole of the
      post-quantum method; `encapsulate` and `decapsulate` share a secret; a model file or
      a secret determines a block function. */
  datatype Keys = Keys(
    seal: seq<byte> -> (seq<byte>, seq<byte>),
    unseal: (seq<byte>, seq<byte>) -> Option<seq<byte>>,
    encapsulated: (seq<byte>, seq<byte>),
    decapsulate: seq<byte> -> Option<seq<byte>>,
    model: Block -> Block,
    cipherOf: seq<byte> -> (Block -> Block))

  /** The laws of the libraries: unsealing inverts sealing, decapsulation finds the
      encapsulated 32-byte secret, and ciphertexts fit their length field. */
  ghost predicate Lawful(k: Keys) {
    && (forall x :: |k.seal(x).0| < U32_LIMIT && k.unseal(k.seal(x).0, k.seal(x).1) == Some(x))
    && |k.encapsulated.0| < U32_LIMIT && |k.encapsulated.1| == 32
    && k.decapsulate(k.encapsulated.0) == Some(k.encapsulated.1)
  }

  function MethodByte(m: EncryptionMethod): byte {
    match m case Pqc => 0 case Neural => 1 case Hybrid => 2
  }

  function MethodOf(b: byte): Option<EncryptionMethod> {
    if b == 0 then Some(Pqc) else if b == 1 then Some(Neural) else if b == 2 then Some(Hybrid) else None
  }

  function FileBytes(m: EncryptionMethod, originalLen: u64, kem: seq<byte>, ct: seq<byte>): seq<byte> {
    MAGIC + [VERSION, MethodByte(m), 0, 0] + LE(originalLen, 8) + LE(|kem| % U32_LIMIT, 4) + kem + ct
  }

  /** `encrypt_file`. */
  method EncryptFile(m: EncryptionMethod, plaintext: seq<byte>, k: Keys, iv: Block)
    returns (r: Result<seq<byte>, CryptoError>)
    requires |plaintext| < U64_LIMIT
    ensures r == match m
                 case Pqc => Ok(FileBytes(m, |plaintext|, k.seal(plaintext).0, k.seal(plaintext).1))
                 case Neural => Ok(FileBytes(m, |plaintext|, [], Encrypted(k.model, iv, plaintext)))
                 case Hybrid =>
                   var (kem, secret) := k.encapsulated;
                   if !Fits(|plaintext|, |secret|) then Err(Panicked)
                   else Ok(FileBytes(m, |plaintext|, kem,
                                     Encrypted(k.cipherOf(secret), iv, RepeatXor(plaintext, secret))))
  {
    var kem, ct: seq<byte> := [], [];
    match m {
      case Pqc =>
        kem, ct := k.seal(plaintext).0, k.seal(plaintext).1;
      case Neural =>
        ct := Encrypt(k.model, iv, plaintext);
      case Hybrid =>
        var (kemCt, secret) := k.encapsulated;
        var masked := XorWithKey(plaintext, secret);
        if masked.None? {
          return Err(Panicked);
        }
        kem := kemCt;
        ct := Encrypt(k.cipherOf(secret), iv, masked.value);
    }
    var out := MAGIC;
    out := out + [VERSION];
    out := out + [MethodByte(m)];
    out := out + [0, 0];
    assert out == MAGIC + [VERSION, MethodByte(m), 0, 0];
    out := out + LE(|plaintext|, 8);
    out := out + LE(|kem| % U32_LIMIT, 4);
    out := out + kem;
    out := out + ct;
    r := Ok(out);
  }

  /** What a file decrypts to. */
  function Opened(file: seq<byte>, k: Keys): Result<seq<byte>, CryptoError> {
    if |file| < HEADER_SIZE then Err(TooShort)
    else if file[..4] != MAGIC then Err(NotEncrypted)
    else if file[4] != VERSION then Err(BadVersion)
    else if MethodOf(file[5]).None? then Err(BadMethod)
    else if FromLE(file[8..16]) > MAX_ORIGINAL_SIZE then Err(TooBig)
    else
      var end := HEADER_SIZE + FromLE(file[16..20]);
      if |file| < end then Err(KemTruncated)
      else
        var kem, ct := file[HEADER_SIZE..end], file[end..];
        match MethodOf(file[5]).value
        case Pqc => (match k.unseal(kem, ct) case Some(p) => Ok(p) case None => Err(Refused))
        case Neural => Ok(Decrypted(k.model, ct))
        case Hybrid =>
          match k.decapsulate(kem)
          case None => Err(Refused)
          case Some(secret) =>
            var masked := Decrypted(k.cipherOf(secret), ct);
            if Fits(|masked|, |secret|) then Ok(RepeatXor(masked, secret)) else Err(Panicked)
  }

  /** `decrypt_file`. */
  method DecryptFile(file: seq<byte>, k: Keys) returns (r: Result<seq<byte>, CryptoError>)
    ensures r == Opened(file, k)
  {
    hide FromLE, Decrypted, RepeatXor, Fits;
    if |file| < HEADER_SIZE {
      return Err(TooShort);
    }
    if file[..4] != MAGIC {
      return Err(NotEncrypted);
    }
    if file[4] != VERSION {
      return Err(BadVersion);
    }
    var m := MethodOf(file[5]);
    if m.None? {
      return Err(BadMethod);
    }
    if FromLE(file[8..16]) > MAX_ORIGINAL_SIZE {
      return Err(TooBig);
    }
    var kemEnd := HEADER_SIZE + FromLE(file[16..20]);
    if |file| < kemEnd {
      return Err(KemTruncated);
    }
    var kem, ct := file[HEADER_SIZE..kemEnd], file[kemEnd..];
    match m.value {
      case Pqc =>
        var p := k.unseal(kem, ct);
        r := if p.Some? then Ok(p.value) else Err(Refused);
      case Neural =>
        var p := Decrypt(k.model, ct);
        r := Ok(p);
      case Hybrid =>
        var secret := k.decapsulate(kem);
        if secret.None? {
          return Err(Refused);
        }
        var masked := Decrypt(k.cipherOf(secret.value), ct);
        var p := XorWithKey(masked, secret.value);
        r := if p.Some? then Ok(p.value) else Err(Panicked);
    }
  }

  lemma HeaderReadsBack(m: EncryptionMethod, originalLen: u64, kem: seq<byte>, ct: seq<byte>)
    requires |kem| < U32_LIMIT
    ensures var file := FileBytes(m, originalLen, kem, ct);
            && |file| == HEADER_SIZE + |kem| + |ct| && file[..4] == MAGIC && file[4] == VERSION
            && MethodOf(file[5]) == Some(m)
            && FromLE(file[8..16]) == originalLen && FromLE(file[16..20]) == |kem|
            && file[HEADER_SIZE..HEADER_SIZE + |kem|] == kem && file[HEADER_SIZE + |kem|..] == ct
  {
    hide LE, FromLE;
    Pow256Values();
    var file := FileBytes(m, originalLen, kem, ct);
    assert file[8..16] == LE(originalLen, 8) && file[16..20] == LE(|kem|, 4);
    FromLEofLE(originalLen, 8);
    FromLEofLE(|kem|, 4);
  }

  /** The header byte by byte: magic, version, method, two zeros, the plaintext's length and
      that of the key-encapsulation ciphertext low byte first. */
  lemma KnownHeader(m: EncryptionMethod, kem: seq<byte>, ct: seq<byte>)
    requires |kem| == 5
    ensures FileBytes(m, 0x0102_0304_0506_0708, kem, ct)
         == [0x41, 0x46, 0x54, 0x45, 1, (match m case Pqc => 0 case Neural => 1 case Hybrid => 2), 0, 0]
            + [8, 7, 6, 5, 4, 3, 2, 1] + [5, 0, 0, 0] + kem + ct
  {
    hide LE;
    KnownLE();
    ByteLE(5);
  }

  /** A file is opened by its method exactly when it is long enough for a header, with the
      magic and the version, one of the three methods, a stated length of at most one
      tebibyte and room for the key-encapsulation ciphertext; otherwise it is refused, with
      the first of these that fails. */
  lemma OpenedExactly(file: seq<byte>, k: Keys)
    ensures var r := Opened(file, k);
            if |file| < 20 then r == Err(TooShort)
            else if file[..4] != [0x41, 0x46, 0x54, 0x45] then r == Err(NotEncrypted)
            else if file[4] != 1 then r == Err(BadVersion)
            else if file[5] > 2 then r == Err(BadMethod)
            else if FromLE(file[8..16]) > 0x100_0000_0000 then r == Err(TooBig)
            else if |file| < 20 + FromLE(file[16..20]) then r == Err(KemTruncated)
            else
              var end := 20 + FromLE(file[16..20]);
              var kem, ct := file[20..end], file[end..];
              && (file[5] == 0 ==> r == match k.unseal(kem, ct) case Some(p) => Ok(p) case None => Err(Refused))
              && (file[5] == 1 ==> r == Ok(Decrypted(k.model, ct)))
              && (file[5] == 2 && k.decapsulate(kem) == None ==> r == Err(Refused))
              && (file[5] == 2 && k.decapsulate(kem).Some? ==>
                    var secret := k.decapsulate(kem).value;
                    Masked(r, Decrypted(k.cipherOf(secret), ct), secret))
  {
    hide FromLE, Decrypted, Fits, RepeatXor;
    if Opened(file, k).Ok? && file[5] == 2 {
      var end := 20 + FromLE(file[16..20]);
      var secret := k.decapsulate(file[20..end]).value;
      MaskedBytes(Decrypted(k.cipherOf(secret), file[end..]), secret);
    }
  }

  /** The data with the key repeated along it, or the panic of a key that does not fit. */
  predicate Masked(r: Result<seq<byte>, CryptoError>, data: seq<byte>, key: seq<byte>) {
    match r
    case Err(e) => e == Panicked && !Fits(|data|, |key|)
    case Ok(out) =>
      && Fits(|data|, |key|) && |out| == |data|
      && forall i :: 0 <= i < |data| ==> out[i] == if key == [] then data[i] else XorByte(data[i], key[i % |key|])
  }

  lemma MaskedBytes(data: seq<byte>, key: seq<byte>)
    ensures var out := RepeatXor(data, key);
            |out| == |data| && forall i :: 0 <= i < |data| ==>
              out[i] == if key == [] then data[i] else XorByte(data[i], key[i % |key|])
  {
  }

  /** Every method, IV and key: decrypting the encrypted file gives the plaintext back,
      exactly when it is no longer than the one tebibyte the decrypter accepts. */
  method RoundTrip(m: EncryptionMethod, plaintext: seq<byte>, k: Keys, iv: Block)
    returns (r: Result<seq<byte>, CryptoError>)
    requires Lawful(k) && |plaintext| < U64_LIMIT
    ensures r == Ok(plaintext) <==> |plaintext| <= MAX_ORIGINAL_SIZE
  {
    hide FromLE, FileBytes, Encrypted, Decrypted, RepeatXor, Fits;
    WholeWordKeysFit(|plaintext|, 32);
    var file := EncryptFile(m, plaintext, k, iv);
    r := DecryptFile(file.value, k);
    match m {
      case Pqc =>
        HeaderReadsBack(m, |plaintext|, k.seal(plaintext).0, k.seal(plaintext).1);
      case Neural =>
        HeaderReadsBack(m, |plaintext|, [], Encrypted(k.model, iv, plaintext));
        DecryptInverts(k.model, iv, plaintext);
      case Hybrid =>
        var (kem, secret) := k.encapsulated;
        var masked := RepeatXor(plaintext, secret);
        HeaderReadsBack(m, |plaintext|, kem, Encrypted(k.cipherOf(secret), iv, masked));
        DecryptInverts(k.cipherOf(secret), iv, masked);
        MaskTwice(plaintext, secret);
    }
  }
}
