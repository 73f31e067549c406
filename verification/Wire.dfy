/** The binary encoding helpers of the control plane: `put_*` append to a growing
    buffer, `get_*` advance an offset through a received one, with bounds checks. */
module Wire {
  import opened Bytes

  datatype WireError = Truncated

  /** A value and the offset just past it. */
  datatype At<+T> = At(value: T, off: nat)

  // ---- What the readers mean -------------------------------------------------

  /** Reads an `n`-byte little-endian integer at `off`. */
  function GetLE(buf: seq<byte>, off: nat, n: nat): Result<At<nat>, WireError> {
    if off + n > |buf| then Err(Truncated) else Ok(At(FromLE(buf[off..off + n]), off + n))
  }

  /** Reads a byte string with a two-byte length in front. */
  function GetBytes(buf: seq<byte>, off: nat): Result<At<seq<byte>>, WireError> {
    var len :- GetLE(buf, off, 2);
    if len.off + len.value > |buf| then Err(Truncated)
    else Ok(At(buf[len.off..len.off + len.value], len.off + len.value))
  }

  /** A length-prefixed byte string, as `put_bytes` and `put_str` write it. */
  function Prefixed(data: seq<byte>): seq<byte> {
    LE(|data|, 2) + data
  }

  // ---- Printing then parsing, and parsing then printing ------------------------

  lemma {:induction false} GetLEofLE(buf: seq<byte>, off: nat, v: nat, n: nat)
    requires off + n <= |buf| && buf[off..off + n] == LE(v, n) && v < Pow256(n)
    ensures GetLE(buf, off, n) == Ok(At(v, off + n))
  {
    FromLEofLE(v, n);
  }

  lemma GetBytesOfPrefixed(buf: seq<byte>, off: nat, data: seq<byte>)
    requires |data| <= U16_MAX
    requires off + 2 + |data| <= |buf| && buf[off..off + 2 + |data|] == Prefixed(data)
    ensures GetBytes(buf, off) == Ok(At(data, off + 2 + |data|))
  {
    Pow256Values();
    var p := buf[off..off + 2 + |data|];
    assert p[..2] == LE(|data|, 2) && p[2..] == data;
    assert buf[off..off + 2] == p[..2] && buf[off + 2..off + 2 + |data|] == p[2..];
    GetLEofLE(buf, off, |data|, 2);
  }

  lemma {:induction false} LEofGetLE(buf: seq<byte>, off: nat, n: nat)
    requires GetLE(buf, off, n).Ok?
    ensures var a := GetLE(buf, off, n).value;
            a.off == off + n <= |buf| && a.value < Pow256(n) && buf[off..a.off] == LE(a.value, n)
  {
    LEofFromLE(buf[off..off + n]);
  }

  lemma PrefixedOfGetBytes(buf: seq<byte>, off: nat)
    requires GetBytes(buf, off).Ok?
    ensures var a := GetBytes(buf, off).value;
            && |a.value| <= U16_MAX && a.off == off + 2 + |a.value| <= |buf|
            && buf[off..a.off] == Prefixed(a.value)
  {
    Pow256Values();
    LEofGetLE(buf, off, 2);
    var a := GetBytes(buf, off).value;
    assert buf[off..a.off] == buf[off..off + 2] + buf[off + 2..a.off];
  }

  // ---- The code: an appended buffer and an advancing cursor --------------------

  class Buffer {
    var bytes: seq<byte>

    constructor ()
      ensures bytes == []
    {
      bytes := [];
    }

    method PutU8(v: byte)
      modifies this
      ensures bytes == old(bytes) + [v]
    {
      bytes := bytes + [v];
    }

    /** `put_u16`, `put_u32`, `put_u64` for `n` of 2, 4, 8. */
    method PutLE(v: nat, n: nat)
      modifies this
      ensures bytes == old(bytes) + LE(v, n)
    {
      bytes := bytes + LE(v, n);
    }

    /** `put_bytes` and `put_str`; the code panics on anything longer. */
    method PutBytes(data: seq<byte>)
      requires |data| <= U16_MAX
      modifies this
      ensures bytes == old(bytes) + Prefixed(data)
    {
      PutLE(|data|, 2);
      bytes := bytes + data;
    }
  }

  class Cursor {
    const buf: seq<byte>
    var off: nat

    constructor (buf: seq<byte>)
      ensures this.buf == buf && off == 0
    {
      this.buf := buf;
      off := 0;
    }

    method TakeLE(n: nat) returns (r: Result<nat, WireError>)
      modifies this
      ensures r.Ok? <==> GetLE(buf, old(off), n).Ok?
      ensures r.Ok? ==> GetLE(buf, old(off), n) == Ok(At(r.value, off))
    {
      if off + n > |buf| {
        return Err(Truncated);
      }
      r := Ok(FromLE(buf[off..off + n]));
      off := off + n;
    }

    method TakeBytes() returns (r: Result<seq<byte>, WireError>)
      modifies this
      ensures r.Ok? <==> GetBytes(buf, old(off)).Ok?
      ensures r.Ok? ==> GetBytes(buf, old(off)) == Ok(At(r.value, off))
    {
      var len :- TakeLE(2);
      if off + len > |buf| {
        return Err(Truncated);
      }
      r := Ok(buf[off..off + len]);
      off := off + len;
    }
  }
}
