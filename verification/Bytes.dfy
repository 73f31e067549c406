/** Bytes, machine integers and the fixed-width encodings every wire format of the
    repository is built from (`to_le_bytes`, `from_le_bytes`, `to_be_bytes`). */
module Bytes {

  type byte = x: int | 0 <= x < 0x100
  type u16 = x: int | 0 <= x < 0x1_0000
  type u32 = x: int | 0 <= x < 0x1_0000_0000
  type u64 = x: int | 0 <= x < 0x1_0000_0000_0000_0000

  const U16_MAX := 0xFFFF
  const U32_LIMIT := 0x1_0000_0000
  const U64_LIMIT := 0x1_0000_0000_0000_0000

  datatype Option<+T> = None | Some(value: T)

  datatype Result<+T, +E> = Ok(value: T) | Err(error: E) {
    predicate IsFailure() {
      Err?
    }
    function PropagateFailure<U>(): Result<U, E>
      requires Err?
    {
      Err(error)
    }
    function Extract(): T
      requires Ok?
    {
      value
    }
  }

  function Min(a: int, b: int): (m: int)
    ensures m <= a && m <= b && (m == a || m == b)
  {
    if a <= b then a else b
  }

  /** Rust's `div_ceil`. */
  function DivCeil(a: nat, b: nat): nat
    requires b > 0
  {
    (a + b - 1) / b
  }

  lemma DivCeilBounds(a: nat, b: nat)
    requires b > 0
    ensures var c := DivCeil(a, b);
            a <= c * b && (c > 0 ==> (c - 1) * b < a) && (a == 0 ==> c == 0)
  {
    var c := DivCeil(a, b);
    assert c * b <= a + b - 1 < c * b + b;
  }

  lemma MulMonotone(a: nat, b: nat, c: nat, d: nat)
    requires a <= b && c <= d
    ensures a * c <= b * d
  {
  }

  function Pow256(n: nat): (p: nat)
    ensures p > 0
  {
    if n == 0 then 1 else 256 * Pow256(n - 1)
  }

  /** The low `n` bytes of `v`, least significant first. */
  function LE(v: nat, n: nat): (s: seq<byte>)
    ensures |s| == n
  {
    if n == 0 then [] else [v % 256] + LE(v / 256, n - 1)
  }

  function FromLE(s: seq<byte>): (v: nat)
    ensures v < Pow256(|s|)
  {
    if s == [] then 0 else s[0] + 256 * FromLE(s[1..])
  }

  lemma {:induction false} FromLEofLE(v: nat, n: nat)
    requires v < Pow256(n)
    ensures FromLE(LE(v, n)) == v
  {
    if n > 0 {
      FromLEofLE(v / 256, n - 1);
      assert LE(v, n)[1..] == LE(v / 256, n - 1);
    }
  }

  lemma {:induction false} LEofFromLE(s: seq<byte>)
    ensures LE(FromLE(s), |s|) == s
  {
    if s != [] {
      LEofFromLE(s[1..]);
      assert FromLE(s) % 256 == s[0] && FromLE(s) / 256 == FromLE(s[1..]);
      assert s == [s[0]] + s[1..];
    }
  }

  lemma {:induction false} LEInjective(v: nat, w: nat, n: nat)
    requires v < Pow256(n) && w < Pow256(n)
    requires LE(v, n) == LE(w, n)
    ensures v == w
  {
    FromLEofLE(v, n);
    FromLEofLE(w, n);
  }

  /** The widths the formats use. */
  lemma Pow256Values()
    ensures Pow256(1) == 0x100
    ensures Pow256(2) == 0x1_0000
    ensures Pow256(4) == U32_LIMIT
    ensures Pow256(8) == U64_LIMIT
  {
    assert Pow256(3) == 0x100_0000;
    assert Pow256(5) == 256 * Pow256(4);
    assert Pow256(6) == 256 * Pow256(5);
    assert Pow256(7) == 256 * Pow256(6);
  }

  lemma DivProduct(v: nat, q: nat)
    requires q > 0
    ensures v / 256 / q == v / (256 * q)
  {
    var x, h := v / 256, v / 256 / q;
    var hq := h * q;
    assert hq <= x < hq + q;
    assert 256 * hq <= v < 256 * hq + 256 * q;
    assert h * (256 * q) == 256 * hq;
    QuotientIs(v, 256 * q, h);
  }

  /** Byte `i` of an encoding is the `i`-th from the low end of the number. */
  lemma {:induction false} LEAt(v: nat, n: nat, i: nat)
    requires i < n
    ensures LE(v, n)[i] == v / Pow256(i) % 256
  {
    if i == 0 {
      assert v / 1 == v;
    } else {
      LEAt(v / 256, n - 1, i - 1);
      DivProduct(v, Pow256(i - 1));
    }
  }

  /** A number whose bytes in hexadecimal count up from the high end, low byte first. */
  lemma KnownLE()
    ensures LE(0x0102_0304_0506_0708, 8) == [8, 7, 6, 5, 4, 3, 2, 1]
    ensures LE(0x0102_0304, 4) == [4, 3, 2, 1]
    ensures LE(0x0102, 2) == [2, 1]
  {
    KnownLow();
    assert LE(0x0102_0304_0506_0708, 8) == [8, 7, 6, 5] + LE(0x0102_0304, 4);
  }

  lemma KnownLow()
    ensures LE(0x0102_0304, 4) == [4, 3, 2, 1]
    ensures LE(0x0102, 2) == [2, 1]
  {
  }

  lemma {:induction false} ByteLE(b: byte)
    ensures LE(b, 2) == [b, 0] && LE(b, 4) == [b, 0, 0, 0] && LE(b, 8) == [b, 0, 0, 0, 0, 0, 0, 0]
  {
    assert forall n :: 0 < n ==> LE(b, n) == [b] + LE(0, n - 1);
    ZeroLE();
  }

  lemma ZeroLE()
    ensures LE(0, 1) == [0] && LE(0, 3) == [0, 0, 0] && LE(0, 7) == [0, 0, 0, 0, 0, 0, 0]
  {
  }

  function Reverse(s: seq<byte>): (r: seq<byte>)
    ensures |r| == |s|
    ensures forall i :: 0 <= i < |s| ==> r[i] == s[|s| - 1 - i]
  {
    seq(|s|, i requires 0 <= i < |s| => s[|s| - 1 - i])
  }

  /** The low `n` bytes of `v`, most significant first. */
  function BE(v: nat, n: nat): (s: seq<byte>)
    ensures |s| == n
  {
    Reverse(LE(v, n))
  }

  function FromBE(s: seq<byte>): (v: nat)
    ensures v < Pow256(|s|)
  {
    FromLE(Reverse(s))
  }

  lemma {:induction false} FromBEofBE(v: nat, n: nat)
    requires v < Pow256(n)
    ensures FromBE(BE(v, n)) == v
  {
    assert Reverse(Reverse(LE(v, n))) == LE(v, n);
    FromLEofLE(v, n);
  }

  lemma BEofFromBE(s: seq<byte>)
    ensures BE(FromBE(s), |s|) == s
  {
    LEofFromLE(Reverse(s));
    assert Reverse(Reverse(s)) == s;
  }

  // ---- Bytes as bits

  lemma ByteOfBits(x: bv8)
    ensures (x as byte) as bv8 == x
  {
  }

  lemma NextBits(x: bv8)
    requires x < 255
    ensures (x + 1) as int == x as int + 1
  {
  }

  /** The bits that stand for `b`, counted up to. */
  ghost function Bits(b: byte): (x: bv8)
    ensures x as int == b
  {
    if b == 0 then 0
    else
      NextBits(Bits(b - 1));
      Bits(b - 1) + 1
  }

  lemma BitsOfByte(b: byte)
    ensures (b as bv8) as int == b
  {
    ByteOfBits(Bits(b));
  }

  // ---- Single bits of a byte

  function Pow2(n: nat): (p: nat)
    ensures p > 0
  {
    if n == 0 then 1 else 2 * Pow2(n - 1)
  }

  /** Bit `i` of a byte, counted from the low end. */
  predicate BitOf(b: byte, i: nat) {
    b / Pow2(i) % 2 == 1
  }

  function Half(x: bv8): bv8 {
    x >> 1
  }

  predicate LowBit(x: bv8) {
    x & 1 == 1
  }

  /** The bits of a byte still to come. */
  function Rest(x: bv8, n: nat): bv8 {
    if n == 0 then x else Half(Rest(x, n - 1))
  }

  lemma HalfOfBits(x: bv8)
    ensures Half(x) as int == x as int / 2
  {
  }

  lemma LowOfBits(x: bv8)
    ensures LowBit(x) <==> x as int % 2 == 1
  {
  }

  lemma {:induction false} RestIs(b: byte, n: nat)
    ensures Rest(b as bv8, n) as int == b / Pow2(n)
  {
    hide Half, Pow2;
    if n == 0 {
      BitsOfByte(b);
      UpFrom(b);
    } else {
      RestIs(b, n - 1);
      HalfOfBits(Rest(b as bv8, n - 1));
      NextQuotient(b, n);
    }
  }

  lemma UpFrom(b: byte)
    ensures b / Pow2(0) == b
  {
  }

  lemma {:induction false} NextQuotient(b: byte, n: nat)
    requires n > 0
    ensures b / Pow2(n) == b / Pow2(n - 1) / 2
  {
    DivDiv(b, Pow2(n - 1));
  }

  lemma DivDiv(x: nat, p: nat)
    requires p > 0
    ensures x / p / 2 == x / (2 * p)
  {
    var q := x / p;
    assert q * p <= x < q * p + p;
    var h := q / 2;
    assert q == 2 * h || q == 2 * h + 1;
    assert h * (2 * p) == 2 * h * p;
    assert h * (2 * p) <= x < h * (2 * p) + 2 * p;
    QuotientIs(x, 2 * p, h);
  }

  lemma QuotientIs(x: nat, p: nat, h: nat)
    requires p > 0 && h * p <= x < h * p + p
    ensures x / p == h
  {
    var q := x / p;
    assert q * p <= x < q * p + p;
    if q < h {
      MulMonotone(q + 1, h, p, p);
    } else if h < q {
      MulMonotone(h + 1, q, p, p);
    }
  }

  lemma {:induction false} NextBit(b: byte, i: nat)
    ensures LowBit(Rest(b as bv8, i)) <==> BitOf(b, i)
  {
    hide LowBit, Half;
    RestIs(b, i);
    LowOfBits(Rest(b as bv8, i));
  }

  lemma NoBits(x: bv8)
    requires x as int == 0
    ensures x == 0
  {
  }
}
