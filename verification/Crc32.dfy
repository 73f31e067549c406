/** CRC-32 as `crc32fast` computes it (section 3.2.9 of IEEE 802.3, reflected form):
    the per-frame trailer of the control plane and the tag of unkeyed envelopes. */
module Crc32 {
  import opened Bytes

  const POLY: bv32 := 0xEDB8_8320

  predicate Low(c: bv32) {
    c & 1 == 1
  }

  function Down(c: bv32): bv32 {
    c >> 1
  }

  function Xor32(c: bv32, d: bv32): bv32 {
    c ^ d
  }

  function WithPoly(c: bv32): bv32 {
    Xor32(c, POLY)
  }

  /** One bit of the shift register. */
  function Shift(c: bv32): bv32 {
    if Low(c) then WithPoly(Down(c)) else Down(c)
  }

  /** `Shift` loses nothing: the polynomial's top bit tells which branch was taken. */
  function Unshift(c: bv32): bv32 {
    if c & 0x8000_0000 != 0 then ((c ^ POLY) << 1) | 1 else c << 1
  }

  function Shifts(c: bv32, n: nat): bv32 {
    if n == 0 then c else Shift(Shifts(c, n - 1))
  }

  /** The register after one more byte. */
  function Step(c: bv32, b: byte): bv32 {
    Shifts(c ^ Widen(b), 8)
  }

  function Widen(b: byte): bv32 {
    (b as bv8) as bv32
  }

  function Register(c: bv32, data: seq<byte>): bv32 {
    if data == [] then c else Step(Register(c, data[..|data| - 1]), data[|data| - 1])
  }

  /** `crc32fast::hash`. */
  function Crc(data: seq<byte>): bv32 {
    Register(0xFFFF_FFFF, data) ^ 0xFFFF_FFFF
  }

  function Octet3(c: bv32): bv8 { (c >> 24) as bv8 }
  function Octet2(c: bv32): bv8 { ((c >> 16) & 0xFF) as bv8 }
  function Octet1(c: bv32): bv8 { ((c >> 8) & 0xFF) as bv8 }
  function Octet0(c: bv32): bv8 { (c & 0xFF) as bv8 }

  /** The big-endian bytes of a checksum. */
  function TagBE(c: bv32): (t: seq<byte>)
    ensures |t| == 4
  {
    [Octet3(c) as byte, Octet2(c) as byte, Octet1(c) as byte, Octet0(c) as byte]
  }

  /** `crc.to_le_bytes()`. */
  function TagLE(c: bv32): (t: seq<byte>)
    ensures |t| == 4
  {
    Reverse(TagBE(c))
  }

  // ---- Injectivity -----------------------------------------------------------------

  lemma ShiftInvertible(c: bv32)
    ensures Unshift(Shift(c)) == c
  {
  }

  lemma {:induction false} ShiftsInjective(c: bv32, d: bv32, n: nat)
    requires Shifts(c, n) == Shifts(d, n)
    ensures c == d
  {
    if n > 0 {
      ShiftInvertible(Shifts(c, n - 1));
      ShiftInvertible(Shifts(d, n - 1));
      ShiftsInjective(c, d, n - 1);
    }
  }

  lemma WidenInjective(b: byte, c: byte)
    requires Widen(b) == Widen(c)
    ensures b == c
  {
    BitsOfByte(b);
    BitsOfByte(c);
  }

  /** For a fixed byte the step is one-to-one in the register. */
  lemma StepInjectiveInState(c: bv32, d: bv32, b: byte)
    requires Step(c, b) == Step(d, b)
    ensures c == d
  {
    ShiftsInjective(c ^ Widen(b), d ^ Widen(b), 8);
    assert (c ^ Widen(b)) ^ Widen(b) == c;
  }

  /** For a fixed register the step is one-to-one in the byte. */
  lemma StepInjectiveInByte(c: bv32, b: byte, b': byte)
    requires Step(c, b) == Step(c, b')
    ensures b == b'
  {
    ShiftsInjective(c ^ Widen(b), c ^ Widen(b'), 8);
    WidenInjective(b, b');
  }

  lemma SameOctetsSameWord(c: bv32, d: bv32)
    requires Octet3(c) == Octet3(d) && Octet2(c) == Octet2(d)
    requires Octet1(c) == Octet1(d) && Octet0(c) == Octet0(d)
    ensures c == d
  {
  }

  lemma SameByteSameOctet(x: bv8, y: bv8)
    requires x as byte == y as byte
    ensures x == y
  {
    ByteOfBits(x);
    ByteOfBits(y);
  }

  lemma TagInjective(c: bv32, d: bv32)
    requires TagBE(c) == TagBE(d)
    ensures c == d
  {
    hide Octet3, Octet2, Octet1, Octet0;
    var t, u := TagBE(c), TagBE(d);
    assert t[0] == u[0] && t[1] == u[1] && t[2] == u[2] && t[3] == u[3];
    SameByteSameOctet(Octet3(c), Octet3(d));
    SameByteSameOctet(Octet2(c), Octet2(d));
    SameByteSameOctet(Octet1(c), Octet1(d));
    SameByteSameOctet(Octet0(c), Octet0(d));
    SameOctetsSameWord(c, d);
  }

  /** Changing one byte anywhere changes the register. */
  lemma {:induction false} OneByteChangesRegister(c: bv32, s: seq<byte>, i: nat, b: byte)
    requires i < |s| && b != s[i]
    ensures Register(c, s[i := b]) != Register(c, s)
  {
    var n := |s| - 1;
    var t := s[i := b];
    if i == n {
      assert t[..n] == s[..n];
      if Register(c, t) == Register(c, s) {
        StepInjectiveInByte(Register(c, s[..n]), t[n], s[n]);
      }
    } else {
      assert t[..n] == s[..n][i := b];
      OneByteChangesRegister(c, s[..n], i, b);
      if Register(c, t) == Register(c, s) {
        StepInjectiveInState(Register(c, t[..n]), Register(c, s[..n]), s[n]);
      }
    }
  }

  lemma OneByteChangesCrc(s: seq<byte>, i: nat, b: byte)
    requires i < |s| && b != s[i]
    ensures Crc(s[i := b]) != Crc(s)
  {
    OneByteChangesRegister(0xFFFF_FFFF, s, i, b);
    FinalXorInjective(Register(0xFFFF_FFFF, s[i := b]), Register(0xFFFF_FFFF, s));
  }

  lemma FinalXorInjective(c: bv32, d: bv32)
    ensures c ^ 0xFFFF_FFFF == d ^ 0xFFFF_FFFF ==> c == d
  {
  }

  // ---- Which checksum it is -----------------------------------------------------------------

  /** One bit of data: the polynomial enters exactly if the register's low bit differs
      from it. */
  function BitStep(c: bv32, bit: bool): bv32 {
    if Low(c) != bit then WithPoly(Down(c)) else Down(c)
  }

  /** The register after the low `n` bits of a byte, the lowest first. */
  function BitSteps(c: bv32, b: byte, n: nat): bv32 {
    if n == 0 then c else BitStep(BitSteps(c, b, n - 1), BitOf(b, n - 1))
  }

  function Wide(x: bv8): bv32 {
    x as bv32
  }

  function Mixed(c: bv32, x: bv8): bv32 {
    Xor32(c, Wide(x))
  }

  lemma LowOfXor(c: bv32, d: bv32)
    ensures Low(Xor32(c, d)) <==> Low(c) != Low(d)
  {
  }

  lemma DownOfXor(c: bv32, d: bv32)
    ensures Down(Xor32(c, d)) == Xor32(Down(c), Down(d))
  {
  }

  lemma XorGrouped(c: bv32, d: bv32, e: bv32)
    ensures Xor32(Xor32(c, d), e) == Xor32(c, Xor32(d, e))
  {
  }

  lemma XorSwapped(c: bv32, d: bv32)
    ensures Xor32(c, d) == Xor32(d, c)
  {
  }

  lemma XorTurned(c: bv32, d: bv32, e: bv32)
    ensures Xor32(Xor32(c, d), e) == Xor32(Xor32(c, e), d)
  {
    hide Xor32;
    XorGrouped(c, d, e);
    XorSwapped(d, e);
    XorGrouped(c, e, d);
  }

  lemma LowOfWide(x: bv8)
    ensures Low(Wide(x)) <==> LowBit(x)
  {
  }

  lemma DownOfWide(x: bv8)
    ensures Down(Wide(x)) == Wide(Half(x))
  {
  }

  lemma MixedParts(c: bv32, x: bv8)
    ensures Low(Mixed(c, x)) <==> Low(c) != LowBit(x)
    ensures Down(Mixed(c, x)) == Mixed(Down(c), Half(x))
    ensures WithPoly(Mixed(c, x)) == Mixed(WithPoly(c), x)
  {
    hide Low, Down, LowBit, Half, Wide, Xor32;
    LowOfXor(c, Wide(x));
    DownOfXor(c, Wide(x));
    XorTurned(c, Wide(x), POLY);
    LowOfWide(x);
    DownOfWide(x);
  }

  /** A bit shifted out of a register the byte was mixed into, or mixed in on its own. */
  lemma ShiftMixed(c: bv32, x: bv8)
    ensures Shift(Mixed(c, x)) == Mixed(BitStep(c, LowBit(x)), Half(x))
  {
    hide Mixed, Half, LowBit, Low, Down, WithPoly;
    MixedParts(c, x);
    MixedParts(Down(c), Half(x));
  }

  lemma {:induction false} ShiftsMixed(c: bv32, b: byte, n: nat)
    ensures Shifts(Mixed(c, b as bv8), n) == Mixed(BitSteps(c, b, n), Rest(b as bv8, n))
  {
    hide Shift, BitStep, BitOf, Mixed, Half, LowBit;
    if n > 0 {
      ShiftsMixed(c, b, n - 1);
      ShiftMixed(BitSteps(c, b, n - 1), Rest(b as bv8, n - 1));
      NextBit(b, n - 1);
    }
  }

  lemma MixedIn(c: bv32, b: byte)
    ensures c ^ Widen(b) == Mixed(c, b as bv8)
  {
  }

  /** A byte step is eight bit steps, the byte's low bit first: the reflected form. */
  lemma {:induction false} StepIsBits(c: bv32, b: byte)
    ensures Step(c, b) == BitSteps(c, b, 8)
  {
    hide Shifts, BitSteps, Mixed, Rest, Widen;
    MixedIn(c, b);
    ShiftsMixed(c, b, 8);
    NothingRests(b);
    MixedNothing(BitSteps(c, b, 8));
  }

  lemma {:induction false} NothingRests(b: byte)
    ensures Rest(b as bv8, 8) == 0
  {
    hide Rest;
    RestIs(b, 8);
    assert Pow2(8) == 256;
    NoBits(Rest(b as bv8, 8));
  }

  lemma MixedNothing(c: bv32)
    ensures Mixed(c, 0) == c
  {
  }

  // The register after each of the digits "123456789".

  lemma DigitOne()
    ensures Step(0xFFFF_FFFF, 0x31) == 0x7C23_1048
  {
  }

  lemma DigitTwo()
    ensures Step(0x7C23_1048, 0x32) == 0xB0AC_BB32
  {
  }

  lemma DigitThree()
    ensures Step(0xB0AC_BB32, 0x33) == 0x77B7_9C2D
  {
  }

  lemma DigitFour()
    ensures Step(0x77B7_9C2D, 0x34) == 0x641C_1F5C
  {
  }

  lemma DigitFive()
    ensures Step(0x641C_1F5C, 0x35) == 0x340A_C5E3
  {
  }

  lemma DigitSix()
    ensures Step(0x340A_C5E3, 0x36) == 0xF68D_2C9E
  {
  }

  lemma DigitSeven()
    ensures Step(0xF68D_2C9E, 0x37) == 0xAFFC_9660
  {
  }

  lemma DigitEight()
    ensures Step(0xAFFC_9660, 0x38) == 0x651F_2550
  {
  }

  lemma DigitNine()
    ensures Step(0x651F_2550, 0x39) == 0x340B_C6D9
  {
  }

  lemma ZeroStep()
    ensures Step(0xFFFF_FFFF, 0) == 0x2DFD_1072
  {
  }

  lemma OneStep()
    ensures Step(0xFFFF_FFFF, 1) == 0x5AFA_20E4
  {
  }

  const DIGITS: seq<byte> := [0x31, 0x32, 0x33, 0x34, 0x35, 0x36, 0x37, 0x38, 0x39]

  lemma {:induction false} RegisterUpTo(data: seq<byte>, n: nat)
    requires n < |data|
    ensures Register(0xFFFF_FFFF, data[..n + 1]) == Step(Register(0xFFFF_FFFF, data[..n]), data[n])
    ensures n == 0 ==> Register(0xFFFF_FFFF, data[..n]) == 0xFFFF_FFFF
  {
    assert data[..n + 1][..n] == data[..n];
  }

  lemma {:induction false} DigitsRegister()
    ensures Register(0xFFFF_FFFF, DIGITS) == 0x340B_C6D9
  {
    hide Register, Step;
    DigitOne();
    DigitTwo();
    DigitThree();
    DigitFour();
    DigitFive();
    DigitSix();
    DigitSeven();
    DigitEight();
    DigitNine();
    RegisterUpTo(DIGITS, 0);
    RegisterUpTo(DIGITS, 1);
    RegisterUpTo(DIGITS, 2);
    RegisterUpTo(DIGITS, 3);
    RegisterUpTo(DIGITS, 4);
    RegisterUpTo(DIGITS, 5);
    RegisterUpTo(DIGITS, 6);
    RegisterUpTo(DIGITS, 7);
    RegisterUpTo(DIGITS, 8);
    assert DIGITS[..9] == DIGITS;
  }

  /** The checksums of a zero byte, of a one, and the check value of the algorithm, that
      of the digits "123456789". */
  lemma {:induction false} KnownAnswers()
    ensures Crc([0]) == 0xD202_EF8D
    ensures Crc([1]) == 0xA505_DF1B
    ensures Crc(DIGITS) == 0xCBF4_3926
  {
    hide Register, Step;
    ZeroStep();
    OneStep();
    DigitsRegister();
    RegisterUpTo([0], 0);
    RegisterUpTo([1], 0);
    var zero: seq<byte>, one: seq<byte> := [0], [1];
    assert zero[..1] == zero && one[..1] == one;
  }

  /** Envelopes carry the checksum highest byte first, frames lowest byte first. */
  lemma KnownTags()
    ensures TagBE(0x0102_0304) == [1, 2, 3, 4] && TagLE(0x0102_0304) == [4, 3, 2, 1]
  {
    assert Octet3(0x0102_0304) as int == 1 && Octet2(0x0102_0304) as int == 2;
    assert Octet1(0x0102_0304) as int == 3 && Octet0(0x0102_0304) as int == 4;
  }
}
