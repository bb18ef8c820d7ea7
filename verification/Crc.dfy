/** The table-driven checksums are remainders of polynomial division. */
module Crc {
  import opened Basics
  import opened BitPos
  import opened PolynomialDivision

  /** The bits of a byte, the most significant one first. */
  function ByteBits(b: bv8): (p: Poly)
    ensures |p| == 8
  {
    [ByteBit(b, 0), ByteBit(b, 1), ByteBit(b, 2), ByteBit(b, 3),
     ByteBit(b, 4), ByteBit(b, 5), ByteBit(b, 6), ByteBit(b, 7)]
  }

  lemma RunByte(r: Poly, p: Poly, g: Poly)
    requires |r| + 1 == |g| && |r| > 0 && |p| == 8
    ensures Run(r, p, g)
            == Shift(Shift(Shift(Shift(Shift(Shift(Shift(Shift(r, p[0], g), p[1], g), p[2], g), p[3], g),
                                       p[4], g), p[5], g), p[6], g), p[7], g)
  {
    hide Shift, Run;
    RunNone(r, g);
    RunOne(r, p, 0, g);
    RunOne(r, p, 1, g);
    RunOne(r, p, 2, g);
    RunOne(r, p, 3, g);
    RunOne(r, p, 4, g);
    RunOne(r, p, 5, g);
    RunOne(r, p, 6, g);
    RunOne(r, p, 7, g);
    assert p[..8] == p && p[..0] == [];
  }

  lemma RunNone(r: Poly, g: Poly)
    requires |r| + 1 == |g| && |r| > 0
    ensures Run(r, [], g) == r
  {
  }

  lemma RunOne(r: Poly, p: Poly, k: nat, g: Poly)
    requires |r| + 1 == |g| && |r| > 0 && k < |p|
    ensures Run(r, p[..k + 1], g) == Shift(Run(r, p[..k], g), p[k], g)
  {
    assert p[..k + 1][..k] == p[..k];
  }

  // ---------------------------------------------------------------- crc16

  /** x^16 + x^12 + x^5 + 1 */
  const G16: Poly := [true, false, false, false, true, false, false, false, false, false, false, true,
                      false, false, false, false, true]

  predicate Top16(r: bv16) {
    r & 0x8000 != 0
  }

  function Left16(r: bv16): bv16 {
    r << 1
  }

  function Xor16(a: bv16, b: bv16): bv16 {
    a ^ b
  }

  /** Times x, modulo G16. */
  function Next16(r: bv16): bv16 {
    if r & 0x8000 != 0 then (r << 1) ^ 0x1021 else r << 1
  }

  lemma NextParts16(r: bv16)
    ensures Next16(r) == if Top16(r) then Xor16(Left16(r), 0x1021) else Left16(r)
  {
  }

  function Step16(r: bv16, b: bool): bv16 {
    Next16(if b then Xor16(r, 0x8000) else r)
  }

  function EightTimes16(r: bv16): bv16 {
    Next16(Next16(Next16(Next16(Next16(Next16(Next16(Next16(r))))))))
  }

  /** Bit `k` of a register, counted from the top. */
  predicate High(r: bv16, k: nat)
    decreases k
  {
    if k == 0 then Top16(r) else High(Left16(r), k - 1)
  }

  function Bits16(r: bv16): (p: Poly)
    ensures |p| == 16 && forall k :: 0 <= k < 16 ==> p[k] == High(r, k)
  {
    seq(16, k requires k >= 0 => High(r, k))
  }

  lemma XorTop16(a: bv16, b: bv16)
    ensures Top16(Xor16(a, b)) == (Top16(a) != Top16(b))
  {
  }

  lemma XorLeft16(a: bv16, b: bv16)
    ensures Left16(Xor16(a, b)) == Xor16(Left16(a), Left16(b))
  {
  }

  lemma XorParts16(a: bv16, b: bv16)
    ensures Top16(Xor16(a, b)) == (Top16(a) != Top16(b)) && Left16(Xor16(a, b)) == Xor16(Left16(a), Left16(b))
  {
    hide Top16, Left16, Xor16;
    XorTop16(a, b);
    XorLeft16(a, b);
  }

  lemma {:induction false} HighXor(a: bv16, b: bv16, k: nat)
    ensures High(Xor16(a, b), k) == (High(a, k) != High(b, k))
    decreases k
  {
    hide Top16, Left16, Xor16;
    XorParts16(a, b);
    if k > 0 {
      HighXor(Left16(a), Left16(b), k - 1);
    }
  }

  lemma HighEnds(r: bv16)
    ensures !High(r, 16)
  {
    assert High(r, 16) == High(r << 1, 15) == High(r << 2, 14) == High(r << 3, 13) == High(r << 4, 12);
    assert High(r << 4, 12) == High(r << 5, 11) == High(r << 6, 10) == High(r << 7, 9) == High(r << 8, 8);
    assert High(r << 8, 8) == High(r << 9, 7) == High(r << 10, 6) == High(r << 11, 5) == High(r << 12, 4);
    assert High(r << 12, 4) == High(r << 13, 3) == High(r << 14, 2) == High(r << 15, 1) == High(0, 0);
  }

  lemma HighEight(r: bv16, k: nat)
    ensures High(r, k + 8) == High(r << 8, k)
  {
    assert High(r, k + 8) == High(r << 1, k + 7) == High(r << 2, k + 6) == High(r << 3, k + 5) == High(r << 4, k + 4);
    assert High(r << 4, k + 4) == High(r << 5, k + 3) == High(r << 6, k + 2) == High(r << 7, k + 1) == High(r << 8, k);
  }

  /** The constant of the code is the divisor without its leading coefficient. */
  lemma Divisor16(k: nat)
    requires k < 16
    ensures High(0x1021, k) == G16[k + 1]
  {
    if k < 8 {
      assert High(0x1021, 3) && !High(0x1021, 0) && !High(0x1021, 1) && !High(0x1021, 2);
      assert !High(0x1021, 4) && !High(0x1021, 5) && !High(0x1021, 6) && !High(0x1021, 7);
    } else {
      HighEight(0x1021, k - 8);
      assert High(0x2100, 2) && High(0x2100, 7) && !High(0x2100, 0) && !High(0x2100, 1);
      assert !High(0x2100, 3) && !High(0x2100, 4) && !High(0x2100, 5) && !High(0x2100, 6);
    }
  }

  lemma FlipTop16(r: bv16)
    ensures Top16(Xor16(r, 0x8000)) == !Top16(r) && Left16(Xor16(r, 0x8000)) == Left16(r)
  {
  }

  lemma StepParts16(r: bv16, b: bool)
    ensures Step16(r, b) == if Top16(r) != b then Xor16(Left16(r), 0x1021) else Left16(r)
  {
    hide Top16, Left16, Xor16, Next16;
    FlipTop16(r);
    NextParts16(r);
    NextParts16(Xor16(r, 0x8000));
  }

  /** One bit step of the checksum is one step of the shift register. */
  lemma Step16Shifts(r: bv16, b: bool)
    ensures Bits16(Step16(r, b)) == Shift(Bits16(r), b, G16)
  {
    var s := Shift(Bits16(r), b, G16);
    hide Step16, Top16, Left16, Xor16, Shift;
    forall k | 0 <= k < 16 ensures High(Step16(r, b), k) == s[k] {
      Step16Bit(r, b, k);
    }
    assert Bits16(Step16(r, b)) == s;
  }

  lemma Step16Bit(r: bv16, b: bool, k: nat)
    requires k < 16
    ensures High(Step16(r, b), k) == Shift(Bits16(r), b, G16)[k]
  {
    hide Step16, Top16, Left16, Xor16;
    StepParts16(r, b);
    HighXor(Left16(r), 0x1021, k);
    Divisor16(k);
    HighEnds(r);
  }

  /** crc16tab, in rows of sixteen. */
  const CRC16_TABLE: seq<seq<bv16>> := [
    [0x0000, 0x1021, 0x2042, 0x3063, 0x4084, 0x50a5, 0x60c6, 0x70e7,
     0x8108, 0x9129, 0xa14a, 0xb16b, 0xc18c, 0xd1ad, 0xe1ce, 0xf1ef],
    [0x1231, 0x0210, 0x3273, 0x2252, 0x52b5, 0x4294, 0x72f7, 0x62d6,
     0x9339, 0x8318, 0xb37b, 0xa35a, 0xd3bd, 0xc39c, 0xf3ff, 0xe3de],
    [0x2462, 0x3443, 0x0420, 0x1401, 0x64e6, 0x74c7, 0x44a4, 0x5485,
     0xa56a, 0xb54b, 0x8528, 0x9509, 0xe5ee, 0xf5cf, 0xc5ac, 0xd58d],
    [0x3653, 0x2672, 0x1611, 0x0630, 0x76d7, 0x66f6, 0x5695, 0x46b4,
     0xb75b, 0xa77a, 0x9719, 0x8738, 0xf7df, 0xe7fe, 0xd79d, 0xc7bc],
    [0x48c4, 0x58e5, 0x6886, 0x78a7, 0x0840, 0x1861, 0x2802, 0x3823,
     0xc9cc, 0xd9ed, 0xe98e, 0xf9af, 0x8948, 0x9969, 0xa90a, 0xb92b],
    [0x5af5, 0x4ad4, 0x7ab7, 0x6a96, 0x1a71, 0x0a50, 0x3a33, 0x2a12,
     0xdbfd, 0xcbdc, 0xfbbf, 0xeb9e, 0x9b79, 0x8b58, 0xbb3b, 0xab1a],
    [0x6ca6, 0x7c87, 0x4ce4, 0x5cc5, 0x2c22, 0x3c03, 0x0c60, 0x1c41,
     0xedae, 0xfd8f, 0xcdec, 0xddcd, 0xad2a, 0xbd0b, 0x8d68, 0x9d49],
    [0x7e97, 0x6eb6, 0x5ed5, 0x4ef4, 0x3e13, 0x2e32, 0x1e51, 0x0e70,
     0xff9f, 0xefbe, 0xdfdd, 0xcffc, 0xbf1b, 0xaf3a, 0x9f59, 0x8f78],
    [0x9188, 0x81a9, 0xb1ca, 0xa1eb, 0xd10c, 0xc12d, 0xf14e, 0xe16f,
     0x1080, 0x00a1, 0x30c2, 0x20e3, 0x5004, 0x4025, 0x7046, 0x6067],
    [0x83b9, 0x9398, 0xa3fb, 0xb3da, 0xc33d, 0xd31c, 0xe37f, 0xf35e,
     0x02b1, 0x1290, 0x22f3, 0x32d2, 0x4235, 0x5214, 0x6277, 0x7256],
    [0xb5ea, 0xa5cb, 0x95a8, 0x8589, 0xf56e, 0xe54f, 0xd52c, 0xc50d,
     0x34e2, 0x24c3, 0x14a0, 0x0481, 0x7466, 0x6447, 0x5424, 0x4405],
    [0xa7db, 0xb7fa, 0x8799, 0x97b8, 0xe75f, 0xf77e, 0xc71d, 0xd73c,
     0x26d3, 0x36f2, 0x0691, 0x16b0, 0x6657, 0x7676, 0x4615, 0x5634],
    [0xd94c, 0xc96d, 0xf90e, 0xe92f, 0x99c8, 0x89e9, 0xb98a, 0xa9ab,
     0x5844, 0x4865, 0x7806, 0x6827, 0x18c0, 0x08e1, 0x3882, 0x28a3],
    [0xcb7d, 0xdb5c, 0xeb3f, 0xfb1e, 0x8bf9, 0x9bd8, 0xabbb, 0xbb9a,
     0x4a75, 0x5a54, 0x6a37, 0x7a16, 0x0af1, 0x1ad0, 0x2ab3, 0x3a92],
    [0xfd2e, 0xed0f, 0xdd6c, 0xcd4d, 0xbdaa, 0xad8b, 0x9de8, 0x8dc9,
     0x7c26, 0x6c07, 0x5c64, 0x4c45, 0x3ca2, 0x2c83, 0x1ce0, 0x0cc1],
    [0xef1f, 0xff3e, 0xcf5d, 0xdf7c, 0xaf9b, 0xbfba, 0x8fd9, 0x9ff8,
     0x6e17, 0x7e36, 0x4e55, 0x5e74, 0x2e93, 0x3eb2, 0x0ed1, 0x1ef0]]

  function Crc16Tab(i: bv8): (r: bv16)
    ensures r == EightTimes16((i as bv16) << 8)
  {
    CRC16_TABLE[(i >> 4) as nat][(i & 15) as nat]
  }

  // A byte that waits in the upper half of the register enters it bit by bit.

  function Feed16(r: bv16, byte: bv8): bv16 {
    r ^ ((byte as bv16) << 8)
  }

  lemma FeedParts16(r: bv16, byte: bv8)
    ensures Top16(Feed16(r, byte)) == (Top16(r) != ByteBit(byte, 0))
    ensures Left16(Feed16(r, byte)) == Feed16(Left16(r), byte << 1)
  {
  }

  lemma FeedXor16(r: bv16, byte: bv8, p: bv16)
    ensures Feed16(Xor16(r, p), byte) == Xor16(Feed16(r, byte), p)
  {
  }

  lemma FeedBit16(r: bv16, byte: bv8)
    ensures Next16(Feed16(r, byte)) == Feed16(Step16(r, ByteBit(byte, 0)), byte << 1)
  {
    hide Top16, Left16, Xor16, Feed16, Step16, ByteBit, Next16;
    NextParts16(Feed16(r, byte));
    FeedParts16(r, byte);
    StepParts16(r, ByteBit(byte, 0));
    FeedXor16(Left16(r), byte << 1, 0x1021);
  }

  function AfterByte16(r: bv16, b: bv8): bv16 {
    Step16(Step16(Step16(Step16(Step16(Step16(Step16(Step16(r, ByteBit(b, 0)), ByteBit(b, 1)), ByteBit(b, 2)),
           ByteBit(b, 3)), ByteBit(b, 4)), ByteBit(b, 5)), ByteBit(b, 6)), ByteBit(b, 7))
  }

  lemma TopOfShifted(b: bv8)
    ensures ByteBit(b << 1, 0) == ByteBit(b, 1) && ByteBit(b << 2, 0) == ByteBit(b, 2)
    ensures ByteBit(b << 3, 0) == ByteBit(b, 3)
    ensures ByteBit(b << 4, 0) == ByteBit(b, 4) && ByteBit(b << 5, 0) == ByteBit(b, 5)
    ensures ByteBit(b << 6, 0) == ByteBit(b, 6) && ByteBit(b << 7, 0) == ByteBit(b, 7)
  {
  }

  lemma FeedByte16(r: bv16, byte: bv8)
    ensures EightTimes16(Feed16(r, byte)) == AfterByte16(r, byte)
  {
    hide Next16, Feed16, Step16, ByteBit;
    TopOfShifted(byte);
    var r1 := Step16(r, ByteBit(byte, 0));
    var r2 := Step16(r1, ByteBit(byte, 1));
    var r3 := Step16(r2, ByteBit(byte, 2));
    var r4 := Step16(r3, ByteBit(byte, 3));
    var r5 := Step16(r4, ByteBit(byte, 4));
    var r6 := Step16(r5, ByteBit(byte, 5));
    var r7 := Step16(r6, ByteBit(byte, 6));
    FeedBit16(r, byte);
    FeedBit16(r1, byte << 1);
    FeedBit16(r2, byte << 2);
    FeedBit16(r3, byte << 3);
    FeedBit16(r4, byte << 4);
    FeedBit16(r5, byte << 5);
    FeedBit16(r6, byte << 6);
    FeedBit16(r7, byte << 7);
    FeedNothing16(Step16(r7, ByteBit(byte, 7)));
  }

  lemma FeedNothing16(r: bv16)
    ensures Feed16(r, 0) == r
  {
  }

  lemma NextAdds16(a: bv16, b: bv16)
    ensures Next16(Xor16(a, b)) == Xor16(Next16(a), Next16(b))
  {
    hide Top16, Left16, Xor16, Next16;
    NextParts16(a);
    NextParts16(b);
    NextParts16(Xor16(a, b));
    XorParts16(a, b);
    XorRules16(Left16(a), Left16(b), 0x1021);
  }

  lemma XorRules16(a: bv16, b: bv16, p: bv16)
    ensures Xor16(Xor16(a, b), p) == Xor16(Xor16(a, p), b) == Xor16(a, Xor16(b, p))
    ensures Xor16(Xor16(a, p), Xor16(b, p)) == Xor16(a, b)
  {
  }

  lemma EightAdd16(a: bv16, b: bv16)
    ensures EightTimes16(Xor16(a, b)) == Xor16(EightTimes16(a), EightTimes16(b))
  {
    hide Next16, Xor16;
    NextAdds16(a, b);
    var a1, b1 := Next16(a), Next16(b);
    NextAdds16(a1, b1);
    var a2, b2 := Next16(a1), Next16(b1);
    NextAdds16(a2, b2);
    var a3, b3 := Next16(a2), Next16(b2);
    NextAdds16(a3, b3);
    var a4, b4 := Next16(a3), Next16(b3);
    NextAdds16(a4, b4);
    var a5, b5 := Next16(a4), Next16(b4);
    NextAdds16(a5, b5);
    var a6, b6 := Next16(a5), Next16(b5);
    NextAdds16(a6, b6);
    NextAdds16(Next16(a6), Next16(b6));
  }

  lemma EightLow16(r: bv16)
    ensures EightTimes16(r & 0xFF) == r << 8
  {
  }

  lemma SplitRegister16(r: bv16, byte: bv8)
    ensures Feed16(r, byte) == Xor16(r & 0xFF, ((((r >> 8) as bv8) ^ byte) as bv16) << 8)
  {
  }

  /** The step of the code is eight bit steps. */
  lemma TableStep16(r: bv16, byte: bv8)
    ensures Xor16(r << 8, Crc16Tab(((r >> 8) as bv8) ^ byte)) == AfterByte16(r, byte)
  {
    hide Next16, Xor16, Feed16, EightTimes16, AfterByte16;
    var index := ((r >> 8) as bv8) ^ byte;
    SplitRegister16(r, byte);
    EightAdd16(r & 0xFF, (index as bv16) << 8);
    EightLow16(r);
    FeedByte16(r, byte);
  }

  lemma ByteShifts16(r: bv16, byte: bv8)
    ensures Bits16(AfterByte16(r, byte)) == Run(Bits16(r), ByteBits(byte), G16)
  {
    hide Step16, Shift, Run, ByteBit, Bits16;
    RunByte(Bits16(r), ByteBits(byte), G16);
    var r1 := Step16(r, ByteBit(byte, 0));
    var r2 := Step16(r1, ByteBit(byte, 1));
    var r3 := Step16(r2, ByteBit(byte, 2));
    var r4 := Step16(r3, ByteBit(byte, 3));
    var r5 := Step16(r4, ByteBit(byte, 4));
    var r6 := Step16(r5, ByteBit(byte, 5));
    var r7 := Step16(r6, ByteBit(byte, 6));
    Step16Shifts(r, ByteBit(byte, 0));
    Step16Shifts(r1, ByteBit(byte, 1));
    Step16Shifts(r2, ByteBit(byte, 2));
    Step16Shifts(r3, ByteBit(byte, 3));
    Step16Shifts(r4, ByteBit(byte, 4));
    Step16Shifts(r5, ByteBit(byte, 5));
    Step16Shifts(r6, ByteBit(byte, 6));
    Step16Shifts(r7, ByteBit(byte, 7));
  }

  /** The message as a polynomial: the bits of its bytes in order. */
  function Message(s: seq<bv8>): Poly {
    FlatMap(ByteBits, s)
  }

  lemma MessageGrows(s: seq<bv8>, i: nat)
    requires i < |s|
    ensures Message(s[..i + 1]) == Message(s[..i]) + ByteBits(s[i])
  {
    assert s[..i + 1] == s[..i] + [s[i]];
    FlatMapSnoc(ByteBits, s[..i], s[i]);
  }

  lemma ZeroRegister16()
    ensures Bits16(0) == Zeros(16)
  {
    forall k | 0 <= k < 16 ensures !High(0, k) {
      NoHigh(k);
    }
  }

  lemma {:induction false} NoHigh(k: nat)
    ensures !High(0, k)
  {
    if k > 0 {
      NoHigh(k - 1);
    }
  }

  /** The checksum, bit by bit. */
  function Checksum16(s: seq<bv8>): bv16 {
    if s == [] then 0 else AfterByte16(Checksum16(s[..|s| - 1]), s[|s| - 1])
  }

  lemma {:induction false} Checksum16Runs(s: seq<bv8>)
    ensures Bits16(Checksum16(s)) == Register(Message(s), G16)
  {
    hide Bits16, Run, ByteBits, AfterByte16, Zeros;
    if s == [] {
      ZeroRegister16();
      RunNone(Zeros(16), G16);
    } else {
      var n := |s| - 1;
      Checksum16Runs(s[..n]);
      ByteShifts16(Checksum16(s[..n]), s[n]);
      MessageGrows(s, n);
      RunSplit(Zeros(16), Message(s[..n]), ByteBits(s[n]), G16);
      assert s[..n + 1] == s;
    }
  }

  /** The checksum is the remainder of the message, times x^16, divided by G16. */
  lemma Checksum16Divides(s: seq<bv8>)
    ensures Divides(Message(s), G16, Quotient(Message(s), G16), Bits16(Checksum16(s)))
  {
    Checksum16Runs(s);
    RegisterDivides(Message(s), G16);
  }

  method Crc16(buf: seq<bv8>) returns (crc: bv16)
    ensures crc == Checksum16(buf)
  {
    hide AfterByte16, Xor16;
    crc := 0;
    for counter := 0 to |buf|
      invariant crc == Checksum16(buf[..counter])
    {
      TableStep16(crc, buf[counter]);
      assert buf[..counter + 1][..counter] == buf[..counter];
      crc := Xor16(crc << 8, Crc16Tab(((crc >> 8) as bv8) ^ buf[counter]));
    }
    assert buf[..|buf|] == buf;
  }

  // ---------------------------------------------------------------- crc64

  // The register is kept reversed: its lowest bit is the coefficient of x^63.

  predicate Low64(r: bv64) {
    r & 1 != 0
  }

  function Right64(r: bv64): bv64 {
    r >> 1
  }

  function Xor64(a: bv64, b: bv64): bv64 {
    a ^ b
  }

  /** 0xad93d23594c935a9 with its bits in the opposite order. */
  const POLY64: bv64 := 0x95ac9329ac4bc9b5

  /** x^64 plus the polynomial whose coefficients are the bits of 0xad93d23594c935a9. */
  const G64: Poly := [true] + ByteBits(0xad) + ByteBits(0x93) + ByteBits(0xd2) + ByteBits(0x35)
                     + ByteBits(0x94) + ByteBits(0xc9) + ByteBits(0x35) + ByteBits(0xa9)

  function Next64(r: bv64): bv64 {
    if r & 1 != 0 then (r >> 1) ^ POLY64 else r >> 1
  }

  lemma NextParts64(r: bv64)
    ensures Next64(r) == if Low64(r) then Xor64(Right64(r), POLY64) else Right64(r)
  {
  }

  function Step64(r: bv64, b: bool): bv64 {
    Next64(if b then Xor64(r, 1) else r)
  }

  function EightTimes64(r: bv64): bv64 {
    Next64(Next64(Next64(Next64(Next64(Next64(Next64(Next64(r))))))))
  }

  /** Bit `k` of a register, counted from the bottom. */
  predicate Low(r: bv64, k: nat)
    decreases k
  {
    if k == 0 then Low64(r) else Low(Right64(r), k - 1)
  }

  function Bits64(r: bv64): (p: Poly)
    ensures |p| == 64 && forall k :: 0 <= k < 64 ==> p[k] == Low(r, k)
  {
    seq(64, k requires k >= 0 => Low(r, k))
  }

  lemma XorParts64(a: bv64, b: bv64)
    ensures Low64(Xor64(a, b)) == (Low64(a) != Low64(b)) && Right64(Xor64(a, b)) == Xor64(Right64(a), Right64(b))
  {
  }

  lemma {:induction false} LowXor(a: bv64, b: bv64, k: nat)
    ensures Low(Xor64(a, b), k) == (Low(a, k) != Low(b, k))
    decreases k
  {
    hide Low64, Right64, Xor64;
    XorParts64(a, b);
    if k > 0 {
      LowXor(Right64(a), Right64(b), k - 1);
    }
  }

  function Drop8(r: bv64): bv64 {
    r >> 8
  }

  lemma LowEight(r: bv64, k: nat)
    ensures Low(r, k + 8) == Low(Drop8(r), k)
  {
    assert Low(r, k + 8) == Low(r >> 1, k + 7) == Low(r >> 2, k + 6) == Low(r >> 3, k + 5) == Low(r >> 4, k + 4);
    assert Low(r >> 4, k + 4) == Low(r >> 5, k + 3) == Low(r >> 6, k + 2) == Low(r >> 7, k + 1) == Low(r >> 8, k);
  }

  lemma {:induction false} NoLow(k: nat)
    ensures !Low(0, k)
  {
    if k > 0 {
      NoLow(k - 1);
    }
  }

  function Drop(r: bv64, i: nat): bv64
    decreases i
  {
    if i == 0 then r else Drop(Drop8(r), i - 1)
  }

  lemma {:induction false} LowAfter(r: bv64, i: nat, m: nat)
    ensures Low(r, 8 * i + m) == Low(Drop(r, i), m)
    decreases i
  {
    hide Low, Drop8;
    if i > 0 {
      LowEight(r, 8 * (i - 1) + m);
      LowAfter(Drop8(r), i - 1, m);
    }
  }

  lemma {:induction false} DropMore(r: bv64, i: nat, j: nat)
    ensures Drop(r, i + j) == Drop(Drop(r, i), j)
    decreases i
  {
    if i > 0 {
      DropMore(Drop8(r), i - 1, j);
    }
  }

  lemma DropAll(r: bv64)
    ensures Drop(r, 8) == 0
  {
  }

  lemma LowEnds(r: bv64)
    ensures !Low(r, 64)
  {
    hide Low;
    LowAfter(r, 8, 0);
    DropAll(r);
    NoLow(0);
  }

  /** The bytes of the polynomial, the highest coefficients first. */
  function PolyByte(i: nat): bv8
    requires i < 8
  {
    match i
    case 0 => 0xad
    case 1 => 0x93
    case 2 => 0xd2
    case 3 => 0x35
    case 4 => 0x94
    case 5 => 0xc9
    case 6 => 0x35
    case _ => 0xa9
  }

  lemma PolyBytes()
    ensures forall i, m :: 0 <= i < 8 && 0 <= m < 8 ==> G64[1 + 8 * i + m] == ByteBits(PolyByte(i))[m]
  {
    hide ByteBits;
  }

  function LowByte(r: bv64): bv8 {
    (r & 0xFF) as bv8
  }

  /** The bytes of the constant of the code, the lowest first. */
  function ReversedByte(i: nat): bv8
    requires i < 8
  {
    match i
    case 0 => 0xb5
    case 1 => 0xc9
    case 2 => 0x4b
    case 3 => 0xac
    case 4 => 0x29
    case 5 => 0x93
    case 6 => 0xac
    case _ => 0x95
  }

  lemma DropsOfPoly(i: nat)
    requires i < 8
    ensures LowByte(Drop(POLY64, i)) == ReversedByte(i)
  {
    assert Drop(POLY64, 1) == 0x95ac9329ac4bc9 && Drop(0x95ac9329ac4bc9, 1) == 0x95ac9329ac4b;
    assert Drop(0x95ac9329ac4b, 1) == 0x95ac9329ac && Drop(0x95ac9329ac, 1) == 0x95ac9329;
    assert Drop(0x95ac9329, 1) == 0x95ac93 && Drop(0x95ac93, 1) == 0x95ac && Drop(0x95ac, 1) == 0x95;
  }

  /** The bytes of the constant are those of the polynomial with their bits in the opposite order. */
  lemma BytesAreReversed(i: nat, m: nat)
    requires i < 8 && m < 8
    ensures Has(ReversedByte(i), m) == Has(PolyByte(i), 7 - m)
  {
  }

  lemma LowStart(r: bv64)
    ensures Low64(r) == Has(LowByte(r), 0)
  {
  }

  lemma LowNext(r: bv64, m: nat)
    requires 0 < m < 8
    ensures Has(LowByte(Right64(r)), m - 1) == Has(LowByte(r), m)
  {
  }

  lemma {:induction false} LowIsHas(r: bv64, m: nat)
    requires m < 8
    ensures Low(r, m) == Has(LowByte(r), m)
    decreases m
  {
    hide Low64, Right64, LowByte, Has;
    if m == 0 {
      LowStart(r);
    } else {
      LowIsHas(Right64(r), m - 1);
      LowNext(r, m);
    }
  }

  lemma ByteBitsAt(b: bv8, m: nat)
    requires m < 8
    ensures ByteBits(b)[m] == Has(b, 7 - m)
  {
    hide Has;
  }

  lemma LowOfPoly(i: nat, m: nat)
    requires i < 8 && m < 8
    ensures Low(Drop(POLY64, i), m) == ByteBits(PolyByte(i))[m]
  {
    hide Low, ByteBits, PolyByte, ReversedByte, LowByte, Has, Drop;
    LowIsHas(Drop(POLY64, i), m);
    DropsOfPoly(i);
    BytesAreReversed(i, m);
    ByteBitsAt(PolyByte(i), m);
  }

  /** The constant of the code is the divisor without its leading coefficient. */
  lemma Divisor64(k: nat)
    requires k < 64
    ensures Low(POLY64, k) == G64[k + 1]
  {
    hide Low, ByteBits, PolyByte;
    LowAfter(POLY64, k / 8, k % 8);
    LowOfPoly(k / 8, k % 8);
    PolyBytes();
    assert G64[1 + 8 * (k / 8) + k % 8] == ByteBits(PolyByte(k / 8))[k % 8];
  }

  lemma FlipLow64(r: bv64)
    ensures Low64(Xor64(r, 1)) == !Low64(r) && Right64(Xor64(r, 1)) == Right64(r)
  {
  }

  lemma StepParts64(r: bv64, b: bool)
    ensures Step64(r, b) == if Low64(r) != b then Xor64(Right64(r), POLY64) else Right64(r)
  {
    hide Low64, Right64, Xor64, Next64;
    FlipLow64(r);
    NextParts64(r);
    NextParts64(Xor64(r, 1));
  }

  lemma Step64Bit(r: bv64, b: bool, k: nat)
    requires k < 64
    ensures Low(Step64(r, b), k) == Shift(Bits64(r), b, G64)[k]
  {
    hide Step64, Low64, Right64, Xor64;
    StepParts64(r, b);
    LowXor(Right64(r), POLY64, k);
    Divisor64(k);
    LowEnds(r);
  }

  /** One bit step of the checksum is one step of the shift register. */
  lemma Step64Shifts(r: bv64, b: bool)
    ensures Bits64(Step64(r, b)) == Shift(Bits64(r), b, G64)
  {
    var s := Shift(Bits64(r), b, G64);
    hide Step64, Low64, Right64, Xor64, Shift;
    forall k | 0 <= k < 64 ensures Low(Step64(r, b), k) == s[k] {
      Step64Bit(r, b, k);
    }
    assert Bits64(Step64(r, b)) == s;
  }

  /** crc64_tab, in rows of sixteen. */
  const CRC64_TABLE: seq<seq<bv64>> := [
    [0x0000000000000000, 0x7ad870c830358979, 0xf5b0e190606b12f2, 0x8f689158505e9b8b,
     0xc038e5739841b68f, 0xbae095bba8743ff6, 0x358804e3f82aa47d, 0x4f50742bc81f2d04,
     0xab28ecb46814fe75, 0xd1f09c7c5821770c, 0x5e980d24087fec87, 0x24407dec384a65fe,
     0x6b1009c7f05548fa, 0x11c8790fc060c183, 0x9ea0e857903e5a08, 0xe478989fa00bd371],
    [0x7d08ff3b88be6f81, 0x07d08ff3b88be6f8, 0x88b81eabe8d57d73, 0xf2606e63d8e0f40a,
     0xbd301a4810ffd90e, 0xc7e86a8020ca5077, 0x4880fbd87094cbfc, 0x32588b1040a14285,
     0xd620138fe0aa91f4, 0xacf86347d09f188d, 0x2390f21f80c18306, 0x594882d7b0f40a7f,
     0x1618f6fc78eb277b, 0x6cc0863448deae02, 0xe3a8176c18803589, 0x997067a428b5bcf0],
    [0xfa11fe77117cdf02, 0x80c98ebf2149567b, 0x0fa11fe77117cdf0, 0x75796f2f41224489,
     0x3a291b04893d698d, 0x40f16bccb908e0f4, 0xcf99fa94e9567b7f, 0xb5418a5cd963f206,
     0x513912c379682177, 0x2be1620b495da80e, 0xa489f35319033385, 0xde51839b2936bafc,
     0x9101f7b0e12997f8, 0xebd98778d11c1e81, 0x64b116208142850a, 0x1e6966e8b1770c73],
    [0x8719014c99c2b083, 0xfdc17184a9f739fa, 0x72a9e0dcf9a9a271, 0x08719014c99c2b08,
     0x4721e43f0183060c, 0x3df994f731b68f75, 0xb29105af61e814fe, 0xc849756751dd9d87,
     0x2c31edf8f1d64ef6, 0x56e99d30c1e3c78f, 0xd9810c6891bd5c04, 0xa3597ca0a188d57d,
     0xec09088b6997f879, 0x96d1784359a27100, 0x19b9e91b09fcea8b, 0x636199d339c963f2],
    [0xdf7adabd7a6e2d6f, 0xa5a2aa754a5ba416, 0x2aca3b2d1a053f9d, 0x50124be52a30b6e4,
     0x1f423fcee22f9be0, 0x659a4f06d21a1299, 0xeaf2de5e82448912, 0x902aae96b271006b,
     0x74523609127ad31a, 0x0e8a46c1224f5a63, 0x81e2d7997211c1e8, 0xfb3aa75142244891,
     0xb46ad37a8a3b6595, 0xceb2a3b2ba0eecec, 0x41da32eaea507767, 0x3b024222da65fe1e],
    [0xa2722586f2d042ee, 0xd8aa554ec2e5cb97, 0x57c2c41692bb501c, 0x2d1ab4dea28ed965,
     0x624ac0f56a91f461, 0x1892b03d5aa47d18, 0x97fa21650afae693, 0xed2251ad3acf6fea,
     0x095ac9329ac4bc9b, 0x7382b9faaaf135e2, 0xfcea28a2faafae69, 0x8632586aca9a2710,
     0xc9622c4102850a14, 0xb3ba5c8932b0836d, 0x3cd2cdd162ee18e6, 0x460abd1952db919f],
    [0x256b24ca6b12f26d, 0x5fb354025b277b14, 0xd0dbc55a0b79e09f, 0xaa03b5923b4c69e6,
     0xe553c1b9f35344e2, 0x9f8bb171c366cd9b, 0x10e3202993385610, 0x6a3b50e1a30ddf69,
     0x8e43c87e03060c18, 0xf49bb8b633338561, 0x7bf329ee636d1eea, 0x012b592653589793,
     0x4e7b2d0d9b47ba97, 0x34a35dc5ab7233ee, 0xbbcbcc9dfb2ca865, 0xc113bc55cb19211c],
    [0x5863dbf1e3ac9dec, 0x22bbab39d3991495, 0xadd33a6183c78f1e, 0xd70b4aa9b3f20667,
     0x985b3e827bed2b63, 0xe2834e4a4bd8a21a, 0x6debdf121b863991, 0x1733afda2bb3b0e8,
     0xf34b37458bb86399, 0x8993478dbb8deae0, 0x06fbd6d5ebd3716b, 0x7c23a61ddbe6f812,
     0x3373d23613f9d516, 0x49aba2fe23cc5c6f, 0xc6c333a67392c7e4, 0xbc1b436e43a74e9d],
    [0x95ac9329ac4bc9b5, 0xef74e3e19c7e40cc, 0x601c72b9cc20db47, 0x1ac40271fc15523e,
     0x5594765a340a7f3a, 0x2f4c0692043ff643, 0xa02497ca54616dc8, 0xdafce7026454e4b1,
     0x3e847f9dc45f37c0, 0x445c0f55f46abeb9, 0xcb349e0da4342532, 0xb1eceec59401ac4b,
     0xfebc9aee5c1e814f, 0x8464ea266c2b0836, 0x0b0c7b7e3c7593bd, 0x71d40bb60c401ac4],
    [0xe8a46c1224f5a634, 0x927c1cda14c02f4d, 0x1d148d82449eb4c6, 0x67ccfd4a74ab3dbf,
     0x289c8961bcb410bb, 0x5244f9a98c8199c2, 0xdd2c68f1dcdf0249, 0xa7f41839ecea8b30,
     0x438c80a64ce15841, 0x3954f06e7cd4d138, 0xb63c61362c8a4ab3, 0xcce411fe1cbfc3ca,
     0x83b465d5d4a0eece, 0xf96c151de49567b7, 0x76048445b4cbfc3c, 0x0cdcf48d84fe7545],
    [0x6fbd6d5ebd3716b7, 0x15651d968d029fce, 0x9a0d8ccedd5c0445, 0xe0d5fc06ed698d3c,
     0xaf85882d2576a038, 0xd55df8e515432941, 0x5a3569bd451db2ca, 0x20ed197575283bb3,
     0xc49581ead523e8c2, 0xbe4df122e51661bb, 0x3125607ab548fa30, 0x4bfd10b2857d7349,
     0x04ad64994d625e4d, 0x7e7514517d57d734, 0xf11d85092d094cbf, 0x8bc5f5c11d3cc5c6],
    [0x12b5926535897936, 0x686de2ad05bcf04f, 0xe70573f555e26bc4, 0x9ddd033d65d7e2bd,
     0xd28d7716adc8cfb9, 0xa85507de9dfd46c0, 0x273d9686cda3dd4b, 0x5de5e64efd965432,
     0xb99d7ed15d9d8743, 0xc3450e196da80e3a, 0x4c2d9f413df695b1, 0x36f5ef890dc31cc8,
     0x79a59ba2c5dc31cc, 0x037deb6af5e9b8b5, 0x8c157a32a5b7233e, 0xf6cd0afa9582aa47],
    [0x4ad64994d625e4da, 0x300e395ce6106da3, 0xbf66a804b64ef628, 0xc5bed8cc867b7f51,
     0x8aeeace74e645255, 0xf036dc2f7e51db2c, 0x7f5e4d772e0f40a7, 0x05863dbf1e3ac9de,
     0xe1fea520be311aaf, 0x9b26d5e88e0493d6, 0x144e44b0de5a085d, 0x6e963478ee6f8124,
     0x21c640532670ac20, 0x5b1e309b16452559, 0xd476a1c3461bbed2, 0xaeaed10b762e37ab],
    [0x37deb6af5e9b8b5b, 0x4d06c6676eae0222, 0xc26e573f3ef099a9, 0xb8b627f70ec510d0,
     0xf7e653dcc6da3dd4, 0x8d3e2314f6efb4ad, 0x0256b24ca6b12f26, 0x788ec2849684a65f,
     0x9cf65a1b368f752e, 0xe62e2ad306bafc57, 0x6946bb8b56e467dc, 0x139ecb4366d1eea5,
     0x5ccebf68aecec3a1, 0x2616cfa09efb4ad8, 0xa97e5ef8cea5d153, 0xd3a62e30fe90582a],
    [0xb0c7b7e3c7593bd8, 0xca1fc72bf76cb2a1, 0x45775673a732292a, 0x3faf26bb9707a053,
     0x70ff52905f188d57, 0x0a2722586f2d042e, 0x854fb3003f739fa5, 0xff97c3c80f4616dc,
     0x1bef5b57af4dc5ad, 0x61372b9f9f784cd4, 0xee5fbac7cf26d75f, 0x9487ca0fff135e26,
     0xdbd7be24370c7322, 0xa10fceec0739fa5b, 0x2e675fb4576761d0, 0x54bf2f7c6752e8a9],
    [0xcdcf48d84fe75459, 0xb71738107fd2dd20, 0x387fa9482f8c46ab, 0x42a7d9801fb9cfd2,
     0x0df7adabd7a6e2d6, 0x772fdd63e7936baf, 0xf8474c3bb7cdf024, 0x829f3cf387f8795d,
     0x66e7a46c27f3aa2c, 0x1c3fd4a417c62355, 0x935745fc4798b8de, 0xe98f353477ad31a7,
     0xa6df411fbfb21ca3, 0xdc0731d78f8795da, 0x536fa08fdfd90e51, 0x29b7d047efec8728]]

  function Entry64(i: bv8): bv64 {
    CRC64_TABLE[(i >> 4) as nat][(i & 15) as nat]
  }

  lemma XorAssociates64(a: bv64, b: bv64, c: bv64)
    ensures Xor64(Xor64(a, b), c) == Xor64(a, Xor64(b, c))
  {
  }

  lemma XorCommutes64(a: bv64, b: bv64)
    ensures Xor64(a, b) == Xor64(b, a)
  {
  }

  lemma XorCancels64(a: bv64, b: bv64)
    ensures Xor64(Xor64(a, b), b) == a
  {
  }

  lemma XorRules64(a: bv64, b: bv64, p: bv64)
    ensures Xor64(Xor64(a, b), p) == Xor64(Xor64(a, p), b) == Xor64(a, Xor64(b, p))
    ensures Xor64(Xor64(a, p), Xor64(b, p)) == Xor64(a, b)
  {
    hide Xor64;
    XorAssociates64(a, b, p);
    XorAssociates64(a, p, b);
    XorCommutes64(b, p);
    XorAssociates64(a, p, Xor64(b, p));
    XorCommutes64(p, Xor64(b, p));
    XorCancels64(b, p);
  }

  lemma NextAdds64(a: bv64, b: bv64)
    ensures Next64(Xor64(a, b)) == Xor64(Next64(a), Next64(b))
  {
    hide Low64, Right64, Xor64, Next64;
    NextParts64(a);
    NextParts64(b);
    NextParts64(Xor64(a, b));
    XorParts64(a, b);
    XorRules64(Right64(a), Right64(b), POLY64);
  }

  lemma EightAdd64(a: bv64, b: bv64)
    ensures EightTimes64(Xor64(a, b)) == Xor64(EightTimes64(a), EightTimes64(b))
  {
    hide Next64, Xor64;
    NextAdds64(a, b);
    var a1, b1 := Next64(a), Next64(b);
    NextAdds64(a1, b1);
    var a2, b2 := Next64(a1), Next64(b1);
    NextAdds64(a2, b2);
    var a3, b3 := Next64(a2), Next64(b2);
    NextAdds64(a3, b3);
    var a4, b4 := Next64(a3), Next64(b3);
    NextAdds64(a4, b4);
    var a5, b5 := Next64(a4), Next64(b4);
    NextAdds64(a5, b5);
    var a6, b6 := Next64(a5), Next64(b5);
    NextAdds64(a6, b6);
    NextAdds64(Next64(a6), Next64(b6));
  }

  // Eight bit steps are linear, and so is the table: an entry is the sum of those of the bits of its index.

  function Pick64(i: bv8, mask: bv8, entry: bv64): bv64 {
    if i & mask != 0 then entry else 0
  }

  function Column64(i: bv8): bv64 {
    Xor64(Xor64(Pick64(i, 1, 0x7ad870c830358979), Pick64(i, 2, 0xf5b0e190606b12f2)),
          Xor64(Pick64(i, 4, 0xc038e5739841b68f), Pick64(i, 8, 0xab28ecb46814fe75)))
  }

  function Row64(i: bv8): bv64 {
    Xor64(Xor64(Pick64(i, 16, 0x7d08ff3b88be6f81), Pick64(i, 32, 0xfa11fe77117cdf02)),
          Xor64(Pick64(i, 64, 0xdf7adabd7a6e2d6f), Pick64(i, 128, 0x95ac9329ac4bc9b5)))
  }

  lemma BitsOfIndex64(i: bv8)
    ensures i as bv64 == Xor64(Xor64(Xor64((i & 1) as bv64, (i & 2) as bv64),
                                     Xor64((i & 4) as bv64, (i & 8) as bv64)),
                               Xor64(Xor64((i & 16) as bv64, (i & 32) as bv64),
                                     Xor64((i & 64) as bv64, (i & 128) as bv64)))
  {
  }

  /** The entries of the powers of two, and of nothing. */
  lemma Powers64()
    ensures EightTimes64(0) == 0
    ensures EightTimes64(1) == 0x7ad870c830358979 && EightTimes64(2) == 0xf5b0e190606b12f2
    ensures EightTimes64(4) == 0xc038e5739841b68f && EightTimes64(8) == 0xab28ecb46814fe75
    ensures EightTimes64(16) == 0x7d08ff3b88be6f81 && EightTimes64(32) == 0xfa11fe77117cdf02
    ensures EightTimes64(64) == 0xdf7adabd7a6e2d6f && EightTimes64(128) == 0x95ac9329ac4bc9b5
  {
  }

  lemma EightOfBit64(i: bv8, mask: bv8)
    requires i & mask == 0 || i & mask == mask != 0
    ensures EightTimes64((i & mask) as bv64) == Pick64(i, mask, EightTimes64(mask as bv64))
  {
    hide EightTimes64;
    Powers64();
  }

  lemma EightOfBits64(i: bv8, low: bv8, high: bv8)
    requires i & low == 0 || i & low == low != 0
    requires i & high == 0 || i & high == high != 0
    ensures EightTimes64(Xor64((i & low) as bv64, (i & high) as bv64))
            == Xor64(Pick64(i, low, EightTimes64(low as bv64)), Pick64(i, high, EightTimes64(high as bv64)))
  {
    hide EightTimes64, Xor64, Pick64;
    EightAdd64((i & low) as bv64, (i & high) as bv64);
    EightOfBit64(i, low);
    EightOfBit64(i, high);
  }

  lemma EightOfColumns64(i: bv8)
    ensures EightTimes64(Xor64(Xor64((i & 1) as bv64, (i & 2) as bv64), Xor64((i & 4) as bv64, (i & 8) as bv64)))
            == Column64(i)
  {
    hide EightTimes64, Xor64, Pick64;
    EightAdd64(Xor64((i & 1) as bv64, (i & 2) as bv64), Xor64((i & 4) as bv64, (i & 8) as bv64));
    EightOfBits64(i, 1, 2);
    EightOfBits64(i, 4, 8);
    Powers64();
  }

  lemma EightOfRows64(i: bv8)
    ensures EightTimes64(Xor64(Xor64((i & 16) as bv64, (i & 32) as bv64), Xor64((i & 64) as bv64, (i & 128) as bv64)))
            == Row64(i)
  {
    hide EightTimes64, Xor64, Pick64;
    EightAdd64(Xor64((i & 16) as bv64, (i & 32) as bv64), Xor64((i & 64) as bv64, (i & 128) as bv64));
    EightOfBits64(i, 16, 32);
    EightOfBits64(i, 64, 128);
    Powers64();
  }

  lemma EightOfIndex64(i: bv8)
    ensures EightTimes64(i as bv64) == Xor64(Column64(i), Row64(i))
  {
    hide EightTimes64, Xor64, Column64, Row64;
    BitsOfIndex64(i);
    EightAdd64(Xor64(Xor64((i & 1) as bv64, (i & 2) as bv64), Xor64((i & 4) as bv64, (i & 8) as bv64)),
               Xor64(Xor64((i & 16) as bv64, (i & 32) as bv64), Xor64((i & 64) as bv64, (i & 128) as bv64)));
    EightOfColumns64(i);
    EightOfRows64(i);
  }

  lemma Rows64From0(i: bv8)
    requires i < 0x20
    ensures Entry64(i) == Xor64(Column64(i), Row64(i))
  {
  }

  lemma Rows64From2(i: bv8)
    requires 0x20 <= i < 0x40
    ensures Entry64(i) == Xor64(Column64(i), Row64(i))
  {
  }

  lemma Rows64From4(i: bv8)
    requires 0x40 <= i < 0x60
    ensures Entry64(i) == Xor64(Column64(i), Row64(i))
  {
  }

  lemma Rows64From6(i: bv8)
    requires 0x60 <= i < 0x80
    ensures Entry64(i) == Xor64(Column64(i), Row64(i))
  {
  }

  lemma Rows64From8(i: bv8)
    requires 0x80 <= i < 0xa0
    ensures Entry64(i) == Xor64(Column64(i), Row64(i))
  {
  }

  lemma Rows64From10(i: bv8)
    requires 0xa0 <= i < 0xc0
    ensures Entry64(i) == Xor64(Column64(i), Row64(i))
  {
  }

  lemma Rows64From12(i: bv8)
    requires 0xc0 <= i < 0xe0
    ensures Entry64(i) == Xor64(Column64(i), Row64(i))
  {
  }

  lemma Rows64From14(i: bv8)
    requires 0xe0 <= i
    ensures Entry64(i) == Xor64(Column64(i), Row64(i))
  {
  }

  lemma EntryIsSum64(i: bv8)
    ensures Entry64(i) == Xor64(Column64(i), Row64(i))
  {
    hide Entry64, Column64, Row64, Xor64;
    if i < 0x20 {
      Rows64From0(i);
    } else if i < 0x40 {
      Rows64From2(i);
    } else if i < 0x60 {
      Rows64From4(i);
    } else if i < 0x80 {
      Rows64From6(i);
    } else if i < 0xa0 {
      Rows64From8(i);
    } else if i < 0xc0 {
      Rows64From10(i);
    } else if i < 0xe0 {
      Rows64From12(i);
    } else {
      Rows64From14(i);
    }
  }

  function Crc64Tab(i: bv8): (r: bv64)
    ensures r == EightTimes64(i as bv64)
  {
    hide Entry64, EightTimes64, Column64, Row64, Xor64;
    EightOfIndex64(i);
    EntryIsSum64(i);
    Entry64(i)
  }

  function Feed64(r: bv64, byte: bv8): bv64 {
    Xor64(r, byte as bv64)
  }

  lemma FeedParts64(r: bv64, byte: bv8)
    ensures Low64(Feed64(r, byte)) == (Low64(r) != ByteBit(byte, 7))
    ensures Right64(Feed64(r, byte)) == Feed64(Right64(r), byte >> 1)
  {
  }

  lemma FeedXor64(r: bv64, byte: bv8, p: bv64)
    ensures Feed64(Xor64(r, p), byte) == Xor64(Feed64(r, byte), p)
  {
    hide Xor64;
    XorRules64(r, p, byte as bv64);
  }

  lemma FeedBit64(r: bv64, byte: bv8)
    ensures Next64(Feed64(r, byte)) == Feed64(Step64(r, ByteBit(byte, 7)), byte >> 1)
  {
    hide Low64, Right64, Xor64, Feed64, Step64, ByteBit, Next64;
    NextParts64(Feed64(r, byte));
    FeedParts64(r, byte);
    StepParts64(r, ByteBit(byte, 7));
    FeedXor64(Right64(r), byte >> 1, POLY64);
  }

  function AfterByte64(r: bv64, b: bv8): bv64 {
    Step64(Step64(Step64(Step64(Step64(Step64(Step64(Step64(r, ByteBit(b, 7)), ByteBit(b, 6)), ByteBit(b, 5)),
           ByteBit(b, 4)), ByteBit(b, 3)), ByteBit(b, 2)), ByteBit(b, 1)), ByteBit(b, 0))
  }

  lemma BottomOfShifted(b: bv8)
    ensures ByteBit(b >> 1, 7) == ByteBit(b, 6) && ByteBit(b >> 2, 7) == ByteBit(b, 5)
    ensures ByteBit(b >> 3, 7) == ByteBit(b, 4)
    ensures ByteBit(b >> 4, 7) == ByteBit(b, 3) && ByteBit(b >> 5, 7) == ByteBit(b, 2)
    ensures ByteBit(b >> 6, 7) == ByteBit(b, 1) && ByteBit(b >> 7, 7) == ByteBit(b, 0)
  {
  }

  lemma FeedByte64(r: bv64, byte: bv8)
    ensures EightTimes64(Feed64(r, byte)) == AfterByte64(r, byte)
  {
    hide Next64, Feed64, Step64, ByteBit;
    BottomOfShifted(byte);
    var r1 := Step64(r, ByteBit(byte, 7));
    var r2 := Step64(r1, ByteBit(byte, 6));
    var r3 := Step64(r2, ByteBit(byte, 5));
    var r4 := Step64(r3, ByteBit(byte, 4));
    var r5 := Step64(r4, ByteBit(byte, 3));
    var r6 := Step64(r5, ByteBit(byte, 2));
    var r7 := Step64(r6, ByteBit(byte, 1));
    FeedBit64(r, byte);
    FeedBit64(r1, byte >> 1);
    FeedBit64(r2, byte >> 2);
    FeedBit64(r3, byte >> 3);
    FeedBit64(r4, byte >> 4);
    FeedBit64(r5, byte >> 5);
    FeedBit64(r6, byte >> 6);
    FeedBit64(r7, byte >> 7);
    FeedNothing64(Step64(r7, ByteBit(byte, 0)));
  }

  lemma FeedNothing64(r: bv64)
    ensures Feed64(r, 0) == r
  {
  }

  lemma EightHigh64(r: bv64)
    ensures EightTimes64(r & !0xFF) == r >> 8
  {
  }

  lemma SplitRegister64(r: bv64, byte: bv8)
    ensures Feed64(r, byte) == Xor64((((r & 0xFF) as bv8) ^ byte) as bv64, r & !0xFF)
  {
  }

  /** The step of the code is eight bit steps. */
  lemma TableStep64(r: bv64, byte: bv8)
    ensures Xor64(Crc64Tab(((r & 0xFF) as bv8) ^ byte), r >> 8) == AfterByte64(r, byte)
  {
    hide Next64, Xor64, Feed64, EightTimes64, AfterByte64;
    var index := ((r & 0xFF) as bv8) ^ byte;
    SplitRegister64(r, byte);
    EightAdd64(index as bv64, r & !0xFF);
    EightHigh64(r);
    FeedByte64(r, byte);
  }

  /** The bits of a byte, the least significant one first. */
  function LowBits(b: bv8): (p: Poly)
    ensures |p| == 8
  {
    [ByteBit(b, 7), ByteBit(b, 6), ByteBit(b, 5), ByteBit(b, 4),
     ByteBit(b, 3), ByteBit(b, 2), ByteBit(b, 1), ByteBit(b, 0)]
  }

  lemma ByteShifts64(r: bv64, byte: bv8)
    ensures Bits64(AfterByte64(r, byte)) == Run(Bits64(r), LowBits(byte), G64)
  {
    hide Step64, Shift, Run, ByteBit, Bits64;
    RunByte(Bits64(r), LowBits(byte), G64);
    var r1 := Step64(r, ByteBit(byte, 7));
    var r2 := Step64(r1, ByteBit(byte, 6));
    var r3 := Step64(r2, ByteBit(byte, 5));
    var r4 := Step64(r3, ByteBit(byte, 4));
    var r5 := Step64(r4, ByteBit(byte, 3));
    var r6 := Step64(r5, ByteBit(byte, 2));
    var r7 := Step64(r6, ByteBit(byte, 1));
    Step64Shifts(r, ByteBit(byte, 7));
    Step64Shifts(r1, ByteBit(byte, 6));
    Step64Shifts(r2, ByteBit(byte, 5));
    Step64Shifts(r3, ByteBit(byte, 4));
    Step64Shifts(r4, ByteBit(byte, 3));
    Step64Shifts(r5, ByteBit(byte, 2));
    Step64Shifts(r6, ByteBit(byte, 1));
    Step64Shifts(r7, ByteBit(byte, 0));
  }

  /** The message with each byte reflected. */
  function Reflected(s: seq<bv8>): Poly {
    FlatMap(LowBits, s)
  }

  /** The checksum continued from `crc`, bit by bit. */
  function Checksum64(crc: bv64, s: seq<bv8>): bv64 {
    if s == [] then crc else AfterByte64(Checksum64(crc, s[..|s| - 1]), s[|s| - 1])
  }

  lemma {:induction false} Checksum64Runs(crc: bv64, s: seq<bv8>)
    ensures Bits64(Checksum64(crc, s)) == Run(Bits64(crc), Reflected(s), G64)
  {
    hide Bits64, Run, LowBits, AfterByte64;
    if s == [] {
      RunNone(Bits64(crc), G64);
    } else {
      var n := |s| - 1;
      Checksum64Runs(crc, s[..n]);
      ByteShifts64(Checksum64(crc, s[..n]), s[n]);
      FlatMapSnoc(LowBits, s[..n], s[n]);
      RunSplit(Bits64(crc), Reflected(s[..n]), LowBits(s[n]), G64);
      assert s[..n] + [s[n]] == s;
    }
  }

  lemma ZeroRegister64()
    ensures Bits64(0) == Zeros(64)
  {
    forall k | 0 <= k < 64 ensures !Low(0, k) {
      NoLow(k);
    }
  }

  /** From zero the checksum is the remainder of the reflected message, times x^64, divided by G64. */
  lemma Checksum64Divides(s: seq<bv8>)
    ensures Divides(Reflected(s), G64, Quotient(Reflected(s), G64), Bits64(Checksum64(0, s)))
  {
    hide Bits64, Run, Quotient, Divides;
    Checksum64Runs(0, s);
    ZeroRegister64();
    RegisterDivides(Reflected(s), G64);
  }

  /** The checksum of a concatenation is that of the second part continued from that of the first. */
  lemma {:induction false} Checksum64Continues(crc: bv64, s: seq<bv8>, t: seq<bv8>)
    ensures Checksum64(crc, s + t) == Checksum64(Checksum64(crc, s), t)
  {
    hide AfterByte64;
    if t == [] {
      assert s + t == s;
    } else {
      Checksum64Continues(crc, s, t[..|t| - 1]);
      assert (s + t)[..|s + t| - 1] == s + t[..|t| - 1];
    }
  }

  method Crc64(start: bv64, s: seq<bv8>) returns (crc: bv64)
    ensures crc == Checksum64(start, s)
  {
    hide AfterByte64, Xor64;
    crc := start;
    for j := 0 to |s|
      invariant crc == Checksum64(start, s[..j])
    {
      var byte := s[j];
      TableStep64(crc, byte);
      assert s[..j + 1][..j] == s[..j];
      crc := Xor64(Crc64Tab(((crc & 0xFF) as bv8) ^ byte), crc >> 8);
    }
    assert s[..|s|] == s;
  }
}
