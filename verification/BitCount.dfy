/** Counting bits: a table for single bytes and 28 bytes at a time in a few 32-bit operations. */
module BitCount {
  import opened Basics

  // ---------------------------------------------------------------- what is counted

  function Bit(byte: bv8, bit: nat): nat
    requires bit < 8
  {
    if Has(byte, bit) then 1 else 0
  }

  function Ones(byte: bv8): (n: nat)
    ensures n <= 8
  {
    Bit(byte, 0) + Bit(byte, 1) + Bit(byte, 2) + Bit(byte, 3)
    + Bit(byte, 4) + Bit(byte, 5) + Bit(byte, 6) + Bit(byte, 7)
  }

  function CountBits(s: seq<bv8>): nat {
    if s == [] then 0 else CountBits(s[..|s| - 1]) + Ones(s[|s| - 1])
  }

  lemma {:induction false} CountBitsSplit(s: seq<bv8>, t: seq<bv8>)
    ensures CountBits(s + t) == CountBits(s) + CountBits(t)
  {
    if t == [] {
      assert s + t == s;
    } else {
      CountBitsSplit(s, t[..|t| - 1]);
      assert (s + t)[..|s + t| - 1] == s + t[..|t| - 1];
    }
  }

  lemma CountOneMore(s: seq<bv8>, p: nat)
    requires p < |s|
    ensures CountBits(s[..p + 1]) == CountBits(s[..p]) + Ones(s[p])
  {
    assert s[..p + 1][..p] == s[..p];
  }

  /** bitsinbyte, in rows of sixteen. */
  const BITS_IN_BYTE: seq<seq<nat>> := [
    [0, 1, 1, 2, 1, 2, 2, 3, 1, 2, 2, 3, 2, 3, 3, 4],
    [1, 2, 2, 3, 2, 3, 3, 4, 2, 3, 3, 4, 3, 4, 4, 5],
    [1, 2, 2, 3, 2, 3, 3, 4, 2, 3, 3, 4, 3, 4, 4, 5],
    [2, 3, 3, 4, 3, 4, 4, 5, 3, 4, 4, 5, 4, 5, 5, 6],
    [1, 2, 2, 3, 2, 3, 3, 4, 2, 3, 3, 4, 3, 4, 4, 5],
    [2, 3, 3, 4, 3, 4, 4, 5, 3, 4, 4, 5, 4, 5, 5, 6],
    [2, 3, 3, 4, 3, 4, 4, 5, 3, 4, 4, 5, 4, 5, 5, 6],
    [3, 4, 4, 5, 4, 5, 5, 6, 4, 5, 5, 6, 5, 6, 6, 7],
    [1, 2, 2, 3, 2, 3, 3, 4, 2, 3, 3, 4, 3, 4, 4, 5],
    [2, 3, 3, 4, 3, 4, 4, 5, 3, 4, 4, 5, 4, 5, 5, 6],
    [2, 3, 3, 4, 3, 4, 4, 5, 3, 4, 4, 5, 4, 5, 5, 6],
    [3, 4, 4, 5, 4, 5, 5, 6, 4, 5, 5, 6, 5, 6, 6, 7],
    [2, 3, 3, 4, 3, 4, 4, 5, 3, 4, 4, 5, 4, 5, 5, 6],
    [3, 4, 4, 5, 4, 5, 5, 6, 4, 5, 5, 6, 5, 6, 6, 7],
    [3, 4, 4, 5, 4, 5, 5, 6, 4, 5, 5, 6, 5, 6, 6, 7],
    [4, 5, 5, 6, 5, 6, 6, 7, 5, 6, 6, 7, 6, 7, 7, 8]]

  function BitsEntry(byte: bv8): nat {
    BITS_IN_BYTE[(byte >> 4) as nat][(byte & 15) as nat]
  }

  lemma LowerBitsEntries(byte: bv8)
    requires byte < 128
    ensures BitsEntry(byte) == Ones(byte)
  {
  }

  lemma UpperBitsEntries(byte: bv8)
    requires byte >= 128
    ensures BitsEntry(byte) == Ones(byte)
  {
  }

  function BitsInByte(byte: bv8): (n: nat)
    ensures n == Ones(byte)
  {
    hide BitsEntry, Ones;
    if byte < 128 then LowerBitsEntries(byte); BitsEntry(byte) else UpperBitsEntries(byte); BitsEntry(byte)
  }

  // ---------------------------------------------------------------- small numbers in bit vectors

  lemma Succ(x: bv8)
    requires x < 255
    ensures (x + 1) as nat == x as nat + 1
  {
  }

  function Val(x: bv8): nat
    decreases x
  {
    if x == 0 then 0 else 1 + Val(x - 1)
  }

  lemma {:induction false} ValIsNat(x: bv8)
    ensures Val(x) == x as nat
    decreases x
  {
    if x != 0 {
      ValIsNat(x - 1);
      Succ(x - 1);
    }
  }

  lemma {:induction false} ValAdds(x: bv8, y: bv8)
    requires x <= 255 - y
    ensures Val(x + y) == Val(x) + Val(y)
    decreases y
  {
    if y != 0 {
      ValAdds(x, y - 1);
      assert x + (y - 1) == x + y - 1;
      assert x + y != 0;
    }
  }

  /** The number of bits of a byte, as a byte. */
  function Ones8(b: bv8): (n: bv8)
    ensures n <= 8
  {
    (b & 1) + ((b >> 1) & 1) + ((b >> 2) & 1) + ((b >> 3) & 1)
    + ((b >> 4) & 1) + ((b >> 5) & 1) + ((b >> 6) & 1) + ((b >> 7) & 1)
  }

  lemma Ones8IsOnes(b: bv8)
    ensures Val(Ones8(b)) == Ones(b)
  {
    ValIsNat(Ones8(b));
    OnesAsNat(b);
  }

  lemma OnesAsNat(b: bv8)
    ensures Ones8(b) as nat == Ones(b)
  {
  }

  // ---------------------------------------------------------------- four bytes in a word

  function Pack(b0: bv8, b1: bv8, b2: bv8, b3: bv8): bv32 {
    (b0 as bv32) | ((b1 as bv32) << 8) | ((b2 as bv32) << 16) | ((b3 as bv32) << 24)
  }

  /** The 32-bit word at position `p`. */
  function Load(s: seq<bv8>, p: nat): bv32
    requires p + 4 <= |s|
  {
    Pack(s[p], s[p + 1], s[p + 2], s[p + 3])
  }

  /** From two-bit counts to four-bit counts to byte counts. */
  function Fold(pairs: bv32): bv32 {
    var nibbles := (pairs & 0x33333333) + ((pairs >> 2) & 0x33333333);
    (nibbles + (nibbles >> 4)) & 0x0F0F0F0F
  }

  /** What happens to each of the seven words. */
  function Lanes(w: bv32): bv32 {
    Fold(w - ((w >> 1) & 0x55555555))
  }

  /** The subtraction counts each pair of bits without a borrow. */
  lemma PairsCount(w: bv32)
    ensures w - ((w >> 1) & 0x55555555) == ((w ^ (w >> 1)) & 0x55555555) | (w & (w << 1) & 0xAAAAAAAA)
  {
  }

  lemma FoldCounts(b0: bv8, b1: bv8, b2: bv8, b3: bv8)
    ensures var w := Pack(b0, b1, b2, b3);
            Fold(((w ^ (w >> 1)) & 0x55555555) | (w & (w << 1) & 0xAAAAAAAA))
            == Pack(Ones8(b0), Ones8(b1), Ones8(b2), Ones8(b3))
  {
  }

  /** Each byte of the result is the bit count of that byte. */
  lemma LanesCount(b0: bv8, b1: bv8, b2: bv8, b3: bv8)
    ensures Lanes(Pack(b0, b1, b2, b3)) == Pack(Ones8(b0), Ones8(b1), Ones8(b2), Ones8(b3))
  {
    hide Fold, Pack, Ones8;
    PairsCount(Pack(b0, b1, b2, b3));
    FoldCounts(b0, b1, b2, b3);
  }

  // Named sums, so that proofs about many words need not look inside the bit vectors.

  function Plus8(x: bv8, y: bv8): bv8 {
    x + y
  }

  function Plus(v: bv32, w: bv32): bv32 {
    v + w
  }

  predicate AtMost(x: bv8, limit: bv8) {
    x <= limit
  }

  /** Collects the sum of the bytes in the top byte. */
  function Top(w: bv32): bv32 {
    (w * 0x01010101) >> 24
  }

  lemma ValPlus(x: bv8, y: bv8, limit: bv8)
    requires AtMost(x, limit) && AtMost(y, limit) && limit <= 127
    ensures Val(Plus8(x, y)) == Val(x) + Val(y)
  {
    ValAdds(x, y);
  }

  /** Bytes of at most 48 and 8 add up without a carry. */
  lemma LanesAdd(x0: bv8, x1: bv8, x2: bv8, x3: bv8, y0: bv8, y1: bv8, y2: bv8, y3: bv8)
    requires AtMost(x0, 48) && AtMost(x1, 48) && AtMost(x2, 48) && AtMost(x3, 48)
    requires AtMost(y0, 8) && AtMost(y1, 8) && AtMost(y2, 8) && AtMost(y3, 8)
    ensures Plus(Pack(x0, x1, x2, x3), Pack(y0, y1, y2, y3))
            == Pack(Plus8(x0, y0), Plus8(x1, y1), Plus8(x2, y2), Plus8(x3, y3))
  {
  }

  function TopShifted(w: bv32): bv32 {
    (w + (w << 16)) >> 24
  }

  /** `v` is `w` added to itself one byte higher. */
  predicate Doubled(w: bv32, v: bv32) {
    w + (w << 8) == v
  }

  lemma FirstShift(x0: bv8, x1: bv8, x2: bv8, x3: bv8)
    requires AtMost(x0, 56) && AtMost(x1, 56) && AtMost(x2, 56) && AtMost(x3, 56)
    ensures Doubled(Pack(x0, x1, x2, x3), Pack(x0, Plus8(x1, x0), Plus8(x2, x1), Plus8(x3, x2)))
    ensures AtMost(Plus8(x1, x0), 112) && AtMost(Plus8(x2, x1), 112) && AtMost(Plus8(x3, x2), 112)
  {
  }

  lemma SecondShift(x0: bv8, x1: bv8, x2: bv8, x3: bv8)
    requires AtMost(x0, 56) && AtMost(x1, 112) && AtMost(x2, 112) && AtMost(x3, 112)
    ensures TopShifted(Pack(x0, x1, x2, x3)) == Plus8(x3, x1) as bv32
  {
  }

  lemma TopIsShifts(w: bv32)
    ensures Top(w) == TopShifted(w + (w << 8))
  {
  }

  lemma TopOfPack(w: bv32, x0: bv8, x1: bv8, x2: bv8, x3: bv8)
    requires Doubled(w, Pack(x0, x1, x2, x3))
    requires AtMost(x0, 56) && AtMost(x1, 112) && AtMost(x2, 112) && AtMost(x3, 112)
    ensures Top(w) == Plus8(x3, x1) as bv32
  {
    hide Pack, Top, Plus8, AtMost, TopShifted;
    TopIsShifts(w);
    SecondShift(x0, x1, x2, x3);
  }

  lemma Widen(x: bv8)
    ensures (x as bv32) as nat == Val(x)
  {
  }

  /** Four bytes of at most 56 add up to less than 256: the multiplication loses nothing. */
  lemma TopIsSum(x0: bv8, x1: bv8, x2: bv8, x3: bv8)
    requires AtMost(x0, 56) && AtMost(x1, 56) && AtMost(x2, 56) && AtMost(x3, 56)
    ensures Top(Pack(x0, x1, x2, x3)) as nat == Val(x0) + Val(x1) + Val(x2) + Val(x3)
  {
    hide Pack, Top, Plus8, AtMost, Val, Doubled;
    FirstShift(x0, x1, x2, x3);
    TopOfPack(Pack(x0, x1, x2, x3), x0, Plus8(x1, x0), Plus8(x2, x1), Plus8(x3, x2));
    ValPlus(x1, x0, 56);
    ValPlus(x3, x2, 56);
    ValPlus(Plus8(x3, x2), Plus8(x1, x0), 112);
    Widen(Plus8(Plus8(x3, x2), Plus8(x1, x0)));
  }

  // ---------------------------------------------------------------- seven words

  /** The counts of `k` words added up, bytewise. */
  function SumLanes(s: seq<bv8>, k: nat): bv32
    requires k <= 7 && 4 * k <= |s|
  {
    if k == 0 then 0 else Plus(SumLanes(s, k - 1), Lanes(Load(s, 4 * (k - 1))))
  }

  /** The bit count of every fourth of 4 * k bytes, from `lane` on. */
  function Total(s: seq<bv8>, lane: nat, k: nat): (x: bv8)
    requires k <= 7 && lane < 4 && 4 * k <= |s|
  {
    if k == 0 then 0 else Plus8(Total(s, lane, k - 1), Ones8(s[4 * (k - 1) + lane]))
  }

  function Limit(k: nat): bv8
    requires k <= 7
  {
    match k case 0 => 0 case 1 => 8 case 2 => 16 case 3 => 24 case 4 => 32 case 5 => 40 case 6 => 48 case _ => 56
  }

  lemma LimitGrows(k: nat, x: bv8, y: bv8)
    requires 0 < k <= 7 && AtMost(x, Limit(k - 1)) && AtMost(y, 8)
    ensures AtMost(x, 48) && AtMost(y, 48) && AtMost(Plus8(x, y), Limit(k))
  {
  }

  lemma OnesFit(b: bv8)
    ensures AtMost(Ones8(b), 8)
  {
  }

  lemma {:induction false} TotalBound(s: seq<bv8>, lane: nat, k: nat)
    requires k <= 7 && lane < 4 && 4 * k <= |s|
    ensures AtMost(Total(s, lane, k), Limit(k))
    ensures k > 0 ==> AtMost(Total(s, lane, k - 1), 48) && AtMost(Ones8(s[4 * (k - 1) + lane]), 8)
    ensures k > 0 ==> Val(Total(s, lane, k)) == Val(Total(s, lane, k - 1)) + Ones(s[4 * (k - 1) + lane])
  {
    if k > 0 {
      hide Ones8, Ones, Val, Limit, AtMost, Plus8;
      var x, y := Total(s, lane, k - 1), Ones8(s[4 * (k - 1) + lane]);
      TotalBound(s, lane, k - 1);
      OnesFit(s[4 * (k - 1) + lane]);
      LimitGrows(k, x, y);
      ValPlus(x, y, 48);
      Ones8IsOnes(s[4 * (k - 1) + lane]);
    }
  }

  lemma NoWords(s: seq<bv8>)
    ensures Total(s, 0, 0) == Total(s, 1, 0) == Total(s, 2, 0) == Total(s, 3, 0) == 0
    ensures SumLanes(s, 0) == Pack(0, 0, 0, 0) && Val(0) == 0 && CountBits(s[..0]) == 0
  {
  }

  lemma {:induction false} SumLanesIsTotals(s: seq<bv8>, k: nat)
    requires k <= 7 && 4 * k <= |s|
    ensures SumLanes(s, k) == Pack(Total(s, 0, k), Total(s, 1, k), Total(s, 2, k), Total(s, 3, k))
  {
    hide Pack, Ones8, Lanes, Val, Limit, AtMost, Plus8, Plus;
    if k == 0 {
      NoWords(s);
    } else {
      var p := 4 * (k - 1);
      SumLanesIsTotals(s, k - 1);
      TotalBound(s, 0, k);
      TotalBound(s, 1, k);
      TotalBound(s, 2, k);
      TotalBound(s, 3, k);
      LanesCount(s[p], s[p + 1], s[p + 2], s[p + 3]);
      LanesAdd(Total(s, 0, k - 1), Total(s, 1, k - 1), Total(s, 2, k - 1), Total(s, 3, k - 1),
               Ones8(s[p]), Ones8(s[p + 1]), Ones8(s[p + 2]), Ones8(s[p + 3]));
    }
  }

  lemma {:induction false} TotalsCount(s: seq<bv8>, k: nat)
    requires k <= 7 && 4 * k <= |s|
    ensures CountBits(s[..4 * k])
            == Val(Total(s, 0, k)) + Val(Total(s, 1, k)) + Val(Total(s, 2, k)) + Val(Total(s, 3, k))
  {
    hide Val, Ones8, Ones, Plus8, AtMost, Limit, CountBits, Total;
    if k == 0 {
      NoWords(s);
    } else {
      var p := 4 * (k - 1);
      TotalsCount(s, k - 1);
      TotalBound(s, 0, k);
      TotalBound(s, 1, k);
      TotalBound(s, 2, k);
      TotalBound(s, 3, k);
      CountOneMore(s, p);
      CountOneMore(s, p + 1);
      CountOneMore(s, p + 2);
      CountOneMore(s, p + 3);
    }
  }

  /** Seven words at a time: no byte exceeds 56 and their sum not 224, so nothing is lost. */
  lemma SevenWords(s: seq<bv8>)
    requires |s| == 28
    ensures Top(SumLanes(s, 7)) as nat == CountBits(s)
  {
    hide Pack, Val, SumLanes, Total, Top, AtMost;
    assert Limit(7) == 56;
    TotalBound(s, 0, 7);
    TotalBound(s, 1, 7);
    TotalBound(s, 2, 7);
    TotalBound(s, 3, 7);
    SumLanesIsTotals(s, 7);
    TopIsSum(Total(s, 0, 7), Total(s, 1, 7), Total(s, 2, 7), Total(s, 3, 7));
    TotalsCount(s, 7);
    assert s[..28] == s;
  }

  // ---------------------------------------------------------------- redisPopcount

  method RedisPopcount(s: seq<bv8>, addr: nat) returns (bits: nat)
    ensures bits == CountBits(s)
  {
    hide Ones, BitsInByte;
    bits := 0;
    var p: nat, count: nat := 0, |s|;
    while (addr + p) % 4 != 0 && count != 0
      invariant p + count == |s| && bits == CountBits(s[..p])
      decreases count
    {
      CountOneMore(s, p);
      bits, p, count := bits + BitsInByte(s[p]), p + 1, count - 1;
    }
    while count >= 28
      invariant p + count == |s| && bits == CountBits(s[..p])
    {
      var n := PopcountWords(s[p..p + 28]);
      CountBitsSplit(s[..p], s[p..p + 28]);
      assert s[..p] + s[p..p + 28] == s[..p + 28];
      bits, p, count := bits + n, p + 28, count - 28;
    }
    while count != 0
      invariant p + count == |s| && bits == CountBits(s[..p])
    {
      CountOneMore(s, p);
      bits, p, count := bits + BitsInByte(s[p]), p + 1, count - 1;
    }
    assert s[..p] == s;
  }

  /** The body of the main loop, on the seven words it loads. */
  method PopcountWords(s: seq<bv8>) returns (n: nat)
    requires |s| == 28
    ensures n == CountBits(s)
  {
    var aux1, aux2, aux3, aux4 := Load(s, 0), Load(s, 4), Load(s, 8), Load(s, 12);
    var aux5, aux6, aux7 := Load(s, 16), Load(s, 20), Load(s, 24);
    hide Load, Lanes, SumLanes, CountBits, Plus, Top;
    SevenWords(s);
    SumLanesUnfolded(s);
    var sum := Plus(Lanes(aux1), Lanes(aux2));
    sum := Plus(Plus(Plus(Plus(Plus(sum, Lanes(aux3)), Lanes(aux4)), Lanes(aux5)), Lanes(aux6)), Lanes(aux7));
    n := Top(sum) as nat;
  }

  lemma SumLanesUnfolded(s: seq<bv8>)
    requires |s| == 28
    ensures SumLanes(s, 2) == Plus(Lanes(Load(s, 0)), Lanes(Load(s, 4)))
    ensures SumLanes(s, 7) == Plus(Plus(Plus(Plus(Plus(SumLanes(s, 2), Lanes(Load(s, 8))), Lanes(Load(s, 12))),
                                             Lanes(Load(s, 16))), Lanes(Load(s, 20))), Lanes(Load(s, 24)))
  {
    hide Load, Lanes, Plus;
    PlusZero(Lanes(Load(s, 0)));
    assert SumLanes(s, 1) == Plus(0, Lanes(Load(s, 0)));
    assert SumLanes(s, 2) == Plus(SumLanes(s, 1), Lanes(Load(s, 4)));
    assert SumLanes(s, 3) == Plus(SumLanes(s, 2), Lanes(Load(s, 8)));
    assert SumLanes(s, 4) == Plus(SumLanes(s, 3), Lanes(Load(s, 12)));
    assert SumLanes(s, 5) == Plus(SumLanes(s, 4), Lanes(Load(s, 16)));
    assert SumLanes(s, 6) == Plus(SumLanes(s, 5), Lanes(Load(s, 20)));
  }

  lemma PlusZero(v: bv32)
    ensures Plus(0, v) == v
  {
  }
}
