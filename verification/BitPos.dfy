/** The position of the first bit of a given value: whole words are skipped, and the last one is scanned
    with a moving mask. Bits are numbered from the most significant one of the first byte. */
module BitPos {
  import opened Basics

  // ---------------------------------------------------------------- what is sought

  /** Bit `m` of a byte, counted from the most significant one. */
  predicate ByteBit(b: bv8, m: nat)
    requires m < 8
  {
    Has(b, 7 - m)
  }

  function ByteAt(s: seq<bv8>, i: nat): bv8 {
    if i < |s| then s[i] else 0
  }

  /** Bit `k` of the string, which has zeros behind its end. */
  predicate BitAt(s: seq<bv8>, k: nat) {
    ByteBit(ByteAt(s, k / 8), k % 8)
  }

  /** The first bit is the most significant one of the first byte. */
  lemma BitOrder(k: nat)
    ensures BitAt([128, 1], k) <==> k == 0 || k == 15
  {
    if k < 16 {
      OneBit(7, 7 - k % 8);
      OneBit(0, 7 - k % 8);
    } else {
      OneBit(0, 7 - k % 8);
    }
  }

  lemma OneBit(i: nat, j: nat)
    requires i < 8 && j < 8
    ensures (Has(Mask(i), j) <==> i == j) && !Has(0, j) && Mask(7) == 128 && Mask(0) == 1
  {
  }

  /** `pos` is the least position holding `bit`. */
  ghost predicate IsFirst(s: seq<bv8>, bit: bool, pos: nat) {
    BitAt(s, pos) == bit && forall k: nat :: k < pos ==> BitAt(s, k) != bit
  }

  ghost predicate NoneBefore(s: seq<bv8>, bit: bool, pos: nat) {
    forall k: nat :: k < pos ==> BitAt(s, k) != bit
  }

  /** 0 or UCHAR_MAX */
  function SkipByte(bit: bool): bv8 {
    if bit then 0 else 255
  }

  lemma SkippedByte(b: bv8, bit: bool, m: nat)
    requires m < 8 && b == SkipByte(bit)
    ensures ByteBit(b, m) != bit
  {
  }

  lemma SkipOne(s: seq<bv8>, bit: bool, c: nat)
    requires c < |s| && s[c] == SkipByte(bit) && NoneBefore(s, bit, 8 * c)
    ensures NoneBefore(s, bit, 8 * (c + 1))
  {
  }

  // ---------------------------------------------------------------- words

  /** word = word << 8 | byte */
  function Push(w: bv64, b: bv8): bv64 {
    (w << 8) | (b as bv64)
  }

  /** Eight bytes, the first one most significant. */
  function Concat(b0: bv8, b1: bv8, b2: bv8, b3: bv8, b4: bv8, b5: bv8, b6: bv8, b7: bv8): bv64 {
    ((b0 as bv64) << 56) | ((b1 as bv64) << 48) | ((b2 as bv64) << 40) | ((b3 as bv64) << 32)
    | ((b4 as bv64) << 24) | ((b5 as bv64) << 16) | ((b6 as bv64) << 8) | (b7 as bv64)
  }

  lemma PushEight(b0: bv8, b1: bv8, b2: bv8, b3: bv8, b4: bv8, b5: bv8, b6: bv8, b7: bv8)
    ensures Push(Push(Push(Push(Push(Push(Push(Push(0, b0), b1), b2), b3), b4), b5), b6), b7)
            == Concat(b0, b1, b2, b3, b4, b5, b6, b7)
  {
  }

  /** The unsigned long at position `c` of a little-endian machine. */
  function LoadWord(s: seq<bv8>, c: nat): bv64
    requires c + 8 <= |s|
  {
    Concat(s[c + 7], s[c + 6], s[c + 5], s[c + 4], s[c + 3], s[c + 2], s[c + 1], s[c])
  }

  /** 0 or ULONG_MAX */
  function SkipWord(bit: bool): bv64 {
    if bit then 0 else 0xFFFF_FFFF_FFFF_FFFF
  }

  lemma SkippedWord(b0: bv8, b1: bv8, b2: bv8, b3: bv8, b4: bv8, b5: bv8, b6: bv8, b7: bv8, bit: bool)
    ensures Concat(b0, b1, b2, b3, b4, b5, b6, b7) == SkipWord(bit) <==>
              b0 == b1 == b2 == b3 == b4 == b5 == b6 == b7 == SkipByte(bit)
  {
  }

  lemma SkipEight(s: seq<bv8>, bit: bool, c: nat)
    requires c + 8 <= |s| && LoadWord(s, c) == SkipWord(bit) && NoneBefore(s, bit, 8 * c)
    ensures NoneBefore(s, bit, 8 * (c + 8))
  {
  }

  // ---------------------------------------------------------------- the mask

  const MSB: bv64 := 0x8000_0000_0000_0000

  /** one >>= 1 */
  function Halve(mask: bv64): bv64 {
    mask >> 1
  }

  /** The mask after `k` rounds. */
  function MaskAt(k: nat): bv64 {
    if k == 0 then MSB else Halve(MaskAt(k - 1))
  }

  function ShiftBits(w: bv64, k: nat): bv64
    decreases k
  {
    if k == 0 then w else ShiftBits(w << 1, k - 1)
  }

  function ShiftBytes(w: bv64, i: nat): bv64
    decreases i
  {
    if i == 0 then w else ShiftBytes(w << 8, i - 1)
  }

  function TopByte(w: bv64): bv8 {
    (w >> 56) as bv8
  }

  predicate Meets(mask: bv64, w: bv64) {
    mask & w != 0
  }

  lemma MoveTheWord(mask: bv64, w: bv64)
    ensures Meets(Halve(mask), w) == Meets(mask, w << 1)
  {
  }

  lemma {:induction false} MaskIsShift(k: nat, w: bv64)
    ensures Meets(MaskAt(k), w) == Meets(MSB, ShiftBits(w, k))
    decreases k
  {
    hide Meets, Halve;
    if k > 0 {
      MoveTheWord(MaskAt(k - 1), w);
      MaskIsShift(k - 1, w << 1);
    }
  }

  lemma FirstBit(w: bv64)
    ensures Meets(MSB, w) == ByteBit(TopByte(w), 0)
  {
  }

  lemma NextBit(w: bv64, m: nat)
    requires 0 < m < 8
    ensures ByteBit(TopByte(w << 1), m - 1) == ByteBit(TopByte(w), m)
  {
  }

  lemma {:induction false} TopBits(w: bv64, m: nat)
    requires m < 8
    ensures Meets(MSB, ShiftBits(w, m)) == ByteBit(TopByte(w), m)
    decreases m
  {
    hide Meets, ByteBit, TopByte;
    if m == 0 {
      FirstBit(w);
    } else {
      TopBits(w << 1, m - 1);
      NextBit(w, m);
    }
  }

  lemma {:induction false} ShiftAgain(w: bv64, k: nat, n: nat)
    ensures ShiftBits(w, n + k) == ShiftBits(ShiftBits(w, n), k)
    decreases n
  {
    if n > 0 {
      ShiftAgain(w << 1, k, n - 1);
    }
  }

  lemma EightShifts(w: bv64)
    ensures ShiftBits(w, 8) == w << 8
  {
  }

  /** Bit 8 * i + m of a word, counted from the top, is bit m of its byte i. */
  lemma {:induction false} WordBits(w: bv64, i: nat, m: nat)
    requires m < 8
    ensures Meets(MSB, ShiftBits(w, 8 * i + m)) == ByteBit(TopByte(ShiftBytes(w, i)), m)
    decreases i
  {
    hide Meets, ByteBit, TopByte;
    if i == 0 {
      TopBits(w, m);
    } else {
      ShiftAgain(w, 8 * (i - 1) + m, 8);
      EightShifts(w);
      WordBits(w << 8, i - 1, m);
    }
  }

  /** The bytes of a word that was put together from eight. */
  function Pick(i: nat, b0: bv8, b1: bv8, b2: bv8, b3: bv8, b4: bv8, b5: bv8, b6: bv8, b7: bv8): bv8
    requires i < 8
  {
    match i
    case 0 => b0 case 1 => b1 case 2 => b2 case 3 => b3 case 4 => b4 case 5 => b5 case 6 => b6 case _ => b7
  }

  lemma ConcatShift(b0: bv8, b1: bv8, b2: bv8, b3: bv8, b4: bv8, b5: bv8, b6: bv8, b7: bv8)
    ensures Concat(b0, b1, b2, b3, b4, b5, b6, b7) << 8 == Concat(b1, b2, b3, b4, b5, b6, b7, 0)
  {
  }

  lemma ConcatTop(b0: bv8, b1: bv8, b2: bv8, b3: bv8, b4: bv8, b5: bv8, b6: bv8, b7: bv8)
    ensures TopByte(Concat(b0, b1, b2, b3, b4, b5, b6, b7)) == b0
  {
  }

  lemma {:induction false} ConcatBytes(i: nat, b0: bv8, b1: bv8, b2: bv8, b3: bv8, b4: bv8, b5: bv8, b6: bv8, b7: bv8)
    requires i < 8
    ensures TopByte(ShiftBytes(Concat(b0, b1, b2, b3, b4, b5, b6, b7), i)) == Pick(i, b0, b1, b2, b3, b4, b5, b6, b7)
    decreases i
  {
    hide Concat, TopByte;
    ConcatTop(b0, b1, b2, b3, b4, b5, b6, b7);
    ConcatShift(b0, b1, b2, b3, b4, b5, b6, b7);
    if i > 0 {
      ConcatBytes(i - 1, b1, b2, b3, b4, b5, b6, b7, 0);
    }
  }

  /** Bit `k` of such a word, as the mask of round `k` sees it. */
  lemma MaskSees(k: nat, b0: bv8, b1: bv8, b2: bv8, b3: bv8, b4: bv8, b5: bv8, b6: bv8, b7: bv8)
    requires k < 64
    ensures Meets(MaskAt(k), Concat(b0, b1, b2, b3, b4, b5, b6, b7))
            == ByteBit(Pick(k / 8, b0, b1, b2, b3, b4, b5, b6, b7), k % 8)
  {
    hide Concat, Meets, ByteBit, TopByte, Pick, MaskAt;
    var w := Concat(b0, b1, b2, b3, b4, b5, b6, b7);
    MaskIsShift(k, w);
    WordBits(w, k / 8, k % 8);
    ConcatBytes(k / 8, b0, b1, b2, b3, b4, b5, b6, b7);
  }

  lemma AllOnes()
    ensures Concat(255, 255, 255, 255, 255, 255, 255, 255) == SkipWord(false)
  {
  }

  lemma NoMask(mask: bv64)
    ensures Meets(mask, SkipWord(false)) <==> mask != 0
  {
  }

  lemma NothingLeft()
    ensures ShiftBits(SkipWord(false), 64) == 0
  {
    var w := SkipWord(false);
    ShiftAgain(w, 56, 8);
    EightShifts(w);
    ShiftAgain(w << 8, 48, 8);
    EightShifts(w << 8);
    ShiftAgain(w << 16, 40, 8);
    EightShifts(w << 16);
    ShiftAgain(w << 24, 32, 8);
    EightShifts(w << 24);
    ShiftAgain(w << 32, 24, 8);
    EightShifts(w << 32);
    ShiftAgain(w << 40, 16, 8);
    EightShifts(w << 40);
    ShiftAgain(w << 48, 8, 8);
    EightShifts(w << 48);
    EightShifts(w << 56);
  }

  /** The mask has left the word after exactly 64 rounds. */
  lemma MaskLasts(k: nat)
    requires k <= 64
    ensures MaskAt(k) != 0 <==> k < 64
  {
    hide Meets, MaskAt;
    NoMask(MaskAt(k));
    if k < 64 {
      AllOnes();
      MaskSees(k, 255, 255, 255, 255, 255, 255, 255, 255);
      SkippedByte(255, false, k % 8);
    } else {
      MaskIsShift(k, SkipWord(false));
      NothingLeft();
      NoMask(MSB);
      assert !Meets(MSB, 0) by {
        MeetsNothing(MSB);
      }
    }
  }

  lemma MeetsNothing(mask: bv64)
    ensures !Meets(mask, 0)
  {
  }

  // ---------------------------------------------------------------- the last word

  /** The eight bytes from `c` on, with zeros behind the end. */
  function LastWord(s: seq<bv8>, c: nat): bv64 {
    Concat(ByteAt(s, c), ByteAt(s, c + 1), ByteAt(s, c + 2), ByteAt(s, c + 3),
           ByteAt(s, c + 4), ByteAt(s, c + 5), ByteAt(s, c + 6), ByteAt(s, c + 7))
  }

  lemma LastWordBit(s: seq<bv8>, c: nat, k: nat)
    requires k < 64
    ensures Meets(MaskAt(k), LastWord(s, c)) == BitAt(s, 8 * c + k)
  {
    hide Concat, Meets, ByteBit, MaskAt, ByteAt;
    MaskSees(k, ByteAt(s, c), ByteAt(s, c + 1), ByteAt(s, c + 2), ByteAt(s, c + 3),
             ByteAt(s, c + 4), ByteAt(s, c + 5), ByteAt(s, c + 6), ByteAt(s, c + 7));
    assert (8 * c + k) / 8 == c + k / 8 && (8 * c + k) % 8 == k % 8;
  }

  lemma ByteOfSkipped(b: bv8, bit: bool)
    requires forall m: nat :: m < 8 ==> ByteBit(b, m) != bit
    ensures b == SkipByte(bit)
  {
    assert ByteBit(b, 0) != bit && ByteBit(b, 1) != bit && ByteBit(b, 2) != bit && ByteBit(b, 3) != bit;
    assert ByteBit(b, 4) != bit && ByteBit(b, 5) != bit && ByteBit(b, 6) != bit && ByteBit(b, 7) != bit;
  }

  lemma ByteSkipped(s: seq<bv8>, bit: bool, c: nat, limit: nat)
    requires NoneBefore(s, bit, limit) && 8 * (c + 1) <= limit
    ensures ByteAt(s, c) == SkipByte(bit)
  {
    hide ByteAt, ByteBit, SkipByte;
    forall m: nat | m < 8 ensures ByteBit(ByteAt(s, c), m) != bit {
      assert BitAt(s, 8 * c + m) != bit;
    }
    ByteOfSkipped(ByteAt(s, c), bit);
  }

  /** When none of its 64 bits is the wanted one, the last word is all zeros or all ones. */
  lemma WordSkipped(s: seq<bv8>, bit: bool, c: nat)
    requires NoneBefore(s, bit, 8 * c + 64)
    ensures ByteAt(s, c) == ByteAt(s, c + 7) == SkipByte(bit)
    ensures LastWord(s, c) == SkipWord(bit)
    ensures c + 8 <= |s| ==> LoadWord(s, c) == SkipWord(bit)
  {
    hide NoneBefore, SkipByte, SkipWord, Concat;
    ByteSkipped(s, bit, c, 8 * c + 64);
    ByteSkipped(s, bit, c + 1, 8 * c + 64);
    ByteSkipped(s, bit, c + 2, 8 * c + 64);
    ByteSkipped(s, bit, c + 3, 8 * c + 64);
    ByteSkipped(s, bit, c + 4, 8 * c + 64);
    ByteSkipped(s, bit, c + 5, 8 * c + 64);
    ByteSkipped(s, bit, c + 6, 8 * c + 64);
    ByteSkipped(s, bit, c + 7, 8 * c + 64);
    SkippedWord(ByteAt(s, c), ByteAt(s, c + 1), ByteAt(s, c + 2), ByteAt(s, c + 3),
                ByteAt(s, c + 4), ByteAt(s, c + 5), ByteAt(s, c + 6), ByteAt(s, c + 7), bit);
    SkippedWord(ByteAt(s, c + 7), ByteAt(s, c + 6), ByteAt(s, c + 5), ByteAt(s, c + 4),
                ByteAt(s, c + 3), ByteAt(s, c + 2), ByteAt(s, c + 1), ByteAt(s, c), bit);
  }

  /** Where the word loop stops, the last word holds the wanted bit unless it is a one and the word is zero. */
  lemma LastWordHas(s: seq<bv8>, bit: bool, c: nat)
    requires c + 8 <= |s| ==> LoadWord(s, c) != SkipWord(bit)
    requires bit ==> LastWord(s, c) != 0
    ensures !NoneBefore(s, bit, 8 * c + 64)
  {
    hide LoadWord, LastWord;
    if NoneBefore(s, bit, 8 * c + 64) {
      WordSkipped(s, bit, c);
      assert false;
    }
  }

  /** A zero last word behind skipped zeros means that there is no one at all. */
  lemma NoOneAnywhere(s: seq<bv8>, c: nat)
    requires NoneBefore(s, true, 8 * c) && LastWord(s, c) == 0
    requires c + 8 <= |s| ==> LoadWord(s, c) != SkipWord(true)
    ensures forall k: nat :: !BitAt(s, k)
  {
  }

  // ---------------------------------------------------------------- redisBitpos

  /** The first `j` of those bytes. */
  function Loaded(s: seq<bv8>, c: nat, j: nat): bv64 {
    if j == 0 then 0 else Push(Loaded(s, c, j - 1), ByteAt(s, c + j - 1))
  }

  lemma LoadedEight(s: seq<bv8>, c: nat)
    ensures Loaded(s, c, 8) == LastWord(s, c)
  {
    hide Push, Concat, ByteAt;
    assert Loaded(s, c, 1) == Push(Loaded(s, c, 0), ByteAt(s, c));
    assert Loaded(s, c, 3) == Push(Push(Loaded(s, c, 1), ByteAt(s, c + 1)), ByteAt(s, c + 2));
    assert Loaded(s, c, 5) == Push(Push(Loaded(s, c, 3), ByteAt(s, c + 3)), ByteAt(s, c + 4));
    assert Loaded(s, c, 7) == Push(Push(Loaded(s, c, 5), ByteAt(s, c + 5)), ByteAt(s, c + 6));
    PushEight(ByteAt(s, c), ByteAt(s, c + 1), ByteAt(s, c + 2), ByteAt(s, c + 3),
              ByteAt(s, c + 4), ByteAt(s, c + 5), ByteAt(s, c + 6), ByteAt(s, c + 7));
  }

  /** The loading loop: the word grows from the right, zeros standing for missing bytes. */
  method LoadLastWord(s: seq<bv8>, start: nat) returns (word: bv64)
    requires start <= |s|
    ensures word == LastWord(s, start)
  {
    hide Push, LastWord;
    var c, count: nat := start, |s| - start;
    word := 0;
    for j := 0 to 8
      invariant c + count == |s| && c == (if start + j <= |s| then start + j else |s|)
      invariant word == Loaded(s, start, j)
    {
      PushIs(word, ByteAt(s, start + j));
      word := word << 8;
      if count != 0 {
        word := word | (s[c] as bv64);
        c, count := c + 1, count - 1;
      }
    }
    LoadedEight(s, start);
  }

  lemma PushIs(w: bv64, b: bv8)
    ensures Push(w, b) == (w << 8) | (b as bv64) && Push(w, 0) == w << 8
  {
  }

  method RedisBitpos(s: seq<bv8>, addr: nat, bit: bool) returns (pos: int)
    ensures pos >= 0 ==> IsFirst(s, bit, pos) && pos <= 8 * |s|
    ensures pos < 0 ==> pos == -1 && bit && forall k: nat :: !BitAt(s, k)
  {
    hide ByteBit, ByteAt, LoadWord, LastWord, MaskAt, Concat;
    var c: nat, count: nat := 0, |s|;
    pos := 0;
    while (addr + c) % 8 != 0 && count != 0
      invariant c + count == |s| && pos == 8 * c && NoneBefore(s, bit, 8 * c)
      decreases count
    {
      if s[c] != SkipByte(bit) {
        break;
      }
      SkipOne(s, bit, c);
      c, count, pos := c + 1, count - 1, pos + 8;
    }
    while count >= 8
      invariant c + count == |s| && pos == 8 * c && NoneBefore(s, bit, 8 * c)
    {
      if LoadWord(s, c) != SkipWord(bit) {
        break;
      }
      SkipEight(s, bit, c);
      c, count, pos := c + 8, count - 8, pos + 64;
    }
    var word := LoadLastWord(s, c);
    if bit && word == 0 {
      NoOneAnywhere(s, c);
      return -1;
    }
    LastWordHas(s, bit, c);
    pos := ScanWord(s, c, word, bit);
    FirstIsNear(s, bit, pos);
  }

  lemma FirstIsNear(s: seq<bv8>, bit: bool, pos: nat)
    requires IsFirst(s, bit, pos)
    ensures pos <= 8 * |s|
  {
    SkippedByte(0, true, pos % 8);
    SkippedByte(0, true, 0);
    assert !BitAt(s, 8 * |s|);
  }

  /** The last loop. The panic behind it is never reached. */
  method ScanWord(s: seq<bv8>, c: nat, word: bv64, bit: bool) returns (pos: nat)
    requires word == LastWord(s, c) && NoneBefore(s, bit, 8 * c) && !NoneBefore(s, bit, 8 * c + 64)
    ensures IsFirst(s, bit, pos)
  {
    hide BitAt, LastWord, MaskAt, ByteBit, Meets, NoneBefore, IsFirst, Halve;
    var one := MSB;
    pos := 8 * c;
    assert one == MaskAt(0) by {
      MaskStarts(0);
    }
    while one != 0
      invariant 8 * c <= pos <= 8 * c + 64 && one == MaskAt(pos - 8 * c) && NoneBefore(s, bit, pos)
      decreases 8 * c + 64 - pos
    {
      MaskLasts(pos - 8 * c);
      LastWordBit(s, c, pos - 8 * c);
      if Meets(one, word) == bit {
        FirstHere(s, bit, pos);
        return;
      }
      NotHere(s, bit, pos);
      MaskStarts(pos - 8 * c);
      pos := pos + 1;
      one := Halve(one);
    }
    MaskLasts(pos - 8 * c);
    assert false;
  }

  lemma FirstHere(s: seq<bv8>, bit: bool, pos: nat)
    requires NoneBefore(s, bit, pos) && BitAt(s, pos) == bit
    ensures IsFirst(s, bit, pos)
  {
  }

  lemma NotHere(s: seq<bv8>, bit: bool, pos: nat)
    requires NoneBefore(s, bit, pos) && BitAt(s, pos) != bit
    ensures NoneBefore(s, bit, pos + 1)
  {
  }

  lemma MaskStarts(k: nat)
    ensures MaskAt(0) == MSB && MaskAt(k + 1) == Halve(MaskAt(k))
  {
  }
}
