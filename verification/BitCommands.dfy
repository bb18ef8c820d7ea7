/** The ranges of BITCOUNT and BITPOS: negative indexes count from the end, and what lies outside is cut off. */
module BitCommands {
  import opened Basics
  import opened BitCount
  import opened BitPos

  datatype Range = Whole | From(start: int) | Between(start: int, end: int)

  function Resolve(index: int, length: nat): int {
    if index < 0 then length + index else index
  }

  /** The first byte of the range. */
  function Low(range: Range, length: nat): (lo: nat) {
    if range.Whole? || Resolve(range.start, length) < 0 then 0 else Resolve(range.start, length)
  }

  /** The last byte of the range, less than Low() when the range is empty. */
  function High(range: Range, length: nat): (hi: int)
    ensures -1 <= hi < length
  {
    if !range.Between? then length - 1
    else
      var end := Resolve(range.end, length);
      if end < 0 then (if length == 0 then -1 else 0) else if end >= length then length - 1 else end
  }

  // ---------------------------------------------------------------- the same without positions

  /** Byte `k` of `length` is not before the start. The last byte has the index -1 as well. */
  predicate FromStart(k: nat, start: int, length: int) {
    if start < 0 then start <= k - length else start <= k
  }

  predicate ToEnd(k: nat, end: int, length: int) {
    if end < 0 then k - length <= end else k <= end
  }

  /** The bytes of a range. An end before the first byte stands for the first byte. */
  predicate InRange(k: nat, range: Range, length: int) {
    match range
    case Whole => true
    case From(start) => FromStart(k, start, length)
    case Between(start, end) =>
      FromStart(k, start, length) && (ToEnd(k, end, length) || (end < -length && k == 0))
  }

  lemma InRangeIsBetween(k: nat, range: Range, length: nat)
    requires k < length
    ensures Low(range, length) <= k <= High(range, length) <==> InRange(k, range, length)
  {
  }

  // ---------------------------------------------------------------- BITCOUNT

  /** The bits set in the bytes from `lo` to `hi`. */
  function CountBetween(s: seq<bv8>, lo: int, hi: int): nat {
    if 0 <= lo <= hi < |s| then CountBits(s[lo..hi + 1]) else 0
  }

  /** The conversion of the indexes. */
  method Clamp(range: Range, length: nat) returns (start: nat, end: int)
    ensures start == Low(range, length) && end == High(range, length)
  {
    var first, last := 0, length - 1;
    if !range.Whole? {
      first := range.start;
      if range.Between? {
        last := range.end;
      }
      if first < 0 {
        first := length + first;
      }
      if last < 0 {
        last := length + last;
      }
      if first < 0 {
        first := 0;
      }
      if last < 0 {
        last := 0;
      }
      if last >= length {
        last := length - 1;
      }
    }
    start, end := first, last;
  }

  /** BITCOUNT on a string; a missing key counts as the empty string. */
  method BitcountCommand(s: seq<bv8>, range: Range, addr: nat) returns (n: nat)
    requires !range.From?
    ensures n == CountBetween(s, Low(range, |s|), High(range, |s|))
    ensures n == CountIf(s, (k: nat) => InRange(k, range, |s|))
  {
    CountIsInRange(s, range);
    var start, end := Clamp(range, |s|);
    if start > end {
      return 0;
    }
    n := RedisPopcount(s[start..end + 1], addr + start);
  }

  /** The bits set in the bytes whose position is as wanted. */
  function CountIf(s: seq<bv8>, wanted: nat -> bool): nat {
    if s == [] then 0
    else CountIf(s[..|s| - 1], wanted) + if wanted(|s| - 1) then Ones(s[|s| - 1]) else 0
  }

  lemma {:induction false} SameCount(s: seq<bv8>, p: nat -> bool, q: nat -> bool)
    requires forall k: nat :: k < |s| ==> p(k) == q(k)
    ensures CountIf(s, p) == CountIf(s, q)
  {
    hide Ones;
    if s != [] {
      SameCount(s[..|s| - 1], p, q);
    }
  }

  lemma LastByteCounts(s: seq<bv8>, lo: nat)
    requires lo < |s|
    ensures CountBetween(s, lo, |s| - 1) == CountBetween(s[..|s| - 1], lo, |s| - 2) + Ones(s[|s| - 1])
  {
    var t, u := s[..|s| - 1], s[lo..|s|];
    assert u[..|u| - 1] == t[lo..];
    assert t[lo..] == t[lo..|s| - 1];
  }

  lemma {:induction false} CountIfIsBetween(s: seq<bv8>, a: int, b: int)
    ensures CountIf(s, k => a <= k <= b) == CountBetween(s, if a < 0 then 0 else a, if b >= |s| then |s| - 1 else b)
  {
    hide Ones;
    if s != [] {
      var t, lo := s[..|s| - 1], if a < 0 then 0 else a;
      CountIfIsBetween(t, a, b);
      SameCount(t, k => a <= k <= b, k => a <= k <= b);
      if a > |s| - 1 || b < 0 {
      } else if b >= |s| - 1 {
        LastByteCounts(s, lo);
      } else if lo <= b {
        assert s[lo..b + 1] == t[lo..b + 1];
      }
    }
  }

  lemma CountIsInRange(s: seq<bv8>, range: Range)
    ensures CountBetween(s, Low(range, |s|), High(range, |s|)) == CountIf(s, (k: nat) => InRange(k, range, |s|))
  {
    var lo, hi := Low(range, |s|), High(range, |s|);
    CountIfIsBetween(s, lo, hi);
    forall k: nat | k < |s| ensures lo <= k <= hi <==> InRange(k, range, |s|) {
      InRangeIsBetween(k, range, |s|);
    }
    SameCount(s, k => lo <= k <= hi, (k: nat) => InRange(k, range, |s|));
  }

  /** BITCOUNT counts exactly the bytes that lie between the two indexes, except when the end is before the
      first byte, the start is not behind it, and that byte has a bit set. */
  lemma BitcountMeaning(s: seq<bv8>, start: int, end: int)
    ensures CountIf(s, (k: nat) => InRange(k, Between(start, end), |s|))
            == CountIf(s, (k: nat) => FromStart(k, start, |s|) && ToEnd(k, end, |s|))
            <==> !(end < -|s| && (start == 0 || start <= -|s|) && s != [] && Ones(s[0]) > 0)
  {
    hide Ones;
    var n := |s|;
    if end >= -n {
      SameCount(s, (k: nat) => InRange(k, Between(start, end), n),
                (k: nat) => FromStart(k, start, n) && ToEnd(k, end, n));
    } else {
      SameCount(s, (k: nat) => FromStart(k, start, n) && ToEnd(k, end, n), k => 0 <= k <= -1);
      CountIfIsBetween(s, 0, -1);
      var last := if start == 0 || start <= -n then 0 else -1;
      SameCount(s, (k: nat) => InRange(k, Between(start, end), n), k => 0 <= k <= last);
      CountIfIsBetween(s, 0, last);
      if s != [] {
        CountOneMore(s, 0);
        assert s[0..1] == s[..1] && s[..0] == [];
      }
    }
  }

  /** The bits that are set in a string. */
  function SetBits(s: seq<bv8>): set<nat> {
    set k: nat | k < 8 * |s| && BitAt(s, k)
  }

  function BitsOfByte(b: bv8, start: nat): set<nat> {
    set m: nat | m < 8 && ByteBit(b, m) :: start + m
  }

  lemma BitOfPrefix(s: seq<bv8>, k: nat)
    requires s != [] && k < 8 * |s|
    ensures var n := |s| - 1;
            BitAt(s, k) == if k < 8 * n then BitAt(s[..n], k) else ByteBit(s[n], k - 8 * n)
  {
    hide ByteBit;
  }

  lemma SetBitsSplit(s: seq<bv8>)
    requires s != []
    ensures var n := |s| - 1;
            SetBits(s) == SetBits(s[..n]) + BitsOfByte(s[n], 8 * n) && SetBits(s[..n]) !! BitsOfByte(s[n], 8 * n)
  {
    hide BitAt, ByteBit;
    var n := |s| - 1;
    forall k: nat | k < 8 * |s| ensures k in SetBits(s) <==> k in SetBits(s[..n]) || k in BitsOfByte(s[n], 8 * n) {
      BitOfPrefix(s, k);
      if k >= 8 * n {
        assert k == 8 * n + (k - 8 * n);
      }
    }
  }

  /** What BITCOUNT counts are the positions that BITPOS looks at. */
  lemma {:induction false} CountIsNumberOfBits(s: seq<bv8>)
    ensures CountBits(s) == |SetBits(s)|
  {
    if s == [] {
      assert SetBits(s) == {};
    } else {
      hide SetBits, BitsOfByte, Ones;
      var n := |s| - 1;
      CountIsNumberOfBits(s[..n]);
      SetBitsSplit(s);
      OnesInByte(s[n], 8 * n);
    }
  }

  lemma OnesInByte(b: bv8, start: nat)
    ensures |BitsOfByte(b, start)| == Ones(b)
  {
    hide ByteBit;
    OnesBelow(b, start, 8);
    OnesFromTop(b);
  }

  function OnesUpTo(b: bv8, n: nat): nat
    requires n <= 8
  {
    if n == 0 then 0 else OnesUpTo(b, n - 1) + if ByteBit(b, n - 1) then 1 else 0
  }

  lemma {:induction false} OnesBelow(b: bv8, start: nat, n: nat)
    requires n <= 8
    ensures |set m: nat | m < n && ByteBit(b, m) :: start + m| == OnesUpTo(b, n)
  {
    hide ByteBit;
    var all := set m: nat | m < n && ByteBit(b, m) :: start + m;
    if n == 0 {
      assert all == {};
    } else {
      OnesBelow(b, start, n - 1);
      var rest := set m: nat | m < n - 1 && ByteBit(b, m) :: start + m;
      assert all == if ByteBit(b, n - 1) then rest + {start + n - 1} else rest;
      assert start + n - 1 !in rest;
    }
  }

  lemma OneMoreUp(b: bv8, n: nat)
    requires 0 < n <= 8
    ensures OnesUpTo(b, n) == OnesUpTo(b, n - 1) + Bit(b, 8 - n) && OnesUpTo(b, 0) == 0
  {
    hide Has;
  }

  lemma OnesFromTop(b: bv8)
    ensures OnesUpTo(b, 8) == Ones(b)
  {
    hide OnesUpTo, Bit;
    OneMoreUp(b, 1);
    OneMoreUp(b, 2);
    OneMoreUp(b, 3);
    OneMoreUp(b, 4);
    OneMoreUp(b, 5);
    OneMoreUp(b, 6);
    OneMoreUp(b, 7);
    OneMoreUp(b, 8);
  }

  lemma WholeEnds(length: nat)
    ensures Low(Between(0, -1), length) == Low(Whole, length) == 0
    ensures High(Between(0, -1), length) == High(Whole, length) == length - 1
  {
  }

  lemma WholeSlice(s: seq<bv8>)
    ensures CountBetween(s, 0, |s| - 1) == CountBits(s)
  {
    if s != [] {
      hide CountBits;
      assert s[0..|s|] == s;
    }
  }

  /** The range 0 -1 is the whole string. */
  lemma WholeRange(s: seq<bv8>)
    ensures CountBetween(s, Low(Between(0, -1), |s|), High(Between(0, -1), |s|)) == CountBits(s)
    ensures CountBetween(s, Low(Whole, |s|), High(Whole, |s|)) == CountBits(s)
  {
    hide *;
    WholeEnds(|s|);
    WholeSlice(s);
  }

  /** A negative index is the one that counts from the end. */
  lemma CountsFromTheEnd(length: nat, i: int, j: int)
    requires 0 <= length + i < length
    ensures Low(Between(i, j), length) == Low(Between(length + i, j), length)
    ensures High(Between(j, i), length) == High(Between(j, length + i), length)
    ensures Low(From(i), length) == Low(From(length + i), length)
  {
  }

  lemma PlainRange(s: seq<bv8>, i: nat, j: nat)
    requires i <= j < |s|
    ensures Low(Between(i, j), |s|) == i && High(Between(i, j), |s|) == j
    ensures CountBetween(s, Low(Between(i, j), |s|), High(Between(i, j), |s|)) == CountBits(s[i..j + 1])
  {
  }

  // ---------------------------------------------------------------- BITPOS

  lemma BitOfSlice(s: seq<bv8>, lo: nat, hi: nat, k: nat)
    requires lo <= hi <= |s| && (k < 8 * (hi - lo) || hi == |s|)
    ensures BitAt(s[lo..hi], k) == BitAt(s, 8 * lo + k)
  {
  }

  /** `pos` is the least position from `from` on that holds `bit`. */
  ghost predicate IsFirstFrom(s: seq<bv8>, bit: bool, from: nat, pos: int) {
    from <= pos && BitAt(s, pos) == bit && forall k: nat :: from <= k < pos ==> BitAt(s, k) != bit
  }

  /** No position between `from` and `to` holds `bit`. */
  ghost predicate NoneWithin(s: seq<bv8>, bit: bool, from: nat, to: int) {
    forall k: nat :: from <= k < to ==> BitAt(s, k) != bit
  }

  lemma SliceFirst(s: seq<bv8>, bit: bool, lo: nat, hi: nat, pos: nat)
    requires lo <= hi <= |s| && IsFirst(s[lo..hi], bit, pos) && (pos < 8 * (hi - lo) || hi == |s|)
    ensures IsFirstFrom(s, bit, 8 * lo, 8 * lo + pos)
  {
    hide BitAt;
    BitOfSlice(s, lo, hi, pos);
    forall k: nat | 8 * lo <= k < 8 * lo + pos ensures BitAt(s, k) != bit {
      BitOfSlice(s, lo, hi, k - 8 * lo);
    }
  }

  lemma SliceNone(s: seq<bv8>, bit: bool, lo: nat, hi: nat)
    requires lo <= hi <= |s| && NoneBefore(s[lo..hi], bit, 8 * (hi - lo))
    ensures NoneWithin(s, bit, 8 * lo, 8 * hi)
  {
    hide BitAt;
    forall k: nat | 8 * lo <= k < 8 * hi ensures BitAt(s, k) != bit {
      BitOfSlice(s, lo, hi, k - 8 * lo);
    }
  }

  /** BITPOS on an existing string. With an explicit end only bits inside the range count; without one a
      clear bit may also be the first one behind the string. A range that starts behind the end has none. */
  method BitposString(s: seq<bv8>, bit: bool, range: Range, addr: nat) returns (pos: int)
    ensures pos == -1 || 0 <= pos
    ensures var lo, hi := Low(range, |s|), High(range, |s|);
            && (pos >= 0 ==> lo <= hi && IsFirstFrom(s, bit, 8 * lo, pos))
            && (range.Between? && pos >= 0 ==> pos < 8 * (hi + 1))
            && (range.Between? && pos == -1 ==> NoneWithin(s, bit, 8 * lo, 8 * (hi + 1)))
            && (!range.Between? && pos == -1 ==> lo > hi || (bit && NoneWithin(s, bit, 8 * lo, 8 * |s|)))
  {
    hide BitAt, IsFirst, NoneBefore, IsFirstFrom, NoneWithin;
    var start, end := Clamp(range, |s|);
    if start > end {
      EmptyWithin(s, bit, start, end);
      return -1;
    }
    var count := end + 1 - start;
    pos := RedisBitpos(s[start..end + 1], addr + start, bit);
    if pos < 0 || (pos == count * 8 && range.Between? && !bit) {
      NotInSlice(s[start..end + 1], bit, pos);
      SliceNone(s, bit, start, end + 1);
      return -1;
    }
    if pos == count * 8 {
      OnlyClearBehind(s[start..end + 1], bit, pos);
    }
    SliceFirst(s, bit, start, end + 1, pos);
    pos := pos + start * 8;
  }

  /** Position `k` lies in a byte of the range and holds `bit`. */
  predicate Held(s: seq<bv8>, bit: bool, range: Range, k: nat) {
    k < 8 * |s| && InRange(k / 8, range, |s|) && BitAt(s, k) == bit
  }

  ghost predicate IsFirstHeld(s: seq<bv8>, bit: bool, range: Range, pos: nat) {
    Held(s, bit, range, pos) && forall k: nat :: k < pos ==> !Held(s, bit, range, k)
  }

  ghost predicate NoneHeld(s: seq<bv8>, bit: bool, range: Range) {
    forall k: nat :: !Held(s, bit, range, k)
  }

  lemma RangeOfBit(s: seq<bv8>, bit: bool, range: Range, k: nat)
    ensures var lo, hi := Low(range, |s|), High(range, |s|);
            Held(s, bit, range, k) <==> 8 * lo <= k < 8 * (hi + 1) && BitAt(s, k) == bit
  {
    hide BitAt, InRange, Low, High;
    HighIsInside(range, |s|);
    if k / 8 < |s| {
      InRangeIsBetween(k / 8, range, |s|);
    }
  }

  lemma EndOfOpenRange(range: Range, length: nat)
    ensures !range.Between? ==> High(range, length) == length - 1
  {
  }

  lemma HighIsInside(range: Range, length: nat)
    ensures High(range, length) < length
  {
  }

  lemma FirstIsHeld(s: seq<bv8>, bit: bool, range: Range, pos: nat)
    requires IsFirstFrom(s, bit, 8 * Low(range, |s|), pos)
    ensures pos < 8 * (High(range, |s|) + 1) ==> IsFirstHeld(s, bit, range, pos)
    ensures pos >= 8 * (High(range, |s|) + 1) ==> NoneHeld(s, bit, range)
  {
    hide BitAt, Held, Low, High;
    forall k: nat ensures Held(s, bit, range, k) ==> 8 * Low(range, |s|) <= k < 8 * (High(range, |s|) + 1)
      ensures Held(s, bit, range, k) ==> BitAt(s, k) == bit
      ensures k == pos < 8 * (High(range, |s|) + 1) ==> Held(s, bit, range, k)
    {
      RangeOfBit(s, bit, range, k);
    }
  }

  lemma NoneIsHeld(s: seq<bv8>, bit: bool, range: Range)
    ensures NoneHeld(s, bit, range) <==> NoneWithin(s, bit, 8 * Low(range, |s|), 8 * (High(range, |s|) + 1))
  {
    hide BitAt, Held, Low, High;
    forall k: nat
      ensures Held(s, bit, range, k)
              <==> 8 * Low(range, |s|) <= k < 8 * (High(range, |s|) + 1) && BitAt(s, k) == bit
    {
      RangeOfBit(s, bit, range, k);
    }
  }

  lemma RangeIsEmpty(range: Range, length: nat)
    ensures Low(range, length) > High(range, length) <==> forall k: nat :: k < length ==> !InRange(k, range, length)
  {
    hide InRange;
    forall k: nat | k < length ensures Low(range, length) <= k <= High(range, length) <==> InRange(k, range, length) {
      InRangeIsBetween(k, range, length);
    }
    if Low(range, length) <= High(range, length) {
      assert InRange(Low(range, length), range, length);
    }
  }

  lemma ClearBehind(s: seq<bv8>, lo: nat, pos: nat)
    requires lo <= |s| && pos >= 8 * |s| && IsFirstFrom(s, false, 8 * lo, pos)
    ensures pos == 8 * |s|
  {
    SkippedByte(0, true, 0);
    assert !BitAt(s, 8 * |s|);
  }

  /** BITPOS on a key. A missing one stands for zeros without end, whatever the range. On a string the answer
      is the first position in the range that holds the bit, or -1; but when no end is given and the range has
      no clear bit, a clear bit is found behind the string, unless the range is empty. */
  method BitposCommand(key: Option<seq<bv8>>, bit: bool, range: Range, addr: nat) returns (pos: int)
    ensures pos >= -1
    ensures key.None? ==> if bit then pos == -1 && forall k: nat :: !BitAt([], k) else pos >= 0 && IsFirst([], bit, pos)
    ensures key.Some? ==>
              var s := key.value;
              var empty := forall k: nat :: k < |s| ==> !InRange(k, range, |s|);
              if !NoneHeld(s, bit, range) then pos >= 0 && IsFirstHeld(s, bit, range, pos)
              else if bit || range.Between? || empty then pos == -1
              else pos == 8 * |s|
  {
    if key.None? {
      forall k: nat ensures !BitAt([], k) {
        SkippedByte(0, true, k % 8);
      }
      return if bit then -1 else 0;
    }
    var s := key.value;
    hide BitAt, InRange, Low, High, IsFirstFrom, NoneHeld, IsFirstHeld, NoneWithin;
    NoneIsHeld(s, bit, range);
    RangeIsEmpty(range, |s|);
    pos := BitposString(s, bit, range, addr);
    if pos >= 0 {
      FirstIsHeld(s, bit, range, pos);
      EndOfOpenRange(range, |s|);
      if !bit && !range.Between? && pos >= 8 * |s| {
        ClearBehind(s, Low(range, |s|), pos);
      }
    }
  }

  /** The answer -1 of BITPOS with an explicit end means that no byte between the two indexes holds the bit,
      except when the end is before the first byte, the start is not behind it, and that byte holds the bit. */
  lemma BitposMeaning(s: seq<bv8>, bit: bool, start: int, end: int)
    ensures (NoneHeld(s, bit, Between(start, end))
             <==> forall k: nat :: k < 8 * |s| && FromStart(k / 8, start, |s|) && ToEnd(k / 8, end, |s|) ==>
                                     BitAt(s, k) != bit)
            <==> !(end < -|s| && (start == 0 || start <= -|s|) && s != []
                   && exists m: nat :: m < 8 && BitAt(s, m) == bit)
  {
    hide BitAt;
    var range := Between(start, end);
    if end < -|s| && s != [] && (start == 0 || start <= -|s|) {
      forall m: nat | m < 8 ensures Held(s, bit, range, m) <==> BitAt(s, m) == bit {
      }
      forall k: nat | Held(s, bit, range, k) ensures k < 8 {
      }
    } else if end < -|s| {
      forall k: nat ensures !Held(s, bit, range, k) {
      }
    } else {
      forall k: nat ensures Held(s, bit, range, k) <==>
          k < 8 * |s| && FromStart(k / 8, start, |s|) && ToEnd(k / 8, end, |s|) && BitAt(s, k) == bit {
      }
    }
  }

  lemma EmptyWithin(s: seq<bv8>, bit: bool, lo: nat, hi: int)
    requires lo > hi
    ensures NoneWithin(s, bit, 8 * lo, 8 * (hi + 1))
  {
  }

  lemma NotInSlice(t: seq<bv8>, bit: bool, pos: int)
    requires (pos == 8 * |t| && IsFirst(t, bit, pos)) || (bit && forall k: nat :: !BitAt(t, k))
    ensures NoneBefore(t, bit, 8 * |t|)
  {
  }

  lemma OnlyClearBehind(t: seq<bv8>, bit: bool, pos: nat)
    requires IsFirst(t, bit, pos) && pos == 8 * |t|
    ensures !bit
  {
  }
}
