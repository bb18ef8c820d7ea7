/** BITOP: four words at a time as long as every source has them, then byte by byte with zeros standing
    for what a shorter source lacks. */
module BitOp {
  import opened Basics
  import opened BitPos

  datatype Op = And | Or | Xor | Not

  // ---------------------------------------------------------------- what is computed

  function Combine(op: Op, x: bv8, y: bv8): bv8 {
    match op
    case And => And8(x, y)
    case Or => Or8(x, y)
    case Xor => Xor8(x, y)
    case Not => x
  }

  function And8(x: bv8, y: bv8): bv8 {
    x & y
  }

  function Or8(x: bv8, y: bv8): bv8 {
    x | y
  }

  function Xor8(x: bv8, y: bv8): bv8 {
    x ^ y
  }

  function Complement(x: bv8): bv8 {
    !x
  }

  /** Byte `j` of the combination of the first `n` sources, zeros standing for missing bytes. */
  function Folded(op: Op, srcs: seq<seq<bv8>>, j: nat, n: nat): bv8
    requires 1 <= n <= |srcs|
  {
    if n == 1 then (if op == Not then Complement(ByteAt(srcs[0], j)) else ByteAt(srcs[0], j))
    else Combine(op, Folded(op, srcs, j, n - 1), ByteAt(srcs[n - 1], j))
  }

  /** How many of the first `n` sources have bit `m` of byte `j` set. */
  function Votes(srcs: seq<seq<bv8>>, j: nat, m: nat, n: nat): nat
    requires m < 8 && n <= |srcs|
  {
    if n == 0 then 0 else Votes(srcs, j, m, n - 1) + if ByteBit(ByteAt(srcs[n - 1], j), m) then 1 else 0
  }

  /** Whether a bit is set in the result when it is set in `votes` of `n` sources. */
  predicate Decides(op: Op, votes: nat, n: nat) {
    match op
    case And => votes == n
    case Or => votes > 0
    case Xor => votes % 2 == 1
    case Not => votes == 0
  }

  lemma AndBit(x: bv8, y: bv8, m: nat)
    requires m < 8
    ensures ByteBit(And8(x, y), m) == (ByteBit(x, m) && ByteBit(y, m))
  {
  }

  lemma OrBit(x: bv8, y: bv8, m: nat)
    requires m < 8
    ensures ByteBit(Or8(x, y), m) == (ByteBit(x, m) || ByteBit(y, m))
  {
  }

  lemma XorBit(x: bv8, y: bv8, m: nat)
    requires m < 8
    ensures ByteBit(Xor8(x, y), m) == (ByteBit(x, m) != ByteBit(y, m))
  {
    XorMask(x, y, Mask(7 - m));
  }

  predicate Single(mask: bv8) {
    mask == 1 || mask == 2 || mask == 4 || mask == 8 || mask == 16 || mask == 32 || mask == 64 || mask == 128
  }

  lemma XorMask(x: bv8, y: bv8, mask: bv8)
    requires Single(mask)
    ensures (x ^ y) & mask != 0 <==> ((x & mask != 0) != (y & mask != 0))
  {
  }

  lemma CombineBit(op: Op, x: bv8, y: bv8, m: nat)
    requires m < 8 && op != Not
    ensures ByteBit(Combine(op, x, y), m) ==
            match op
            case And => ByteBit(x, m) && ByteBit(y, m)
            case Or => ByteBit(x, m) || ByteBit(y, m)
            case _ => ByteBit(x, m) != ByteBit(y, m)
  {
    hide ByteBit, And8, Or8, Xor8;
    match op
    case And => AndBit(x, y, m);
    case Or => OrBit(x, y, m);
    case Xor => XorBit(x, y, m);
  }

  lemma NotBit(x: bv8, m: nat)
    requires m < 8
    ensures ByteBit(Complement(x), m) == !ByteBit(x, m)
  {
  }

  /** A bit of the result is set when it is set in all sources (AND), in some (OR), in an odd number of
      them (XOR), or not in the only one (NOT). */
  lemma {:induction false} FoldedBits(op: Op, srcs: seq<seq<bv8>>, j: nat, m: nat, n: nat)
    requires m < 8 && 1 <= n <= |srcs| && (op == Not ==> n == 1)
    ensures ByteBit(Folded(op, srcs, j, n), m) == Decides(op, Votes(srcs, j, m, n), n)
    ensures Votes(srcs, j, m, n) <= n
    decreases n
  {
    hide ByteBit, Combine;
    if n == 1 {
      assert Votes(srcs, j, m, 0) == 0;
      NotBit(ByteAt(srcs[0], j), m);
    } else {
      FoldedBits(op, srcs, j, m, n - 1);
      CombineBit(op, Folded(op, srcs, j, n - 1), ByteAt(srcs[n - 1], j), m);
    }
  }

  function Longest(srcs: seq<seq<bv8>>): (n: nat)
    ensures forall i :: 0 <= i < |srcs| ==> |srcs[i]| <= n
    ensures n == 0 || exists i :: 0 <= i < |srcs| && |srcs[i]| == n
  {
    if srcs == [] then 0
    else
      var init := srcs[..|srcs| - 1];
      assert forall i :: 0 <= i < |init| ==> init[i] == srcs[i];
      Max(Longest(init), |srcs[|srcs| - 1]|)
  }

  /** The string that BITOP stores: as long as the longest source. */
  function Result(op: Op, srcs: seq<seq<bv8>>): seq<bv8>
    requires srcs != []
  {
    seq(Longest(srcs), j requires j >= 0 => Folded(op, srcs, j, |srcs|))
  }

  lemma {:induction false} VotesCount(srcs: seq<seq<bv8>>, j: nat, m: nat, n: nat)
    requires m < 8 && n <= |srcs|
    ensures Votes(srcs, j, m, n) <= n
    ensures Votes(srcs, j, m, n) == n <==> forall i :: 0 <= i < n ==> ByteBit(ByteAt(srcs[i], j), m)
    ensures Votes(srcs, j, m, n) > 0 <==> exists i :: 0 <= i < n && ByteBit(ByteAt(srcs[i], j), m)
  {
    hide ByteBit, ByteAt;
    if n > 0 {
      VotesCount(srcs, j, m, n - 1);
    }
  }

  lemma ResultBit(op: Op, srcs: seq<seq<bv8>>, k: nat)
    requires srcs != [] && k < 8 * Longest(srcs) && (op == Not ==> |srcs| == 1)
    ensures BitAt(Result(op, srcs), k) <==> Decides(op, Votes(srcs, k / 8, k % 8, |srcs|), |srcs|)
  {
    hide ByteBit, ByteAt, Result, Folded, Longest, Votes, Decides;
    ResultByte(op, srcs, k / 8);
    FoldedBits(op, srcs, k / 8, k % 8, |srcs|);
  }

  lemma VotesAreBits(srcs: seq<seq<bv8>>, k: nat)
    ensures var votes := Votes(srcs, k / 8, k % 8, |srcs|);
            && (votes == |srcs| <==> forall i :: 0 <= i < |srcs| ==> BitAt(srcs[i], k))
            && (votes > 0 <==> exists i :: 0 <= i < |srcs| && BitAt(srcs[i], k))
  {
    hide ByteBit, ByteAt, Votes;
    VotesCount(srcs, k / 8, k % 8, |srcs|);
  }

  lemma VotesOfTwo(srcs: seq<seq<bv8>>, k: nat)
    requires |srcs| == 2
    ensures Votes(srcs, k / 8, k % 8, 2) == (if BitAt(srcs[0], k) then 1 else 0) + if BitAt(srcs[1], k) then 1 else 0
  {
    hide ByteBit, ByteAt;
    assert Votes(srcs, k / 8, k % 8, 1) == if BitAt(srcs[0], k) then 1 else 0;
  }

  /** The bits of the result, with zeros standing for missing ones: set in all sources for AND, in some for OR,
      in one but not both of two for XOR, and not in the only one for NOT. */
  lemma ResultBits(srcs: seq<seq<bv8>>, k: nat)
    requires srcs != [] && k < 8 * Longest(srcs)
    ensures BitAt(Result(And, srcs), k) <==> forall i :: 0 <= i < |srcs| ==> BitAt(srcs[i], k)
    ensures BitAt(Result(Or, srcs), k) <==> exists i :: 0 <= i < |srcs| && BitAt(srcs[i], k)
    ensures |srcs| == 2 ==> (BitAt(Result(Xor, srcs), k) <==> BitAt(srcs[0], k) != BitAt(srcs[1], k))
    ensures |srcs| == 1 ==> (BitAt(Result(Not, srcs), k) <==> !BitAt(srcs[0], k))
  {
    hide BitAt, Result, Longest, Votes;
    ResultBit(And, srcs, k);
    ResultBit(Or, srcs, k);
    ResultBit(Xor, srcs, k);
    VotesAreBits(srcs, k);
    if |srcs| == 1 {
      ResultBit(Not, srcs, k);
    } else if |srcs| == 2 {
      VotesOfTwo(srcs, k);
    }
  }

  lemma ResultByte(op: Op, srcs: seq<seq<bv8>>, j: nat)
    requires srcs != [] && j < Longest(srcs)
    ensures ByteAt(Result(op, srcs), j) == Folded(op, srcs, j, |srcs|)
  {
  }

  // ---------------------------------------------------------------- words

  function WordOp(op: Op, v: bv64, w: bv64): bv64 {
    match op
    case And => And64(v, w)
    case Or => Or64(v, w)
    case Xor => Xor64(v, w)
    case Not => v
  }

  function And64(v: bv64, w: bv64): bv64 {
    v & w
  }

  function Or64(v: bv64, w: bv64): bv64 {
    v | w
  }

  function Xor64(v: bv64, w: bv64): bv64 {
    v ^ w
  }

  function Complement64(v: bv64): bv64 {
    !v
  }

  /** Byte `k` of a word in memory, on a little-endian machine. */
  function ByteOf(w: bv64, k: nat): bv8
    requires k < 8
  {
    match k
    case 0 => (w & 0xFF) as bv8
    case 1 => ((w >> 8) & 0xFF) as bv8
    case 2 => ((w >> 16) & 0xFF) as bv8
    case 3 => ((w >> 24) & 0xFF) as bv8
    case 4 => ((w >> 32) & 0xFF) as bv8
    case 5 => ((w >> 40) & 0xFF) as bv8
    case 6 => ((w >> 48) & 0xFF) as bv8
    case _ => ((w >> 56) & 0xFF) as bv8
  }

  lemma AndBytes(v: bv64, w: bv64)
    ensures ByteOf(And64(v, w), 0) == And8(ByteOf(v, 0), ByteOf(w, 0))
    ensures ByteOf(And64(v, w), 1) == And8(ByteOf(v, 1), ByteOf(w, 1))
    ensures ByteOf(And64(v, w), 2) == And8(ByteOf(v, 2), ByteOf(w, 2))
    ensures ByteOf(And64(v, w), 3) == And8(ByteOf(v, 3), ByteOf(w, 3))
    ensures ByteOf(And64(v, w), 4) == And8(ByteOf(v, 4), ByteOf(w, 4))
    ensures ByteOf(And64(v, w), 5) == And8(ByteOf(v, 5), ByteOf(w, 5))
    ensures ByteOf(And64(v, w), 6) == And8(ByteOf(v, 6), ByteOf(w, 6))
    ensures ByteOf(And64(v, w), 7) == And8(ByteOf(v, 7), ByteOf(w, 7))
  {
  }

  lemma OrBits(v: bv64, w: bv64)
    ensures ByteOf(v | w, 0) == ByteOf(v, 0) | ByteOf(w, 0)
    ensures ByteOf(v | w, 1) == ByteOf(v, 1) | ByteOf(w, 1)
    ensures ByteOf(v | w, 2) == ByteOf(v, 2) | ByteOf(w, 2)
    ensures ByteOf(v | w, 3) == ByteOf(v, 3) | ByteOf(w, 3)
    ensures ByteOf(v | w, 4) == ByteOf(v, 4) | ByteOf(w, 4)
    ensures ByteOf(v | w, 5) == ByteOf(v, 5) | ByteOf(w, 5)
    ensures ByteOf(v | w, 6) == ByteOf(v, 6) | ByteOf(w, 6)
    ensures ByteOf(v | w, 7) == ByteOf(v, 7) | ByteOf(w, 7)
  {
  }

  lemma OrBytes(v: bv64, w: bv64)
    ensures ByteOf(Or64(v, w), 0) == Or8(ByteOf(v, 0), ByteOf(w, 0))
    ensures ByteOf(Or64(v, w), 1) == Or8(ByteOf(v, 1), ByteOf(w, 1))
    ensures ByteOf(Or64(v, w), 2) == Or8(ByteOf(v, 2), ByteOf(w, 2))
    ensures ByteOf(Or64(v, w), 3) == Or8(ByteOf(v, 3), ByteOf(w, 3))
    ensures ByteOf(Or64(v, w), 4) == Or8(ByteOf(v, 4), ByteOf(w, 4))
    ensures ByteOf(Or64(v, w), 5) == Or8(ByteOf(v, 5), ByteOf(w, 5))
    ensures ByteOf(Or64(v, w), 6) == Or8(ByteOf(v, 6), ByteOf(w, 6))
    ensures ByteOf(Or64(v, w), 7) == Or8(ByteOf(v, 7), ByteOf(w, 7))
  {
    hide ByteOf;
    OrBits(v, w);
  }

  lemma XorBits(v: bv64, w: bv64)
    ensures ByteOf(v ^ w, 0) == ByteOf(v, 0) ^ ByteOf(w, 0)
    ensures ByteOf(v ^ w, 1) == ByteOf(v, 1) ^ ByteOf(w, 1)
    ensures ByteOf(v ^ w, 2) == ByteOf(v, 2) ^ ByteOf(w, 2)
    ensures ByteOf(v ^ w, 3) == ByteOf(v, 3) ^ ByteOf(w, 3)
    ensures ByteOf(v ^ w, 4) == ByteOf(v, 4) ^ ByteOf(w, 4)
    ensures ByteOf(v ^ w, 5) == ByteOf(v, 5) ^ ByteOf(w, 5)
    ensures ByteOf(v ^ w, 6) == ByteOf(v, 6) ^ ByteOf(w, 6)
    ensures ByteOf(v ^ w, 7) == ByteOf(v, 7) ^ ByteOf(w, 7)
  {
  }

  lemma XorBytes(v: bv64, w: bv64)
    ensures ByteOf(Xor64(v, w), 0) == Xor8(ByteOf(v, 0), ByteOf(w, 0))
    ensures ByteOf(Xor64(v, w), 1) == Xor8(ByteOf(v, 1), ByteOf(w, 1))
    ensures ByteOf(Xor64(v, w), 2) == Xor8(ByteOf(v, 2), ByteOf(w, 2))
    ensures ByteOf(Xor64(v, w), 3) == Xor8(ByteOf(v, 3), ByteOf(w, 3))
    ensures ByteOf(Xor64(v, w), 4) == Xor8(ByteOf(v, 4), ByteOf(w, 4))
    ensures ByteOf(Xor64(v, w), 5) == Xor8(ByteOf(v, 5), ByteOf(w, 5))
    ensures ByteOf(Xor64(v, w), 6) == Xor8(ByteOf(v, 6), ByteOf(w, 6))
    ensures ByteOf(Xor64(v, w), 7) == Xor8(ByteOf(v, 7), ByteOf(w, 7))
  {
    hide ByteOf;
    XorBits(v, w);
  }

  /** A word operation does the byte operation on each of the eight bytes. */
  lemma WordOpIsBytewise(op: Op, v: bv64, w: bv64, k: nat)
    requires k < 8
    ensures ByteOf(WordOp(op, v, w), k) == Combine(op, ByteOf(v, k), ByteOf(w, k))
  {
    hide ByteOf, And8, Or8, Xor8, And64, Or64, Xor64;
    match op
    case And => AndBytes(v, w);
    case Or => OrBytes(v, w);
    case Xor => XorBytes(v, w);
    case Not =>
  }

  lemma NotBytes(v: bv64)
    ensures ByteOf(Complement64(v), 0) == Complement(ByteOf(v, 0))
    ensures ByteOf(Complement64(v), 1) == Complement(ByteOf(v, 1))
    ensures ByteOf(Complement64(v), 2) == Complement(ByteOf(v, 2))
    ensures ByteOf(Complement64(v), 3) == Complement(ByteOf(v, 3))
    ensures ByteOf(Complement64(v), 4) == Complement(ByteOf(v, 4))
    ensures ByteOf(Complement64(v), 5) == Complement(ByteOf(v, 5))
    ensures ByteOf(Complement64(v), 6) == Complement(ByteOf(v, 6))
    ensures ByteOf(Complement64(v), 7) == Complement(ByteOf(v, 7))
  {
  }

  lemma NotIsBytewise(v: bv64, k: nat)
    requires k < 8
    ensures ByteOf(Complement64(v), k) == Complement(ByteOf(v, k))
  {
    hide ByteOf, Complement, Complement64;
    NotBytes(v);
  }

  lemma BytesOfConcat(b0: bv8, b1: bv8, b2: bv8, b3: bv8, b4: bv8, b5: bv8, b6: bv8, b7: bv8)
    ensures var w := Concat(b7, b6, b5, b4, b3, b2, b1, b0);
            && ByteOf(w, 0) == b0 && ByteOf(w, 1) == b1 && ByteOf(w, 2) == b2 && ByteOf(w, 3) == b3
            && ByteOf(w, 4) == b4 && ByteOf(w, 5) == b5 && ByteOf(w, 6) == b6 && ByteOf(w, 7) == b7
  {
  }

  lemma LoadedByte(s: seq<bv8>, c: nat, k: nat)
    requires k < 8 && c + 8 <= |s|
    ensures ByteOf(LoadWord(s, c), k) == s[c + k]
  {
    hide ByteOf, Concat;
    BytesOfConcat(s[c], s[c + 1], s[c + 2], s[c + 3], s[c + 4], s[c + 5], s[c + 6], s[c + 7]);
  }

  // ---------------------------------------------------------------- BITOP

  /** Writes a word at position `c`. */
  method StoreWord(res: array<bv8>, c: nat, w: bv64)
    requires c + 8 <= res.Length
    modifies res
    ensures forall b :: 0 <= b < res.Length ==> res[b] == if c <= b < c + 8 then ByteOf(w, b - c) else old(res[b])
  {
    hide ByteOf;
    for k := 0 to 8
      invariant forall b :: 0 <= b < res.Length ==> res[b] == if c <= b < c + k then ByteOf(w, b - c) else old(res[b])
    {
      res[c + k] := ByteOf(w, k);
    }
  }

  /** lres[0] op= lp[i][0] at byte position `c`. */
  method CombineWord(op: Op, res: array<bv8>, src: seq<bv8>, c: nat)
    requires c + 8 <= res.Length && c + 8 <= |src|
    modifies res
    ensures forall b :: 0 <= b < res.Length ==>
              res[b] == if c <= b < c + 8 then Combine(op, old(res[b]), src[b]) else old(res[b])
  {
    hide ByteOf, LoadWord, Combine, WordOp;
    ghost var before := res[..];
    var v, w := LoadWord(res[..], c), LoadWord(src, c);
    forall b | c <= b < c + 8 ensures ByteOf(WordOp(op, v, w), b - c) == Combine(op, before[b], src[b]) {
      LoadedByte(before, c, b - c);
      LoadedByte(src, c, b - c);
      WordOpIsBytewise(op, v, w, b - c);
    }
    StoreWord(res, c, WordOp(op, v, w));
  }

  /** lres[0] = ~lres[0] at byte position `c`. */
  method ComplementWord(res: array<bv8>, c: nat)
    requires c + 8 <= res.Length
    modifies res
    ensures forall b :: 0 <= b < res.Length ==>
              res[b] == if c <= b < c + 8 then Complement(old(res[b])) else old(res[b])
  {
    hide ByteOf, LoadWord, Complement, Complement64;
    ghost var before := res[..];
    var v := LoadWord(res[..], c);
    forall b | c <= b < c + 8 ensures ByteOf(Complement64(v), b - c) == Complement(before[b]) {
      LoadedByte(before, c, b - c);
      NotIsBytewise(v, b - c);
    }
    StoreWord(res, c, Complement64(v));
  }

  /** Four words, for every source but the first. */
  method CombineBlock(op: Op, res: array<bv8>, srcs: seq<seq<bv8>>, j: nat)
    requires srcs != [] && op != Not && j + 32 <= res.Length && forall i :: 0 <= i < |srcs| ==> j + 32 <= |srcs[i]|
    requires forall b: nat :: j <= b < j + 32 ==> res[b] == srcs[0][b]
    modifies res
    ensures forall b: nat :: j <= b < j + 32 ==> res[b] == Folded(op, srcs, b, |srcs|)
    ensures forall b :: 0 <= b < res.Length && !(j <= b < j + 32) ==> res[b] == old(res[b])
  {
    hide Combine;
    for i := 1 to |srcs|
      invariant forall b: nat :: j <= b < j + 32 ==> res[b] == Folded(op, srcs, b, i)
      invariant forall b :: 0 <= b < res.Length && !(j <= b < j + 32) ==> res[b] == old(res[b])
    {
      ghost var before := res[..];
      CombineWord(op, res, srcs[i], j);
      CombineWord(op, res, srcs[i], j + 8);
      CombineWord(op, res, srcs[i], j + 16);
      CombineWord(op, res, srcs[i], j + 24);
      assert forall b: nat :: j <= b < j + 32 ==> res[b] == Combine(op, before[b], ByteAt(srcs[i], b));
    }
  }

  /** Four words of the only source. */
  method ComplementBlock(res: array<bv8>, srcs: seq<seq<bv8>>, j: nat)
    requires |srcs| == 1 && j + 32 <= res.Length && j + 32 <= |srcs[0]|
    requires forall b: nat :: j <= b < j + 32 ==> res[b] == srcs[0][b]
    modifies res
    ensures forall b: nat :: j <= b < j + 32 ==> res[b] == Folded(Not, srcs, b, 1)
    ensures forall b :: 0 <= b < res.Length && !(j <= b < j + 32) ==> res[b] == old(res[b])
  {
    hide Complement;
    ComplementWord(res, j);
    ComplementWord(res, j + 8);
    ComplementWord(res, j + 16);
    ComplementWord(res, j + 24);
  }

  /** The fast path: whole blocks as far as the shortest source goes. Returns the next byte to process. */
  method FastPath(op: Op, res: array<bv8>, srcs: seq<seq<bv8>>, minlen: nat) returns (j: nat)
    requires srcs != [] && (op == Not ==> |srcs| == 1)
    requires minlen <= res.Length && forall i :: 0 <= i < |srcs| ==> minlen <= |srcs[i]|
    modifies res
    ensures j == minlen - minlen % 32 && forall b: nat :: b < j ==> res[b] == Folded(op, srcs, b, |srcs|)
  {
    hide Combine, Folded;
    for k := 0 to minlen
      invariant forall b :: 0 <= b < k ==> res[b] == srcs[0][b]
    {
      res[k] := srcs[0][k];
    }
    j := 0;
    var left := minlen;
    while left >= 32
      invariant j + left == minlen && j % 32 == 0
      invariant forall b: nat :: b < j ==> res[b] == Folded(op, srcs, b, |srcs|)
      invariant forall b: nat :: j <= b < minlen ==> res[b] == srcs[0][b]
    {
      if op == Not {
        ComplementBlock(res, srcs, j);
      } else {
        CombineBlock(op, res, srcs, j);
      }
      j, left := j + 32, left - 32;
    }
  }

  /** The rest, byte by byte. */
  method SlowPath(op: Op, res: array<bv8>, srcs: seq<seq<bv8>>, start: nat)
    requires srcs != [] && start <= res.Length && (op == Not ==> |srcs| == 1)
    requires forall b: nat :: b < start ==> res[b] == Folded(op, srcs, b, |srcs|)
    modifies res
    ensures forall b: nat :: b < res.Length ==> res[b] == Folded(op, srcs, b, |srcs|)
  {
    hide Combine;
    for j := start to res.Length
      invariant forall b: nat :: b < j ==> res[b] == Folded(op, srcs, b, |srcs|)
    {
      var output := if |srcs[0]| <= j then 0 else srcs[0][j];
      if op == Not {
        output := Complement(output);
      }
      for i := 1 to |srcs|
        invariant output == Folded(op, srcs, j, i)
      {
        var byte := if |srcs[i]| <= j then 0 else srcs[i][j];
        output := Combine(op, output, byte);
      }
      res[j] := output;
    }
  }

  datatype Reply = Refused | Length(n: nat)

  /** Missing keys are empty strings. */
  function Sources(keys: seq<Option<seq<bv8>>>): (srcs: seq<seq<bv8>>)
    ensures |srcs| == |keys|
  {
    seq(|keys|, i requires 0 <= i < |keys| => if keys[i].None? then [] else keys[i].value)
  }

  lemma LongestGrows(srcs: seq<seq<bv8>>, j: nat)
    requires j <= |srcs|
    ensures Longest([]) == 0
    ensures j < |srcs| ==> Longest(srcs[..j + 1]) == Max(Longest(srcs[..j]), |srcs[j]|)
  {
  }

  method Lengths(keys: seq<Option<seq<bv8>>>) returns (minlen: nat, maxlen: nat)
    ensures maxlen == Longest(Sources(keys))
    ensures forall i :: 0 <= i < |keys| ==> minlen <= |Sources(keys)[i]|
  {
    hide Longest;
    ghost var srcs := Sources(keys);
    minlen, maxlen := 0, 0;
    LongestGrows(srcs, 0);
    for j := 0 to |keys|
      invariant maxlen == Longest(srcs[..j])
      invariant forall i :: 0 <= i < j ==> minlen <= |srcs[i]|
    {
      LongestGrows(srcs, j);
      if keys[j].None? {
        minlen := 0;
      } else {
        var len := |keys[j].value|;
        if len > maxlen {
          maxlen := len;
        }
        if j == 0 || len < minlen {
          minlen := len;
        }
      }
    }
    assert srcs[..|keys|] == srcs;
  }

  /** The compute part of BITOP, for any number of keys, present or not. */
  method BitopCommand(op: Op, keys: seq<Option<seq<bv8>>>) returns (reply: Reply, stored: Option<seq<bv8>>)
    requires keys != []
    ensures reply == Refused <==> op == Not && |keys| != 1
    ensures reply != Refused ==>
              && reply == Length(Longest(Sources(keys)))
              && stored == if Longest(Sources(keys)) == 0 then None else Some(Result(op, Sources(keys)))
  {
    if op == Not && |keys| != 1 {
      return Refused, None;
    }
    var srcs := Sources(keys);
    var minlen, maxlen := Lengths(keys);
    if maxlen == 0 {
      return Length(0), None;
    }
    var res := new bv8[maxlen];
    var j := 0;
    if minlen >= 32 && |keys| <= 16 {
      j := FastPath(op, res, srcs, minlen);
    }
    SlowPath(op, res, srcs, j);
    assert res[..] == Result(op, srcs);
    return Length(maxlen), Some(res[..]);
  }
}
