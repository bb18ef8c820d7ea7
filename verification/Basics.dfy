/** A few general-purpose types and facts that several modules need. */
module Basics {

  datatype Option<+T> = None | Some(value: T)

  function Max(a: nat, b: nat): (m: nat)
    ensures m >= a && m >= b && (m == a || m == b)
  {
    if a < b then b else a
  }

  /** Two finite sets inside a third one, together larger than it, share an element. */
  lemma Intersect<T>(a: set<T>, b: set<T>, whole: set<T>)
    requires a <= whole && b <= whole
    requires |a| + |b| > |whole|
    ensures exists x :: x in a && x in b
  {
    if a * b == {} {
      assert |a + b| == |a| + |b|;
      SubsetSize(a + b, whole);
      assert false;
    }
    var x :| x in a * b;
  }

  lemma SubsetSize<T>(a: set<T>, b: set<T>)
    requires a <= b
    ensures |a| <= |b|
  {
    assert |b| == |a| + |b - a| by {
      assert a + (b - a) == b;
    }
  }

  /** f(s[0]) + f(s[1]) + ... */
  function FlatMap<A, B>(f: A -> seq<B>, s: seq<A>): seq<B> {
    if s == [] then [] else f(s[0]) + FlatMap(f, s[1..])
  }

  lemma Regroup<A>(a: seq<A>, b: seq<A>, c: seq<A>)
    ensures a + (b + c) == (a + b) + c
  {
  }

  lemma {:induction false} FlatMapSplit<A, B>(f: A -> seq<B>, s: seq<A>, t: seq<A>)
    ensures FlatMap(f, s + t) == FlatMap(f, s) + FlatMap(f, t)
  {
    if s == [] {
      assert s + t == t;
    } else {
      FlatMapSplit(f, s[1..], t);
      assert (s + t)[1..] == s[1..] + t;
      Regroup(f(s[0]), FlatMap(f, s[1..]), FlatMap(f, t));
    }
  }

  lemma FlatMapSnoc<A, B>(f: A -> seq<B>, s: seq<A>, x: A)
    ensures FlatMap(f, s + [x]) == FlatMap(f, s) + f(x)
  {
    FlatMapSplit(f, s, [x]);
    assert FlatMap(f, [x]) == f(x) + FlatMap(f, []);
  }

  lemma FlatMapTwo<A, B>(f: A -> seq<B>, x: A, y: A)
    ensures FlatMap(f, [x]) == f(x) && FlatMap(f, [x, y]) == f(x) + f(y)
  {
    FlatMapSnoc(f, [], x);
    FlatMapSnoc(f, [x], y);
    assert [] + [x] == [x] && [x] + [y] == [x, y];
  }

  // ---------------------------------------------------------------- bytes and numbers

  type byte = b: int | 0 <= b < 256
  type bytes = seq<byte>

  /** The bytes of an ASCII text. */
  function Text(s: string): (b: bytes)
    requires forall i :: 0 <= i < |s| ==> s[i] < 128 as char
    ensures |b| == |s| && forall i :: 0 <= i < |b| ==> b[i] == s[i] as int
  {
    seq(|s|, i requires 0 <= i < |s| => s[i] as int)
  }

  /** ll2string() on a number that is not negative. */
  function Decimal(n: nat): (s: bytes)
    ensures |s| > 0
  {
    if n < 10 then [48 + n] else Decimal(n / 10) + [48 + n % 10]
  }

  predicate IsDigit(b: byte) {
    48 <= b <= 57
  }

  predicate IsSpace(b: byte) {
    b == 32 || 9 <= b <= 13
  }

  /** The digits at the start of `s`, after digits worth `acc`. */
  function ParseDigits(s: bytes, acc: nat): nat {
    if s == [] || !IsDigit(s[0]) then acc else ParseDigits(s[1..], acc * 10 + (s[0] - 48))
  }

  /** atoi() and strtol() in base 10. */
  function ParseNumber(s: bytes): int {
    if s == [] then 0
    else if IsSpace(s[0]) then ParseNumber(s[1..])
    else if s[0] == 45 then 0 - ParseDigits(s[1..], 0)
    else if s[0] == 43 then ParseDigits(s[1..], 0)
    else ParseDigits(s, 0)
  }

  /** White space in front and one sign are accepted, and the number ends at the first other byte. */
  lemma NumbersRead()
    ensures ParseNumber(Text("\t\r 12*5")) == 12 && ParseNumber(Text("-7")) == -7 && ParseNumber(Text("+30")) == 30
    ensures ParseNumber(Text("\0" + "1")) == 0 && ParseNumber(Text("$6")) == 0
  {
    var t, u, v := Text("\t\r 12*5"), Text("-7"), Text("+30");
    assert t[3..] == [49, 50, 42, 53] && t[3..][1..] == [50, 42, 53] && t[3..][2..] == [42, 53];
    assert u[1..] == [55] && v[1..] == [51, 48] && v[2..] == [48];
    assert ParseNumber(t) == ParseNumber(t[1..]) == ParseNumber(t[1..][1..]) == ParseNumber(t[1..][1..][1..]);
    assert t[1..][1..][1..] == t[3..];
  }

  predicate Digits(s: bytes) {
    forall i :: 0 <= i < |s| ==> IsDigit(s[i])
  }

  lemma {:induction false} DecimalParses(n: nat, t: bytes)
    ensures Digits(Decimal(n)) && ParseDigits(Decimal(n) + t, 0) == ParseDigits(t, n)
  {
    if n < 10 {
      assert (Decimal(n) + t)[1..] == t;
    } else {
      var d: byte := 48 + n % 10;
      DecimalParses(n / 10, [d] + t);
      assert Decimal(n) + t == Decimal(n / 10) + ([d] + t);
      assert ([d] + t)[1..] == t;
    }
  }

  /** A number that was cut after a digit is again a number, positive when the whole was. */
  lemma {:induction false} DecimalCut(n: nat, k: nat) returns (m: nat)
    requires 1 <= k <= |Decimal(n)|
    ensures Decimal(n)[..k] == Decimal(m) && (n >= 1 ==> m >= 1)
  {
    if n < 10 || k == |Decimal(n)| {
      m := n;
      assert Decimal(n)[..k] == Decimal(n);
    } else {
      m := DecimalCut(n / 10, k);
      assert Decimal(n)[..k] == Decimal(n / 10)[..k];
    }
  }

  function Pow10(k: nat): nat {
    if k == 0 then 1 else 10 * Pow10(k - 1)
  }

  lemma {:induction false} DecimalLength(n: nat, k: nat)
    requires n < Pow10(k) && k >= 1
    ensures |Decimal(n)| <= k
  {
    if n >= 10 {
      assert k >= 2;
      DecimalLength(n / 10, k - 1);
    }
  }

  /** What strtol() and atoi() make of a printed number, whatever follows it. */
  lemma DecimalReads(n: nat, t: bytes)
    requires t == [] || (!IsDigit(t[0]))
    ensures ParseNumber(Decimal(n) + t) == n
  {
    DecimalParses(n, t);
    assert IsDigit(Decimal(n)[0]);
    assert (Decimal(n) + t)[0] == Decimal(n)[0];
  }

  // ---------------------------------------------------------------- the bits of a byte

  /** 1 << bit */
  function Mask(bit: nat): bv8
    requires bit < 8
  {
    match bit
    case 0 => 1 case 1 => 2 case 2 => 4 case 3 => 8 case 4 => 16 case 5 => 32 case 6 => 64 case _ => 128
  }

  predicate Has(byte: bv8, bit: nat)
    requires bit < 8
  {
    byte & Mask(bit) != 0
  }
}
