/** What the loader recovers from an append only file that was cut at an arbitrary byte. */
module AofRecovery {
  import opened Basics
  import opened AofFormat

  /** The sizes that the C types of argc and of a string's length can hold. */
  predicate Writable(argv: Argv) {
    1 <= |argv| <= INT_MAX && forall a :: a in argv ==> |a| <= LONG_MAX
  }

  lemma CutConcat(a: bytes, b: bytes, k: nat)
    requires k <= |a + b|
    ensures (a + b)[..k] == if k < |a| then a[..k] else a + b[..k - |a|]
  {
  }

  // ---------------------------------------------------------------- header lines

  lemma {:induction false} LineEndsAt(s: bytes, k: nat, max: nat)
    requires k < |s| && k < max && s[k] == LF && forall i :: 0 <= i < k ==> s[i] != LF
    ensures LineLength(s, max) == k + 1
  {
    if k > 0 {
      LineEndsAt(s[1..], k - 1, max - 1);
    }
  }

  lemma {:induction false} LineHasNoEnd(s: bytes, max: nat)
    requires |s| <= max && forall i :: 0 <= i < |s| ==> s[i] != LF
    ensures LineLength(s, max) == |s|
  {
    if s != [] {
      LineHasNoEnd(s[1..], max - 1);
    }
  }

  lemma HeaderLine(mark: byte, n: nat, t: bytes)
    requires mark != LF && n <= LONG_MAX
    ensures Line(Header(mark, n) + t) == Header(mark, n) && AfterLine(Header(mark, n) + t) == t
    ensures ParseNumber(Header(mark, n)[1..]) == n && IsDigit(Header(mark, n)[1])
  {
    var h := Header(mark, n);
    LongLength(n);
    DecimalParses(n, []);
    LineEndsAt(h + t, |h| - 1, LINE - 1);
    assert h[1..] == Decimal(n) + [CR, LF];
    DecimalReads(n, [CR, LF]);
  }

  /** A header line that was cut: it reads as the end of the file, and the number it shows is positive
      if the whole number was. */
  lemma HeaderCut(mark: byte, n: nat, k: nat)
    requires mark != LF && n <= LONG_MAX && 1 <= k < |Header(mark, n)|
    ensures Line(Header(mark, n)[..k]) == Header(mark, n)[..k] && AfterLine(Header(mark, n)[..k]) == []
    ensures HitsEof(Header(mark, n)[..k]) && ParseNumber(Header(mark, n)[1..k]) >= 0
    ensures k >= 2 ==> IsDigit(Header(mark, n)[1])
    ensures k >= 2 && n >= 1 ==> ParseNumber(Header(mark, n)[1..k]) >= 1
  {
    var h := Header(mark, n);
    LongLength(n);
    DecimalParses(n, []);
    LineHasNoEnd(h[..k], LINE - 1);
    if 2 <= k {
      if k <= |Decimal(n)| {
        var m := DecimalCut(n, k - 1);
        assert h[1..k] == Decimal(n)[..k - 1] == Decimal(m) + [];
        DecimalReads(m, []);
      } else {
        var t: bytes := if k == |Decimal(n)| + 1 then [] else [CR];
        assert h[1..k] == Decimal(n) + t;
        DecimalReads(n, t);
      }
    }
  }

  // ---------------------------------------------------------------- one command

  lemma ArgFull(a: bytes, t: bytes)
    requires |a| <= LONG_MAX
    ensures ReadArg(EncodeArg(a) + t) == Got(a, t)
  {
    var s := EncodeArg(a) + t;
    var u := a + [CR, LF] + t;
    assert s == Header(DOLLAR, |a|) + u;
    HeaderLine(DOLLAR, |a|, u);
    assert u[..|a|] == a && u[|a| + 2..] == t;
  }

  lemma ArgCut(a: bytes, k: nat)
    requires |a| <= LONG_MAX && k < |EncodeArg(a)|
    ensures ReadArg(EncodeArg(a)[..k]) == Bad(UnexpectedEof)
  {
    var h, s := Header(DOLLAR, |a|), EncodeArg(a)[..k];
    if k == 0 {
    } else if k < |h| {
      assert s == h[..k];
      HeaderCut(DOLLAR, |a|, k);
      assert h[..k][1..] == h[1..k];
    } else {
      var u := (a + [CR, LF])[..k - |h|];
      assert s == h + u;
      HeaderLine(DOLLAR, |a|, u);
    }
  }

  lemma ReadArgsStep(s: bytes, a: bytes, t: bytes, n: nat)
    requires n > 0 && ReadArg(s) == Got(a, t)
    ensures ReadArgs(s, n) == Prepend([a], ReadArgs(t, n - 1))
  {
  }

  lemma {:induction false} ArgsFull(args: Argv, t: bytes)
    requires forall a :: a in args ==> |a| <= LONG_MAX
    ensures ReadArgs(EncodeArgs(args) + t, |args|) == Got(args, t)
  {
    hide EncodeArg, ReadArg;
    if args == [] {
      assert EncodeArgs(args) + t == t;
    } else {
      var first, more := EncodeArg(args[0]), EncodeArgs(args[1..]);
      assert EncodeArgs(args) + t == first + (more + t);
      ArgFull(args[0], more + t);
      ArgsFull(args[1..], t);
      ReadArgsStep(first + (more + t), args[0], more + t, |args|);
      assert args == [args[0]] + args[1..];
    }
  }

  lemma {:induction false} ArgsCut(args: Argv, k: nat)
    requires forall a :: a in args ==> |a| <= LONG_MAX
    requires k < |EncodeArgs(args)|
    ensures ReadArgs(EncodeArgs(args)[..k], |args|) == Bad(UnexpectedEof)
  {
    assert args != [];
    var first, more := EncodeArg(args[0]), EncodeArgs(args[1..]);
    CutConcat(first, more, k);
    if k < |first| {
      ArgCut(args[0], k);
    } else {
      ArgsCut(args[1..], k - |first|);
      ArgsCutLater(args, more[..k - |first|]);
    }
  }

  lemma ArgsCutLater(args: Argv, t: bytes)
    requires args != [] && |args[0]| <= LONG_MAX && ReadArgs(t, |args| - 1) == Bad(UnexpectedEof)
    ensures ReadArgs(EncodeArg(args[0]) + t, |args|) == Bad(UnexpectedEof)
  {
    ArgFull(args[0], t);
    ReadArgsStep(EncodeArg(args[0]) + t, args[0], t, |args|);
  }

  lemma CountFull(n: nat, t: bytes)
    requires 1 <= n <= LONG_MAX
    ensures Header(STAR, n) + t != [] && ReadCount(Header(STAR, n) + t) == Got(n, t)
  {
    HeaderLine(STAR, n, t);
  }

  lemma CountCut(n: nat, k: nat)
    requires 1 <= n <= LONG_MAX && 0 < k < |Header(STAR, n)|
    ensures var s := Header(STAR, n)[..k];
            s != [] && (ReadCount(s) == Bad(UnexpectedEof) || (ReadCount(s).Got? && ReadCount(s).rest == []))
  {
    var h := Header(STAR, n);
    HeaderCut(STAR, n, k);
    assert h[..k][1..] == h[1..k];
  }

  lemma CommandFull(argv: Argv, t: bytes)
    requires Writable(argv)
    ensures Encode(argv) + t != [] && ReadCommand(Encode(argv) + t) == Got(argv, t)
  {
    var u := EncodeArgs(argv) + t;
    assert Encode(argv) + t == Header(STAR, |argv|) + u;
    hide Header, EncodeArgs, ReadCount, ReadArgs;
    CountFull(|argv|, u);
    ArgsFull(argv, t);
  }

  lemma NoArgsLeft(n: nat)
    requires n > 0
    ensures ReadArgs([], n) == Bad(UnexpectedEof)
  {
  }

  lemma CommandCut(argv: Argv, k: nat)
    requires Writable(argv) && 0 < k < |Encode(argv)|
    ensures Encode(argv)[..k] != [] && ReadCommand(Encode(argv)[..k]) == Bad(UnexpectedEof)
  {
    hide Header, EncodeArgs, ReadCount, ReadArgs;
    var h, args := Header(STAR, |argv|), EncodeArgs(argv);
    CutConcat(h, args, k);
    if k < |h| {
      CountCut(|argv|, k);
      var count := ReadCount(h[..k]);
      if count.Got? {
        NoArgsLeft(count.value);
      }
    } else {
      CountFull(|argv|, args[..k - |h|]);
      ArgsCut(argv, k - |h|);
    }
  }

  // ---------------------------------------------------------------- the whole file

  /** How many of `cmds` lie wholly within the first `k` bytes of their encoding. */
  function Whole(cmds: seq<Argv>, k: nat): (m: nat)
    ensures m <= |cmds|
  {
    if cmds == [] || k < |Encode(cmds[0])| then 0 else 1 + Whole(cmds[1..], k - |Encode(cmds[0])|)
  }

  /** Whole() is the greatest such number. */
  lemma {:induction false} WholeIsGreatest(cmds: seq<Argv>, k: nat)
    requires k <= |EncodeAll(cmds)|
    ensures var m := Whole(cmds, k);
            && |EncodeAll(cmds[..m])| <= k
            && (m < |cmds| ==> k < |EncodeAll(cmds[..m + 1])|)
  {
    if cmds != [] {
      var m := Whole(cmds, k);
      if k >= |Encode(cmds[0])| {
        WholeIsGreatest(cmds[1..], k - |Encode(cmds[0])|);
        assert cmds[..m] == [cmds[0]] + cmds[1..][..m - 1];
        if m < |cmds| {
          assert cmds[..m + 1] == [cmds[0]] + cmds[1..][..m];
        }
      } else {
        assert cmds[..m + 1] == [cmds[0]] + [];
      }
    }
  }

  ghost predicate Logged(cmds: seq<Argv>, known: bytes -> bool) {
    forall c :: c in cmds ==> Writable(c) && known(c[0])
  }

  /** How loading ends when the whole commands take `whole` of the `k` bytes and `offset` bytes came before. */
  function CutEnd(whole: nat, k: nat, offset: nat, truncate: bool): End {
    if whole == k then Clean else if truncate then Truncated(offset + whole) else Fatal(UnexpectedEof)
  }

  lemma LoadFromFirst(argv: Argv, t: bytes, offset: nat, truncate: bool, known: bytes -> bool)
    requires Writable(argv) && known(argv[0])
    ensures LoadFrom(Encode(argv) + t, offset, truncate, known)
            == After([argv], LoadFrom(t, offset + |Encode(argv)|, truncate, known))
  {
    hide Encode, ReadCommand, LoadFrom;
    CommandFull(argv, t);
    LoadFromGot(Encode(argv) + t, argv, t, offset, truncate, known);
  }

  lemma EncodeAllStep(cmds: seq<Argv>, m: nat)
    requires 0 < m <= |cmds|
    ensures cmds[..m] == [cmds[0]] + cmds[1..][..m - 1]
    ensures EncodeAll(cmds[..m]) == Encode(cmds[0]) + EncodeAll(cmds[1..][..m - 1])
  {
  }

  /** What loading the first `k` bytes of the log of `cmds` gives. */
  function Recovered(cmds: seq<Argv>, k: nat, offset: nat, truncate: bool): Loaded {
    var whole := cmds[..Whole(cmds, k)];
    Loaded(whole, CutEnd(|EncodeAll(whole)|, k, offset, truncate))
  }

  lemma NothingRecovered(cmds: seq<Argv>, k: nat, offset: nat, truncate: bool)
    requires cmds == [] || k < |Encode(cmds[0])|
    ensures Recovered(cmds, k, offset, truncate) == Loaded([], CutEnd(0, k, offset, truncate))
  {
  }

  lemma RecoveredStep(cmds: seq<Argv>, k: nat, offset: nat, truncate: bool)
    requires cmds != [] && k >= |Encode(cmds[0])|
    ensures var n := |Encode(cmds[0])|;
            Recovered(cmds, k, offset, truncate) == After([cmds[0]], Recovered(cmds[1..], k - n, offset + n, truncate))
  {
    EncodeAllStep(cmds, Whole(cmds, k));
  }

  lemma {:induction false} LoadFromCut(cmds: seq<Argv>, k: nat, offset: nat, truncate: bool, known: bytes -> bool)
    requires Logged(cmds, known) && k <= |EncodeAll(cmds)|
    ensures LoadFrom(EncodeAll(cmds)[..k], offset, truncate, known) == Recovered(cmds, k, offset, truncate)
  {
    hide LoadFrom, Recovered, Encode;
    if k == 0 {
      NothingRecovered(cmds, k, offset, truncate);
      LoadFromNothing(offset, truncate, known);
    } else {
      var first, more := Encode(cmds[0]), EncodeAll(cmds[1..]);
      CutConcat(first, more, k);
      if k < |first| {
        CommandCut(cmds[0], k);
        LoadFromBad(first[..k], UnexpectedEof, offset, truncate, known);
        NothingRecovered(cmds, k, offset, truncate);
      } else {
        LoadFromCut(cmds[1..], k - |first|, offset + |first|, truncate, known);
        LoadFromFirst(cmds[0], more[..k - |first|], offset, truncate, known);
        RecoveredStep(cmds, k, offset, truncate);
      }
    }
  }

  lemma LoadsRecovered(cmds: seq<Argv>, k: nat, truncate: bool, known: bytes -> bool, open: seq<Argv> -> bool)
    requires Logged(cmds, known) && 0 < k <= |EncodeAll(cmds)|
    ensures Load(EncodeAll(cmds)[..k], truncate, known, open)
            == Closed(Recovered(cmds, k, 0, truncate), k, truncate, open)
  {
    hide LoadFrom, Recovered;
    LoadFromCut(cmds, k, 0, truncate, known);
  }

  /** Crash recovery. Whatever prefix of the log survived, the loader executes exactly the commands that
      lie wholly inside it, and reports no format error. It is content when the prefix ends with a command and
      leaves no MULTI open; otherwise, with aof-load-truncated, it cuts the file at the end of the last whole
      command, and without it refuses the file. */
  lemma CrashRecovery(cmds: seq<Argv>, k: nat, truncate: bool, known: bytes -> bool, open: seq<Argv> -> bool)
    requires Logged(cmds, known) && 0 < k <= |EncodeAll(cmds)|
    ensures var l := Load(EncodeAll(cmds)[..k], truncate, known, open);
            var m, size := |l.executed|, |EncodeAll(l.executed)|;
            && l.executed <= cmds && size <= k && (m < |cmds| ==> k < |EncodeAll(cmds[..m + 1])|)
            && l.end == if size == k && !open(l.executed) then Clean
                        else if truncate then Truncated(size) else Fatal(UnexpectedEof)
  {
    hide *;
    var l, m := Load(EncodeAll(cmds)[..k], truncate, known, open), Whole(cmds, k);
    LoadsRecovered(cmds, k, truncate, known, open);
    ClosedAt(cmds, k, truncate, open);
    assert l.executed == cmds[..m];
    WholeIsGreatest(cmds, k);
    PrefixOf(cmds, m);
  }

  lemma PrefixOf(cmds: seq<Argv>, m: nat)
    requires m <= |cmds|
    ensures cmds[..m] <= cmds && |cmds[..m]| == m
  {
  }

  lemma ClosedAt(cmds: seq<Argv>, k: nat, truncate: bool, open: seq<Argv> -> bool)
    ensures var l, whole := Closed(Recovered(cmds, k, 0, truncate), k, truncate, open), cmds[..Whole(cmds, k)];
            && l.executed == whole
            && l.end == if |EncodeAll(whole)| == k && !open(whole) then Clean
                        else if truncate then Truncated(|EncodeAll(whole)|) else Fatal(UnexpectedEof)
  {
    hide EncodeAll, Whole;
  }

  /** The round trip: an undamaged log loads back to the commands that were written. */
  lemma RoundTrip(cmds: seq<Argv>, truncate: bool, known: bytes -> bool, open: seq<Argv> -> bool)
    requires Logged(cmds, known) && cmds != []
    ensures Load(EncodeAll(cmds), truncate, known, open)
            == Closed(Loaded(cmds, Clean), |EncodeAll(cmds)|, truncate, open)
  {
    hide LoadFrom, Encode;
    var k := |EncodeAll(cmds)|;
    LoadsRecovered(cmds, k, truncate, known, open);
    WholeIsGreatest(cmds, k);
    var m := Whole(cmds, k);
    if m < |cmds| {
      assert cmds == cmds[..m + 1] + cmds[m + 1..];
      FlatMapSplit(Encode, cmds[..m + 1], cmds[m + 1..]);
    }
    assert EncodeAll(cmds)[..k] == EncodeAll(cmds) && cmds[..|cmds|] == cmds;
  }

  /** A whole log that leaves a MULTI open is loaded, with aof-load-truncated, and cut where it ends anyway:
      nothing goes, and every later load finds the same. */
  lemma OpenMultiIsNotCut(cmds: seq<Argv>, known: bytes -> bool, open: seq<Argv> -> bool)
    requires Logged(cmds, known) && cmds != []
    ensures open(cmds) <==> Load(EncodeAll(cmds), true, known, open) == Loaded(cmds, Truncated(|EncodeAll(cmds)|))
  {
    hide Load, Encode;
    RoundTrip(cmds, true, known, open);
  }

  lemma WholeIsPrefix(cmds: seq<Argv>, k: nat)
    requires k <= |EncodeAll(cmds)|
    ensures var whole := EncodeAll(cmds[..Whole(cmds, k)]);
            |whole| <= k && EncodeAll(cmds)[..k][..|whole|] == whole
  {
    WholeIsGreatest(cmds, k);
    var m := Whole(cmds, k);
    FlatMapSplit(Encode, cmds[..m], cmds[m..]);
    assert cmds == cmds[..m] + cmds[m..];
    assert EncodeAll(cmds) == EncodeAll(cmds[..m]) + EncodeAll(cmds[m..]);
    hide EncodeAll, Whole;
  }

  /** After the truncation the file is again the log of whole commands. */
  lemma TruncatedFileIsALog(cmds: seq<Argv>, k: nat, known: bytes -> bool, open: seq<Argv> -> bool)
    requires Logged(cmds, known) && 0 < k <= |EncodeAll(cmds)|
    requires Load(EncodeAll(cmds)[..k], true, known, open).end.Truncated?
    ensures var l := Load(EncodeAll(cmds)[..k], true, known, open);
            && l.end.offset <= k
            && EncodeAll(cmds)[..k][..l.end.offset] == EncodeAll(l.executed)
  {
    hide LoadFrom, Encode;
    LoadsRecovered(cmds, k, true, known, open);
    WholeIsPrefix(cmds, k);
  }
}
