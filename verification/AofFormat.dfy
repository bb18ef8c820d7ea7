/** The append only file: what is written for a command, what the loader makes of arbitrary bytes, and
    what it recovers from a file that was cut anywhere. */
module AofFormat {
  import opened Basics

  type Argv = seq<bytes>

  const STAR: byte := 42
  const DOLLAR: byte := 36
  const CR: byte := 13
  const LF: byte := 10
  const INT_MAX: nat := 0x7fff_ffff
  const LONG_MAX: nat := 0x7fff_ffff_ffff_ffff
  /** sizeof(buf) in the loader */
  const LINE: nat := 128

  lemma LongLength(n: nat)
    requires n <= LONG_MAX
    ensures |Decimal(n)| <= 19
  {
    assert Pow10(4) == 10000;
    assert Pow10(19) == 10_000_000_000_000_000_000;
    DecimalLength(n, 19);
  }

  // ---------------------------------------------------------------- writing

  function Header(mark: byte, n: nat): bytes {
    [mark] + Decimal(n) + [CR, LF]
  }

  function EncodeArg(a: bytes): bytes {
    Header(DOLLAR, |a|) + a + [CR, LF]
  }

  function EncodeArgs(args: Argv): bytes {
    FlatMap(EncodeArg, args)
  }

  function Encode(argv: Argv): (r: bytes)
    ensures |r| > 0
  {
    Header(STAR, |argv|) + EncodeArgs(argv)
  }

  function EncodeAll(cmds: seq<Argv>): bytes {
    FlatMap(Encode, cmds)
  }

  /** The format, on an argument and on a command of two. */
  lemma EncodedExample(a: bytes, b: bytes)
    ensures EncodeArg(Text("SELECT")) == Text("$6") + [13, 10] + Text("SELECT") + [13, 10]
    ensures Encode([a, b]) == Text("*2") + [13, 10] + EncodeArg(a) + EncodeArg(b)
  {
    assert Decimal(6) == Text("6") && Decimal(2) == Text("2");
    assert Header(DOLLAR, 6) == Text("$6") + [13, 10] && Header(STAR, 2) == Text("*2") + [13, 10];
    assert EncodeArg(Text("SELECT")) == Header(DOLLAR, 6) + Text("SELECT") + [13, 10];
    hide Header, EncodeArg;
    FlatMapTwo(EncodeArg, a, b);
    Regroup(Header(STAR, 2), EncodeArg(a), EncodeArg(b));
  }

  method CatArgument(dst: bytes, a: bytes) returns (r: bytes)
    ensures r == dst + EncodeArg(a)
  {
    r := dst + [DOLLAR] + Decimal(|a|) + [CR, LF];
    assert r == dst + Header(DOLLAR, |a|);
    r := r + a;
    r := r + [CR, LF];
  }

  method CatAppendOnlyGenericCommand(dst: bytes, argv: Argv) returns (r: bytes)
    ensures r == dst + Encode(argv)
  {
    r := dst + [STAR] + Decimal(|argv|) + [CR, LF];
    ghost var start := r;
    assert start == dst + Header(STAR, |argv|);
    for j := 0 to |argv|
      invariant r == start + EncodeArgs(argv[..j])
    {
      FlatMapSnoc(EncodeArg, argv[..j], argv[j]);
      assert argv[..j + 1] == argv[..j] + [argv[j]];
      r := CatArgument(r, argv[j]);
    }
    assert argv[..|argv|] == argv;
  }

  // ---------------------------------------------------------------- reading

  /** How many bytes fgets() takes from `s` into a buffer with room for `max` of them. */
  function LineLength(s: bytes, max: nat): (k: nat)
    ensures k <= |s| && k <= max
    ensures s != [] && max > 0 ==> k > 0
  {
    if s == [] || max == 0 then 0 else if s[0] == LF then 1 else 1 + LineLength(s[1..], max - 1)
  }

  function Line(s: bytes): bytes {
    s[..LineLength(s, LINE - 1)]
  }

  function AfterLine(s: bytes): bytes {
    s[LineLength(s, LINE - 1)..]
  }

  /** Whether reading this line ran into the end of the file. */
  predicate HitsEof(line: bytes) {
    |line| < LINE - 1 && (line == [] || line[|line| - 1] != LF)
  }

  datatype Trouble = UnexpectedEof | ReadError | BadFormat | UnknownCommand | OutOfMemory

  datatype Got<T> = Got(value: T, rest: bytes) | Bad(trouble: Trouble)

  /** One argument: a length line, that many bytes, and two more that are not looked at. A negative
      length is a huge unsigned one, which cannot be allocated. */
  function ReadArg(s: bytes): (g: Got<bytes>)
    ensures g.Got? ==> |g.rest| < |s|
  {
    if s == [] then Bad(UnexpectedEof)
    else if Line(s)[0] != DOLLAR then Bad(BadFormat)
    else
      var len := ParseNumber(Line(s)[1..]);
      var t := AfterLine(s);
      if len < 0 then Bad(OutOfMemory)
      else if |t| < len + 2 then Bad(UnexpectedEof)
      else Got(t[..len], t[len + 2..])
  }

  function Prepend(args: Argv, g: Got<Argv>): Got<Argv> {
    if g.Bad? then g else Got(args + g.value, g.rest)
  }

  lemma PrependNothing(g: Got<Argv>)
    ensures Prepend([], g) == g
  {
    assert g.Got? ==> [] + g.value == g.value;
  }

  lemma PrependTwice(a: Argv, b: Argv, g: Got<Argv>)
    ensures Prepend(a, Prepend(b, g)) == Prepend(a + b, g)
  {
    assert g.Got? ==> a + (b + g.value) == (a + b) + g.value;
  }

  function ReadArgs(s: bytes, n: nat): (g: Got<Argv>)
    ensures g.Got? ==> |g.value| == n && |g.rest| <= |s|
  {
    if n == 0 then Got([], s)
    else
      match ReadArg(s)
      case Bad(trouble) => Bad(trouble)
      case Got(a, t) => Prepend([a], ReadArgs(t, n - 1))
  }

  function ReadCount(s: bytes): (g: Got<nat>)
    requires s != []
    ensures g.Got? ==> g.value > 0 && |g.rest| < |s|
  {
    var line := Line(s);
    if line[0] != STAR then Bad(BadFormat)
    else if |line| == 1 || line[1] == 0 then Bad(if HitsEof(line) then UnexpectedEof else ReadError)
    else if ParseNumber(line[1..]) < 1 then Bad(BadFormat)
    else Got(ParseNumber(line[1..]), AfterLine(s))
  }

  function ReadCommand(s: bytes): (g: Got<Argv>)
    requires s != []
    ensures g.Got? ==> |g.value| > 0 && |g.rest| < |s|
  {
    match ReadCount(s)
    case Bad(trouble) => Bad(trouble)
    case Got(n, t) => ReadArgs(t, n)
  }

  /** What does not start with a star and a positive number is refused. */
  lemma BadCommand(s: bytes)
    requires s != []
    ensures s[0] != 42 ==> ReadCommand(s) == Bad(BadFormat)
    ensures s[0] == 42 && |Line(s)| > 1 && s[1] != 0 && ParseNumber(Line(s)[1..]) < 1 ==>
              ReadCommand(s) == Bad(BadFormat)
    ensures s == [42] ==> ReadCommand(s) == Bad(UnexpectedEof)
  {
  }

  /** So is an argument that does not start with a dollar sign; a missing one is a cut file. */
  lemma BadArgument(s: bytes, n: nat)
    requires n > 0
    ensures s == [] ==> ReadArgs(s, n) == Bad(UnexpectedEof)
    ensures s != [] && s[0] != 36 ==> ReadArgs(s, n) == Bad(BadFormat)
    ensures s != [] && s[0] == 36 && ParseNumber(Line(s)[1..]) < 0 ==> ReadArgs(s, n) == Bad(OutOfMemory)
  {
  }

  /** The two bytes behind an argument are not looked at. */
  lemma TwoBytesSkipped(s: bytes)
    requires s != [] && s[0] == 36 && ParseNumber(Line(s)[1..]) >= 0
    ensures var len, t := ParseNumber(Line(s)[1..]), s[|Line(s)|..];
            ReadArg(s) == if |t| < len + 2 then Bad(UnexpectedEof) else Got(t[..len], t[len + 2..])
  {
  }

  datatype End = Clean | EmptyFile | Truncated(offset: nat) | Fatal(trouble: Trouble)

  /** The commands that were executed, in order, and how loading ended. */
  datatype Loaded = Loaded(executed: seq<Argv>, end: End)

  function After(executed: seq<Argv>, l: Loaded): Loaded {
    Loaded(executed + l.executed, l.end)
  }

  lemma AfterNothing(l: Loaded)
    ensures After([], l) == l
  {
  }

  lemma AfterNone(executed: seq<Argv>, end: End)
    ensures After(executed, Loaded([], end)) == Loaded(executed, end)
  {
  }

  lemma AfterTwice(a: seq<Argv>, b: seq<Argv>, l: Loaded)
    ensures After(a, After(b, l)) == After(a + b, l)
  {
  }

  /** Loading goes on with `s`, the last bytes of the file, when `offset` bytes were consumed. */
  function LoadFrom(s: bytes, offset: nat, truncate: bool, known: bytes -> bool): Loaded
    decreases |s|
  {
    if s == [] then Loaded([], Clean)
    else
      match ReadCommand(s)
      case Bad(UnexpectedEof) => Loaded([], if truncate then Truncated(offset) else Fatal(UnexpectedEof))
      case Bad(trouble) => Loaded([], Fatal(trouble))
      case Got(argv, t) =>
        if !known(argv[0]) then Loaded([], Fatal(UnknownCommand))
        else
          After([argv], LoadFrom(t, offset + |s| - |t|, truncate, known))
  }

  lemma LoadFromNothing(offset: nat, truncate: bool, known: bytes -> bool)
    ensures LoadFrom([], offset, truncate, known) == Loaded([], Clean)
  {
  }

  lemma LoadFromBad(s: bytes, trouble: Trouble, offset: nat, truncate: bool, known: bytes -> bool)
    requires s != [] && ReadCommand(s) == Bad(trouble)
    ensures LoadFrom(s, offset, truncate, known)
            == Loaded([], if trouble == UnexpectedEof && truncate then Truncated(offset) else Fatal(trouble))
  {
  }

  lemma LoadFromGot(s: bytes, argv: Argv, t: bytes, offset: nat, truncate: bool, known: bytes -> bool)
    requires s != [] && ReadCommand(s) == Got(argv, t)
    ensures LoadFrom(s, offset, truncate, known)
            == if !known(argv[0]) then Loaded([], Fatal(UnknownCommand))
               else After([argv], LoadFrom(t, offset + |s| - |t|, truncate, known))
  {
    hide ReadCommand;
  }

  /** The whole of loadAppendOnlyFile(). */
  function Load(file: bytes, truncate: bool, known: bytes -> bool, open: seq<Argv> -> bool): Loaded {
    if file == [] then Loaded([], EmptyFile) else Closed(LoadFrom(file, 0, truncate, known), |file|, truncate, open)
  }

  /** The check at the end of a file of `size` bytes that read well: `open` says whether commands leave the
      client in the middle of a MULTI. That counts as an unexpected end of the file. */
  function Closed(l: Loaded, size: nat, truncate: bool, open: seq<Argv> -> bool): Loaded {
    if l.end != Clean || !open(l.executed) then l
    else Loaded(l.executed, if truncate then Truncated(size) else Fatal(UnexpectedEof))
  }

  // ---------------------------------------------------------------- the loader

  /** Reads one argument at position `pos`. */
  method LoadArgument(file: bytes, pos: nat) returns (arg: bytes, next: nat, trouble: Trouble, ok: bool)
    requires pos <= |file|
    ensures next <= |file|
    ensures ReadArg(file[pos..]) == if ok then Got(arg, file[next..]) else Bad(trouble)
  {
    arg, next, trouble, ok := [], pos, UnexpectedEof, false;
    if pos == |file| {
      return;
    }
    var line := Line(file[pos..]);
    if line[0] != DOLLAR {
      trouble := BadFormat;
      return;
    }
    var len := ParseNumber(line[1..]);
    if len < 0 {
      trouble := OutOfMemory;
      return;
    }
    var start := pos + |line|;
    assert AfterLine(file[pos..]) == file[start..];
    if |file| - start >= len + 2 {
      arg, next, ok := file[start..start + len], start + len + 2, true;
      assert file[start..][..len] == arg && file[start..][len + 2..] == file[next..];
    }
  }

  /** The inner loop of the loader. */
  method LoadArguments(file: bytes, pos: nat, argc: nat) returns (argv: Argv, next: nat, trouble: Trouble, ok: bool)
    requires pos <= |file|
    ensures next <= |file|
    ensures ReadArgs(file[pos..], argc) == if ok then Got(argv, file[next..]) else Bad(trouble)
  {
    argv, next, trouble, ok := [], pos, UnexpectedEof, true;
    PrependNothing(ReadArgs(file[pos..], argc));
    for j := 0 to argc
      invariant ok && next <= |file|
      invariant ReadArgs(file[pos..], argc) == Prepend(argv, ReadArgs(file[next..], argc - j))
    {
      ghost var before := next;
      var arg;
      arg, next, trouble, ok := LoadArgument(file, next);
      if !ok {
        return;
      }
      PrependTwice(argv, [arg], ReadArgs(file[next..], argc - j - 1));
      argv := argv + [arg];
    }
    assert argv + [] == argv;
  }

  /** The body of the loader's main loop, up to the execution of the command. */
  method LoadCommand(file: bytes, pos: nat) returns (argv: Argv, next: nat, trouble: Trouble, ok: bool)
    requires pos < |file|
    ensures next <= |file|
    ensures ReadCommand(file[pos..]) == if ok then Got(argv, file[next..]) else Bad(trouble)
  {
    argv, next, trouble, ok := [], pos, BadFormat, false;
    var line := Line(file[pos..]);
    if line[0] != STAR {
      return;
    }
    if |line| == 1 || line[1] == 0 {
      trouble := if HitsEof(line) then UnexpectedEof else ReadError;
      return;
    }
    var argc := ParseNumber(line[1..]);
    if argc < 1 {
      return;
    }
    assert AfterLine(file[pos..]) == file[pos + |line|..];
    argv, next, trouble, ok := LoadArguments(file, pos + |line|, argc);
  }

  /** One round of the main loop: a command to execute, or how loading ends. */
  method LoadNext(file: bytes, pos: nat, validUpTo: nat, truncate: bool, known: bytes -> bool)
    returns (argv: Argv, next: nat, end: Option<End>)
    requires pos < |file| && (truncate ==> validUpTo == pos)
    ensures pos <= next <= |file| && (end.None? ==> pos < next)
    ensures LoadFrom(file[pos..], pos, truncate, known)
            == if end.Some? then Loaded([], end.value) else After([argv], LoadFrom(file[next..], next, truncate, known))
  {
    hide LoadFrom, ReadCommand, After;
    var trouble, ok;
    argv, next, trouble, ok := LoadCommand(file, pos);
    if !ok {
      LoadFromBad(file[pos..], trouble, pos, truncate, known);
      return argv, pos, Some(if trouble == UnexpectedEof && truncate then Truncated(validUpTo) else Fatal(trouble));
    }
    LoadFromGot(file[pos..], argv, file[next..], pos, truncate, known);
    end := if known(argv[0]) then None else Some(Fatal(UnknownCommand));
  }

  method LoadAppendOnlyFile(file: bytes, truncate: bool, known: bytes -> bool, open: seq<Argv> -> bool)
    returns (loaded: Loaded)
    ensures loaded == Load(file, truncate, known, open)
  {
    if file == [] {
      return Loaded([], EmptyFile);
    }
    hide LoadFrom, After;
    var pos, executed, validUpTo := 0, [], 0;
    assert file[0..] == file;
    AfterNothing(LoadFrom(file, 0, truncate, known));
    while pos < |file|
      invariant pos <= |file| && (truncate ==> validUpTo == pos)
      invariant LoadFrom(file, 0, truncate, known) == After(executed, LoadFrom(file[pos..], pos, truncate, known))
    {
      var argv, next, end := LoadNext(file, pos, validUpTo, truncate, known);
      if end.Some? {
        AfterNone(executed, end.value);
        return Loaded(executed, end.value);
      }
      AfterTwice(executed, [argv], LoadFrom(file[next..], next, truncate, known));
      executed, pos := executed + [argv], next;
      if truncate {
        validUpTo := pos;
      }
    }
    LoadFromNothing(pos, truncate, known);
    AfterNone(executed, Clean);
    if open(executed) {
      return Loaded(executed, if truncate then Truncated(validUpTo) else Fatal(UnexpectedEof));
    }
    loaded := Loaded(executed, Clean);
  }
}
