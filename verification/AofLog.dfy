/** The append only file refines the dataset: while it is on, replaying what is in the file followed by
    what waits in the buffer rebuilds the dataset, whatever happens to writes and rewrites. */
module AofLog {
  import opened Basics
  import opened AofFormat
  import opened AofRecovery
  import opened AofRewrite
  import P = AofProtocol

  // ---------------------------------------------------------------- replaying commands

  /** S E L E C T */
  const SELECT: bytes := [83, 69, 76, 69, 67, 84]

  /** The databases, and the one that the replaying client has selected. */
  datatype Session<D> = Session(data: D, db: nat)

  predicate IsSelect(argv: Argv) {
    |argv| == 2 && argv[0] == SELECT && ParseNumber(argv[1]) >= 0
  }

  function SelectDb(db: nat): Argv {
    [SELECT, Decimal(db)]
  }

  /** One command. `apply` stands for the effect of any command on the dataset. */
  function Exec<D>(apply: (D, nat, Argv) -> D, s: Session<D>, argv: Argv): Session<D> {
    if IsSelect(argv) then s.(db := ParseNumber(argv[1])) else s.(data := apply(s.data, s.db, argv))
  }

  function Replay<D>(apply: (D, nat, Argv) -> D, s: Session<D>, cmds: seq<Argv>): Session<D>
    decreases |cmds|
  {
    if cmds == [] then s else Replay(apply, Exec(apply, s, cmds[0]), cmds[1..])
  }

  lemma {:induction false} ReplaySplit<D>(apply: (D, nat, Argv) -> D, s: Session<D>, cmds: seq<Argv>, more: seq<Argv>)
    ensures Replay(apply, s, cmds + more) == Replay(apply, Replay(apply, s, cmds), more)
    decreases |cmds|
  {
    if cmds == [] {
      assert cmds + more == more;
    } else {
      ReplaySplit(apply, Exec(apply, s, cmds[0]), cmds[1..], more);
      assert (cmds + more)[1..] == cmds[1..] + more;
    }
  }

  lemma SelectSelects<D>(apply: (D, nat, Argv) -> D, s: Session<D>, db: nat)
    ensures IsSelect(SelectDb(db)) && Exec(apply, s, SelectDb(db)) == s.(db := db)
  {
    DecimalReads(db, []);
    assert Decimal(db) + [] == Decimal(db);
  }

  /** What feedAppendOnlyFile() emits for a command: a SELECT first when the database changed. */
  function Emitted(selected: int, db: nat, argv: Argv): seq<Argv> {
    if selected != db then [SelectDb(db), argv] else [argv]
  }

  lemma EmittedText(selected: int, db: nat, argv: Argv)
    ensures EncodeAll(Emitted(selected, db, argv))
            == if selected == db then Encode(argv) else Encode(SelectDb(db)) + Encode(argv)
    ensures SelectDb(db) == [Text("SELECT"), Decimal(db)]
  {
    hide Encode;
    FlatMapTwo(Encode, argv, argv);
    FlatMapTwo(Encode, SelectDb(db), argv);
    assert SELECT == Text("SELECT");
  }

  lemma EmittedReplays<D>(apply: (D, nat, Argv) -> D, s: Session<D>, selected: int, db: nat, argv: Argv)
    requires !IsSelect(argv) && (selected >= 0 ==> s.db == selected)
    ensures Replay(apply, s, Emitted(selected, db, argv)) == Session(apply(s.data, db, argv), db)
  {
    SelectSelects(apply, s, db);
    var t := s.(db := db);
    assert Replay(apply, t, [argv]) == Replay(apply, Exec(apply, t, argv), []);
    if selected != db {
      assert [SelectDb(db), argv][1..] == [argv];
      assert Replay(apply, s, [SelectDb(db), argv]) == Replay(apply, t, [argv]);
    }
  }

  /** SELECT as far as the length of its argument. */
  const SELECT_TEXT: bytes := [STAR, 50, CR, LF, DOLLAR, 54, CR, LF] + SELECT + [CR, LF]

  lemma SelectTextStart(rest: bytes)
    ensures Header(STAR, 2) + (EncodeArg(SELECT) + rest) == SELECT_TEXT + rest
  {
  }

  /** The literal text of the SELECT command is its encoding. */
  lemma SelectText(db: nat)
    ensures SELECT_TEXT + [DOLLAR] + Decimal(|Decimal(db)|) + [CR, LF] + Decimal(db) + [CR, LF] == Encode(SelectDb(db))
  {
    hide Decimal;
    var d := Decimal(db);
    FlatMapTwo(EncodeArg, SELECT, d);
    SelectTextStart(EncodeArg(d));
    assert SELECT_TEXT + [DOLLAR] + Decimal(|d|) + [CR, LF] + d + [CR, LF] == SELECT_TEXT + EncodeArg(d);
  }

  /** `cmds` rebuild `data` from nothing and, unless `selected` is -1, end with that database selected. */
  ghost predicate Leads<D>(apply: (D, nat, Argv) -> D, known: bytes -> bool, empty: D, cmds: seq<Argv>, data: D,
                           selected: int)
  {
    var s := Replay(apply, Session(empty, 0), cmds);
    Logged(cmds, known) && s.data == data && (selected >= 0 ==> s.db == selected)
  }

  lemma SelectIsLogged(db: nat, known: bytes -> bool)
    requires db <= INT_MAX && known(SELECT)
    ensures Logged([SelectDb(db)], known)
  {
    LongLength(db);
  }

  lemma LeadsMore<D>(apply: (D, nat, Argv) -> D, known: bytes -> bool, empty: D, cmds: seq<Argv>, data: D,
                     selected: int, db: nat, argv: Argv)
    requires Leads(apply, known, empty, cmds, data, selected) && !IsSelect(argv) && db <= INT_MAX
    requires known(SELECT) && Writable(argv) && known(argv[0])
    ensures Leads(apply, known, empty, cmds + Emitted(selected, db, argv), apply(data, db, argv), db)
  {
    var s := Replay(apply, Session(empty, 0), cmds);
    ReplaySplit(apply, Session(empty, 0), cmds, Emitted(selected, db, argv));
    EmittedReplays(apply, s, selected, db, argv);
    SelectIsLogged(db, known);
    assert SelectDb(db) in [SelectDb(db)];
  }

  lemma LeadsAnyDb<D>(apply: (D, nat, Argv) -> D, known: bytes -> bool, empty: D, cmds: seq<Argv>, data: D,
                      selected: int)
    requires Leads(apply, known, empty, cmds, data, selected)
    ensures Leads(apply, known, empty, cmds, data, -1)
  {
  }

  /** The child's file followed by the parent's remainder is the log of the snapshot and the difference. */
  lemma FilesJoin(snapshot: seq<Argv>, diff: seq<Argv>, sent: bytes, pending: bytes)
    requires sent + pending == EncodeAll(diff)
    ensures (EncodeAll(snapshot) + sent) + pending == EncodeAll(snapshot + diff)
  {
    FlatMapSplit(Encode, snapshot, diff);
    assert EncodeAll(snapshot + diff) == EncodeAll(snapshot) + EncodeAll(diff);
    hide EncodeAll;
    Regroup(EncodeAll(snapshot), sent, pending);
  }

  lemma EncodeMore(a: bytes, b: bytes, cmds: seq<Argv>, more: seq<Argv>)
    requires a + b == EncodeAll(cmds)
    ensures a + (b + EncodeAll(more)) == EncodeAll(cmds + more)
  {
    FlatMapSplit(Encode, cmds, more);
    assert EncodeAll(cmds + more) == EncodeAll(cmds) + EncodeAll(more);
    hide EncodeAll;
    Regroup(a, b, EncodeAll(more));
  }

  lemma NothingFedYet(snapshot: seq<Argv>)
    ensures snapshot + [] == snapshot
    ensures [] + [] == EncodeAll([])
  {
  }

  /** Bytes that went to the file are the bytes that left the buffer. */
  lemma Written(file: bytes, buffer: bytes, n: nat)
    requires n <= |buffer|
    ensures (file + buffer[..n]) + buffer[n..] == file + buffer && file <= file + buffer[..n] <= file + buffer
    ensures file + buffer[..0] == file && buffer[0..] == buffer && (file + buffer[..n])[..|file|] == file
  {
  }

  /** What feeding one more command keeps, for the log as for what the child needs. */
  lemma FedMore<D>(apply: (D, nat, Argv) -> D, known: bytes -> bool, empty: D, start: seq<Argv>, cmds: seq<Argv>,
                   a: bytes, b: bytes, data: D, selected: int, db: nat, argv: Argv)
    requires Leads(apply, known, empty, start + cmds, data, selected) && a + b == EncodeAll(cmds)
    requires !IsSelect(argv) && db <= INT_MAX && known(SELECT) && Writable(argv) && known(argv[0])
    ensures var emitted := Emitted(selected, db, argv);
            && Leads(apply, known, empty, start + (cmds + emitted), apply(data, db, argv), db)
            && a + (b + EncodeAll(emitted)) == EncodeAll(cmds + emitted)
  {
    hide Leads, Emitted, EncodeAll;
    var emitted := Emitted(selected, db, argv);
    LeadsMore(apply, known, empty, start + cmds, data, selected, db, argv);
    EncodeMore(a, b, cmds, emitted);
    assert (start + cmds) + emitted == start + (cmds + emitted);
  }

  lemma LoggedMore<D>(apply: (D, nat, Argv) -> D, known: bytes -> bool, empty: D, cmds: seq<Argv>,
                      a: bytes, b: bytes, data: D, selected: int, db: nat, argv: Argv)
    requires Leads(apply, known, empty, cmds, data, selected) && a + b == EncodeAll(cmds)
    requires !IsSelect(argv) && db <= INT_MAX && known(SELECT) && Writable(argv) && known(argv[0])
    ensures var emitted := Emitted(selected, db, argv);
            && Leads(apply, known, empty, cmds + emitted, apply(data, db, argv), db)
            && a + (b + EncodeAll(emitted)) == EncodeAll(cmds + emitted)
  {
    hide Leads, Emitted, EncodeAll, Writable;
    var emitted := Emitted(selected, db, argv);
    assert [] + cmds == cmds && [] + (cmds + emitted) == cmds + emitted;
    FedMore(apply, known, empty, [], cmds, a, b, data, selected, db, argv);
  }

  // ---------------------------------------------------------------- the server

  datatype AofState = Off | On | WaitRewrite

  /** appendfsync */
  datatype Fsync = Always | EverySec | No

  /** How much of a write of `size` bytes stays in the file, of which write() took `written`. */
  function Kept(written: int, size: nat, undone: bool): (k: nat)
    requires written <= size
    ensures k <= size
  {
    if written == size || (written > 0 && !undone) then written else 0
  }

  class AofServer<D> {
    ghost const apply: (D, nat, Argv) -> D
    ghost const known: bytes -> bool
    ghost const empty: D

    var state: AofState
    /** The file called aof_filename. */
    var file: bytes
    var fdSet: bool
    var aofBuf: bytes
    var currentSize: nat
    var selectedDb: int
    var lastWriteOk: bool
    var child: bool
    /** What the blocks of AofRewrite.RewriteBuffer hold. */
    var pending: bytes

    /** The dataset; the commands in file and buffer; those the child started from and those fed since;
        the bytes of the latter that went into the pipe; how many flushes fell short. */
    ghost var data: D
    ghost var log: seq<Argv>
    ghost var snapshot: seq<Argv>
    ghost var diff: seq<Argv>
    ghost var sent: bytes
    ghost var shorts: nat

    ghost predicate Rebuilds(cmds: seq<Argv>)
      reads this
    {
      Leads(apply, known, empty, cmds, data, selectedDb)
    }

    ghost predicate LogValid()
      reads this
    {
      state == On ==> file + aofBuf == EncodeAll(log) && Rebuilds(log) && currentSize == |file|
    }

    ghost predicate ChildValid()
      reads this
    {
      && (child && state != Off ==> Rebuilds(snapshot + diff) && sent + pending == EncodeAll(diff))
      && (!child || state == Off ==> pending == [])
    }

    ghost predicate Valid()
      reads this
    {
      selectedDb >= -1 && known(SELECT) && (state != Off ==> fdSet) && LogValid() && ChildValid()
    }

    /** A server that never logged anything. */
    constructor (ghost apply: (D, nat, Argv) -> D, ghost known: bytes -> bool, ghost empty: D)
      requires known(SELECT)
      ensures Valid() && state == Off && !child && data == empty
      ensures this.apply == apply && this.known == known && this.empty == empty
    {
      this.apply, this.known, this.empty := apply, known, empty;
      state, file, fdSet, aofBuf, currentSize, selectedDb := Off, [], false, [], 0, -1;
      lastWriteOk, child := true, false;
      pending := [];
      data, log, snapshot, diff, sent, shorts := empty, [], [], [], [], 0;
    }

    /** A server that started with the log on and loaded the commands `cmds` from it. */
    constructor Loaded(ghost apply: (D, nat, Argv) -> D, ghost known: bytes -> bool, ghost empty: D,
                       contents: bytes, ghost cmds: seq<Argv>)
      requires known(SELECT) && Logged(cmds, known) && contents == EncodeAll(cmds)
      ensures Valid() && state == On && !child && log == cmds && file == contents
      ensures data == Replay(apply, Session(empty, 0), cmds).data
      ensures this.apply == apply && this.known == known && this.empty == empty
    {
      this.apply, this.known, this.empty := apply, known, empty;
      state, file, fdSet, aofBuf, currentSize, selectedDb := On, contents, true, [], |contents|, -1;
      lastWriteOk, child := true, false;
      pending := [];
      data := Replay(apply, Session(empty, 0), cmds).data;
      log, snapshot, diff, sent, shorts := cmds, [], [], [], 0;
      new;
      assert contents + [] == contents;
    }

    /** The text that a command adds to the log. */
    method FeedText(db: nat, argv: Argv) returns (buf: bytes)
      requires db <= INT_MAX
      modifies this`selectedDb
      ensures buf == EncodeAll(Emitted(old(selectedDb), db, argv)) && selectedDb == db
      ensures old(selectedDb) == db ==> buf == Encode(argv)
      ensures old(selectedDb) != db ==> buf == Encode([Text("SELECT"), Decimal(db)]) + Encode(argv)
    {
      buf := [];
      if db != selectedDb {
        var seldb := Decimal(db);
        buf := SELECT_TEXT + [DOLLAR] + Decimal(|seldb|) + [CR, LF] + seldb + [CR, LF];
        SelectText(db);
        selectedDb := db;
      }
      EmittedText(old(selectedDb), db, argv);
      hide Emitted, EncodeAll, Encode, SelectDb;
      buf := CatAppendOnlyGenericCommand(buf, argv);
    }

    /** feedAppendOnlyFile(): the text goes to the buffer and to the child's blocks. */
    method Feed(db: nat, argv: Argv)
      requires db <= INT_MAX
      modifies this`selectedDb, this`aofBuf, this`log, this`pending, this`diff
      ensures selectedDb == db
      ensures var emitted := Emitted(old(selectedDb), db, argv);
              && log == old(log) + (if state == On then emitted else [])
              && aofBuf == old(aofBuf) + (if state == On then EncodeAll(emitted) else [])
              && diff == old(diff) + (if child then emitted else [])
              && pending == old(pending) + (if child then EncodeAll(emitted) else [])
    {
      hide Emitted, EncodeAll;
      ghost var emitted := Emitted(selectedDb, db, argv);
      var buf := FeedText(db, argv);
      if state == On {
        aofBuf, log := aofBuf + buf, log + emitted;
      }
      if child {
        pending, diff := pending + buf, diff + emitted;
      }
    }

    /** A write command takes effect on database `db`, and is fed to the log unless that is off. */
    method Propagate(db: nat, argv: Argv)
      requires Valid() && db <= INT_MAX && Writable(argv) && known(argv[0]) && !IsSelect(argv)
      modifies this`data, this`selectedDb, this`aofBuf, this`log, this`pending, this`diff
      ensures Valid() && data == apply(old(data), db, argv)
      ensures selectedDb == if state == Off then old(selectedDb) else db
      ensures var emitted := Emitted(old(selectedDb), db, argv);
              && log == old(log) + (if state == On then emitted else [])
              && aofBuf == old(aofBuf) + (if state == On then EncodeAll(emitted) else [])
              && diff == old(diff) + (if child && state != Off then emitted else [])
              && pending == old(pending) + (if child && state != Off then EncodeAll(emitted) else [])
    {
      hide Leads, Emitted, EncodeAll, IsSelect, Writable;
      if state != Off {
        if state == On {
          LoggedMore(apply, known, empty, log, file, aofBuf, data, selectedDb, db, argv);
        }
        if child {
          FedMore(apply, known, empty, snapshot, diff, sent, pending, data, selectedDb, db, argv);
        }
        Feed(db, argv);
      }
      data := apply(data, db, argv);
    }

    /** ftruncate() to the size the server believes the file has. */
    method Truncate()
      modifies this`file
      ensures |file| == currentSize
      ensures currentSize <= |old(file)| ==> file == old(file)[..currentSize]
    {
      if currentSize <= |file| {
        file := file[..currentSize];
      } else {
        file := file + seq(currentSize - |file|, _ => 0);
      }
    }

    /** The write itself, and the truncation that takes a short one back. The result is what write()
        returned, or -1 when nothing of it stays. */
    method WriteOut(written: int, undone: bool) returns (n: int)
      requires -1 <= written <= |aofBuf|
      modifies this`file
      ensures (if n > 0 then n else 0) == Kept(written, |aofBuf|, undone)
      ensures -1 <= n <= |aofBuf| && (n == |aofBuf| <==> written == |aofBuf|)
      ensures currentSize == |old(file)| ==> file == old(file) + aofBuf[..if n > 0 then n else 0]
    {
      n := written;
      Written(file, aofBuf, if n < 0 then 0 else n);
      if n > 0 {
        file := file + aofBuf[..n];
      }
      if 0 <= n < |aofBuf| && undone {
        Truncate();
        n := -1;
      }
    }

    /** Whether a flush leaves everything for later. */
    predicate Postpones(policy: Fsync, postpone: bool)
      reads this
    {
      aofBuf == [] || (policy == EverySec && postpone)
    }

    lemma SizeKnown()
      requires Valid()
      ensures state == On ==> currentSize == |file|
    {
    }

    /** A flush that is not postponed. */
    method FlushNow(policy: Fsync, written: int, undone: bool) returns (alive: bool)
      requires Valid() && aofBuf != [] && -1 <= written <= |aofBuf| && (!fdSet ==> written <= 0)
      modifies this`file, this`aofBuf, this`currentSize, this`lastWriteOk, this`shorts
      ensures alive ==> Valid()
      ensures shorts == old(shorts) + if written == |old(aofBuf)| then 0 else 1
      ensures alive <==> policy != Always || written == |old(aofBuf)|
      ensures alive ==> (lastWriteOk <==> written == |old(aofBuf)|)
      ensures alive ==> aofBuf == old(aofBuf)[Kept(written, |old(aofBuf)|, undone)..]
      ensures state == On ==> file == old(file) + old(aofBuf)[..Kept(written, |old(aofBuf)|, undone)]
    {
      hide Valid, Kept;
      SizeKnown();
      var n := WriteOut(written, undone);
      if n == |aofBuf| {
        lastWriteOk, currentSize, aofBuf := true, currentSize + n, [];
        LogStays(n);
        return true;
      }
      shorts := shorts + 1;
      if policy == Always {
        return false;
      }
      lastWriteOk := false;
      if n > 0 {
        currentSize, aofBuf := currentSize + n, aofBuf[n..];
        LogStays(n);
      } else {
        assert aofBuf[0..] == aofBuf;
        LogStays(0);
      }
      return true;
    }

    /** Writes the buffer to the file. `postpone` says that a background fsync is going on and has not
        been waited for long enough, `written` what write() returns, `undone` whether ftruncate() then
        takes a short write back. Not alive means that the process exits. */
    method FlushAppendOnlyFile(policy: Fsync, postpone: bool, written: int, undone: bool) returns (alive: bool)
      requires Valid() && -1 <= written <= |aofBuf| && (!fdSet ==> written <= 0)
      modifies this`file, this`aofBuf, this`currentSize, this`lastWriteOk, this`shorts
      ensures alive ==> Valid()
      ensures shorts == old(shorts) + if old(Postpones(policy, postpone)) || written == |old(aofBuf)| then 0 else 1
      ensures alive <==> policy != Always || shorts == old(shorts)
      ensures old(Postpones(policy, postpone)) ==>
                file == old(file) && aofBuf == old(aofBuf) && lastWriteOk == old(lastWriteOk)
      ensures !old(Postpones(policy, postpone)) && alive ==> (lastWriteOk <==> written == |old(aofBuf)|)
      ensures !old(Postpones(policy, postpone)) && alive ==>
                aofBuf == old(aofBuf)[Kept(written, |old(aofBuf)|, undone)..]
      ensures !old(Postpones(policy, postpone)) && state == On ==>
                file == old(file) + old(aofBuf)[..Kept(written, |old(aofBuf)|, undone)]
      ensures state == On ==> old(file) <= file <= EncodeAll(log)
      ensures state == On && alive && aofBuf == [] ==> file == EncodeAll(log)
      ensures old(aofBuf) == [] || (policy == EverySec && postpone) ==> file == old(file) && aofBuf == old(aofBuf)
      ensures old(aofBuf) != [] && !(policy == EverySec && postpone) && state == On ==>
                |file| - |old(file)| == if written < |old(aofBuf)| && (undone || written < 0) then 0 else written
    {
      hide Leads, EncodeAll;
      if aofBuf == [] || (policy == EverySec && postpone) {
        return true;
      }
      Written(file, aofBuf, Kept(written, |aofBuf|, undone));
      alive := FlushNow(policy, written, undone);
    }

    /** `n` bytes went from the buffer to the file. */
    twostate lemma LogStays(n: nat)
      requires old(Valid()) && fdSet == old(fdSet)
      requires state == old(state) && data == old(data) && selectedDb == old(selectedDb) && log == old(log)
      requires child == old(child) && snapshot == old(snapshot) && diff == old(diff)
      requires sent == old(sent) && pending == old(pending)
      requires n <= |old(aofBuf)| && aofBuf == old(aofBuf)[n..]
      requires state == On ==> file == old(file) + old(aofBuf)[..n] && currentSize == old(currentSize) + n
      ensures Valid()
    {
      hide Leads, EncodeAll;
      Written(old(file), old(aofBuf), n);
    }

    /** Forks a child that writes `snap`, commands that rebuild the dataset as it is now. */
    method RewriteAppendOnlyFileBackground(pipesOk: bool, forkOk: bool, ghost snap: seq<Argv>) returns (ok: bool)
      requires Valid() && Leads(apply, known, empty, snap, data, -1)
      modifies this`child, this`selectedDb, this`snapshot, this`diff, this`sent
      ensures Valid() && (ok <==> !old(child) && pipesOk && forkOk)
      ensures if ok then child && selectedDb == -1 && snapshot == snap && diff == [] && sent == []
              else child == old(child) && selectedDb == old(selectedDb) && snapshot == old(snapshot)
                   && diff == old(diff) && sent == old(sent)
    {
      if child || !pipesOk || !forkOk {
        return false;
      }
      Fork(snap);
      return true;
    }

    /** What the parent does once the child runs. */
    method Fork(ghost snap: seq<Argv>)
      requires Valid() && !child && Leads(apply, known, empty, snap, data, -1)
      modifies this`child, this`selectedDb, this`snapshot, this`diff, this`sent
      ensures Valid() && child && selectedDb == -1 && snapshot == snap && diff == [] && sent == []
    {
      hide Leads, EncodeAll;
      if state == On {
        LeadsAnyDb(apply, known, empty, log, data, selectedDb);
      }
      NothingFedYet(snap);
      child, selectedDb := true, -1;
      snapshot, diff, sent := snap, [], [];
    }

    /** The parent moves `n` bytes from its blocks into the pipe. */
    method SendDiff(n: nat)
      requires Valid() && n <= |pending|
      modifies this`pending, this`sent
      ensures Valid() && sent == old(sent) + old(pending)[..n] && pending == old(pending)[n..]
    {
      hide Leads, EncodeAll;
      assert pending == pending[..n] + pending[n..];
      sent, pending := sent + pending[..n], pending[n..];
    }

    /** The file the child wrote, followed by what it was not sent, becomes the log. */
    method Install(tmp: bytes)
      requires Valid() && child && tmp == EncodeAll(snapshot) + sent
      modifies this`file, this`log, this`selectedDb, this`currentSize, this`aofBuf, this`state
      ensures LogValid() && selectedDb >= -1 && (state == Off <==> old(state) == Off)
      ensures old(state) != Off ==> state == On && aofBuf == [] && log == snapshot + diff && file == EncodeAll(log)
    {
      hide Leads, EncodeAll;
      if state != Off {
        FilesJoin(snapshot, diff, sent, pending);
        LeadsAnyDb(apply, known, empty, snapshot + diff, data, selectedDb);
      }
      hide ChildValid;
      file, log := tmp + pending, snapshot + diff;
      assert file + [] == file;
      if fdSet {
        selectedDb, currentSize, aofBuf := -1, |file|, [];
      }
      if state == WaitRewrite {
        state := On;
      }
    }

    /** The child ended. When it succeeded `tmp` is what it wrote: its snapshot and all it was sent.
        `reopened`, `written` and `renamed` say which of the parent's own steps succeed. */
    method BackgroundRewriteDoneHandler(success: bool, tmp: bytes, reopened: bool, written: bool, renamed: bool)
      returns (replaced: bool)
      requires Valid() && child && (success ==> tmp == EncodeAll(snapshot) + sent)
      modifies this
      ensures Valid() && !child && data == old(data) && pending == [] && fdSet == old(fdSet) && shorts == old(shorts)
      ensures replaced <==> success && reopened && written && renamed
      ensures replaced && old(state) != Off ==>
                state == On && aofBuf == [] && log == old(snapshot + diff) && file == EncodeAll(log)
      ensures !replaced ==> state == old(state) && file == old(file) && aofBuf == old(aofBuf) && log == old(log)
      ensures old(state) == Off ==> state == Off
    {
      hide Leads, EncodeAll;
      replaced := success && reopened && written && renamed;
      if replaced {
        Install(tmp);
      }
      pending, child := [], false;
    }

    /** appendonly no becomes appendonly yes: the log is on once a rewrite succeeded. When the rewrite
        cannot start, the descriptor is closed but still set. */
    method StartAppendOnly(opens: bool, pipesOk: bool, forkOk: bool, ghost snap: seq<Argv>) returns (ok: bool)
      requires Valid() && state == Off && Leads(apply, known, empty, snap, data, -1)
      modifies this`fdSet, this`state, this`child, this`selectedDb, this`snapshot, this`diff, this`sent
      ensures Valid() && (ok <==> opens && !old(child) && pipesOk && forkOk)
      ensures state == if ok then WaitRewrite else Off
      ensures ok ==> child && snapshot == snap && diff == [] && sent == []
    {
      hide Leads;
      fdSet := opens;
      if !opens {
        return false;
      }
      ok := RewriteAppendOnlyFileBackground(pipesOk, forkOk, snap);
      if ok {
        LeadsAnyDb(apply, known, empty, snap, data, -1);
        assert snap + [] == snap;
        state := WaitRewrite;
      }
    }

    /** appendonly yes becomes appendonly no. A running child is killed. */
    method StopAppendOnly(policy: Fsync, written: int, undone: bool) returns (alive: bool)
      requires Valid() && state != Off && -1 <= written <= |aofBuf|
      modifies this
      ensures data == old(data) && (old(state) == On ==> old(file) <= file <= EncodeAll(old(log)))
      ensures alive ==> Valid() && state == Off && !child && !fdSet
      ensures alive <==> policy != Always || old(aofBuf) == [] || written == |old(aofBuf)|
    {
      alive := FlushAppendOnlyFile(policy, false, written, undone);
      if alive {
        fdSet, selectedDb, state := false, -1, Off;
        pending, child := [], false;
      }
    }
  }

  // ---------------------------------------------------------------- what survives

  /** While the log is on, loading the file as it is on disk executes a prefix of the logged commands. When
      nothing waits in the buffer it executes all of them, which rebuilds the dataset; the end is clean then
      unless the log leaves a MULTI open. */
  lemma FileRebuilds<D>(s: AofServer<D>, open: seq<Argv> -> bool)
    requires s.Valid() && s.state == On && s.file != []
    ensures var l := Load(s.file, true, s.known, open);
            && l.executed <= s.log && (l.end == Clean || l.end.Truncated?)
            && (s.aofBuf == [] ==> l.executed == s.log && (l.end == Clean <==> !open(s.log))
                                   && Replay(s.apply, Session(s.empty, 0), l.executed).data == s.data)
  {
    hide Load, Encode;
    var k := |s.file|;
    assert s.file == EncodeAll(s.log)[..k];
    CrashRecovery(s.log, k, true, s.known, open);
    if s.aofBuf == [] {
      assert s.file + [] == s.file;
      RoundTrip(s.log, true, s.known, open);
    }
  }

  // ---------------------------------------------------------------- a whole rewrite

  /** What happens while the child runs: a client's command, bytes that go to the child, a flush. */
  datatype Event = Command(db: nat, argv: Argv) | Bytes(n: nat) | Flush(postpone: bool)

  ghost predicate Acceptable(known: bytes -> bool, e: Event) {
    e.Command? ==> e.db <= INT_MAX && Writable(e.argv) && known(e.argv[0]) && !IsSelect(e.argv)
  }

  /** The dataset after the commands among `events`, without any log. */
  function Applied<D>(apply: (D, nat, Argv) -> D, data: D, events: seq<Event>): D {
    if events == [] then data
    else
      var before := Applied(apply, data, events[..|events| - 1]);
      match events[|events| - 1]
      case Command(db, argv) => apply(before, db, argv)
      case _ => before
  }

  /** The commands take effect in their order, each on its database. */
  lemma AppliedInOrder<D>(apply: (D, nat, Argv) -> D, data: D, a: Argv, b: Argv)
    ensures Applied(apply, data, [Command(0, a), Bytes(1), Command(7, b), Flush(false)])
            == apply(apply(data, 0, a), 7, b)
  {
    var events := [Command(0, a), Bytes(1), Command(7, b), Flush(false)];
    assert events[..3][..2] == events[..2] && events[..2][..1] == events[..1] && events[..1][..0] == [];
    assert Applied(apply, data, events[..1]) == apply(data, 0, a);
    assert Applied(apply, data, events[..2]) == apply(data, 0, a);
    assert Applied(apply, data, events[..3]) == apply(apply(data, 0, a), 7, b);
  }

  /** One event. `tmp` is the child's file so far. A flush may write as much as the system likes. */
  method Happen<D>(s: AofServer<D>, policy: Fsync, e: Event, tmp: bytes) returns (alive: bool, more: bytes)
    requires s.Valid() && s.child && s.state != Off && Acceptable(s.known, e)
    requires tmp == EncodeAll(s.snapshot) + s.sent
    modifies s
    ensures s.snapshot == old(s.snapshot) && s.shorts >= old(s.shorts)
    ensures alive <==> policy != Always || s.shorts == old(s.shorts)
    ensures s.data == Applied(s.apply, old(s.data), [e])
    ensures alive ==> s.Valid() && s.child && s.state == old(s.state) && more == EncodeAll(s.snapshot) + s.sent
  {
    hide Leads, EncodeAll, Writable, IsSelect, Emitted;
    alive, more := true, tmp;
    ghost var text, sent := EncodeAll(s.snapshot), s.sent;
    match e
    case Command(db, argv) =>
      s.Propagate(db, argv);
    case Bytes(m) =>
      var n := if m < |s.pending| then m else |s.pending|;
      more := more + s.pending[..n];
      assert more == text + (sent + s.pending[..n]);
      s.SendDiff(n);
    case Flush(postpone) =>
      var written: int, undone: bool := *, *;
      if !(-1 <= written <= |s.aofBuf|) || !s.fdSet {
        written := -1;
      }
      alive := s.FlushAppendOnlyFile(policy, postpone, written, undone);
  }

  /** From the fork to the end: whatever clients do, however the bytes reach the child and whatever the
      flushes write meanwhile, the new file is the whole log, and loading it gives the dataset. The process
      exits before the end exactly when a flush under Always falls short. */
  method AfterFork<D>(s: AofServer<D>, policy: Fsync, events: seq<Event>, snapshotText: bytes,
                      ghost open: seq<Argv> -> bool)
    returns (alive: bool)
    requires s.Valid() && s.child && s.state != Off && s.sent == [] && snapshotText == EncodeAll(s.snapshot)
    requires forall i :: 0 <= i < |events| ==> Acceptable(s.known, events[i])
    modifies s
    ensures s.shorts >= old(s.shorts) && (alive <==> policy != Always || s.shorts == old(s.shorts))
    ensures alive ==> s.Valid() && s.state == On && !s.child && s.data == Applied(s.apply, old(s.data), events)
    ensures alive ==> s.file == EncodeAll(s.log) && s.aofBuf == [] && old(s.snapshot) <= s.log
    ensures alive ==> Replay(s.apply, Session(s.empty, 0), s.log).data == s.data
    ensures alive && s.file != [] ==> Load(s.file, true, s.known, open).executed == s.log
  {
    hide EncodeAll, Acceptable, Load;
    var tmp := snapshotText;
    assert tmp + [] == tmp;
    for i := 0 to |events|
      invariant s.Valid() && s.child && s.state != Off && s.snapshot == old(s.snapshot)
      invariant tmp == EncodeAll(s.snapshot) + s.sent && s.shorts >= old(s.shorts)
      invariant policy == Always ==> s.shorts == old(s.shorts)
      invariant s.data == Applied(s.apply, old(s.data), events[..i])
    {
      assert events[..i + 1][..i] == events[..i];
      alive, tmp := Happen(s, policy, events[i], tmp);
      if !alive {
        return;
      }
    }
    assert events[..|events|] == events;
    var _ := s.BackgroundRewriteDoneHandler(true, tmp, true, true, true);
    alive := true;
    if s.file != [] {
      FileRebuilds(s, open);
    }
  }

  /** BGREWRITEAOF while the log is on. */
  method RewriteWhileOn<D>(s: AofServer<D>, policy: Fsync, events: seq<Event>, snapshotText: bytes,
                           ghost snapshot: seq<Argv>)
    returns (alive: bool)
    requires s.Valid() && s.state == On && !s.child && Leads(s.apply, s.known, s.empty, snapshot, s.data, -1)
    requires snapshotText == EncodeAll(snapshot) && forall i :: 0 <= i < |events| ==> Acceptable(s.known, events[i])
    modifies s
    ensures s.shorts >= old(s.shorts) && (alive <==> policy != Always || s.shorts == old(s.shorts))
    ensures alive ==> s.Valid() && s.state == On && s.file == EncodeAll(s.log) && snapshot <= s.log
    ensures alive ==> s.data == Applied(s.apply, old(s.data), events)
    ensures alive ==> Replay(s.apply, Session(s.empty, 0), s.log).data == s.data
  {
    hide Leads, EncodeAll, Acceptable;
    var ok := s.RewriteAppendOnlyFileBackground(true, true, snapshot);
    alive := AfterFork(s, policy, events, snapshotText, _ => false);
  }

  /** Switching the log on, up to the end of the rewrite that this starts. */
  method SwitchOn<D>(s: AofServer<D>, policy: Fsync, events: seq<Event>, snapshotText: bytes, ghost snapshot: seq<Argv>)
    returns (alive: bool)
    requires s.Valid() && s.state == Off && !s.child && Leads(s.apply, s.known, s.empty, snapshot, s.data, -1)
    requires snapshotText == EncodeAll(snapshot) && forall i :: 0 <= i < |events| ==> Acceptable(s.known, events[i])
    modifies s
    ensures s.shorts >= old(s.shorts) && (alive <==> policy != Always || s.shorts == old(s.shorts))
    ensures alive ==> s.Valid() && s.state == On && s.file == EncodeAll(s.log) && snapshot <= s.log
    ensures alive ==> s.data == Applied(s.apply, old(s.data), events)
    ensures alive ==> Replay(s.apply, Session(s.empty, 0), s.log).data == s.data
  {
    hide Leads, EncodeAll, Acceptable;
    var ok := s.StartAppendOnly(true, true, true, snapshot);
    alive := AfterFork(s, policy, events, snapshotText, _ => false);
  }

  /** The assumption of BackgroundRewriteDoneHandler on the child's file: a child that ended well, by any
      run of the protocol in which the parent fed what the server fed and still holds what the server
      holds, wrote its snapshot and exactly what the server sent. */
  lemma ChildFileIsComplete<D>(s: AofServer<D>, steps: seq<P.Step>)
    requires s.Valid() && s.child && s.state != Off
    requires P.Legal(P.START, steps) && P.Final(P.START, steps).child == P.Finished
    requires P.Final(P.START, steps).fed == EncodeAll(s.diff) && P.Final(P.START, steps).buffered == s.pending
    ensures EncodeAll(s.snapshot) + P.Final(P.START, steps).diff == EncodeAll(s.snapshot) + s.sent
  {
    hide EncodeAll, Leads, Encode;
    var r := P.Final(P.START, steps);
    P.RewriteIsComplete(steps, []);
    assert ([] + r.diff) + r.buffered == r.diff + s.pending;
    assert [] + r.fed == r.fed;
    assert r.diff + s.pending == s.sent + s.pending;
    assert r.diff == (r.diff + s.pending)[..|r.diff|] && s.sent == (s.sent + s.pending)[..|s.sent|];
  }
}
