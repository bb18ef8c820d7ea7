/** The slot part of nodes.conf: how a node's slots and migrations are printed, how they are read back,
    and that reading back every line restores the table. */
module NodesConf {
  import opened Basics
  import opened ClusterTable

  // ---------------------------------------------------------------- fields

  const DASH: byte := 45
  const OPEN: byte := 91
  const CLOSE: byte := 93
  const OUTWARD: byte := 62
  const INWARD: byte := 60
  /** REDIS_CLUSTER_NAMELEN */
  const NAMELEN: nat := 40

  /** One space-separated field of a line. Broken stands for the failed assertion of the loader. */
  datatype Field =
    | Slots(start: int, stop: int)
    | Migrating(slot: int, peer: bytes)
    | Importing(slot: int, peer: bytes)
    | Broken

  function PrintSlots(start: nat, stop: nat): bytes {
    if start == stop then Decimal(start) else Decimal(start) + [DASH] + Decimal(stop)
  }

  function PrintMove(slot: nat, outward: bool, peer: bytes): bytes {
    [OPEN] + Decimal(slot) + [DASH, if outward then OUTWARD else INWARD, DASH] + peer + [CLOSE]
  }

  /** strchr(): the position of the first dash, |t| if there is none. */
  function FindDash(t: bytes): (p: nat)
    ensures p <= |t|
  {
    if t == [] || t[0] == DASH then 0 else 1 + FindDash(t[1..])
  }

  function ParseField(t: bytes): Field {
    var p := FindDash(t);
    if t != [] && t[0] == OPEN then
      if p == |t| then Broken
      else
        var slot := if p == 0 then 0 else ParseNumber(t[1..p]);
        var peer := if |t| < p + 3 then [] else if |t| < p + 3 + NAMELEN then t[p + 3..] else t[p + 3..p + 3 + NAMELEN];
        if p + 1 < |t| && t[p + 1] == OUTWARD then Migrating(slot, peer) else Importing(slot, peer)
    else if p == |t| then Slots(ParseNumber(t), ParseNumber(t))
    else Slots(ParseNumber(t[..p]), ParseNumber(t[p + 1..]))
  }

  /** The format, on two examples of each kind. */
  lemma PrintedFields(peer: bytes)
    ensures PrintSlots(5, 5) == Text("5") && PrintSlots(0, 5460) == Text("0-5460")
    ensures PrintMove(93, true, peer) == Text("[93->-") + peer + Text("]")
    ensures PrintMove(77, false, peer) == Text("[77-<-") + peer + Text("]")
  {
    assert Decimal(5460) == Decimal(546) + [48] && Decimal(546) == Decimal(54) + [54];
    assert Decimal(54) == [53, 52] && Decimal(93) == [57, 51] && Decimal(77) == [55, 55];
  }

  lemma {:induction false} DashAfterDigits(s: bytes, t: bytes)
    requires Digits(s)
    ensures FindDash(s + t) == |s| + FindDash(t)
  {
    if s == [] {
      assert s + t == t;
    } else {
      assert (s + t)[1..] == s[1..] + t;
      DashAfterDigits(s[1..], t);
    }
  }

  lemma NumberParses(n: nat)
    ensures Digits(Decimal(n)) && ParseNumber(Decimal(n)) == n && Decimal(n)[0] != OPEN
  {
    DecimalParses(n, []);
    DecimalReads(n, []);
    assert Decimal(n) + [] == Decimal(n);
  }

  lemma SlotsParse(start: nat, stop: nat)
    ensures ParseField(PrintSlots(start, stop)) == Slots(start, stop)
  {
    hide Decimal, ParseNumber;
    var d, e := Decimal(start), Decimal(stop);
    NumberParses(start);
    NumberParses(stop);
    if start == stop {
      DashAfterDigits(d, []);
      assert d + [] == d;
    } else {
      var t := d + [DASH] + e;
      DashAfterDigits(d, [DASH] + e);
      assert t == d + ([DASH] + e);
      assert t[..|d|] == d && t[|d| + 1..] == e;
    }
  }

  lemma MoveParses(slot: nat, outward: bool, peer: bytes)
    requires |peer| == NAMELEN
    ensures ParseField(PrintMove(slot, outward, peer)) == if outward then Migrating(slot, peer)
                                                          else Importing(slot, peer)
  {
    hide Decimal, ParseNumber;
    var d, mark := Decimal(slot), if outward then OUTWARD else INWARD;
    var t := PrintMove(slot, outward, peer);
    NumberParses(slot);
    assert t == [OPEN] + (d + ([DASH, mark, DASH] + peer + [CLOSE]));
    assert t[1..] == d + ([DASH, mark, DASH] + peer + [CLOSE]);
    DashAfterDigits(d, [DASH, mark, DASH] + peer + [CLOSE]);
    var p := |d| + 1;
    assert FindDash(t) == p;
    assert t[1..p] == d && t[p + 1] == mark && t[p + 3..p + 3 + NAMELEN] == peer;
  }

  // ---------------------------------------------------------------- runs of slots

  datatype Run = Run(first: nat, last: nat)

  /** The first position from `j` on that is not in `bits`. */
  function RunEnd(bits: set<nat>, j: nat, limit: nat): (e: nat)
    requires j <= limit
    ensures j <= e <= limit && (forall k :: j <= k < e ==> k in bits) && (e < limit ==> e !in bits)
    decreases limit - j
  {
    if j == limit || j !in bits then j else RunEnd(bits, j + 1, limit)
  }

  function RunsFrom(bits: set<nat>, j: nat, limit: nat): seq<Run>
    requires j <= limit
    decreases limit - j
  {
    if j == limit then []
    else if j !in bits then RunsFrom(bits, j + 1, limit)
    else [Run(j, RunEnd(bits, j, limit) - 1)] + RunsFrom(bits, RunEnd(bits, j, limit), limit)
  }

  predicate InRun(r: Run, k: nat) {
    r.first <= k <= r.last
  }

  /** `runs` lists the members of `bits` between `from` and `limit` in ascending order, with a gap after each run. */
  ghost predicate AreRuns(runs: seq<Run>, bits: set<nat>, from: nat, limit: nat) {
    && (forall i :: 0 <= i < |runs| ==> from <= runs[i].first <= runs[i].last < limit)
    && (forall i :: 0 <= i < |runs| - 1 ==> runs[i].last + 1 < runs[i + 1].first)
    && forall k: nat :: from <= k < limit ==> (k in bits <==> exists i :: 0 <= i < |runs| && InRun(runs[i], k))
  }

  /** What is printed is such a list. */
  lemma {:induction false} RunsAreRuns(bits: set<nat>, j: nat, limit: nat)
    requires j <= limit
    ensures AreRuns(RunsFrom(bits, j, limit), bits, j, limit)
    decreases limit - j
  {
    hide AreRuns;
    if j == limit {
      NoneAreRuns(bits, j);
    } else if j !in bits {
      RunsAreRuns(bits, j + 1, limit);
      StartEarlier(RunsFrom(bits, j + 1, limit), bits, j, limit);
    } else {
      var e := RunEnd(bits, j, limit);
      RunsAreRuns(bits, e, limit);
      FirstRunFits(Run(j, e - 1), RunsFrom(bits, e, limit), bits, j, limit);
    }
  }

  lemma NoneAreRuns(bits: set<nat>, limit: nat)
    ensures AreRuns([], bits, limit, limit)
  {
  }

  lemma StartEarlier(runs: seq<Run>, bits: set<nat>, j: nat, limit: nat)
    requires j < limit && j !in bits && AreRuns(runs, bits, j + 1, limit)
    ensures AreRuns(runs, bits, j, limit)
  {
  }

  lemma FirstRunFits(r: Run, rest: seq<Run>, bits: set<nat>, j: nat, limit: nat)
    requires r.first == j <= r.last < limit && forall k :: r.first <= k <= r.last ==> k in bits
    requires (r.last + 1 < limit ==> r.last + 1 !in bits) && AreRuns(rest, bits, r.last + 1, limit)
    ensures AreRuns([r] + rest, bits, j, limit)
  {
    var runs := [r] + rest;
    if rest != [] {
      assert InRun(rest[0], rest[0].first);
      assert rest[0].first in bits;
    }
    forall k: nat | j <= k < limit ensures k in bits <==> exists i :: 0 <= i < |runs| && InRun(runs[i], k) {
      if k <= r.last {
        assert InRun(runs[0], k);
      } else {
        if i :| 0 <= i < |rest| && InRun(rest[i], k) {
          assert runs[i + 1] == rest[i];
        }
      }
    }
  }

  /** Two such lists of the same set are equal: the runs are maximal. */
  lemma {:induction false} RunsAreUnique(runs: seq<Run>, more: seq<Run>, bits: set<nat>, from: nat, limit: nat)
    requires AreRuns(runs, bits, from, limit) && AreRuns(more, bits, from, limit)
    ensures runs == more
    decreases |runs|
  {
    hide AreRuns;
    BothEmptyOrNot(runs, more, bits, from, limit);
    if runs != [] {
      SameFirst(runs, more, bits, from, limit);
      RestAreRuns(runs, bits, from, limit);
      RestAreRuns(more, bits, from, limit);
      RunsAreUnique(runs[1..], more[1..], bits, runs[0].last + 1, limit);
      assert runs == [runs[0]] + runs[1..] && more == [more[0]] + more[1..];
    }
  }

  lemma EmptyOrNot(runs: seq<Run>, bits: set<nat>, from: nat, limit: nat)
    requires AreRuns(runs, bits, from, limit)
    ensures runs == [] <==> forall k: nat :: from <= k < limit ==> k !in bits
  {
    if runs != [] {
      var k := runs[0].first;
      assert InRun(runs[0], k);
      assert k in bits;
    }
  }

  lemma BothEmptyOrNot(runs: seq<Run>, more: seq<Run>, bits: set<nat>, from: nat, limit: nat)
    requires AreRuns(runs, bits, from, limit) && AreRuns(more, bits, from, limit)
    ensures runs == [] <==> more == []
  {
    hide AreRuns;
    EmptyOrNot(runs, bits, from, limit);
    EmptyOrNot(more, bits, from, limit);
  }

  lemma {:induction false} RunsAscend(runs: seq<Run>, bits: set<nat>, from: nat, limit: nat, i: nat, j: nat)
    requires AreRuns(runs, bits, from, limit) && i < j < |runs|
    ensures runs[i].last + 1 < runs[j].first
    decreases j
  {
    if i + 1 < j {
      RunsAscend(runs, bits, from, limit, i, j - 1);
    }
  }

  /** The first run is determined by the set. */
  lemma FirstRun(runs: seq<Run>, bits: set<nat>, from: nat, limit: nat) returns (r: Run)
    requires AreRuns(runs, bits, from, limit) && runs != []
    ensures r == runs[0] && r.first in bits && forall k: nat :: from <= k < r.first ==> k !in bits
    ensures (forall k: nat :: r.first <= k <= r.last ==> k in bits) && (r.last + 1 < limit ==> r.last + 1 !in bits)
  {
    r := runs[0];
    assert InRun(runs[0], r.first);
    forall k: nat | from <= k < r.first || k == r.last + 1 < limit ensures k !in bits {
      if i :| 0 <= i < |runs| && InRun(runs[i], k) {
        if i > 0 {
          RunsAscend(runs, bits, from, limit, 0, i);
        }
      }
    }
    forall k: nat | r.first <= k <= r.last ensures k in bits {
      assert InRun(runs[0], k);
    }
  }

  lemma SameFirst(runs: seq<Run>, more: seq<Run>, bits: set<nat>, from: nat, limit: nat)
    requires AreRuns(runs, bits, from, limit) && AreRuns(more, bits, from, limit) && runs != [] && more != []
    ensures runs[0] == more[0]
  {
    var r := FirstRun(runs, bits, from, limit);
    var q := FirstRun(more, bits, from, limit);
    assert from <= r.first <= r.last < limit && from <= q.first <= q.last < limit;
    hide AreRuns;
    assert r.first == q.first;
    assert r.last < q.last ==> r.last + 1 in bits;
    assert q.last < r.last ==> q.last + 1 in bits;
  }

  lemma RestAreRuns(runs: seq<Run>, bits: set<nat>, from: nat, limit: nat)
    requires AreRuns(runs, bits, from, limit) && runs != []
    ensures AreRuns(runs[1..], bits, runs[0].last + 1, limit)
  {
    var rest := runs[1..];
    forall i | 0 <= i < |rest| ensures runs[0].last + 1 <= rest[i].first {
      RunsAscend(runs, bits, from, limit, 0, i + 1);
    }
    forall k: nat | runs[0].last + 1 <= k < limit
      ensures k in bits <==> exists i :: 0 <= i < |rest| && InRun(rest[i], k)
    {
      if k in bits {
        var i :| 0 <= i < |runs| && InRun(runs[i], k);
        assert i > 0 && rest[i - 1] == runs[i];
      }
      if i :| 0 <= i < |rest| && InRun(rest[i], k) {
        assert InRun(runs[i + 1], k);
      }
    }
  }

  // ---------------------------------------------------------------- printing

  function PrintRuns(runs: seq<Run>): seq<bytes> {
    if runs == [] then []
    else PrintRuns(runs[..|runs| - 1]) + [PrintSlots(runs[|runs| - 1].first, runs[|runs| - 1].last)]
  }

  lemma PrintRunsSnoc(runs: seq<Run>, r: Run)
    ensures PrintRuns(runs + [r]) == PrintRuns(runs) + [PrintSlots(r.first, r.last)]
  {
  }

  /** The loop over the slots of one node, with its special step at the last slot. */
  method DescribeSlots(bitmap: array<bv8>) returns (fields: seq<bytes>)
    requires bitmap.Length == SLOTS / 8
    ensures fields == PrintRuns(RunsFrom(Bits(bitmap[..]), 0, SLOTS))
  {
    hide RunsFrom, PrintRuns, PrintSlots, Bits;
    ghost var bits := Bits(bitmap[..]);
    ghost var runs: seq<Run> := [];
    NoneToPrint();
    fields := [];
    var start, j := -1, 0;
    while j < SLOTS
      invariant -1 <= start < j <= SLOTS + 1
      invariant fields == PrintRuns(runs)
      invariant start != -1 ==> j < SLOTS && forall k: nat :: start <= k < j ==> k in bits
      invariant RunsFrom(bits, 0, SLOTS)
                == runs + RunsFrom(bits, if start != -1 then start else if j < SLOTS then j else SLOTS, SLOTS)
    {
      var bit := BitmapTestBit(bitmap, j);
      if bit && start == -1 {
        start := j;
      }
      if start != -1 && (!bit || j == SLOTS - 1) {
        if bit && j == SLOTS - 1 {
          j := j + 1;
        }
        ghost var r := Run(start, j - 1);
        RunPrinted(bits, start, j);
        PrintRunsSnoc(runs, r);
        assert runs + ([r] + RunsFrom(bits, j, SLOTS)) == (runs + [r]) + RunsFrom(bits, j, SLOTS);
        runs := runs + [r];
        fields := fields + [PrintSlots(start, j - 1)];
        start := -1;
      }
      if j < SLOTS && start == -1 {
        RunSkipped(bits, j);
      }
      j := j + 1;
    }
    NoRunsLeft(bits);
    assert runs + [] == runs;
  }

  lemma NoneToPrint()
    ensures PrintRuns([]) == []
  {
  }

  lemma RunPrinted(bits: set<nat>, start: nat, e: nat)
    requires start < e <= SLOTS && (forall k: nat :: start <= k < e ==> k in bits) && (e < SLOTS ==> e !in bits)
    ensures RunsFrom(bits, start, SLOTS) == [Run(start, e - 1)] + RunsFrom(bits, e, SLOTS)
  {
    RunEndUnique(bits, start, e, SLOTS);
  }

  lemma RunSkipped(bits: set<nat>, j: nat)
    requires j < SLOTS && j !in bits
    ensures RunsFrom(bits, j, SLOTS) == RunsFrom(bits, j + 1, SLOTS)
  {
  }

  lemma NoRunsLeft(bits: set<nat>)
    ensures RunsFrom(bits, SLOTS, SLOTS) == []
  {
  }

  lemma RunEndUnique(bits: set<nat>, start: nat, e: nat, limit: nat)
    requires start <= e <= limit && (forall k: nat :: start <= k < e ==> k in bits) && (e < limit ==> e !in bits)
    ensures RunEnd(bits, start, limit) == e
    decreases e - start
  {
  }

  /** A slot of this node that is on the move. A slot that is both leaving and arriving shows as leaving. */
  function DescribeMove(j: nat, leaving: Option<bytes>, arriving: Option<bytes>): seq<bytes> {
    if leaving.Some? then [PrintMove(j, true, leaving.value)]
    else if arriving.Some? then [PrintMove(j, false, arriving.value)]
    else []
  }

  /** The names that a table of nodes stands for. */
  ghost function Peers(table: seq<ClusterNode?>, nameOf: ClusterNode -> bytes): seq<Option<bytes>> {
    seq(|table|, j requires 0 <= j < |table| => PeerName(table[j], nameOf))
  }

  function PeerName(n: ClusterNode?, nameOf: ClusterNode -> bytes): Option<bytes> {
    if n == null then None else Some(nameOf(n))
  }

  function DescribeMoves(leaving: seq<Option<bytes>>, arriving: seq<Option<bytes>>): seq<bytes>
    requires |leaving| == |arriving|
  {
    if leaving == [] then []
    else
      var n := |leaving| - 1;
      DescribeMoves(leaving[..n], arriving[..n]) + DescribeMove(n, leaving[n], arriving[n])
  }

  /** The loop over the migrations, printed for this node only. */
  method DescribeMigrations(c: ClusterState, nameOf: ClusterNode -> bytes) returns (fields: seq<bytes>)
    requires c.ArraysValid()
    ensures fields == DescribeMoves(Peers(c.migrating[..], nameOf), Peers(c.importing[..], nameOf))
  {
    hide DescribeMove, PrintMove;
    ghost var leaving, arriving := Peers(c.migrating[..], nameOf), Peers(c.importing[..], nameOf);
    fields := [];
    for j := 0 to SLOTS
      invariant fields == DescribeMoves(leaving[..j], arriving[..j])
    {
      assert leaving[..j + 1][..j] == leaving[..j] && arriving[..j + 1][..j] == arriving[..j];
      fields := fields + DescribeMove(j, PeerName(c.migrating[j], nameOf), PeerName(c.importing[j], nameOf));
    }
    assert leaving[..SLOTS] == leaving && arriving[..SLOTS] == arriving;
  }

  // ---------------------------------------------------------------- reading

  /** What the loader writes: the owner of each slot, and this node's migrations. */
  datatype Table = Table(owners: seq<ClusterNode?>, leaving: seq<ClusterNode?>, arriving: seq<ClusterNode?>)

  ghost predicate TableShape(t: Table) {
    |t.owners| == |t.leaving| == |t.arriving| == SLOTS
  }

  /** Assigning a range of slots leaves alone those that already have an owner. */
  function Claimed(owners: seq<ClusterNode?>, n: ClusterNode, start: int, stop: int): (r: seq<ClusterNode?>)
    ensures |r| == |owners|
  {
    seq(|owners|, j requires 0 <= j < |owners| => if owners[j] == null && start <= j <= stop then n else owners[j])
  }

  /** The fields that the loader takes without writing outside its tables. */
  predicate Readable(f: Field) {
    match f
    case Slots(start, stop) => start <= stop ==> 0 <= start && stop < SLOTS
    case Migrating(slot, _) => 0 <= slot < SLOTS
    case Importing(slot, _) => 0 <= slot < SLOTS
    case Broken => false
  }

  /** The node at the other end of a migration. */
  function PeerOf(f: Field): Option<bytes> {
    match f
    case Migrating(_, peer) => Some(peer)
    case Importing(_, peer) => Some(peer)
    case _ => None
  }

  predicate Loadable(f: Field, names: map<bytes, ClusterNode>) {
    Readable(f) && (PeerOf(f).Some? ==> PeerOf(f).value in names)
  }

  function LoadField(t: Table, n: ClusterNode, f: Field, names: map<bytes, ClusterNode>): (r: Table)
    requires |t.owners| == |t.leaving| == |t.arriving| == SLOTS && Loadable(f, names)
    ensures |r.owners| == |r.leaving| == |r.arriving| == SLOTS
  {
    match f
    case Slots(start, stop) => t.(owners := Claimed(t.owners, n, start, stop))
    case Migrating(slot, peer) => t.(leaving := t.leaving[slot := names[peer]])
    case Importing(slot, peer) => t.(arriving := t.arriving[slot := names[peer]])
  }

  function LoadFields(t: Table, n: ClusterNode, fields: seq<bytes>, names: map<bytes, ClusterNode>): (r: Table)
    requires |t.owners| == |t.leaving| == |t.arriving| == SLOTS
    requires forall f :: f in fields ==> Loadable(ParseField(f), names)
    ensures |r.owners| == |r.leaving| == |r.arriving| == SLOTS
  {
    if fields == [] then t
    else LoadField(LoadFields(t, n, fields[..|fields| - 1], names), n, ParseField(fields[|fields| - 1]), names)
  }

  ghost function TableOf(c: ClusterState): (t: Table)
    requires c.ArraysValid()
    reads c.slots, c.importing, c.migrating
    ensures TableShape(t)
  {
    Table(c.slots[..], c.migrating[..], c.importing[..])
  }

  /** while(start <= stop) clusterAddSlot(n, start++); */
  method ClaimRange(c: ClusterState, n: ClusterNode, from: int, stop: int)
    requires c.TableValid() && n in c.nodes && (from <= stop ==> 0 <= from && stop < SLOTS)
    modifies c.slots, n`numslots, n.slots
    ensures c.TableValid() && c.slots[..] == Claimed(old(c.slots[..]), n, from, stop)
    ensures forall j :: 0 <= j < SLOTS ==>
              c.slots[j] == if old(c.slots[j]) == null && from <= j <= stop then n else old(c.slots[j])
  {
    ghost var before := c.slots[..];
    var start := from;
    while start <= stop
      invariant from <= stop ==> from <= start <= stop + 1
      invariant c.TableValid()
      invariant forall j :: 0 <= j < SLOTS ==>
                  c.slots[j] == if before[j] == null && from <= j < start && from <= stop then n else before[j]
      decreases stop - start
    {
      var _ := AddSlot(c, n, start);
      start := start + 1;
    }
    assert c.slots[..] == Claimed(before, n, from, stop);
  }

  /** The number whose order among names of one length is that of memcmp(). */
  function NameValue(name: bytes): nat {
    if name == [] then 0 else 256 * NameValue(name[..|name| - 1]) + name[|name| - 1] as nat
  }

  /** memcmp() on names of one length is the order of these numbers. */
  lemma {:induction false} NameOrder(a: bytes, b: bytes, i: nat)
    requires |a| == |b| && i < |a| && a[..i] == b[..i] && a[i] < b[i]
    ensures NameValue(a) < NameValue(b)
    decreases |a|
  {
    var n := |a| - 1;
    if i == n {
      assert a[..n] == b[..n];
    } else {
      assert a[..n][..i] == a[..i] && b[..n][..i] == b[..i];
      NameOrder(a[..n], b[..n], i);
    }
  }

  /** Names keep their nodes when others are added. */
  ghost predicate Extends(names: map<bytes, ClusterNode>, more: map<bytes, ClusterNode>) {
    forall x :: x in names ==> x in more && more[x] == names[x]
  }

  lemma ExtendsOn(names: map<bytes, ClusterNode>, more: map<bytes, ClusterNode>, most: map<bytes, ClusterNode>)
    requires Extends(names, more) && Extends(more, most)
    ensures Extends(names, most)
  {
  }

  /** No two names stand for one node. */
  ghost predicate OneToOne(names: map<bytes, ClusterNode>) {
    forall x, y :: x in names && y in names && names[x] == names[y] ==> x == y
  }

  /** `names` finds nodes of the cluster by their names. */
  ghost predicate Known(c: ClusterState, names: map<bytes, ClusterNode>)
    reads c
  {
    OneToOne(names) && forall x :: x in names ==> names[x] in c.nodes && names[x].name == NameValue(x)
  }

  /** The node of this name, created when it is mentioned for the first time. */
  method LookupOrCreate(c: ClusterState, name: bytes, names: map<bytes, ClusterNode>)
    returns (n: ClusterNode, more: map<bytes, ClusterNode>)
    requires c.TableValid() && Known(c, names)
    modifies c`nodes
    ensures c.TableValid() && Known(c, more) && n in c.nodes
    ensures more == if name in names then names else names[name := n]
    ensures more[name] == n && Extends(names, more)
    ensures name !in names ==>
              fresh(n) && n.name == NameValue(name) && n.numslots == 0 && SlotsOf(c.slots[..], n) == {}
    ensures old(c.nodes) <= c.nodes && forall m :: m in c.nodes && m !in old(c.nodes) ==> fresh(m) && fresh(m.slots)
  {
    if name in names {
      return names[name], names;
    }
    n := new ClusterNode(NameValue(name));
    AddNode(c, n);
    more := names[name := n];
  }

  /** The loop over the fields of one line behind the eighth. Nodes that are mentioned for the first time
      are created; the table is then what it would be had they been known before. */
  method LoadSlots(c: ClusterState, n: ClusterNode, fields: seq<bytes>, names: map<bytes, ClusterNode>)
    returns (more: map<bytes, ClusterNode>)
    requires c.TableValid() && Known(c, names) && n in c.nodes && forall f :: f in fields ==> Readable(ParseField(f))
    modifies c.slots, c.importing, c.migrating, c`nodes, n`numslots, n.slots
    ensures c.TableValid() && Known(c, more) && Extends(names, more)
    ensures forall f :: f in fields ==> Loadable(ParseField(f), more)
    ensures TableOf(c) == LoadFields(old(TableOf(c)), n, fields, more)
    ensures old(c.nodes) <= c.nodes && forall m :: m in c.nodes && m !in old(c.nodes) ==> fresh(m) && fresh(m.slots)
  {
    hide ParseField, Claimed, LoadField, LoadFields, Loadable, Readable, Known, NameValue;
    ghost var before := TableOf(c);
    more := names;
    LoadNoFields(before, n, more);
    for i := 0 to |fields|
      invariant c.TableValid() && Known(c, more) && Extends(names, more) && n in c.nodes
      invariant forall f :: f in fields[..i] ==> Loadable(ParseField(f), more)
      invariant TableOf(c) == LoadFields(before, n, fields[..i], more)
      invariant old(c.nodes) <= c.nodes && forall m :: m in c.nodes && m !in old(c.nodes) ==> fresh(m) && fresh(m.slots)
    {
      assert fields[..i + 1] == fields[..i] + [fields[i]];
      ghost var known := more;
      more := LoadSlot(c, n, ParseField(fields[i]), more);
      ExtendsOn(names, known, more);
      MoreNames(before, n, fields[..i], known, more);
      LoadFieldsSnoc(before, n, fields[..i], fields[i], more);
    }
    assert fields[..|fields|] == fields;
  }

  lemma LoadNoFields(t: Table, n: ClusterNode, names: map<bytes, ClusterNode>)
    requires TableShape(t)
    ensures LoadFields(t, n, [], names) == t
  {
  }

  /** Names that a line does not mention make no difference. */
  lemma {:induction false} MoreNames(t: Table, n: ClusterNode, fields: seq<bytes>, names: map<bytes, ClusterNode>,
                                     more: map<bytes, ClusterNode>)
    requires TableShape(t) && Extends(names, more) && forall f :: f in fields ==> Loadable(ParseField(f), names)
    ensures forall f :: f in fields ==> Loadable(ParseField(f), more)
    ensures LoadFields(t, n, fields, more) == LoadFields(t, n, fields, names)
  {
    hide ParseField, Claimed;
    if fields != [] {
      MoreNames(t, n, fields[..|fields| - 1], names, more);
      assert fields[|fields| - 1] in fields;
    }
  }

  method LoadSlot(c: ClusterState, n: ClusterNode, f: Field, names: map<bytes, ClusterNode>)
    returns (more: map<bytes, ClusterNode>)
    requires c.TableValid() && Known(c, names) && n in c.nodes && Readable(f)
    modifies c.slots, c.importing, c.migrating, c`nodes, n`numslots, n.slots
    ensures c.TableValid() && Known(c, more) && Extends(names, more) && Loadable(f, more)
    ensures TableOf(c) == LoadField(old(TableOf(c)), n, f, more)
    ensures old(c.nodes) <= c.nodes && forall m :: m in c.nodes && m !in old(c.nodes) ==> fresh(m) && fresh(m.slots)
  {
    hide NameValue, Claimed, Known;
    more := names;
    match f
    case Slots(start, stop) =>
      ClaimRange(c, n, start, stop);
    case Migrating(slot, peer) =>
      var cn;
      cn, more := LookupOrCreate(c, peer, names);
      c.migrating[slot] := cn;
    case Importing(slot, peer) =>
      var cn;
      cn, more := LookupOrCreate(c, peer, names);
      c.importing[slot] := cn;
  }

  // ---------------------------------------------------------------- the round trip

  function ClaimRuns(owners: seq<ClusterNode?>, n: ClusterNode, runs: seq<Run>): (r: seq<ClusterNode?>)
    ensures |r| == |owners|
  {
    if runs == [] then owners
    else Claimed(ClaimRuns(owners, n, runs[..|runs| - 1]), n, runs[|runs| - 1].first, runs[|runs| - 1].last)
  }

  /** Reading what was printed for some runs claims their slots. */
  lemma {:induction false} PrintedRunsLoad(t: Table, n: ClusterNode, runs: seq<Run>, names: map<bytes, ClusterNode>)
    requires |t.owners| == |t.leaving| == |t.arriving| == SLOTS
    requires forall i :: 0 <= i < |runs| ==> runs[i].first <= runs[i].last < SLOTS
    ensures forall f :: f in PrintRuns(runs) ==> Loadable(ParseField(f), names)
    ensures LoadFields(t, n, PrintRuns(runs), names) == t.(owners := ClaimRuns(t.owners, n, runs))
  {
    hide ParseField, PrintSlots, Claimed;
    if runs != [] {
      var init, r := runs[..|runs| - 1], runs[|runs| - 1];
      PrintedRunsLoad(t, n, init, names);
      SlotsParse(r.first, r.last);
      assert PrintRuns(runs)[..|PrintRuns(runs)| - 1] == PrintRuns(init);
    }
  }

  lemma {:induction false} ClaimRunsOwners(owners: seq<ClusterNode?>, n: ClusterNode, runs: seq<Run>, k: nat)
    requires k < |owners|
    ensures ClaimRuns(owners, n, runs)[k] ==
            if owners[k] == null && (exists i :: 0 <= i < |runs| && InRun(runs[i], k)) then n else owners[k]
  {
    if runs != [] {
      var init := runs[..|runs| - 1];
      ClaimRunsOwners(owners, n, init, k);
      if i :| 0 <= i < |init| && InRun(init[i], k) {
        assert InRun(runs[i], k);
      }
    }
  }

  /** What the fields of the slots of `n` in the table `owners` do when they are read back. */
  function OwnRuns(owners: seq<ClusterNode?>, n: ClusterNode): seq<Run> {
    RunsFrom(SlotsOf(owners, n), 0, SLOTS)
  }

  lemma OwnRunsClaim(owners: seq<ClusterNode?>, n: ClusterNode, loaded: seq<ClusterNode?>, k: nat)
    requires |owners| == |loaded| == SLOTS && k < SLOTS
    ensures ClaimRuns(loaded, n, OwnRuns(owners, n))[k] == if loaded[k] == null && owners[k] == n then n else loaded[k]
    ensures forall i :: 0 <= i < |OwnRuns(owners, n)| ==>
              OwnRuns(owners, n)[i].first <= OwnRuns(owners, n)[i].last < SLOTS
  {
    RunsAreRuns(SlotsOf(owners, n), 0, SLOTS);
    assert k in SlotsOf(owners, n) <==> owners[k] == n;
    ClaimRunsOwners(loaded, n, OwnRuns(owners, n), k);
  }

  /** The owners after the lines of `order` were read. */
  function LoadOwners(owners: seq<ClusterNode?>, order: seq<ClusterNode>,
                      loaded: seq<ClusterNode?>): (r: seq<ClusterNode?>)
    ensures |r| == |loaded|
  {
    if order == [] then loaded
    else
      var n := |order| - 1;
      ClaimRuns(LoadOwners(owners, order[..n], loaded), order[n], OwnRuns(owners, order[n]))
  }

  lemma {:induction false} LoadOwnersAt(owners: seq<ClusterNode?>, order: seq<ClusterNode>, loaded: seq<ClusterNode?>,
                                        k: nat)
    requires |owners| == |loaded| == SLOTS && k < SLOTS && loaded[k] == null
    ensures LoadOwners(owners, order, loaded)[k] == if owners[k] != null && owners[k] in order then owners[k] else null
  {
    if order != [] {
      var n := |order| - 1;
      LoadOwnersAt(owners, order[..n], loaded, k);
      OwnRunsClaim(owners, order[n], LoadOwners(owners, order[..n], loaded), k);
      assert order == order[..n] + [order[n]];
    }
  }

  /** Printing the slots of every node and reading all lines back, in any order, restores the owners. */
  lemma OwnersRestored(owners: seq<ClusterNode?>, order: seq<ClusterNode>)
    requires |owners| == SLOTS && forall k :: 0 <= k < SLOTS && owners[k] != null ==> owners[k] in order
    ensures LoadOwners(owners, order, seq(SLOTS, _ => null)) == owners
  {
    var empty: seq<ClusterNode?> := seq(SLOTS, _ => null);
    forall k | 0 <= k < SLOTS ensures LoadOwners(owners, order, empty)[k] == owners[k] {
      LoadOwnersAt(owners, order, empty, k);
    }
  }

  ghost predicate Named(table: seq<ClusterNode?>, nameOf: ClusterNode -> bytes, names: map<bytes, ClusterNode>) {
    forall j :: 0 <= j < |table| && table[j] != null ==>
                  |nameOf(table[j])| == NAMELEN && nameOf(table[j]) in names && names[nameOf(table[j])] == table[j]
  }

  /** The tables of migrations after the first `j` slots were printed and read back. */
  function MovesLoaded(t: Table, leaving: seq<ClusterNode?>, arriving: seq<ClusterNode?>, j: nat): (r: Table)
    requires |t.owners| == |t.leaving| == |t.arriving| == |leaving| == |arriving| == SLOTS && j <= SLOTS
    ensures |r.owners| == |r.leaving| == |r.arriving| == SLOTS
  {
    t.(leaving := seq(SLOTS, k requires 0 <= k < SLOTS =>
                        if k < j && leaving[k] != null then leaving[k] else t.leaving[k]),
       arriving := seq(SLOTS, k requires 0 <= k < SLOTS =>
                         if k < j && leaving[k] == null && arriving[k] != null then arriving[k] else t.arriving[k]))
  }

  lemma LoadFieldsSnoc(t: Table, n: ClusterNode, fields: seq<bytes>, x: bytes, names: map<bytes, ClusterNode>)
    requires |t.owners| == |t.leaving| == |t.arriving| == SLOTS
    requires (forall f :: f in fields ==> Loadable(ParseField(f), names)) && Loadable(ParseField(x), names)
    ensures forall f :: f in fields + [x] ==> Loadable(ParseField(f), names)
    ensures LoadFields(t, n, fields + [x], names) == LoadField(LoadFields(t, n, fields, names), n, ParseField(x), names)
  {
  }

  lemma MovesLoadedStep(t: Table, leaving: seq<ClusterNode?>, arriving: seq<ClusterNode?>, i: nat)
    requires |t.owners| == |t.leaving| == |t.arriving| == |leaving| == |arriving| == SLOTS && i < SLOTS
    ensures var before, after := MovesLoaded(t, leaving, arriving, i), MovesLoaded(t, leaving, arriving, i + 1);
            after == if leaving[i] != null then before.(leaving := before.leaving[i := leaving[i]])
                     else if arriving[i] != null then before.(arriving := before.arriving[i := arriving[i]])
                     else before
  {
  }

  lemma {:induction false} PrintedMovesLoad(t: Table, n: ClusterNode, leaving: seq<ClusterNode?>,
                                            arriving: seq<ClusterNode?>, j: nat,
                                            nameOf: ClusterNode -> bytes, names: map<bytes, ClusterNode>)
    requires |t.owners| == |t.leaving| == |t.arriving| == |leaving| == |arriving| == SLOTS && j <= SLOTS
    requires Named(leaving, nameOf, names) && Named(arriving, nameOf, names)
    ensures var fields := DescribeMoves(Peers(leaving, nameOf)[..j], Peers(arriving, nameOf)[..j]);
            && (forall f :: f in fields ==> Loadable(ParseField(f), names))
            && LoadFields(t, n, fields, names) == MovesLoaded(t, leaving, arriving, j)
  {
    var outs, ins := Peers(leaving, nameOf), Peers(arriving, nameOf);
    if j == 0 {
      assert MovesLoaded(t, leaving, arriving, 0).leaving == t.leaving;
      assert MovesLoaded(t, leaving, arriving, 0).arriving == t.arriving;
    } else {
      hide ParseField, PrintMove, MovesLoaded, LoadFields;
      var i := j - 1;
      PrintedMovesLoad(t, n, leaving, arriving, i, nameOf, names);
      MovesLoadedStep(t, leaving, arriving, i);
      assert outs[..j][..i] == outs[..i] && ins[..j][..i] == ins[..i];
      var fields := DescribeMoves(outs[..i], ins[..i]);
      assert DescribeMoves(outs[..j], ins[..j]) == fields + DescribeMove(i, outs[i], ins[i]);
      if leaving[i] != null {
        MoveParses(i, true, nameOf(leaving[i]));
        LoadFieldsSnoc(t, n, fields, PrintMove(i, true, nameOf(leaving[i])), names);
      } else if arriving[i] != null {
        MoveParses(i, false, nameOf(arriving[i]));
        LoadFieldsSnoc(t, n, fields, PrintMove(i, false, nameOf(arriving[i])), names);
      } else {
        assert fields + [] == fields;
      }
    }
  }

  // ---------------------------------------------------------------- the whole file

  /** The fields behind the eighth of the line of `n`; only this node's line shows migrations. */
  ghost function Described(t: Table, me: ClusterNode, n: ClusterNode, nameOf: ClusterNode -> bytes): seq<bytes>
    requires TableShape(t)
  {
    PrintRuns(OwnRuns(t.owners, n))
    + if n == me then DescribeMoves(Peers(t.leaving, nameOf), Peers(t.arriving, nameOf)) else []
  }

  datatype Line = Line(node: ClusterNode, fields: seq<bytes>)

  ghost function Printed(t: Table, me: ClusterNode, order: seq<ClusterNode>, nameOf: ClusterNode -> bytes): seq<Line>
    requires TableShape(t)
  {
    if order == [] then []
    else
      var n := |order| - 1;
      Printed(t, me, order[..n], nameOf) + [Line(order[n], Described(t, me, order[n], nameOf))]
  }

  ghost predicate AllLoadable(fields: seq<bytes>, names: map<bytes, ClusterNode>) {
    forall f :: f in fields ==> Loadable(ParseField(f), names)
  }

  ghost predicate LinesLoadable(lines: seq<Line>, names: map<bytes, ClusterNode>) {
    forall i :: 0 <= i < |lines| ==> AllLoadable(lines[i].fields, names)
  }

  ghost function LoadLines(t: Table, lines: seq<Line>, names: map<bytes, ClusterNode>): (r: Table)
    requires TableShape(t) && LinesLoadable(lines, names)
    ensures TableShape(r)
  {
    if lines == [] then t
    else
      var n := |lines| - 1;
      LoadFields(LoadLines(t, lines[..n], names), lines[n].node, lines[n].fields, names)
  }

  method GenNodeDescription(c: ClusterState, n: ClusterNode, nameOf: ClusterNode -> bytes) returns (fields: seq<bytes>)
    requires c.TableValid() && n in c.nodes
    ensures fields == Described(TableOf(c), c.myself, n, nameOf)
  {
    hide PrintRuns, DescribeMoves, RunsFrom;
    assert c.NodeValid(n);
    fields := DescribeSlots(n.slots);
    var moves := [];
    if n == c.myself {
      moves := DescribeMigrations(c, nameOf);
    }
    fields := fields + moves;
  }

  /** A line of the file, as far as it is modelled: the name of a node and the fields behind the eighth. */
  datatype TextLine = TextLine(name: bytes, fields: seq<bytes>)

  ghost function PrintedText(t: Table, me: ClusterNode, order: seq<ClusterNode>,
                             nameOf: ClusterNode -> bytes): seq<TextLine>
    requires TableShape(t)
  {
    if order == [] then []
    else
      var n := |order| - 1;
      PrintedText(t, me, order[..n], nameOf) + [TextLine(nameOf(order[n]), Described(t, me, order[n], nameOf))]
  }

  /** The loop over the nodes, in whatever order the dictionary gives them. */
  method GenNodesDescription(c: ClusterState, order: seq<ClusterNode>, nameOf: ClusterNode -> bytes)
    returns (lines: seq<TextLine>)
    requires c.TableValid() && forall n :: n in order ==> n in c.nodes
    ensures lines == PrintedText(TableOf(c), c.myself, order, nameOf)
  {
    hide Described;
    lines := [];
    for i := 0 to |order|
      invariant lines == PrintedText(TableOf(c), c.myself, order[..i], nameOf)
    {
      assert order[..i + 1][..i] == order[..i];
      var fields := GenNodeDescription(c, order[i], nameOf);
      lines := lines + [TextLine(nameOf(order[i]), fields)];
    }
    assert order[..|order|] == order;
  }

  ghost predicate AllReadable(fields: seq<bytes>) {
    forall f :: f in fields ==> Readable(ParseField(f))
  }

  /** The lines with their nodes in place of names. */
  function Resolve(lines: seq<TextLine>, names: map<bytes, ClusterNode>): (r: seq<Line>)
    requires forall i :: 0 <= i < |lines| ==> lines[i].name in names
    ensures |r| == |lines| && forall i :: 0 <= i < |r| ==> r[i] == Line(names[lines[i].name], lines[i].fields)
  {
    seq(|lines|, i requires 0 <= i < |lines| => Line(names[lines[i].name], lines[i].fields))
  }

  ghost predicate AllNamed(lines: seq<TextLine>, names: map<bytes, ClusterNode>) {
    forall i :: 0 <= i < |lines| ==> lines[i].name in names
  }

  /** The loop over the lines. Nodes are created as they are mentioned, in front of a line or inside. */
  method LoadConfig(c: ClusterState, lines: seq<TextLine>, names: map<bytes, ClusterNode>)
    returns (more: map<bytes, ClusterNode>)
    requires c.TableValid() && Known(c, names) && forall i :: 0 <= i < |lines| ==> AllReadable(lines[i].fields)
    modifies c.slots, c.importing, c.migrating, c`nodes, c.nodes`numslots, c.Bitmaps()
    ensures c.TableValid() && Known(c, more) && Extends(names, more)
    ensures AllNamed(lines, more) && LinesLoadable(Resolve(lines, more), more)
    ensures TableOf(c) == LoadLines(old(TableOf(c)), Resolve(lines, more), more)
    ensures old(c.nodes) <= c.nodes && forall m :: m in c.nodes && m !in old(c.nodes) ==> fresh(m) && fresh(m.slots)
  {
    hide AllLoadable, AllReadable, LoadFields, Known, NameValue;
    ghost var before := TableOf(c);
    more := names;
    for i := 0 to |lines|
      invariant c.TableValid() && Known(c, more) && Extends(names, more)
      invariant AllNamed(lines[..i], more) && LinesLoadable(Resolve(lines[..i], more), more)
      invariant TableOf(c) == LoadLines(before, Resolve(lines[..i], more), more)
      invariant old(c.nodes) <= c.nodes && forall m :: m in c.nodes && m !in old(c.nodes) ==> fresh(m) && fresh(m.slots)
    {
      ghost var known := more;
      more := LoadLine(c, lines[i], more);
      ExtendsOn(names, known, more);
      LinesMoreNames(before, lines[..i], known, more);
      LoadLinesSnoc(before, lines, i, more);
    }
    assert lines[..|lines|] == lines;
  }

  method LoadLine(c: ClusterState, line: TextLine, names: map<bytes, ClusterNode>)
    returns (more: map<bytes, ClusterNode>)
    requires c.TableValid() && Known(c, names) && AllReadable(line.fields)
    modifies c.slots, c.importing, c.migrating, c`nodes, c.nodes`numslots, c.Bitmaps()
    ensures c.TableValid() && Known(c, more) && Extends(names, more) && line.name in more
    ensures AllLoadable(line.fields, more)
    ensures TableOf(c) == LoadFields(old(TableOf(c)), more[line.name], line.fields, more)
    ensures old(c.nodes) <= c.nodes && forall m :: m in c.nodes && m !in old(c.nodes) ==> fresh(m) && fresh(m.slots)
  {
    hide LoadFields, Readable, ParseField, Loadable, Known;
    ghost var before := TableOf(c);
    var n, known := LookupOrCreate(c, line.name, names);
    assert TableOf(c) == before;
    more := LoadSlots(c, n, line.fields, known);
    assert more[line.name] == n;
    ExtendsOn(names, known, more);
    hide Extends;
  }

  lemma LoadLinesSnoc(t: Table, lines: seq<TextLine>, i: nat, names: map<bytes, ClusterNode>)
    requires TableShape(t) && i < |lines| && AllNamed(lines[..i], names)
    requires LinesLoadable(Resolve(lines[..i], names), names)
    requires lines[i].name in names && AllLoadable(lines[i].fields, names)
    ensures AllNamed(lines[..i + 1], names) && LinesLoadable(Resolve(lines[..i + 1], names), names)
    ensures LoadLines(t, Resolve(lines[..i + 1], names), names)
            == LoadFields(LoadLines(t, Resolve(lines[..i], names), names), names[lines[i].name], lines[i].fields, names)
  {
    hide AllLoadable, LoadFields;
    var r := Resolve(lines[..i + 1], names);
    assert r[..i] == Resolve(lines[..i], names);
    assert r[i] == Line(names[lines[i].name], lines[i].fields);
  }

  /** Names that the lines do not mention make no difference. */
  lemma {:induction false} LinesMoreNames(t: Table, lines: seq<TextLine>, names: map<bytes, ClusterNode>,
                                          more: map<bytes, ClusterNode>)
    requires TableShape(t) && Extends(names, more) && AllNamed(lines, names)
    requires LinesLoadable(Resolve(lines, names), names)
    ensures AllNamed(lines, more) && LinesLoadable(Resolve(lines, more), more)
    ensures LoadLines(t, Resolve(lines, more), more) == LoadLines(t, Resolve(lines, names), names)
    decreases |lines|
  {
    hide LoadFields, Loadable, ParseField;
    if lines != [] {
      var n := |lines| - 1;
      var r := Resolve(lines, names);
      assert r[..n] == Resolve(lines[..n], names);
      LinesMoreNames(t, lines[..n], names, more);
      assert AllLoadable(r[n].fields, names);
      MoreNames(LoadLines(t, r[..n], names), r[n].node, r[n].fields, names, more);
      assert lines[..n + 1] == lines;
      LoadLinesSnoc(t, lines, n, names);
      LoadLinesSnoc(t, lines, n, more);
    }
  }

  lemma {:induction false} LoadFieldsSplit(t: Table, n: ClusterNode, a: seq<bytes>, b: seq<bytes>,
                                           names: map<bytes, ClusterNode>)
    requires TableShape(t) && AllLoadable(a, names) && AllLoadable(b, names)
    ensures AllLoadable(a + b, names)
    ensures LoadFields(t, n, a + b, names) == LoadFields(LoadFields(t, n, a, names), n, b, names)
    decreases |b|
  {
    hide LoadField, ParseField, Loadable;
    if b == [] {
      assert a + b == a;
    } else {
      var init, x := b[..|b| - 1], b[|b| - 1];
      LoadFieldsSplit(t, n, a, init, names);
      assert a + b == (a + init) + [x];
      LoadFieldsSnoc(t, n, a + init, x, names);
    }
  }

  /** The tables after the lines of `order` were read back into empty ones. */
  function Restored(t: Table, me: ClusterNode, order: seq<ClusterNode>): (r: Table)
    requires |t.owners| == |t.leaving| == |t.arriving| == SLOTS
    ensures |r.owners| == |r.leaving| == |r.arriving| == SLOTS
  {
    var start := Table(LoadOwners(t.owners, order, Nobody()), Nobody(), Nobody());
    if me in order then MovesLoaded(start, t.leaving, t.arriving, SLOTS) else start
  }

  lemma DescribedLoads(t: Table, me: ClusterNode, n: ClusterNode, s: Table, nameOf: ClusterNode -> bytes,
                       names: map<bytes, ClusterNode>)
    requires TableShape(t) && TableShape(s) && Named(t.leaving, nameOf, names) && Named(t.arriving, nameOf, names)
    ensures AllLoadable(Described(t, me, n, nameOf), names)
    ensures var owned := s.(owners := ClaimRuns(s.owners, n, OwnRuns(t.owners, n)));
            LoadFields(s, n, Described(t, me, n, nameOf), names)
            == if n == me then MovesLoaded(owned, t.leaving, t.arriving, SLOTS) else owned
  {
    hide ParseField, Loadable, LoadFields, ClaimRuns, PrintRuns, DescribeMoves, MovesLoaded, OwnRuns;
    var runs := OwnRuns(t.owners, n);
    OwnRunsClaim(t.owners, n, s.owners, 0);
    PrintedRunsLoad(s, n, runs, names);
    var owned := s.(owners := ClaimRuns(s.owners, n, runs));
    if n == me {
      var outs, ins := Peers(t.leaving, nameOf), Peers(t.arriving, nameOf);
      PrintedMovesLoad(owned, n, t.leaving, t.arriving, SLOTS, nameOf, names);
      assert outs[..SLOTS] == outs && ins[..SLOTS] == ins;
      LoadFieldsSplit(s, n, PrintRuns(runs), DescribeMoves(outs, ins), names);
    } else {
      assert PrintRuns(runs) + [] == PrintRuns(runs);
    }
  }

  lemma RestoredStep(t: Table, me: ClusterNode, order: seq<ClusterNode>, n: ClusterNode)
    requires TableShape(t)
    ensures var s := Restored(t, me, order);
            var owned := s.(owners := ClaimRuns(s.owners, n, OwnRuns(t.owners, n)));
            Restored(t, me, order + [n]) == if n == me then MovesLoaded(owned, t.leaving, t.arriving, SLOTS) else owned
  {
  }

  lemma {:induction false} PrintedLoads(t: Table, me: ClusterNode, order: seq<ClusterNode>,
                                        nameOf: ClusterNode -> bytes,
                                        names: map<bytes, ClusterNode>)
    requires TableShape(t) && Named(t.leaving, nameOf, names) && Named(t.arriving, nameOf, names)
    ensures LinesLoadable(Printed(t, me, order, nameOf), names)
    ensures LoadLines(Table(Nobody(), Nobody(), Nobody()), Printed(t, me, order, nameOf), names)
            == Restored(t, me, order)
    decreases |order|
  {
    hide AllLoadable, Described, MovesLoaded, LoadFields, ClaimRuns, OwnRuns, Named;
    if order != [] {
      hide Restored;
      var init, n := order[..|order| - 1], order[|order| - 1];
      PrintedLoads(t, me, init, nameOf, names);
      DescribedLoads(t, me, n, Restored(t, me, init), nameOf, names);
      RestoredStep(t, me, init, n);
      assert order == init + [n];
      var lines := Printed(t, me, order, nameOf);
      assert lines[..|lines| - 1] == Printed(t, me, init, nameOf);
    }
  }

  /** The round trip of the whole file: printing every node and reading all lines back, in any order of
      the nodes, restores all owners and what leaves, and restores the table exactly when no slot of this
      node both leaves and arrives. */
  lemma ConfigRestored(t: Table, me: ClusterNode, order: seq<ClusterNode>, nameOf: ClusterNode -> bytes,
                       names: map<bytes, ClusterNode>)
    requires TableShape(t) && Named(t.leaving, nameOf, names) && Named(t.arriving, nameOf, names) && me in order
    requires forall k :: 0 <= k < SLOTS && t.owners[k] != null ==> t.owners[k] in order
    ensures LinesLoadable(Printed(t, me, order, nameOf), names)
    ensures var r := LoadLines(Table(Nobody(), Nobody(), Nobody()), Printed(t, me, order, nameOf), names);
            && r.owners == t.owners && r.leaving == t.leaving
            && (r == t <==> forall j :: 0 <= j < SLOTS ==> t.leaving[j] == null || t.arriving[j] == null)
  {
    hide LoadLines, Printed, LinesLoadable, LoadOwners;
    PrintedLoads(t, me, order, nameOf, names);
    OwnersRestored(t.owners, order);
    var r := Restored(t, me, order);
    assert r.leaving == t.leaving;
    forall j | 0 <= j < SLOTS
      ensures r.arriving[j] == t.arriving[j] <==> t.leaving[j] == null || t.arriving[j] == null
    {
    }
    assert r == t <==> r.arriving == t.arriving;
  }

  // ---------------------------------------------------------------- another process

  /** The node of the same name in the process that reads the file. */
  function Twin(x: ClusterNode?, nameOf: ClusterNode -> bytes, names: map<bytes, ClusterNode>): ClusterNode? {
    if x == null || nameOf(x) !in names then null else names[nameOf(x)]
  }

  function Twins(xs: seq<ClusterNode?>, nameOf: ClusterNode -> bytes,
                 names: map<bytes, ClusterNode>): (r: seq<ClusterNode?>)
    ensures |r| == |xs| && forall j :: 0 <= j < |xs| ==> r[j] == Twin(xs[j], nameOf, names)
  {
    seq(|xs|, j requires 0 <= j < |xs| => Twin(xs[j], nameOf, names))
  }

  function TwinTable(t: Table, nameOf: ClusterNode -> bytes, names: map<bytes, ClusterNode>): Table {
    Table(Twins(t.owners, nameOf, names), Twins(t.leaving, nameOf, names), Twins(t.arriving, nameOf, names))
  }

  /** The names of the nodes in `xs` are known to the reader, 40 bytes long, and tell them from each other. */
  ghost predicate Distinguished(xs: set<ClusterNode>, nameOf: ClusterNode -> bytes, names: map<bytes, ClusterNode>) {
    && OneToOne(names)
    && (forall x :: x in xs ==> nameOf(x) in names && |nameOf(x)| == NAMELEN)
    && forall x, y :: x in xs && y in xs && nameOf(x) == nameOf(y) ==> x == y
  }

  ghost predicate Within(table: seq<ClusterNode?>, xs: set<ClusterNode>) {
    forall j :: 0 <= j < |table| && table[j] != null ==> table[j] in xs
  }

  /** The names of the reader's nodes. */
  ghost function NameIn(names: map<bytes, ClusterNode>): (nameOf: ClusterNode -> bytes)
    requires OneToOne(names)
    ensures forall x :: x in names ==> nameOf(names[x]) == x
  {
    var inverse := map x | x in names :: names[x] := x;
    (n: ClusterNode) => if n in inverse then inverse[n] else []
  }

  lemma SameFields(t: Table, me: ClusterNode, n: ClusterNode, xs: set<ClusterNode>, nameOf: ClusterNode -> bytes,
                   names: map<bytes, ClusterNode>)
    requires TableShape(t) && Distinguished(xs, nameOf, names) && me in xs && n in xs
    requires Within(t.owners, xs) && Within(t.leaving, xs) && Within(t.arriving, xs)
    ensures Described(TwinTable(t, nameOf, names), names[nameOf(me)], names[nameOf(n)], NameIn(names))
            == Described(t, me, n, nameOf)
  {
    hide RunsFrom, PrintRuns, DescribeMoves;
    var u, twin := TwinTable(t, nameOf, names), names[nameOf(n)];
    forall j | 0 <= j < SLOTS ensures u.owners[j] == twin <==> t.owners[j] == n {
      if u.owners[j] == twin {
        assert nameOf(t.owners[j]) == nameOf(n);
      }
    }
    assert SlotsOf(u.owners, twin) == SlotsOf(t.owners, n);
    assert Peers(u.leaving, NameIn(names)) == Peers(t.leaving, nameOf);
    assert Peers(u.arriving, NameIn(names)) == Peers(t.arriving, nameOf);
  }

  function TwinOrder(order: seq<ClusterNode>, nameOf: ClusterNode -> bytes,
                     names: map<bytes, ClusterNode>): (r: seq<ClusterNode>)
    requires forall n :: n in order ==> nameOf(n) in names
    ensures |r| == |order| && forall i :: 0 <= i < |r| ==> r[i] == names[nameOf(order[i])]
  {
    seq(|order|, i requires 0 <= i < |order| => names[nameOf(order[i])])
  }

  lemma {:induction false} SameText(t: Table, me: ClusterNode, order: seq<ClusterNode>, xs: set<ClusterNode>,
                                    nameOf: ClusterNode -> bytes, names: map<bytes, ClusterNode>)
    requires TableShape(t) && Distinguished(xs, nameOf, names) && me in xs && forall n :: n in order ==> n in xs
    requires Within(t.owners, xs) && Within(t.leaving, xs) && Within(t.arriving, xs)
    ensures AllNamed(PrintedText(t, me, order, nameOf), names)
    ensures Resolve(PrintedText(t, me, order, nameOf), names)
            == Printed(TwinTable(t, nameOf, names), names[nameOf(me)], TwinOrder(order, nameOf, names), NameIn(names))
    decreases |order|
  {
    hide Described, Within, TwinTable, Resolve, TwinOrder;
    if order != [] {
      var k := |order| - 1;
      var init, n := order[..k], order[k];
      SameText(t, me, init, xs, nameOf, names);
      SameFields(t, me, n, xs, nameOf, names);
      ResolveSnoc(PrintedText(t, me, init, nameOf), TextLine(nameOf(n), Described(t, me, n, nameOf)), names);
      var twins := TwinOrder(order, nameOf, names);
      assert twins[..k] == TwinOrder(init, nameOf, names) && twins[k] == names[nameOf(n)];
    } else {
      ResolveNothing(names);
    }
  }

  lemma ResolveNothing(names: map<bytes, ClusterNode>)
    ensures Resolve([], names) == []
  {
  }

  lemma ResolveSnoc(lines: seq<TextLine>, line: TextLine, names: map<bytes, ClusterNode>)
    requires AllNamed(lines, names) && line.name in names
    ensures AllNamed(lines + [line], names)
    ensures Resolve(lines + [line], names) == Resolve(lines, names) + [Line(names[line.name], line.fields)]
  {
  }

  /** The round trip between two processes: the file that one node wrote, read by another process that
      knows nothing but the names, gives it the same table with its own nodes in it, except for imports of
      slots that also leave. */
  lemma RestartRestores(t: Table, me: ClusterNode, order: seq<ClusterNode>, xs: set<ClusterNode>,
                        nameOf: ClusterNode -> bytes, names: map<bytes, ClusterNode>)
    requires TableShape(t) && Distinguished(xs, nameOf, names) && me in order && forall n :: n in order ==> n in xs
    requires Within(t.owners, xs) && Within(t.leaving, xs) && Within(t.arriving, xs)
    requires forall k :: 0 <= k < SLOTS && t.owners[k] != null ==> t.owners[k] in order
    ensures var text, twins := PrintedText(t, me, order, nameOf), TwinTable(t, nameOf, names);
            && AllNamed(text, names) && LinesLoadable(Resolve(text, names), names)
            && var r := LoadLines(Table(Nobody(), Nobody(), Nobody()), Resolve(text, names), names);
               && r.owners == twins.owners && r.leaving == twins.leaving
               && (r == twins <==> forall j :: 0 <= j < SLOTS ==> t.leaving[j] == null || t.arriving[j] == null)
  {
    hide LoadLines, Printed, PrintedText, LinesLoadable, Described;
    SameText(t, me, order, xs, nameOf, names);
    var u, order' := TwinTable(t, nameOf, names), TwinOrder(order, nameOf, names);
    forall k | 0 <= k < SLOTS && u.owners[k] != null ensures u.owners[k] in order' {
      var i :| 0 <= i < |order| && order[i] == t.owners[k];
      assert order'[i] == u.owners[k];
    }
    var i :| 0 <= i < |order| && order[i] == me;
    assert order'[i] == names[nameOf(me)];
    TwinsAreNamed(t.leaving, xs, nameOf, names);
    TwinsAreNamed(t.arriving, xs, nameOf, names);
    ConfigRestored(u, names[nameOf(me)], order', NameIn(names), names);
  }

  lemma TwinsAreNamed(xs: seq<ClusterNode?>, all: set<ClusterNode>, nameOf: ClusterNode -> bytes,
                      names: map<bytes, ClusterNode>)
    requires Distinguished(all, nameOf, names) && Within(xs, all)
    ensures Named(Twins(xs, nameOf, names), NameIn(names), names)
    ensures forall j :: 0 <= j < |xs| ==> (Twins(xs, nameOf, names)[j] == null <==> xs[j] == null)
  {
  }

  lemma LoadableIsReadable(fields: seq<bytes>, names: map<bytes, ClusterNode>)
    requires AllLoadable(fields, names)
    ensures AllReadable(fields)
  {
    hide ParseField, Readable;
  }

  /** What a node prints can be read. */
  lemma {:induction false} PrintedReadable(t: Table, me: ClusterNode, order: seq<ClusterNode>,
                                           nameOf: ClusterNode -> bytes, own: map<bytes, ClusterNode>)
    requires TableShape(t) && Named(t.leaving, nameOf, own) && Named(t.arriving, nameOf, own)
    ensures forall i :: 0 <= i < |PrintedText(t, me, order, nameOf)| ==>
              AllReadable(PrintedText(t, me, order, nameOf)[i].fields)
    ensures |PrintedText(t, me, order, nameOf)| == |order|
    ensures forall i :: 0 <= i < |order| ==> PrintedText(t, me, order, nameOf)[i].name == nameOf(order[i])
    decreases |order|
  {
    hide Described, AllReadable, AllLoadable, Named, LoadFields, ClaimRuns, OwnRuns, MovesLoaded;
    if order != [] {
      var k := |order| - 1;
      PrintedReadable(t, me, order[..k], nameOf, own);
      DescribedLoads(t, me, order[k], t, nameOf, own);
      LoadableIsReadable(Described(t, me, order[k], nameOf), own);
    }
  }

  /** `order` lists the nodes that `c` knows, and 40-byte names tell them from each other. */
  ghost predicate Listed(c: ClusterState, order: seq<ClusterNode>, nameOf: ClusterNode -> bytes)
    reads c`nodes
  {
    Tellable(order, nameOf) && (forall n :: n in c.nodes ==> n in order) && forall n :: n in order ==> n in c.nodes
  }

  ghost predicate Tellable(order: seq<ClusterNode>, nameOf: ClusterNode -> bytes) {
    && (forall n :: n in order ==> |nameOf(n)| == NAMELEN)
    && forall x, y :: x in order && y in order && nameOf(x) == nameOf(y) ==> x == y
  }

  /** The table of node `me` is about the nodes of `order`. */
  ghost predicate About(t: Table, me: ClusterNode, order: seq<ClusterNode>) {
    && TableShape(t) && me in order
    && forall j :: 0 <= j < SLOTS ==>
         && (t.owners[j] != null ==> t.owners[j] in order)
         && (t.leaving[j] != null ==> t.leaving[j] in order)
         && (t.arriving[j] != null ==> t.arriving[j] in order)
  }

  lemma ListedIsAbout(c: ClusterState, order: seq<ClusterNode>, nameOf: ClusterNode -> bytes)
    requires c.Valid() && Listed(c, order, nameOf)
    ensures Tellable(order, nameOf) && About(TableOf(c), c.myself, order)
  {
  }

  lemma OwnNames(c: ClusterState, order: seq<ClusterNode>, nameOf: ClusterNode -> bytes)
    returns (own: map<bytes, ClusterNode>)
    requires c.Valid() && Listed(c, order, nameOf)
    ensures Named(c.migrating[..], nameOf, own) && Named(c.importing[..], nameOf, own)
  {
    own := map n | n in c.nodes :: nameOf(n) := n;
  }

  /** `r` is what the process that knows `names` has after reading what was printed for `t`. */
  ghost predicate ReadBack(t: Table, r: Table, nameOf: ClusterNode -> bytes, names: map<bytes, ClusterNode>)
    requires TableShape(t)
  {
    var twins := TwinTable(t, nameOf, names);
    && r.owners == twins.owners && r.leaving == twins.leaving
    && (r == twins <==> forall j :: 0 <= j < SLOTS ==> t.leaving[j] == null || t.arriving[j] == null)
  }

  lemma LoadedIsReadBack(t: Table, me: ClusterNode, order: seq<ClusterNode>, nameOf: ClusterNode -> bytes,
                         lines: seq<TextLine>, names: map<bytes, ClusterNode>)
    requires About(t, me, order) && Tellable(order, nameOf) && lines == PrintedText(t, me, order, nameOf)
    requires |lines| == |order| && forall i :: 0 <= i < |order| ==> lines[i].name == nameOf(order[i])
    requires OneToOne(names) && AllNamed(lines, names) && LinesLoadable(Resolve(lines, names), names)
    ensures ReadBack(t, LoadLines(Table(Nobody(), Nobody(), Nobody()), Resolve(lines, names), names), nameOf, names)
    ensures forall n :: n in order ==> nameOf(n) in names
  {
    hide Printed, PrintedText, LoadLines, LinesLoadable, Resolve, Twins;
    forall n | n in order ensures nameOf(n) in names {
      var i :| 0 <= i < |order| && order[i] == n;
      assert lines[i].name in names;
    }
    RestartRestores(t, me, order, (set n | n in order), nameOf, names);
  }

  /** clusterSaveConfig(), as far as the nodes go. */
  method Save(c: ClusterState, order: seq<ClusterNode>, nameOf: ClusterNode -> bytes) returns (lines: seq<TextLine>)
    requires c.Valid() && Listed(c, order, nameOf)
    ensures lines == PrintedText(TableOf(c), c.myself, order, nameOf) && |lines| == |order|
    ensures forall i :: 0 <= i < |order| ==> lines[i].name == nameOf(order[i]) && AllReadable(lines[i].fields)
  {
    hide PrintedText, AllReadable, Named;
    ghost var own := OwnNames(c, order, nameOf);
    PrintedReadable(TableOf(c), c.myself, order, nameOf, own);
    lines := GenNodesDescription(c, order, nameOf);
  }

  /** Saving and, in another process, loading: that process has the same table with its own nodes in it,
      except for imports of slots that also leave. */
  method SaveAndRestart(c: ClusterState, order: seq<ClusterNode>, nameOf: ClusterNode -> bytes,
                        d: ClusterState, known: map<bytes, ClusterNode>)
    returns (names: map<bytes, ClusterNode>)
    requires c.Valid() && Listed(c, order, nameOf) && d.TableValid() && Known(d, known)
    requires TableOf(d) == Table(Nobody(), Nobody(), Nobody())
    modifies d.slots, d.importing, d.migrating, d`nodes, d.nodes`numslots, d.Bitmaps()
    ensures d.TableValid() && Known(d, names) && Extends(known, names) && forall n :: n in order ==> nameOf(n) in names
    ensures ReadBack(old(TableOf(c)), TableOf(d), nameOf, names)
  {
    hide PrintedText, LoadLines, LinesLoadable, Resolve, AllReadable, AllNamed, Listed, ReadBack, About, Tellable;
    ghost var t := TableOf(c);
    ListedIsAbout(c, order, nameOf);
    var lines := Save(c, order, nameOf);
    names := LoadConfig(d, lines, known);
    LoadedIsReadBack(t, c.myself, order, nameOf, lines, names);
  }
}
