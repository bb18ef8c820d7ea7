/** The administrative commands on the slot table, taking over a master's slots, and the sum of the
    per-node counters. */
module ClusterCommands {
  import opened Basics
  import opened ClusterTable

  // ---------------------------------------------------------------- counters

  ghost function SumNumslots(ns: set<ClusterNode>): nat
    reads ns`numslots
  {
    if ns == {} then 0
    else
      var n :| n in ns;
      n.numslots + SumNumslots(ns - {n})
  }

  function OwnedBy(owners: seq<ClusterNode?>, ns: set<ClusterNode>): set<nat> {
    set j: nat | j < |owners| && owners[j] != null && owners[j] in ns
  }

  lemma OwnedByOneMore(owners: seq<ClusterNode?>, ns: set<ClusterNode>, n: ClusterNode)
    requires n in ns
    ensures |OwnedBy(owners, ns)| == |SlotsOf(owners, n)| + |OwnedBy(owners, ns - {n})|
  {
    var mine, others := SlotsOf(owners, n), OwnedBy(owners, ns - {n});
    assert OwnedBy(owners, ns) == mine + others && mine * others == {};
  }

  lemma {:induction false} SumOfNodes(c: ClusterState, ns: set<ClusterNode>)
    requires c.TableValid() && ns <= c.nodes
    ensures SumNumslots(ns) == |OwnedBy(c.slots[..], ns)|
    decreases |ns|
  {
    if ns == {} {
      assert OwnedBy(c.slots[..], ns) == {};
    } else {
      var n :| n in ns && SumNumslots(ns) == n.numslots + SumNumslots(ns - {n});
      hide OwnedBy, SlotsOf;
      SumOfNodes(c, ns - {n});
      assert c.NodeValid(n);
      OwnedByOneMore(c.slots[..], ns, n);
    }
  }

  /** The counters of all nodes add up to the number of assigned slots. */
  lemma SumIsAssigned(c: ClusterState)
    requires c.TableValid()
    ensures SumNumslots(c.nodes) == |set j: nat | j < SLOTS && c.slots[j] != null|
  {
    SumOfNodes(c, c.nodes);
    assert OwnedBy(c.slots[..], c.nodes) == set j: nat | j < SLOTS && c.slots[j] != null;
  }

  // ---------------------------------------------------------------- ADDSLOTS and DELSLOTS

  datatype Reply = Ok | InvalidSlot | AlreadyUnassigned | AlreadyBusy | Repeated | Unknown | HoldsKeys

  ghost predicate Acceptable(owners: seq<ClusterNode?>, args: seq<int>, del: bool) {
    && (forall i :: 0 <= i < |args| ==> 0 <= args[i] < |owners| && (del <==> owners[args[i]] != null))
    && forall i, k :: 0 <= i < k < |args| ==> args[i] != args[k]
  }

  lemma AcceptableSlot(owners: seq<ClusterNode?>, args: seq<int>, del: bool, j: int)
    requires Acceptable(owners, args, del) && j in args
    ensures 0 <= j < |owners| && (del <==> owners[j] != null)
  {
  }

  /** Argument `i` is the first one that is not acceptable, and `reply` says why. */
  ghost predicate IsFirstBad(owners: seq<ClusterNode?>, args: seq<int>, del: bool, i: nat, reply: Reply) {
    && i < |args| && Acceptable(owners, args[..i], del)
    && match reply
       case InvalidSlot => args[i] < 0 || args[i] >= |owners|
       case AlreadyUnassigned => del && 0 <= args[i] < |owners| && owners[args[i]] == null
       case AlreadyBusy => !del && 0 <= args[i] < |owners| && owners[args[i]] != null
       case Repeated => args[i] in args[..i]
       case _ => false
  }

  /** First pass: mark the slots, stopping at the first bad argument. */
  method CheckSlots(c: ClusterState, args: seq<int>, del: bool) returns (reply: Reply, marks: array<bool>)
    requires c.ArraysValid()
    ensures fresh(marks) && marks.Length == SLOTS
    ensures reply == Ok <==> Acceptable(c.slots[..], args, del)
    ensures reply != Ok ==> exists i :: 0 <= i < |args| && IsFirstBad(c.slots[..], args, del, i, reply)
    ensures reply == Ok ==> forall j :: 0 <= j < SLOTS ==> (marks[j] <==> j in args)
  {
    marks := new bool[SLOTS](_ => false);
    for i := 0 to |args|
      invariant Acceptable(c.slots[..], args[..i], del)
      invariant forall j :: 0 <= j < SLOTS ==> (marks[j] <==> j in args[..i])
    {
      var slot := args[i];
      if slot < 0 || slot >= SLOTS {
        assert IsFirstBad(c.slots[..], args, del, i, InvalidSlot);
        return InvalidSlot, marks;
      }
      if del && c.slots[slot] == null {
        assert IsFirstBad(c.slots[..], args, del, i, AlreadyUnassigned);
        return AlreadyUnassigned, marks;
      } else if !del && c.slots[slot] != null {
        assert IsFirstBad(c.slots[..], args, del, i, AlreadyBusy);
        return AlreadyBusy, marks;
      }
      if marks[slot] {
        assert exists k :: 0 <= k < i && args[k] == slot;
        assert IsFirstBad(c.slots[..], args, del, i, Repeated);
        return Repeated, marks;
      }
      marks[slot] := true;
      assert args[..i + 1] == args[..i] + [slot];
    }
    assert args[..|args|] == args;
    reply := Ok;
  }

  /** Edits one marked slot. That the change succeeds is the assertion in the loop of the code. */
  method ApplyMark(c: ClusterState, j: nat, del: bool)
    requires c.TableValid() && j < SLOTS && (del <==> c.slots[j] != null) && c.myself in c.nodes
    modifies c.slots, c.importing, c.nodes`numslots, c.Bitmaps()
    ensures c.TableValid()
    ensures c.slots[..] == old(c.slots[..])[j := if del then null else c.myself]
    ensures c.importing[..] == old(c.importing[..])[j := null]
  {
    if c.importing[j] != null {
      c.importing[j] := null;
    }
    var ok;
    if del {
      ok := DelSlot(c, j);
    } else {
      ok := AddSlot(c, c.myself, j);
    }
    assert ok;
  }

  /** Second pass: edit the marked slots. */
  method ApplyMarks(c: ClusterState, marks: array<bool>, del: bool)
    requires c.TableValid() && marks.Length == SLOTS
    requires forall j :: 0 <= j < SLOTS && marks[j] ==> (del <==> c.slots[j] != null)
    requires c.myself in c.nodes
    modifies c.slots, c.importing, c.nodes`numslots, c.Bitmaps()
    ensures c.TableValid()
    ensures forall j :: 0 <= j < SLOTS ==>
              c.slots[j] == if marks[j] then (if del then null else c.myself) else old(c.slots[j])
    ensures forall j :: 0 <= j < SLOTS ==> c.importing[j] == if marks[j] then null else old(c.importing[j])
  {
    assert c.ArraysValid();
    hide ClusterState.TableValid;
    for j := 0 to SLOTS
      invariant c.TableValid()
      invariant forall k :: 0 <= k < j ==>
        c.slots[k] == if marks[k] then (if del then null else c.myself) else old(c.slots[k])
      invariant forall k :: j <= k < SLOTS ==> c.slots[k] == old(c.slots[k])
      invariant forall k :: 0 <= k < j ==> c.importing[k] == if marks[k] then null else old(c.importing[k])
      invariant forall k :: j <= k < SLOTS ==> c.importing[k] == old(c.importing[k])
    {
      if marks[j] {
        ApplyMark(c, j, del);
      }
    }
  }

  /** CLUSTER ADDSLOTS and CLUSTER DELSLOTS: all of the slots or none of them. */
  method EditSlots(c: ClusterState, args: seq<int>, del: bool) returns (reply: Reply)
    requires c.Valid()
    modifies c.slots, c.importing, c.nodes`numslots, c.Bitmaps()
    ensures c.Valid()
    ensures reply == Ok <==>
              && (forall i :: 0 <= i < |args| ==> 0 <= args[i] < SLOTS && (del <==> old(c.slots[args[i]]) != null))
              && forall i, k :: 0 <= i < k < |args| ==> args[i] != args[k]
    ensures reply != Ok ==> exists i :: 0 <= i < |args| && IsFirstBad(old(c.slots[..]), args, del, i, reply)
    ensures forall j :: 0 <= j < SLOTS ==>
              c.slots[j] == if reply == Ok && j in args then (if del then null else c.myself) else old(c.slots[j])
    ensures forall j :: 0 <= j < SLOTS ==>
              c.importing[j] == if reply == Ok && j in args then null else old(c.importing[j])
  {
    var marks;
    reply, marks := CheckSlots(c, args, del);
    if reply == Ok {
      forall j | 0 <= j < SLOTS && marks[j] ensures del <==> c.slots[j] != null {
        AcceptableSlot(c.slots[..], args, del, j);
      }
      ApplyMarks(c, marks, del);
    }
  }

  // ---------------------------------------------------------------- taking over

  /** Turns a slave into a master, without the slave lists. */
  method SetNodeAsMaster(n: ClusterNode)
    modifies n`isMaster, n`isSlave, n`slaveof
    ensures n.isMaster
    ensures if old(n.isMaster) then n.isSlave == old(n.isSlave) && n.slaveof == old(n.slaveof)
            else !n.isSlave && n.slaveof == null
  {
    if !n.isMaster {
      n.isMaster, n.isSlave, n.slaveof := true, false, null;
    }
  }

  /** Moves slot j to this node if the bitmap of `n` has it. */
  method TakeIfHeld(c: ClusterState, n: ClusterNode, j: nat)
    requires c.Valid() && n in c.nodes && j < SLOTS
    modifies c.slots, c.nodes`numslots, c.Bitmaps()
    ensures c.Valid()
    ensures c.slots[..] == if old(c.slots[j]) == n then old(c.slots[..])[j := c.myself] else old(c.slots[..])
  {
    assert c.NodeValid(n);
    var bit := BitmapTestBit(n.slots, j);
    if bit {
      MoveSlot(c, c.myself, j);
    }
  }

  /** A slave becomes a master and takes over exactly the slots of its old master. */
  method FailoverReplaceYourMaster(c: ClusterState)
    requires c.Valid()
    modifies c.slots, c.nodes`numslots, c.Bitmaps()
    modifies c.myself`isMaster, c.myself`isSlave, c.myself`slaveof
    ensures c.Valid()
    ensures old(c.myself.isMaster) || old(c.myself.slaveof) == null ==>
              && c.slots[..] == old(c.slots[..]) && c.myself.isMaster == old(c.myself.isMaster)
              && c.myself.isSlave == old(c.myself.isSlave) && c.myself.slaveof == old(c.myself.slaveof)
    ensures !old(c.myself.isMaster) && old(c.myself.slaveof) != null ==>
              && c.myself.isMaster && !c.myself.isSlave && c.myself.slaveof == null
              && forall j :: 0 <= j < SLOTS ==>
                   c.slots[j] == if old(c.slots[j]) == old(c.myself.slaveof) then c.myself else old(c.slots[j])
  {
    var oldmaster := c.myself.slaveof;
    if c.myself.isMaster || oldmaster == null {
      return;
    }
    SetNodeAsMaster(c.myself);
    for j := 0 to SLOTS
      invariant c.Valid() && c.myself.isMaster && !c.myself.isSlave && c.myself.slaveof == null
      invariant forall k :: 0 <= k < j ==>
        c.slots[k] == if old(c.slots[k]) == oldmaster then c.myself else old(c.slots[k])
      invariant forall k :: j <= k < SLOTS ==> c.slots[k] == old(c.slots[k])
    {
      TakeIfHeld(c, oldmaster, j);
    }
  }
}
