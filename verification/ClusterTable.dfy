/** The slot table of a cluster node. It is kept twice, as an owner per slot and as a bitmap with a
    counter per node; every function that edits it keeps both in step. */
module ClusterTable {
  import opened Basics
  import opened ClusterClaims

  const SLOTS: nat := 16384

  // ---------------------------------------------------------------- bitmaps

  predicate TestBit(bitmap: seq<bv8>, pos: nat)
    requires pos < 8 * |bitmap|
  {
    Has(bitmap[pos / 8], pos % 8)
  }

  /** The positions whose bit is set. */
  function Bits(bitmap: seq<bv8>): set<nat> {
    set j: nat | j < 8 * |bitmap| && TestBit(bitmap, j)
  }

  /** Position 8 * i + k is the bit of value 2^k of byte i. */
  lemma BitOrder()
    ensures Bits([1, 2, 4, 8, 16, 32, 64, 128]) == {0, 9, 18, 27, 36, 45, 54, 63}
  {
    var bitmap := [1, 2, 4, 8, 16, 32, 64, 128];
    forall j: nat | j < 64 ensures TestBit(bitmap, j) <==> j % 8 == j / 8 {
      assert bitmap[j / 8] == Mask(j / 8);
      OneBit(j / 8, j % 8);
    }
    assert forall j: nat :: j < 64 && j % 8 == j / 8 ==> j == 9 * (j / 8);
  }

  lemma OneBit(i: nat, j: nat)
    requires i < 8 && j < 8
    ensures Has(Mask(i), j) <==> i == j
  {
  }

  lemma SetBitInByte(byte: bv8, i: nat, j: nat)
    requires i < 8 && j < 8
    ensures Has(byte | Mask(i), j) <==> i == j || Has(byte, j)
  {
  }

  lemma ClearBitInByte(byte: bv8, i: nat, j: nat)
    requires i < 8 && j < 8
    ensures Has(byte & !Mask(i), j) <==> i != j && Has(byte, j)
  {
  }

  method BitmapTestBit(bitmap: array<bv8>, pos: nat) returns (bit: bool)
    requires pos < 8 * bitmap.Length
    ensures bit <==> pos in Bits(bitmap[..])
  {
    bit := bitmap[pos / 8] & Mask(pos % 8) != 0;
  }

  method BitmapSetBit(bitmap: array<bv8>, pos: nat)
    requires pos < 8 * bitmap.Length
    modifies bitmap
    ensures Bits(bitmap[..]) == old(Bits(bitmap[..])) + {pos}
  {
    ghost var before := bitmap[..];
    bitmap[pos / 8] := bitmap[pos / 8] | Mask(pos % 8);
    forall j: nat | j < 8 * bitmap.Length
      ensures TestBit(bitmap[..], j) <==> j == pos || TestBit(before, j)
    {
      SetBitInByte(before[pos / 8], pos % 8, j % 8);
    }
  }

  method BitmapClearBit(bitmap: array<bv8>, pos: nat)
    requires pos < 8 * bitmap.Length
    modifies bitmap
    ensures Bits(bitmap[..]) == old(Bits(bitmap[..])) - {pos}
  {
    ghost var before := bitmap[..];
    bitmap[pos / 8] := bitmap[pos / 8] & !Mask(pos % 8);
    forall j: nat | j < 8 * bitmap.Length
      ensures TestBit(bitmap[..], j) <==> j != pos && TestBit(before, j)
    {
      ClearBitInByte(before[pos / 8], pos % 8, j % 8);
    }
  }

  // ---------------------------------------------------------------- nodes and the table

  class ClusterNode {
    const name: nat
    var isMaster: bool
    var isSlave: bool
    var failed: bool
    var configEpoch: nat
    const slots: array<bv8>
    var numslots: nat
    var slaveof: ClusterNode?
    var votedTime: int

    constructor (name: nat)
      ensures this.name == name && fresh(slots) && slots.Length == SLOTS / 8
      ensures Bits(slots[..]) == {} && numslots == 0 && configEpoch == 0 && slaveof == null
      ensures !isMaster && !isSlave && !failed && votedTime == 0
    {
      this.name := name;
      isMaster, isSlave, failed := false, false, false;
      configEpoch, numslots, slaveof, votedTime := 0, 0, null, 0;
      slots := new bv8[SLOTS / 8](_ => 0);
    }

    /** Sets the bit of a slot and returns what it was. */
    method SetSlotBit(slot: nat) returns (was: bool)
      requires slots.Length == SLOTS / 8 && slot < SLOTS && numslots == |Bits(slots[..])|
      modifies this`numslots, slots
      ensures was <==> slot in old(Bits(slots[..]))
      ensures Bits(slots[..]) == old(Bits(slots[..])) + {slot} && numslots == |Bits(slots[..])|
    {
      was := BitmapTestBit(slots, slot);
      BitmapSetBit(slots, slot);
      if !was {
        numslots := numslots + 1;
      } else {
        assert Bits(slots[..]) == old(Bits(slots[..]));
      }
    }

    /** Clears the bit of a slot and returns what it was. */
    method ClearSlotBit(slot: nat) returns (was: bool)
      requires slots.Length == SLOTS / 8 && slot < SLOTS && numslots == |Bits(slots[..])|
      modifies this`numslots, slots
      ensures was <==> slot in old(Bits(slots[..]))
      ensures Bits(slots[..]) == old(Bits(slots[..])) - {slot} && numslots == |Bits(slots[..])|
    {
      was := BitmapTestBit(slots, slot);
      BitmapClearBit(slots, slot);
      if was {
        assert old(Bits(slots[..])) == Bits(slots[..]) + {slot};
        numslots := numslots - 1;
      } else {
        assert Bits(slots[..]) == old(Bits(slots[..]));
      }
    }
  }

  function SlotsOf(owners: seq<ClusterNode?>, n: ClusterNode): set<nat> {
    set j: nat | j < |owners| && owners[j] == n
  }

  function OwnersMap(owners: seq<ClusterNode?>): map<nat, ClusterNode> {
    map j: nat | j < |owners| && owners[j] != null :: owners[j]
  }

  /** server.cluster. `nodes` stands for the dictionary of known nodes; `keys[j]` is the number of
      keys of the database that hash to slot j. */
  class ClusterState {
    const myself: ClusterNode
    var nodes: set<ClusterNode>
    const slots: array<ClusterNode?>
    const importing: array<ClusterNode?>
    const migrating: array<ClusterNode?>
    const keys: array<nat>
    var size: nat
    var currentEpoch: nat
    var lastVoteEpoch: nat
    var authTime: int
    var authCount: nat
    var authSent: bool
    var authRank: nat
    var authEpoch: nat

    /** A node that starts as a master and knows nobody else. */
    constructor (me: ClusterNode)
      requires me.slots.Length == SLOTS / 8 && Bits(me.slots[..]) == {} && me.numslots == 0
      requires me.isMaster && !me.isSlave && me.slaveof == null
      ensures Valid() && myself == me && nodes == {me} && currentEpoch == lastVoteEpoch == 0
      ensures authCount == authEpoch == 0 && !authSent
      ensures fresh(slots) && fresh(importing) && fresh(migrating) && fresh(keys)
      ensures forall j :: 0 <= j < SLOTS ==> slots[j] == importing[j] == migrating[j] == null && keys[j] == 0
    {
      myself, nodes, size, currentEpoch, lastVoteEpoch := me, {me}, 1, 0, 0;
      authTime, authCount, authSent, authRank, authEpoch := 0, 0, false, 0, 0;
      slots := new ClusterNode?[SLOTS](_ => null);
      importing := new ClusterNode?[SLOTS](_ => null);
      migrating := new ClusterNode?[SLOTS](_ => null);
      keys := new nat[SLOTS](_ => 0);
      new;
      assert SlotsOf(slots[..], me) == {};
    }

    ghost function Bitmaps(): set<array<bv8>>
      reads this`nodes
    {
      set n | n in nodes :: n.slots
    }

    ghost predicate Valid()
      reads this`nodes, nodes, myself, slots, importing, migrating, Bitmaps()
    {
      TableValid() && LinksValid()
    }

    ghost predicate ArraysValid() {
      && slots.Length == importing.Length == migrating.Length == keys.Length == SLOTS
      && slots != importing && slots != migrating && importing != migrating
    }

    /** Owners and bitmaps agree, and every counter is the population count of its bitmap. */
    ghost predicate TableValid()
      reads this`nodes, nodes`numslots, slots, Bitmaps()
    {
      && ArraysValid()
      && (forall n, m :: n in nodes && m in nodes && n.slots == m.slots ==> n == m)
      && (forall j :: 0 <= j < SLOTS && slots[j] != null ==> slots[j] in nodes)
      && (forall n :: n in nodes ==> NodeValid(n))
    }

    /** This node is a master or a slave, and nothing refers to a node that was deleted. */
    ghost predicate LinksValid()
      reads this`nodes, myself, importing, migrating
    {
      && ArraysValid()
      && myself in nodes && myself.isMaster != myself.isSlave
      && (myself.slaveof != null ==> myself.slaveof in nodes)
      && (forall j :: 0 <= j < SLOTS && importing[j] != null ==> importing[j] in nodes)
      && (forall j :: 0 <= j < SLOTS && migrating[j] != null ==> migrating[j] in nodes)
    }

    ghost predicate NodeValid(n: ClusterNode)
      reads slots, n`numslots, n.slots
    {
      && n.slots.Length == SLOTS / 8
      && Bits(n.slots[..]) == SlotsOf(slots[..], n)
      && n.numslots == |Bits(n.slots[..])|
    }

    ghost function Epochs(): map<ClusterNode, nat>
      reads this`nodes, nodes`configEpoch
    {
      map n | n in nodes :: n.configEpoch
    }

    /** What the claims of ClusterClaims are about. */
    ghost function Picture(): (v: View<ClusterNode>)
      requires TableValid()
      reads this`nodes, nodes`numslots, nodes`configEpoch, slots, Bitmaps()
      ensures v.Valid()
    {
      View(OwnersMap(slots[..]), Epochs())
    }

    ghost function Importing(): set<nat>
      requires importing.Length == SLOTS
      reads importing
    {
      set j: nat | j < SLOTS && importing[j] != null
    }

    /** The node whose slots this one cares about: itself, or its master when it is a slave. */
    ghost function CurMaster(): ClusterNode?
      reads myself
    {
      if myself.isMaster then myself else myself.slaveof
    }
  }

  /** Assigns an unassigned slot. */
  method AddSlot(c: ClusterState, n: ClusterNode, slot: nat) returns (ok: bool)
    requires c.TableValid() && n in c.nodes && slot < SLOTS
    modifies c.slots, n`numslots, n.slots
    ensures c.TableValid()
    ensures ok <==> old(c.slots[slot]) == null
    ensures c.slots[..] == if ok then old(c.slots[..])[slot := n] else old(c.slots[..])
  {
    if c.slots[slot] != null {
      return false;
    }
    ghost var before := c.slots[..];
    assert c.NodeValid(n);
    var _ := n.SetSlotBit(slot);
    c.slots[slot] := n;
    forall m | m in c.nodes ensures c.NodeValid(m) {
      assert SlotsOf(c.slots[..], m) == if m == n then SlotsOf(before, m) + {slot} else SlotsOf(before, m);
    }
    return true;
  }

  /** Unassigns a slot. The assertion of the source is the assertion here: the owner's bit is always set. */
  method DelSlot(c: ClusterState, slot: nat) returns (ok: bool)
    requires c.TableValid() && slot < SLOTS
    modifies c.slots, c.nodes`numslots, c.Bitmaps()
    ensures c.TableValid()
    ensures ok <==> old(c.slots[slot]) != null
    ensures c.slots[..] == old(c.slots[..])[slot := null]
  {
    var n := c.slots[slot];
    if n == null {
      return false;
    }
    ghost var before := c.slots[..];
    assert c.NodeValid(n);
    var was := n.ClearSlotBit(slot);
    assert was;
    c.slots[slot] := null;
    forall m | m in c.nodes ensures c.NodeValid(m) {
      assert SlotsOf(c.slots[..], m) == SlotsOf(before, m) - {slot};
    }
    return true;
  }

  function Without(x: ClusterNode?, n: ClusterNode): (r: ClusterNode?)
    ensures r != n && (r == x || r == null) && (x != n ==> r == x)
  {
    if x == n then null else x
  }

  /** The pair of calls by which every caller gives a slot to a node, whoever had it. */
  method MoveSlot(c: ClusterState, n: ClusterNode, slot: nat)
    requires c.TableValid() && n in c.nodes && slot < SLOTS
    modifies c.slots, c.nodes`numslots, c.Bitmaps()
    ensures c.TableValid()
    ensures c.slots[slot] == n
    ensures forall j :: 0 <= j < SLOTS && j != slot ==> c.slots[j] == old(c.slots[j])
  {
    var _ := DelSlot(c, slot);
    var _ := AddSlot(c, n, slot);
  }

  /** Unassigns every slot of a node. The returned number is always 16384, whatever was deleted. */
  method DelNodeSlots(c: ClusterState, n: ClusterNode) returns (deleted: nat)
    requires c.TableValid() && n in c.nodes
    modifies c.slots, c.nodes`numslots, c.Bitmaps()
    ensures c.TableValid() && deleted == SLOTS
    ensures forall j :: 0 <= j < SLOTS ==> c.slots[j] == Without(old(c.slots[j]), n)
  {
    deleted := 0;
    for j := 0 to SLOTS
      invariant c.TableValid() && deleted == j
      invariant forall k :: 0 <= k < j ==> c.slots[k] == Without(old(c.slots[k]), n)
      invariant forall k :: j <= k < SLOTS ==> c.slots[k] == old(c.slots[k])
    {
      assert c.NodeValid(n);
      var bit := BitmapTestBit(n.slots, j);
      if bit {
        var _ := DelSlot(c, j);
      }
      deleted := deleted + 1;
    }
  }

  /** clusterAddNode(): a node that was just created becomes known. */
  method AddNode(c: ClusterState, n: ClusterNode)
    requires c.TableValid() && n !in c.nodes && n.slots !in c.Bitmaps()
    requires n.slots.Length == SLOTS / 8 && Bits(n.slots[..]) == {} && n.numslots == 0
    modifies c`nodes
    ensures c.TableValid() && c.nodes == old(c.nodes) + {n} && (old(c.LinksValid()) ==> c.LinksValid())
  {
    assert SlotsOf(c.slots[..], n) == {};
    forall m | m in c.nodes ensures m.slots in c.Bitmaps() {
    }
    c.nodes := c.nodes + {n};
  }

  method DetachSlot(c: ClusterState, n: ClusterNode, j: nat)
    requires c.TableValid() && n in c.nodes && j < SLOTS
    modifies c.slots, c.importing, c.migrating, c.nodes`numslots, c.Bitmaps()
    ensures c.TableValid()
    ensures c.slots[..] == old(c.slots[..])[j := Without(old(c.slots[j]), n)]
    ensures c.importing[..] == old(c.importing[..])[j := Without(old(c.importing[j]), n)]
    ensures c.migrating[..] == old(c.migrating[..])[j := Without(old(c.migrating[j]), n)]
  {
    if c.importing[j] == n {
      c.importing[j] := null;
    }
    if c.migrating[j] == n {
      c.migrating[j] := null;
    }
    if c.slots[j] == n {
      var _ := DelSlot(c, j);
    }
  }

  /** The loop of clusterDelNode: nothing refers to `n` any more. */
  method DetachNode(c: ClusterState, n: ClusterNode)
    requires c.TableValid() && n in c.nodes
    modifies c.slots, c.importing, c.migrating, c.nodes`numslots, c.Bitmaps()
    ensures c.TableValid()
    ensures forall k :: 0 <= k < SLOTS ==> c.slots[k] == Without(old(c.slots[k]), n)
    ensures forall k :: 0 <= k < SLOTS ==> c.importing[k] == Without(old(c.importing[k]), n)
    ensures forall k :: 0 <= k < SLOTS ==> c.migrating[k] == Without(old(c.migrating[k]), n)
  {
    ghost var slots, importing, migrating := c.slots[..], c.importing[..], c.migrating[..];
    for j := 0 to SLOTS
      invariant c.TableValid()
      invariant forall k :: 0 <= k < SLOTS ==> c.slots[k] == if k < j then Without(slots[k], n) else slots[k]
      invariant forall k :: 0 <= k < SLOTS ==>
                  c.importing[k] == if k < j then Without(importing[k], n) else importing[k]
      invariant forall k :: 0 <= k < SLOTS ==>
                  c.migrating[k] == if k < j then Without(migrating[k], n) else migrating[k]
    {
      DetachSlot(c, n, j);
    }
  }

  /** Forgets a node: its slots become unassigned and no migration refers to it any more. */
  method DelNode(c: ClusterState, n: ClusterNode)
    requires c.Valid() && n in c.nodes && n != c.myself && n != c.myself.slaveof
    modifies c`nodes, c.slots, c.importing, c.migrating, c.nodes`numslots, c.Bitmaps()
    ensures c.Valid() && c.nodes == old(c.nodes) - {n}
    ensures forall k :: 0 <= k < SLOTS ==> c.slots[k] == Without(old(c.slots[k]), n)
    ensures forall k :: 0 <= k < SLOTS ==> c.importing[k] == Without(old(c.importing[k]), n)
    ensures forall k :: 0 <= k < SLOTS ==> c.migrating[k] == Without(old(c.migrating[k]), n)
  {
    DetachNode(c, n);
    c.nodes := c.nodes - {n};
  }

  /** Turns this node into a slave of `n`; a former master drops its migrations. */
  method SetMaster(c: ClusterState, n: ClusterNode)
    requires c.LinksValid() && n in c.nodes && n != c.myself && c.myself.numslots == 0
    modifies c.myself`isMaster, c.myself`isSlave, c.myself`slaveof, c.importing, c.migrating
    ensures c.LinksValid() && c.myself.isSlave && c.myself.slaveof == n
    ensures forall j :: 0 <= j < SLOTS ==>
              && c.importing[j] == (if old(c.myself.isMaster) then null else old(c.importing[j]))
              && c.migrating[j] == (if old(c.myself.isMaster) then null else old(c.migrating[j]))
  {
    if c.myself.isMaster {
      c.myself.isMaster, c.myself.isSlave := false, true;
      forall j | 0 <= j < SLOTS {
        c.importing[j] := null;
      }
      forall j | 0 <= j < SLOTS {
        c.migrating[j] := null;
      }
    }
    c.myself.slaveof := n;
  }

  // ---------------------------------------------------------------- claims

  /** Whether slot j passes to `sender` when `sender` claims it under `epoch`. */
  predicate Yields(c: ClusterState, j: nat, sender: ClusterNode, epoch: nat)
    requires c.ArraysValid() && j < SLOTS
    reads c.importing, c.slots, c.slots[j]
  {
    && c.importing[j] == null && c.slots[j] != sender
    && (c.slots[j] == null || c.slots[j].configEpoch < epoch)
  }

  /** One round of the loop of clusterUpdateSlotsConfigWith. `hit` says that `curmaster` lost the slot,
      `dirty` that this node lost it while it held keys in it. */
  method ClaimSlot(c: ClusterState, j: nat, sender: ClusterNode, epoch: nat, claimed: array<bv8>,
                   curmaster: ClusterNode)
    returns (ghost moved: bool, hit: bool, dirty: bool)
    requires c.TableValid() && sender in c.nodes && j < SLOTS
    requires claimed.Length == SLOTS / 8 && claimed !in c.Bitmaps()
    modifies c.slots, c.nodes`numslots, c.Bitmaps()
    ensures c.TableValid()
    ensures moved <==> j in Bits(claimed[..]) && old(Yields(c, j, sender, epoch))
    ensures c.slots[..] == if moved then old(c.slots[..])[j := sender] else old(c.slots[..])
    ensures hit <==> moved && old(c.slots[j]) == curmaster
    ensures dirty <==> moved && old(c.slots[j]) == c.myself && c.keys[j] != 0
  {
    moved, hit, dirty := false, false, false;
    var bit := BitmapTestBit(claimed, j);
    if bit && c.slots[j] != sender && c.importing[j] == null {
      if c.slots[j] == null || c.slots[j].configEpoch < epoch {
        moved, hit := true, c.slots[j] == curmaster;
        dirty := c.slots[j] == c.myself && c.keys[j] != 0;
        MoveSlot(c, sender, j);
      }
    }
  }

  /** The slots that `sender` takes when it claims `claimed` under `epoch`. */
  ghost function Takes(c: ClusterState, sender: ClusterNode, epoch: nat, claimed: set<nat>): set<nat>
    requires c.ArraysValid()
    reads c.importing, c.slots, c.slots[..]
  {
    set j: nat | j < SLOTS && j in claimed && Yields(c, j, sender, epoch)
  }

  function Reassign(before: seq<ClusterNode?>, taken: set<nat>, sender: ClusterNode): seq<ClusterNode?> {
    seq(|before|, j requires 0 <= j < |before| => if j in taken then sender else before[j])
  }

  /** Some slot below `bound` was taken from `n`. */
  ghost predicate HitBelow(bound: nat, before: seq<ClusterNode?>, taken: set<nat>, n: ClusterNode?)
    requires bound <= |before|
  {
    exists j :: 0 <= j < bound && j in taken && before[j] == n
  }

  ghost predicate Hit(before: seq<ClusterNode?>, taken: set<nat>, n: ClusterNode?) {
    HitBelow(|before|, before, taken, n)
  }

  /** `dirty` lists the slots below `bound` with keys that passed from `me` to another node. */
  ghost predicate DirtyBelow(bound: nat, dirty: seq<nat>, keys: seq<nat>, before: seq<ClusterNode?>, taken: set<nat>,
                             me: ClusterNode)
    requires |keys| == |before| && bound <= |before|
  {
    forall j: nat :: j in dirty <==> j < bound && j in taken && before[j] == me && keys[j] != 0
  }

  ghost predicate LostWithKeys(dirty: seq<nat>, keys: seq<nat>, before: seq<ClusterNode?>, taken: set<nat>,
                               me: ClusterNode)
    requires |keys| == |before|
  {
    DirtyBelow(|before|, dirty, keys, before, taken, me)
  }

  lemma OneMore(j: nat, lost: bool, dirty: seq<nat>, keys: seq<nat>, before: seq<ClusterNode?>, taken: set<nat>,
                me: ClusterNode, n: ClusterNode)
    requires j < |before| == |keys| && DirtyBelow(j, dirty, keys, before, taken, me)
    requires lost <==> HitBelow(j, before, taken, n)
    ensures HitBelow(j + 1, before, taken, n) <==> lost || (j in taken && before[j] == n)
    ensures DirtyBelow(j + 1, if j in taken && before[j] == me && keys[j] != 0 then dirty + [j] else dirty,
                       keys, before, taken, me)
  {
  }

  /** The owners after the first `j` rounds. */
  ghost predicate ReboundBelow(j: nat, after: seq<ClusterNode?>, before: seq<ClusterNode?>, taken: set<nat>,
                              sender: ClusterNode)
  {
    && |after| == |before|
    && forall k :: 0 <= k < |before| ==> after[k] == if k < j && k in taken then sender else before[k]
  }

  lemma ReboundNext(j: nat, after: seq<ClusterNode?>, next: seq<ClusterNode?>, before: seq<ClusterNode?>,
                    taken: set<nat>, sender: ClusterNode)
    requires ReboundBelow(j, after, before, taken, sender) && j < |before|
    requires next == if j in taken then after[j := sender] else after
    ensures ReboundBelow(j + 1, next, before, taken, sender)
  {
  }

  lemma ReboundAll(after: seq<ClusterNode?>, before: seq<ClusterNode?>, taken: set<nat>, sender: ClusterNode)
    requires ReboundBelow(|before|, after, before, taken, sender)
    ensures after == Reassign(before, taken, sender)
  {
  }

  lemma NoneYet(keys: seq<nat>, before: seq<ClusterNode?>, taken: set<nat>, me: ClusterNode, n: ClusterNode)
    requires |keys| == |before|
    ensures !HitBelow(0, before, taken, n) && DirtyBelow(0, [], keys, before, taken, me)
  {
  }

  /** The loop of clusterUpdateSlotsConfigWith. `lost` says that some slot of `curmaster` was taken;
      `dirty` lists the slots this node lost while it held keys in them. */
  method RebindSlots(c: ClusterState, sender: ClusterNode, epoch: nat, claimed: array<bv8>, curmaster: ClusterNode)
    returns (lost: bool, dirty: seq<nat>)
    requires c.TableValid() && sender in c.nodes
    requires claimed.Length == SLOTS / 8 && claimed !in c.Bitmaps()
    modifies c.slots, c.nodes`numslots, c.Bitmaps()
    ensures c.TableValid()
    ensures c.slots[..] == Reassign(old(c.slots[..]), old(Takes(c, sender, epoch, Bits(claimed[..]))), sender)
    ensures lost <==> Hit(old(c.slots[..]), old(Takes(c, sender, epoch, Bits(claimed[..]))), curmaster)
    ensures LostWithKeys(dirty, c.keys[..], old(c.slots[..]), old(Takes(c, sender, epoch, Bits(claimed[..]))), c.myself)
  {
    hide HitBelow, DirtyBelow, Reassign;
    ghost var before, taken := c.slots[..], Takes(c, sender, epoch, Bits(claimed[..]));
    NoneYet(c.keys[..], before, taken, c.myself, curmaster);
    lost, dirty := false, [];
    for j := 0 to SLOTS
      invariant c.TableValid()
      invariant ReboundBelow(j, c.slots[..], before, taken, sender)
      invariant lost <==> HitBelow(j, before, taken, curmaster)
      invariant DirtyBelow(j, dirty, c.keys[..], before, taken, c.myself)
    {
      assert c.slots[j] == before[j];
      assert Yields(c, j, sender, epoch) == old(Yields(c, j, sender, epoch));
      ghost var owners := c.slots[..];
      hide ReboundBelow;
      var moved, hit, dirtied := ClaimSlot(c, j, sender, epoch, claimed, curmaster);
      ReboundNext(j, owners, c.slots[..], before, taken, sender);
      OneMore(j, lost, dirty, c.keys[..], before, taken, c.myself, curmaster);
      lost, dirty := lost || hit, if dirtied then dirty + [j] else dirty;
    }
    ReboundAll(c.slots[..], before, taken, sender);
  }

  /** `n` lost a slot and has none left. */
  ghost predicate Emptied(before: seq<ClusterNode?>, after: seq<ClusterNode?>, n: ClusterNode?)
    requires |before| == |after|
  {
    (exists j :: 0 <= j < |before| && before[j] == n && after[j] != n) && n !in after
  }

  lemma EmptiedWhenNoneLeft(before: seq<ClusterNode?>, taken: set<nat>, sender: ClusterNode, n: ClusterNode)
    requires forall j :: j in taken ==> j < |before| && before[j] != sender
    ensures Emptied(before, Reassign(before, taken, sender), n) <==>
              Hit(before, taken, n) && |SlotsOf(Reassign(before, taken, sender), n)| == 0
  {
    var after := Reassign(before, taken, sender);
    assert |SlotsOf(after, n)| == 0 <==> n !in after by {
      if n in after {
        var j :| 0 <= j < |after| && after[j] == n;
        assert j in SlotsOf(after, n);
      } else {
        assert SlotsOf(after, n) == {};
      }
    }
  }

  lemma NoneGained(before: seq<ClusterNode?>, taken: set<nat>, sender: ClusterNode, me: ClusterNode)
    requires sender != me
    ensures |SlotsOf(Reassign(before, taken, sender), me)| <= |SlotsOf(before, me)|
  {
    SubsetSize(SlotsOf(Reassign(before, taken, sender), me), SlotsOf(before, me));
  }

  /** The keys per slot after this node dropped those of the slots it lost. */
  function Purged(keys: seq<nat>, before: seq<ClusterNode?>, after: seq<ClusterNode?>, me: ClusterNode): seq<nat>
    requires |keys| == |before| == |after|
  {
    seq(|keys|, j requires 0 <= j < |keys| => if before[j] == me && after[j] != me then 0 else keys[j])
  }

  /** delKeysInSlot() on every listed slot. */
  method DropKeys(c: ClusterState, dirty: seq<nat>, ghost before: seq<ClusterNode?>, ghost taken: set<nat>,
                  ghost sender: ClusterNode)
    requires c.keys.Length == |before| && LostWithKeys(dirty, c.keys[..], before, taken, c.myself) && sender != c.myself
    modifies c.keys
    ensures c.keys[..] == Purged(old(c.keys[..]), before, Reassign(before, taken, sender), c.myself)
  {
    for i := 0 to |dirty|
      invariant forall j :: 0 <= j < c.keys.Length ==> c.keys[j] == if j in dirty[..i] then 0 else old(c.keys[j])
    {
      assert dirty[i] in dirty;
      c.keys[dirty[i]] := 0;
    }
  }

  /** Everything that a configuration of another node can change here, besides bitmaps and counters. */
  datatype Shot = Shot(slots: seq<ClusterNode?>, importing: seq<ClusterNode?>, migrating: seq<ClusterNode?>,
                       keys: seq<nat>, isMaster: bool, isSlave: bool, slaveof: ClusterNode?)

  ghost function ShotOf(c: ClusterState): (s: Shot)
    requires c.ArraysValid()
    reads c.slots, c.importing, c.migrating, c.keys, c.myself`isMaster, c.myself`isSlave, c.myself`slaveof
    ensures |s.slots| == |s.importing| == |s.migrating| == |s.keys| == SLOTS
  {
    Shot(c.slots[..], c.importing[..], c.migrating[..], c.keys[..],
         c.myself.isMaster, c.myself.isSlave, c.myself.slaveof)
  }

  function Nobody(): (s: seq<ClusterNode?>)
    ensures |s| == SLOTS && forall j :: 0 <= j < SLOTS ==> s[j] == null
  {
    seq(SLOTS, _ => null)
  }

  /** What is left of the migrations. */
  function MovesLeft(before: Shot, moves: seq<ClusterNode?>, demoted: bool): seq<ClusterNode?> {
    if demoted && before.isMaster then Nobody() else moves
  }

  /** What follows for node `me` when `sender` took the slots `taken`: it becomes a slave of `sender` when
      its master (itself, for a master) lost a slot and has none left, and drops its migrations then if it
      was a master; otherwise it drops the keys of the slots it lost. */
  ghost predicate Settles(before: Shot, after: Shot, me: ClusterNode, sender: ClusterNode, taken: set<nat>,
                          demoted: bool)
    requires |before.slots| == |before.keys| == |after.slots| == |after.keys|
  {
    && after.slots == (if sender == me then before.slots else Reassign(before.slots, taken, sender))
    && (demoted <==> sender != me && Emptied(before.slots, after.slots, if before.isMaster then me else before.slaveof))
    && after.keys == (if demoted then before.keys else Purged(before.keys, before.slots, after.slots, me))
    && after.importing == MovesLeft(before, before.importing, demoted)
    && after.migrating == MovesLeft(before, before.migrating, demoted)
    && after.isMaster == (!demoted && before.isMaster) && after.isSlave == (demoted || before.isSlave)
    && after.slaveof == (if demoted then sender else before.slaveof)
  }

  lemma NothingSettles(s: Shot, me: ClusterNode, sender: ClusterNode, taken: set<nat>)
    requires |s.slots| == |s.keys| && (sender == me || taken == {})
    ensures Settles(s, s, me, sender, taken, false)
  {
    assert Reassign(s.slots, {}, sender) == s.slots;
  }

  /** What follows the loop: this node becomes a slave of `sender` when its master lost its last slot,
      and otherwise drops the keys of the slots it lost. */
  method AfterRebinding(c: ClusterState, sender: ClusterNode, curmaster: ClusterNode, lost: bool, dirty: seq<nat>,
                        ghost before: seq<ClusterNode?>, ghost taken: set<nat>)
    returns (demoted: bool)
    requires c.Valid() && sender in c.nodes && sender != c.myself && curmaster == c.CurMaster()
    requires |before| == SLOTS && c.slots[..] == Reassign(before, taken, sender)
    requires forall j :: j in taken ==> j < SLOTS && before[j] != sender
    requires c.myself.isSlave ==> c.myself.numslots == 0
    requires lost <==> Hit(before, taken, curmaster)
    requires LostWithKeys(dirty, c.keys[..], before, taken, c.myself)
    modifies c.keys, c.importing, c.migrating, c.myself`isMaster, c.myself`isSlave, c.myself`slaveof
    ensures c.Valid() && Settles(old(ShotOf(c)).(slots := before), ShotOf(c), c.myself, sender, taken, demoted)
  {
    EmptiedWhenNoneLeft(before, taken, sender, curmaster);
    assert c.NodeValid(curmaster);
    demoted := lost && curmaster.numslots == 0;
    if demoted {
      SetMaster(c, sender);
    } else {
      DropKeys(c, dirty, before, taken, sender);
    }
  }

  /** clusterUpdateSlotsConfigWith(): the loop and what follows it. */
  method RebindAndSettle(c: ClusterState, sender: ClusterNode, epoch: nat, claimed: array<bv8>)
    returns (demoted: bool)
    requires c.Valid() && sender in c.nodes && claimed.Length == SLOTS / 8 && claimed !in c.Bitmaps()
    requires c.CurMaster() != null && (c.myself.isSlave ==> c.myself.numslots == 0)
    modifies c.slots, c.nodes`numslots, c.Bitmaps(), c.keys, c.importing, c.migrating
    modifies c.myself`isMaster, c.myself`isSlave, c.myself`slaveof
    ensures c.Valid()
    ensures Settles(old(ShotOf(c)), ShotOf(c), c.myself, sender,
                    old(Takes(c, sender, epoch, Bits(claimed[..]))), demoted)
  {
    demoted := false;
    ghost var before, taken := c.slots[..], Takes(c, sender, epoch, Bits(claimed[..]));
    if sender == c.myself {
      NothingSettles(ShotOf(c), c.myself, sender, taken);
      return;
    }
    var curmaster := if c.myself.isMaster then c.myself else c.myself.slaveof;
    assert c.NodeValid(c.myself);
    var lost, dirty := RebindSlots(c, sender, epoch, claimed, curmaster);
    assert c.NodeValid(c.myself);
    NoneGained(before, taken, sender, c.myself);
    demoted := AfterRebinding(c, sender, curmaster, lost, dirty, before, taken);
  }

  /** The same slot by slot, in the terms of the two tables. */
  lemma SettledAt(before: Shot, after: Shot, me: ClusterNode, sender: ClusterNode, taken: set<nat>, demoted: bool)
    requires |before.slots| == |before.keys| == |after.slots| == |after.keys| == SLOTS
    requires Settles(before, after, me, sender, taken, demoted)
    ensures forall j :: 0 <= j < SLOTS ==>
              && after.slots[j] == (if sender != me && j in taken then sender else before.slots[j])
              && after.keys[j] == if !demoted && before.slots[j] == me != after.slots[j] then 0 else before.keys[j]
    ensures demoted <==>
              var master := if before.isMaster then me else before.slaveof;
              && sender != me && (exists j :: 0 <= j < SLOTS && before.slots[j] == master != after.slots[j])
              && forall j :: 0 <= j < SLOTS ==> after.slots[j] != master
    ensures if demoted && before.isMaster then after.importing == after.migrating == Nobody()
            else after.importing == before.importing && after.migrating == before.migrating
    ensures if demoted then !after.isMaster && after.isSlave && after.slaveof == sender
            else after.isMaster == before.isMaster && after.isSlave == before.isSlave
                 && after.slaveof == before.slaveof
  {
  }

  /** A configuration of `sender` arrives. Its newer slots are rebound; if that leaves this node's
      master (itself, for a master) without slots this node becomes a slave of `sender`, and otherwise
      it drops the keys of the slots it lost. */
  method UpdateSlotsConfigWith(c: ClusterState, sender: ClusterNode, epoch: nat, claimed: array<bv8>)
    returns (demoted: bool)
    requires c.Valid() && sender in c.nodes && claimed.Length == SLOTS / 8 && claimed !in c.Bitmaps()
    requires c.CurMaster() != null && (c.myself.isSlave ==> c.myself.numslots == 0)
    modifies c.slots, c.nodes`numslots, c.Bitmaps(), c.keys, c.importing, c.migrating
    modifies c.myself`isMaster, c.myself`isSlave, c.myself`slaveof
    ensures c.Valid()
    ensures Settles(old(ShotOf(c)), ShotOf(c), c.myself, sender,
                    old(Takes(c, sender, epoch, Bits(claimed[..]))), demoted)
    ensures forall j: nat :: j < SLOTS ==>
              c.slots[j] == if && sender != c.myself && j in old(Bits(claimed[..])) && old(c.importing[j]) == null
                               && (|| old(c.slots[j]) == null
                                   || (old(c.slots[j]) != sender && old(c.slots[j].configEpoch) < epoch))
                            then sender else old(c.slots[j])
    ensures forall j :: 0 <= j < SLOTS ==>
              c.keys[j] == if !demoted && old(c.slots[j]) == c.myself != c.slots[j] then 0 else old(c.keys[j])
    ensures demoted <==>
              var master := if old(c.myself.isMaster) then c.myself else old(c.myself.slaveof);
              && sender != c.myself && (exists j :: 0 <= j < SLOTS && old(c.slots[j]) == master != c.slots[j])
              && forall j :: 0 <= j < SLOTS ==> c.slots[j] != master
    ensures forall j :: 0 <= j < SLOTS ==>
              && c.importing[j] == (if demoted && old(c.myself.isMaster) then null else old(c.importing[j]))
              && c.migrating[j] == (if demoted && old(c.myself.isMaster) then null else old(c.migrating[j]))
    ensures if demoted then c.myself.isSlave && c.myself.slaveof == sender
            else c.myself.isMaster == old(c.myself.isMaster) && c.myself.slaveof == old(c.myself.slaveof)
  {
    hide Settles, Reassign, Purged, Emptied;
    ghost var before, taken := ShotOf(c), Takes(c, sender, epoch, Bits(claimed[..]));
    demoted := RebindAndSettle(c, sender, epoch, claimed);
    SettledAt(before, ShotOf(c), c.myself, sender, taken, demoted);
  }

  /** The rebinding in the terms of ClusterClaims. */
  lemma RebindByTakes(c: ClusterState, sender: ClusterNode, epoch: nat, claimed: set<nat>)
    requires c.TableValid() && sender in c.nodes && forall j :: j in claimed ==> j < SLOTS
    ensures View(OwnersMap(Reassign(c.slots[..], Takes(c, sender, epoch, claimed), sender)), c.Epochs())
            == Rebind(c.Picture(), c.Importing(), sender, epoch, claimed)
  {
    var v, taken := c.Picture(), Takes(c, sender, epoch, claimed);
    forall j | j in claimed ensures j in taken <==> j in Taken(v, c.Importing(), sender, epoch, claimed) {
      assert j in v.owners <==> c.slots[j] != null;
      assert j in c.Importing() <==> c.importing[j] != null;
    }
    assert taken == Taken(v, c.Importing(), sender, epoch, claimed);
    assert OwnersMap(Reassign(c.slots[..], taken, sender)) == v.owners + map j | j in taken :: sender;
  }

  /** A claim with the bitmap this node already has for the sender. */
  lemma KnownBitmap(c: ClusterState, sender: ClusterNode, epoch: nat)
    requires c.TableValid() && sender in c.nodes
    ensures Rebind(c.Picture(), c.Importing(), sender, epoch, Bits(sender.slots[..])) == c.Picture()
    ensures Takes(c, sender, epoch, Bits(sender.slots[..])) == {}
  {
    assert c.NodeValid(sender);
  }

  method SeeConfigEpoch(c: ClusterState, sender: ClusterNode, epoch: nat)
    requires c.Valid() && sender in c.nodes
    modifies sender`configEpoch
    ensures c.Valid() && c.Picture() == old(Raise(c.Picture(), sender, epoch))
    ensures forall claimed :: Takes(c, sender, epoch, claimed) == old(Takes(c, sender, epoch, claimed))
  {
    ghost var v := c.Picture();
    if epoch > sender.configEpoch {
      sender.configEpoch := epoch;
    }
    assert c.Epochs() == Raise(v, sender, epoch).epochs;
  }

  /** The same change in the terms of ClusterClaims. */
  method ApplyConfig(c: ClusterState, sender: ClusterNode, epoch: nat, claimed: array<bv8>) returns (demoted: bool)
    requires c.Valid() && sender in c.nodes && claimed.Length == SLOTS / 8 && claimed !in c.Bitmaps()
    requires c.CurMaster() != null && (c.myself.isSlave ==> c.myself.numslots == 0)
    modifies c.slots, c.nodes`numslots, c.Bitmaps(), c.keys, c.importing, c.migrating
    modifies c.myself`isMaster, c.myself`isSlave, c.myself`slaveof
    ensures c.Valid() && c.Epochs() == old(c.Epochs())
    ensures Settles(old(ShotOf(c)), ShotOf(c), c.myself, sender,
                    old(Takes(c, sender, epoch, Bits(claimed[..]))), demoted)
    ensures c.Picture() == if sender == c.myself then old(c.Picture())
                           else old(Rebind(c.Picture(), c.Importing(), sender, epoch, Bits(claimed[..])))
  {
    hide Settles, Takes;
    ghost var epochs := c.Epochs();
    RebindByTakes(c, sender, epoch, Bits(claimed[..]));
    demoted := RebindAndSettle(c, sender, epoch, claimed);
    assert c.Epochs() == epochs;
  }

  /** A PING or PONG of a known master, seen as a claim: exactly the message of ClusterClaims. */
  method ReceiveClaim(c: ClusterState, sender: ClusterNode, epoch: nat, claimed: array<bv8>) returns (demoted: bool)
    requires c.Valid() && sender in c.nodes && claimed.Length == SLOTS / 8 && claimed !in c.Bitmaps()
    requires c.CurMaster() != null && (c.myself.isSlave ==> c.myself.numslots == 0) && sender != c.myself
    modifies c.slots, c.nodes`numslots, c.Bitmaps(), c.keys, c.importing, c.migrating, sender`configEpoch
    modifies c.myself`isMaster, c.myself`isSlave, c.myself`slaveof
    ensures c.Valid()
    ensures Settles(old(ShotOf(c)), ShotOf(c), c.myself, sender,
                    old(Takes(c, sender, epoch, Bits(claimed[..]))), demoted)
    ensures c.Picture() == old(Receive(c.Picture(), c.Importing(), Claim(sender, epoch, Bits(claimed[..]))))
  {
    SeeConfigEpoch(c, sender, epoch);
    if sender.slots[..] != claimed[..] {
      demoted := ApplyConfig(c, sender, epoch, claimed);
    } else {
      KnownBitmap(c, sender, epoch);
      NothingSettles(ShotOf(c), c.myself, sender, {});
      demoted := false;
    }
  }
}
