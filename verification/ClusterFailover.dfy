/** The epoch and election handlers of one node. Each is proved to do to the node's fields exactly what
    the function of ClusterEpochs says, on which the network-wide results rest. */
module ClusterFailover {
  import opened Basics
  import opened ClusterClaims
  import opened ClusterEpochs
  import opened ClusterTable
  import opened ClusterCommands

  function Known(n: ClusterNode?): Option<ClusterNode> {
    if n == null then None else Some(n)
  }

  /** The fields that ClusterEpochs is about. */
  ghost function LocalOf(c: ClusterState): (l: Local<ClusterNode>)
    requires c.LinksValid()
    reads c, c.nodes`configEpoch, c.myself, c.importing, c.migrating
    ensures l.Valid()
  {
    Local(c.myself, c.myself.isMaster, Known(c.myself.slaveof), c.myself.numslots, c.currentEpoch,
          c.lastVoteEpoch, c.authEpoch, c.authCount, c.authSent, c.Epochs())
  }

  // ---------------------------------------------------------------- epochs

  /** What every packet from a known sender does first. */
  method SeeHeader(c: ClusterState, sender: ClusterNode, current: nat, config: nat)
    requires c.LinksValid() && sender in c.nodes
    modifies c`currentEpoch, sender`configEpoch
    ensures c.LinksValid() && LocalOf(c) == old(LocalOf(c).SeeHeader(sender, current, config))
    ensures c.currentEpoch == Max(old(c.currentEpoch), current)
    ensures sender.configEpoch == Max(old(sender.configEpoch), config)
  {
    ghost var l := LocalOf(c);
    if current > c.currentEpoch {
      c.currentEpoch := current;
    }
    if config > sender.configEpoch {
      sender.configEpoch := config;
    }
    assert c.Epochs() == l.SeeHeader(sender, current, config).epochs;
  }

  method HandleConfigEpochCollision(c: ClusterState, sender: ClusterNode)
    requires c.LinksValid() && sender in c.nodes
    modifies c`currentEpoch, c.myself`configEpoch
    ensures c.LinksValid()
    ensures LocalOf(c) == if old(LocalOf(c).Collides(sender, sender.isMaster, sender.name > c.myself.name))
                          then old(LocalOf(c).TakeNextEpoch()) else old(LocalOf(c))
    ensures if old(sender.isMaster && c.myself.isMaster && sender.configEpoch == c.myself.configEpoch)
               && sender.name > c.myself.name
            then c.currentEpoch == old(c.currentEpoch) + 1 == c.myself.configEpoch
            else c.currentEpoch == old(c.currentEpoch) && c.myself.configEpoch == old(c.myself.configEpoch)
  {
    ghost var l := LocalOf(c);
    if sender.configEpoch != c.myself.configEpoch || !sender.isMaster || !c.myself.isMaster {
      return;
    }
    if sender.name <= c.myself.name {
      return;
    }
    c.currentEpoch := c.currentEpoch + 1;
    c.myself.configEpoch := c.currentEpoch;
    assert c.Epochs() == l.TakeNextEpoch().epochs;
  }

  /** The epoch part of a PING or PONG. This node takes a new epoch only when it and the sender are masters,
      the message carries this node's own configEpoch, and the sender's name is the greater one. */
  method ReceivePing(c: ClusterState, sender: ClusterNode, current: nat, config: nat)
    requires c.LinksValid() && sender in c.nodes
    modifies c`currentEpoch, c.nodes`configEpoch
    ensures c.LinksValid()
    ensures LocalOf(c) == old(LocalOf(c).SeePing(sender, current, config, sender.isMaster, sender.name > c.myself.name))
    ensures sender != c.myself ==> sender.configEpoch == Max(old(sender.configEpoch), config)
    ensures forall n :: n in c.nodes && n != sender && n != c.myself ==> n.configEpoch == old(n.configEpoch)
    ensures var seen := Max(old(c.currentEpoch), current);
            if sender.isMaster && c.myself.isMaster && sender.name > c.myself.name
               && config == old(c.myself.configEpoch) && old(sender.configEpoch) <= config
            then c.currentEpoch == seen + 1 == c.myself.configEpoch
            else c.currentEpoch == seen && (sender != c.myself ==> c.myself.configEpoch == old(c.myself.configEpoch))
  {
    SeeHeader(c, sender, current, config);
    if c.myself.isMaster && sender.isMaster && config == c.myself.configEpoch {
      HandleConfigEpochCollision(c, sender);
    }
  }

  method GetMaxEpoch(c: ClusterState) returns (max: nat)
    requires c.LinksValid()
    ensures max >= c.currentEpoch && forall n :: n in c.nodes ==> n.configEpoch <= max
    ensures max == c.currentEpoch || exists n :: n in c.nodes && n.configEpoch == max
  {
    max := 0;
    var rest := c.nodes;
    while rest != {}
      invariant rest <= c.nodes
      invariant forall n :: n in c.nodes && n !in rest ==> n.configEpoch <= max
      invariant max == 0 || exists n :: n in c.nodes && n.configEpoch == max
      decreases rest
    {
      var n :| n in rest;
      if n.configEpoch > max {
        max := n.configEpoch;
      }
      rest := rest - {n};
    }
    if max < c.currentEpoch {
      max := c.currentEpoch;
    }
  }

  lemma MaxIsOwn(c: ClusterState, max: nat)
    requires c.LinksValid() && max >= c.currentEpoch && forall n :: n in c.nodes ==> n.configEpoch <= max
    requires max == c.currentEpoch || exists n :: n in c.nodes && n.configEpoch == max
    ensures c.myself.configEpoch == max <==> LocalOf(c).IsGreatest()
  {
    var l := LocalOf(c);
    if n :| n in c.nodes && n.configEpoch == max {
      assert n in l.epochs && l.epochs[n] == max;
    }
  }

  method BumpConfigEpochWithoutConsensus(c: ClusterState) returns (ok: bool)
    requires c.LinksValid()
    modifies c`currentEpoch, c.myself`configEpoch
    ensures c.LinksValid() && LocalOf(c) == old(LocalOf(c).Bump())
    ensures ok <==> old(LocalOf(c).Bump()) != old(LocalOf(c))
    ensures ok <==> || old(c.myself.configEpoch) == 0 || old(c.currentEpoch) > old(c.myself.configEpoch)
                    || exists n :: n in c.nodes && old(n.configEpoch) > old(c.myself.configEpoch)
    ensures if ok then c.currentEpoch == old(c.currentEpoch) + 1 == c.myself.configEpoch
            else c.currentEpoch == old(c.currentEpoch) && c.myself.configEpoch == old(c.myself.configEpoch)
  {
    ghost var l := LocalOf(c);
    var max := GetMaxEpoch(c);
    MaxIsOwn(c, max);
    if c.myself.configEpoch == 0 || c.myself.configEpoch != max {
      c.currentEpoch := c.currentEpoch + 1;
      c.myself.configEpoch := c.currentEpoch;
      assert c.Epochs() == l.TakeNextEpoch().epochs;
      return true;
    }
    return false;
  }

  /** The epochs and slots that a message of this node carries: its master's, when it is a slave. */
  method BuildMessageHdr(c: ClusterState) returns (current: nat, config: nat, claimed: array<bv8>)
    requires c.Valid()
    ensures current == c.currentEpoch && config == LocalOf(c).HeaderEpoch()
    ensures var owner := if c.myself.isSlave && c.myself.slaveof != null then c.myself.slaveof else c.myself;
            && config == owner.configEpoch && claimed.Length == SLOTS / 8
            && Bits(claimed[..]) == set j: nat | j < SLOTS && c.slots[j] == owner
  {
    var master: ClusterNode := if c.myself.isSlave && c.myself.slaveof != null then c.myself.slaveof else c.myself;
    assert c.NodeValid(master);
    ghost var bitmap := master.slots[..];
    current, config := c.currentEpoch, master.configEpoch;
    claimed := new bv8[SLOTS / 8];
    forall i | 0 <= i < SLOTS / 8 {
      claimed[i] := master.slots[i];
    }
    assert claimed[..] == bitmap;
    assert Bits(bitmap) == SlotsOf(c.slots[..], master);
  }

  // ---------------------------------------------------------------- votes

  ghost predicate ClaimsNewest(c: ClusterState, config: nat, claimed: set<nat>)
    requires c.ArraysValid()
    reads c.slots, c.slots[..]
  {
    forall j: nat :: j < SLOTS && j in claimed && c.slots[j] != null ==> c.slots[j].configEpoch <= config
  }

  /** The checks on the requester and on the slots it claims. */
  ghost predicate Deserves(c: ClusterState, node: ClusterNode, config: nat, claimed: set<nat>, force: bool,
                           now: int, timeout: nat)
    requires c.ArraysValid()
    reads c.slots, c.slots[..], node, node.slaveof
  {
    && !node.isMaster && node.slaveof != null
    && (node.slaveof.failed || force)
    && now - node.slaveof.votedTime >= 2 * timeout
    && ClaimsNewest(c, config, claimed)
  }

  /** The loop over the claimed slots: none may belong to a newer configuration. */
  method ClaimsAreNewest(c: ClusterState, config: nat, claimed: array<bv8>) returns (ok: bool)
    requires c.ArraysValid() && claimed.Length == SLOTS / 8
    ensures ok <==> ClaimsNewest(c, config, Bits(claimed[..]))
  {
    for j := 0 to SLOTS
      invariant forall k: nat :: k < j && k in Bits(claimed[..]) && c.slots[k] != null ==>
                  c.slots[k].configEpoch <= config
    {
      var bit := BitmapTestBit(claimed, j);
      if bit && c.slots[j] != null && c.slots[j].configEpoch > config {
        return false;
      }
    }
    return true;
  }

  /** A request for a vote. The result says whether the vote is cast: by a master with slots that did not vote in
      its current epoch, which the request has reached, for a slave of a known master that failed, twice the
      node timeout after the last vote about that master, and when no claimed slot has a newer owner. */
  method SendFailoverAuthIfNeeded(c: ClusterState, node: ClusterNode, current: nat, config: nat,
                                  claimed: array<bv8>, force: bool, now: int, timeout: nat)
    returns (granted: bool)
    requires c.LinksValid() && node in c.nodes && claimed.Length == SLOTS / 8
    modifies c`lastVoteEpoch, (if node.slaveof == null then {} else {node.slaveof})`votedTime
    ensures c.LinksValid()
    ensures granted
            <==> old(LocalOf(c).Grants(current, Deserves(c, node, config, Bits(claimed[..]), force, now, timeout)))
    ensures LocalOf(c) == if granted then old(LocalOf(c).CastVote()) else old(LocalOf(c))
    ensures granted <==>
              && c.myself.isMaster && c.myself.numslots > 0
              && current >= c.currentEpoch && old(c.lastVoteEpoch) != c.currentEpoch
              && !node.isMaster && node.slaveof != null && (node.slaveof.failed || force)
              && now - old(node.slaveof.votedTime) >= 2 * timeout
              && forall j: nat :: j < SLOTS && j in Bits(claimed[..]) && c.slots[j] != null ==>
                                    c.slots[j].configEpoch <= config
    ensures c.lastVoteEpoch == if granted then c.currentEpoch else old(c.lastVoteEpoch)
    ensures node.slaveof != null ==> node.slaveof.votedTime == if granted then now else old(node.slaveof.votedTime)
  {
    granted := false;
    var master := node.slaveof;
    if c.myself.isSlave || c.myself.numslots == 0 {
      return;
    }
    if current < c.currentEpoch || c.lastVoteEpoch == c.currentEpoch {
      return;
    }
    if node.isMaster || master == null || (!master.failed && !force) {
      return;
    }
    if now - master.votedTime < timeout * 2 {
      return;
    }
    granted := ClaimsAreNewest(c, config, claimed);
    if granted {
      c.lastVoteEpoch := c.currentEpoch;
      master.votedTime := now;
    }
  }

  /** An acknowledgement of our request. */
  method ReceiveAck(c: ClusterState, sender: ClusterNode, current: nat)
    requires c.Valid() && sender in c.nodes
    modifies c`authCount
    ensures c.Valid() && LocalOf(c) == old(LocalOf(c).CountAck(current, sender.isMaster && sender.numslots > 0))
    ensures c.authCount == old(c.authCount)
                           + if sender.isMaster && sender.numslots > 0 && current >= c.authEpoch then 1 else 0
  {
    if sender.isMaster && sender.numslots > 0 && current >= c.authEpoch {
      c.authCount := c.authCount + 1;
    }
  }

  /** The cluster size: masters serving at least one slot. */
  method UpdateSize(c: ClusterState)
    modifies c`size
    ensures c.size == |set n | n in c.nodes && n.isMaster && n.numslots > 0|
  {
    c.size := 0;
    var rest := c.nodes;
    ghost var done: set<ClusterNode> := {};
    while rest != {}
      invariant rest <= c.nodes && c.nodes == old(c.nodes)
      invariant forall n :: n in done <==> n in c.nodes && n !in rest && n.isMaster && n.numslots > 0
      invariant c.size == |done|
      decreases rest
    {
      var n :| n in rest;
      rest := rest - {n};
      if n.isMaster && n.numslots > 0 {
        c.size := c.size + 1;
        done := done + {n};
      }
    }
    assert done == set n | n in c.nodes && n.isMaster && n.numslots > 0;
  }

  // ---------------------------------------------------------------- the slave side of an election

  /** What clusterHandleSlaveFailover() reads besides the cluster state. `age` is how long the data was
      not refreshed, `random` the random part of the delay, `rank` the rank among the slaves. */
  datatype Situation = Situation(now: int, timeout: nat, age: int, pingPeriod: nat, validity: nat,
                                 mfEnd: bool, mfCanStart: bool, random: nat, rank: nat)

  datatype Outcome = NoReason | DataTooOld | Scheduled | Waiting | Expired | Asked | Won | NotEnough

  function AuthTimeout(timeout: nat): nat {
    Max(timeout * 2, 2000)
  }

  /** Whether there is a failed (or handed over) master to replace. */
  predicate MayReplace(c: ClusterState, manual: bool)
    reads c, c.myself, c.myself.slaveof
  {
    && !c.myself.isMaster && c.myself.slaveof != null
    && (c.myself.slaveof.failed || manual)
    && c.myself.slaveof.numslots != 0
  }

  predicate TooOld(s: Situation) {
    var age := if s.age > s.timeout then s.age - s.timeout else s.age;
    s.validity != 0 && age > s.pingPeriod * 1000 + s.timeout * s.validity && !(s.mfEnd && s.mfCanStart)
  }

  /** Sets up the next attempt. */
  method ScheduleElection(c: ClusterState, s: Situation)
    requires c.LinksValid()
    modifies c`authTime, c`authCount, c`authSent, c`authRank
    ensures c.LinksValid() && LocalOf(c) == old(LocalOf(c).Schedule()) && c.authCount == 0 && !c.authSent
    ensures c.authRank == if s.mfEnd then 0 else s.rank
    ensures c.authTime == if s.mfEnd then s.now else s.now + 500 + s.random + 1000 * s.rank
  {
    c.authTime := s.now + 500 + s.random;
    c.authCount, c.authSent, c.authRank := 0, false, s.rank;
    c.authTime := c.authTime + c.authRank * 1000;
    if s.mfEnd {
      c.authTime, c.authRank := s.now, 0;
    }
  }

  /** A rank that got worse while waiting adds to the delay. */
  method UpdateRank(c: ClusterState, s: Situation)
    requires c.LinksValid()
    modifies c`authTime, c`authRank
    ensures c.LinksValid() && LocalOf(c) == old(LocalOf(c))
    ensures c.authRank == if c.authSent || s.mfEnd then old(c.authRank) else Max(old(c.authRank), s.rank)
    ensures c.authTime - old(c.authTime) == 1000 * (c.authRank - old(c.authRank))
  {
    if !c.authSent && !s.mfEnd && s.rank > c.authRank {
      c.authTime := c.authTime + (s.rank - c.authRank) * 1000;
      c.authRank := s.rank;
    }
  }

  method AskForVotes(c: ClusterState)
    requires c.LinksValid()
    modifies c`currentEpoch, c`authEpoch, c`authSent
    ensures c.LinksValid() && LocalOf(c) == old(LocalOf(c).StartElection())
    ensures c.currentEpoch == old(c.currentEpoch) + 1 == c.authEpoch && c.authSent
  {
    c.currentEpoch := c.currentEpoch + 1;
    c.authEpoch := c.currentEpoch;
    c.authSent := true;
  }

  method AdoptElectionEpoch(c: ClusterState)
    requires c.Valid()
    modifies c.myself`configEpoch
    ensures c.Valid() && LocalOf(c) == old(LocalOf(c).(epochs := LocalOf(c).Promote(0).epochs))
    ensures c.myself.configEpoch == Max(old(c.myself.configEpoch), c.authEpoch)
  {
    ghost var l := LocalOf(c);
    if c.myself.configEpoch < c.authEpoch {
      c.myself.configEpoch := c.authEpoch;
    }
    assert c.Epochs() == l.Promote(0).epochs;
  }

  /** The quorum was reached: this node takes the epoch of the election, unless its own is greater already,
      becomes a master, and takes over its master's slots. */
  method TakeOver(c: ClusterState)
    requires c.Valid() && !c.myself.isMaster && c.myself.slaveof != null
    modifies c.slots, c.nodes`numslots, c.Bitmaps()
    modifies c.myself`isMaster, c.myself`isSlave, c.myself`slaveof, c.myself`configEpoch
    ensures c.Valid() && LocalOf(c) == old(LocalOf(c)).Promote(c.myself.numslots)
    ensures c.myself.configEpoch == Max(old(c.myself.configEpoch), c.authEpoch)
    ensures c.myself.isMaster && !c.myself.isSlave && c.myself.slaveof == null
    ensures forall j :: 0 <= j < SLOTS ==>
              c.slots[j] == if old(c.slots[j]) == old(c.myself.slaveof) then c.myself else old(c.slots[j])
  {
    hide ClusterState.TableValid, ClusterState.Epochs;
    AdoptElectionEpoch(c);
    ghost var epochs := c.Epochs();
    FailoverReplaceYourMaster(c);
    assert c.Epochs() == epochs;
  }

  /** What an attempt that is neither too early nor too late comes to. */
  function Attempt(sent: bool, count: nat, size: nat): Outcome {
    if !sent then Asked else if count >= size / 2 + 1 then Won else NotEnough
  }

  /** The outcome, by the start of the attempt before and after the rank was looked at. */
  function Decision(now: int, before: int, after: int, timeout: nat, sent: bool, count: nat, size: nat): Outcome {
    if now - before > 2 * timeout then Scheduled
    else if now < after then Waiting
    else if now - before > timeout then Expired
    else Attempt(sent, count, size)
  }

  /** The start of the attempt once the present rank was taken into account. */
  function Delayed(time: int, rank: nat, sent: bool, s: Situation): int {
    if sent || s.mfEnd then time else time + 1000 * (Max(rank, s.rank) - rank)
  }

  /** What that comes to, with `rank` the rank before: an attempt lasts twice the node timeout, but at least two
      seconds, another one is scheduled after twice that, and a win takes more than half of the masters. */
  lemma ElectionTimes(s: Situation, start: int, rank: nat, sent: bool, count: nat, size: nat)
    ensures var after := Delayed(start, rank, sent, s);
            var d := Decision(s.now, start, after, AuthTimeout(s.timeout), sent, count, size);
            var age := s.now - start;
            && after == start + (if sent || s.mfEnd || s.rank <= rank then 0 else 1000 * (s.rank - rank))
            && (d == Scheduled <==> age > 4 * s.timeout && age > 4000)
            && (d == Waiting <==> d != Scheduled && s.now < after)
            && (d == Expired <==> d != Scheduled && s.now >= after && age > 2 * s.timeout && age > 2000)
            && (d == Asked ==> !sent) && (d == Won ==> sent && 2 * count > size)
            && (d == NotEnough ==> sent && 2 * count <= size)
            && d != NoReason && d != DataTooOld
  {
  }

  ghost predicate Follows(outcome: Outcome, c: ClusterState, before: Local<ClusterNode>, size: nat)
    requires c.LinksValid() && before.Valid()
    reads c, c.nodes`configEpoch, c.myself, c.importing, c.migrating
  {
    match outcome
    case Scheduled => LocalOf(c) == before.Schedule()
    case Asked => !before.authSent && LocalOf(c) == before.StartElection()
    case Won => before.authSent && before.HasQuorum(size) && LocalOf(c) == before.Promote(c.myself.numslots)
    case NotEnough => before.authSent && !before.HasQuorum(size) && LocalOf(c) == before
    case _ => LocalOf(c) == before
  }

  /** The end of clusterHandleSlaveFailover(), when it is time. */
  method AskOrTakeOver(c: ClusterState) returns (outcome: Outcome)
    requires c.Valid() && !c.myself.isMaster && c.myself.slaveof != null
    modifies c`authSent, c`currentEpoch, c`authEpoch
    modifies c.slots, c.nodes`numslots, c.Bitmaps()
    modifies c.myself`isMaster, c.myself`isSlave, c.myself`slaveof, c.myself`configEpoch
    ensures c.Valid() && outcome == old(Attempt(c.authSent, c.authCount, c.size))
    ensures Follows(outcome, c, old(LocalOf(c)), c.size)
    ensures if !old(c.authSent) then c.authSent && c.currentEpoch == c.authEpoch == old(c.currentEpoch) + 1
            else c.authSent && c.currentEpoch == old(c.currentEpoch) && c.authEpoch == old(c.authEpoch)
    ensures if old(c.authSent) && 2 * c.authCount > c.size
            then c.myself.isMaster && c.myself.configEpoch == Max(old(c.myself.configEpoch), c.authEpoch)
            else !c.myself.isMaster && c.myself.configEpoch == old(c.myself.configEpoch)
    ensures forall j :: 0 <= j < SLOTS ==>
              c.slots[j] == if outcome == Won && old(c.slots[j]) == old(c.myself.slaveof) then c.myself
                            else old(c.slots[j])
  {
    if !c.authSent {
      AskForVotes(c);
      return Asked;
    }
    if c.authCount < c.size / 2 + 1 {
      return NotEnough;
    }
    TakeOver(c);
    outcome := Won;
  }

  /** The rest of clusterHandleSlaveFailover() once there is a master to replace and the data is recent. */
  method RunElection(c: ClusterState, s: Situation) returns (outcome: Outcome)
    requires c.Valid() && !c.myself.isMaster && c.myself.slaveof != null
    modifies c`authTime, c`authCount, c`authSent, c`authRank, c`currentEpoch, c`authEpoch
    modifies c.slots, c.nodes`numslots, c.Bitmaps()
    modifies c.myself`isMaster, c.myself`isSlave, c.myself`slaveof, c.myself`configEpoch
    ensures c.Valid() && c.authTime >= old(c.authTime)
    ensures outcome == old(Decision(s.now, c.authTime, Delayed(c.authTime, c.authRank, c.authSent, s),
                                    AuthTimeout(s.timeout), c.authSent, c.authCount, c.size))
    ensures outcome != Scheduled ==> c.authTime == old(Delayed(c.authTime, c.authRank, c.authSent, s))
    ensures outcome == Scheduled ==> c.authTime == if s.mfEnd then s.now else s.now + 500 + s.random + 1000 * s.rank
    ensures Follows(outcome, c, old(LocalOf(c)), c.size)
    ensures forall j :: 0 <= j < SLOTS ==>
              c.slots[j] == if outcome == Won && old(c.slots[j]) == old(c.myself.slaveof) then c.myself
                            else old(c.slots[j])
  {
    hide LocalOf, Local.Schedule, Local.StartElection, Local.Promote, Local.HasQuorum;
    var age := s.now - c.authTime;
    var timeout := AuthTimeout(s.timeout);
    if age > timeout * 2 {
      ScheduleElection(c, s);
      return Scheduled;
    }
    UpdateRank(c, s);
    if s.now < c.authTime {
      return Waiting;
    }
    if age > timeout {
      return Expired;
    }
    outcome := AskOrTakeOver(c);
  }

  /** One run of the failover cron of a slave. `asked` is the time of this node's latest request: a new
      election is never scheduled before AuthTimeout has passed since then, so that an acknowledgement
      that takes less than that is never counted for a later election. */
  method HandleSlaveFailover(c: ClusterState, s: Situation, ghost asked: int)
    returns (outcome: Outcome, ghost lastAsked: int)
    requires c.Valid() && asked <= c.authTime + AuthTimeout(s.timeout)
    modifies c`authTime, c`authCount, c`authSent, c`authRank, c`currentEpoch, c`authEpoch
    modifies c.slots, c.nodes`numslots, c.Bitmaps()
    modifies c.myself`isMaster, c.myself`isSlave, c.myself`slaveof, c.myself`configEpoch
    ensures c.Valid() && lastAsked <= c.authTime + AuthTimeout(s.timeout)
    ensures lastAsked == if outcome == Asked then s.now else asked
    ensures outcome == Scheduled ==> s.now > asked + AuthTimeout(s.timeout)
    ensures outcome != NoReason <==>
              && !old(c.myself.isMaster) && old(c.myself.slaveof) != null && old(c.myself.slaveof.numslots) != 0
              && (old(c.myself.slaveof).failed || (s.mfEnd && s.mfCanStart))
    ensures outcome == DataTooOld <==>
              && outcome != NoReason && s.validity != 0 && !(s.mfEnd && s.mfCanStart)
              && s.age > 1000 * s.pingPeriod + s.timeout * s.validity + if s.age > s.timeout then s.timeout else 0
    ensures outcome != NoReason && outcome != DataTooOld ==>
              outcome == old(Decision(s.now, c.authTime, Delayed(c.authTime, c.authRank, c.authSent, s),
                                      AuthTimeout(s.timeout), c.authSent, c.authCount, c.size))
    ensures outcome == NoReason || outcome == DataTooOld ==> c.authTime == old(c.authTime)
    ensures Follows(outcome, c, old(LocalOf(c)), c.size)
    ensures forall j :: 0 <= j < SLOTS ==>
              c.slots[j] == if outcome == Won && old(c.slots[j]) == old(c.myself.slaveof) then c.myself
                            else old(c.slots[j])
  {
    hide Local.Schedule, Local.StartElection, Local.Promote, Local.HasQuorum, ClusterState.TableValid;
    lastAsked := asked;
    if !MayReplace(c, s.mfEnd && s.mfCanStart) {
      return NoReason, asked;
    }
    if TooOld(s) {
      return DataTooOld, asked;
    }
    outcome := RunElection(c, s);
    if outcome == Asked {
      lastAsked := s.now;
    }
  }

  // ---------------------------------------------------------------- UPDATE and SETSLOT

  /** This node's side of the promotion of `n`. */
  function Promoted(s: Shot, me: ClusterNode, n: ClusterNode): Shot {
    if n == me && s.isSlave then s.(isMaster := true, isSlave := false, slaveof := null) else s
  }

  method PromoteKnown(c: ClusterState, n: ClusterNode)
    requires c.Valid() && n in c.nodes
    modifies n`isMaster, n`isSlave, n`slaveof
    ensures c.Valid() && c.Picture() == old(c.Picture()) && ShotOf(c) == Promoted(old(ShotOf(c)), c.myself, n)
    ensures if old(n.isSlave && !n.isMaster) then n.isMaster && !n.isSlave && n.slaveof == null
            else n.isMaster == old(n.isMaster) && n.isSlave == old(n.isSlave) && n.slaveof == old(n.slaveof)
  {
    if n.isSlave {
      SetNodeAsMaster(n);
    }
  }

  /** What an UPDATE records about `n` before the slots are looked at. */
  method RecordUpdate(c: ClusterState, n: ClusterNode, epoch: nat)
    requires c.Valid() && n in c.nodes && n.configEpoch < epoch
    modifies n`configEpoch, n`isMaster, n`isSlave, n`slaveof
    ensures c.Valid() && c.Epochs() == old(c.Epochs())[n := epoch]
    ensures c.Picture() == old(Raise(c.Picture(), n, epoch))
    ensures ShotOf(c) == Promoted(old(ShotOf(c)), c.myself, n)
    ensures forall claimed :: Takes(c, n, epoch, claimed) == old(Takes(c, n, epoch, claimed))
    ensures if old(n.isSlave && !n.isMaster) then n.isMaster && !n.isSlave && n.slaveof == null
            else n.isMaster == old(n.isMaster) && n.isSlave == old(n.isSlave) && n.slaveof == old(n.slaveof)
  {
    PromoteKnown(c, n);
    SeeConfigEpoch(c, n, epoch);
    assert c.Epochs() == c.Picture().epochs;
  }

  /** A report about the configuration of `n`: when it is newer, the claim of ClusterClaims and all that
      follows from it; an older one changes nothing at all. */
  method ReceiveUpdate(c: ClusterState, n: ClusterNode, epoch: nat, claimed: array<bv8>) returns (demoted: bool)
    requires c.Valid() && n in c.nodes && claimed.Length == SLOTS / 8 && claimed !in c.Bitmaps()
    requires c.CurMaster() != null && (c.myself.isSlave ==> c.myself.numslots == 0)
    modifies c.slots, c.nodes`numslots, c.Bitmaps(), c.keys, c.importing, c.migrating
    modifies n`configEpoch, n`isMaster, n`isSlave, n`slaveof, c.myself`isMaster, c.myself`isSlave, c.myself`slaveof
    ensures c.Valid() && c.Epochs() == old(LocalOf(c).SeeUpdate(n, epoch).epochs)
    ensures n.configEpoch == Max(old(n.configEpoch), epoch)
    ensures old(n.configEpoch) >= epoch ==>
              && !demoted && ShotOf(c) == old(ShotOf(c)) && c.Picture() == old(c.Picture())
              && n.isMaster == old(n.isMaster) && n.isSlave == old(n.isSlave) && n.slaveof == old(n.slaveof)
    ensures old(n.configEpoch) < epoch ==>
              && Settles(Promoted(old(ShotOf(c)), c.myself, n), ShotOf(c), c.myself, n,
                         old(Takes(c, n, epoch, Bits(claimed[..]))), demoted)
              && c.Picture() == if n == c.myself then old(Raise(c.Picture(), n, epoch))
                                else old(Receive(c.Picture(), c.Importing(), Claim(n, epoch, Bits(claimed[..]))))
  {
    if n.configEpoch >= epoch {
      return false;
    }
    RecordUpdate(c, n, epoch);
    ghost var epochs := c.Epochs();
    assert epochs[n] == epoch;
    demoted := ApplyConfig(c, n, epoch, claimed);
    assert n in c.nodes && n.configEpoch == c.Epochs()[n];
  }

  /** A finished import comes with a new epoch. */
  method FinishImport(c: ClusterState, slot: nat)
    requires c.Valid() && slot < SLOTS
    modifies c.importing, c`currentEpoch, c.myself`configEpoch
    ensures c.Valid() && c.importing[..] == old(c.importing[..])[slot := null]
    ensures c.slots[..] == old(c.slots[..]) && c.migrating[..] == old(c.migrating[..])
    ensures LocalOf(c) == if old(c.importing[slot]) != null then old(LocalOf(c).Bump()) else old(LocalOf(c))
  {
    hide Local.Bump;
    if c.importing[slot] != null {
      ghost var l := LocalOf(c).Bump();
      var _ := BumpConfigEpochWithoutConsensus(c);
      c.importing[slot] := null;
      assert LocalOf(c) == l;
    }
  }

  method FinishExport(c: ClusterState, slot: nat)
    requires c.Valid() && slot < SLOTS
    modifies c.migrating
    ensures c.Valid() && c.migrating[..] == old(c.migrating[..])[slot := null]
    ensures c.slots[..] == old(c.slots[..]) && c.importing[..] == old(c.importing[..])
    ensures LocalOf(c) == old(LocalOf(c))
  {
    if c.migrating[slot] != null {
      c.migrating[slot] := null;
    }
  }

  /** Closing the migrations of a slot that is handed to `n`. */
  method CloseMigration(c: ClusterState, slot: nat, n: ClusterNode)
    requires c.Valid() && slot < SLOTS
    modifies c.importing, c.migrating, c`currentEpoch, c.myself`configEpoch
    ensures c.Valid() && c.slots[..] == old(c.slots[..])
    ensures c.migrating[..] == if c.keys[slot] == 0 then old(c.migrating[..])[slot := null] else old(c.migrating[..])
    ensures c.importing[..] == if n == c.myself then old(c.importing[..])[slot := null] else old(c.importing[..])
    ensures LocalOf(c) == if n == c.myself && old(c.importing[slot]) != null then old(LocalOf(c).Bump())
                          else old(LocalOf(c))
  {
    hide LocalOf, Local.Bump;
    if c.keys[slot] == 0 {
      FinishExport(c, slot);
    }
    if n == c.myself {
      FinishImport(c, slot);
    }
  }

  method HandOver(c: ClusterState, slot: nat, n: ClusterNode)
    requires c.Valid() && slot < SLOTS && n in c.nodes
    modifies c.slots, c.nodes`numslots, c.Bitmaps()
    ensures c.Valid() && c.slots[..] == old(c.slots[..])[slot := n] && c.Epochs() == old(c.Epochs())
    ensures c.importing[..] == old(c.importing[..]) && c.migrating[..] == old(c.migrating[..])
  {
    ghost var slots, epochs := c.slots[..], c.Epochs();
    MoveSlot(c, n, slot);
    assert c.Epochs() == epochs;
    assert c.slots[..] == slots[slot := n];
  }

  /** CLUSTER SETSLOT NODE: hands one slot over, unless this node still holds its keys. */
  method SetSlotNode(c: ClusterState, slot: nat, n: ClusterNode) returns (reply: Reply)
    requires c.Valid() && slot < SLOTS && n in c.nodes
    modifies c.slots, c.nodes`numslots, c.Bitmaps(), c.importing, c.migrating, c`currentEpoch, c.myself`configEpoch
    ensures c.Valid()
    ensures reply == if old(c.slots[slot]) == c.myself != n && c.keys[slot] != 0 then HoldsKeys else Ok
    ensures c.slots[..] == if reply == Ok then old(c.slots[..])[slot := n] else old(c.slots[..])
    ensures c.migrating[..] == if reply == Ok && c.keys[slot] == 0 then old(c.migrating[..])[slot := null]
                               else old(c.migrating[..])
    ensures c.importing[..] == if reply == Ok && n == c.myself then old(c.importing[..])[slot := null]
                               else old(c.importing[..])
    ensures var bumped := reply == Ok && n == c.myself && old(c.importing[slot]) != null;
            && c.Epochs() == (if bumped then old(LocalOf(c).Bump().epochs) else old(c.Epochs()))
            && c.currentEpoch == (if bumped then old(LocalOf(c).Bump().currentEpoch) else old(c.currentEpoch))
  {
    hide Local.Bump;
    if c.slots[slot] == c.myself && n != c.myself && c.keys[slot] != 0 {
      return HoldsKeys;
    }
    CloseMigration(c, slot, n);
    HandOver(c, slot, n);
    reply := Ok;
  }
}
