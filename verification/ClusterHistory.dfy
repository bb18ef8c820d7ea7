/** What the recorded votes and wins say about the run they come from: votes are cast by masters that serve
    slots, and an election is won under an epoch that beats everything its winner knew when it asked. */
module ClusterHistory {
  import opened Basics
  import opened ClusterClaims
  import opened ClusterEpochs
  import opened ClusterElection

  // ---------------------------------------------------------------- votes

  /** A vote cast in this step is that of a master with slots which did not vote in that epoch, for the
      sender of the request that it processes. */
  ghost predicate IsMastersVote(c: Cluster, step: Step, v: Vote) {
    && step.Deliver? && step.m.payload.AuthRequest? && step.trust
    && v == Vote(step.m.dst, step.m.currentEpoch, step.m.src)
    && v.voter < |c.nodes| && c.nodes[v.voter].isMaster && c.nodes[v.voter].numslots > 0
    && c.nodes[v.voter].currentEpoch <= v.epoch && c.nodes[v.voter].lastVoteEpoch != v.epoch
  }

  lemma NewVote(c: Cluster, step: Step, electorate: nat -> set<Node>, v: Vote)
    requires WellFormed(c) && Enabled(c, step, electorate) && v in EffectOf(c, step, electorate).votes
    ensures IsMastersVote(c, step, v)
  {
    if !TakesPartInElection(step) {
      hide EffectOf, Enabled;
      StepLeaves(c, step, electorate);
      assert false;
    }
  }

  ghost predicate CastAt(states: seq<Cluster>, steps: seq<Step>, j: nat, v: Vote)
    requires |states| == |steps| + 1
  {
    j < |steps| && IsMastersVote(states[j], steps[j], v)
  }

  /** Every vote of a run was cast in some step by a master that served slots at that time. */
  lemma {:induction false} VotersAreMasters(states: seq<Cluster>, steps: seq<Step>, electorate: nat -> set<Node>,
                                            k: nat, v: Vote)
    returns (j: nat)
    requires IsRun(states, steps, electorate) && k < |states| && v in states[k].votes
    ensures |states| == |steps| + 1 && j < k && CastAt(states, steps, j, v)
    decreases k
  {
    hide WellFormed, Enabled, EffectOf, IsMastersVote, Initial;
    RunLength(states, steps, electorate);
    if k == 0 {
      NothingYet(states[0]);
      assert false;
    } else {
      assert Follows(states[k - 1], steps[k - 1], states[k], electorate);
      if v in states[k - 1].votes {
        j := VotersAreMasters(states, steps, electorate, k - 1, v);
      } else {
        NewVote(states[k - 1], steps[k - 1], electorate, v);
        j := k - 1;
      }
    }
  }

  lemma NothingYet(c: Cluster)
    requires Initial(c)
    ensures c.votes == {} && c.wins == {} && forall i :: 0 <= i < |c.nodes| ==> !c.nodes[i].authSent
  {
  }

  // ---------------------------------------------------------------- wins

  /** In step `j` node `n` asked for votes under `epoch`, which is greater than every configEpoch it knew. */
  ghost predicate AskedAt(states: seq<Cluster>, steps: seq<Step>, j: nat, n: Node, epoch: nat)
    requires |states| == |steps| + 1
  {
    && j < |steps| && steps[j].StartElection? && steps[j].n == n < |states[j].nodes|
    && forall x :: x in states[j].nodes[n].epochs ==> states[j].nodes[n].epochs[x] < epoch
  }

  lemma AskingAsks(c: Cluster, step: Step, electorate: nat -> set<Node>)
    requires Inv(c, electorate) && Enabled(c, step, electorate) && step.StartElection?
    ensures var d := Take(c, step, electorate);
            && |d.nodes| == |c.nodes| && step.n < |c.nodes|
            && forall x :: x in c.nodes[step.n].epochs ==> c.nodes[step.n].epochs[x] < d.nodes[step.n].authEpoch
  {
    assert c.nodes[step.n].Bounded();
  }

  /** An attempt that is under way goes on, unless its node asks anew. */
  lemma AttemptGoesOn(c: Cluster, step: Step, electorate: nat -> set<Node>, i: Node)
    requires WellFormed(c) && Enabled(c, step, electorate) && i < |c.nodes|
    requires !(step.StartElection? && step.n == i) && Take(c, step, electorate).nodes[i].authSent
    ensures c.nodes[i].authSent && c.nodes[i].authEpoch == Take(c, step, electorate).nodes[i].authEpoch
  {
    if !TakesPartInElection(step) {
      StepLeaves(c, step, electorate);
      MovedOnly(c, step, electorate);
      hide EffectOf, Enabled, WellFormed, Take;
    }
  }

  lemma {:induction false} AskersAsked(states: seq<Cluster>, steps: seq<Step>, electorate: nat -> set<Node>, k: nat,
                                       i: Node)
    returns (j: nat)
    requires IsRun(states, steps, electorate) && k < |states| && i < |states[k].nodes| && states[k].nodes[i].authSent
    ensures |states| == |steps| + 1 && j < k && AskedAt(states, steps, j, i, states[k].nodes[i].authEpoch)
    decreases k
  {
    hide Inv, WellFormed, Enabled, Initial, Take;
    RunLength(states, steps, electorate);
    if k == 0 {
      NothingYet(states[0]);
      assert false;
    } else {
      var c, step := states[k - 1], steps[k - 1];
      assert Follows(c, step, states[k], electorate);
      ReachableInv(states, steps, electorate, k - 1);
      SameNodes(c, step, electorate);
      if step.StartElection? && step.n == i {
        AskingAsks(c, step, electorate);
        j := k - 1;
      } else {
        AttemptGoesOn(c, step, electorate, i);
        j := AskersAsked(states, steps, electorate, k - 1, i);
      }
    }
  }

  lemma SameNodes(c: Cluster, step: Step, electorate: nat -> set<Node>)
    requires WellFormed(c) && Enabled(c, step, electorate)
    ensures |Take(c, step, electorate).nodes| == |c.nodes|
  {
  }

  /** A win recorded in this step is that of a node that asked, which records the epoch it asked for. */
  lemma WinRecords(c: Cluster, step: Step, electorate: nat -> set<Node>, w: Win)
    requires WellFormed(c) && Enabled(c, step, electorate) && w in EffectOf(c, step, electorate).wins
    ensures w.node < |c.nodes| && c.nodes[w.node].authSent && c.nodes[w.node].authEpoch == w.epoch
    ensures Recorded(Take(c, step, electorate), w)
  {
    if !step.WinElection? {
      NoOtherWin(c, step, electorate);
      hide EffectOf, Enabled, WellFormed;
      assert false;
    }
    assert IsNode(c.nodes[step.n], step.n, |c.nodes|);
  }

  /** The winner's configEpoch is at least the epoch of the election. */
  ghost predicate Recorded(c: Cluster, w: Win) {
    && w.node < |c.nodes| && w.node in c.nodes[w.node].epochs
    && c.nodes[w.node].epochs[w.node] >= w.epoch
  }

  lemma StaysRecorded(c: Cluster, step: Step, electorate: nat -> set<Node>, w: Win)
    requires Inv(c, electorate) && Enabled(c, step, electorate) && Recorded(c, w)
    ensures Recorded(Take(c, step, electorate), w)
  {
    hide Inv, Enabled, Take;
    StepNotLower(c, step, electorate, w.node);
  }

  /** In every reachable state every winner holds a configEpoch that is at least the epoch it won, and that
      is greater than every configEpoch it knew in the step in which it asked for the votes. */
  lemma {:induction false} WinnersHoldTheEpoch(states: seq<Cluster>, steps: seq<Step>, electorate: nat -> set<Node>,
                                               k: nat, w: Win)
    returns (j: nat)
    requires IsRun(states, steps, electorate) && k < |states| && w in states[k].wins
    ensures Recorded(states[k], w)
    ensures |states| == |steps| + 1 && j < k && AskedAt(states, steps, j, w.node, w.epoch)
    decreases k
  {
    hide Inv, WellFormed, Enabled, EffectOf, Initial, Recorded, AskedAt;
    RunLength(states, steps, electorate);
    if k == 0 {
      NothingYet(states[0]);
      assert false;
    } else {
      var c, step := states[k - 1], steps[k - 1];
      assert Follows(c, step, states[k], electorate);
      if w in c.wins {
        j := WinnersHoldTheEpoch(states, steps, electorate, k - 1, w);
        ReachableInv(states, steps, electorate, k - 1);
        StaysRecorded(c, step, electorate, w);
      } else {
        WinRecords(c, step, electorate, w);
        j := AskersAsked(states, steps, electorate, k - 1, w.node);
      }
    }
  }

  /** So the claim of a winner takes every slot, wherever the owner's configEpoch is one that the winner knew
      when it asked. */
  lemma WinnersClaimBeats(states: seq<Cluster>, steps: seq<Step>, electorate: nat -> set<Node>, k: nat, w: Win)
    returns (j: nat)
    requires IsRun(states, steps, electorate) && k < |states| && w in states[k].wins
    ensures |states| == |steps| + 1 && j < k && AskedAt(states, steps, j, w.node, w.epoch) && Recorded(states[k], w)
    ensures forall v: View<Node>, slots: set<nat>, s: nat ::
              v.Valid() && v.epochs == states[j].nodes[w.node].epochs && s in slots ==>
                Beats(v, Claim(w.node, states[k].nodes[w.node].epochs[w.node], slots), s)
  {
    hide IsRun;
    j := WinnersHoldTheEpoch(states, steps, electorate, k, w);
  }

  // ---------------------------------------------------------------- a node's own configEpoch

  /** The steps that move the configEpoch of node `i`: it bumps, it wins, it is told about itself, or it hears
      its own configEpoch from a master with a greater name, being a master. */
  ghost predicate MovesEpochOf(c: Cluster, step: Step, i: Node)
    requires i < |c.nodes| && i in c.nodes[i].epochs
  {
    match step
    case Bump(n) => n == i
    case WinElection(n, _, _) => n == i && c.nodes[i].authEpoch > c.nodes[i].epochs[i]
    case Deliver(m, trust) =>
      && m.dst == i
      && (|| m.src == i
          || (m.payload.Update? && m.payload.about == i && m.payload.epoch > c.nodes[i].epochs[i])
          || (m.payload.Ping? && trust && c.nodes[i].isMaster && m.src > i && m.configEpoch == c.nodes[i].epochs[i]))
    case _ => false
  }

  /** The effect moves the configEpoch of its node only as MovesEpochOf says. */
  ghost predicate MovesAsSaid(c: Cluster, step: Step, e: Effect) {
    && e.n < |c.nodes| && e.n in c.nodes[e.n].epochs && e.n in e.local.epochs
    && (e.local.epochs[e.n] != c.nodes[e.n].epochs[e.n] ==> MovesEpochOf(c, step, e.n))
  }

  lemma PingMoves(c: Cluster, m: Msg, trust: bool)
    requires WellFormed(c) && m in c.net && m.payload.Ping?
    ensures MovesAsSaid(c, Deliver(m, trust), PingEffect(c, m, trust))
  {
    assert IsNode(c.nodes[m.dst], m.dst, |c.nodes|);
  }

  lemma RequestMoves(c: Cluster, m: Msg, trust: bool)
    requires WellFormed(c) && m in c.net
    ensures MovesAsSaid(c, Deliver(m, trust), RequestEffect(c, m, trust))
  {
    assert IsNode(c.nodes[m.dst], m.dst, |c.nodes|);
  }

  lemma AckMoves(c: Cluster, m: Msg, trust: bool)
    requires WellFormed(c) && m in c.net
    ensures MovesAsSaid(c, Deliver(m, trust), AckEffect(c, m, trust))
  {
    assert IsNode(c.nodes[m.dst], m.dst, |c.nodes|);
  }

  lemma PacketMoves(c: Cluster, m: Msg, trust: bool)
    requires WellFormed(c) && m in c.net
    ensures MovesAsSaid(c, Deliver(m, trust), PacketEffect(c, m, trust))
  {
    assert IsNode(c.nodes[m.dst], m.dst, |c.nodes|);
    hide PingEffect, RequestEffect, AckEffect;
    match m.payload
    case Ping => PingMoves(c, m, trust);
    case AuthRequest => RequestMoves(c, m, trust);
    case AuthAck => AckMoves(c, m, trust);
    case Update(_, _) =>
  }

  lemma BumpMoves(c: Cluster, step: Step, electorate: nat -> set<Node>)
    requires WellFormed(c) && Enabled(c, step, electorate) && (step.Bump? || step.WinElection?)
    ensures MovesAsSaid(c, step, EffectOf(c, step, electorate))
  {
    assert IsNode(c.nodes[step.n], step.n, |c.nodes|);
  }

  lemma OthersMove(c: Cluster, step: Step, electorate: nat -> set<Node>)
    requires WellFormed(c) && Enabled(c, step, electorate) && !(step.Bump? || step.WinElection? || step.Deliver?)
    ensures MovesAsSaid(c, step, EffectOf(c, step, electorate))
  {
    assert IsNode(c.nodes[EffectOf(c, step, electorate).n], EffectOf(c, step, electorate).n, |c.nodes|);
  }

  /** Nothing else moves a node's own configEpoch. */
  lemma OwnEpochMoves(c: Cluster, step: Step, electorate: nat -> set<Node>, i: Node)
    requires WellFormed(c) && Enabled(c, step, electorate) && i < |c.nodes|
    ensures var d := Take(c, step, electorate);
            && |d.nodes| == |c.nodes| && i in c.nodes[i].epochs && i in d.nodes[i].epochs
            && (d.nodes[i].epochs[i] != c.nodes[i].epochs[i] ==> MovesEpochOf(c, step, i))
  {
    assert IsNode(c.nodes[i], i, |c.nodes|);
    if step.Deliver? {
      PacketMoves(c, step.m, step.trust);
    } else if step.Bump? || step.WinElection? {
      BumpMoves(c, step, electorate);
    } else {
      OthersMove(c, step, electorate);
    }
    assert EffectOf(c, step, electorate).n < |c.nodes| == |c.counted| == |c.stale|;
    MovedOnly(c, step, electorate);
    hide MovesEpochOf, WellFormed, Enabled, EffectOf, Take, PacketEffect;
  }

  lemma MovedOnly(c: Cluster, step: Step, electorate: nat -> set<Node>)
    requires WellFormed(c) && Enabled(c, step, electorate)
    ensures var e := EffectOf(c, step, electorate);
            e.n < |c.nodes| && Take(c, step, electorate).nodes == c.nodes[e.n := e.local]
    ensures step.Deliver? ==> EffectOf(c, step, electorate) == PacketEffect(c, step.m, step.trust)
  {
  }
}
