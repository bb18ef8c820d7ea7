/** Elections and configuration epochs across a network: any number of nodes, a bag of messages in
    flight, every interleaving of deliveries, losses and local steps. Nodes are 0, 1, 2, ... in the
    order of their names. */
module ClusterElection {
  import opened Basics
  import opened ClusterEpochs

  type Node = nat
  type State = Local<Node>

  datatype Payload = Ping | AuthRequest | AuthAck | Update(about: Node, epoch: nat)

  datatype Msg = Msg(src: Node, dst: Node, currentEpoch: nat, configEpoch: nat, payload: Payload)

  /** History: who voted for whom in which epoch. */
  datatype Vote = Vote(voter: Node, epoch: nat, candidate: Node)

  /** History: an election that `node` considered won for `epoch` with `size` masters, the voters it
      counted, and how many acknowledgements it had counted before it asked for votes. */
  datatype Win = Win(node: Node, epoch: nat, size: nat, supporters: set<Node>, stale: nat)

  /** `counted[n]` and `stale[n]` split n's failover_auth_count: the voters counted since n's request
      went out, and the acknowledgements counted between scheduling the election and asking. */
  datatype Cluster = Cluster(nodes: seq<State>, net: multiset<Msg>, votes: set<Vote>, wins: set<Win>,
                             counted: seq<set<Node>>, stale: seq<nat>)

  datatype Step =
    | SendPing(src: Node, dst: Node)
    | SendUpdate(src: Node, dst: Node, about: Node)
    | Deliver(m: Msg, trust: bool)
    | Drop(m: Msg)
    | Schedule(n: Node)
    | StartElection(n: Node, dsts: set<Node>)
    | WinElection(n: Node, size: nat, slots: nat)
    | Bump(n: Node)
    | SetRole(n: Node, isMaster: bool, slaveof: Option<Node>, numslots: nat)

  // ---------------------------------------------------------------- the transition system

  ghost predicate WellFormed(c: Cluster) {
    && |c.counted| == |c.stale| == |c.nodes|
    && (forall i :: 0 <= i < |c.nodes| ==> IsNode(c.nodes[i], i, |c.nodes|))
    && (forall m :: m in c.net ==> Addressed(m, |c.nodes|))
  }

  ghost predicate IsNode(l: State, i: Node, n: nat) {
    l.me == i && l.Valid() && forall k: Node :: k in l.epochs <==> k < n
  }

  predicate Addressed(m: Msg, n: nat) {
    m.src < n && m.dst < n && (m.payload.Update? ==> m.payload.about < n)
  }

  function Header(l: State, dst: Node, payload: Payload): Msg
    requires l.Valid()
  {
    Msg(l.me, dst, l.currentEpoch, l.HeaderEpoch(), payload)
  }

  /** What any packet from a known sender does before its type is looked at. */
  function Seen(c: Cluster, m: Msg): State
    requires m.dst < |c.nodes| && c.nodes[m.dst].Valid() && m.src in c.nodes[m.dst].epochs
  {
    c.nodes[m.dst].SeeHeader(m.src, m.currentEpoch, m.configEpoch)
  }

  /** Whether a step can be taken. `electorate` says which masters may vote in which epoch. */
  ghost predicate Enabled(c: Cluster, step: Step, electorate: nat -> set<Node>)
    requires WellFormed(c)
  {
    var n := |c.nodes|;
    match step
    case SendPing(src, dst) => src < n && dst < n
    case SendUpdate(src, dst, about) => src < n && dst < n && about < n
    case Deliver(m, trust) =>
      && m in c.net
      && (m.payload.AuthRequest? && Seen(c, m).Grants(m.currentEpoch, trust) ==> m.dst in electorate(m.currentEpoch))
    case Drop(m) => m in c.net
    case Schedule(i) => i < n && !c.nodes[i].isMaster
    case StartElection(i, dsts) =>
      i < n && !c.nodes[i].isMaster && !c.nodes[i].authSent && forall d :: d in dsts ==> d < n
    case WinElection(i, size, _) =>
      && i < n && !c.nodes[i].isMaster && c.nodes[i].authSent && c.nodes[i].HasQuorum(size)
      && size == |electorate(c.nodes[i].authEpoch)|
    case Bump(i) => i < n
    case SetRole(i, _, slaveof, _) => i < n && (slaveof.Some? ==> slaveof.value < n)
  }

  /** What one step does: the new state of node `n`, the messages taken from and put on the network,
      and the additions to the history. */
  datatype Effect = Effect(n: Node, local: State, removed: multiset<Msg>, sent: multiset<Msg>,
                           votes: set<Vote>, wins: set<Win>, counted: set<Node>, stale: nat)

  function Quiet(c: Cluster, n: Node, l: State, removed: multiset<Msg>, sent: multiset<Msg>): Effect
    requires n < |c.nodes| == |c.counted| == |c.stale|
  {
    Effect(n, l, removed, sent, {}, {}, c.counted[n], c.stale[n])
  }

  function PingEffect(c: Cluster, m: Msg, senderIsMaster: bool): Effect
    requires m.dst < |c.nodes| == |c.counted| == |c.stale|
    requires c.nodes[m.dst].Valid() && m.src in c.nodes[m.dst].epochs
  {
    var l := c.nodes[m.dst].SeePing(m.src, m.currentEpoch, m.configEpoch, senderIsMaster, m.src > m.dst);
    Quiet(c, m.dst, l, multiset{m}, multiset{})
  }

  function RequestEffect(c: Cluster, m: Msg, agree: bool): Effect
    requires m.dst < |c.nodes| == |c.counted| == |c.stale|
    requires c.nodes[m.dst].Valid() && m.src in c.nodes[m.dst].epochs
  {
    var l := Seen(c, m);
    if l.Grants(m.currentEpoch, agree) then
      Quiet(c, m.dst, l.CastVote(), multiset{m}, multiset{Header(l, m.src, AuthAck)}).
        (votes := {Vote(m.dst, l.currentEpoch, m.src)})
    else
      Quiet(c, m.dst, l, multiset{m}, multiset{})
  }

  function AckEffect(c: Cluster, m: Msg, eligible: bool): Effect
    requires m.dst < |c.nodes| == |c.counted| == |c.stale|
    requires c.nodes[m.dst].Valid() && m.src in c.nodes[m.dst].epochs
  {
    var l := Seen(c, m);
    var e := Quiet(c, m.dst, l.CountAck(m.currentEpoch, eligible), multiset{m}, multiset{});
    if !eligible || m.currentEpoch < l.authEpoch then e
    else if l.authSent then e.(counted := c.counted[m.dst] + {m.src})
    else e.(stale := c.stale[m.dst] + 1)
  }

  ghost function StartEffect(c: Cluster, n: Node, dsts: set<Node>): Effect
    requires n < |c.nodes| == |c.counted| == |c.stale| && c.nodes[n].Valid()
  {
    var l := c.nodes[n].StartElection();
    Quiet(c, n, l, multiset{}, multiset(set d | d in dsts :: Header(l, d, AuthRequest)))
  }

  /** Processing one packet. `trust` is what the receiver's view of the sender decides: whether it is
      a master (PING), whether it deserves the vote (request), whether its vote counts (ACK). */
  function PacketEffect(c: Cluster, m: Msg, trust: bool): Effect
    requires m.dst < |c.nodes| == |c.counted| == |c.stale|
    requires c.nodes[m.dst].Valid() && m.src in c.nodes[m.dst].epochs
    requires m.payload.Update? ==> m.payload.about in c.nodes[m.dst].epochs
  {
    match m.payload
    case Ping => PingEffect(c, m, trust)
    case AuthRequest => RequestEffect(c, m, trust)
    case AuthAck => AckEffect(c, m, trust)
    case Update(about, epoch) =>
      Quiet(c, m.dst, Seen(c, m).SeeUpdate(about, epoch), multiset{m}, multiset{})
  }

  ghost function EffectOf(c: Cluster, step: Step, electorate: nat -> set<Node>): Effect
    requires WellFormed(c) && Enabled(c, step, electorate)
  {
    match step
    case SendPing(src, dst) =>
      Quiet(c, src, c.nodes[src], multiset{}, multiset{Header(c.nodes[src], dst, Ping)})
    case SendUpdate(src, dst, about) =>
      var report := Update(about, c.nodes[src].epochs[about]);
      Quiet(c, src, c.nodes[src], multiset{}, multiset{Header(c.nodes[src], dst, report)})
    case Deliver(m, trust) => PacketEffect(c, m, trust)
    case Drop(m) => Quiet(c, m.dst, c.nodes[m.dst], multiset{m}, multiset{})
    case Schedule(n) =>
      Effect(n, c.nodes[n].Schedule(), multiset{}, multiset{}, {}, {}, {}, 0)
    case StartElection(n, dsts) => StartEffect(c, n, dsts)
    case WinElection(n, size, slots) =>
      Quiet(c, n, c.nodes[n].Promote(slots), multiset{}, multiset{}).
        (wins := {Win(n, c.nodes[n].authEpoch, size, c.counted[n], c.stale[n])})
    case Bump(n) => Quiet(c, n, c.nodes[n].Bump(), multiset{}, multiset{})
    case SetRole(n, isMaster, slaveof, numslots) =>
      var l := c.nodes[n].(isMaster := isMaster, slaveof := slaveof, numslots := numslots);
      Quiet(c, n, l, multiset{}, multiset{})
  }

  function Apply(c: Cluster, e: Effect): Cluster
    requires e.n < |c.nodes| == |c.counted| == |c.stale|
  {
    Cluster(c.nodes[e.n := e.local], c.net - e.removed + e.sent, c.votes + e.votes, c.wins + e.wins,
            c.counted[e.n := e.counted], c.stale[e.n := e.stale])
  }

  ghost function Take(c: Cluster, step: Step, electorate: nat -> set<Node>): Cluster
    requires WellFormed(c) && Enabled(c, step, electorate)
  {
    Apply(c, EffectOf(c, step, electorate))
  }

  ghost predicate Initial(c: Cluster) {
    && WellFormed(c)
    && c.net == multiset{} && c.votes == {} && c.wins == {}
    && forall i :: 0 <= i < |c.nodes| ==>
         && c.nodes[i].Bounded()
         && c.nodes[i].authCount == 0 && !c.nodes[i].authSent
         && c.counted[i] == {} && c.stale[i] == 0
  }

  // ---------------------------------------------------------------- shape

  /** The effect changes one existing node, keeps its identity, and sends well-addressed messages. */
  ghost predicate Fits(c: Cluster, e: Effect) {
    && e.n < |c.nodes| == |c.counted| == |c.stale|
    && IsNode(e.local, e.n, |c.nodes|)
    && forall m :: m in e.sent ==> m.src == e.n && Addressed(m, |c.nodes|)
  }

  // ---------------------------------------------------------------- epochs

  /** Nothing recorded or in flight exceeds the current epoch of its holder or sender. */
  ghost predicate EpochsBounded(c: Cluster)
    requires WellFormed(c)
  {
    && (forall i :: 0 <= i < |c.nodes| ==> c.nodes[i].Bounded())
    && forall m :: m in c.net ==> MsgBounded(m) && m.currentEpoch <= c.nodes[m.src].currentEpoch
  }

  predicate MsgBounded(m: Msg) {
    m.configEpoch <= m.currentEpoch && (m.payload.Update? ==> m.payload.epoch <= m.currentEpoch)
  }

  ghost predicate Rises(c: Cluster, e: Effect)
    requires e.n < |c.nodes|
  {
    && e.local.Bounded()
    && c.nodes[e.n].currentEpoch <= e.local.currentEpoch
    && c.nodes[e.n].lastVoteEpoch <= e.local.lastVoteEpoch
    && c.nodes[e.n].authEpoch <= e.local.authEpoch
    && (forall k :: k in c.nodes[e.n].epochs && k in e.local.epochs ==> c.nodes[e.n].epochs[k] <= e.local.epochs[k])
    && forall m :: m in e.sent ==> MsgBounded(m) && m.currentEpoch <= e.local.currentEpoch
  }

  lemma SeenSound(c: Cluster, m: Msg)
    requires WellFormed(c) && EpochsBounded(c) && m in c.net
    ensures IsNode(Seen(c, m), m.dst, |c.nodes|) && Seen(c, m).Bounded()
    ensures m.currentEpoch <= Seen(c, m).currentEpoch
    ensures c.nodes[m.dst].currentEpoch <= Seen(c, m).currentEpoch
    ensures forall k :: k in c.nodes[m.dst].epochs ==> c.nodes[m.dst].epochs[k] <= Seen(c, m).epochs[k]
  {
  }

  lemma PingSound(c: Cluster, m: Msg, trust: bool)
    requires WellFormed(c) && EpochsBounded(c) && m in c.net
    ensures Fits(c, PingEffect(c, m, trust)) && Rises(c, PingEffect(c, m, trust))
  {
  }

  lemma RequestSound(c: Cluster, m: Msg, trust: bool)
    requires WellFormed(c) && EpochsBounded(c) && m in c.net
    ensures Fits(c, RequestEffect(c, m, trust)) && Rises(c, RequestEffect(c, m, trust))
  {
  }

  lemma AckSound(c: Cluster, m: Msg, trust: bool)
    requires WellFormed(c) && EpochsBounded(c) && m in c.net
    ensures Fits(c, AckEffect(c, m, trust)) && Rises(c, AckEffect(c, m, trust))
  {
  }

  lemma PacketSound(c: Cluster, m: Msg, trust: bool)
    requires WellFormed(c) && EpochsBounded(c) && m in c.net
    ensures Fits(c, PacketEffect(c, m, trust)) && Rises(c, PacketEffect(c, m, trust))
  {
    match m.payload
    case Ping => PingSound(c, m, trust);
    case AuthRequest => RequestSound(c, m, trust);
    case AuthAck => AckSound(c, m, trust);
    case Update(_, _) => SeenSound(c, m);
  }

  lemma StartSound(c: Cluster, n: Node, dsts: set<Node>)
    requires WellFormed(c) && EpochsBounded(c) && n < |c.nodes| && forall d :: d in dsts ==> d < |c.nodes|
    ensures Fits(c, StartEffect(c, n, dsts)) && Rises(c, StartEffect(c, n, dsts))
  {
  }

  lemma SendSound(c: Cluster, src: Node, dst: Node, payload: Payload)
    requires WellFormed(c) && EpochsBounded(c) && src < |c.nodes| && dst < |c.nodes|
    requires payload.Ping? || payload.AuthRequest? ||
             (payload.Update? && payload.about < |c.nodes| && payload.epoch == c.nodes[src].epochs[payload.about])
    ensures var e := Quiet(c, src, c.nodes[src], multiset{}, multiset{Header(c.nodes[src], dst, payload)});
            Fits(c, e) && Rises(c, e)
  {
  }

  lemma PromoteSound(c: Cluster, n: Node, slots: nat)
    requires WellFormed(c) && EpochsBounded(c) && n < |c.nodes|
    ensures var e := Quiet(c, n, c.nodes[n].Promote(slots), multiset{}, multiset{}); Fits(c, e) && Rises(c, e)
  {
    assert IsNode(c.nodes[n], n, |c.nodes|) && c.nodes[n].Bounded();
    hide WellFormed, EpochsBounded;
  }

  lemma BumpSound(c: Cluster, n: Node)
    requires WellFormed(c) && EpochsBounded(c) && n < |c.nodes|
    ensures var e := Quiet(c, n, c.nodes[n].Bump(), multiset{}, multiset{}); Fits(c, e) && Rises(c, e)
  {
    assert IsNode(c.nodes[n], n, |c.nodes|) && c.nodes[n].Bounded();
    hide WellFormed, EpochsBounded;
  }

  lemma ChangeSound(c: Cluster, step: Step, electorate: nat -> set<Node>)
    requires WellFormed(c) && EpochsBounded(c) && Enabled(c, step, electorate) && (step.SetRole? || step.Schedule?)
    ensures Fits(c, EffectOf(c, step, electorate)) && Rises(c, EffectOf(c, step, electorate))
  {
    assert IsNode(c.nodes[step.n], step.n, |c.nodes|) && c.nodes[step.n].Bounded();
    hide WellFormed, EpochsBounded;
  }

  lemma EffectSound(c: Cluster, step: Step, electorate: nat -> set<Node>)
    requires WellFormed(c) && Enabled(c, step, electorate) && EpochsBounded(c)
    ensures Fits(c, EffectOf(c, step, electorate)) && Rises(c, EffectOf(c, step, electorate))
  {
    match step
    case SendPing(src, dst) => SendSound(c, src, dst, Ping);
    case SendUpdate(src, dst, about) => SendSound(c, src, dst, Update(about, c.nodes[src].epochs[about]));
    case Deliver(m, trust) => PacketSound(c, m, trust);
    case Drop(m) =>
    case StartElection(n, dsts) => StartSound(c, n, dsts);
    case WinElection(n, _, slots) => PromoteSound(c, n, slots);
    case Bump(n) => BumpSound(c, n);
    case _ => ChangeSound(c, step, electorate);
  }

  lemma RisesKeepsEpochs(c: Cluster, e: Effect)
    requires WellFormed(c) && Fits(c, e) && EpochsBounded(c) && Rises(c, e)
    ensures WellFormed(Apply(c, e)) && EpochsBounded(Apply(c, e))
  {
  }

  // ---------------------------------------------------------------- steps without a part in elections

  /** The effect leaves the election fields alone, casts no vote, and asks for and grants none. */
  ghost predicate LeavesElection(c: Cluster, e: Effect)
    requires e.n < |c.nodes| == |c.counted| == |c.stale|
  {
    && e.votes == {}
    && e.counted == c.counted[e.n] && e.stale == c.stale[e.n]
    && e.local.authCount == c.nodes[e.n].authCount && e.local.authSent == c.nodes[e.n].authSent
    && e.local.authEpoch == c.nodes[e.n].authEpoch
    && forall m :: m in e.sent ==> !m.payload.AuthRequest? && !m.payload.AuthAck?
  }

  predicate TakesPartInElection(step: Step) {
    || step.Schedule? || step.StartElection?
    || (step.Deliver? && (step.m.payload.AuthRequest? || step.m.payload.AuthAck?))
  }

  lemma PingLeaves(c: Cluster, m: Msg, trust: bool)
    requires WellFormed(c) && m in c.net
    ensures LeavesElection(c, PingEffect(c, m, trust))
  {
  }

  lemma UpdateLeaves(c: Cluster, m: Msg, trust: bool)
    requires WellFormed(c) && m in c.net && m.payload.Update?
    ensures LeavesElection(c, PacketEffect(c, m, trust))
  {
  }

  lemma SendLeaves(c: Cluster, src: Node, dst: Node, payload: Payload)
    requires WellFormed(c) && src < |c.nodes| && (payload.Ping? || payload.Update?)
    ensures LeavesElection(c, Quiet(c, src, c.nodes[src], multiset{}, multiset{Header(c.nodes[src], dst, payload)}))
  {
  }

  lemma BumpLeaves(c: Cluster, n: Node)
    requires WellFormed(c) && n < |c.nodes|
    ensures LeavesElection(c, Quiet(c, n, c.nodes[n].Bump(), multiset{}, multiset{}))
  {
  }

  lemma OthersLeave(c: Cluster, step: Step, electorate: nat -> set<Node>)
    requires WellFormed(c) && Enabled(c, step, electorate) && (step.Drop? || step.WinElection? || step.SetRole?)
    ensures LeavesElection(c, EffectOf(c, step, electorate))
  {
  }

  lemma StepLeaves(c: Cluster, step: Step, electorate: nat -> set<Node>)
    requires WellFormed(c) && Enabled(c, step, electorate) && !TakesPartInElection(step)
    ensures LeavesElection(c, EffectOf(c, step, electorate))
  {
    hide LeavesElection, PingEffect, Quiet;
    match step
    case SendPing(src, dst) => SendLeaves(c, src, dst, Ping);
    case SendUpdate(src, dst, about) => SendLeaves(c, src, dst, Update(about, c.nodes[src].epochs[about]));
    case Deliver(m, trust) =>
      if m.payload.Ping? {
        PingLeaves(c, m, trust);
      } else {
        UpdateLeaves(c, m, trust);
      }
    case Bump(n) => BumpLeaves(c, n);
    case _ => OthersLeave(c, step, electorate);
  }

  // ---------------------------------------------------------------- votes

  ghost predicate VotesOnce(c: Cluster, electorate: nat -> set<Node>)
    requires WellFormed(c)
  {
    && (forall v :: v in c.votes ==>
          && v.voter < |c.nodes| && v.candidate < |c.nodes|
          && v.epoch <= c.nodes[v.voter].lastVoteEpoch
          && v.epoch <= c.nodes[v.candidate].authEpoch
          && v.voter in electorate(v.epoch))
    && forall v, w :: v in c.votes && w in c.votes && SameBallot(v, w) ==> v == w
  }

  predicate SameBallot(v: Vote, w: Vote) {
    v.voter == w.voter && v.epoch == w.epoch
  }

  ghost predicate RequestsAsked(c: Cluster)
    requires WellFormed(c)
  {
    forall m :: m in c.net && m.payload.AuthRequest? ==> m.currentEpoch <= c.nodes[m.src].authEpoch
  }

  /** Any vote the effect casts is its node's first for that epoch, and any request it sends asks
      about an election of that node. */
  ghost predicate VotesFresh(c: Cluster, e: Effect, electorate: nat -> set<Node>)
    requires e.n < |c.nodes|
  {
    && (forall v :: v in e.votes ==>
          && e.votes == {v}
          && v.voter == e.n && v.candidate < |c.nodes|
          && c.nodes[e.n].lastVoteEpoch < v.epoch <= e.local.lastVoteEpoch
          && v.epoch <= c.nodes[v.candidate].authEpoch
          && v.voter in electorate(v.epoch))
    && forall m :: m in e.sent && m.payload.AuthRequest? ==> m.currentEpoch <= e.local.authEpoch
  }

  lemma RequestVotesFresh(c: Cluster, m: Msg, trust: bool, electorate: nat -> set<Node>)
    requires WellFormed(c) && EpochsBounded(c) && RequestsAsked(c) && m in c.net && m.payload.AuthRequest?
    requires Enabled(c, Deliver(m, trust), electorate)
    ensures VotesFresh(c, RequestEffect(c, m, trust), electorate)
  {
    SeenSound(c, m);
    hide EpochsBounded;
  }

  lemma StartVotesFresh(c: Cluster, n: Node, dsts: set<Node>, electorate: nat -> set<Node>)
    requires WellFormed(c) && n < |c.nodes|
    ensures VotesFresh(c, StartEffect(c, n, dsts), electorate)
  {
  }

  lemma AckVotesFresh(c: Cluster, m: Msg, trust: bool, electorate: nat -> set<Node>)
    requires WellFormed(c) && m in c.net && m.payload.AuthAck?
    ensures VotesFresh(c, AckEffect(c, m, trust), electorate)
  {
  }

  lemma EffectVotesFresh(c: Cluster, step: Step, electorate: nat -> set<Node>)
    requires WellFormed(c) && Enabled(c, step, electorate) && EpochsBounded(c) && RequestsAsked(c)
    ensures VotesFresh(c, EffectOf(c, step, electorate), electorate)
  {
    hide EpochsBounded, RequestsAsked, RequestEffect, AckEffect, StartEffect;
    if !TakesPartInElection(step) {
      StepLeaves(c, step, electorate);
    } else {
      hide VotesFresh;
      match step
      case Deliver(m, trust) =>
        if m.payload.AuthRequest? {
          RequestVotesFresh(c, m, trust, electorate);
        } else {
          AckVotesFresh(c, m, trust, electorate);
        }
      case StartElection(n, dsts) => StartVotesFresh(c, n, dsts, electorate);
      case Schedule(n) => ScheduleCounts(c, n, electorate);
    }
  }

  lemma FreshKeepsRequests(c: Cluster, e: Effect, electorate: nat -> set<Node>)
    requires WellFormed(c) && Fits(c, e) && Rises(c, e) && RequestsAsked(c) && VotesFresh(c, e, electorate)
    requires WellFormed(Apply(c, e))
    ensures RequestsAsked(Apply(c, e))
  {
  }

  lemma FreshKeepsVotes(c: Cluster, e: Effect, electorate: nat -> set<Node>)
    requires WellFormed(c) && Fits(c, e) && Rises(c, e) && VotesOnce(c, electorate) && VotesFresh(c, e, electorate)
    requires WellFormed(Apply(c, e))
    ensures VotesOnce(Apply(c, e), electorate)
  {
    var d := Apply(c, e);
    forall v, w | v in d.votes && w in d.votes && SameBallot(v, w) ensures v == w {
      assert v in c.votes || v in e.votes;
      assert w in c.votes || w in e.votes;
    }
  }

  // ---------------------------------------------------------------- acknowledgements and counting

  /** An acknowledgement in flight stands for a vote, once, and has not been counted yet. */
  ghost predicate AcksStandForVotes(c: Cluster)
    requires WellFormed(c)
  {
    && (forall m :: m in c.net && m.payload.AuthAck? ==>
          && c.net[m] == 1
          && Vote(m.src, m.currentEpoch, m.dst) in c.votes
          && !(m.src in c.counted[m.dst] && m.currentEpoch == c.nodes[m.dst].authEpoch))
    && forall m, k :: m in c.net && k in c.net && m.payload.AuthAck? && k.payload.AuthAck? && SameVote(m, k) ==> m == k
  }

  predicate SameVote(m: Msg, k: Msg) {
    m.src == k.src && m.dst == k.dst && m.currentEpoch == k.currentEpoch
  }

  /** The counter is the number of distinct voters counted for the current election plus the stale ones. */
  ghost predicate CountsVoters(c: Cluster)
    requires WellFormed(c)
  {
    forall i :: 0 <= i < |c.nodes| ==> Tally(c.nodes[i], i, c.counted[i], c.stale[i], c.votes)
  }

  ghost predicate Tally(l: State, n: Node, counted: set<Node>, stale: nat, votes: set<Vote>) {
    && l.authCount == |counted| + stale
    && (!l.authSent ==> counted == {})
    && forall v :: v in counted ==> Vote(v, l.authEpoch, n) in votes
  }

  /** An acknowledgement the effect sends is for the vote it casts; the voters it counts are those
      counted before, none, or those before and the sender of the acknowledgement it takes in. */
  ghost predicate AcksFresh(c: Cluster, e: Effect)
    requires e.n < |c.nodes| == |c.counted|
  {
    && (forall m :: m in e.sent && m.payload.AuthAck? ==>
          && e.sent == multiset{m} && Vote(m.src, m.currentEpoch, m.dst) in e.votes
          && e.counted == c.counted[e.n] && e.local.authEpoch == c.nodes[e.n].authEpoch)
    && (e.counted == {} || (c.nodes[e.n].authEpoch == e.local.authEpoch && NewlyCounted(c, e)))
  }

  ghost predicate NewlyCounted(c: Cluster, e: Effect)
    requires e.n < |c.nodes| == |c.counted|
  {
    forall v :: v in e.counted && v !in c.counted[e.n] ==>
      exists m :: && m in c.net && e.removed == multiset{m} && m.payload.AuthAck?
                  && m.src == v && m.dst == e.n && m.currentEpoch == e.local.authEpoch
  }

  lemma AckTallies(c: Cluster, m: Msg, trust: bool)
    requires WellFormed(c) && m in c.net && m.currentEpoch <= c.nodes[m.dst].authEpoch
    requires Vote(m.src, m.currentEpoch, m.dst) in c.votes
    requires !(m.src in c.counted[m.dst] && m.currentEpoch == c.nodes[m.dst].authEpoch)
    requires Tally(c.nodes[m.dst], m.dst, c.counted[m.dst], c.stale[m.dst], c.votes)
    ensures var e := AckEffect(c, m, trust); Tally(e.local, e.n, e.counted, e.stale, c.votes)
  {
  }

  lemma AckIsFresh(c: Cluster, m: Msg, trust: bool)
    requires WellFormed(c) && m in c.net && m.payload.AuthAck? && m.currentEpoch <= c.nodes[m.dst].authEpoch
    ensures AcksFresh(c, AckEffect(c, m, trust))
  {
  }

  lemma AckCounts(c: Cluster, m: Msg, trust: bool, electorate: nat -> set<Node>)
    requires WellFormed(c) && VotesOnce(c, electorate) && AcksStandForVotes(c) && CountsVoters(c)
    requires m in c.net && m.payload.AuthAck?
    ensures var e := AckEffect(c, m, trust);
            AcksFresh(c, e) && Tally(e.local, e.n, e.counted, e.stale, c.votes)
  {
    hide AckEffect, AcksFresh, Tally;
    assert Vote(m.src, m.currentEpoch, m.dst) in c.votes;
    assert Tally(c.nodes[m.dst], m.dst, c.counted[m.dst], c.stale[m.dst], c.votes);
    AckTallies(c, m, trust);
    AckIsFresh(c, m, trust);
  }

  lemma RequestCounts(c: Cluster, m: Msg, trust: bool)
    requires WellFormed(c) && CountsVoters(c) && m in c.net && m.payload.AuthRequest?
    ensures var e := RequestEffect(c, m, trust);
            AcksFresh(c, e) && Tally(e.local, e.n, e.counted, e.stale, c.votes)
  {
  }

  lemma StartCounts(c: Cluster, n: Node, dsts: set<Node>)
    requires WellFormed(c) && CountsVoters(c) && n < |c.nodes| && !c.nodes[n].authSent
    ensures var e := StartEffect(c, n, dsts);
            AcksFresh(c, e) && Tally(e.local, e.n, e.counted, e.stale, c.votes)
  {
  }

  lemma ScheduleCounts(c: Cluster, n: Node, electorate: nat -> set<Node>)
    requires WellFormed(c) && Enabled(c, Schedule(n), electorate)
    ensures var e := EffectOf(c, Schedule(n), electorate);
            VotesFresh(c, e, electorate) && AcksFresh(c, e) && Tally(e.local, e.n, e.counted, e.stale, c.votes)
  {
  }

  lemma LeavingCounts(c: Cluster, e: Effect)
    requires WellFormed(c) && CountsVoters(c) && e.n < |c.nodes| && LeavesElection(c, e)
    ensures AcksFresh(c, e) && Tally(e.local, e.n, e.counted, e.stale, c.votes)
  {
  }

  lemma EffectCounts(c: Cluster, step: Step, electorate: nat -> set<Node>)
    requires WellFormed(c) && Enabled(c, step, electorate)
    requires VotesOnce(c, electorate) && AcksStandForVotes(c) && CountsVoters(c)
    ensures var e := EffectOf(c, step, electorate);
            AcksFresh(c, e) && Tally(e.local, e.n, e.counted, e.stale, c.votes)
  {
    hide VotesOnce, AcksStandForVotes, CountsVoters, AcksFresh, Tally, LeavesElection;
    hide RequestEffect, AckEffect, StartEffect;
    if !TakesPartInElection(step) {
      StepLeaves(c, step, electorate);
      LeavingCounts(c, EffectOf(c, step, electorate));
    } else {
      match step
      case Deliver(m, trust) =>
        if m.payload.AuthAck? {
          AckCounts(c, m, trust, electorate);
        } else {
          RequestCounts(c, m, trust);
        }
      case StartElection(n, dsts) => StartCounts(c, n, dsts);
      case Schedule(n) => ScheduleCounts(c, n, electorate);
    }
  }

  /** The ballot of an acknowledgement being sent is new: it is neither in flight nor counted. */
  lemma SentAckIsNew(c: Cluster, e: Effect, electorate: nat -> set<Node>, m: Msg)
    requires WellFormed(c) && Fits(c, e) && VotesOnce(c, electorate) && VotesFresh(c, e, electorate)
    requires AcksStandForVotes(c) && CountsVoters(c) && AcksFresh(c, e) && m in e.sent && m.payload.AuthAck?
    ensures Vote(m.src, m.currentEpoch, m.dst) !in c.votes
    ensures forall k :: k in c.net && k.payload.AuthAck? ==> !SameVote(m, k)
    ensures !(m.src in c.counted[m.dst] && m.currentEpoch == c.nodes[m.dst].authEpoch)
  {
  }

  /** An acknowledgement that stays in flight is not the one just counted. */
  lemma WaitingAckIsUncounted(c: Cluster, e: Effect, m: Msg)
    requires WellFormed(c) && Fits(c, e) && AcksStandForVotes(c) && AcksFresh(c, e)
    requires m in c.net && c.net[m] > e.removed[m] && m.payload.AuthAck? && m.dst == e.n
    ensures !(m.src in e.counted && m.currentEpoch == e.local.authEpoch)
  {
  }

  lemma FreshKeepsAcks(c: Cluster, e: Effect, electorate: nat -> set<Node>)
    requires WellFormed(c) && Fits(c, e) && WellFormed(Apply(c, e))
    requires VotesOnce(c, electorate) && VotesFresh(c, e, electorate)
    requires AcksStandForVotes(c) && CountsVoters(c) && AcksFresh(c, e)
    requires e.local.authEpoch >= c.nodes[e.n].authEpoch
    ensures AcksStandForVotes(Apply(c, e))
  {
    var d := Apply(c, e);
    forall m | m in d.net && m.payload.AuthAck?
      ensures d.net[m] == 1
      ensures Vote(m.src, m.currentEpoch, m.dst) in d.votes
      ensures !(m.src in d.counted[m.dst] && m.currentEpoch == d.nodes[m.dst].authEpoch)
    {
      if m in e.sent {
        SentAckIsNew(c, e, electorate, m);
      } else if m.dst == e.n {
        WaitingAckIsUncounted(c, e, m);
      }
    }
    forall m, k | m in d.net && k in d.net && m.payload.AuthAck? && k.payload.AuthAck? && SameVote(m, k)
      ensures m == k
    {
      if m in e.sent {
        SentAckIsNew(c, e, electorate, m);
      } else if k in e.sent {
        SentAckIsNew(c, e, electorate, k);
      }
    }
  }

  lemma TallyKeepsCounts(c: Cluster, e: Effect)
    requires WellFormed(c) && Fits(c, e) && WellFormed(Apply(c, e))
    requires CountsVoters(c) && Tally(e.local, e.n, e.counted, e.stale, c.votes)
    ensures CountsVoters(Apply(c, e))
  {
  }

  // ---------------------------------------------------------------- runs

  ghost predicate WinsHaveQuorum(c: Cluster, electorate: nat -> set<Node>) {
    forall w :: w in c.wins ==> Quorate(w, c.votes, electorate)
  }

  ghost predicate Quorate(w: Win, votes: set<Vote>, electorate: nat -> set<Node>) {
    && w.size == |electorate(w.epoch)|
    && |w.supporters| + w.stale >= w.size / 2 + 1
    && forall v :: v in w.supporters ==> Vote(v, w.epoch, w.node) in votes
  }

  ghost predicate Inv(c: Cluster, electorate: nat -> set<Node>) {
    && WellFormed(c) && EpochsBounded(c) && VotesOnce(c, electorate) && RequestsAsked(c)
    && AcksStandForVotes(c) && CountsVoters(c) && WinsHaveQuorum(c, electorate)
  }

  lemma NewWin(c: Cluster, step: Step, electorate: nat -> set<Node>)
    requires WellFormed(c) && Enabled(c, step, electorate) && step.WinElection? && CountsVoters(c)
    ensures forall w :: w in EffectOf(c, step, electorate).wins ==> Quorate(w, c.votes, electorate)
  {
    assert Tally(c.nodes[step.n], step.n, c.counted[step.n], c.stale[step.n], c.votes);
    hide CountsVoters;
  }

  lemma NoOtherWin(c: Cluster, step: Step, electorate: nat -> set<Node>)
    requires WellFormed(c) && Enabled(c, step, electorate) && !step.WinElection?
    ensures EffectOf(c, step, electorate).wins == {}
  {
  }

  lemma WinsKept(c: Cluster, step: Step, electorate: nat -> set<Node>)
    requires WellFormed(c) && Enabled(c, step, electorate) && CountsVoters(c) && WinsHaveQuorum(c, electorate)
    ensures WinsHaveQuorum(Take(c, step, electorate), electorate)
  {
    if step.WinElection? {
      NewWin(c, step, electorate);
    } else {
      NoOtherWin(c, step, electorate);
    }
    hide WellFormed, Enabled, EffectOf, CountsVoters;
  }

  /** Every step of every node, and every delivery and loss, keeps the invariant. */
  lemma StepKeepsInv(c: Cluster, step: Step, electorate: nat -> set<Node>)
    requires Inv(c, electorate) && Enabled(c, step, electorate)
    ensures Inv(Take(c, step, electorate), electorate)
  {
    var e := EffectOf(c, step, electorate);
    EffectSound(c, step, electorate);
    RisesKeepsEpochs(c, e);
    EffectVotesFresh(c, step, electorate);
    FreshKeepsRequests(c, e, electorate);
    FreshKeepsVotes(c, e, electorate);
    EffectCounts(c, step, electorate);
    FreshKeepsAcks(c, e, electorate);
    TallyKeepsCounts(c, e);
    WinsKept(c, step, electorate);
  }

  /** `d` is the state after `step` was taken in `c`. */
  ghost predicate Follows(c: Cluster, step: Step, d: Cluster, electorate: nat -> set<Node>) {
    WellFormed(c) && Enabled(c, step, electorate) && d == Take(c, step, electorate)
  }

  /** Each of `states` follows from the one before by one of `steps`. */
  ghost predicate IsPath(states: seq<Cluster>, steps: seq<Step>, electorate: nat -> set<Node>) {
    && |states| == |steps| + 1
    && forall i {:trigger steps[i]} :: 0 <= i < |steps| ==> Follows(states[i], steps[i], states[i + 1], electorate)
  }

  /** `states` are the states of a run that takes `steps`. */
  ghost predicate IsRun(states: seq<Cluster>, steps: seq<Step>, electorate: nat -> set<Node>) {
    IsPath(states, steps, electorate) && Initial(states[0])
  }

  lemma RunLength(states: seq<Cluster>, steps: seq<Step>, electorate: nat -> set<Node>)
    requires IsRun(states, steps, electorate)
    ensures |states| == |steps| + 1
  {
  }

  lemma InitialInv(c: Cluster, electorate: nat -> set<Node>)
    requires Initial(c)
    ensures Inv(c, electorate)
  {
  }

  /** Every state of every run satisfies the invariant. */
  lemma {:induction false} ReachableInv(states: seq<Cluster>, steps: seq<Step>, electorate: nat -> set<Node>, k: nat)
    requires IsRun(states, steps, electorate) && k < |states|
    ensures Inv(states[k], electorate)
    decreases k
  {
    hide Inv, Initial, Take, Enabled;
    if k == 0 {
      InitialInv(states[0], electorate);
    } else {
      ReachableInv(states, steps, electorate, k - 1);
      assert Follows(states[k - 1], steps[k - 1], states[k], electorate);
      StepKeepsInv(states[k - 1], steps[k - 1], electorate);
    }
  }

  // ---------------------------------------------------------------- what every run guarantees

  ghost predicate NotLower(before: State, after: State) {
    && before.currentEpoch <= after.currentEpoch
    && before.lastVoteEpoch <= after.lastVoteEpoch
    && forall n :: n in before.epochs ==> n in after.epochs && before.epochs[n] <= after.epochs[n]
  }

  lemma StepNotLower(c: Cluster, step: Step, electorate: nat -> set<Node>, i: Node)
    requires Inv(c, electorate) && Enabled(c, step, electorate) && i < |c.nodes|
    ensures var d := Take(c, step, electorate); |d.nodes| == |c.nodes| && NotLower(c.nodes[i], d.nodes[i])
  {
    EffectSound(c, step, electorate);
    assert IsNode(c.nodes[i], i, |c.nodes|);
  }

  /** No node's current epoch, last vote or recorded configEpoch ever goes down. */
  lemma {:induction false} EpochsNeverDecrease(states: seq<Cluster>, steps: seq<Step>, electorate: nat -> set<Node>,
                                               i: Node, j: nat, k: nat)
    requires IsRun(states, steps, electorate) && j <= k < |states| && i < |states[j].nodes|
    ensures |states[k].nodes| == |states[j].nodes| && NotLower(states[j].nodes[i], states[k].nodes[i])
    decreases k
  {
    hide Inv, Initial, Take, Enabled;
    if j < k {
      EpochsNeverDecrease(states, steps, electorate, i, j, k - 1);
      ReachableInv(states, steps, electorate, k - 1);
      assert Follows(states[k - 1], steps[k - 1], states[k], electorate);
      StepNotLower(states[k - 1], steps[k - 1], electorate, i);
    }
  }

  /** A master never votes for two candidates, nor twice, in one epoch. */
  lemma OneVotePerEpoch(states: seq<Cluster>, steps: seq<Step>, electorate: nat -> set<Node>, k: nat, v: Vote, w: Vote)
    requires IsRun(states, steps, electorate) && k < |states| && v in states[k].votes && w in states[k].votes
    requires v.voter == w.voter && v.epoch == w.epoch
    ensures v == w
  {
    ReachableInv(states, steps, electorate, k);
    assert SameBallot(v, w);
  }

  /** failover_auth_count is the number of distinct masters whose vote for the current election was
      counted exactly when no acknowledgement arrived between scheduling and asking. */
  lemma CountIsDistinctVoters(states: seq<Cluster>, steps: seq<Step>, electorate: nat -> set<Node>, k: nat, i: Node)
    requires IsRun(states, steps, electorate) && k < |states| && i < |states[k].nodes|
    ensures var d := states[k];
            && |d.counted| == |d.stale| == |d.nodes|
            && (d.nodes[i].authCount == |d.counted[i]| <==> d.stale[i] == 0)
            && forall v :: v in d.counted[i] ==> Vote(v, d.nodes[i].authEpoch, i) in d.votes
  {
    ReachableInv(states, steps, electorate, k);
    var d := states[k];
    assert Tally(d.nodes[i], i, d.counted[i], d.stale[i], d.votes);
  }

  /** By how many members two quorums exceed the voters: one for an odd number of voters, two for an even one. */
  function Overlap(size: nat): nat
    ensures Overlap(size) == if size % 2 == 0 then 2 else 1
  {
    2 * (size / 2 + 1) - size
  }

  /** Election safety: at most one node wins an epoch, as long as the acknowledgements of earlier elections
      that the winners counted are fewer than two quorums have members in common. */
  lemma ElectionSafety(states: seq<Cluster>, steps: seq<Step>, electorate: nat -> set<Node>, k: nat, a: Win, b: Win)
    requires IsRun(states, steps, electorate) && k < |states| && a in states[k].wins && b in states[k].wins
    requires a.epoch == b.epoch && a.stale + b.stale < Overlap(|electorate(a.epoch)|)
    ensures a.node == b.node
  {
    ReachableInv(states, steps, electorate, k);
    hide IsRun;
    OneWinner(states[k], electorate, a, b);
  }

  /** The quorums of two winners share a voter, and it voted once. */
  lemma OneWinner(c: Cluster, electorate: nat -> set<Node>, a: Win, b: Win)
    requires Inv(c, electorate) && a in c.wins && b in c.wins
    requires a.epoch == b.epoch && a.stale + b.stale < Overlap(|electorate(a.epoch)|)
    ensures a.node == b.node
  {
    var whole := electorate(a.epoch);
    forall v | v in a.supporters + b.supporters ensures v in whole {
      assert Vote(v, a.epoch, a.node) in c.votes || Vote(v, b.epoch, b.node) in c.votes;
    }
    Intersect(a.supporters, b.supporters, whole);
    var v :| v in a.supporters && v in b.supporters;
    assert SameBallot(Vote(v, a.epoch, a.node), Vote(v, b.epoch, b.node));
  }

  /** In every reachable state a bump that takes effect leaves its node strictly above every
      configEpoch it knew, and one that does nothing finds it at least as high already. */
  lemma BumpGoesAbove(states: seq<Cluster>, steps: seq<Step>, electorate: nat -> set<Node>, k: nat, i: Node, n: Node)
    requires IsRun(states, steps, electorate) && k < |states| && i < |states[k].nodes| && n < |states[k].nodes|
    ensures var l := states[k].nodes[i];
            && l.Valid() && n in l.epochs && l.me == i
            && (l.Bump() != l ==> l.Bump().epochs[i] > l.epochs[n])
            && (l.Bump() == l ==> l.epochs[i] >= l.epochs[n])
  {
    ReachableInv(states, steps, electorate, k);
    assert IsNode(states[k].nodes[i], i, |states[k].nodes|);
  }
}
