/** Why ElectionSafety speaks of acknowledgements of earlier elections, and that it asks for no more than
    it must: as soon as two candidates count as many of them as two quorums have members in common, both
    can win one epoch, for every number of masters. */
module ClusterStaleAck {
  import opened Basics
  import opened ClusterEpochs
  import opened ClusterElection

  // ---------------------------------------------------------------- runs in pieces

  ghost predicate Reaches(c: Cluster, d: Cluster, electorate: nat -> set<Node>) {
    exists states, steps :: IsPath(states, steps, electorate) && states[0] == c && states[|steps|] == d
  }

  lemma Stays(c: Cluster, electorate: nat -> set<Node>)
    ensures Reaches(c, c, electorate)
  {
    assert IsPath([c], [], electorate) && [c][0] == c;
  }

  lemma GoOn(c: Cluster, d: Cluster, e: Cluster, electorate: nat -> set<Node>)
    requires Reaches(c, d, electorate) && Reaches(d, e, electorate)
    ensures Reaches(c, e, electorate)
  {
    hide Follows;
    var before, steps :| IsPath(before, steps, electorate) && before[0] == c && before[|steps|] == d;
    var after, more :| IsPath(after, more, electorate) && after[0] == d && after[|more|] == e;
    var states, all := before + after[1..], steps + more;
    forall i | 0 <= i < |all| ensures Follows(states[i], all[i], states[i + 1], electorate) {
      if i < |steps| {
        assert all[i] == steps[i] && states[i] == before[i] && states[i + 1] == before[i + 1];
      } else {
        var k := i - |steps|;
        assert all[i] == more[k] && states[i] == after[k] && states[i + 1] == after[k + 1];
      }
    }
    assert IsPath(states, all, electorate) && states[0] == c && states[|all|] == e;
  }

  lemma OneStep(c: Cluster, step: Step, d: Cluster, electorate: nat -> set<Node>)
    requires Follows(c, step, d, electorate)
    ensures Reaches(c, d, electorate)
  {
    hide Follows;
    var states, steps := [c, d], [step];
    assert Follows(states[0], steps[0], states[1], electorate);
    assert IsPath(states, steps, electorate) && states[|steps|] == d;
  }

  lemma TakeStep(c: Cluster, step: Step, electorate: nat -> set<Node>) returns (d: Cluster)
    requires Inv(c, electorate) && Enabled(c, step, electorate)
    ensures d == Take(c, step, electorate) && Inv(d, electorate) && Reaches(c, d, electorate)
  {
    assert WellFormed(c) by {
      InvIsWellFormed(c, electorate);
    }
    hide Inv, Take, Enabled, WellFormed, Reaches;
    d := Take(c, step, electorate);
    StepKeepsInv(c, step, electorate);
    OneStep(c, step, d, electorate);
  }

  lemma InvIsWellFormed(c: Cluster, electorate: nat -> set<Node>)
    requires Inv(c, electorate)
    ensures WellFormed(c)
  {
  }

  // ---------------------------------------------------------------- the cast

  function Zeros(n: nat): (epochs: map<Node, nat>)
    ensures forall k: Node :: k in epochs <==> k < n
    ensures forall k: Node :: k in epochs ==> epochs[k] == 0
  {
    if n == 0 then map[] else Zeros(n - 1)[n - 1 := 0]
  }

  /** One of `n` masters, having seen and voted in epoch `current`; there are two slaves besides them. */
  function Master(i: Node, n: nat, current: nat): State {
    Local(i, true, None, 1, current, current, 0, 0, false, Zeros(n + 2))
  }

  ghost predicate IsMasterBefore(l: State, i: Node, n: nat, epoch: nat) {
    l.currentEpoch < epoch && l == Master(i, n, l.currentEpoch)
  }

  /** A slave of master 0 in epoch `current`. */
  ghost predicate IsSlaveAt(l: State, x: Node, n: nat, current: nat) {
    && l.me == x && !l.isMaster && l.slaveof == Some(0) && l.epochs == Zeros(n + 2)
    && l.currentEpoch == current && l.authEpoch <= current
  }

  function Request(x: Node, v: Node, epoch: nat): Msg {
    Msg(x, v, epoch, 0, AuthRequest)
  }

  function Answer(v: Node, x: Node, epoch: nat): Msg {
    Msg(v, x, epoch, 0, AuthAck)
  }

  function Nodes(from: nat, to: nat): (s: set<Node>)
    ensures forall v :: v in s <==> from <= v < to
    ensures |s| == if from < to then to - from else 0
  {
    if from >= to then {} else Nodes(from, to - 1) + {to - 1}
  }

  ghost function Requests(x: Node, epoch: nat, from: nat, to: nat): multiset<Msg> {
    multiset(set v | v in Nodes(from, to) :: Request(x, v, epoch))
  }

  ghost predicate AllVote(n: nat, electorate: nat -> set<Node>) {
    forall e :: electorate(e) == Nodes(0, n)
  }

  /** The setting of all pieces: `n` masters and two slaves. */
  ghost predicate Setting(c: Cluster, n: nat, electorate: nat -> set<Node>) {
    Inv(c, electorate) && |c.nodes| == n + 2 && n > 0 && AllVote(n, electorate)
  }

  // ---------------------------------------------------------------- one vote

  lemma SettingShape(c: Cluster, n: nat, electorate: nat -> set<Node>)
    requires Setting(c, n, electorate)
    ensures WellFormed(c) && |c.nodes| == |c.counted| == |c.stale| == n + 2
  {
  }

  lemma TakeEffect(c: Cluster, n: nat, step: Step, e: Effect, electorate: nat -> set<Node>) returns (d: Cluster)
    requires Setting(c, n, electorate) && Enabled(c, step, electorate) && EffectOf(c, step, electorate) == e
    requires e.n < |c.nodes| == |c.counted| == |c.stale|
    ensures d == Apply(c, e) && Setting(d, n, electorate) && Reaches(c, d, electorate)
  {
    hide Inv, Enabled, EffectOf, WellFormed, Reaches;
    d := TakeStep(c, step, electorate);
  }

  lemma MasterHears(n: nat, v: Node, x: Node, current: nat, epoch: nat)
    requires v < n <= x < n + 2 && current <= epoch
    ensures Master(v, n, current).Valid() && x in Master(v, n, current).epochs
    ensures Master(v, n, current).SeeHeader(x, epoch, 0) == Master(v, n, current).(currentEpoch := epoch)
  {
    assert Zeros(n + 2)[x := 0] == Zeros(n + 2);
  }

  lemma SlaveHears(l: State, x: Node, n: nat, current: nat, y: Node, epoch: nat)
    requires IsSlaveAt(l, x, n, current) && n <= x < n + 2 && y < n + 2
    ensures l.Valid() && y in l.epochs && l.HeaderEpoch() == 0
    ensures l.SeeHeader(y, epoch, 0) == l.(currentEpoch := Max(current, epoch))
  {
    assert Zeros(n + 2)[y := 0] == Zeros(n + 2);
  }

  lemma GrantedEffect(c: Cluster, n: nat, x: Node, epoch: nat, v: Node, electorate: nat -> set<Node>)
    requires Setting(c, n, electorate) && n <= x < n + 2 && v < n && Request(x, v, epoch) in c.net
    requires IsMasterBefore(c.nodes[v], v, n, epoch)
    ensures Enabled(c, Deliver(Request(x, v, epoch), true), electorate)
    ensures EffectOf(c, Deliver(Request(x, v, epoch), true), electorate)
            == Effect(v, Master(v, n, epoch), multiset{Request(x, v, epoch)}, multiset{Answer(v, x, epoch)},
                      {Vote(v, epoch, x)}, {}, c.counted[v], c.stale[v])
  {
    var m := Request(x, v, epoch);
    SettingShape(c, n, electorate);
    assert electorate(epoch) == Nodes(0, n);
    hide Setting, WellFormed, Zeros;
    MasterHears(n, v, x, c.nodes[v].currentEpoch, epoch);
    assert Seen(c, m) == Master(v, n, c.nodes[v].currentEpoch).(currentEpoch := epoch);
  }

  /** The request reaches master `v`, which votes. */
  lemma Granted(c: Cluster, n: nat, x: Node, epoch: nat, v: Node, electorate: nat -> set<Node>) returns (d: Cluster)
    requires Setting(c, n, electorate) && n <= x < n + 2 && v < n && Request(x, v, epoch) in c.net
    requires IsMasterBefore(c.nodes[v], v, n, epoch)
    ensures Setting(d, n, electorate) && Reaches(c, d, electorate)
    ensures d.nodes == c.nodes[v := Master(v, n, epoch)] && d.wins == c.wins
    ensures d.net == c.net - multiset{Request(x, v, epoch)} + multiset{Answer(v, x, epoch)}
    ensures d.counted == c.counted && d.stale == c.stale
  {
    SettingShape(c, n, electorate);
    GrantedEffect(c, n, x, epoch, v, electorate);
    hide Enabled, EffectOf, Setting, Reaches, WellFormed, Master, IsMasterBefore;
    var step := Deliver(Request(x, v, epoch), true);
    d := TakeEffect(c, n, step, EffectOf(c, step, electorate), electorate);
  }

  lemma CountedEffect(c: Cluster, n: nat, x: Node, epoch: nat, v: Node, electorate: nat -> set<Node>)
    requires Setting(c, n, electorate) && n <= x < n + 2 && v < n && Answer(v, x, epoch) in c.net
    requires IsSlaveAt(c.nodes[x], x, n, epoch)
    ensures Enabled(c, Deliver(Answer(v, x, epoch), true), electorate)
    ensures var l := c.nodes[x];
            EffectOf(c, Deliver(Answer(v, x, epoch), true), electorate)
            == Effect(x, l.(authCount := l.authCount + 1), multiset{Answer(v, x, epoch)}, multiset{}, {}, {},
                      c.counted[x] + (if l.authSent then {v} else {}), c.stale[x] + (if l.authSent then 0 else 1))
  {
    var m := Answer(v, x, epoch);
    SettingShape(c, n, electorate);
    hide Setting, WellFormed, Zeros;
    SlaveHears(c.nodes[x], x, n, epoch, v, epoch);
    assert Seen(c, m) == c.nodes[x];
  }

  /** The answer reaches the candidate, which counts it. */
  lemma Counted(c: Cluster, n: nat, x: Node, epoch: nat, v: Node, electorate: nat -> set<Node>) returns (d: Cluster)
    requires Setting(c, n, electorate) && n <= x < n + 2 && v < n && Answer(v, x, epoch) in c.net
    requires IsSlaveAt(c.nodes[x], x, n, epoch)
    ensures Setting(d, n, electorate) && Reaches(c, d, electorate)
    ensures d.nodes == c.nodes[x := c.nodes[x].(authCount := c.nodes[x].authCount + 1)] && d.wins == c.wins
    ensures d.net == c.net - multiset{Answer(v, x, epoch)} && |c.counted| == |c.stale| == n + 2
    ensures d.counted == c.counted[x := c.counted[x] + (if c.nodes[x].authSent then {v} else {})]
    ensures d.stale == c.stale[x := c.stale[x] + (if c.nodes[x].authSent then 0 else 1)]
  {
    SettingShape(c, n, electorate);
    CountedEffect(c, n, x, epoch, v, electorate);
    hide Enabled, EffectOf, Setting, Reaches, WellFormed;
    var step := Deliver(Answer(v, x, epoch), true);
    d := TakeEffect(c, n, step, EffectOf(c, step, electorate), electorate);
  }

  /** `d` is `c` after the masters from `from` to `to` voted for `x` and it counted their answers. */
  ghost predicate Polled(c: Cluster, d: Cluster, n: nat, x: Node, epoch: nat, from: nat, to: nat)
    requires from <= to <= n <= x < n + 2 && |c.nodes| == |c.counted| == |c.stale| == n + 2
  {
    && |d.nodes| == |d.counted| == |d.stale| == n + 2 && d.wins == c.wins
    && (forall i: Node :: i < n + 2 && i != x ==>
          d.nodes[i] == if from <= i < to then Master(i, n, epoch) else c.nodes[i])
    && d.nodes[x] == c.nodes[x].(authCount := c.nodes[x].authCount + (to - from))
    && (forall i :: 0 <= i < n + 2 && i != x ==> d.counted[i] == c.counted[i] && d.stale[i] == c.stale[i])
    && d.counted[x] == c.counted[x] + (if c.nodes[x].authSent then Nodes(from, to) else {})
    && d.stale[x] == c.stale[x] + (if c.nodes[x].authSent then 0 else to - from)
  }

  /** What is asked of the state when the masters from `from` to `to` are about to hear of x's request. */
  ghost predicate Polling(c: Cluster, n: nat, x: Node, epoch: nat, from: nat, to: nat, electorate: nat -> set<Node>) {
    && Setting(c, n, electorate) && n <= x < n + 2 && from <= to <= n
    && c.net == Requests(x, epoch, from, to) && IsSlaveAt(c.nodes[x], x, n, epoch)
    && forall v :: from <= v < to ==> IsMasterBefore(c.nodes[v], v, n, epoch)
  }

  lemma PollingShape(c: Cluster, n: nat, x: Node, epoch: nat, from: nat, to: nat, electorate: nat -> set<Node>)
    requires Polling(c, n, x, epoch, from, to, electorate)
    ensures from <= to <= n <= x < n + 2 && |c.nodes| == |c.counted| == |c.stale| == n + 2
  {
  }

  lemma NothingPolled(c: Cluster, n: nat, x: Node, epoch: nat, k: nat, electorate: nat -> set<Node>)
    requires Polling(c, n, x, epoch, k, k, electorate)
    ensures Setting(c, n, electorate) && c.net == multiset{}
    ensures k <= n <= x < n + 2 && |c.nodes| == |c.counted| == |c.stale| == n + 2 && Polled(c, c, n, x, epoch, k, k)
  {
    hide Reaches;
    assert Nodes(k, k) == {};
  }

  /** `d` is `c` after master `v` voted and `x` counted its answer. */
  ghost predicate Answered(c: Cluster, d: Cluster, n: nat, x: Node, epoch: nat, v: Node)
    requires v < n <= x < n + 2 && |c.nodes| == |c.counted| == |c.stale| == n + 2
  {
    && d.nodes == c.nodes[v := Master(v, n, epoch)][x := c.nodes[x].(authCount := c.nodes[x].authCount + 1)]
    && d.wins == c.wins && d.net == c.net - multiset{Request(x, v, epoch)}
    && d.counted == c.counted[x := c.counted[x] + (if c.nodes[x].authSent then {v} else {})]
    && d.stale == c.stale[x := c.stale[x] + (if c.nodes[x].authSent then 0 else 1)]
  }

  /** The vote of one master, from the request to the count. */
  lemma AskOne(c: Cluster, n: nat, x: Node, epoch: nat, v: Node, electorate: nat -> set<Node>) returns (d: Cluster)
    requires Setting(c, n, electorate) && n <= x < n + 2 && v < n && Request(x, v, epoch) in c.net
    requires IsMasterBefore(c.nodes[v], v, n, epoch) && IsSlaveAt(c.nodes[x], x, n, epoch)
    ensures Setting(d, n, electorate) && Reaches(c, d, electorate)
    ensures |c.nodes| == |c.counted| == |c.stale| == n + 2 && Answered(c, d, n, x, epoch, v)
  {
    hide Inv, Reaches, Zeros;
    var a := Granted(c, n, x, epoch, v, electorate);
    assert a.nodes[x] == c.nodes[x];
    d := Counted(a, n, x, epoch, v, electorate);
    hide Setting;
    GoOn(c, a, d, electorate);
    assert d.net == c.net - multiset{Request(x, v, epoch)};
  }

  lemma OnePolled(c: Cluster, d: Cluster, n: nat, x: Node, epoch: nat, from: nat, to: nat, electorate: nat -> set<Node>)
    requires Polling(c, n, x, epoch, from, to, electorate) && from < to && Setting(d, n, electorate)
    requires |c.nodes| == |c.counted| == |c.stale| == n + 2 && Answered(c, d, n, x, epoch, from)
    ensures Polling(d, n, x, epoch, from + 1, to, electorate) && Polled(c, d, n, x, epoch, from, from + 1)
  {
    hide Setting, Requests;
    FewerRequests(x, epoch, from, to);
    assert Nodes(from, from + 1) == {from};
  }

  lemma PollOne(c: Cluster, n: nat, x: Node, epoch: nat, from: nat, to: nat, electorate: nat -> set<Node>)
    returns (d: Cluster)
    requires Polling(c, n, x, epoch, from, to, electorate) && from < to
    ensures Polling(d, n, x, epoch, from + 1, to, electorate) && Reaches(c, d, electorate)
    ensures |c.nodes| == |c.counted| == |c.stale| == n + 2 && Polled(c, d, n, x, epoch, from, from + 1)
  {
    assert from in Nodes(from, to);
    hide Setting, Reaches, Answered, Polled;
    d := AskOne(c, n, x, epoch, from, electorate);
    OnePolled(c, d, n, x, epoch, from, to, electorate);
  }

  lemma PolledOn(c: Cluster, d: Cluster, e: Cluster, n: nat, x: Node, epoch: nat, from: nat, mid: nat, to: nat)
    requires from <= mid <= to <= n <= x < n + 2 && |c.nodes| == |c.counted| == |c.stale| == n + 2
    requires Polled(c, d, n, x, epoch, from, mid) && Polled(d, e, n, x, epoch, mid, to)
    ensures Polled(c, e, n, x, epoch, from, to)
  {
    assert Nodes(from, to) == Nodes(from, mid) + Nodes(mid, to);
  }

  lemma {:induction false} Poll(c: Cluster, n: nat, x: Node, epoch: nat, from: nat, to: nat,
                                electorate: nat -> set<Node>)
    returns (d: Cluster)
    requires Polling(c, n, x, epoch, from, to, electorate)
    ensures Setting(d, n, electorate) && Reaches(c, d, electorate) && d.net == multiset{}
    ensures from <= to <= n <= x < n + 2 && |c.nodes| == |c.counted| == |c.stale| == n + 2
    ensures Polled(c, d, n, x, epoch, from, to)
    decreases n - from
  {
    hide *;
    PollingShape(c, n, x, epoch, from, to, electorate);
    if from == to {
      d := c;
      Stays(c, electorate);
      NothingPolled(c, n, x, epoch, from, electorate);
    } else {
      var b := PollOne(c, n, x, epoch, from, to, electorate);
      d := Poll(b, n, x, epoch, from + 1, to, electorate);
      GoOn(c, b, d, electorate);
      PolledOn(c, b, d, n, x, epoch, from, from + 1, to);
    }
  }

  lemma FewerRequests(x: Node, epoch: nat, from: nat, to: nat)
    requires from < to
    ensures Requests(x, epoch, from, to) - multiset{Request(x, from, epoch)} == Requests(x, epoch, from + 1, to)
  {
    var all := set v | v in Nodes(from, to) :: Request(x, v, epoch);
    var rest := set v | v in Nodes(from + 1, to) :: Request(x, v, epoch);
    assert all == rest + {Request(x, from, epoch)};
  }

  // ---------------------------------------------------------------- the other steps

  lemma AskEffect(c: Cluster, n: nat, x: Node, epoch: nat, from: nat, to: nat, electorate: nat -> set<Node>)
    requires Setting(c, n, electorate) && n <= x < n + 2 && from <= to <= n && epoch > 0
    requires IsSlaveAt(c.nodes[x], x, n, epoch - 1) && !c.nodes[x].authSent
    ensures Enabled(c, StartElection(x, Nodes(from, to)), electorate)
    ensures EffectOf(c, StartElection(x, Nodes(from, to)), electorate)
            == Effect(x, c.nodes[x].StartElection(), multiset{}, Requests(x, epoch, from, to), {}, {},
                      c.counted[x], c.stale[x])
  {
    var l, dsts := c.nodes[x].StartElection(), Nodes(from, to);
    SettingShape(c, n, electorate);
    hide Setting, WellFormed, Zeros;
    SlaveHears(c.nodes[x], x, n, epoch - 1, x, 0);
    SlaveHears(l, x, n, epoch, x, 0);
    assert (set v | v in dsts :: Header(l, v, AuthRequest)) == set v | v in dsts :: Request(x, v, epoch);
  }

  lemma AskStep(c: Cluster, n: nat, x: Node, epoch: nat, from: nat, to: nat, electorate: nat -> set<Node>)
    returns (d: Cluster)
    requires Setting(c, n, electorate) && n <= x < n + 2 && from <= to <= n && c.net == multiset{} && epoch > 0
    requires IsSlaveAt(c.nodes[x], x, n, epoch - 1) && !c.nodes[x].authSent
    ensures Setting(d, n, electorate) && Reaches(c, d, electorate) && d.net == Requests(x, epoch, from, to)
    ensures d.nodes == c.nodes[x := c.nodes[x].StartElection()] && d.wins == c.wins
    ensures d.counted == c.counted && d.stale == c.stale && |c.counted| == |c.stale| == n + 2
  {
    SettingShape(c, n, electorate);
    AskEffect(c, n, x, epoch, from, to, electorate);
    hide Enabled, EffectOf, Setting, Reaches, WellFormed, Requests, Nodes, Zeros;
    var step := StartElection(x, Nodes(from, to));
    d := TakeEffect(c, n, step, EffectOf(c, step, electorate), electorate);
  }

  /** `x` asks the masters from `from` to `to` in its next epoch. */
  lemma Ask(c: Cluster, n: nat, x: Node, epoch: nat, from: nat, to: nat, electorate: nat -> set<Node>)
    returns (d: Cluster)
    requires Setting(c, n, electorate) && n <= x < n + 2 && from <= to <= n && c.net == multiset{} && epoch > 0
    requires IsSlaveAt(c.nodes[x], x, n, epoch - 1) && !c.nodes[x].authSent
    requires forall v :: from <= v < to ==> IsMasterBefore(c.nodes[v], v, n, epoch)
    ensures Polling(d, n, x, epoch, from, to, electorate) && Reaches(c, d, electorate)
    ensures d.nodes == c.nodes[x := c.nodes[x].StartElection()] && d.wins == c.wins
    ensures d.counted == c.counted && d.stale == c.stale && |c.counted| == |c.stale| == n + 2
  {
    hide Inv, Reaches, Requests, Zeros;
    d := AskStep(c, n, x, epoch, from, to, electorate);
    assert IsSlaveAt(d.nodes[x], x, n, epoch);
    assert forall v :: from <= v < to ==> d.nodes[v] == c.nodes[v];
  }

  /** `x` gives up the running attempt and schedules another. */
  lemma PutOff(c: Cluster, n: nat, x: Node, epoch: nat, from: nat, to: nat, electorate: nat -> set<Node>)
    returns (d: Cluster)
    requires Polling(c, n, x, epoch, from, to, electorate)
    ensures Polling(d, n, x, epoch, from, to, electorate) && Reaches(c, d, electorate)
    ensures |c.nodes| == |c.counted| == |c.stale| == n + 2 && n <= x < n + 2
    ensures d.nodes == c.nodes[x := c.nodes[x].Schedule()] && d.wins == c.wins
    ensures d.counted == c.counted[x := {}] && d.stale == c.stale[x := 0]
  {
    assert |c.counted| == |c.stale| == |c.nodes|;
    d := TakeStep(c, Schedule(x), electorate);
  }

  lemma Sent(c: Cluster, n: nat, y: Node, x: Node, electorate: nat -> set<Node>) returns (d: Cluster)
    requires Setting(c, n, electorate) && n <= x < n + 2 && n <= y < n + 2 && c.net == multiset{}
    requires IsSlaveAt(c.nodes[y], y, n, c.nodes[y].currentEpoch)
    ensures Setting(d, n, electorate) && Reaches(c, d, electorate)
    ensures d.nodes == c.nodes && d.net == multiset{Msg(y, x, c.nodes[y].currentEpoch, 0, Ping)}
    ensures d.wins == c.wins && d.counted == c.counted && d.stale == c.stale
  {
    SettingShape(c, n, electorate);
    hide Setting, Reaches, WellFormed, Zeros;
    SlaveHears(c.nodes[y], y, n, c.nodes[y].currentEpoch, y, 0);
    var step := SendPing(y, x);
    d := TakeEffect(c, n, step, EffectOf(c, step, electorate), electorate);
  }

  lemma HeardEffect(c: Cluster, n: nat, y: Node, x: Node, epoch: nat, electorate: nat -> set<Node>)
    requires Setting(c, n, electorate) && n <= x < n + 2 && n <= y < n + 2 && Msg(y, x, epoch, 0, Ping) in c.net
    requires IsSlaveAt(c.nodes[x], x, n, c.nodes[x].currentEpoch)
    ensures Enabled(c, Deliver(Msg(y, x, epoch, 0, Ping), false), electorate)
    ensures EffectOf(c, Deliver(Msg(y, x, epoch, 0, Ping), false), electorate)
            == Effect(x, c.nodes[x].(currentEpoch := Max(c.nodes[x].currentEpoch, epoch)),
                      multiset{Msg(y, x, epoch, 0, Ping)}, multiset{}, {}, {}, c.counted[x], c.stale[x])
  {
    SettingShape(c, n, electorate);
    hide Setting, WellFormed, Zeros;
    SlaveHears(c.nodes[x], x, n, c.nodes[x].currentEpoch, y, epoch);
  }

  /** A PING of `y` tells `x` of its epoch. */
  lemma Tell(c: Cluster, n: nat, y: Node, x: Node, electorate: nat -> set<Node>) returns (d: Cluster)
    requires Setting(c, n, electorate) && n <= x < n + 2 && n <= y < n + 2 && c.net == multiset{}
    requires IsSlaveAt(c.nodes[x], x, n, c.nodes[x].currentEpoch)
    requires IsSlaveAt(c.nodes[y], y, n, c.nodes[y].currentEpoch)
    ensures Setting(d, n, electorate) && Reaches(c, d, electorate) && d.net == multiset{}
    ensures d.nodes == c.nodes[x := c.nodes[x].(currentEpoch := Max(c.nodes[x].currentEpoch, c.nodes[y].currentEpoch))]
    ensures d.wins == c.wins && d.counted == c.counted && d.stale == c.stale
  {
    var m := Msg(y, x, c.nodes[y].currentEpoch, 0, Ping);
    var a := Sent(c, n, y, x, electorate);
    SettingShape(a, n, electorate);
    HeardEffect(a, n, y, x, c.nodes[y].currentEpoch, electorate);
    hide Enabled, EffectOf, Setting, Reaches, WellFormed;
    var step := Deliver(m, false);
    d := TakeEffect(a, n, step, EffectOf(a, step, electorate), electorate);
    GoOn(c, a, d, electorate);
  }

  /** `x` has its quorum. */
  lemma TakeVictory(c: Cluster, n: nat, x: Node, epoch: nat, electorate: nat -> set<Node>) returns (d: Cluster)
    requires Setting(c, n, electorate) && n <= x < n + 2 && c.net == multiset{}
    requires IsSlaveAt(c.nodes[x], x, n, epoch) && c.nodes[x].authSent && c.nodes[x].authEpoch == epoch
    requires c.nodes[x].authCount >= n / 2 + 1
    ensures Setting(d, n, electorate) && Reaches(c, d, electorate) && d.net == multiset{}
    ensures |c.counted| == |c.stale| == n + 2 && d.counted == c.counted && d.stale == c.stale
    ensures |d.nodes| == n + 2 && forall i: Node :: i < n + 2 && i != x ==> d.nodes[i] == c.nodes[i]
    ensures d.wins == c.wins + {Win(x, epoch, n, c.counted[x], c.stale[x])}
  {
    assert |electorate(epoch)| == n by {
      assert electorate(epoch) == Nodes(0, n);
    }
    SettingShape(c, n, electorate);
    hide Setting, Reaches, WellFormed;
    var step := WinElection(x, n, 0);
    d := TakeEffect(c, n, step, EffectOf(c, step, electorate), electorate);
  }

  // ---------------------------------------------------------------- two attempts of one candidate

  /** Nothing but `x` and the masters from `from` to `to` is different. */
  ghost predicate OthersStay(c: Cluster, d: Cluster, n: nat, x: Node, from: nat, to: nat) {
    && |c.nodes| == |c.counted| == |c.stale| == n + 2 && |d.nodes| == |d.counted| == |d.stale| == n + 2
    && (forall i: Node :: i < n + 2 && i != x ==> d.counted[i] == c.counted[i] && d.stale[i] == c.stale[i])
    && forall i: Node :: i < n + 2 && i != x && !(from <= i < to) ==> d.nodes[i] == c.nodes[i]
  }

  ghost predicate AllBefore(c: Cluster, n: nat, from: nat, to: nat, epoch: nat)
    requires to <= n <= |c.nodes|
  {
    forall v: Node :: from <= v < to ==> IsMasterBefore(c.nodes[v], v, n, epoch)
  }

  /** `x` asks, schedules another attempt, and then counts the answers of `s` masters to the first one. */
  lemma CountStale(c: Cluster, n: nat, x: Node, epoch: nat, s: nat, electorate: nat -> set<Node>) returns (d: Cluster)
    requires Setting(c, n, electorate) && n <= x < n + 2 && s <= n && c.net == multiset{} && epoch > 0
    requires IsSlaveAt(c.nodes[x], x, n, epoch - 1) && !c.nodes[x].authSent && AllBefore(c, n, 0, n, epoch)
    ensures Setting(d, n, electorate) && Reaches(c, d, electorate) && d.net == multiset{} && d.wins == c.wins
    ensures OthersStay(c, d, n, x, 0, n) && AllBefore(d, n, 0, n, epoch + 1)
    ensures IsSlaveAt(d.nodes[x], x, n, epoch) && !d.nodes[x].authSent && d.nodes[x].authCount == s
    ensures d.counted[x] == {} && d.stale[x] == s
  {
    assert |c.nodes| == |c.counted| == |c.stale| == n + 2;
    hide Setting, Reaches, Polling, Zeros;
    var a := Ask(c, n, x, epoch, 0, s, electorate);
    var b := PutOff(a, n, x, epoch, 0, s, electorate);
    d := Poll(b, n, x, epoch, 0, s, electorate);
    GoOn(c, a, b, electorate);
    GoOn(c, b, d, electorate);
  }

  /** `x` asks the masters from `from` to `to`, which vote for it, and has its quorum. */
  lemma Elect(c: Cluster, n: nat, x: Node, epoch: nat, from: nat, to: nat, electorate: nat -> set<Node>)
    returns (d: Cluster)
    requires Setting(c, n, electorate) && n <= x < n + 2 && from <= to <= n && c.net == multiset{} && epoch > 0
    requires IsSlaveAt(c.nodes[x], x, n, epoch - 1) && !c.nodes[x].authSent && AllBefore(c, n, from, to, epoch)
    requires c.nodes[x].authCount + (to - from) >= n / 2 + 1
    ensures Setting(d, n, electorate) && Reaches(c, d, electorate) && d.net == multiset{}
    ensures OthersStay(c, d, n, x, from, to)
    ensures exists voters :: d.wins == c.wins + {Win(x, epoch, n, voters, c.stale[x])}
  {
    assert |c.nodes| == |c.counted| == |c.stale| == n + 2;
    hide Setting, Reaches, Polling, Zeros;
    var a := Ask(c, n, x, epoch, from, to, electorate);
    var b := Poll(a, n, x, epoch, from, to, electorate);
    d := TakeVictory(b, n, x, epoch, electorate);
    GoOn(c, a, b, electorate);
    GoOn(c, b, d, electorate);
    assert d.wins == c.wins + {Win(x, epoch, n, b.counted[x], c.stale[x])};
  }

  // ---------------------------------------------------------------- two winners

  /** The masters in epoch 0, the slaves in epochs 0 and 1. */
  function Start(n: nat): Cluster {
    Cluster(seq(n, i requires i >= 0 => Master(i, n, 0))
            + [Local(n, false, Some(0), 0, 0, 0, 0, 0, false, Zeros(n + 2)),
               Local(n + 1, false, Some(0), 0, 1, 0, 0, 0, false, Zeros(n + 2))],
            multiset{}, {}, {}, seq(n + 2, _ => {}), seq(n + 2, _ => 0))
  }

  lemma StartIsInitial(n: nat, electorate: nat -> set<Node>)
    requires n > 0 && AllVote(n, electorate)
    ensures Initial(Start(n)) && Setting(Start(n), n, electorate) && AllBefore(Start(n), n, 0, n, 1)
    ensures IsSlaveAt(Start(n).nodes[n], n, n, 0) && IsSlaveAt(Start(n).nodes[n + 1], n + 1, n, 1)
  {
    InitialInv(Start(n), electorate);
  }

  /** Two slaves that counted `s` and `t` answers to earlier elections, each in an epoch of its own. */
  lemma BothCountStale(n: nat, s: nat, t: nat, electorate: nat -> set<Node>) returns (d: Cluster)
    requires n > 0 && s <= n && t <= n && AllVote(n, electorate)
    ensures Setting(d, n, electorate) && Reaches(Start(n), d, electorate) && d.net == multiset{} && d.wins == {}
    ensures AllBefore(d, n, 0, n, 3) && |d.stale| == n + 2
    ensures IsSlaveAt(d.nodes[n], n, n, 2) && !d.nodes[n].authSent && d.nodes[n].authCount == d.stale[n] == s
    ensures IsSlaveAt(d.nodes[n + 1], n + 1, n, 2) && !d.nodes[n + 1].authSent
    ensures d.nodes[n + 1].authCount == d.stale[n + 1] == t
  {
    StartIsInitial(n, electorate);
    hide Setting, Reaches, Initial, Zeros;
    var a := CountStale(Start(n), n, n, 1, s, electorate);
    var b := CountStale(a, n, n + 1, 2, t, electorate);
    d := Tell(b, n, n + 1, n, electorate);
    GoOn(Start(n), a, b, electorate);
    GoOn(Start(n), b, d, electorate);
  }

  function Rest(quorum: nat, s: nat): nat {
    if s < quorum then quorum - s else 0
  }

  /** The condition of ElectionSafety is exact. For any number `n` of masters and any numbers of stale
      acknowledgements at the threshold or above there is a run with two winners of one epoch. */
  lemma TwoWinners(n: nat, s: nat, t: nat, electorate: nat -> set<Node>)
    returns (states: seq<Cluster>, steps: seq<Step>, a: Win, b: Win)
    requires n > 0 && s <= n && t <= n && s + t >= Overlap(n) && AllVote(n, electorate)
    ensures IsRun(states, steps, electorate) && a in states[|steps|].wins && b in states[|steps|].wins
    ensures a.epoch == b.epoch && a.node != b.node && a.stale == s && b.stale == t && |electorate(a.epoch)| == n
  {
    var q := n / 2 + 1;
    var k, m := Rest(q, s), Rest(q, s) + Rest(q, t);
    StartIsInitial(n, electorate);
    hide Setting, Reaches, Initial, Zeros, Start, Inv;
    var c := BothCountStale(n, s, t, electorate);
    var d := Elect(c, n, n, 3, 0, k, electorate);
    var e := Elect(d, n, n + 1, 3, k, m, electorate);
    GoOn(Start(n), c, d, electorate);
    GoOn(Start(n), d, e, electorate);
    states, steps := Unfold(Start(n), e, electorate);
    a :| a in d.wins && a.node == n && a.epoch == 3 && a.stale == s;
    b :| b in e.wins && b.node == n + 1 && b.epoch == 3 && b.stale == t;
    assert electorate(3) == Nodes(0, n);
  }

  lemma Unfold(c: Cluster, d: Cluster, electorate: nat -> set<Node>) returns (states: seq<Cluster>, steps: seq<Step>)
    requires Reaches(c, d, electorate) && Initial(c)
    ensures IsRun(states, steps, electorate) && states[|steps|] == d
  {
    states, steps :| IsPath(states, steps, electorate) && states[0] == c && states[|steps|] == d;
  }

  /** Two nodes won the same epoch, one with `s` and the other with `t` stale acknowledgements. */
  ghost predicate Divided(states: seq<Cluster>, steps: seq<Step>, electorate: nat -> set<Node>, k: nat,
                          a: Win, b: Win, s: nat, t: nat)
  {
    && IsRun(states, steps, electorate) && k < |states| && a in states[k].wins && b in states[k].wins
    && a.epoch == b.epoch && a.node != b.node && a.stale == s && b.stale == t
  }

  /** Exactly when an epoch can have two winners. */
  lemma SafeExactlyBelow(n: nat, s: nat, t: nat, electorate: nat -> set<Node>)
    requires n > 0 && s <= n && t <= n && AllVote(n, electorate)
    ensures (exists states, steps, k, a, b :: Divided(states, steps, electorate, k, a, b, s, t))
            <==> s + t >= Overlap(n)
  {
    hide IsRun;
    if s + t >= Overlap(n) {
      var states, steps, a, b := TwoWinners(n, s, t, electorate);
      assert |states| == |steps| + 1 by {
        RunLength(states, steps, electorate);
      }
      assert Divided(states, steps, electorate, |steps|, a, b, s, t);
    } else {
      forall states, steps, k: nat, a, b | Divided(states, steps, electorate, k, a, b, s, t) ensures false {
        assert electorate(a.epoch) == Nodes(0, n);
        ElectionSafety(states, steps, electorate, k, a, b);
      }
    }
  }
}
