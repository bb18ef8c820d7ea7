/** Election safety by the clock. A slave schedules a new attempt only when the time-out of its latest
    request is over; when answers to a request take no longer than that, or get lost, none is ever counted
    for a later election, and at most one node wins an epoch. */
module ClusterTiming {
  import opened ClusterEpochs
  import opened ClusterElection

  /** When a node asked last, after a step at time `now`. */
  function AskedAfter(asked: seq<int>, step: Step, now: int): seq<int> {
    if step.StartElection? && step.n < |asked| then asked[step.n := now] else asked
  }

  /** `times` are the times of the steps, the first not before `start`. `asked[i]` says when each node asked
      last before state i; nobody's request is still pending at `start`. */
  ghost predicate Clocked(states: seq<Cluster>, steps: seq<Step>, times: seq<int>, asked: seq<seq<int>>,
                          start: int, timeout: nat)
  {
    && |states| == |asked| == |steps| + 1 && |times| == |steps|
    && |asked[0]| == |states[0].nodes| && (forall n :: 0 <= n < |asked[0]| ==> asked[0][n] + timeout < start)
    && forall i {:trigger steps[i]} :: 0 <= i < |steps| ==>
         Before(start, times, i) <= times[i] && asked[i + 1] == AskedAfter(asked[i], steps[i], times[i])
  }

  function Before(start: int, times: seq<int>, i: nat): int
    requires i <= |times|
  {
    if i == 0 then start else times[i - 1]
  }

  /** What HandleSlaveFailover of ClusterFailover guarantees: no new attempt before the time-out is over. */
  predicate Patient(step: Step, asked: seq<int>, now: int, timeout: nat) {
    step.Schedule? && step.n < |asked| ==> now > asked[step.n] + timeout
  }

  /** The step delivers an answer to the receiver's latest request. */
  ghost predicate AnswersLatest(c: Cluster, step: Step) {
    && step.Deliver? && step.m.payload.AuthAck? && step.m.dst < |c.nodes|
    && step.m.currentEpoch == c.nodes[step.m.dst].authEpoch
  }

  /** What is asked of the network: an answer to the latest request arrives within the time-out or never. */
  ghost predicate Prompt(c: Cluster, step: Step, asked: seq<int>, now: int, timeout: nat) {
    AnswersLatest(c, step) && step.m.dst < |asked| ==> now <= asked[step.m.dst] + timeout
  }

  ghost predicate Timely(states: seq<Cluster>, steps: seq<Step>, times: seq<int>, asked: seq<seq<int>>,
                         start: int, timeout: nat)
  {
    && Clocked(states, steps, times, asked, start, timeout)
    && forall i {:trigger steps[i]} :: 0 <= i < |steps| ==>
         Patient(steps[i], asked[i], times[i], timeout) && Prompt(states[i], steps[i], asked[i], times[i], timeout)
  }

  /** No stale acknowledgement was counted, and none can be: who has a new attempt ahead asked long ago. */
  ghost predicate NothingStale(c: Cluster, asked: seq<int>, now: int, timeout: nat) {
    && |asked| == |c.nodes| == |c.stale|
    && (forall n :: 0 <= n < |c.nodes| ==> c.stale[n] == 0 && (!c.nodes[n].authSent ==> asked[n] + timeout < now))
    && forall w :: w in c.wins ==> w.stale == 0
  }

  /** An acknowledgement in flight is of no later election than its receiver's. */
  lemma AckIsNotAhead(c: Cluster, electorate: nat -> set<Node>, m: Msg)
    requires Inv(c, electorate) && m in c.net && m.payload.AuthAck?
    ensures m.dst < |c.nodes| && m.currentEpoch <= c.nodes[m.dst].authEpoch
  {
    assert Vote(m.src, m.currentEpoch, m.dst) in c.votes;
  }

  /** What a step may do to its node without counting anything stale. */
  ghost predicate Harmless(e: Effect, asked: seq<int>, now: int, timeout: nat) {
    && e.n < |asked| && e.stale == 0 && (forall w :: w in e.wins ==> w.stale == 0)
    && (!e.local.authSent ==> asked[e.n] + timeout < now)
  }

  lemma AckIsHarmless(c: Cluster, m: Msg, trust: bool, electorate: nat -> set<Node>, asked: seq<int>, before: int,
                      now: int, timeout: nat)
    requires Inv(c, electorate) && m in c.net && m.payload.AuthAck? && NothingStale(c, asked, before, timeout)
    requires before <= now && Prompt(c, Deliver(m, trust), asked, now, timeout)
    ensures m.dst < |c.nodes| == |c.counted| == |c.stale| && IsNode(c.nodes[m.dst], m.dst, |c.nodes|)
    ensures m.src < |c.nodes|
    ensures Harmless(AckEffect(c, m, trust), asked, now, timeout)
  {
    AckIsNotAhead(c, electorate, m);
    assert Seen(c, m).authSent == c.nodes[m.dst].authSent && Seen(c, m).authEpoch == c.nodes[m.dst].authEpoch;
  }

  lemma PacketIsHarmless(c: Cluster, m: Msg, trust: bool, asked: seq<int>, before: int, now: int, timeout: nat)
    requires WellFormed(c) && m in c.net && !m.payload.AuthAck? && NothingStale(c, asked, before, timeout)
    requires before <= now
    ensures Harmless(PacketEffect(c, m, trust), asked, now, timeout)
  {
    assert PacketEffect(c, m, trust).local.authSent == c.nodes[m.dst].authSent;
  }

  lemma OtherIsHarmless(c: Cluster, step: Step, electorate: nat -> set<Node>, asked: seq<int>, before: int, now: int,
                        timeout: nat)
    requires WellFormed(c) && Enabled(c, step, electorate) && NothingStale(c, asked, before, timeout) && before <= now
    requires !step.Deliver? && Patient(step, asked, now, timeout)
    ensures Harmless(EffectOf(c, step, electorate), AskedAfter(asked, step, now), now, timeout)
  {
  }

  lemma EffectNotStale(c: Cluster, step: Step, electorate: nat -> set<Node>, asked: seq<int>, before: int, now: int,
                       timeout: nat)
    requires Inv(c, electorate) && Enabled(c, step, electorate) && NothingStale(c, asked, before, timeout)
    requires before <= now
    requires Patient(step, asked, now, timeout) && Prompt(c, step, asked, now, timeout)
    ensures Harmless(EffectOf(c, step, electorate), AskedAfter(asked, step, now), now, timeout)
  {
    hide NothingStale, Patient, Prompt, Harmless;
    if step.Deliver? {
      assert AskedAfter(asked, step, now) == asked;
      if step.m.payload.AuthAck? {
        AckIsHarmless(c, step.m, step.trust, electorate, asked, before, now, timeout);
      } else {
        PacketIsHarmless(c, step.m, step.trust, asked, before, now, timeout);
      }
    } else {
      OtherIsHarmless(c, step, electorate, asked, before, now, timeout);
    }
  }

  lemma HarmlessKeeps(c: Cluster, e: Effect, asked: seq<int>, later: seq<int>, before: int, now: int, timeout: nat)
    requires |c.nodes| == |c.counted| == |c.stale| == |later| && NothingStale(c, asked, before, timeout)
    requires before <= now
    requires Harmless(e, later, now, timeout) && forall n :: 0 <= n < |asked| && n != e.n ==> later[n] == asked[n]
    ensures NothingStale(Apply(c, e), later, now, timeout)
  {
  }

  lemma OnlyOneAsks(c: Cluster, step: Step, electorate: nat -> set<Node>, asked: seq<int>, now: int)
    requires WellFormed(c) && Enabled(c, step, electorate)
    ensures |AskedAfter(asked, step, now)| == |asked|
    ensures forall n :: 0 <= n < |asked| && n != EffectOf(c, step, electorate).n ==>
              AskedAfter(asked, step, now)[n] == asked[n]
  {
    hide PacketEffect;
  }

  lemma StepNotStale(c: Cluster, step: Step, d: Cluster, electorate: nat -> set<Node>, asked: seq<int>, before: int,
                     now: int, timeout: nat)
    requires Inv(c, electorate) && Follows(c, step, d, electorate) && NothingStale(c, asked, before, timeout)
    requires before <= now && Patient(step, asked, now, timeout) && Prompt(c, step, asked, now, timeout)
    ensures NothingStale(d, AskedAfter(asked, step, now), now, timeout)
  {
    assert WellFormed(c) && |c.nodes| == |c.counted| == |c.stale| == |asked|;
    hide Inv, Enabled, EffectOf, Patient, Prompt, NothingStale, Harmless, AskedAfter, Apply, WellFormed;
    EffectNotStale(c, step, electorate, asked, before, now, timeout);
    OnlyOneAsks(c, step, electorate, asked, now);
    var e := EffectOf(c, step, electorate);
    HarmlessKeeps(c, e, asked, AskedAfter(asked, step, now), before, now, timeout);
  }

  lemma StartNotStale(states: seq<Cluster>, steps: seq<Step>, electorate: nat -> set<Node>, times: seq<int>,
                      asked: seq<seq<int>>, start: int, timeout: nat)
    requires IsRun(states, steps, electorate) && Timely(states, steps, times, asked, start, timeout)
    ensures |states| == |asked| == |times| + 1 && NothingStale(states[0], asked[0], Before(start, times, 0), timeout)
  {
  }

  /** All that is known about step `i`. */
  lemma StepOf(states: seq<Cluster>, steps: seq<Step>, electorate: nat -> set<Node>, times: seq<int>,
               asked: seq<seq<int>>, start: int, timeout: nat, i: nat)
    requires IsRun(states, steps, electorate) && Timely(states, steps, times, asked, start, timeout) && i < |steps|
    ensures |states| == |asked| == |steps| + 1 && |times| == |steps|
    ensures Follows(states[i], steps[i], states[i + 1], electorate)
    ensures Before(start, times, i) <= times[i] == Before(start, times, i + 1)
    ensures asked[i + 1] == AskedAfter(asked[i], steps[i], times[i])
    ensures Patient(steps[i], asked[i], times[i], timeout) && Prompt(states[i], steps[i], asked[i], times[i], timeout)
  {
    hide Follows, Patient, Prompt, Initial, AskedAfter;
  }

  lemma {:induction false} NeverStale(states: seq<Cluster>, steps: seq<Step>, electorate: nat -> set<Node>,
                                      times: seq<int>,
                                      asked: seq<seq<int>>, start: int, timeout: nat, k: nat)
    requires IsRun(states, steps, electorate) && Timely(states, steps, times, asked, start, timeout) && k < |states|
    ensures |states| == |asked| == |times| + 1
    ensures NothingStale(states[k], asked[k], Before(start, times, k), timeout)
    decreases k
  {
    hide *;
    StartNotStale(states, steps, electorate, times, asked, start, timeout);
    if k > 0 {
      var i := k - 1;
      assert i < |steps| by {
        RunLength(states, steps, electorate);
      }
      NeverStale(states, steps, electorate, times, asked, start, timeout, i);
      ReachableInv(states, steps, electorate, i);
      StepOf(states, steps, electorate, times, asked, start, timeout, i);
      StepNotStale(states[i], steps[i], states[k], electorate, asked[i], Before(start, times, i), times[i], timeout);
    }
  }

  /** In every timely run the counter is exact, and at most one node wins an epoch. */
  lemma SafetyByTiming(states: seq<Cluster>, steps: seq<Step>, electorate: nat -> set<Node>, times: seq<int>,
                       asked: seq<seq<int>>, start: int, timeout: nat, k: nat, a: Win, b: Win)
    requires IsRun(states, steps, electorate) && Timely(states, steps, times, asked, start, timeout)
    requires k < |states| && a in states[k].wins && b in states[k].wins && a.epoch == b.epoch
    ensures a.node == b.node && a.stale == 0 && forall n :: n in states[k].stale ==> n == 0
  {
    NeverStale(states, steps, electorate, times, asked, start, timeout, k);
    hide IsRun, Timely;
    ElectionSafety(states, steps, electorate, k, a, b);
  }
}
