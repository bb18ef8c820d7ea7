/** The resolution of configEpoch collisions terminates: whatever PINGs arrive, in whatever order, late
    or twice, a node moves its configEpoch at most once for every node of greater name. */
module ClusterCollision {
  import opened Basics
  import opened ClusterEpochs

  type State = Local<nat>

  /** Nodes in the order of their names. `past[s]` holds every configEpoch node s ever had, hence every
      one that a PING of s still in flight may carry; `acts[s]` counts how often s took a new one. */
  datatype Net = Net(nodes: seq<State>, past: seq<set<nat>>, acts: seq<nat>)

  /** Node `dst` processes a PING of `src` that carries `config`, an epoch `src` has or once had. The PING of a
      slave carries that of its master, hence anything. */
  datatype Exchange = Exchange(dst: nat, src: nat, current: nat, config: nat, senderIsMaster: bool)

  function Own(l: State): nat
    requires l.Valid()
  {
    l.epochs[l.me]
  }

  ghost predicate WellFormed(net: Net) {
    && |net.nodes| == |net.past| == |net.acts|
    && forall i :: 0 <= i < |net.nodes| ==> IsNode(net.nodes[i], i, |net.nodes|)
  }

  ghost predicate IsNode(l: State, i: nat, n: nat) {
    l.Valid() && l.me == i && forall k: nat :: k in l.epochs <==> k < n
  }

  ghost predicate Possible(net: Net, x: Exchange)
    requires WellFormed(net)
  {
    && x.dst < |net.nodes| && x.src < |net.nodes| && x.src != x.dst
    && (x.senderIsMaster ==> x.config in net.past[x.src])
  }

  function After(net: Net, x: Exchange): State
    requires x.dst < |net.nodes| && net.nodes[x.dst].Valid() && x.src in net.nodes[x.dst].epochs
  {
    net.nodes[x.dst].SeePing(x.src, x.current, x.config, x.senderIsMaster, x.src > x.dst)
  }

  ghost predicate Acts(net: Net, x: Exchange)
    requires WellFormed(net) && Possible(net, x)
  {
    Own(After(net, x)) != Own(net.nodes[x.dst])
  }

  ghost function Take(net: Net, x: Exchange): Net
    requires WellFormed(net) && Possible(net, x)
  {
    var l := After(net, x);
    Net(net.nodes[x.dst := l],
        net.past[x.dst := net.past[x.dst] + {Own(l)}],
        net.acts[x.dst := net.acts[x.dst] + if Acts(net, x) then 1 else 0])
  }

  ghost predicate Initial(net: Net) {
    && WellFormed(net)
    && forall i :: 0 <= i < |net.nodes| ==>
         net.past[i] == {Own(net.nodes[i])} && net.acts[i] == 0 && Own(net.nodes[i]) <= net.nodes[i].currentEpoch
  }

  /** What a node recorded about another is never ahead of that node. */
  ghost predicate RecordsArePast(net: Net)
    requires WellFormed(net)
  {
    forall i, s :: 0 <= i < |net.nodes| && 0 <= s < |net.nodes| ==>
      net.nodes[i].epochs[s] <= Own(net.nodes[s])
  }

  // ---------------------------------------------------------------- the invariant

  function Below(past: set<nat>, bound: nat): set<nat> {
    set e | e in past && e < bound
  }

  /** Every epoch that some node from `from` on has had. */
  function Seen(past: seq<set<nat>>, from: nat): set<nat>
    requires from <= |past|
    decreases |past| - from
  {
    if from == |past| then {} else past[from] + Seen(past, from + 1)
  }

  /** Every epoch a node has left is one that a greater node had too, and the node has acted at most once for
      each of those that it has passed. */
  ghost predicate Inv(net: Net) {
    && WellFormed(net)
    && forall i :: 0 <= i < |net.nodes| ==> NodeInv(net.nodes[i], i, net.past, net.acts[i])
  }

  ghost predicate NodeInv(l: State, i: nat, past: seq<set<nat>>, acts: nat)
    requires l.Valid() && i < |past|
  {
    && Own(l) <= l.currentEpoch
    && Own(l) in past[i]
    && (forall e :: e in past[i] ==> e <= Own(l) && (e == Own(l) || e in Seen(past, i + 1)))
    && acts <= |Below(Seen(past, i + 1), Own(l))|
  }

  lemma BelowGrows(past: set<nat>, more: set<nat>, bound: nat, higher: nat)
    requires past <= more && bound <= higher
    ensures |Below(past, bound)| <= |Below(more, higher)|
    ensures bound in more && bound < higher ==> |Below(past, bound)| + 1 <= |Below(more, higher)|
  {
    SubsetSize(Below(past, bound), Below(more, higher));
    if bound in more && bound < higher {
      SubsetSize(Below(past, bound) + {bound}, Below(more, higher));
    }
  }

  lemma {:induction false} SeenGrows(past: seq<set<nat>>, more: seq<set<nat>>, from: nat)
    requires |past| == |more| && from <= |past| && forall s :: from <= s < |past| ==> past[s] <= more[s]
    ensures Seen(past, from) <= Seen(more, from)
    decreases |past| - from
  {
    if from < |past| {
      SeenGrows(past, more, from + 1);
    }
  }

  lemma {:induction false} SeenHas(past: seq<set<nat>>, from: nat, s: nat)
    requires from <= s < |past|
    ensures past[s] <= Seen(past, from)
    decreases s - from
  {
    if from < s {
      SeenHas(past, from + 1, s);
    }
  }

  lemma ActRaises(net: Net, x: Exchange)
    requires Inv(net) && Possible(net, x)
    ensures IsNode(After(net, x), x.dst, |net.nodes|)
    ensures Own(After(net, x)) <= After(net, x).currentEpoch
    ensures Own(net.nodes[x.dst]) <= Own(After(net, x))
    ensures Acts(net, x) ==> x.src > x.dst && x.config == Own(net.nodes[x.dst]) < Own(After(net, x))
    ensures forall k :: k in After(net, x).epochs && k != x.dst ==>
              || After(net, x).epochs[k] <= net.nodes[x.dst].epochs[k]
              || (k == x.src && After(net, x).epochs[k] == x.config)
  {
  }

  /** Who moves: a master that hears its own configEpoch from a master of greater name which it does not
      know to be further. The PINGs of slaves, which carry the configEpoch of their masters, move nobody. */
  lemma ActsExactly(net: Net, x: Exchange)
    requires Inv(net) && Possible(net, x)
    ensures Acts(net, x) <==>
              && x.senderIsMaster && net.nodes[x.dst].isMaster && x.dst < x.src
              && x.config == net.nodes[x.dst].epochs[x.dst] && net.nodes[x.dst].epochs[x.src] <= x.config
  {
    assert NodeInv(net.nodes[x.dst], x.dst, net.past, net.acts[x.dst]);
  }

  lemma ActorKeepsInv(net: Net, x: Exchange)
    requires Inv(net) && Possible(net, x)
    ensures var next := Take(net, x);
            NodeInv(next.nodes[x.dst], x.dst, next.past, next.acts[x.dst])
  {
    var next, i := Take(net, x), x.dst;
    ActRaises(net, x);
    assert NodeInv(net.nodes[i], i, net.past, net.acts[i]);
    var seen, more := Seen(net.past, i + 1), Seen(next.past, i + 1);
    SeenGrows(net.past, next.past, i + 1);
    if Acts(net, x) {
      SeenHas(net.past, i + 1, x.src);
    }
    BelowGrows(seen, more, Own(net.nodes[i]), Own(next.nodes[i]));
  }

  lemma StepKeepsInv(net: Net, x: Exchange)
    requires Inv(net) && Possible(net, x)
    ensures Inv(Take(net, x))
  {
    var next := Take(net, x);
    ActRaises(net, x);
    forall j | 0 <= j < |next.nodes| ensures NodeInv(next.nodes[j], j, next.past, next.acts[j]) {
      if j == x.dst {
        ActorKeepsInv(net, x);
      } else {
        assert NodeInv(net.nodes[j], j, net.past, net.acts[j]);
        SeenGrows(net.past, next.past, j + 1);
        var own := Own(net.nodes[j]);
        BelowGrows(Seen(net.past, j + 1), Seen(next.past, j + 1), own, own);
      }
    }
  }

  lemma StepKeepsRecords(net: Net, x: Exchange)
    requires Inv(net) && Possible(net, x) && RecordsArePast(net) && x.senderIsMaster
    ensures WellFormed(Take(net, x)) && RecordsArePast(Take(net, x))
  {
    var next := Take(net, x);
    StepKeepsInv(net, x);
    ActRaises(net, x);
    assert NodeInv(net.nodes[x.src], x.src, net.past, net.acts[x.src]);
  }

  // ---------------------------------------------------------------- runs

  ghost predicate Legal(net: Net, run: seq<Exchange>)
    decreases |run|
  {
    WellFormed(net) && (run == [] || (Possible(net, run[0]) && Legal(Take(net, run[0]), run[1..])))
  }

  ghost function Final(net: Net, run: seq<Exchange>): Net
    requires Legal(net, run)
    decreases |run|
  {
    if run == [] then net else Final(Take(net, run[0]), run[1..])
  }

  lemma {:induction false} RunKeepsInv(net: Net, run: seq<Exchange>)
    requires Inv(net) && Legal(net, run)
    ensures Inv(Final(net, run)) && |Final(net, run).nodes| == |net.nodes|
    decreases |run|
  {
    if run != [] {
      StepKeepsInv(net, run[0]);
      RunKeepsInv(Take(net, run[0]), run[1..]);
    }
  }

  lemma {:induction false} RunKeepsRecords(net: Net, run: seq<Exchange>)
    requires Inv(net) && RecordsArePast(net) && Legal(net, run) && forall x :: x in run ==> x.senderIsMaster
    ensures Inv(Final(net, run)) && RecordsArePast(Final(net, run))
    decreases |run|
  {
    hide RecordsArePast;
    if run != [] {
      StepKeepsInv(net, run[0]);
      StepKeepsRecords(net, run[0]);
      RunKeepsRecords(Take(net, run[0]), run[1..]);
    }
  }

  lemma InitialInv(net: Net)
    requires Initial(net)
    ensures Inv(net)
  {
  }

  /** A node adds at most one epoch to those that the greater ones have had. */
  lemma {:induction false} FewEpochs(net: Net, from: nat)
    requires Inv(net) && from <= |net.nodes|
    ensures |Seen(net.past, from)| <= |net.nodes| - from
    decreases |net.nodes| - from
  {
    if from < |net.nodes| {
      FewEpochs(net, from + 1);
      assert NodeInv(net.nodes[from], from, net.past, net.acts[from]);
      SubsetSize(Seen(net.past, from), {Own(net.nodes[from])} + Seen(net.past, from + 1));
    }
  }

  lemma NodeActsBound(net: Net, i: nat)
    requires Inv(net) && i < |net.nodes|
    ensures i < |net.acts| && net.acts[i] <= |net.nodes| - 1 - i
  {
    assert NodeInv(net.nodes[i], i, net.past, net.acts[i]);
    var seen := Seen(net.past, i + 1);
    SubsetSize(Below(seen, Own(net.nodes[i])), seen);
    FewEpochs(net, i + 1);
  }

  /** In every run, however long, a node acts at most once for each node of greater name. */
  lemma CollisionsTerminate(net: Net, run: seq<Exchange>, i: nat)
    requires Initial(net) && Legal(net, run) && i < |net.nodes|
    ensures i < |Final(net, run).acts| && Final(net, run).acts[i] <= |net.nodes| - 1 - i
  {
    InitialInv(net);
    RunKeepsInv(net, run);
    ghost var end := Final(net, run);
    assert Inv(end) && |end.nodes| == |net.nodes|;
    hide *;
    NodeActsBound(end, i);
  }

  // ---------------------------------------------------------------- the bound is reached

  /** The nodes above `i` have acted as often as they can, node i `e` times, and those below not at all. */
  ghost predicate Climbed(net: Net, i: nat, e: nat) {
    && WellFormed(net) && i < |net.nodes|
    && forall j :: 0 <= j < |net.nodes| ==>
         var acts := if j > i then |net.nodes| - 1 - j else if j == i then e else 0;
         && net.nodes[j].isMaster && net.acts[j] == Own(net.nodes[j]) == acts && acts in net.past[j]
         && (j <= i ==> net.nodes[j].currentEpoch == acts && forall k: nat :: k < |net.nodes| ==>
                                                                net.nodes[j].epochs[k] <= acts)
  }

  lemma ClimbsOne(net: Net, i: nat, e: nat) returns (x: Exchange)
    requires WellFormed(net) && Climbed(net, i, e) && i + e + 1 < |net.nodes|
    ensures Possible(net, x) && Climbed(Take(net, x), i, e + 1) && |Take(net, x).nodes| == |net.nodes|
  {
    x := Exchange(i, |net.nodes| - 1 - e, e, e, true);
  }

  lemma ClimbsNext(net: Net, i: nat)
    requires 0 < i < |net.nodes| && Climbed(net, i, |net.nodes| - 1 - i)
    ensures Climbed(net, i - 1, 0)
  {
  }

  lemma {:induction false} Climb(net: Net, i: nat, e: nat) returns (run: seq<Exchange>)
    requires WellFormed(net) && Climbed(net, i, e) && i + e < |net.nodes|
    ensures Legal(net, run) && |Final(net, run).nodes| == |net.nodes|
    ensures Climbed(Final(net, run), 0, |net.nodes| - 1)
    decreases i, |net.nodes| - e
  {
    hide Climbed, Take, Possible, WellFormed;
    if e < |net.nodes| - 1 - i {
      var x := ClimbsOne(net, i, e);
      var rest := Climb(Take(net, x), i, e + 1);
      run := [x] + rest;
      assert run[0] == x && run[1..] == rest;
    } else if i > 0 {
      ClimbsNext(net, i);
      run := Climb(net, i - 1, 0);
    } else {
      run := [];
    }
  }

  function Zeros(n: nat): (z: map<nat, nat>)
    ensures forall k: nat :: (k in z <==> k < n) && (k in z ==> z[k] == 0)
  {
    if n == 0 then map[] else Zeros(n - 1)[n - 1 := 0]
  }

  function Beginner(n: nat, j: nat): State {
    Local(j, true, None, 0, 0, 0, 0, 0, false, Zeros(n))
  }

  /** For any number of masters that start with the same configEpoch there is a run in which each acts once
      for every one of greater name. */
  lemma BoundIsReached(n: nat) returns (net: Net, run: seq<Exchange>)
    requires n > 0
    ensures Initial(net) && RecordsArePast(net) && Legal(net, run) && |net.nodes| == |Final(net, run).acts| == n
    ensures forall i :: 0 <= i < n ==> Final(net, run).acts[i] == n - 1 - i
  {
    net := Net(seq(n, j requires 0 <= j < n => Beginner(n, j)), seq(n, _ => {0}), seq(n, _ => 0));
    run := Climb(net, n - 1, 0);
  }

  /** The node with the greatest name keeps its configEpoch for ever. */
  lemma {:induction false} GreatestNeverMoves(net: Net, run: seq<Exchange>)
    requires Inv(net) && Legal(net, run) && |net.nodes| > 0
    ensures |Final(net, run).nodes| == |net.nodes| && WellFormed(Final(net, run))
    ensures Own(Final(net, run).nodes[|net.nodes| - 1]) == Own(net.nodes[|net.nodes| - 1])
    decreases |run|
  {
    if run != [] {
      ActRaises(net, run[0]);
      StepKeepsInv(net, run[0]);
      GreatestNeverMoves(Take(net, run[0]), run[1..]);
    }
  }

  /** No node would act on hearing the present configEpoch of any master. */
  ghost predicate Settled(net: Net)
    requires WellFormed(net)
  {
    forall i, s :: 0 <= i < |net.nodes| && 0 <= s < |net.nodes| && i != s ==>
      Quiet(net, Exchange(i, s, net.nodes[s].currentEpoch, Own(net.nodes[s]), true))
  }

  ghost predicate Quiet(net: Net, x: Exchange)
    requires WellFormed(net) && x.dst < |net.nodes| && x.src < |net.nodes|
  {
    Own(After(net, x)) == Own(net.nodes[x.dst])
  }

  ghost predicate Distinct(net: Net)
    requires WellFormed(net)
  {
    forall i, s :: 0 <= i < |net.nodes| && 0 <= s < |net.nodes| && i != s ==>
      Own(net.nodes[i]) != Own(net.nodes[s])
  }

  lemma PairIsQuiet(net: Net, i: nat, s: nat)
    requires Inv(net) && RecordsArePast(net) && i < |net.nodes| && s < |net.nodes| && i != s
    requires net.nodes[i].isMaster
    ensures Quiet(net, Exchange(i, s, net.nodes[s].currentEpoch, Own(net.nodes[s]), true))
            <==> !(i < s && Own(net.nodes[i]) == Own(net.nodes[s]))
  {
  }

  /** After any run among masters, nothing is left to resolve exactly when all configEpochs differ. */
  lemma SettledIffDistinct(net: Net, run: seq<Exchange>)
    requires Initial(net) && RecordsArePast(net) && Legal(net, run)
    requires forall i :: 0 <= i < |Final(net, run).nodes| ==> Final(net, run).nodes[i].isMaster
    requires forall x :: x in run ==> x.senderIsMaster
    ensures WellFormed(Final(net, run)) && (Settled(Final(net, run)) <==> Distinct(Final(net, run)))
  {
    InitialInv(net);
    RunKeepsInv(net, run);
    RunKeepsRecords(net, run);
    var end := Final(net, run);
    forall i: nat, s: nat | i < |end.nodes| && s < |end.nodes| && i != s
      ensures Quiet(end, Exchange(i, s, end.nodes[s].currentEpoch, Own(end.nodes[s]), true))
              <==> !(i < s && Own(end.nodes[i]) == Own(end.nodes[s]))
    {
      PairIsQuiet(end, i, s);
    }
  }
}
