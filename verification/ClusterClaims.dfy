/** Slot claims: who owns which slot after the PINGs, PONGs and UPDATEs of several masters, and why the
    order in which they arrive does not matter. */
module ClusterClaims {
  import opened Basics

  /** One node's picture: the owner of every assigned slot and the configEpoch of every node. */
  datatype View<N(==)> = View(owners: map<nat, N>, epochs: map<N, nat>)
  {
    ghost predicate Valid() {
      forall j :: j in owners ==> owners[j] in epochs
    }
  }

  /** The slots that pass to `sender` when it claims `claimed` under `epoch`. */
  function Taken<N(==)>(v: View<N>, importing: set<nat>, sender: N, epoch: nat, claimed: set<nat>): set<nat>
    requires v.Valid()
  {
    set j | j in claimed && j !in importing &&
            (j in v.owners ==> v.owners[j] != sender && v.epochs[v.owners[j]] < epoch)
  }

  /** Rebinding the slots that a configuration of `sender` takes from older ones. */
  function Rebind<N(==)>(v: View<N>, importing: set<nat>, sender: N, epoch: nat, claimed: set<nat>): (r: View<N>)
    requires v.Valid() && sender in v.epochs
    ensures r.Valid() && r.epochs == v.epochs
  {
    v.(owners := v.owners + map j | j in Taken(v, importing, sender, epoch, claimed) :: sender)
  }

  function Raise<N(==)>(v: View<N>, sender: N, epoch: nat): (r: View<N>)
    requires v.Valid() && sender in v.epochs
    ensures r.Valid() && r.epochs.Keys == v.epochs.Keys
  {
    v.(epochs := v.epochs[sender := Max(v.epochs[sender], epoch)])
  }

  datatype Claim<N> = Claim(sender: N, epoch: nat, slots: set<nat>)

  /** A PING or PONG of a master: its epoch is recorded, then its slots are rebound. */
  function Receive<N(==)>(v: View<N>, importing: set<nat>, c: Claim<N>): (r: View<N>)
    requires v.Valid() && c.sender in v.epochs
    ensures r.Valid() && r.epochs.Keys == v.epochs.Keys
  {
    Rebind(Raise(v, c.sender, c.epoch), importing, c.sender, c.epoch, c.slots)
  }

  /** The code skips the rebinding when the claimed bitmap is the one it has: that changes nothing. */
  lemma UnchangedBitmapChangesNothing<N>(v: View<N>, importing: set<nat>, sender: N, epoch: nat, claimed: set<nat>)
    requires v.Valid() && sender in v.epochs
    requires claimed == set j | j in v.owners && v.owners[j] == sender
    ensures Rebind(v, importing, sender, epoch, claimed) == v
  {
  }

  // ---------------------------------------------------------------- many claims

  /** The picture after the claims `cs` arrived in that order at a node that imports no slot. */
  function ReceiveAll<N(==)>(v: View<N>, cs: seq<Claim<N>>): (r: View<N>)
    requires v.Valid() && forall c :: c in cs ==> c.sender in v.epochs
    ensures r.Valid() && r.epochs.Keys == v.epochs.Keys
  {
    if cs == [] then v else Receive(ReceiveAll(v, cs[..|cs| - 1]), {}, cs[|cs| - 1])
  }

  /** Every master claims under one epoch of its own. */
  ghost predicate Coherent<N(!new)>(cs: set<Claim<N>>) {
    forall c, d :: c in cs && d in cs && (c.sender == d.sender || c.epoch == d.epoch) ==> c == d
  }

  /** No recorded epoch is ahead of what its node claims. */
  ghost predicate NotAhead<N(!new)>(v: View<N>, cs: set<Claim<N>>) {
    forall c :: c in cs ==> c.sender in v.epochs && v.epochs[c.sender] <= c.epoch
  }

  /** Moreover no slot is assigned. */
  ghost predicate Fresh<N(!new)>(v: View<N>, cs: set<Claim<N>>) {
    v.owners == map[] && NotAhead(v, cs)
  }

  /** `c` is the newest configuration in `cs` that claims slot j. */
  ghost predicate Newest<N(!new)>(cs: set<Claim<N>>, j: nat, c: Claim<N>) {
    c in cs && j in c.slots && forall d :: d in cs && j in d.slots ==> d.epoch <= c.epoch
  }

  function Elements<N(==)>(cs: seq<Claim<N>>): set<Claim<N>> {
    set c | c in cs
  }

  /** Slot j is unassigned if nobody claimed it and otherwise belongs to the newest claimant. */
  ghost predicate OwnedByNewest<N(!new)>(v: View<N>, cs: set<Claim<N>>, j: nat) {
    && (j in v.owners <==> exists c :: c in cs && j in c.slots)
    && (j in v.owners ==> exists c :: Newest(cs, j, c) && c.sender == v.owners[j])
  }

  ghost predicate EpochsOf<N(!new)>(v: View<N>, before: View<N>, seen: set<Claim<N>>) {
    && v.epochs.Keys == before.epochs.Keys
    && (forall c :: c in seen ==> c.sender in v.epochs && v.epochs[c.sender] == c.epoch)
    && forall n :: n in v.epochs && (forall c :: c in seen ==> c.sender != n) ==> v.epochs[n] == before.epochs[n]
  }

  // ---------------------------------------------------------------- where one slot goes

  function OwnerAt<N>(v: View<N>, j: nat): Option<N> {
    if j in v.owners then Some(v.owners[j]) else None
  }

  /** The claim is newer than what the table has for slot j. */
  predicate Beats<N>(v: View<N>, c: Claim<N>, j: nat)
    requires v.Valid()
  {
    j in c.slots && (j in v.owners ==> v.epochs[v.owners[j]] < c.epoch)
  }

  /** The owner of slot j raises its epoch without claiming the slot, and the newest claim on the slot
      lies between its old epoch and its new one. */
  ghost predicate Contested<N(!new)>(v: View<N>, cs: set<Claim<N>>, j: nat)
    requires v.Valid()
  {
    j in v.owners && exists m, c :: Newest(cs, j, m) && Beats(v, m, j) && Outranks(cs, c, m, v.owners[j])
  }

  predicate Outranks<N(==)>(cs: set<Claim<N>>, c: Claim<N>, m: Claim<N>, n: N) {
    c in cs && c.sender == n && m.epoch < c.epoch
  }

  lemma {:induction false} ReceiveAllEpochs<N(!new)>(v: View<N>, cs: seq<Claim<N>>)
    requires v.Valid() && NotAhead(v, Elements(cs)) && Coherent(Elements(cs))
    requires forall c :: c in cs ==> c.sender in v.epochs
    ensures EpochsOf(ReceiveAll(v, cs), v, Elements(cs))
  {
    if cs != [] {
      var init, last := cs[..|cs| - 1], cs[|cs| - 1];
      assert cs == init + [last] && Elements(cs) == Elements(init) + {last};
      ReceiveAllEpochs(v, init);
    }
  }

  lemma ReceiveAt<N>(v: View<N>, c: Claim<N>, j: nat)
    requires v.Valid() && c.sender in v.epochs
    ensures OwnerAt(Receive(v, {}, c), j) == if Beats(v, c, j) then Some(c.sender) else OwnerAt(v, j)
  {
  }

  /** Nobody but its owner claims slot j under a newer epoch: it stays where it is. */
  lemma {:induction false} Stays<N(!new)>(v: View<N>, cs: seq<Claim<N>>, j: nat)
    requires v.Valid() && forall c :: c in cs ==> c.sender in v.epochs && !Beats(v, c, j)
    ensures var r := ReceiveAll(v, cs);
            && OwnerAt(r, j) == OwnerAt(v, j)
            && (j in v.owners ==> v.epochs[v.owners[j]] <= r.epochs[v.owners[j]])
  {
    if cs != [] {
      var init, last := cs[..|cs| - 1], cs[|cs| - 1];
      assert cs == init + [last];
      Stays(v, init, j);
      ReceiveAt(ReceiveAll(v, init), last, j);
    }
  }

  /** Slot j on its way to the newest claimant: it is there once the claim `m` arrived, and before that
      its owner's epoch is lower. */
  ghost predicate OnItsWay<N(!new)>(v: View<N>, r: View<N>, seen: set<Claim<N>>, m: Claim<N>, j: nat)
    requires r.Valid()
  {
    if m in seen then OwnerAt(r, j) == Some(m.sender)
    else j in r.owners ==>
           && r.epochs[r.owners[j]] < m.epoch
           && (OwnerAt(v, j) == Some(r.owners[j]) || exists d :: d in seen && j in d.slots && d.sender == r.owners[j])
  }

  lemma OneNearer<N(!new)>(v: View<N>, r: View<N>, cs: set<Claim<N>>, seen: set<Claim<N>>, c: Claim<N>, m: Claim<N>,
                           j: nat)
    requires r.Valid() && Coherent(cs) && seen <= cs && c in cs && Newest(cs, j, m) && EpochsOf(r, v, seen)
    requires NotAhead(v, cs) && c.sender in r.epochs
    requires forall d :: d in cs && OwnerAt(v, j) == Some(d.sender) ==> d.epoch <= m.epoch
    requires OnItsWay(v, r, seen, m, j)
    ensures OnItsWay(v, Receive(r, {}, c), seen + {c}, m, j)
  {
    ReceiveAt(r, c, j);
  }

  lemma {:induction false} Arrives<N(!new)>(v: View<N>, cs: set<Claim<N>>, part: seq<Claim<N>>, m: Claim<N>, j: nat)
    requires v.Valid() && Coherent(cs) && NotAhead(v, cs) && Elements(part) <= cs && Newest(cs, j, m) && Beats(v, m, j)
    requires forall d :: d in cs && OwnerAt(v, j) == Some(d.sender) ==> d.epoch <= m.epoch
    requires forall c :: c in part ==> c.sender in v.epochs
    ensures OnItsWay(v, ReceiveAll(v, part), Elements(part), m, j)
  {
    if part != [] {
      var init, last := part[..|part| - 1], part[|part| - 1];
      assert part == init + [last] && Elements(part) == Elements(init) + {last};
      assert last in Elements(part);
      Arrives(v, cs, init, m, j);
      ReceiveAllEpochs(v, init);
      OneNearer(v, ReceiveAll(v, init), cs, Elements(init), last, m, j);
    }
  }

  lemma {:induction false} NewestExists<N(!new)>(cs: set<Claim<N>>, j: nat) returns (m: Claim<N>)
    requires exists c :: c in cs && j in c.slots
    ensures Newest(cs, j, m)
    decreases |cs|
  {
    var c :| c in cs && j in c.slots;
    m := c;
    if exists d :: d in cs - {c} && j in d.slots {
      var d := NewestExists(cs - {c}, j);
      m := if d.epoch > c.epoch then d else c;
    }
  }

  /** Slot j goes to the newest claimant when its claim is newer than what the table has, and stays otherwise. */
  ghost predicate SettledOn<N(!new)>(v: View<N>, cs: set<Claim<N>>, owner: Option<N>, j: nat)
    requires v.Valid()
  {
    if exists c :: c in cs && Beats(v, c, j) then exists m :: Newest(cs, j, m) && owner == Some(m.sender)
    else owner == OwnerAt(v, j)
  }

  lemma UncontestedSettles<N(!new)>(v: View<N>, cs: seq<Claim<N>>, j: nat)
    requires v.Valid() && Coherent(Elements(cs)) && NotAhead(v, Elements(cs)) && !Contested(v, Elements(cs), j)
    requires forall c :: c in cs ==> c.sender in v.epochs
    ensures SettledOn(v, Elements(cs), OwnerAt(ReceiveAll(v, cs), j), j)
  {
    var all := Elements(cs);
    if exists c :: c in all && Beats(v, c, j) {
      var m := NewestExists(all, j);
      forall d | d in all && OwnerAt(v, j) == Some(d.sender) ensures d.epoch <= m.epoch {
        assert !Outranks(all, d, m, v.owners[j]);
      }
      Arrives(v, all, cs, m, j);
    } else {
      forall c | c in cs ensures !Beats(v, c, j) {
        assert c in all;
      }
      Stays(v, cs, j);
    }
  }

  // ---------------------------------------------------------------- order independence

  lemma SettledFromNothing<N(!new)>(v: View<N>, all: set<Claim<N>>, r: View<N>, j: nat)
    requires v.Valid() && v.owners == map[] && SettledOn(v, all, OwnerAt(r, j), j)
    ensures OwnedByNewest(r, all, j)
  {
    if c :| c in all && j in c.slots {
      assert Beats(v, c, j);
    }
  }

  /** From an unassigned table every slot goes to its newest claimant. */
  lemma ReceiveAllOwners<N(!new)>(v: View<N>, cs: seq<Claim<N>>, j: nat)
    requires v.Valid() && Fresh(v, Elements(cs)) && Coherent(Elements(cs))
    requires forall c :: c in cs ==> c.sender in v.epochs
    ensures OwnedByNewest(ReceiveAll(v, cs), Elements(cs), j)
    ensures EpochsOf(ReceiveAll(v, cs), v, Elements(cs))
  {
    hide ReceiveAll, OwnedByNewest, SettledOn, Elements;
    ReceiveAllEpochs(v, cs);
    UncontestedSettles(v, cs, j);
    SettledFromNothing(v, Elements(cs), ReceiveAll(v, cs), j);
  }

  /** Two nodes that heard the same claims, in any orders and with any repetitions, own-table equal. */
  lemma SameClaimsSameOwners<N(!new)>(v: View<N>, cs: seq<Claim<N>>, w: View<N>, ds: seq<Claim<N>>)
    requires v.Valid() && w.Valid() && Elements(cs) == Elements(ds) && Coherent(Elements(cs))
    requires Fresh(v, Elements(cs)) && Fresh(w, Elements(ds))
    requires forall c :: c in cs ==> c.sender in v.epochs
    requires forall d :: d in ds ==> d.sender in w.epochs
    ensures ReceiveAll(v, cs).owners == ReceiveAll(w, ds).owners
  {
    var a, b := ReceiveAll(v, cs).owners, ReceiveAll(w, ds).owners;
    forall j: nat ensures j in a <==> j in b
      ensures j in a ==> a[j] == b[j]
    {
      ReceiveAllOwners(v, cs, j);
      ReceiveAllOwners(w, ds, j);
      if j in a {
        var c :| Newest(Elements(cs), j, c) && c.sender == a[j];
        var d :| Newest(Elements(cs), j, d) && d.sender == b[j];
        assert c.epoch == d.epoch;
      }
    }
  }

  lemma PermutedClaimsSameOwners<N(!new)>(v: View<N>, cs: seq<Claim<N>>, ds: seq<Claim<N>>)
    requires v.Valid() && multiset(cs) == multiset(ds) && Coherent(Elements(cs)) && Fresh(v, Elements(cs))
    requires forall c :: c in cs ==> c.sender in v.epochs
    ensures forall d :: d in ds ==> d.sender in v.epochs
    ensures ReceiveAll(v, cs).owners == ReceiveAll(v, ds).owners
  {
    forall c ensures c in cs <==> c in ds {
      assert c in cs <==> c in multiset(cs);
      assert c in ds <==> c in multiset(ds);
    }
    assert Elements(cs) == Elements(ds);
    SameClaimsSameOwners(v, cs, v, ds);
  }

  // ---------------------------------------------------------------- where the order matters

  /** Two orders of the same claims that disagree about slot j. */
  ghost predicate Disagree<N(!new)>(v: View<N>, all: set<Claim<N>>, cs: seq<Claim<N>>, ds: seq<Claim<N>>, j: nat)
    requires v.Valid() && NotAhead(v, all)
  {
    Elements(cs) == Elements(ds) == all && OwnerAfter(v, cs, j) != OwnerAfter(v, ds, j)
  }

  function OwnerAfter<N>(v: View<N>, cs: seq<Claim<N>>, j: nat): Option<N>
    requires v.Valid()
  {
    if forall c :: c in cs ==> c.sender in v.epochs then OwnerAt(ReceiveAll(v, cs), j) else None
  }

  lemma Uncontested<N(!new)>(v: View<N>, cs: seq<Claim<N>>, ds: seq<Claim<N>>, j: nat)
    requires v.Valid() && Coherent(Elements(cs)) && NotAhead(v, Elements(cs)) && Elements(cs) == Elements(ds)
    requires !Contested(v, Elements(cs), j)
    ensures OwnerAfter(v, cs, j) == OwnerAfter(v, ds, j)
  {
    assert forall c :: c in cs ==> c in Elements(cs);
    assert forall d :: d in ds ==> d in Elements(ds);
    UncontestedSettles(v, cs, j);
    UncontestedSettles(v, ds, j);
  }

  lemma OneMore<N>(v: View<N>, cs: seq<Claim<N>>, c: Claim<N>)
    requires v.Valid() && c.sender in v.epochs && forall d :: d in cs ==> d.sender in v.epochs
    ensures forall d :: d in cs + [c] ==> d.sender in v.epochs
    ensures ReceiveAll(v, cs + [c]) == Receive(ReceiveAll(v, cs), {}, c)
  {
    assert (cs + [c])[..|cs|] == cs;
  }

  lemma {:induction false} OneBefore<N>(v: View<N>, c: Claim<N>, cs: seq<Claim<N>>)
    requires v.Valid() && c.sender in v.epochs && forall d :: d in cs ==> d.sender in v.epochs
    ensures forall d :: d in [c] + cs ==> d.sender in v.epochs
    ensures ReceiveAll(v, [c] + cs) == ReceiveAll(Receive(v, {}, c), cs)
  {
    hide Receive;
    if cs == [] {
      OneMore(v, [], c);
      assert [c] + cs == [] + [c];
    } else {
      var init, last := cs[..|cs| - 1], cs[|cs| - 1];
      OneBefore(v, c, init);
      OneMore(v, [c] + init, last);
      assert [c] + cs == ([c] + init) + [last];
    }
  }

  lemma {:induction false} InSomeOrder<N(!new)>(all: set<Claim<N>>) returns (cs: seq<Claim<N>>)
    ensures Elements(cs) == all
    decreases |all|
  {
    cs := [];
    if all != {} {
      var c :| c in all;
      var rest := InSomeOrder(all - {c});
      cs := rest + [c];
      assert Elements(cs) == Elements(rest) + {c};
    }
  }

  /** The raise arrives first and the slot stays, or last and the slot has moved. */
  lemma ContestedDisagree<N(!new)>(v: View<N>, all: set<Claim<N>>, j: nat)
    returns (cs: seq<Claim<N>>, ds: seq<Claim<N>>)
    requires v.Valid() && Coherent(all) && NotAhead(v, all) && Contested(v, all, j)
    ensures Disagree(v, all, cs, ds, j)
  {
    var m, c :| Newest(all, j, m) && Beats(v, m, j) && Outranks(all, c, m, v.owners[j]);
    var others := all - {c};
    var rest := InSomeOrder(others);
    assert forall d :: d in rest ==> d in Elements(rest);
    cs, ds := [c] + rest, rest + [c];
    assert Elements(cs) == Elements(rest) + {c} == all;
    assert Elements(ds) == Elements(rest) + {c} == all;
    RaiseFirst(v, all, c, m, rest, j);
    RaiseLast(v, all, c, m, rest, j);
  }

  lemma RaiseFirst<N(!new)>(v: View<N>, all: set<Claim<N>>, c: Claim<N>, m: Claim<N>, rest: seq<Claim<N>>, j: nat)
    requires v.Valid() && Coherent(all) && NotAhead(v, all) && j in v.owners && Newest(all, j, m)
    requires Outranks(all, c, m, v.owners[j]) && Elements(rest) == all - {c}
    ensures OwnerAfter(v, [c] + rest, j) == Some(c.sender)
  {
    var w := Receive(v, {}, c);
    ReceiveAt(v, c, j);
    forall d | d in rest ensures d.sender in v.epochs && !Beats(w, d, j) {
      assert d in Elements(rest);
    }
    Stays(w, rest, j);
    OneBefore(v, c, rest);
  }

  lemma RaiseLast<N(!new)>(v: View<N>, all: set<Claim<N>>, c: Claim<N>, m: Claim<N>, rest: seq<Claim<N>>, j: nat)
    requires v.Valid() && Coherent(all) && NotAhead(v, all) && j in v.owners && Newest(all, j, m) && Beats(v, m, j)
    requires Outranks(all, c, m, v.owners[j]) && Elements(rest) == all - {c}
    ensures OwnerAfter(v, rest + [c], j) == Some(m.sender) && m.sender != c.sender
  {
    forall d | d in rest + [c] ensures d.sender in v.epochs {
      assert d in Elements(rest) || d == c;
    }
    assert Newest(all - {c}, j, m);
    Arrives(v, all - {c}, rest, m, j);
    assert (rest + [c])[..|rest|] == rest;
    ReceiveAt(ReceiveAll(v, rest), c, j);
  }

  /** The order in which claims arrive decides who owns a slot exactly when the slot is contested. */
  lemma OrderMattersExactlyWhenContested<N(!new)>(v: View<N>, all: set<Claim<N>>, j: nat)
    requires v.Valid() && Coherent(all) && NotAhead(v, all)
    ensures (exists cs, ds :: Disagree(v, all, cs, ds, j)) <==> Contested(v, all, j)
  {
    if Contested(v, all, j) {
      var cs, ds := ContestedDisagree(v, all, j);
    } else {
      forall cs, ds ensures !Disagree(v, all, cs, ds, j) {
        if Elements(cs) == Elements(ds) == all {
          Uncontested(v, cs, ds, j);
        }
      }
    }
  }

  /** A table that earlier claims produced: as long as no master that raised its epoch since gave up a slot,
      the order of the later claims does not matter either. */
  lemma LaterClaimsSameOwners<N(!new)>(v: View<N>, earlier: seq<Claim<N>>, cs: seq<Claim<N>>, ds: seq<Claim<N>>)
    requires v.Valid() && Coherent(Elements(earlier)) && Fresh(v, Elements(earlier))
    requires forall c :: c in earlier ==> c.sender in v.epochs
    requires var table := ReceiveAll(v, earlier);
             Coherent(Elements(cs)) && NotAhead(table, Elements(cs)) && Elements(cs) == Elements(ds)
    requires forall c, d :: c in earlier && d in cs && c.sender == d.sender && c.epoch < d.epoch ==> c.slots <= d.slots
    ensures forall j :: OwnerAfter(ReceiveAll(v, earlier), cs, j) == OwnerAfter(ReceiveAll(v, earlier), ds, j)
  {
    var table := ReceiveAll(v, earlier);
    forall j: nat ensures OwnerAfter(table, cs, j) == OwnerAfter(table, ds, j) {
      ReceiveAllOwners(v, earlier, j);
      EarlierUncontested(v, earlier, table, cs, j);
      Uncontested(table, cs, ds, j);
    }
  }

  lemma EarlierUncontested<N(!new)>(v: View<N>, earlier: seq<Claim<N>>, table: View<N>, cs: seq<Claim<N>>, j: nat)
    requires table.Valid() && OwnedByNewest(table, Elements(earlier), j) && EpochsOf(table, v, Elements(earlier))
    requires forall c, d :: c in earlier && d in cs && c.sender == d.sender && c.epoch < d.epoch ==> c.slots <= d.slots
    ensures !Contested(table, Elements(cs), j)
  {
    if j in table.owners {
      var c :| Newest(Elements(earlier), j, c) && c.sender == table.owners[j];
      forall d | d in cs && d.sender == c.sender && c.epoch < d.epoch ensures j in d.slots {
        assert c in earlier;
      }
    }
  }

  /** Master 0 owns slot 7 under epoch 1. It goes on to epoch 5 without the slot, which master 1 claims
      under epoch 3. */
  lemma RaiseWhileGivingUp()
    ensures var table := ReceiveAll(View(map[], map[0 := 0, 1 := 0]), [Claim(0, 1, {7})]);
            var raise, claim := Claim(0, 5, {}), Claim(1, 3, {7});
            && OwnerAfter(table, [raise, claim], 7) == Some(0)
            && OwnerAfter(table, [claim, raise], 7) == Some(1)
  {
    var start, first := View(map[], map[0 := 0, 1 := 0]), Claim(0, 1, {7});
    var raise, claim := Claim(0, 5, {}), Claim(1, 3, {7});
    OneMore(start, [], first);
    assert [] + [first] == [first];
    var table := ReceiveAll(start, [first]);
    ReceiveAt(start, first, 7);
    assert table.epochs == map[0 := 1, 1 := 0];
    assert OwnerAt(table, 7) == Some(0);
    hide ReceiveAll, Receive, OwnerAfter, Raise, Rebind;
    TwoClaims(table, raise, claim, 7);
    TwoClaims(table, claim, raise, 7);
  }

  /** The two claims meet all that is asked of claims. */
  lemma RaiseIsCoherent()
    ensures var table := ReceiveAll(View(map[], map[0 := 0, 1 := 0]), [Claim(0, 1, {7})]);
            var raise, claim := Claim(0, 5, {}), Claim(1, 3, {7});
            Coherent({raise, claim}) && NotAhead(table, {raise, claim})
  {
    var start, first := View(map[], map[0 := 0, 1 := 0]), Claim(0, 1, {7});
    OneMore(start, [], first);
    assert [] + [first] == [first];
  }

  lemma TwoClaims<N>(v: View<N>, a: Claim<N>, b: Claim<N>, j: nat)
    requires v.Valid() && a.sender in v.epochs && b.sender in v.epochs
    ensures var w := Receive(v, {}, a);
            OwnerAfter(v, [a, b], j) == if Beats(w, b, j) then Some(b.sender) else OwnerAt(w, j)
    ensures OwnerAt(Receive(v, {}, a), j) == if Beats(v, a, j) then Some(a.sender) else OwnerAt(v, j)
    ensures Receive(v, {}, a).epochs == v.epochs[a.sender := Max(v.epochs[a.sender], a.epoch)]
  {
    OneMore(v, [], a);
    OneMore(v, [a], b);
    assert [] + [a] == [a] && [a] + [b] == [a, b];
    ReceiveAt(v, a, j);
    ReceiveAt(Receive(v, {}, a), b, j);
  }
}
