/** The epoch and election fields of a cluster node, and what each handler of cluster.c does to them.
    The class ClusterState is proved to follow these functions; ClusterElection and ClusterCollision
    prove what they guarantee across a whole network. N identifies a node. */
module ClusterEpochs {
  import opened Basics

  /** The part of clusterState that elections and configuration epochs read and write.
      `epochs` is the configEpoch recorded for every known node, `me` included. */
  datatype Local<N(==)> = Local(
    me: N,
    isMaster: bool,
    slaveof: Option<N>,
    numslots: nat,
    currentEpoch: nat,
    lastVoteEpoch: nat,
    authEpoch: nat,
    authCount: nat,
    authSent: bool,
    epochs: map<N, nat>)
  {
    ghost predicate Valid() {
      me in epochs && (slaveof.Some? ==> slaveof.value in epochs)
    }

    /** Everything this node recorded is at most its current epoch. */
    ghost predicate Bounded() {
      && lastVoteEpoch <= currentEpoch
      && authEpoch <= currentEpoch
      && forall n :: n in epochs ==> epochs[n] <= currentEpoch
    }

    /** The configEpoch a message header carries: the master's when this node is a slave. */
    function HeaderEpoch(): nat
      requires Valid()
    {
      if !isMaster && slaveof.Some? then epochs[slaveof.value] else epochs[me]
    }

    /** A header from a known sender raises the current epoch and the sender's recorded epoch. */
    function SeeHeader(sender: N, current: nat, config: nat): Local<N>
      requires Valid() && sender in epochs
    {
      this.(currentEpoch := Max(currentEpoch, current),
            epochs := epochs[sender := Max(epochs[sender], config)])
    }

    predicate Collides(sender: N, senderIsMaster: bool, senderIsGreater: bool)
      requires Valid() && sender in epochs
    {
      epochs[sender] == epochs[me] && senderIsMaster && isMaster && senderIsGreater
    }

    /** Takes the next epoch without asking anybody. */
    function TakeNextEpoch(): Local<N>
      requires Valid()
    {
      this.(currentEpoch := currentEpoch + 1, epochs := epochs[me := currentEpoch + 1])
    }

    /** A PING or PONG: the header, then the collision check. */
    function SeePing(sender: N, current: nat, config: nat, senderIsMaster: bool, senderIsGreater: bool): Local<N>
      requires Valid() && sender in epochs
    {
      var l := SeeHeader(sender, current, config);
      if config == l.epochs[me] && l.Collides(sender, senderIsMaster, senderIsGreater) then l.TakeNextEpoch() else l
    }

    /** clusterGetMaxEpoch() is this node's own configEpoch. */
    ghost predicate IsGreatest()
      requires Valid()
    {
      currentEpoch <= epochs[me] && forall n :: n in epochs ==> epochs[n] <= epochs[me]
    }

    /** The unilateral bump does nothing when this node's configEpoch is already the greatest, unless it is zero. */
    ghost function Bump(): Local<N>
      requires Valid()
    {
      if epochs[me] == 0 || !IsGreatest() then TakeNextEpoch() else this
    }

    /** A configuration of `about` reported by an UPDATE message, ignored unless it is newer. */
    function SeeUpdate(about: N, epoch: nat): Local<N>
      requires Valid() && about in epochs
    {
      if epochs[about] >= epoch then this else this.(epochs := epochs[about := epoch])
    }

    /** Whether the vote that a request of epoch `request` asks for is granted; `agree` stands for
        the checks on the requester and on the slots it claims. */
    predicate Grants(request: nat, agree: bool) {
      isMaster && numslots > 0 && request >= currentEpoch && lastVoteEpoch != currentEpoch && agree
    }

    function CastVote(): Local<N> {
      this.(lastVoteEpoch := currentEpoch)
    }

    /** An acknowledgement whose header carried epoch `current`; `eligible` says that its sender
        is a master with slots. */
    function CountAck(current: nat, eligible: bool): Local<N> {
      if eligible && current >= authEpoch then this.(authCount := authCount + 1) else this
    }

    function Schedule(): Local<N> {
      this.(authCount := 0, authSent := false)
    }

    function StartElection(): Local<N> {
      this.(currentEpoch := currentEpoch + 1, authEpoch := currentEpoch + 1, authSent := true)
    }

    predicate HasQuorum(size: nat) {
      authCount >= size / 2 + 1
    }

    /** What an elected slave records about itself. It takes over `slots` slots. */
    function Promote(slots: nat): Local<N>
      requires Valid()
    {
      this.(isMaster := true, slaveof := None, numslots := slots,
            epochs := epochs[me := Max(epochs[me], authEpoch)])
    }
  }

  // ---------------------------------------------------------------- other names for the nodes

  /** `name` tells the nodes of `s` apart. */
  ghost predicate TellsApart<A, B>(name: A -> B, s: set<A>) {
    forall a, b :: a in s && b in s && name(a) == name(b) ==> a == b
  }

  /** The same state where node n is called name(n). ClusterFailover identifies nodes by reference and the
      networks by number: by the lemmas below every handler does the same under either. */
  function Renamed<A(==), B(==)>(l: Local<A>, name: A -> B): (r: Local<B>)
    requires TellsApart(name, l.epochs.Keys)
  {
    Local(name(l.me), l.isMaster, if l.slaveof.Some? then Some(name(l.slaveof.value)) else None, l.numslots,
          l.currentEpoch, l.lastVoteEpoch, l.authEpoch, l.authCount, l.authSent,
          map n | n in l.epochs :: name(n) := l.epochs[n])
  }

  lemma RenamedEpochs<A, B>(l: Local<A>, name: A -> B)
    requires TellsApart(name, l.epochs.Keys)
    ensures forall n :: n in l.epochs ==> name(n) in Renamed(l, name).epochs
    ensures forall n :: n in l.epochs ==> Renamed(l, name).epochs[name(n)] == l.epochs[n]
    ensures forall k :: k in Renamed(l, name).epochs ==> exists n :: n in l.epochs && name(n) == k
    ensures l.Valid() ==> Renamed(l, name).Valid()
  {
  }

  lemma RenamedUpdate<A, B>(l: Local<A>, name: A -> B, n: A, epoch: nat)
    requires TellsApart(name, l.epochs.Keys) && n in l.epochs
    ensures l.epochs[n := epoch].Keys == l.epochs.Keys
    ensures Renamed(l.(epochs := l.epochs[n := epoch]), name).epochs == Renamed(l, name).epochs[name(n) := epoch]
  {
    var m := l.(epochs := l.epochs[n := epoch]);
    assert m.epochs.Keys == l.epochs.Keys;
    RenamedEpochs(l, name);
    RenamedEpochs(m, name);
    hide Renamed;
    var r, s := Renamed(m, name).epochs, Renamed(l, name).epochs[name(n) := epoch];
    forall k ensures k in r <==> k in s
      ensures k in r ==> r[k] == s[k]
    {
      if k in r {
        var a :| a in m.epochs && name(a) == k;
      }
      if k in s && k != name(n) {
        var a :| a in l.epochs && name(a) == k;
        assert a in m.epochs;
      }
    }
  }

  lemma HeadersUnderNames<A, B>(l: Local<A>, name: A -> B, sender: A, current: nat, config: nat)
    requires l.Valid() && sender in l.epochs && TellsApart(name, l.epochs.Keys)
    ensures var m, r := l.SeeHeader(sender, current, config), Renamed(l, name);
            && m.Valid() && m.epochs.Keys == l.epochs.Keys && r.Valid() && name(sender) in r.epochs
            && Renamed(m, name) == r.SeeHeader(name(sender), current, config)
            && r.HeaderEpoch() == l.HeaderEpoch()
  {
    RenamedEpochs(l, name);
    RenamedUpdate(l, name, sender, Max(l.epochs[sender], config));
  }

  lemma NextEpochUnderNames<A, B>(l: Local<A>, name: A -> B)
    requires l.Valid() && TellsApart(name, l.epochs.Keys)
    ensures var m, r := l.TakeNextEpoch(), Renamed(l, name);
            m.epochs.Keys == l.epochs.Keys && r.Valid() && Renamed(m, name) == r.TakeNextEpoch()
  {
    RenamedEpochs(l, name);
    RenamedUpdate(l, name, l.me, l.currentEpoch + 1);
  }

  /** `greater` says which of the two names is the greater one, so the names have to keep the order. */
  lemma PingsUnderNames<A, B>(l: Local<A>, name: A -> B, sender: A, current: nat, config: nat, isMaster: bool,
                              greater: bool)
    requires l.Valid() && sender in l.epochs && TellsApart(name, l.epochs.Keys)
    ensures var m, r := l.SeePing(sender, current, config, isMaster, greater), Renamed(l, name);
            && m.epochs.Keys == l.epochs.Keys && r.Valid() && name(sender) in r.epochs
            && Renamed(m, name) == r.SeePing(name(sender), current, config, isMaster, greater)
  {
    var h := l.SeeHeader(sender, current, config);
    HeadersUnderNames(l, name, sender, current, config);
    NextEpochUnderNames(h, name);
    RenamedEpochs(h, name);
  }

  lemma GreatestUnderNames<A, B>(l: Local<A>, name: A -> B)
    requires l.Valid() && TellsApart(name, l.epochs.Keys)
    ensures Renamed(l, name).Valid() && (l.IsGreatest() <==> Renamed(l, name).IsGreatest())
  {
    RenamedEpochs(l, name);
    var r := Renamed(l, name);
    assert r.epochs[r.me] == l.epochs[l.me];
    if l.IsGreatest() {
      forall k | k in r.epochs ensures r.epochs[k] <= r.epochs[r.me] {
        var n :| n in l.epochs && name(n) == k;
      }
    }
    if r.IsGreatest() {
      forall n | n in l.epochs ensures l.epochs[n] <= l.epochs[l.me] {
        assert r.epochs[name(n)] == l.epochs[n];
      }
    }
  }

  lemma BumpsUnderNames<A, B>(l: Local<A>, name: A -> B)
    requires l.Valid() && TellsApart(name, l.epochs.Keys)
    ensures var m, r := l.Bump(), Renamed(l, name);
            m.epochs.Keys == l.epochs.Keys && r.Valid() && Renamed(m, name) == r.Bump()
  {
    NextEpochUnderNames(l, name);
    GreatestUnderNames(l, name);
    RenamedEpochs(l, name);
    hide Local.IsGreatest, Local.TakeNextEpoch;
  }

  lemma UpdatesUnderNames<A, B>(l: Local<A>, name: A -> B, about: A, epoch: nat)
    requires l.Valid() && about in l.epochs && TellsApart(name, l.epochs.Keys)
    ensures var m, r := l.SeeUpdate(about, epoch), Renamed(l, name);
            && m.epochs.Keys == l.epochs.Keys && r.Valid() && name(about) in r.epochs
            && Renamed(m, name) == r.SeeUpdate(name(about), epoch)
  {
    RenamedEpochs(l, name);
    RenamedUpdate(l, name, about, epoch);
  }

  lemma PromotionsUnderNames<A, B>(l: Local<A>, name: A -> B, slots: nat)
    requires l.Valid() && TellsApart(name, l.epochs.Keys)
    ensures var m, r := l.Promote(slots), Renamed(l, name);
            m.epochs.Keys == l.epochs.Keys && r.Valid() && Renamed(m, name) == r.Promote(slots)
  {
    RenamedEpochs(l, name);
    RenamedUpdate(l, name, l.me, Max(l.epochs[l.me], l.authEpoch));
  }

  /** Voting, counting and winning. `agree` stands for what the sender's record decides. */
  lemma ElectionsUnderNames<A, B>(l: Local<A>, name: A -> B, epoch: nat, agree: bool, size: nat, slots: nat)
    requires l.Valid() && TellsApart(name, l.epochs.Keys)
    ensures l.Grants(epoch, agree) <==> Renamed(l, name).Grants(epoch, agree)
    ensures Renamed(l.CastVote(), name) == Renamed(l, name).CastVote()
    ensures l.CountAck(epoch, agree).epochs == l.epochs
    ensures Renamed(l.CountAck(epoch, agree), name) == Renamed(l, name).CountAck(epoch, agree)
    ensures Renamed(l.Schedule(), name) == Renamed(l, name).Schedule()
    ensures Renamed(l.StartElection(), name) == Renamed(l, name).StartElection()
    ensures l.HasQuorum(size) <==> Renamed(l, name).HasQuorum(size)
    ensures var m, r := l.Promote(slots), Renamed(l, name);
            m.epochs.Keys == l.epochs.Keys && r.Valid() && Renamed(m, name) == r.Promote(slots)
  {
    hide Local.Promote;
    PromotionsUnderNames(l, name, slots);
  }
}
