/** Consistent hashing: which keys move when a node joins or leaves the ring. */
module Consistent {
  import opened Basics

  // ---------------------------------------------------------------- successors on a ring

  /** `p` is the first point at or behind `h`, going around the ring. */
  ghost predicate IsSuccessor(points: set<nat>, h: nat, p: nat) {
    && p in points
    && forall q :: q in points ==>
         if p >= h then q >= h ==> p <= q else q < h && p <= q
  }

  lemma SuccessorIsUnique(points: set<nat>, h: nat, p: nat, q: nat)
    requires IsSuccessor(points, h, p) && IsSuccessor(points, h, q)
    ensures p == q
  {
  }

  ghost predicate Owns<N>(ring: map<nat, N>, h: nat, n: N) {
    exists p :: IsSuccessor(ring.Keys, h, p) && ring[p] == n
  }

  lemma OneOwner<N>(ring: map<nat, N>, h: nat, n: N, m: N)
    requires Owns(ring, h, n) && Owns(ring, h, m)
    ensures n == m
  {
  }

  // ---------------------------------------------------------------- the ring

  /** The points of a node: the hashes of its name with 0, 1, ... appended. */
  function Points<N>(hash: (N, nat) -> nat, replicas: nat, n: N): set<nat> {
    if replicas == 0 then {} else Points(hash, replicas - 1, n) + {hash(n, replicas - 1)}
  }

  lemma {:induction false} PointsAre<N>(hash: (N, nat) -> nat, replicas: nat, n: N, p: nat)
    ensures p in Points(hash, replicas, n) <==> exists r: nat :: r < replicas && hash(n, r) == p
  {
    if replicas > 0 {
      PointsAre(hash, replicas - 1, n, p);
    }
  }

  function Joined<N>(ring: map<nat, N>, points: set<nat>, n: N): map<nat, N> {
    ring + map p | p in points :: n
  }

  lemma JoinedAt<N>(ring: map<nat, N>, hash: (N, nat) -> nat, replicas: nat, n: N)
    ensures var joined := Joined(ring, Points(hash, replicas, n), n);
            && (forall r: nat :: r < replicas ==> hash(n, r) in joined && joined[hash(n, r)] == n)
            && (forall p :: p in joined && (forall r: nat :: r < replicas ==> hash(n, r) != p) ==>
                  p in ring && joined[p] == ring[p])
            && ring.Keys <= joined.Keys
  {
    forall p ensures p in Points(hash, replicas, n) <==> exists r: nat :: r < replicas && hash(n, r) == p {
      PointsAre(hash, replicas, n, p);
    }
  }

  lemma LeftAt<N>(ring: map<nat, N>, hash: (N, nat) -> nat, replicas: nat, n: N)
    ensures forall p :: p in ring - Points(hash, replicas, n) <==>
                          p in ring && forall r: nat :: r < replicas ==> hash(n, r) != p
  {
    forall p ensures p in Points(hash, replicas, n) <==> exists r: nat :: r < replicas && hash(n, r) == p {
      PointsAre(hash, replicas, n, p);
    }
  }

  datatype Lookup<N> = EmptyRing | Found(node: N)

  class HashRing<N> {
    var ring: map<nat, N>
    const replicas: nat
    const hash: (N, nat) -> nat

    constructor (replicas: nat, hash: (N, nat) -> nat)
      ensures ring == map[] && this.replicas == replicas && this.hash == hash
    {
      ring := map[];
      this.replicas, this.hash := replicas, hash;
    }

    /** The result is the last point; it is anything when there are no replicas. */
    method AddNode(n: N) returns (last: nat)
      modifies this
      ensures ring == Joined(old(ring), Points(hash, replicas, n), n)
      ensures replicas > 0 ==> last == hash(n, replicas - 1) && last in Points(hash, replicas, n) && ring[last] == n
      ensures forall r: nat :: r < replicas ==> hash(n, r) in ring && ring[hash(n, r)] == n
      ensures forall p :: p in ring && (forall r: nat :: r < replicas ==> hash(n, r) != p) ==>
                p in old(ring) && ring[p] == old(ring)[p]
      ensures old(ring).Keys <= ring.Keys
    {
      ghost var before := ring;
      last := *;
      for r := 0 to replicas
        invariant ring == Joined(old(ring), Points(hash, r, n), n) && (r > 0 ==> last == hash(n, r - 1))
      {
        last := hash(n, r);
        ring := ring[last := n];
      }
      JoinedAt(before, hash, replicas, n);
    }

    method RemoveNode(n: N)
      modifies this
      ensures ring == old(ring) - Points(hash, replicas, n)
      ensures forall p :: p in ring <==> p in old(ring) && forall r: nat :: r < replicas ==> hash(n, r) != p
    {
      ghost var before := ring;
      for r := 0 to replicas
        invariant ring == old(ring) - Points(hash, r, n)
      {
        ring := ring - {hash(n, r)};
      }
      LeftAt(before, hash, replicas, n);
    }

    /** The first point at or behind the hash of the data; behind the last point the first one follows. */
    method GetNode(h: nat) returns (found: Lookup<N>)
      ensures found == EmptyRing <==> ring == map[]
      ensures found.Found? ==> Owns(ring, h, found.node)
      ensures found.Found? ==>
                exists p :: p in ring && ring[p] == found.node
                            && if exists q :: q in ring && q >= h
                               then h <= p && forall q :: q in ring && q >= h ==> p <= q
                               else forall q :: q in ring ==> p <= q
    {
      if ring == map[] {
        return EmptyRing;
      }
      var behind := LowerBound(ring.Keys, h);
      if behind.None? {
        behind := LowerBound(ring.Keys, 0);
        assert ring.Keys != {};
      }
      assert IsSuccessor(ring.Keys, h, behind.value);
      found := Found(ring[behind.value]);
    }
  }

  /** std::map::lower_bound(): the least point that is at least `h`. */
  method LowerBound(points: set<nat>, h: nat) returns (p: Option<nat>)
    ensures p.None? <==> forall q :: q in points ==> q < h
    ensures p.Some? ==> p.value in points && p.value >= h && forall q :: q in points && q >= h ==> p.value <= q
  {
    p := None;
    var rest := points;
    while rest != {}
      invariant rest <= points
      invariant p.None? ==> forall q :: q in points && q !in rest ==> q < h
      invariant p.Some? ==> p.value in points && p.value >= h
      invariant p.Some? ==> forall q :: q in points && q !in rest && q >= h ==> p.value <= q
      decreases rest
    {
      var q :| q in rest;
      if q >= h && (p.None? || q < p.value) {
        p := Some(q);
      }
      rest := rest - {q};
    }
  }

  // ---------------------------------------------------------------- bounded disruption

  /** Every key has an owner unless the ring is empty. */
  lemma {:induction false} SuccessorExists(points: set<nat>, h: nat) returns (p: nat)
    requires points != {}
    ensures IsSuccessor(points, h, p)
    decreases |points|
  {
    var q :| q in points;
    if points == {q} {
      p := q;
    } else {
      var rest := points - {q};
      assert rest != {} && forall k :: k in points ==> k == q || k in rest;
      p := SuccessorExists(rest, h);
      if (q >= h && (p < h || q < p)) || (p < h && q < p) {
        p := q;
      }
    }
  }

  /** When a node joins, a key either keeps its owner or passes to the new node, collisions or not. */
  lemma JoinMovesKeysToTheNewNode<N>(ring: map<nat, N>, points: set<nat>, n: N, h: nat, before: N, after: N)
    requires Owns(ring, h, before) && Owns(Joined(ring, points, n), h, after)
    ensures after == before || after == n
  {
  }

  /** When a node leaves, exactly the keys whose successor was one of its points look for another one:
      every other key keeps its point and its owner. */
  lemma LeaveMovesOnlyItsOwnKeys<N>(ring: map<nat, N>, points: set<nat>, h: nat, p: nat)
    requires IsSuccessor(ring.Keys, h, p)
    ensures IsSuccessor((ring - points).Keys, h, p) <==> p !in points
    ensures p !in points ==> Owns(ring - points, h, ring[p])
  {
  }

  /** Without collisions the keys that move when a node leaves are those it owned. */
  lemma LeaveMovesOnlyOwnedKeys<N>(ring: map<nat, N>, points: set<nat>, n: N, h: nat, before: N, after: N)
    requires forall p :: p in points && p in ring ==> ring[p] == n
    requires Owns(ring, h, before) && Owns(ring - points, h, after) && before != n
    ensures after == before
  {
    var p :| IsSuccessor(ring.Keys, h, p) && ring[p] == before;
    LeaveMovesOnlyItsOwnKeys(ring, points, h, p);
    OneOwner(ring - points, h, before, after);
  }

  /** A node that joins and leaves again leaves no trace exactly when none of its points was taken before. */
  lemma JoinThenLeave<N>(ring: map<nat, N>, points: set<nat>, n: N)
    ensures Joined(ring, points, n) - points == ring <==> points !! ring.Keys
  {
  }
}
