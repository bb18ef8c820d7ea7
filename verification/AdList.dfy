/** The generic doubly linked list, on the heap, and its iterators. */
module AdList {
  import opened Basics

  class ListNode<T> {
    var prev: ListNode?<T>
    var next: ListNode?<T>
    var value: T

    constructor (value: T)
      ensures this.value == value && prev == null && next == null
    {
      this.value, prev, next := value, null, null;
    }
  }

  /** The node at position `i`, null outside. */
  function At<T>(nodes: seq<ListNode<T>>, i: int): ListNode?<T> {
    if 0 <= i < |nodes| then nodes[i] else null
  }

  ghost predicate Distinct<T>(nodes: seq<ListNode<T>>) {
    forall i, j :: 0 <= i < j < |nodes| ==> nodes[i] != nodes[j]
  }

  /** The pointers across the gap before position `i` mirror each other. */
  ghost predicate Gap<T>(nodes: seq<ListNode<T>>, i: nat)
    requires i <= |nodes|
    reads nodes
  {
    && (i < |nodes| ==> nodes[i].prev == At(nodes, i - 1))
    && (i > 0 ==> nodes[i - 1].next == At(nodes, i))
  }

  ghost predicate Linked<T>(nodes: seq<ListNode<T>>)
    reads nodes
  {
    forall i: nat {:trigger Gap(nodes, i)} :: i <= |nodes| ==> Gap(nodes, i)
  }

  ghost function Values<T>(nodes: seq<ListNode<T>>): (s: seq<T>)
    reads nodes
    ensures |s| == |nodes| && forall i :: 0 <= i < |nodes| ==> s[i] == nodes[i].value
  {
    seq(|nodes|, i requires 0 <= i < |nodes| reads nodes => nodes[i].value)
  }

  lemma SameValues<T>(nodes: seq<ListNode<T>>, values: seq<T>)
    requires |values| == |nodes| && forall i :: 0 <= i < |nodes| ==> values[i] == nodes[i].value
    ensures Values(nodes) == values
  {
  }

  lemma RemovedAt<T>(nodes: seq<ListNode<T>>, i: nat, k: nat)
    requires i < |nodes| && k < |nodes|
    ensures var r := nodes[..i] + nodes[i + 1..];
            && At(r, k) == At(nodes, if k < i then k else k + 1)
            && At(r, k - 1) == At(nodes, if k <= i then k - 1 else k)
            && (k < |r| ==> r[k] == At(nodes, if k < i then k else k + 1))
            && (0 < k ==> r[k - 1] == At(nodes, if k <= i then k - 1 else k))
    ensures At(nodes, k) == nodes[k] && At(nodes, -1) == null && At(nodes, |nodes|) == null
  {
  }

  lemma Removed<T>(nodes: seq<ListNode<T>>, i: nat)
    requires i < |nodes| && Distinct(nodes)
    ensures var r := nodes[..i] + nodes[i + 1..];
            && Distinct(r) && At(r, 0) == At(nodes, if i == 0 then 1 else 0)
            && At(r, |r| - 1) == At(nodes, if i == |nodes| - 1 then i - 1 else |nodes| - 1)
  {
  }

  lemma InsertedAt<T>(nodes: seq<ListNode<T>>, p: nat, node: ListNode<T>, k: nat)
    requires p <= |nodes| && k <= |nodes| + 1
    ensures var r := nodes[..p] + [node] + nodes[p..];
            && At(r, k) == (if k < p then At(nodes, k) else if k == p then node else At(nodes, k - 1))
            && At(r, k - 1) == (if k <= p then At(nodes, k - 1) else if k == p + 1 then node else At(nodes, k - 2))
            && (k < |r| ==> r[k] == At(r, k)) && (0 < k ==> r[k - 1] == At(r, k - 1))
    ensures At(nodes, -1) == null && At(nodes, |nodes|) == null
  {
  }

  lemma Inserted<T>(nodes: seq<ListNode<T>>, p: nat, node: ListNode<T>)
    requires p <= |nodes| && Distinct(nodes) && node !in nodes
    ensures var r := nodes[..p] + [node] + nodes[p..];
            && Distinct(r) && At(r, 0) == (if p == 0 then node else At(nodes, 0))
            && At(r, |r| - 1) == if p == |nodes| then node else At(nodes, |nodes| - 1)
  {
  }

  class List<T> {
    var head: ListNode?<T>
    var tail: ListNode?<T>
    var len: nat
    ghost var nodes: seq<ListNode<T>>

    constructor ()
      ensures Valid() && nodes == []
    {
      head, tail, len, nodes := null, null, 0, [];
    }

    ghost predicate Valid()
      reads this, nodes
    {
      && len == |nodes| && head == At(nodes, 0) && tail == At(nodes, |nodes| - 1)
      && Distinct(nodes) && Linked(nodes)
    }

    method AddNodeHead(value: T)
      requires Valid()
      modifies this, nodes
      ensures Valid() && |nodes| == |old(nodes)| + 1 && fresh(nodes[0]) && nodes[1..] == old(nodes)
      ensures Values(nodes) == [value] + old(Values(nodes))
    {
      hide Values;
      ghost var before, values := nodes, Values(nodes);
      var node := new ListNode(value);
      if len == 0 {
        head, tail := node, node;
      } else {
        node.next := head;
        head.prev := node;
        head := node;
      }
      nodes := [node] + before;
      len := len + 1;
      SameValues(nodes, [value] + values);
      forall i: nat | i <= |nodes| ensures Gap(nodes, i) {
        if i > 0 {
          assert old(Gap(nodes, i - 1));
        }
      }
    }

    method AddNodeTail(value: T)
      requires Valid()
      modifies this, nodes
      ensures Valid() && |nodes| == |old(nodes)| + 1 && fresh(nodes[|old(nodes)|])
      ensures nodes[..|old(nodes)|] == old(nodes)
      ensures Values(nodes) == old(Values(nodes)) + [value]
    {
      hide Values;
      ghost var before, values := nodes, Values(nodes);
      var node := new ListNode(value);
      if len == 0 {
        head, tail := node, node;
      } else {
        node.prev := tail;
        tail.next := node;
        tail := node;
      }
      nodes := before + [node];
      len := len + 1;
      SameValues(nodes, values + [value]);
      forall i: nat | i <= |nodes| ensures Gap(nodes, i) {
        if i <= |before| {
          assert old(Gap(nodes, i));
        }
      }
    }

    /** Inserts before or after the node at position `i`. */
    method InsertNode(oldNode: ListNode<T>, value: T, after: bool, ghost i: nat)
      requires Valid() && i < |nodes| && nodes[i] == oldNode
      modifies this, nodes
      ensures Valid()
      ensures var p := if after then i + 1 else i;
              && |nodes| == |old(nodes)| + 1 && fresh(nodes[p])
              && nodes == old(nodes)[..p] + [nodes[p]] + old(nodes)[p..]
              && Values(nodes) == old(Values(nodes))[..p] + [value] + old(Values(nodes))[p..]
    {
      hide Values, Distinct, Linked, At;
      ghost var before, values, p := nodes, Values(nodes), if after then i + 1 else i;
      var node := new ListNode(value);
      Attach(node, oldNode, after, i);
      assert Values(nodes) == values && nodes == before;
      LinkIn(node, p);
      assert nodes == before[..p] + [node] + before[p..] && nodes[p] == node;
      assert Values(nodes) == values[..p] + [value] + values[p..];
    }

    /** The first half: the new node points to its neighbours, and the list to it where it is an end. */
    method Attach(node: ListNode<T>, oldNode: ListNode<T>, after: bool, ghost i: nat)
      requires Valid() && i < |nodes| && nodes[i] == oldNode && node !in nodes
      modifies node`prev, node`next, this`head, this`tail
      ensures var p := if after then i + 1 else i;
              && node.prev == At(nodes, p - 1) && node.next == At(nodes, p)
              && head == (if p == 0 then node else At(nodes, 0))
              && tail == if p == len then node else At(nodes, len - 1)
    {
      assert Gap(nodes, if after then i + 1 else i);
      if after {
        node.prev := oldNode;
        node.next := oldNode.next;
        if tail == oldNode {
          tail := node;
        }
      } else {
        node.next := oldNode;
        node.prev := oldNode.prev;
        if head == oldNode {
          head := node;
        }
      }
    }

    /** The second half: the neighbours of the new node point to it. */
    method LinkIn(node: ListNode<T>, ghost p: nat)
      requires Distinct(nodes) && Linked(nodes) && len == |nodes| && p <= len && node !in nodes
      requires node.prev == At(nodes, p - 1) && node.next == At(nodes, p)
      requires head == (if p == 0 then node else At(nodes, 0))
      requires tail == (if p == len then node else At(nodes, len - 1))
      modifies this`len, this`nodes, nodes, node
      ensures Valid() && nodes == old(nodes)[..p] + [node] + old(nodes)[p..]
      ensures Values(nodes) == old(Values(nodes))[..p] + [node.value] + old(Values(nodes))[p..]
      ensures node.value == old(node.value)
    {
      hide Values;
      ghost var before, values := nodes, Values(nodes);
      if node.prev != null {
        node.prev.next := node;
      }
      if node.next != null {
        node.next.prev := node;
      }
      len := len + 1;
      nodes := before[..p] + [node] + before[p..];
      Inserted(before, p, node);
      SameValues(nodes, values[..p] + [node.value] + values[p..]);
      forall k: nat | k <= |nodes| ensures Gap(nodes, k) {
        InsertedAt(before, p, node, k);
        assert old(Gap(nodes, if k <= p then k else k - 1));
      }
      hide Distinct;
    }

    method DelNode(node: ListNode<T>, ghost i: nat)
      requires Valid() && i < |nodes| && nodes[i] == node
      modifies this, nodes
      ensures Valid() && nodes == old(nodes)[..i] + old(nodes)[i + 1..]
      ensures Values(nodes) == old(Values(nodes))[..i] + old(Values(nodes))[i + 1..]
    {
      hide Values;
      ghost var before, values := nodes, Values(nodes);
      assert Gap(nodes, i) && Gap(nodes, i + 1);
      if node.prev != null {
        node.prev.next := node.next;
      } else {
        head := node.next;
      }
      if node.next != null {
        node.next.prev := node.prev;
      } else {
        tail := node.prev;
      }
      len := len - 1;
      nodes := before[..i] + before[i + 1..];
      Removed(before, i);
      SameValues(nodes, values[..i] + values[i + 1..]);
      forall k: nat | k <= |nodes| ensures Gap(nodes, k) {
        RemovedAt(before, i, k);
        if k < i {
          assert old(Gap(nodes, k));
        } else if k > i {
          assert old(Gap(nodes, k + 1));
        }
      }
    }

    /** The element at a position; negative positions count from the tail. */
    method Index(index: int) returns (n: ListNode?<T>)
      requires Valid()
      ensures n == At(nodes, if index < 0 then |nodes| + index else index)
    {
      ghost var p;
      if index < 0 {
        var left := -index - 1;
        n, p := tail, |nodes| - 1;
        while left > 0 && n != null
          invariant left >= 0 && -1 <= p < |nodes| && n == At(nodes, p)
          invariant p - left == |nodes| + index || (n == null && p - left <= -1 && |nodes| + index <= -1)
          decreases left
        {
          assert Gap(nodes, p);
          n, left, p := n.prev, left - 1, p - 1;
        }
      } else {
        var left := index;
        n, p := head, 0;
        while left > 0 && n != null
          invariant left >= 0 && 0 <= p <= |nodes| && n == At(nodes, p) && p + left == index
          decreases left
        {
          assert Gap(nodes, p + 1);
          n, left, p := n.next, left - 1, p + 1;
        }
      }
    }

    /** Moves the tail to the head. */
    method Rotate()
      requires Valid()
      modifies this, nodes
      ensures Valid()
      ensures var n := |old(nodes)|;
              if n <= 1 then nodes == old(nodes) && Values(nodes) == old(Values(nodes))
              else nodes == [old(nodes)[n - 1]] + old(nodes)[..n - 1]
                   && Values(nodes) == [old(Values(nodes))[n - 1]] + old(Values(nodes))[..n - 1]
    {
      hide Values;
      if len <= 1 {
        return;
      }
      ghost var before, values, n := nodes, Values(nodes), |nodes|;
      assert Gap(nodes, n - 1) && Gap(nodes, 0) && Gap(nodes, n);
      var last := tail;
      tail := last.prev;
      tail.next := null;
      head.prev := last;
      last.prev := null;
      last.next := head;
      head := last;
      nodes := [before[n - 1]] + before[..n - 1];
      SameValues(nodes, [values[n - 1]] + values[..n - 1]);
      forall k: nat | k <= |nodes| ensures Gap(nodes, k) {
        if 0 < k {
          assert old(Gap(nodes, k - 1));
        }
      }
    }

    /** The first node whose value matches. */
    method SearchKey(matches: T -> bool) returns (found: ListNode?<T>)
      requires Valid()
      ensures found == null ==> forall v :: v in Values(nodes) ==> !matches(v)
      ensures found != null ==> exists i :: 0 <= i < |nodes| && nodes[i] == found && matches(found.value)
                                            && forall k :: 0 <= k < i ==> !matches(nodes[k].value)
    {
      var iter := new ListIter.Rewind(this);
      ghost var p := 0;
      while true
        invariant 0 <= p <= |nodes| && iter.next == At(nodes, p) && iter.forward
        invariant forall k :: 0 <= k < p ==> !matches(nodes[k].value)
        decreases |nodes| - p
      {
        assert Gap(nodes, if p < |nodes| then p + 1 else p);
        found := iter.Next();
        if found == null {
          return;
        }
        if matches(found.value) {
          return;
        }
        p := p + 1;
      }
    }

    /** A copy of the list; `dup` copies a value and may fail, and then there is no copy. The values are
        collected by an iterator first and then copied in the same order. */
    method Dup(dup: Option<T -> Option<T>>) returns (copy: List?<T>)
      requires Valid()
      ensures copy == null <==> exists v :: v in Values(nodes) && Copied(dup, v).None?
      ensures copy != null ==> fresh(copy) && copy.Valid() && |copy.nodes| == |nodes|
      ensures copy != null ==> AreCopies(dup, Values(nodes), Values(copy.nodes))
      ensures dup.None? ==> copy != null && Values(copy.nodes) == Values(nodes)
      ensures dup.Some? && copy == null ==> exists v :: v in Values(nodes) && dup.value(v) == None
      ensures dup.Some? && copy != null ==>
                forall i :: 0 <= i < |nodes| ==> dup.value(nodes[i].value) == Some(copy.nodes[i].value)
    {
      var values := Collect();
      var list := new List();
      NoCopies(dup, values, Values(list.nodes));
      hide Copied, Values, Valid, AreCopies;
      for p := 0 to |values|
        invariant fresh(list) && list.Valid() && fresh(list.nodes) && |list.nodes| == p
        invariant AreCopies(dup, values, Values(list.nodes))
      {
        var value := Copied(dup, values[p]);
        if value.None? {
          assert values[p] in values;
          return null;
        }
        OneMoreCopy(dup, values, Values(list.nodes), value.value);
        list.AddNodeTail(value.value);
      }
      AllCopied(dup, values, Values(list.nodes));
      copy := list;
    }

    /** The values an iterator from the head returns. */
    method Collect() returns (values: seq<T>)
      requires Valid()
      ensures values == Values(nodes)
    {
      hide Values;
      values := [];
      var iter := new ListIter.Rewind(this);
      ghost var p: nat := 0;
      while true
        invariant p <= |nodes| && iter.next == At(nodes, p) && iter.forward && fresh(iter)
        invariant values == Values(nodes)[..p]
        decreases |nodes| - p
      {
        assert p < |nodes| ==> Gap(nodes, p + 1);
        var node := iter.Next();
        if node == null {
          return;
        }
        values := values + [node.value];
        p := p + 1;
      }
    }
  }

  /** The value for the copy of a list. */
  function Copied<T>(dup: Option<T -> Option<T>>, value: T): Option<T> {
    if dup.None? then Some(value) else dup.value(value)
  }

  /** `copies` are the copies of the first of `values`. */
  ghost predicate AreCopies<T>(dup: Option<T -> Option<T>>, values: seq<T>, copies: seq<T>) {
    |copies| <= |values| && forall i :: 0 <= i < |copies| ==> Copied(dup, values[i]) == Some(copies[i])
  }

  lemma NoCopies<T>(dup: Option<T -> Option<T>>, values: seq<T>, copies: seq<T>)
    requires copies == []
    ensures AreCopies(dup, values, copies)
  {
  }

  lemma AllCopied<T>(dup: Option<T -> Option<T>>, values: seq<T>, copies: seq<T>)
    requires AreCopies(dup, values, copies) && |copies| == |values|
    ensures forall v :: v in values ==> Copied(dup, v).Some?
  {
  }

  lemma OneMoreCopy<T>(dup: Option<T -> Option<T>>, values: seq<T>, copies: seq<T>, v: T)
    requires AreCopies(dup, values, copies) && |copies| < |values| && Copied(dup, values[|copies|]) == Some(v)
    ensures AreCopies(dup, values, copies + [v])
  {
  }

  class ListIter<T> {
    var next: ListNode?<T>
    const forward: bool

    /** listRewind() */
    constructor Rewind(list: List<T>)
      ensures next == list.head && forward
    {
      next, forward := list.head, true;
    }

    /** listRewindTail() */
    constructor RewindTail(list: List<T>)
      ensures next == list.tail && !forward
    {
      next, forward := list.tail, false;
    }

    /** The next element. The iterator has already moved on, so that the caller may delete it. */
    method Next() returns (current: ListNode?<T>)
      modifies this
      ensures current == old(next)
      ensures next == if current == null then null else if forward then current.next else current.prev
    {
      current := next;
      if current != null {
        next := if forward then current.next else current.prev;
      }
    }
  }

  function Kept<T>(nodes: seq<ListNode<T>>, doomed: ListNode<T> -> bool): seq<ListNode<T>> {
    if nodes == [] then []
    else Kept(nodes[..|nodes| - 1], doomed) + if doomed(nodes[|nodes| - 1]) then [] else [nodes[|nodes| - 1]]
  }

  /** One round of such a pass: the next node, deleted if it is doomed. `owned` holds all nodes of the list. */
  method Visit<T>(list: List<T>, iter: ListIter<T>, doomed: ListNode<T> -> bool, ghost k: nat,
                  ghost owned: set<ListNode<T>>)
    returns (node: ListNode?<T>)
    requires list.Valid() && iter.forward && k <= |list.nodes| && iter.next == At(list.nodes, k)
    requires forall n :: n in list.nodes ==> n in owned
    modifies iter, list, owned
    ensures list.Valid() && node == old(At(list.nodes, k))
    ensures list.nodes == if node != null && doomed(node) then old(list.nodes)[..k] + old(list.nodes)[k + 1..]
                          else old(list.nodes)
    ensures node != null ==> iter.next == At(list.nodes, if doomed(node) then k else k + 1)
  {
    assert k < |list.nodes| ==> Gap(list.nodes, k + 1);
    node := iter.Next();
    if node != null && doomed(node) {
      list.DelNode(node, k);
    }
  }

  /** `p` nodes were visited: those kept among them come first, then those to come, where the iterator is. */
  ghost predicate Midway<T>(nodes: seq<ListNode<T>>, next: ListNode?<T>, before: seq<ListNode<T>>, p: nat,
                            doomed: ListNode<T> -> bool)
  {
    && p <= |before| && nodes == Kept(before[..p], doomed) + before[p..]
    && next == At(nodes, |Kept(before[..p], doomed)|)
  }

  lemma SweepStarts<T>(before: seq<ListNode<T>>, doomed: ListNode<T> -> bool)
    ensures Midway(before, At(before, 0), before, 0, doomed)
  {
  }

  lemma SweepIsAt<T>(nodes: seq<ListNode<T>>, next: ListNode?<T>, before: seq<ListNode<T>>, p: nat,
                     doomed: ListNode<T> -> bool)
    requires Midway(nodes, next, before, p, doomed)
    ensures var k := |Kept(before[..p], doomed)|; k <= |nodes| && next == At(nodes, k) == At(before, p)
  {
  }

  lemma SweepEnds<T>(nodes: seq<ListNode<T>>, next: ListNode?<T>, before: seq<ListNode<T>>, p: nat,
                     doomed: ListNode<T> -> bool)
    requires Midway(nodes, next, before, p, doomed) && next == null
    ensures p == |before| && before[..p] == before && nodes == Kept(before, doomed)
  {
  }

  lemma SweepGoesOn<T>(nodes: seq<ListNode<T>>, n: ListNode<T>, before: seq<ListNode<T>>, p: nat,
                       doomed: ListNode<T> -> bool, left: seq<ListNode<T>>, next: ListNode?<T>)
    requires Midway(nodes, n, before, p, doomed)
    requires var k := |Kept(before[..p], doomed)|;
             && k < |nodes| && left == (if doomed(n) then nodes[..k] + nodes[k + 1..] else nodes)
             && next == At(left, if doomed(n) then k else k + 1)
    ensures p < |before| && before[..p + 1] == before[..p] + [n] && Midway(left, next, before, p + 1, doomed)
  {
  }

  lemma {:induction false} KeptAreOld<T>(nodes: seq<ListNode<T>>, doomed: ListNode<T> -> bool, n: ListNode<T>)
    requires n in Kept(nodes, doomed)
    ensures n in nodes
  {
    if nodes[|nodes| - 1] != n {
      KeptAreOld(nodes[..|nodes| - 1], doomed, n);
    }
  }

  lemma {:induction false} KeptAre<T>(nodes: seq<ListNode<T>>, doomed: ListNode<T> -> bool)
    ensures forall n :: n in Kept(nodes, doomed) <==> n in nodes && !doomed(n)
  {
    if nodes != [] {
      KeptAre(nodes[..|nodes| - 1], doomed);
      assert nodes == nodes[..|nodes| - 1] + [nodes[|nodes| - 1]];
    }
  }

  lemma MidwayIsOld<T>(nodes: seq<ListNode<T>>, next: ListNode?<T>, before: seq<ListNode<T>>, p: nat,
                       doomed: ListNode<T> -> bool)
    requires Midway(nodes, next, before, p, doomed)
    ensures forall n :: n in nodes ==> n in before
  {
    forall n | n in nodes ensures n in before {
      if n in Kept(before[..p], doomed) {
        KeptAreOld(before[..p], doomed, n);
      }
    }
  }

  method SweepRound<T>(list: List<T>, iter: ListIter<T>, doomed: ListNode<T> -> bool,
                       ghost before: seq<ListNode<T>>, ghost p: nat)
    returns (node: ListNode?<T>)
    requires list.Valid() && iter.forward && p <= |before| && Midway(list.nodes, iter.next, before, p, doomed)
    modifies iter, list, before
    ensures list.Valid() && node == At(before, p)
    ensures if node == null then before[..p] == before && list.nodes == Kept(before, doomed)
            else before[..p + 1] == before[..p] + [node] && Midway(list.nodes, iter.next, before, p + 1, doomed)
  {
    ghost var nodes := list.nodes;
    ghost var owned := set n | n in before;
    SweepIsAt(nodes, iter.next, before, p, doomed);
    MidwayIsOld(nodes, iter.next, before, p, doomed);
    hide Kept, Midway, List.Valid;
    node := Visit(list, iter, doomed, |Kept(before[..p], doomed)|, owned);
    if node == null {
      SweepEnds(nodes, null, before, p, doomed);
    } else {
      SweepGoesOn(nodes, node, before, p, doomed, list.nodes, iter.next);
    }
  }

  /** A pass from the head that deletes some of the nodes it is given visits every node of the list
      exactly once, in order, and leaves those it did not delete. */
  method Sweep<T>(list: List<T>, doomed: ListNode<T> -> bool) returns (visited: seq<ListNode<T>>)
    requires list.Valid()
    modifies list, list.nodes
    ensures list.Valid() && visited == old(list.nodes)
    ensures list.nodes == Kept(old(list.nodes), doomed)
    ensures forall n :: n in list.nodes <==> n in old(list.nodes) && !doomed(n)
  {
    ghost var before, p: nat := list.nodes, 0;
    visited := [];
    var iter := new ListIter.Rewind(list);
    SweepStarts(before, doomed);
    assert iter.next == At(before, 0);
    hide Kept, Midway, List.Valid, At;
    while true
      invariant list.Valid() && fresh(iter) && iter.forward
      invariant p <= |before| && visited == before[..p] && Midway(list.nodes, iter.next, before, p, doomed)
      decreases |before| - p
    {
      var node := SweepRound(list, iter, doomed, before, p);
      if node == null {
        KeptAre(before, doomed);
        return;
      }
      var n: ListNode<T> := node;
      visited := visited + [n];
      p := p + 1;
    }
  }
}
