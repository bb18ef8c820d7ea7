/** Every interleaving of the parent, the child and the pipes while the append only file is rewritten. */
module AofProtocol {
  import opened Basics
  import opened AofRewrite

  /** Where the child is: sending its snapshot, waiting for the answer to its '!', reading what is left,
      done, or given up. */
  datatype Child = Working | Asked | Answered | Finished | Failed

  /** `fed` is what clients changed since the fork, in order; `buffered` the parent's blocks, `pipe` what
      is on its way, `diff` what the child read. `ask` and `answer` are the two '!' in flight. */
  datatype Rewrite = Rewrite(fed: bytes, buffered: bytes, pipe: bytes, diff: bytes, stop: bool,
                             ask: bool, answer: bool, child: Child)

  datatype Step =
    | Feed(s: bytes)
    | ParentWrites(n: nat)
    | ChildReads(n: nat)
    | ChildAsks
    | ParentAnswers(sent: bool)
    | ChildHears
    | ChildFinishes
    | ChildFails

  const START := Rewrite([], [], [], [], false, false, false, Working)

  predicate Reading(c: Child) {
    c == Working || c == Answered
  }

  predicate Enabled(r: Rewrite, step: Step) {
    match step
    case Feed(_) => true
    case ParentWrites(n) => !r.stop && n <= |r.buffered|
    case ChildReads(n) => Reading(r.child) && n <= |r.pipe|
    case ChildAsks => r.child == Working
    case ParentAnswers(_) => r.ask
    case ChildHears => r.child == Asked && r.answer
    case ChildFinishes => r.child == Answered && r.pipe == []
    case ChildFails => r.child != Finished
  }

  function Take(r: Rewrite, step: Step): Rewrite
    requires Enabled(r, step)
  {
    match step
    case Feed(s) => r.(fed := r.fed + s, buffered := r.buffered + s)
    case ParentWrites(n) => r.(buffered := r.buffered[n..], pipe := r.pipe + r.buffered[..n])
    case ChildReads(n) => r.(diff := r.diff + r.pipe[..n], pipe := r.pipe[n..])
    case ChildAsks => r.(child := Asked, ask := true)
    case ParentAnswers(sent) => r.(ask := false, stop := true, answer := sent)
    case ChildHears => r.(child := Answered, answer := false)
    case ChildFinishes => r.(child := Finished)
    case ChildFails => r.(child := Failed)
  }

  predicate Legal(r: Rewrite, steps: seq<Step>)
    decreases |steps|
  {
    steps == [] || (Enabled(r, steps[0]) && Legal(Take(r, steps[0]), steps[1..]))
  }

  function Final(r: Rewrite, steps: seq<Step>): Rewrite
    requires Legal(r, steps)
    decreases |steps|
  {
    if steps == [] then r else Final(Take(r, steps[0]), steps[1..])
  }

  /** Nothing is lost, repeated or reordered, and nothing is sent any more once the child was answered. */
  predicate Inv(r: Rewrite) {
    && r.diff + r.pipe + r.buffered == r.fed
    && (r.answer || r.child == Answered || r.child == Finished ==> r.stop)
    && (r.child == Finished ==> r.pipe == [])
    && (r.ask || r.answer ==> r.child == Asked || r.child == Failed)
    && !(r.ask && r.answer)
  }

  lemma StepKeepsInv(r: Rewrite, step: Step)
    requires Inv(r) && Enabled(r, step)
    ensures Inv(Take(r, step))
  {
  }

  lemma {:induction false} RunKeepsInv(r: Rewrite, steps: seq<Step>)
    requires Inv(r) && Legal(r, steps)
    ensures Inv(Final(r, steps))
    decreases |steps|
  {
    if steps != [] {
      StepKeepsInv(r, steps[0]);
      RunKeepsInv(Take(r, steps[0]), steps[1..]);
    }
  }

  /** At every moment of every run the bytes the child read, then those in the pipe, then those in the
      parent's blocks are exactly what was fed since the fork. */
  lemma DiffIsConserved(steps: seq<Step>)
    requires Legal(START, steps)
    ensures var r := Final(START, steps); r.diff + r.pipe + r.buffered == r.fed
  {
    RunKeepsInv(START, steps);
  }

  /** When the child succeeded, appending the parent's blocks to its file gives the snapshot followed by
      everything that was fed, however much of it came after the child had stopped reading. */
  lemma RewriteIsComplete(steps: seq<Step>, snapshot: bytes)
    requires Legal(START, steps) && Final(START, steps).child == Finished
    ensures var r := Final(START, steps); (snapshot + r.diff) + r.buffered == snapshot + r.fed
  {
    RunKeepsInv(START, steps);
    var r := Final(START, steps);
    assert (snapshot + r.diff) + r.buffered == snapshot + (r.diff + [] + r.buffered);
  }

  /** Once the parent has answered, nothing moves from its blocks to the pipe any more. */
  lemma {:induction false} StoppedForGood(r: Rewrite, steps: seq<Step>)
    requires r.stop && Legal(r, steps)
    ensures var e := Final(r, steps);
            e.stop && r.buffered <= e.buffered && r.diff <= e.diff && r.diff + r.pipe == e.diff + e.pipe
    decreases |steps|
  {
    if steps != [] {
      var next := Take(r, steps[0]);
      if steps[0].ChildReads? {
        var n := steps[0].n;
        assert (r.diff + r.pipe[..n]) + r.pipe[n..] == r.diff + (r.pipe[..n] + r.pipe[n..]);
        assert r.pipe[..n] + r.pipe[n..] == r.pipe;
      }
      StoppedForGood(next, steps[1..]);
    }
  }

  ghost predicate CanFinish(r: Rewrite) {
    exists steps :: Legal(r, steps) && Final(r, steps).child == Finished
  }

  /** The child gave up, or it waits and its answer was lost. */
  predicate Doomed(r: Rewrite) {
    r.child == Failed || (r.child == Asked && !r.ask && !r.answer)
  }

  lemma {:induction false} StaysDoomed(r: Rewrite, steps: seq<Step>)
    requires Doomed(r) && Legal(r, steps)
    ensures Doomed(Final(r, steps))
    decreases |steps|
  {
    if steps != [] {
      StaysDoomed(Take(r, steps[0]), steps[1..]);
    }
  }

  lemma FinishesAfter(r: Rewrite, step: Step)
    requires Enabled(r, step) && CanFinish(Take(r, step))
    ensures CanFinish(r)
  {
    var rest :| Legal(Take(r, step), rest) && Final(Take(r, step), rest).child == Finished;
    var steps := [step] + rest;
    assert steps[0] == step && steps[1..] == rest;
    assert Legal(r, steps) && Final(r, steps).child == Finished;
  }

  lemma {:induction false} FinishesSomehow(r: Rewrite)
    requires Inv(r) && !Doomed(r)
    ensures CanFinish(r)
    decreases match r.child case Working => 3 case Asked => 2 case Answered => 1 case _ => 0, r.ask, |r.pipe|
  {
    if r.child == Finished {
      assert Final(r, []) == r;
    } else {
      var step :=
        if r.child == Working then ChildAsks
        else if r.child == Asked then (if r.ask then ParentAnswers(true) else ChildHears)
        else if r.pipe != [] then ChildReads(|r.pipe|)
        else ChildFinishes;
      StepKeepsInv(r, step);
      FinishesSomehow(Take(r, step));
      FinishesAfter(r, step);
    }
  }

  /** A rewrite can still be completed, however much was fed meanwhile, exactly when the child has not given up
      and does not wait for an answer that was lost. */
  lemma FinishesExactlyUnless(steps: seq<Step>)
    requires Legal(START, steps)
    ensures var r := Final(START, steps);
            CanFinish(r) <==> r.child != Failed && (r.child == Asked ==> r.ask || r.answer)
  {
    RunKeepsInv(START, steps);
    var r := Final(START, steps);
    if CanFinish(r) {
      var rest :| Legal(r, rest) && Final(r, rest).child == Finished;
      if Doomed(r) {
        StaysDoomed(r, rest);
      }
    } else if !Doomed(r) {
      FinishesSomehow(r);
    }
  }

  // ---------------------------------------------------------------- the code takes such steps

  /** The state of the protocol that the parent's blocks and the pipes hold. */
  ghost predicate Mirrors(r: Rewrite, b: RewriteBuffer, pipe: Stream, asks: Stream, answers: Stream)
    requires b.Valid()
    reads b, b.Repr(), pipe, asks, answers
  {
    && r.buffered == b.Contents() && r.stop == b.stop && r.pipe == pipe.data
    && asks.data == (if r.ask then [BANG] else [])
    && answers.data == (if r.answer then [BANG] else [])
  }

  ghost predicate Apart(b: RewriteBuffer, pipe: Stream, asks: Stream, answers: Stream)
    reads b
  {
    pipe !in b.Repr() && asks !in b.Repr() && answers !in b.Repr() && pipe != asks && pipe != answers && asks != answers
  }

  /** Feeding the blocks is the step Feed. */
  method ParentFeeds(b: RewriteBuffer, pipe: Stream, asks: Stream, answers: Stream, s: bytes, ghost r: Rewrite)
    requires b.Valid() && Apart(b, pipe, asks, answers) && Mirrors(r, b, pipe, asks, answers)
    modifies b.Repr(), b`blocks
    ensures b.Valid() && Apart(b, pipe, asks, answers)
    ensures Enabled(r, Feed(s)) && Mirrors(Take(r, Feed(s)), b, pipe, asks, answers)
  {
    b.Append(s);
  }

  /** However the sending loop fares, it is the step ParentWrites, or nothing when sending has stopped. */
  method ParentSends(b: RewriteBuffer, pipe: Stream, asks: Stream, answers: Stream, ghost r: Rewrite)
    returns (ghost n: nat)
    requires b.Valid() && Apart(b, pipe, asks, answers) && Mirrors(r, b, pipe, asks, answers)
    modifies b.Repr(), b`blocks, pipe
    ensures b.Valid() && Apart(b, pipe, asks, answers)
    ensures if r.stop then Mirrors(r, b, pipe, asks, answers)
            else Enabled(r, ParentWrites(n)) && Mirrors(Take(r, ParentWrites(n)), b, pipe, asks, answers)
  {
    b.ChildWriteDiffData(pipe);
    n := |pipe.data| - |r.pipe|;
    Moved(r.pipe, r.buffered, pipe.data, b.Contents());
  }

  lemma Moved(pipe: bytes, buffered: bytes, fuller: bytes, left: bytes)
    requires pipe <= fuller && fuller + left == pipe + buffered
    ensures var n := |fuller| - |pipe|;
            n <= |buffered| && fuller == pipe + buffered[..n] && left == buffered[n..]
  {
    var n := |fuller| - |pipe|;
    assert buffered == (pipe + buffered)[|pipe|..];
    assert left == (fuller + left)[|fuller|..];
  }

  /** Draining the pipe is the step ChildReads. */
  method ChildDrains(b: RewriteBuffer, pipe: Stream, asks: Stream, answers: Stream, diff: bytes, ghost r: Rewrite)
    returns (more: bytes)
    requires b.Valid() && Apart(b, pipe, asks, answers) && Mirrors(r, b, pipe, asks, answers)
    requires diff == r.diff && Reading(r.child)
    modifies pipe
    ensures b.Valid() && Apart(b, pipe, asks, answers) && Enabled(r, ChildReads(|r.pipe|))
    ensures var next := Take(r, ChildReads(|r.pipe|)); Mirrors(next, b, pipe, asks, answers) && more == next.diff
  {
    more := ReadDiffFromParent(pipe, diff);
    assert r.pipe[..|r.pipe|] == r.pipe;
  }

  /** The handler of the child's request is the step ParentAnswers, or nothing when there is no request. */
  method ParentHandles(b: RewriteBuffer, pipe: Stream, asks: Stream, answers: Stream, ghost r: Rewrite)
    returns (ghost sent: bool)
    requires b.Valid() && Apart(b, pipe, asks, answers) && Mirrors(r, b, pipe, asks, answers) && Inv(r)
    modifies b`stop, asks, answers
    ensures b.Valid() && Apart(b, pipe, asks, answers)
    ensures if !r.ask then Mirrors(r, b, pipe, asks, answers)
            else Enabled(r, ParentAnswers(sent)) && Mirrors(Take(r, ParentAnswers(sent)), b, pipe, asks, answers)
  {
    sent := b.ChildPipeReadable(asks, answers);
  }
}
