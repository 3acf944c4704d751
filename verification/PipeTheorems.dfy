/** What holds on every run of any number of pipes on one handle, from the invariant of
    PipeInvariant.dfy: runs start with no pipe and interleave the calls of the library
    with arbitrary moves of the kernel. */
module PipeTheorems {
  import opened Base
  import opened PipeModel
  import opened PipeInvariant

  /** `steps` lead from one world to another. */
  ghost predicate IsRun(w: World, steps: seq<Step>, w': World) {
    CanExecute(w, steps) && Execute(w, steps) == w'
  }

  ghost predicate Reachable(w: World) {
    exists steps :: IsRun([], steps, w)
  }

  lemma {:induction false} RunsCompose(w: World, a: seq<Step>, b: seq<Step>, w': World)
    requires CanExecute(w, a) && IsRun(Execute(w, a), b, w')
    ensures IsRun(w, a + b, w')
    decreases |a|
  {
    if a == [] {
      assert a + b == b;
    } else {
      assert (a + b)[1..] == a[1..] + b;
      RunsCompose(Next(w, a[0]), a[1..], b, w');
    }
  }

  lemma OneMoreStep(w: World, steps: seq<Step>, w1: World, step: Step)
    requires IsRun(w, steps, w1) && Enabled(w1, step)
    ensures IsRun(w, steps + [step], Next(w1, step))
  {
    assert [step][1..] == [];
    RunsCompose(w, steps, [step], Next(w1, step));
  }

  lemma StepStaysReachable(w: World, step: Step)
    requires Reachable(w) && Enabled(w, step)
    ensures Reachable(Next(w, step))
  {
    var steps :| IsRun([], steps, w);
    OneMoreStep([], steps, w, step);
  }

  lemma Always(w: World)
    requires Reachable(w)
    ensures Inv(w)
  {
    var steps :| IsRun([], steps, w);
    RunKeeps([], steps);
  }

  /** The kernel holds exactly the transfers whose flag says pending.  None of those is
      ever freed, nothing is freed twice or before its pipe is closed, no stored error is
      lost, and no assertion of the library fails. */
  lemma MemoryIsSafe(w: World, id: SlotId)
    requires Reachable(w) && IsSlot(w, id)
    ensures
      && !w[id.pipe].failed
      && (At(w, id).pending <==> !At(w, id).held.NotHeld?)
      && (At(w, id).pending ==> At(w, id).frees == 0 && At(w, id).error.Null?)
      && (At(w, id).frees <= if w[id.pipe].closed then 1 else 0)
      && At(w, id).lostErrors == 0
      && At(w, id).bufferLength == |At(w, id).buffer|
  {
    Always(w);
    assert PipeInv(w[id.pipe], id.pipe, false);
    assert SlotInv(w[id.pipe], id.pipe, id.index);
  }

  // ---- Where submissions sit in the ring ----

  predicate IsModular(p: Pipe) {
    p.slots != [] ==>
      && p.nextFinish == |p.delivered| % |p.slots|
      && p.nextSubmit == |p.fates| % |p.slots|
  }

  lemma IncrementIsModulo(n: nat, bound: nat)
    requires bound > 0
    ensures Increment(n % bound, bound) == (n + 1) % bound
  {
    var q, r := (n + 1) / bound, (n + 1) % bound;
    var k := q - n / bound;
    assert k * bound == n % bound + 1 - r;
    MultiplesApart(k, bound);
  }

  lemma MultiplesApart(k: int, bound: int)
    requires bound > 0
    ensures k < 0 ==> k * bound <= -bound
    ensures k > 1 ==> k * bound >= 2 * bound
  {}

  lemma SubmitNextIsModular(p: Pipe, answer: Answer)
    requires IsModular(p)
    ensures IsModular(SubmitNext(p, answer))
  {
    if CanSubmit(p) {
      SubmittedIsModular(p, SubmitNext(p, answer));
    }
  }

  lemma SubmittedIsModular(p: Pipe, q: Pipe)
    requires IsModular(p) && p.slots != []
    requires |q.slots| == |p.slots| && q.nextFinish == p.nextFinish && |q.delivered| == |p.delivered|
    requires q.nextSubmit == Increment(p.nextSubmit, |p.slots|) && |q.fates| == |p.fates| + 1
    ensures IsModular(q)
  {
    IncrementIsModulo(|p.fates|, |p.slots|);
  }

  lemma {:induction false} SubmitAllIsModular(p: Pipe, answers: seq<Answer>)
    requires IsModular(p)
    ensures IsModular(SubmitAll(p, answers))
    decreases |p.slots| - p.pendingCount
  {
    if !(p.failed || p.pendingCount >= |p.slots|) && CanSubmit(p) {
      SubmitNextIsModular(p, First(answers));
      SubmitAllIsModular(SubmitNext(p, First(answers)), Rest(answers));
    }
  }

  lemma FinishIsModular(p: Pipe, o: Oracle, answer: Answer)
    requires IsModular(p)
    ensures IsModular(Finish(p, o, answer))
  {
    if HasFinished(p) {
      IncrementIsModulo(|p.delivered|, |p.slots|);
      SubmitNextIsModular(Deliver(p, o), answer);
    }
  }

  /** Handing out a URB changes one transfer and nothing else of any pipe. */
  lemma ReapFrame(w: World, id: SlotId, standard: Option<string>, o: Oracle)
    requires Inv(w) && Enabled(w, Reap(id, standard, o))
    ensures var w' := Next(w, Reap(id, standard, o));
      && w' == w[id.pipe := w[id.pipe].(slots := w'[id.pipe].slots)]
      && |w'[id.pipe].slots| == |w[id.pipe].slots|
      && forall i | 0 <= i < |w[id.pipe].slots| :: w'[id.pipe].slots[i].frees == w[id.pipe].slots[i].frees
  {
    ReapIsRecognized(w, id, standard, o);
  }

  lemma ReapIsModular(w: World, id: SlotId, standard: Option<string>, o: Oracle)
    requires Inv(w) && Enabled(w, Reap(id, standard, o))
    requires forall p | p in w :: IsModular(p)
    ensures forall p | p in Next(w, Reap(id, standard, o)) :: IsModular(p)
  {
    ReapFrame(w, id, standard, o);
    assert IsModular(w[id.pipe]);
  }

  lemma StepIsModular(w: World, step: Step)
    requires Inv(w) && Enabled(w, step)
    requires forall p | p in w :: IsModular(p)
    ensures forall p | p in Next(w, step) :: IsModular(p)
  {
    if step.Reap? {
      ReapIsModular(w, step.id, step.standard, step.oracle);
    } else {
      OtherIsModular(w, step);
    }
  }

  lemma OtherIsModular(w: World, step: Step)
    requires Inv(w) && Enabled(w, step) && !step.Reap?
    requires forall p | p in w :: IsModular(p)
    ensures forall p | p in Next(w, step) :: IsModular(p)
  {
    if step.Start? || step.HandleFinished? {
      TransfersAreModular(w, step);
    } else if step.Complete? {
      var p := w[step.id.pipe];
      assert p in w;
      SameRingIsModular(p, CompleteSlot(p, step.id.index, step.completion));
      OneIsModular(w, step.id.pipe, CompleteSlot(p, step.id.index, step.completion));
    } else if !step.Open? {
      QuietIsModular(w, step);
    }
  }

  lemma TransfersAreModular(w: World, step: Step)
    requires Enabled(w, step) && (step.Start? || step.HandleFinished?)
    requires forall p | p in w :: IsModular(p)
    ensures forall p | p in Next(w, step) :: IsModular(p)
  {
    var p := w[step.pipe];
    assert p in w;
    if step.Start? {
      SameRingIsModular(p, p.(enabled := true));
      SubmitAllIsModular(p.(enabled := true), step.answers);
      OneIsModular(w, step.pipe, SubmitAll(p.(enabled := true), step.answers));
    } else {
      FinishIsModular(p, step.oracle, step.answer);
      OneIsModular(w, step.pipe, Finish(p, step.oracle, step.answer));
    }
  }

  lemma QuietIsModular(w: World, step: Step)
    requires Inv(w) && Enabled(w, step) && (step.Allocate? || step.Cancel? || step.Close?)
    requires forall p | p in w :: IsModular(p)
    ensures forall p | p in Next(w, step) :: IsModular(p)
  {
    var p := w[step.pipe];
    assert p in w;
    match step
    case Allocate(pipe, size, garbage) =>
      assert PipeInv(p, pipe, false);
      var q := p.(slots := NewSlots(p.endpoint, size, pipe, garbage), size := size);
      NewRingIsModular(q);
      OneIsModular(w, pipe, q);
    case Cancel(pipe) =>
      SameRingIsModular(p, p.(enabled := false));
      OneIsModular(w, pipe, p.(enabled := false));
    case Close(pipe) =>
      SameRingIsModular(p, p.(closed := true, slots := FreeSlots(p.slots)));
      OneIsModular(w, pipe, p.(closed := true, slots := FreeSlots(p.slots)));
  }

  lemma NewRingIsModular(p: Pipe)
    requires p.nextFinish == p.nextSubmit == |p.delivered| == |p.fates| == 0
    ensures IsModular(p)
  {}

  lemma SameRingIsModular(p: Pipe, q: Pipe)
    requires IsModular(p)
    requires |q.slots| == |p.slots| && q.nextFinish == p.nextFinish && q.nextSubmit == p.nextSubmit
    requires |q.delivered| == |p.delivered| && |q.fates| == |p.fates|
    ensures IsModular(q)
  {}

  lemma OneIsModular(w: World, pipe: nat, q: Pipe)
    requires pipe < |w| && (forall p | p in w :: IsModular(p)) && IsModular(q)
    ensures forall p | p in w[pipe := q] :: IsModular(p)
  {}

  lemma {:induction false} RunIsModular(w: World, steps: seq<Step>)
    requires Inv(w) && CanExecute(w, steps)
    requires forall p | p in w :: IsModular(p)
    ensures forall p | p in Execute(w, steps) :: IsModular(p)
    decreases |steps|
  {
    if steps != [] {
      StepKeeps(w, steps[0]);
      StepIsModular(w, steps[0]);
      RunIsModular(Next(w, steps[0]), steps[1..]);
    }
  }

  lemma OffsetOfModulo(p: Pipe, k: nat)
    requires p.slots != [] && p.nextFinish == |p.delivered| % |p.slots| && k < |p.slots|
    ensures Offset(p, (|p.delivered| + k) % |p.slots|) == k
  {
    var n, d := |p.slots|, |p.delivered|;
    var i := (d + k) % n;
    var m := (d + k) / n - d / n;
    assert m * n == d % n + k - i;
    MultiplesApart(m, n);
  }

  /** The ring is a queue.  Deliveries are a prefix of the submissions, each faithful to
      the fate of its submission; the window is the rest of the submissions, in order,
      submission number n in slot n modulo the number of transfers. */
  lemma RingIsQueue(w: World, pipe: nat)
    requires Reachable(w) && pipe < |w|
    ensures var p := w[pipe];
      && |p.fates| == |p.delivered| + p.pendingCount
      && (forall j | 0 <= j < |p.delivered| :: Faithful(p.fates[j], p.delivered[j], p.size))
      && (p.slots == [] ==> p.fates == [])
      && (p.slots != [] ==>
          && p.nextFinish == |p.delivered| % |p.slots|
          && p.nextSubmit == |p.fates| % |p.slots|
          && forall n | |p.delivered| <= n < |p.fates| ::
               MatchesSubmission(p.slots[n % |p.slots|], n, p.fates[n]))
  {
    ReachableRing(w, pipe);
    var p := w[pipe];
    if p.slots != [] {
      forall n | |p.delivered| <= n < |p.fates|
        ensures MatchesSubmission(p.slots[n % |p.slots|], n, p.fates[n])
      {
        WindowMatches(p, pipe, n);
      }
    }
  }

  lemma ReachableRing(w: World, pipe: nat)
    requires Reachable(w) && pipe < |w|
    ensures PipeInv(w[pipe], pipe, false) && IsModular(w[pipe])
  {
    Always(w);
    var steps :| IsRun([], steps, w);
    RunIsModular([], steps);
  }

  lemma WindowMatches(p: Pipe, pipe: nat, n: nat)
    requires PipeInv(p, pipe, false) && IsModular(p) && p.slots != [] && |p.delivered| <= n < |p.fates|
    ensures MatchesSubmission(p.slots[n % |p.slots|], n, p.fates[n])
  {
    OffsetOfModulo(p, n - |p.delivered|);
    SlotMatches(p, pipe, n % |p.slots|, n);
  }

  lemma SlotMatches(p: Pipe, pipe: nat, i: nat, n: nat)
    requires PipeInv(p, pipe, false) && |p.delivered| <= n < |p.fates| && i < |p.slots|
    requires Offset(p, i) == n - |p.delivered|
    ensures MatchesSubmission(p.slots[i], n, p.fates[n])
  {
    assert SlotInv(p, pipe, i);
  }

  /** Between calls the indices are in range and agree, no assertion has failed, and
      whatever the kernel holds is in the window, fewer than pendingCount slots from
      nextFinish on. */
  lemma RingIsConsistent(w: World, pipe: nat)
    requires Reachable(w) && pipe < |w| && w[pipe].slots != []
    ensures var p := w[pipe];
      && !p.failed
      && p.nextFinish < |p.slots| && p.nextSubmit < |p.slots| && p.pendingCount <= |p.slots|
      && p.nextSubmit == (p.nextFinish + p.pendingCount) % |p.slots|
      && forall i | 0 <= i < |p.slots| && !p.slots[i].held.NotHeld? :: Offset(p, i) < p.pendingCount
  {
    Always(w);
    var p := w[pipe];
    assert PipeInv(p, pipe, false);
    RoundTheRing(p.nextFinish, p.pendingCount, |p.slots|);
    forall i | 0 <= i < |p.slots| && !p.slots[i].held.NotHeld? ensures Offset(p, i) < p.pendingCount {
      assert SlotInv(p, pipe, i);
    }
  }

  lemma RoundTheRing(start: nat, k: nat, bound: nat)
    requires start < bound && k <= bound
    ensures (start + k) % bound == if start + k < bound then start + k else start + k - bound
  {
    if start + k >= bound {
      assert (start + k - bound) % bound == start + k - bound;
      assert (start + k) == (start + k - bound) + 1 * bound;
    }
  }

  /** Endless transfers keep every transfer in use between calls. */
  lemma EndlessMeansFull(w: World, pipe: nat)
    requires Reachable(w) && pipe < |w|
    ensures var p := w[pipe];
      && (p.enabled ==> p.pendingCount == |p.slots| > 0)
      && p.pendingCount <= |p.slots|
  {
    Always(w);
    assert PipeInv(w[pipe], pipe, false);
  }

  // ---- Nothing that happened is undone ----

  /** What a pipe's later state has in common with an earlier one: the history of
      deliveries only grows, fates are settled once, and a closed pipe stays as it is
      except for what the kernel still does to its transfers. */
  predicate Continues(p: Pipe, q: Pipe) {
    && p.delivered <= q.delivered
    && |p.fates| <= |q.fates|
    && (forall j | 0 <= j < |p.fates| && p.fates[j] != Accepted :: q.fates[j] == p.fates[j])
    && (p.slots != [] ==> |q.slots| == |p.slots| && q.size == p.size)
    && (p.closed ==>
        && q.closed
        && q.delivered == p.delivered
        && |q.fates| == |p.fates|
        && |q.slots| == |p.slots|
        && forall i | 0 <= i < |p.slots| :: q.slots[i].frees == p.slots[i].frees)
  }

  predicate AllContinue(w: World, w': World) {
    && |w| <= |w'|
    && forall pipe | 0 <= pipe < |w| :: Continues(w[pipe], w'[pipe])
  }

  lemma SubmitNextContinues(p: Pipe, answer: Answer)
    requires !p.closed
    ensures Continues(p, SubmitNext(p, answer)) && !SubmitNext(p, answer).closed
  {}

  lemma ContinuesTransitive(p: Pipe, q: Pipe, r: Pipe)
    requires Continues(p, q) && Continues(q, r)
    ensures Continues(p, r)
  {
    assert p.delivered == q.delivered[..|p.delivered|];
    assert q.delivered == r.delivered[..|q.delivered|];
    forall j | 0 <= j < |p.fates| && p.fates[j] != Accepted ensures r.fates[j] == p.fates[j] {
      assert q.fates[j] == p.fates[j];
    }
  }

  lemma {:induction false} SubmitAllContinues(p: Pipe, answers: seq<Answer>)
    requires !p.closed
    ensures Continues(p, SubmitAll(p, answers))
    decreases |p.slots| - p.pendingCount
  {
    if !(p.failed || p.pendingCount >= |p.slots|) && CanSubmit(p) {
      var q := SubmitNext(p, First(answers));
      SubmitNextContinues(p, First(answers));
      SubmitAllContinues(q, Rest(answers));
      ContinuesTransitive(p, q, SubmitAll(q, Rest(answers)));
    }
  }

  lemma FinishContinues(p: Pipe, o: Oracle, answer: Answer)
    requires !p.closed
    ensures Continues(p, Finish(p, o, answer))
  {
    if HasFinished(p) {
      var q := Deliver(p, o);
      if q.enabled {
        SubmitNextContinues(q, answer);
        ContinuesTransitive(p, q, SubmitNext(q, answer));
      }
    }
  }

  lemma CloseContinues(p: Pipe)
    requires !p.closed
    ensures Continues(p, p.(closed := true, slots := FreeSlots(p.slots)))
  {}

  lemma CompleteContinues(p: Pipe, pipe: nat, index: nat, c: Completion)
    requires PipeInv(p, pipe, false) && index < |p.slots| && p.slots[index].held.InFlight?
    ensures Continues(p, CompleteSlot(p, index, c))
  {
    assert SlotInv(p, pipe, index);
  }

  lemma ReapContinues(w: World, id: SlotId, standard: Option<string>, o: Oracle)
    requires Inv(w) && Enabled(w, Reap(id, standard, o))
    ensures AllContinue(w, Next(w, Reap(id, standard, o)))
  {
    ReapFrame(w, id, standard, o);
  }

  lemma StepContinues(w: World, step: Step)
    requires Inv(w) && Enabled(w, step)
    ensures AllContinue(w, Next(w, step))
  {
    if step.Reap? {
      ReapContinues(w, step.id, step.standard, step.oracle);
    } else {
      OtherContinues(w, step);
    }
  }

  lemma OtherContinues(w: World, step: Step)
    requires Inv(w) && Enabled(w, step) && !step.Reap?
    ensures AllContinue(w, Next(w, step))
  {
    if step.Start? {
      SubmitAllContinues(w[step.pipe].(enabled := true), step.answers);
    } else if step.HandleFinished? {
      FinishContinues(w[step.pipe], step.oracle, step.answer);
    } else if step.Complete? {
      assert PipeInv(w[step.id.pipe], step.id.pipe, false);
      CompleteContinues(w[step.id.pipe], step.id.pipe, step.id.index, step.completion);
    } else {
      QuietContinues(w, step);
    }
  }

  lemma QuietContinues(w: World, step: Step)
    requires Inv(w) && Enabled(w, step)
    requires step.Open? || step.Allocate? || step.Cancel? || step.Close?
    ensures AllContinue(w, Next(w, step))
  {
    match step
    case Open(_) =>
    case Allocate(pipe, size, garbage) =>
      var slots := NewSlots(w[pipe].endpoint, size, pipe, garbage);
      AllocateContinues(w[pipe], pipe, slots, size);
      OnePipeContinues(w, pipe, w[pipe].(slots := slots, size := size));
    case Cancel(pipe) =>
      OnePipeContinues(w, pipe, w[pipe].(enabled := false));
    case Close(pipe) =>
      CloseContinues(w[pipe]);
      OnePipeContinues(w, pipe, w[pipe].(closed := true, slots := FreeSlots(w[pipe].slots)));
  }

  lemma OnePipeContinues(w: World, pipe: nat, q: Pipe)
    requires pipe < |w| && Continues(w[pipe], q)
    ensures AllContinue(w, w[pipe := q])
  {}

  lemma AllocateContinues(p: Pipe, pipe: nat, slots: seq<Slot>, size: nat)
    requires PipeInv(p, pipe, false) && !p.closed && p.slots == []
    ensures Continues(p, p.(slots := slots, size := size))
  {}

  lemma {:induction false} RunContinues(w: World, steps: seq<Step>)
    requires Inv(w) && CanExecute(w, steps)
    ensures AllContinue(w, Execute(w, steps))
    decreases |steps|
  {
    if steps != [] {
      var w1 := Next(w, steps[0]);
      StepKeeps(w, steps[0]);
      StepContinues(w, steps[0]);
      RunContinues(w1, steps[1..]);
      var w2 := Execute(w1, steps[1..]);
      forall pipe | 0 <= pipe < |w| ensures Continues(w[pipe], w2[pipe]) {
        ContinuesTransitive(w[pipe], w1[pipe], w2[pipe]);
      }
    }
  }

  /** Closing a pipe frees each of its transfers exactly once, for good, except those the
      kernel holds at that moment; those are leaked, whatever happens later. */
  lemma CloseFreesOrLeaks(w: World, pipe: nat, after: seq<Step>)
    requires Reachable(w) && Enabled(w, Close(pipe))
    requires CanExecute(Next(w, Close(pipe)), after)
    ensures var w' := Execute(Next(w, Close(pipe)), after);
      && pipe < |w'| && |w'[pipe].slots| == |w[pipe].slots|
      && forall i | 0 <= i < |w[pipe].slots| ::
           w'[pipe].slots[i].frees == if w[pipe].slots[i].held.NotHeld? then 1 else 0
  {
    Always(w);
    var w1 := Next(w, Close(pipe));
    StepKeeps(w, Close(pipe));
    RunContinues(w1, after);
    assert Continues(w1[pipe], Execute(w1, after)[pipe]);
    assert PipeInv(w[pipe], pipe, false);
    forall i | 0 <= i < |w[pipe].slots|
      ensures w1[pipe].slots[i].frees == if w[pipe].slots[i].held.NotHeld? then 1 else 0
    {
      assert SlotInv(w[pipe], pipe, i);
    }
  }

  // ---- Cancelling and draining ----

  predicate Starts(step: Step, pipe: nat) {
    step.Start? && step.pipe == pipe
  }

  /** One step while endless transfers are off: nothing is submitted, so what leaves the
      window is exactly what is delivered. */
  predicate Drains(p: Pipe, q: Pipe) {
    && !q.enabled
    && |q.fates| == |p.fates|
    && q.pendingCount + |q.delivered| == p.pendingCount + |p.delivered|
    && q.pendingCount <= p.pendingCount
  }

  lemma StepDrains(w: World, step: Step, pipe: nat)
    requires Inv(w) && Enabled(w, step) && pipe < |w|
    requires !w[pipe].enabled && !Starts(step, pipe)
    ensures pipe < |Next(w, step)| && Drains(w[pipe], Next(w, step)[pipe])
  {
    if step.Reap? {
      ReapDrains(w, step, pipe);
    } else {
      OtherDrains(w, step, pipe);
    }
  }

  lemma ReapDrains(w: World, step: Step, pipe: nat)
    requires Inv(w) && Enabled(w, step) && pipe < |w|
    requires !w[pipe].enabled && step.Reap?
    ensures pipe < |Next(w, step)| && Drains(w[pipe], Next(w, step)[pipe])
  {
    ReapFrame(w, step.id, step.standard, step.oracle);
  }

  lemma OtherDrains(w: World, step: Step, pipe: nat)
    requires Inv(w) && Enabled(w, step) && pipe < |w|
    requires !w[pipe].enabled && !Starts(step, pipe) && !step.Reap?
    ensures pipe < |Next(w, step)| && Drains(w[pipe], Next(w, step)[pipe])
  {
    if step.HandleFinished? {
      FinishDrains(w[step.pipe], step.pipe, step.oracle, step.answer);
    } else if step.Start? {
      assert Next(w, step)[pipe] == w[pipe];
    } else if step.Complete? {
      CompleteDrains(w[step.id.pipe], step.id.index, step.completion);
    } else {
      QuietDrains(w, step, pipe);
    }
  }

  lemma QuietDrains(w: World, step: Step, pipe: nat)
    requires Enabled(w, step) && pipe < |w| && !w[pipe].enabled
    requires step.Open? || step.Allocate? || step.Cancel? || step.Close?
    ensures pipe < |Next(w, step)| && Drains(w[pipe], Next(w, step)[pipe])
  {
    match step
    case Open(_) =>
    case Allocate(k, size, garbage) =>
      OneDrains(w, k, w[k].(slots := NewSlots(w[k].endpoint, size, k, garbage), size := size), pipe);
    case Cancel(k) =>
      OneDrains(w, k, w[k].(enabled := false), pipe);
    case Close(k) =>
      OneDrains(w, k, w[k].(closed := true, slots := FreeSlots(w[k].slots)), pipe);
  }

  lemma OneDrains(w: World, k: nat, q: Pipe, pipe: nat)
    requires k < |w| && pipe < |w| && !w[pipe].enabled && (!w[k].enabled ==> Drains(w[k], q))
    ensures Drains(w[pipe], w[k := q][pipe])
  {}

  lemma CompleteDrains(p: Pipe, index: nat, c: Completion)
    requires index < |p.slots| && p.slots[index].held.InFlight?
    ensures !p.enabled ==> Drains(p, CompleteSlot(p, index, c))
  {}

  lemma FinishDrains(p: Pipe, pipe: nat, o: Oracle, answer: Answer)
    requires PipeInv(p, pipe, false) && !p.closed
    ensures !p.enabled ==> Drains(p, Finish(p, o, answer))
  {
    if HasFinished(p) {
      DeliverKeepsHistory(p, pipe, o);
    }
  }

  /** After cancel the number of pending transfers never rises until a restart, and it
      falls by exactly the number of transfers delivered. */
  lemma {:induction false} CancelledPipeDrains(w: World, steps: seq<Step>, pipe: nat)
    requires Inv(w) && CanExecute(w, steps) && pipe < |w|
    requires !w[pipe].enabled && forall step | step in steps :: !Starts(step, pipe)
    ensures pipe < |Execute(w, steps)| && Drains(w[pipe], Execute(w, steps)[pipe])
    decreases |steps|
  {
    if steps != [] {
      StepKeeps(w, steps[0]);
      StepDrains(w, steps[0], pipe);
      CancelledPipeDrains(Next(w, steps[0]), steps[1..], pipe);
    }
  }

  /** The inner loop of a drain: handle_finished_transfer, once for each oracle. */
  function FinishTimes(p: Pipe, oracles: seq<Oracle>): Pipe
    decreases |oracles|
  {
    if oracles == [] then p else FinishTimes(Finish(p, oracles[0], Accept), oracles[1..])
  }

  /** Once the kernel has given back the transfers in the window, the drain loop ends
      after exactly as many finished transfers as were pending, delivering them all. */
  lemma {:induction false} DrainLoopEnds(p: Pipe, pipe: nat, oracles: seq<Oracle>)
    requires PipeInv(p, pipe, false) && !p.closed && !p.enabled
    requires forall s | s in p.slots :: !s.pending
    requires |oracles| <= p.pendingCount
    ensures var q := FinishTimes(p, oracles);
      && PipeInv(q, pipe, false)
      && q.pendingCount == p.pendingCount - |oracles|
      && |q.delivered| == |p.delivered| + |oracles|
      && q.slots == p.slots
      && q.fates == p.fates
    decreases |oracles|
  {
    if oracles != [] {
      assert p.slots[p.nextFinish] in p.slots;
      DeliverKeeps(p, pipe, oracles[0]);
      FinishKeeps(p, pipe, oracles[0], Accept);
      DrainLoopEnds(Finish(p, oracles[0], Accept), pipe, oracles[1..]);
    }
  }
}
