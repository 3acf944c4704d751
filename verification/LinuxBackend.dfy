/** Every transfer of every pipe goes through runs of the automaton of Backends.dfy, on
    every run of the pipe model. */
module LinuxBackend {
  import opened Base
  import opened PipeModel
  import opened PipeInvariant
  import opened PipeTheorems
  import opened Backends

  ghost predicate AllFollow(p: Pipe, q: Pipe) {
    |q.slots| >= |p.slots| && forall i | 0 <= i < |p.slots| :: Follows(p.slots[i], q.slots[i])
  }

  lemma SameSlotsFollow(p: Pipe, q: Pipe)
    requires |q.slots| >= |p.slots|
    requires forall i | 0 <= i < |p.slots| ::
      && q.slots[i].pending == p.slots[i].pending && q.slots[i].error == p.slots[i].error
      && q.slots[i].submits == p.slots[i].submits && q.slots[i].ends == p.slots[i].ends
      && Transferred(q.slots[i]) == Transferred(p.slots[i]) && q.slots[i].buffer == p.slots[i].buffer
    ensures AllFollow(p, q)
  {
    forall i | 0 <= i < |p.slots| ensures Follows(p.slots[i], q.slots[i]) {
      FollowsSame(p.slots[i], q.slots[i]);
    }
  }

  lemma OneSlotFollows(p: Pipe, q: Pipe, index: nat)
    requires index < |p.slots| == |q.slots| && q.slots == p.slots[index := q.slots[index]]
    requires Follows(p.slots[index], q.slots[index])
    ensures AllFollow(p, q)
  {
    forall i | 0 <= i < |p.slots| ensures Follows(p.slots[i], q.slots[i]) {
      if i != index {
        FollowsSame(p.slots[i], q.slots[i]);
      }
    }
  }

  lemma AllFollowTransitive(p: Pipe, q: Pipe, r: Pipe)
    requires AllFollow(p, q) && AllFollow(q, r)
    ensures AllFollow(p, r)
  {
    forall i | 0 <= i < |p.slots| ensures Follows(p.slots[i], r.slots[i]) {
      FollowsTransitive(p.slots[i], q.slots[i], r.slots[i]);
    }
  }

  lemma SubmitNextFollows(p: Pipe, answer: Answer)
    requires CanSubmit(p)
    ensures AllFollow(p, SubmitNext(p, answer))
  {
    SubmitFollows(p.slots[p.nextSubmit], |p.fates|, answer);
    OneSlotFollows(p, SubmitNext(p, answer), p.nextSubmit);
  }

  lemma {:induction false} SubmitAllFollows(p: Pipe, answers: seq<Answer>)
    ensures AllFollow(p, SubmitAll(p, answers))
    decreases |p.slots| - p.pendingCount
  {
    if !(p.failed || p.pendingCount >= |p.slots|) && CanSubmit(p) {
      SubmitNextFollows(p, First(answers));
      SubmitAllFollows(SubmitNext(p, First(answers)), Rest(answers));
      AllFollowTransitive(p, SubmitNext(p, First(answers)), SubmitAll(p, answers));
    } else {
      SameSlotsFollow(p, SubmitAll(p, answers));
    }
  }

  lemma FinishFollows(p: Pipe, o: Oracle, answer: Answer)
    ensures AllFollow(p, Finish(p, o, answer))
  {
    if HasFinished(p) {
      var q := Deliver(p, o);
      SameSlotsFollow(p, q);
      if q.enabled && CanSubmit(q) {
        SubmitNextFollows(q, answer);
        AllFollowTransitive(p, q, SubmitNext(q, answer));
      } else {
        SameSlotsFollow(p, Finish(p, o, answer));
      }
    } else {
      SameSlotsFollow(p, Finish(p, o, answer));
    }
  }

  lemma OnePipeFollows(w: World, k: nat, q: Pipe, pipe: nat)
    requires k < |w| && pipe < |w| && AllFollow(w[k], q)
    ensures AllFollow(w[pipe], w[k := q][pipe])
  {
    if pipe != k {
      SameSlotsFollow(w[pipe], w[pipe]);
    }
  }

  /** A step of the library that submits nothing. */
  lemma QuietFollows(w: World, step: PipeModel.Step, pipe: nat)
    requires Inv(w) && Enabled(w, step) && pipe < |w|
    requires step.Open? || step.Allocate? || step.Cancel? || step.Close?
    ensures AllFollow(w[pipe], Next(w, step)[pipe])
  {
    match step
    case Open(_) =>
      SameSlotsFollow(w[pipe], w[pipe]);
    case Allocate(k, size, garbage) =>
      var q := w[k].(slots := NewSlots(w[k].endpoint, size, k, garbage), size := size);
      SameSlotsFollow(w[k], q);
      OnePipeFollows(w, k, q, pipe);
    case Cancel(k) =>
      SameSlotsFollow(w[k], w[k].(enabled := false));
      OnePipeFollows(w, k, w[k].(enabled := false), pipe);
    case Close(k) =>
      var q := w[k].(closed := true, slots := FreeSlots(w[k].slots));
      SameSlotsFollow(w[k], q);
      OnePipeFollows(w, k, q, pipe);
  }

  lemma KernelFollows(w: World, step: PipeModel.Step, pipe: nat)
    requires Inv(w) && Enabled(w, step) && pipe < |w| && (step.Complete? || step.Reap?)
    ensures AllFollow(w[pipe], Next(w, step)[pipe])
  {
    var id := step.id;
    var p := w[id.pipe];
    if step.Complete? {
      var q := CompleteSlot(p, id.index, step.completion);
      SameSlotsFollow(p, q);
      OnePipeFollows(w, id.pipe, q, pipe);
    } else {
      ReapIsRecognized(w, id, step.standard, step.oracle);
      ReapFollows(At(w, id), step.standard, step.oracle);
      var q := p.(slots := p.slots[id.index := Reaped(At(w, id), step.standard, step.oracle)]);
      OneSlotFollows(p, q, id.index);
      OnePipeFollows(w, id.pipe, q, pipe);
    }
  }

  lemma StepFollows(w: World, step: PipeModel.Step, id: SlotId)
    requires Inv(w) && Enabled(w, step) && IsSlot(w, id)
    ensures IsSlot(Next(w, step), id)
    ensures Follows(At(w, id), At(Next(w, step), id))
  {
    if step.Start? {
      var p := w[step.pipe];
      SameSlotsFollow(p, p.(enabled := true));
      SubmitAllFollows(p.(enabled := true), step.answers);
      AllFollowTransitive(p, p.(enabled := true), SubmitAll(p.(enabled := true), step.answers));
      OnePipeFollows(w, step.pipe, SubmitAll(p.(enabled := true), step.answers), id.pipe);
    } else if step.HandleFinished? {
      FinishFollows(w[step.pipe], step.oracle, step.answer);
      OnePipeFollows(w, step.pipe, Finish(w[step.pipe], step.oracle, step.answer), id.pipe);
    } else if step.Complete? || step.Reap? {
      KernelFollows(w, step, id.pipe);
    } else {
      QuietFollows(w, step, id.pipe);
    }
  }

  lemma {:induction false} RunFollows(w: World, steps: seq<PipeModel.Step>, id: SlotId)
    requires Inv(w) && CanExecute(w, steps) && IsSlot(w, id)
    ensures IsSlot(Execute(w, steps), id)
    ensures Follows(At(w, id), At(Execute(w, steps), id))
    decreases |steps|
  {
    if steps == [] {
      FollowsSame(At(w, id), At(w, id));
    } else {
      var w1 := Next(w, steps[0]);
      StepKeeps(w, steps[0]);
      StepFollows(w, steps[0], id);
      RunFollows(w1, steps[1..], id);
      FollowsTransitive(At(w, id), At(w1, id), At(Execute(w1, steps[1..]), id));
    }
  }

  // ---- From the start ----

  /** Some run of the automaton leads to the state of the transfer. */
  ghost predicate IsBacked(s: Slot) {
    exists a :: Reached(a) && Represents(s, a)
  }

  lemma FollowsBacked(s: Slot, t: Slot)
    requires IsBacked(s) && Follows(s, t)
    ensures IsBacked(t)
  {
    var a :| Reached(a) && Represents(s, a);
    var events :| IsPath(s, t, a, events);
    var first :| CanRun(START, first) && RunEvents(START, first) == a;
    RunsAppend(START, first, events);
    assert Reached(RunEvents(a, events));
  }

  lemma StepBacked(w: World, step: PipeModel.Step, id: SlotId)
    requires Inv(w) && Enabled(w, step) && IsSlot(Next(w, step), id)
    requires IsSlot(w, id) ==> IsBacked(At(w, id))
    ensures IsBacked(At(Next(w, step), id))
  {
    if IsSlot(w, id) {
      StepFollows(w, step, id);
      FollowsBacked(At(w, id), At(Next(w, step), id));
    } else {
      OnlyAllocationMakesTransfers(w, step, id);
      StartReached();
      assert Represents(At(Next(w, step), id), START);
    }
  }

  lemma OnlyAllocationMakesTransfers(w: World, step: PipeModel.Step, id: SlotId)
    requires Inv(w) && Enabled(w, step) && IsSlot(Next(w, step), id) && !IsSlot(w, id)
    ensures step.Allocate? && step.pipe == id.pipe
    ensures At(Next(w, step), id) == NewSlot(w[id.pipe].endpoint, step.size, id, step.garbage[id.index])
  {
    if step.Reap? {
      ReapFrame(w, step.id, step.standard, step.oracle);
    } else if step.Start? {
      SubmitAllKeepsCount(w[step.pipe].(enabled := true), step.answers);
    }
  }

  lemma {:induction false} SubmitAllKeepsCount(p: Pipe, answers: seq<Answer>)
    ensures |SubmitAll(p, answers).slots| == |p.slots|
    decreases |p.slots| - p.pendingCount
  {
    if !(p.failed || p.pendingCount >= |p.slots|) && CanSubmit(p) {
      SubmitAllKeepsCount(SubmitNext(p, First(answers)), Rest(answers));
    }
  }

  lemma {:induction false} RunBacked(w: World, steps: seq<PipeModel.Step>, id: SlotId)
    requires Inv(w) && CanExecute(w, steps) && IsSlot(Execute(w, steps), id)
    requires IsSlot(w, id) ==> IsBacked(At(w, id))
    ensures IsBacked(At(Execute(w, steps), id))
    decreases |steps|
  {
    if steps != [] {
      var w1 := Next(w, steps[0]);
      StepKeeps(w, steps[0]);
      if IsSlot(w1, id) {
        StepBacked(w, steps[0], id);
      }
      RunBacked(w1, steps[1..], id);
    }
  }

  /** Every transfer of a reachable world is in a state that a run of the automaton leads
      to; so each of its submissions ends at most once, and while it is pending it stores
      no error. */
  lemma LinuxEndsOnce(w: World, id: SlotId)
    requires Reachable(w) && IsSlot(w, id)
    ensures IsBacked(At(w, id))
    ensures At(w, id).submits == At(w, id).ends + (if At(w, id).pending then 1 else 0)
    ensures At(w, id).pending ==> At(w, id).error.Null?
  {
    var steps :| IsRun([], steps, w);
    RunBacked([], steps, id);
    var a :| Reached(a) && Represents(At(w, id), a);
    EachSubmitEndsOnce(a);
  }

  /** Submissions are counted, and until the next one a transfer that has ended keeps its
      error, its byte count and its bytes. */
  predicate KeepsResult(s: Slot, t: Slot) {
    && t.submits >= s.submits
    && (!s.pending && t.submits == s.submits ==>
        && !t.pending && t.error == s.error
        && Transferred(t) == Transferred(s) <= |s.buffer| == |t.buffer|
        && Shown(t) == Shown(s))
  }

  /** Along any run once a transfer has ended its result stays until its own next
      submission, whatever happens to the other transfers of its pipe and to other pipes. */
  lemma {:induction false} LinuxResultStays(w: World, steps: seq<PipeModel.Step>, id: SlotId)
    requires Reachable(w) && IsSlot(w, id) && CanExecute(w, steps)
    ensures IsSlot(Execute(w, steps), id)
    ensures KeepsResult(At(w, id), At(Execute(w, steps), id))
  {
    Always(w);
    BackedAndFitting(w, id);
    RunKeepsResult(w, steps, id);
  }

  lemma {:induction false} RunKeepsResult(w: World, steps: seq<PipeModel.Step>, id: SlotId)
    requires Inv(w) && IsSlot(w, id) && CanExecute(w, steps)
    requires IsBacked(At(w, id)) && Transferred(At(w, id)) <= |At(w, id).buffer|
    ensures IsSlot(Execute(w, steps), id)
    ensures KeepsResult(At(w, id), At(Execute(w, steps), id))
  {
    RunFollows(w, steps, id);
    FollowedSlotKeepsResult(w, Execute(w, steps), id);
  }

  lemma FollowedSlotKeepsResult(w: World, w': World, id: SlotId)
    requires IsSlot(w, id) && IsSlot(w', id) && Follows(At(w, id), At(w', id))
    requires IsBacked(At(w, id)) && Transferred(At(w, id)) <= |At(w, id).buffer|
    ensures KeepsResult(At(w, id), At(w', id))
  {
    FollowedKeepsResult(At(w, id), At(w', id));
  }

  lemma BackedAndFitting(w: World, id: SlotId)
    requires Reachable(w) && IsSlot(w, id)
    ensures IsBacked(At(w, id)) && Transferred(At(w, id)) <= |At(w, id).buffer|
  {
    LinuxEndsOnce(w, id);
    Always(w);
    BytesFit(w[id.pipe], id.pipe, id.index);
  }

  lemma FollowedKeepsResult(s: Slot, t: Slot)
    requires IsBacked(s) && Follows(s, t) && Transferred(s) <= |s.buffer|
    ensures KeepsResult(s, t)
  {
    var a :| Reached(a) && Represents(s, a);
    var events :| IsPath(s, t, a, events);
    SubmitsAreCounted(a, events);
    if !s.pending && t.submits == s.submits {
      ResultIsFixed(a, events);
    }
  }

  lemma BytesFit(p: Pipe, pipe: nat, index: nat)
    requires PipeInv(p, pipe, false) && index < |p.slots|
    ensures Transferred(p.slots[index]) <= |p.slots[index].buffer|
  {
    assert SlotInv(p, pipe, index);
  }
}
