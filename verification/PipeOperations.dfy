/** What each call and each move of the kernel does, in terms of what a user or the kernel
    sees: submissions, deliveries, and who holds which transfer. */
module PipeOperations {
  import opened Base
  import opened ErrorModel
  import opened LinuxErrors
  import opened PipeModel
  import opened PipeInvariant
  import opened PipeTheorems

  // ---- Deliveries ----

  /** The bytes of a delivery of a URB that the kernel completed: as many as the kernel
      reported, the whole buffer if it reported more or a negative number; and they are the
      ones it wrote, as far as it wrote that many. */
  lemma DeliveredExactly(w: World, pipe: nat, j: nat)
    requires Reachable(w) && pipe < |w| && j < |w[pipe].delivered|
    ensures var p := w[pipe];
      && j < |p.fates|
      && (p.fates[j].Completed? ==>
          var c, data := p.fates[j].completion, p.delivered[j].data;
          && |data| == (if 0 <= c.actualLength <= p.size then c.actualLength else p.size)
          && (forall k | 0 <= k < |data| && k < |c.data| :: data[k] == c.data[k])
          && (c.actualLength == |c.data| <= p.size ==> data == c.data))
  {
    RingIsQueue(w, pipe);
    var p := w[pipe];
    assert Faithful(p.fates[j], p.delivered[j], p.size);
    if p.fates[j].Completed? {
      AgreementByPlace(p.delivered[j].data, p.fates[j].completion.data);
    }
  }

  lemma AgreementByPlace(a: seq<byte>, b: seq<byte>)
    requires Agree(a, b)
    ensures forall k | 0 <= k < |a| && k < |b| :: a[k] == b[k]
    ensures |a| == |b| ==> a == b
  {
    if |a| <= |b| {
      assert a == b[..|a|];
    } else {
      assert b == a[..|b|];
    }
  }

  /** The error of a delivery: none for a good URB, otherwise the documented codes for the
      status, or for the errno of the refusal, or MEMORY. */
  lemma DeliveredErrorExactly(w: World, pipe: nat, j: nat)
    requires Reachable(w) && pipe < |w| && j < |w[pipe].delivered|
    ensures var p := w[pipe];
      && j < |p.fates|
      && var e := p.delivered[j].error;
         match p.fates[j]
         case Accepted => false
         case Refused(errno, _) => !e.Null? && (Codes(e) == DocumentedCodes(errno) || MEMORY in Codes(e))
         case Completed(c) =>
           if c.status == 0 && c.errorCount == 0 then e.Null?
           else !e.Null? && (Codes(e) == CompletionCodes(c.status) || MEMORY in Codes(e))
  {
    RingIsQueue(w, pipe);
    assert Faithful(w[pipe].fates[j], w[pipe].delivered[j], w[pipe].size);
  }

  // ---- Calls ----

  /** The fate of a submission right after the kernel's answer to it; a refusal is reported
      as documented for its errno. */
  predicate Answers(fate: Fate, answer: Answer) {
    match answer
    case Accept => fate == Accepted
    case Refuse(errno, standard, o) =>
      fate.Refused? && fate.errno == errno && IsSubmitFailure(fate.error, errno, standard, o)
  }

  lemma FateAnswers(answer: Answer)
    ensures Answers(FateOf(answer), answer)
    ensures answer.Refuse? ==> IsSubmitFailure(AnswerError(answer), answer.errno, answer.standard, answer.oracle)
  {
    if answer.Refuse? {
      SubmitErrorDocumented(answer.errno, answer.standard, answer.oracle);
    }
  }

  /** Everything of a pipe but its transfers and its history. */
  predicate SameSetup(p: Pipe, q: Pipe) {
    q.endpoint == p.endpoint && q.size == p.size && |q.slots| == |p.slots| && q.closed == p.closed
  }

  lemma OpenAddsPipe(w: World, endpoint: byte)
    requires Reachable(w) && Enabled(w, Open(endpoint))
    ensures 0x81 <= endpoint <= 0x8F
    ensures var w' := Next(w, Open(endpoint));
      && |w'| == |w| + 1 && w'[..|w|] == w
      && var q := w'[|w|];
         && q.endpoint == endpoint && q.slots == [] && !q.enabled && !q.closed
         && q.pendingCount == 0 && q.fates == [] && q.delivered == []
  {}

  lemma AllocateAddsTransfers(w: World, pipe: nat, size: nat, garbage: seq<seq<byte>>)
    requires Reachable(w) && Enabled(w, Allocate(pipe, size, garbage))
    ensures var w', p := Next(w, Allocate(pipe, size, garbage)), w[pipe];
      && |w'| == |w| && w' == w[pipe := w'[pipe]]
      && var q := w'[pipe];
         && q.endpoint == p.endpoint && q.size == size && |q.slots| == |garbage|
         && q.enabled == p.enabled && q.closed == p.closed && q.pendingCount == 0
         && q.fates == p.fates == [] && q.delivered == p.delivered
         && forall i | 0 <= i < |garbage| ::
              && q.slots[i].held.NotHeld? && !q.slots[i].pending && q.slots[i].error.Null?
              && q.slots[i].buffer == garbage[i] && q.slots[i].bufferLength == size
              && q.slots[i].endpoint == p.endpoint && q.slots[i].context == Some(SlotId(pipe, i))
  {
    Always(w);
    assert PipeInv(w[pipe], pipe, false);
  }

  /** Starting fills the window: endless transfers are on, every free transfer has been
      submitted, in order, with the kernel's answers, and nothing is delivered. */
  lemma StartFills(w: World, pipe: nat, answers: seq<Answer>)
    requires Reachable(w) && Enabled(w, Start(pipe, answers))
    ensures var w' := Next(w, Start(pipe, answers));
      |w'| == |w| && w' == w[pipe := w'[pipe]] && IsFilled(w[pipe], w'[pipe], answers)
  {
    Always(w);
    StartDoes(w[pipe], pipe, answers);
  }

  predicate IsFilled(p: Pipe, q: Pipe, answers: seq<Answer>) {
    && SameSetup(p, q) && q.enabled && q.delivered == p.delivered
    && q.pendingCount == |q.slots| && |q.fates| == |p.delivered| + |p.slots| >= |p.fates|
    && q.fates[..|p.fates|] == p.fates
    && forall k | |p.fates| <= k < |q.fates| ::
         Answers(q.fates[k], if k - |p.fates| < |answers| then answers[k - |p.fates|] else Accept)
  }

  lemma StartDoes(p: Pipe, pipe: nat, answers: seq<Answer>)
    requires PipeInv(p, pipe, false) && !p.closed && p.slots != []
    ensures IsFilled(p, SubmitAll(p.(enabled := true), answers), answers)
  {
    EnableKeeps(p, pipe);
    SubmitAllSubmits(p.(enabled := true), pipe, answers);
    SubmitAllKeeps(p.(enabled := true), pipe, answers);
    AllFill(p, SubmitAll(p.(enabled := true), answers), answers);
  }

  lemma AllFill(p: Pipe, q: Pipe, answers: seq<Answer>)
    requires AddsAll(p.(enabled := true), q, answers) && q.pendingCount == |p.slots|
    requires |q.fates| == |q.delivered| + q.pendingCount
    ensures IsFilled(p, q, answers)
  {}

  /** What one submission adds to a pipe. */
  predicate AddsSubmission(p: Pipe, q: Pipe, answer: Answer) {
    && SameSetup(p, q) && q.enabled == p.enabled && q.delivered == p.delivered
    && q.pendingCount == p.pendingCount + 1
    && |q.fates| == |p.fates| + 1 && q.fates[..|p.fates|] == p.fates && Answers(q.fates[|p.fates|], answer)
  }

  lemma SubmitNextSubmits(p: Pipe, pipe: nat, answer: Answer)
    requires PipeInv(p, pipe, true) && p.pendingCount < |p.slots| && !p.closed
    ensures AddsSubmission(p, SubmitNext(p, answer), answer)
  {
    SubmitNextKeeps(p, pipe, answer);
    FateAnswers(answer);
  }

  /** What the submissions of a start add to a pipe. */
  predicate AddsAll(p: Pipe, q: Pipe, answers: seq<Answer>) {
    && SameSetup(p, q) && q.enabled == p.enabled && q.delivered == p.delivered
    && |q.fates| >= |p.fates| && q.fates[..|p.fates|] == p.fates
    && forall k | |p.fates| <= k < |q.fates| ::
         Answers(q.fates[k], if k - |p.fates| < |answers| then answers[k - |p.fates|] else Accept)
  }

  lemma {:induction false} SubmitAllSubmits(p: Pipe, pipe: nat, answers: seq<Answer>)
    requires PipeInv(p, pipe, true) && !p.closed
    ensures AddsAll(p, SubmitAll(p, answers), answers)
    decreases |p.slots| - p.pendingCount
  {
    if p.pendingCount < |p.slots| {
      var answer := First(answers);
      SubmitNextKeeps(p, pipe, answer);
      SubmitNextSubmits(p, pipe, answer);
      SubmitAllSubmits(SubmitNext(p, answer), pipe, Rest(answers));
      AddsOneAndAll(p, SubmitNext(p, answer), SubmitAll(SubmitNext(p, answer), Rest(answers)), answers);
    }
  }

  lemma AddsOneAndAll(p: Pipe, q: Pipe, r: Pipe, answers: seq<Answer>)
    requires AddsSubmission(p, q, if answers == [] then Accept else answers[0])
    requires AddsAll(q, r, if answers == [] then [] else answers[1..])
    ensures AddsAll(p, r, answers)
  {
    assert r.fates[..|p.fates|] == r.fates[..|q.fates|][..|p.fates|];
    forall k | |p.fates| <= k < |r.fates|
      ensures Answers(r.fates[k], if k - |p.fates| < |answers| then answers[k - |p.fates|] else Accept)
    {
      if k == |p.fates| {
        assert r.fates[k] == r.fates[..|q.fates|][k];
      }
    }
  }

  /** A transfer can be delivered exactly if there is a submission that has not been
      delivered, and the kernel does not hold the transfer of the first of these. */
  predicate CanDeliver(p: Pipe) {
    && |p.delivered| < |p.fates| && p.slots != []
    && p.slots[|p.delivered| % |p.slots|].held.NotHeld?
  }

  /** Finishing delivers one transfer exactly if it can, and then submits one exactly if
      endless transfers are on; otherwise it changes nothing. */
  lemma FinishDelivers(w: World, pipe: nat, o: Oracle, answer: Answer)
    requires Reachable(w) && IsOpen(w, pipe)
    ensures HasFinished(w[pipe]) <==> CanDeliver(w[pipe])
    ensures var w', p := Next(w, HandleFinished(pipe, o, answer)), w[pipe];
      && |w'| == |w| && w' == w[pipe := w'[pipe]]
      && var q := w'[pipe];
         && SameSetup(p, q) && q.enabled == p.enabled
         && (!CanDeliver(p) ==> q == p)
         && (CanDeliver(p) ==>
             && |q.delivered| == |p.delivered| + 1 && q.delivered[..|p.delivered|] == p.delivered
             && (if p.enabled
                 then q.pendingCount == p.pendingCount
                      && |q.fates| == |p.fates| + 1 && q.fates[..|p.fates|] == p.fates
                      && Answers(q.fates[|p.fates|], answer)
                 else q.pendingCount == p.pendingCount - 1 && q.fates == p.fates))
  {
    ReachableRing(w, pipe);
    CanDeliverExactly(w[pipe], pipe);
    FinishDoes(w[pipe], pipe, o, answer);
  }

  lemma CanDeliverExactly(p: Pipe, pipe: nat)
    requires PipeInv(p, pipe, false) && IsModular(p)
    ensures HasFinished(p) <==> CanDeliver(p)
  {
    if p.slots != [] {
      assert SlotInv(p, pipe, p.nextFinish);
    }
  }

  lemma FinishDoes(p: Pipe, pipe: nat, o: Oracle, answer: Answer)
    requires PipeInv(p, pipe, false) && !p.closed
    ensures var q := Finish(p, o, answer);
      && SameSetup(p, q) && q.enabled == p.enabled
      && (!HasFinished(p) ==> q == p)
      && (HasFinished(p) ==>
          && |q.delivered| == |p.delivered| + 1 && q.delivered[..|p.delivered|] == p.delivered
          && (if p.enabled
              then q.pendingCount == p.pendingCount
                   && |q.fates| == |p.fates| + 1 && q.fates[..|p.fates|] == p.fates
                   && Answers(q.fates[|p.fates|], answer)
              else q.pendingCount == p.pendingCount - 1 && q.fates == p.fates))
  {
    if HasFinished(p) {
      DeliverKeeps(p, pipe, o);
      DeliverKeepsHistory(p, pipe, o);
      if p.enabled {
        SubmitNextSubmits(Deliver(p, o), pipe, answer);
      }
    }
  }

  /** Cancelling stops resubmission for good: until the next start nothing is submitted, so
      what was submitted before is all that is delivered or pending. */
  lemma CancelStops(w: World, pipe: nat, after: seq<Step>)
    requires Reachable(w) && Enabled(w, Cancel(pipe))
    requires CanExecute(Next(w, Cancel(pipe)), after)
    requires forall step | step in after :: !(step.Start? && step.pipe == pipe)
    ensures var w', p := Execute(Next(w, Cancel(pipe)), after), w[pipe];
      && pipe < |w'|
      && var q := w'[pipe];
         && !q.enabled && |q.fates| == |p.fates|
         && q.pendingCount + |q.delivered| == p.pendingCount + |p.delivered| == |p.fates|
  {
    Always(w);
    assert PipeInv(w[pipe], pipe, false);
    StepKeeps(w, Cancel(pipe));
    CancelDoes(w, pipe);
    CancelledPipeDrains(Next(w, Cancel(pipe)), after, pipe);
  }

  /** Cancelling changes nothing else. */
  lemma CancelDoes(w: World, pipe: nat)
    requires Reachable(w) && Enabled(w, Cancel(pipe))
    ensures var w', p := Next(w, Cancel(pipe)), w[pipe];
      && |w'| == |w| && w' == w[pipe := w'[pipe]]
      && var q := w'[pipe];
         && !q.enabled && SameSetup(p, q) && q.slots == p.slots
         && q.fates == p.fates && q.delivered == p.delivered && q.pendingCount == p.pendingCount
  {}

  /** A closed pipe is closed, with its history as it was. */
  lemma CloseEnds(w: World, pipe: nat)
    requires Reachable(w) && Enabled(w, Close(pipe))
    ensures var w', p := Next(w, Close(pipe)), w[pipe];
      && |w'| == |w| && w' == w[pipe := w'[pipe]]
      && var q := w'[pipe];
         && q.closed && |q.slots| == |p.slots| && q.fates == p.fates && q.delivered == p.delivered
         && forall i | 0 <= i < |p.slots| :: q.slots[i].held == p.slots[i].held
  {}

  // ---- The kernel ----

  /** The kernel settles the submission that the transfer is used for, and keeps the
      transfer. */
  lemma CompleteSettles(w: World, id: SlotId, c: Completion)
    requires Reachable(w) && Enabled(w, Complete(id, c))
    ensures var w', p := Next(w, Complete(id, c)), w[id.pipe];
      var n := At(w, id).held.serial;
      && n < |p.fates| && n % |p.slots| == id.index && p.fates[n] == Accepted
      && |w'| == |w| && w' == w[id.pipe := w'[id.pipe]]
      && var q := w'[id.pipe];
         && SameSetup(p, q) && q.enabled == p.enabled && q.delivered == p.delivered
         && q.pendingCount == p.pendingCount
         && q.fates == p.fates[n := Completed(c)]
         && q.slots == p.slots[id.index := At(w, id).(held := Finished(n, c))]
  {
    ReachableRing(w, id.pipe);
    HeldSerial(w[id.pipe], id.pipe, id.index);
  }

  lemma HeldSerial(p: Pipe, pipe: nat, i: nat)
    requires PipeInv(p, pipe, false) && IsModular(p) && i < |p.slots| && p.slots[i].held.InFlight?
    ensures var n := p.slots[i].held.serial; n < |p.fates| && n % |p.slots| == i && p.fates[n] == Accepted
  {
    assert SlotInv(p, pipe, i);
    var k := Offset(p, i);
    assert p.slots[i].held.serial == |p.delivered| + k;
    PlaceOfOffset(p, i);
  }

  lemma PlaceOfOffset(p: Pipe, i: nat)
    requires p.slots != [] && p.nextFinish == |p.delivered| % |p.slots| && i < |p.slots|
    ensures (|p.delivered| + Offset(p, i)) % |p.slots| == i
  {
    OffsetOfModulo(p, Offset(p, i));
    var j := (|p.delivered| + Offset(p, i)) % |p.slots|;
    assert Offset(p, j) == Offset(p, i);
  }

  /** Handing out a URB gives its transfer back, with what the kernel reports and writes,
      and touches nothing else. */
  lemma ReapGivesBack(w: World, id: SlotId, standard: Option<string>, o: Oracle)
    requires Reachable(w) && Enabled(w, Reap(id, standard, o))
    ensures var w', p := Next(w, Reap(id, standard, o)), w[id.pipe];
      && |w'| == |w| && w' == w[id.pipe := w'[id.pipe]]
      && var q, c := w'[id.pipe], At(w, id).held.completion;
         && SameSetup(p, q) && q.enabled == p.enabled && q.pendingCount == p.pendingCount
         && q.fates == p.fates && q.delivered == p.delivered
         && q.slots == p.slots[id.index := q.slots[id.index]]
         && q.slots[id.index].held.NotHeld? && !q.slots[id.index].pending
         && q.slots[id.index].actualLength == c.actualLength
         && c.data <= q.slots[id.index].buffer && |q.slots[id.index].buffer| == |p.slots[id.index].buffer|
  {
    Always(w);
    ReapIsRecognized(w, id, standard, o);
    assert PipeInv(w[id.pipe], id.pipe, false);
    assert SlotInv(w[id.pipe], id.pipe, id.index);
  }
}
