/** The invariant of the asynchronous IN pipes, and that every step keeps it. */
module PipeInvariant {
  import opened Base
  import opened ErrorModel
  import opened LinuxErrors
  import opened PipeModel

  /** How far slot i is behind the slot that finishes next, going round the ring. */
  function Offset(p: Pipe, i: nat): nat
    requires i < |p.slots| && p.nextFinish < |p.slots|
  {
    if i >= p.nextFinish then i - p.nextFinish else i + |p.slots| - p.nextFinish
  }

  /** What a transfer that the kernel has given back holds, according to the fate of the
      submission it was used for. */
  predicate HoldsFate(s: Slot, fate: Fate) {
    match fate
    case Accepted => false
    case Refused(errno, e) => s.error == e && Reports(e, DocumentedCodes(errno))
    case Completed(c) =>
      && Explains(s.error, c)
      && s.actualLength == c.actualLength
      && c.data <= s.buffer
  }

  /** An error for a completed URB: there is one exactly if the URB was not good, with the
      codes for its status, unless memory ran out while reporting it. */
  predicate Explains(e: Error, c: Completion) {
    && (e.Null? <==> Good(c))
    && (!Good(c) ==> Reports(e, CompletionCodes(c.status)))
  }

  /** A transfer in the window belongs to a definite submission. */
  predicate MatchesSubmission(s: Slot, serial: nat, fate: Fate) {
    match s.held
    case NotHeld => HoldsFate(s, fate)
    case InFlight(n) => n == serial && fate == Accepted
    case Finished(n, c) => n == serial && fate == Completed(c)
  }

  /** Two sequences of bytes that agree as far as both go. */
  predicate Agree(a: seq<byte>, b: seq<byte>) {
    if |a| <= |b| then a <= b else b <= a
  }

  /** What the user gets for a submission.  The byte count is the kernel's, limited to the
      size of a transfer, and the bytes are those the kernel wrote, as far as it wrote that
      many.  A refused submission is delivered with its error; RefusedData.dfy says with
      which bytes. */
  predicate Faithful(fate: Fate, d: Delivery, size: nat) {
    && |d.data| <= size
    && match fate
       case Accepted => false
       case Refused(errno, e) =>
         Reports(d.error, DocumentedCodes(errno)) && (d.error == Masked || IsCopy(e, d.error))
       case Completed(c) =>
         && Explains(d.error, c)
         && |d.data| == Limited(c.actualLength, size)
         && Agree(d.data, c.data)
  }

  /** A copy of a heap error is equal to it; a copy of a static one has the same codes. */
  predicate IsCopy(e: Error, d: Error) {
    (e.Heap? ==> d == e) && Codes(d) == Codes(e)
  }

  predicate TransferInv(s: Slot, endpoint: nat, size: nat, closed: bool, id: SlotId) {
    && s.urbType == URB_TYPE_BULK
    && s.endpoint == endpoint
    && s.context == Some(id)
    && s.bufferLength == |s.buffer| == size
    && (s.pending <==> !s.held.NotHeld?)
    && (s.pending ==> s.error.Null? && s.frees == 0)
    && s.frees <= (if closed then 1 else 0)
    && s.lostErrors == 0
    && (s.held.Finished? ==> |s.held.completion.data| <= size)
  }

  predicate SlotInv(p: Pipe, pipe: nat, i: nat)
    requires RingInv(p) && i < |p.slots|
  {
    var s := p.slots[i];
    && TransferInv(s, p.endpoint, p.size, p.closed, SlotId(pipe, i))
    && if Offset(p, i) < p.pendingCount
       then MatchesSubmission(s, |p.delivered| + Offset(p, i), p.fates[|p.delivered| + Offset(p, i)])
       else !s.pending
  }

  /** The ring: indices, window and history agree. */
  predicate RingInv(p: Pipe) {
    && IsInEndpointNumber(p.endpoint)
    && !p.failed
    && p.pendingCount <= |p.slots|
    && |p.fates| == |p.delivered| + p.pendingCount
    && (p.slots == [] ==> p.nextFinish == p.nextSubmit == 0 && !p.enabled && p.fates == [])
    && (p.slots != [] ==>
        && p.nextFinish < |p.slots|
        && p.nextSubmit == (if p.nextFinish + p.pendingCount < |p.slots|
                            then p.nextFinish + p.pendingCount
                            else p.nextFinish + p.pendingCount - |p.slots|))
  }

  predicate IsInEndpointNumber(n: nat) {
    0x81 <= n <= 0x8F
  }

  predicate HistoryInv(p: Pipe) {
    && |p.delivered| <= |p.fates|
    && forall j | 0 <= j < |p.delivered| :: Faithful(p.fates[j], p.delivered[j], p.size)
  }

  /** `busy` leaves out the promise about endless transfers in the middle of a call. */
  predicate PipeInv(p: Pipe, pipe: nat, busy: bool) {
    && RingInv(p)
    && HistoryInv(p)
    && (forall i | 0 <= i < |p.slots| :: SlotInv(p, pipe, i))
    && (p.enabled && !busy ==> p.pendingCount == |p.slots|)
  }

  predicate Inv(w: World) {
    forall pipe | 0 <= pipe < |w| :: PipeInv(w[pipe], pipe, false)
  }

  lemma SubmitNextKeeps(p: Pipe, pipe: nat, answer: Answer)
    requires PipeInv(p, pipe, true) && p.pendingCount < |p.slots| && !p.closed
    ensures CanSubmit(p)
    ensures PipeInv(SubmitNext(p, answer), pipe, true)
  {
    var n := p.nextSubmit;
    assert Offset(p, n) == p.pendingCount;
    assert SlotInv(p, pipe, n);
    var q := SubmitNext(p, answer);
    forall i | 0 <= i < |q.slots| ensures SlotInv(q, pipe, i) {
      SubmitNextKeepsSlot(p, pipe, answer, i);
    }
  }

  lemma SubmitNextKeepsSlot(p: Pipe, pipe: nat, answer: Answer, i: nat)
    requires PipeInv(p, pipe, true) && p.pendingCount < |p.slots| && CanSubmit(p) && i < |p.slots|
    ensures SlotInv(SubmitNext(p, answer), pipe, i)
  {
    var n := p.nextSubmit;
    assert Offset(p, n) == p.pendingCount;
    assert SlotInv(p, pipe, n);
    var q := SubmitNext(p, answer);
    SubmittedSlot(p.slots[n], |p.fates|, answer);
    assert SlotInv(p, pipe, i);
    assert Offset(q, i) == Offset(p, i);
    if i != n {
      assert Offset(p, i) != p.pendingCount;
    }
  }

  lemma SubmittedSlot(s: Slot, serial: nat, answer: Answer)
    requires s.held.NotHeld?
    ensures MatchesSubmission(SubmitSlot(s, serial, answer), serial, FateOf(answer))
  {
    if answer.Refuse? {
      SubmitErrorDocumented(answer.errno, answer.standard, answer.oracle);
    }
  }

  lemma {:induction false} SubmitAllKeeps(p: Pipe, pipe: nat, answers: seq<Answer>)
    requires PipeInv(p, pipe, true) && !p.closed && p.slots != []
    ensures PipeInv(SubmitAll(p, answers), pipe, false)
    ensures SubmitAll(p, answers).pendingCount == |p.slots|
    ensures |SubmitAll(p, answers).slots| == |p.slots|
    decreases |p.slots| - p.pendingCount
  {
    if p.pendingCount < |p.slots| {
      SubmitNextKeeps(p, pipe, First(answers));
      SubmitAllKeeps(SubmitNext(p, First(answers)), pipe, Rest(answers));
    }
  }

  lemma DeliverKeeps(p: Pipe, pipe: nat, o: Oracle)
    requires PipeInv(p, pipe, true) && !p.closed
    requires HasFinished(p)
    ensures PipeInv(Deliver(p, o), pipe, true)
    ensures Deliver(p, o).pendingCount == p.pendingCount - 1
    ensures Deliver(p, o).delivered == p.delivered + [Results(p.slots[p.nextFinish], o)]
  {
    DeliverKeepsHistory(p, pipe, o);
    var q := Deliver(p, o);
    forall i | 0 <= i < |q.slots| ensures SlotInv(q, pipe, i) {
      assert SlotInv(p, pipe, i);
      assert Offset(q, i) == if i == p.nextFinish then |p.slots| - 1 else Offset(p, i) - 1;
    }
  }

  lemma DeliverKeepsHistory(p: Pipe, pipe: nat, o: Oracle)
    requires PipeInv(p, pipe, true) && !p.closed
    requires HasFinished(p)
    ensures var s := p.slots[p.nextFinish]; Transferred(s) <= |s.buffer| && s.frees == 0
    ensures HistoryInv(Deliver(p, o))
  {
    assert Offset(p, p.nextFinish) == 0;
    assert SlotInv(p, pipe, p.nextFinish);
    ResultsFaithful(p.slots[p.nextFinish], p.fates[|p.delivered|], o);
  }

  lemma ResultsFaithful(s: Slot, fate: Fate, o: Oracle)
    requires s.bufferLength == |s.buffer| && HoldsFate(s, fate)
    ensures Faithful(fate, Results(s, o), |s.buffer|)
  {
    if !s.error.Null? {
      CopyKeepsOrMasks(s.error, o);
    }
  }

  lemma FinishKeeps(p: Pipe, pipe: nat, o: Oracle, answer: Answer)
    requires PipeInv(p, pipe, false) && !p.closed
    ensures PipeInv(Finish(p, o, answer), pipe, false)
  {
    if HasFinished(p) {
      DeliverKeeps(p, pipe, o);
      var q := Deliver(p, o);
      if q.enabled {
        SubmitNextKeeps(q, pipe, answer);
      }
    }
  }

  lemma CompleteKeeps(p: Pipe, pipe: nat, index: nat, c: Completion)
    requires PipeInv(p, pipe, false) && index < |p.slots|
    requires p.slots[index].held.InFlight? && |c.data| <= p.slots[index].bufferLength
    ensures PipeInv(CompleteSlot(p, index, c), pipe, false)
  {
    assert SlotInv(p, pipe, index);
    var q := CompleteSlot(p, index, c);
    assert Offset(p, index) < p.pendingCount;
    forall i | 0 <= i < |q.slots| ensures SlotInv(q, pipe, i) {
      assert SlotInv(p, pipe, i);
      assert Offset(q, i) == Offset(p, i);
      if i != index {
        assert Offset(p, i) != Offset(p, index);
      }
    }
  }

  /** The slot of the world after the kernel hands out its finished URB. */
  function Reaped(s: Slot, standard: Option<string>, o: Oracle): Slot
    requires s.held.Finished?
  {
    HandleCompletion(KernelWrites(s, s.held.completion), standard, o)
  }

  /** Both error branches of handle_completed_urb are dead: a reaped URB leads to the
      transfer it belongs to, which is pending and has not been freed. */
  lemma ReapIsRecognized(w: World, id: SlotId, standard: Option<string>, o: Oracle)
    requires Inv(w) && Enabled(w, Reap(id, standard, o))
    ensures var s := At(w, id);
      s.pending && s.frees == 0 && s.error.Null? && s.context == Some(id) && IsRecognized(s)
    ensures Next(w, Reap(id, standard, o)) == Put(w, id, Reaped(At(w, id), standard, o))
  {
    assert PipeInv(w[id.pipe], id.pipe, false);
    assert SlotInv(w[id.pipe], id.pipe, id.index);
    var s := KernelWrites(At(w, id), At(w, id).held.completion);
    var w1 := Put(w, id, s);
    assert At(w1, id) == s;
    var t := HandleCompletion(s, standard, o);
    assert w1[id.pipe].slots[id.index := t] == w[id.pipe].slots[id.index := t];
    assert Put(w1, id, t) == Put(w, id, t);
  }

  lemma CompletionErrorExplains(c: Completion, standard: Option<string>, o: Oracle)
    ensures Explains(CompletionError(c.status, c.errorCount, standard, o), c)
  {
    CompletionErrorExactly(c.status, c.errorCount, standard, o);
    if !Good(c) {
      CompletionErrorDocumented(c.status, c.errorCount, standard, o);
    }
  }

  lemma ReapedTransfer(s: Slot, endpoint: nat, size: nat, closed: bool, id: SlotId,
                       serial: nat, fate: Fate, standard: Option<string>, o: Oracle)
    requires TransferInv(s, endpoint, size, closed, id) && s.held.Finished?
    requires MatchesSubmission(s, serial, fate)
    ensures var t := Reaped(s, standard, o);
      TransferInv(t, endpoint, size, closed, id) && MatchesSubmission(t, serial, fate)
  {
    CompletionErrorExplains(s.held.completion, standard, o);
  }

  lemma ReplaceSlotKeeps(p: Pipe, pipe: nat, index: nat, t: Slot)
    requires PipeInv(p, pipe, false) && index < |p.slots| && Offset(p, index) < p.pendingCount
    requires TransferInv(t, p.endpoint, p.size, p.closed, SlotId(pipe, index))
    requires var n := |p.delivered| + Offset(p, index); MatchesSubmission(t, n, p.fates[n])
    ensures PipeInv(p.(slots := p.slots[index := t]), pipe, false)
  {
    var q := p.(slots := p.slots[index := t]);
    forall i | 0 <= i < |q.slots| ensures SlotInv(q, pipe, i) {
      assert SlotInv(p, pipe, i);
      assert Offset(q, i) == Offset(p, i);
    }
  }

  lemma ReapKeeps(p: Pipe, pipe: nat, index: nat, standard: Option<string>, o: Oracle)
    requires PipeInv(p, pipe, false) && index < |p.slots|
    requires p.slots[index].held.Finished?
    ensures PipeInv(p.(slots := p.slots[index := Reaped(p.slots[index], standard, o)]), pipe, false)
  {
    assert SlotInv(p, pipe, index);
    var n := |p.delivered| + Offset(p, index);
    ReapedTransfer(p.slots[index], p.endpoint, p.size, p.closed, SlotId(pipe, index), n, p.fates[n], standard, o);
    ReplaceSlotKeeps(p, pipe, index, Reaped(p.slots[index], standard, o));
  }

  lemma AllocateKeeps(p: Pipe, pipe: nat, size: nat, garbage: seq<seq<byte>>)
    requires PipeInv(p, pipe, false) && p.slots == [] && !p.closed && garbage != []
    requires forall g | g in garbage :: |g| == size
    ensures PipeInv(p.(slots := NewSlots(p.endpoint, size, pipe, garbage), size := size), pipe, false)
  {
    var q := p.(slots := NewSlots(p.endpoint, size, pipe, garbage), size := size);
    forall i | 0 <= i < |q.slots| ensures SlotInv(q, pipe, i) {
      assert garbage[i] in garbage;
    }
  }

  lemma CloseKeeps(p: Pipe, pipe: nat)
    requires PipeInv(p, pipe, false) && !p.closed
    ensures PipeInv(p.(closed := true, slots := FreeSlots(p.slots)), pipe, false)
  {
    var q := p.(closed := true, slots := FreeSlots(p.slots));
    forall i | 0 <= i < |q.slots| ensures SlotInv(q, pipe, i) {
      assert SlotInv(p, pipe, i);
      assert Offset(q, i) == Offset(p, i);
    }
  }

  lemma StartKeeps(p: Pipe, pipe: nat, answers: seq<Answer>)
    requires PipeInv(p, pipe, false) && !p.closed && p.slots != []
    ensures PipeInv(SubmitAll(p.(enabled := true), answers), pipe, false)
  {
    EnableKeeps(p, pipe);
    SubmitAllKeeps(p.(enabled := true), pipe, answers);
  }

  lemma EnableKeeps(p: Pipe, pipe: nat)
    requires PipeInv(p, pipe, false) && p.slots != []
    ensures PipeInv(p.(enabled := true), pipe, true)
  {
    var q := p.(enabled := true);
    forall i | 0 <= i < |q.slots| ensures SlotInv(q, pipe, i) {
      assert SlotInv(p, pipe, i);
    }
  }

  lemma CancelKeeps(p: Pipe, pipe: nat)
    requires PipeInv(p, pipe, false)
    ensures PipeInv(p.(enabled := false), pipe, false)
  {
    var q := p.(enabled := false);
    forall i | 0 <= i < |q.slots| ensures SlotInv(q, pipe, i) {
      assert SlotInv(p, pipe, i);
    }
  }

  lemma OnePipeKeeps(w: World, pipe: nat, q: Pipe)
    requires Inv(w) && pipe < |w| && PipeInv(q, pipe, false)
    ensures Inv(w[pipe := q])
  {}

  lemma CallKeeps(w: World, step: Step)
    requires Inv(w) && Enabled(w, step)
    requires step.Start? || step.HandleFinished? || step.Cancel?
    ensures Inv(Next(w, step))
  {
    match step
    case Start(pipe, answers) =>
      StartKeeps(w[pipe], pipe, answers);
      OnePipeKeeps(w, pipe, SubmitAll(w[pipe].(enabled := true), answers));
    case HandleFinished(pipe, o, answer) =>
      FinishKeeps(w[pipe], pipe, o, answer);
      OnePipeKeeps(w, pipe, Finish(w[pipe], o, answer));
    case Cancel(pipe) =>
      CancelKeeps(w[pipe], pipe);
      OnePipeKeeps(w, pipe, w[pipe].(enabled := false));
  }

  lemma KernelKeeps(w: World, step: Step)
    requires Inv(w) && Enabled(w, step)
    requires step.Complete? || step.Reap?
    ensures Inv(Next(w, step))
  {
    match step
    case Complete(id, c) =>
      CompleteKeeps(w[id.pipe], id.pipe, id.index, c);
      OnePipeKeeps(w, id.pipe, CompleteSlot(w[id.pipe], id.index, c));
    case Reap(id, standard, o) =>
      ReapIsRecognized(w, id, standard, o);
      ReapKeeps(w[id.pipe], id.pipe, id.index, standard, o);
  }

  /** Every call and every kernel step keeps the invariant of all pipes on the handle. */
  lemma StepKeeps(w: World, step: Step)
    requires Inv(w) && Enabled(w, step)
    ensures Inv(Next(w, step))
  {
    match step
    case Open(endpoint) =>
    case Allocate(pipe, size, garbage) =>
      AllocateKeeps(w[pipe], pipe, size, garbage);
      OnePipeKeeps(w, pipe, w[pipe].(slots := NewSlots(w[pipe].endpoint, size, pipe, garbage), size := size));
    case Close(pipe) =>
      CloseKeeps(w[pipe], pipe);
      OnePipeKeeps(w, pipe, w[pipe].(closed := true, slots := FreeSlots(w[pipe].slots)));
    case Complete(_, _) => KernelKeeps(w, step);
    case Reap(_, _, _) => KernelKeeps(w, step);
    case _ => CallKeeps(w, step);
  }

  lemma {:induction false} RunKeeps(w: World, steps: seq<Step>)
    requires Inv(w) && CanExecute(w, steps)
    ensures Inv(Execute(w, steps))
    decreases |steps|
  {
    if steps != [] {
      StepKeeps(w, steps[0]);
      RunKeeps(Next(w, steps[0]), steps[1..]);
    }
  }
}
