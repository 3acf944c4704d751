/** With which bytes a refused submission is delivered.  On Linux nothing resets the byte
    count when a transfer is submitted, so the user sees what the transfer showed before. */
module RefusedData {
  import opened Base
  import opened ErrorModel
  import opened LinuxErrors
  import opened PipeModel
  import opened PipeInvariant
  import opened PipeTheorems

  /** The data of the delivery one round before number n: the last use of the same transfer. */
  function RoundBefore(p: Pipe, n: nat): seq<byte>
    requires n < |p.delivered| + |p.slots|
  {
    if n < |p.slots| then [] else p.delivered[n - |p.slots|].data
  }

  /** No URB has been reaped for the submission that this transfer is in, or will be in
      next. */
  predicate IsUntouched(p: Pipe, i: nat)
    requires p.nextFinish < |p.slots| && i < |p.slots|
  {
    var n := |p.delivered| + Offset(p, i);
    n >= |p.fates| || !p.slots[i].held.NotHeld? || p.fates[n].Refused?
  }

  /** Until then the transfer shows what it showed a round before. */
  predicate ShowsRoundBefore(p: Pipe, i: nat)
    requires p.nextFinish < |p.slots| && i < |p.slots|
  {
    && Transferred(p.slots[i]) <= |p.slots[i].buffer|
    && (IsUntouched(p, i) ==> Shown(p.slots[i]) == RoundBefore(p, |p.delivered| + Offset(p, i)))
  }

  predicate RefusedShowRoundBefore(p: Pipe) {
    forall j | 0 <= j < |p.delivered| && j < |p.fates| && p.fates[j].Refused? ::
      p.delivered[j].data == RoundBefore(p, j)
  }

  predicate BytesInv(p: Pipe) {
    && (p.slots == [] ==> p.delivered == [])
    && (p.slots != [] ==>
        && p.nextFinish < |p.slots|
        && |p.delivered| <= |p.fates|
        && (forall i | 0 <= i < |p.slots| :: ShowsRoundBefore(p, i))
        && RefusedShowRoundBefore(p))
  }

  lemma SlotKeepsBytes(p: Pipe, q: Pipe, i: nat)
    requires p.nextFinish < |p.slots| && i < |p.slots| && ShowsRoundBefore(p, i)
    requires q.nextFinish == p.nextFinish && |q.slots| == |p.slots| && q.delivered == p.delivered
    requires q.slots[i].buffer == p.slots[i].buffer && q.slots[i].bufferLength == p.slots[i].bufferLength
    requires q.slots[i].actualLength == p.slots[i].actualLength
    requires IsUntouched(q, i) ==> IsUntouched(p, i)
    ensures ShowsRoundBefore(q, i)
  {
    assert Offset(q, i) == Offset(p, i);
  }

  lemma SubmitNextKeepsBytes(p: Pipe, pipe: nat, answer: Answer)
    requires PipeInv(p, pipe, true) && BytesInv(p) && CanSubmit(p)
    ensures BytesInv(SubmitNext(p, answer))
  {
    var q := SubmitNext(p, answer);
    assert Offset(p, p.nextSubmit) == p.pendingCount;
    forall i | 0 <= i < |q.slots| ensures ShowsRoundBefore(q, i) {
      assert Offset(q, i) == Offset(p, i);
      SlotKeepsBytes(p, q, i);
    }
    assert RefusedShowRoundBefore(q);
  }

  lemma {:induction false} SubmitAllKeepsBytes(p: Pipe, pipe: nat, answers: seq<Answer>)
    requires PipeInv(p, pipe, true) && BytesInv(p) && !p.closed
    ensures BytesInv(SubmitAll(p, answers))
    decreases |p.slots| - p.pendingCount
  {
    if p.pendingCount < |p.slots| {
      SubmitNextKeeps(p, pipe, First(answers));
      SubmitNextKeepsBytes(p, pipe, First(answers));
      SubmitAllKeepsBytes(SubmitNext(p, First(answers)), pipe, Rest(answers));
    }
  }

  lemma DeliverKeepsBytes(p: Pipe, pipe: nat, o: Oracle)
    requires PipeInv(p, pipe, true) && BytesInv(p) && !p.closed && HasFinished(p)
    ensures BytesInv(Deliver(p, o))
  {
    DeliverKeeps(p, pipe, o);
    FinishedShowsRoundBefore(p, pipe);
    DeliveredKeepsBytes(p, Deliver(p, o));
  }

  lemma DeliveredKeepsBytes(p: Pipe, q: Pipe)
    requires BytesInv(p) && p.slots != [] && |p.delivered| < |p.fates| <= |p.delivered| + |p.slots|
    requires q.slots == p.slots && q.fates == p.fates && q.nextFinish == Increment(p.nextFinish, |p.slots|)
    requires var s, j := p.slots[p.nextFinish], |p.delivered|;
      && Transferred(s) <= |s.buffer|
      && (p.fates[j].Refused? ==> Shown(s) == RoundBefore(p, j))
      && |q.delivered| == j + 1 && q.delivered[..j] == p.delivered && q.delivered[j].data == Shown(s)
    ensures BytesInv(q)
  {
    forall i | 0 <= i < |q.slots| ensures ShowsRoundBefore(q, i) {
      DeliverKeepsSlot(p, q, i);
    }
    forall j | 0 <= j < |q.delivered| && q.fates[j].Refused? ensures q.delivered[j].data == RoundBefore(q, j) {
      assert j < |p.delivered| ==> q.delivered[j] == q.delivered[..|p.delivered|][j];
      assert j >= |p.slots| ==> q.delivered[j - |p.slots|] == q.delivered[..|p.delivered|][j - |p.slots|];
    }
  }

  lemma FinishedShowsRoundBefore(p: Pipe, pipe: nat)
    requires PipeInv(p, pipe, true) && BytesInv(p) && HasFinished(p)
    ensures var s, j := p.slots[p.nextFinish], |p.delivered|;
      && Transferred(s) <= |s.buffer| && j < |p.fates|
      && (p.fates[j].Refused? ==> Shown(s) == RoundBefore(p, j))
  {
    assert Offset(p, p.nextFinish) == 0;
    assert ShowsRoundBefore(p, p.nextFinish);
  }

  /** The delivered transfer goes to the end of the ring, and shows what it delivered. */
  lemma DeliverKeepsSlot(p: Pipe, q: Pipe, i: nat)
    requires p.slots != [] && p.nextFinish < |p.slots| && i < |p.slots|
    requires q.slots == p.slots && q.fates == p.fates && q.nextFinish == Increment(p.nextFinish, |p.slots|)
    requires var s := p.slots[p.nextFinish];
      && Transferred(s) <= |s.buffer|
      && |q.delivered| == |p.delivered| + 1 && q.delivered[..|p.delivered|] == p.delivered
      && q.delivered[|p.delivered|].data == Shown(s)
    requires ShowsRoundBefore(p, i) && |p.delivered| < |p.fates| <= |p.delivered| + |p.slots|
    ensures ShowsRoundBefore(q, i)
  {
    if i == p.nextFinish {
      assert Offset(q, i) == |p.slots| - 1;
    } else {
      assert Offset(q, i) == Offset(p, i) - 1;
      var n := |p.delivered| + Offset(p, i);
      assert n >= |p.slots| ==> q.delivered[n - |p.slots|] == q.delivered[..|p.delivered|][n - |p.slots|];
    }
  }

  lemma FinishKeepsBytes(p: Pipe, pipe: nat, o: Oracle, answer: Answer)
    requires PipeInv(p, pipe, false) && BytesInv(p) && !p.closed
    ensures BytesInv(Finish(p, o, answer))
  {
    if HasFinished(p) {
      DeliverKeeps(p, pipe, o);
      DeliverKeepsBytes(p, pipe, o);
      var q := Deliver(p, o);
      if q.enabled {
        SubmitNextKeeps(q, pipe, answer);
        SubmitNextKeepsBytes(q, pipe, answer);
      }
    }
  }

  lemma CompleteKeepsBytes(p: Pipe, pipe: nat, index: nat, c: Completion)
    requires PipeInv(p, pipe, false) && BytesInv(p) && index < |p.slots| && p.slots[index].held.InFlight?
    ensures BytesInv(CompleteSlot(p, index, c))
  {
    assert SlotInv(p, pipe, index);
    CompletedKeepsBytes(p, index, c);
  }

  lemma CompletedKeepsBytes(p: Pipe, index: nat, c: Completion)
    requires BytesInv(p) && index < |p.slots| && p.slots[index].held.InFlight?
    requires p.slots[index].held.serial == |p.delivered| + Offset(p, index) < |p.fates|
    ensures BytesInv(CompleteSlot(p, index, c))
  {
    var q := CompleteSlot(p, index, c);
    forall i | 0 <= i < |q.slots| ensures ShowsRoundBefore(q, i) {
      assert Offset(q, i) == Offset(p, i);
      SlotKeepsBytes(p, q, i);
    }
    assert RefusedShowRoundBefore(q);
  }

  lemma ReapKeepsBytes(p: Pipe, pipe: nat, index: nat, standard: Option<string>, o: Oracle)
    requires PipeInv(p, pipe, false) && BytesInv(p) && index < |p.slots| && p.slots[index].held.Finished?
    ensures BytesInv(p.(slots := p.slots[index := Reaped(p.slots[index], standard, o)]))
  {
    assert SlotInv(p, pipe, index);
    NewBytesKeepBytes(p, index, Reaped(p.slots[index], standard, o));
  }

  /** A transfer with a completed submission may show anything. */
  lemma NewBytesKeepBytes(p: Pipe, index: nat, t: Slot)
    requires BytesInv(p) && index < |p.slots| && Transferred(t) <= |t.buffer| && t.held.NotHeld?
    requires var n := |p.delivered| + Offset(p, index); n < |p.fates| && p.fates[n].Completed?
    ensures BytesInv(p.(slots := p.slots[index := t]))
  {
    var q := p.(slots := p.slots[index := t]);
    forall i | 0 <= i < |q.slots| ensures ShowsRoundBefore(q, i) {
      assert ShowsRoundBefore(p, i);
      assert Offset(q, i) == Offset(p, i);
    }
  }

  lemma CloseKeepsBytes(p: Pipe)
    requires BytesInv(p)
    ensures BytesInv(p.(closed := true, slots := FreeSlots(p.slots)))
  {
    var q := p.(closed := true, slots := FreeSlots(p.slots));
    if p.slots != [] {
      forall i | 0 <= i < |q.slots| ensures ShowsRoundBefore(q, i) {
        SlotKeepsBytes(p, q, i);
      }
    }
  }

  lemma AllocateKeepsBytes(p: Pipe, pipe: nat, size: nat, garbage: seq<seq<byte>>)
    requires PipeInv(p, pipe, false) && p.slots == [] && garbage != []
    ensures BytesInv(p.(slots := NewSlots(p.endpoint, size, pipe, garbage), size := size))
  {
    var q := p.(slots := NewSlots(p.endpoint, size, pipe, garbage), size := size);
    forall i | 0 <= i < |q.slots| ensures ShowsRoundBefore(q, i) {
      assert Offset(q, i) == i;
    }
  }

  lemma EnabledKeepsBytes(p: Pipe, enabled: bool)
    requires BytesInv(p)
    ensures BytesInv(p.(enabled := enabled))
  {
    var q := p.(enabled := enabled);
    if p.slots != [] {
      forall i | 0 <= i < |q.slots| ensures ShowsRoundBefore(q, i) {
        SlotKeepsBytes(p, q, i);
      }
    }
  }

  lemma StartKeepsBytes(p: Pipe, pipe: nat, answers: seq<Answer>)
    requires PipeInv(p, pipe, false) && BytesInv(p) && !p.closed && p.slots != []
    ensures BytesInv(SubmitAll(p.(enabled := true), answers))
  {
    EnabledKeepsBytes(p, true);
    EnableKeeps(p, pipe);
    SubmitAllKeepsBytes(p.(enabled := true), pipe, answers);
  }

  lemma OneKeepsBytes(w: World, pipe: nat, q: Pipe)
    requires pipe < |w| && (forall p | p in w :: BytesInv(p)) && BytesInv(q)
    ensures forall p | p in w[pipe := q] :: BytesInv(p)
  {}

  lemma CallKeepsBytes(w: World, step: Step)
    requires Inv(w) && Enabled(w, step) && forall p | p in w :: BytesInv(p)
    requires step.Start? || step.HandleFinished? || step.Cancel?
    ensures forall p | p in Next(w, step) :: BytesInv(p)
  {
    var p := w[step.pipe];
    assert PipeInv(p, step.pipe, false) && BytesInv(p);
    match step
    case Start(pipe, answers) =>
      StartKeepsBytes(p, pipe, answers);
      OneKeepsBytes(w, pipe, SubmitAll(p.(enabled := true), answers));
    case HandleFinished(pipe, o, answer) =>
      FinishKeepsBytes(p, pipe, o, answer);
      OneKeepsBytes(w, pipe, Finish(p, o, answer));
    case Cancel(pipe) =>
      EnabledKeepsBytes(p, false);
      OneKeepsBytes(w, pipe, p.(enabled := false));
  }

  lemma KernelKeepsBytes(w: World, step: Step)
    requires Inv(w) && Enabled(w, step) && forall p | p in w :: BytesInv(p)
    requires step.Complete? || step.Reap?
    ensures forall p | p in Next(w, step) :: BytesInv(p)
  {
    var id := step.id;
    var p := w[id.pipe];
    assert PipeInv(p, id.pipe, false) && BytesInv(p);
    if step.Complete? {
      CompleteKeepsBytes(p, id.pipe, id.index, step.completion);
      OneKeepsBytes(w, id.pipe, CompleteSlot(p, id.index, step.completion));
    } else {
      ReapIsRecognized(w, id, step.standard, step.oracle);
      ReapKeepsBytes(p, id.pipe, id.index, step.standard, step.oracle);
      OneKeepsBytes(w, id.pipe, p.(slots := p.slots[id.index := Reaped(At(w, id), step.standard, step.oracle)]));
    }
  }

  lemma StepKeepsBytes(w: World, step: Step)
    requires Inv(w) && Enabled(w, step) && forall p | p in w :: BytesInv(p)
    ensures forall p | p in Next(w, step) :: BytesInv(p)
  {
    match step
    case Open(endpoint) =>
    case Allocate(pipe, size, garbage) =>
      AllocateKeepsBytes(w[pipe], pipe, size, garbage);
      OneKeepsBytes(w, pipe, w[pipe].(slots := NewSlots(w[pipe].endpoint, size, pipe, garbage), size := size));
    case Close(pipe) =>
      CloseKeepsBytes(w[pipe]);
      OneKeepsBytes(w, pipe, w[pipe].(closed := true, slots := FreeSlots(w[pipe].slots)));
    case Complete(_, _) => KernelKeepsBytes(w, step);
    case Reap(_, _, _) => KernelKeepsBytes(w, step);
    case _ => CallKeepsBytes(w, step);
  }

  lemma {:induction false} RunKeepsBytes(w: World, steps: seq<Step>)
    requires Inv(w) && CanExecute(w, steps) && forall p | p in w :: BytesInv(p)
    ensures forall p | p in Execute(w, steps) :: BytesInv(p)
    decreases |steps|
  {
    if steps != [] {
      StepKeeps(w, steps[0]);
      StepKeepsBytes(w, steps[0]);
      RunKeepsBytes(Next(w, steps[0]), steps[1..]);
    }
  }

  /** On every run a refused submission is delivered with the data that was delivered one
      round of the ring before, if there was a delivery.  So a refused submission comes
      without data if and only if it is in the first round or the delivery a round before
      came without data, which is known before the submission is made. */
  lemma RefusedDataExactly(w: World, pipe: nat, j: nat)
    requires Reachable(w) && pipe < |w| && j < |w[pipe].delivered|
    ensures var p := w[pipe];
      && |p.slots| > 0 && j < |p.fates|
      && (p.fates[j].Refused? ==>
          && p.delivered[j].data == (if j < |p.slots| then [] else p.delivered[j - |p.slots|].data)
          && (p.delivered[j].data == [] <==> j < |p.slots| || p.delivered[j - |p.slots|].data == []))
  {
    ReachableBytes(w, pipe);
    var p := w[pipe];
    if p.fates[j].Refused? {
      assert p.delivered[j].data == RoundBefore(p, j);
    }
  }

  lemma ReachableBytes(w: World, pipe: nat)
    requires Reachable(w) && pipe < |w|
    ensures BytesInv(w[pipe])
  {
    var steps :| IsRun([], steps, w);
    RunKeepsBytes([], steps);
  }

  // ---- A run that delivers bytes of an earlier transfer ----

  const ONE_BYTE := Completion(0, 0, 1, [42])
  const REFUSAL := Answer.Refuse(ENODEV, None, [])

  /** A transfer of one byte whose buffer starts out with 7. */
  function TheSlot(): Slot {
    NewSlot(0x82, 1, SlotId(0, 0), [7])
  }

  /** The transfer once the kernel has written 42. */
  function TheReapedSlot(): Slot {
    TheSlot().(actualLength := 1, buffer := [42], submits := 1, ends := 1)
  }

  /** Endless transfers are on, and the only transfer is finished. */
  function FinishedPipe(): Pipe {
    NewPipe(0x82).(slots := [TheReapedSlot()], size := 1, enabled := true, pendingCount := 1,
                   fates := [Completed(ONE_BYTE)])
  }

  /** Endless transfers are on, and the kernel holds the only transfer. */
  function BusyPipe(): Pipe {
    FinishedPipe().(slots := [TheHeldSlot()], fates := [Accepted])
  }

  function TheHeldSlot(): Slot {
    TheSlot().(pending := true, submits := 1, held := InFlight(0))
  }

  lemma BusyPipeIsReachable()
    ensures Reachable([BusyPipe()])
  {
    assert IsRun([], [], []);
    var p := NewPipe(0x82);
    StepStaysReachable([], Open(0x82));
    assert [] + [p] == [p];
    StepStaysReachable([p], Allocate(0, 1, [[7]]));
    var q := p.(slots := [TheSlot()], size := 1);
    assert NewSlots(0x82, 1, 0, [[7]]) == [TheSlot()];
    assert AllocateStep([p], 0, 1, [[7]]) == [q];
    StepStaysReachable([q], Start(0, []));
    StartFillsTheRing(q);
  }

  lemma StartFillsTheRing(q: Pipe)
    requires q == NewPipe(0x82).(slots := [TheSlot()], size := 1)
    ensures StartStep([q], 0, []) == [BusyPipe()]
  {
    assert [TheSlot()][0 := TheHeldSlot()] == [TheHeldSlot()];
    assert [] + [Accepted] == [Accepted];
    assert SubmitNext(q.(enabled := true), Accept) == BusyPipe();
    assert SubmitAll(BusyPipe(), []) == BusyPipe();
  }

  lemma FinishedPipeIsReachable()
    ensures Reachable([FinishedPipe()])
  {
    var id := SlotId(0, 0);
    BusyPipeIsReachable();
    StepStaysReachable([BusyPipe()], Complete(id, ONE_BYTE));
    var done := TheHeldSlot().(held := Finished(0, ONE_BYTE));
    var t := FinishedPipe().(slots := [done]);
    assert [TheHeldSlot()][0 := done] == [done];
    assert [Accepted][0 := Completed(ONE_BYTE)] == [Completed(ONE_BYTE)];
    assert CompleteSlot(BusyPipe(), 0, ONE_BYTE) == t;
    assert CompleteStep([BusyPipe()], id, ONE_BYTE) == [t];
    KernelGivesBack(t, done);
  }

  lemma KernelGivesBack(t: Pipe, done: Slot)
    requires done == TheHeldSlot().(held := Finished(0, ONE_BYTE))
    requires t == FinishedPipe().(slots := [done])
    requires Reachable([t])
    ensures Reachable([FinishedPipe()])
  {
    var id := SlotId(0, 0);
    StepStaysReachable([t], Reap(id, None, []));
    Always([t]);
    ReapIsRecognized([t], id, None, []);
    GoodByteReaped(done);
    assert [done][0 := TheReapedSlot()] == [TheReapedSlot()];
    assert Put([t], id, TheReapedSlot()) == [FinishedPipe()];
  }

  lemma GoodByteReaped(done: Slot)
    requires done == TheHeldSlot().(held := Finished(0, ONE_BYTE))
    ensures Reaped(done, None, []) == TheReapedSlot()
  {
    assert [42] + [7][1..] == [42];
    CompletionErrorExactly(0, 0, None, []);
  }

  /** Two deliveries of 42: of the byte that was read, and of a submission that was
      refused, with its error. */
  predicate DeliversStaleByte(p: Pipe) {
    && |p.delivered| == 2 && |p.fates| > 1
    && p.fates[0] == Completed(ONE_BYTE) && p.delivered[0] == Delivery([42], Null)
    && p.fates[1].Refused? && p.delivered[1].data == [42] && !p.delivered[1].error.Null?
  }

  /** There is a run in which 42 is delivered, the device is unplugged, the next submission
      is refused, and 42 is delivered again. */
  lemma StaleBytesAreDelivered()
    ensures exists p :: Reachable([p]) && DeliversStaleByte(p)
  {
    FinishedPipeIsReachable();
    var q := FinishOnce(FinishedPipe());
    RefusedIsFinished(q);
    var r := FinishOnce(q);
    var w := [r];
    Always(w);
    assert PipeInv(w[0], 0, false);
    RefusedDataExactly(w, 0, 1);
    assert Results(TheReapedSlot(), []) == Delivery([42], Null);
    assert Reachable([r]) && DeliversStaleByte(r);
  }

  /** The refused transfer is not pending, so it can be delivered at once. */
  lemma RefusedIsFinished(q: Pipe)
    requires PipeInv(q, 0, false) && |q.slots| == 1 && q.pendingCount == 1 && q.nextFinish == 0
    requires |q.delivered| < |q.fates| && q.fates[|q.delivered|].Refused?
    ensures HasFinished(q)
  {
    assert SlotInv(q, 0, 0);
  }

  /** A finish of the only transfer, with the next submission refused. */
  lemma FinishOnce(p: Pipe) returns (q: Pipe)
    requires Reachable([p]) && |p.slots| == 1 && HasFinished(p) && p.enabled && !p.closed
    ensures Reachable([q]) && PipeInv(q, 0, false)
    ensures |q.slots| == 1 && q.enabled && !q.closed && q.pendingCount == 1 && q.nextFinish == 0
    ensures var s := p.slots[p.nextFinish];
      Transferred(s) <= |s.buffer| && q.delivered == p.delivered + [Results(s, [])]
    ensures |p.fates| == |p.delivered| + 1
    ensures |q.fates| == |p.fates| + 1 && q.fates[..|p.fates|] == p.fates && q.fates[|p.fates|].Refused?
  {
    Always([p]);
    assert PipeInv([p][0], 0, false);
    DeliverKeeps(p, 0, []);
    DeliverKeepsHistory(p, 0, []);
    q := Finish(p, [], REFUSAL);
    StepStaysReachable([p], HandleFinished(0, [], REFUSAL));
    assert HandleFinishedStep([p], 0, [], REFUSAL) == [q];
    Always([q]);
    assert PipeInv([q][0], 0, false);
  }
}
