/** The asynchronous IN pipes on objects that are updated in place, proved to take
    exactly the steps of PipeModel.dfy: src/async_in_pipe.c and the event loop of
    src/linux/generic_handle_linux.c. */
module AsyncInPipe {
  import opened Base
  import opened Ledgers
  import opened ErrorModel
  import opened LinuxErrors
  import opened PipeModel
  import opened PipeInvariant
  import opened PipeTheorems
  import opened PipeMemory
  import opened AsyncInTransfer

  lemma AllocateIsStep(w: World, pipe: nat, size: nat, garbage: seq<seq<byte>>)
    requires Reachable(w) && IsOpen(w, pipe) && w[pipe].slots == []
    requires garbage != [] && 0 < size <= INT_MAX && forall g | g in garbage :: |g| == size
    ensures Reachable(AllocateStep(w, pipe, size, garbage))
  {
    StepStaysReachable(w, Allocate(pipe, size, garbage));
  }

  /** A pipe whose first i transfers have been freed. */
  function FreedUpTo(p: PipeModel.Pipe, i: nat): PipeModel.Pipe
    requires i <= |p.slots|
  {
    p.(slots := FreeSlots(p.slots[..i]) + p.slots[i..])
  }

  lemma FreedOneMore(p: PipeModel.Pipe, i: nat)
    requires i < |p.slots|
    ensures var q := FreedUpTo(p, i);
      && |q.slots| == |p.slots| && q.slots[i] == p.slots[i]
      && FreedUpTo(p, i + 1) == q.(slots := q.slots[i := FreeSlot(q.slots[i])])
  {
    var q := FreedUpTo(p, i);
    assert FreedUpTo(p, i + 1).slots == q.slots[i := FreeSlot(q.slots[i])];
  }

  lemma FreedNoneAndAll(p: PipeModel.Pipe)
    ensures FreedUpTo(p, 0) == p && FreedUpTo(p, |p.slots|) == p.(slots := FreeSlots(p.slots))
  {
    assert p.slots[..|p.slots|] == p.slots;
    assert FreeSlots([]) + p.slots[0..] == p.slots;
  }

  /** The first n allocations succeed. */
  predicate Succeed(o: Oracle, n: nat) {
    forall k | 0 <= k < n && k < |o| :: !o[k]
  }

  /** What is left of an oracle after n allocations. */
  function Skip(o: Oracle, n: nat): Oracle {
    if n <= |o| then o[n..] else []
  }

  lemma SucceedAfterFirst(o: Oracle, n: nat)
    ensures Succeed(o, 1 + n) <==> !Fails(o) && Succeed(After(o), n)
  {
    if !Fails(o) && Succeed(After(o), n) {
      forall k | 0 <= k < 1 + n && k < |o| ensures !o[k] {
        assert k > 0 ==> o[k] == After(o)[k - 1];
      }
    }
    if Succeed(o, 1 + n) {
      forall k | 0 <= k < n && k < |After(o)| ensures !After(o)[k] {
        assert After(o)[k] == o[k + 1];
      }
    }
  }

  /** One more pair of allocations, of n in all. */
  /** How the creation of n transfers stands after i attempts, all but perhaps the last of
      which worked: what is left of the oracle, or that not all can be created. */
  predicate Attempted(o: Oracle, o': Oracle, i: nat, n: nat, size: nat, works: bool) {
    if works then o' == Skip(o, 2 * i) && Succeed(o, 2 * i) && (i > 0 ==> size <= INT_MAX)
    else !(size <= INT_MAX && Succeed(o, 2 * n))
  }

  lemma OneMoreAttempt(o: Oracle, o1: Oracle, o2: Oracle, i: nat, n: nat, size: nat, works: bool)
    requires i < n && Attempted(o, o1, i, n, size, true)
    requires works <==> size <= INT_MAX && !Fails(o1) && !Fails(After(o1))
    requires works ==> o2 == After(After(o1))
    ensures Attempted(o, o2, i + 1, n, size, works)
  {
    SucceedMonotone(o, 2 * (i + 1), 2 * n);
  }

  lemma SucceedMonotone(o: Oracle, n: nat, m: nat)
    requires n <= m
    ensures Succeed(o, m) ==> Succeed(o, n)
  {}

  lemma StartIsStep(w: World, pipe: nat, answers: seq<Answer>)
    requires Reachable(w) && IsOpen(w, pipe) && w[pipe].slots != []
    ensures PipeInv(w[pipe].(enabled := true), pipe, true)
    ensures Reachable(StartStep(w, pipe, answers))
    ensures var m := w[pipe].(enabled := true);
      w[pipe := m][pipe := SubmitAll(m, answers)] == StartStep(w, pipe, answers)
  {
    Always(w);
    EnableKeeps(w[pipe], pipe);
    StepStaysReachable(w, Start(pipe, answers));
  }

  lemma CancelIsStep(w: World, pipe: nat)
    requires Reachable(w) && IsOpen(w, pipe)
    ensures Reachable(CancelStep(w, pipe))
  {
    StepStaysReachable(w, Cancel(pipe));
  }

  lemma CloseIsStep(w: World, pipe: nat)
    requires Reachable(w) && IsOpen(w, pipe)
    ensures Reachable(CloseStep(w, pipe))
  {
    StepStaysReachable(w, Close(pipe));
  }

  lemma PutOnly(w: World, id: SlotId, s: Slot)
    requires IsSlot(w, id)
    ensures var w' := Put(w, id, s);
      && IsSlot(w', id) && At(w', id) == s
      && |w'| == |w| && |w'[id.pipe].slots| == |w[id.pipe].slots|
      && w'[id.pipe] == w[id.pipe].(slots := w[id.pipe].slots[id.index := s])
      && w' == w[id.pipe := w'[id.pipe]]
  {}

  lemma CompleteIsStep(w: World, id: SlotId, c: Completion)
    requires Reachable(w) && Enabled(w, Complete(id, c))
    ensures Reachable(CompleteStep(w, id, c))
  {
    StepStaysReachable(w, Complete(id, c));
  }

  lemma CompleteOnly(w: World, id: SlotId, c: Completion)
    requires IsSlot(w, id) && At(w, id).held.InFlight?
    ensures var w' := CompleteStep(w, id, c);
      var s := At(w, id);
      && IsSlot(w', id)
      && At(w', id) == s.(held := Finished(s.held.serial, c))
      && w'[id.pipe] == w[id.pipe].(slots := w[id.pipe].slots[id.index := At(w', id)], fates := w'[id.pipe].fates)
      && w' == w[id.pipe := w'[id.pipe]]
      && w'[id.pipe].slots == w[id.pipe].slots[id.index := At(w', id)]
      && w'[id.pipe].closed == w[id.pipe].closed
  {}

  lemma ReapIsStep(w: World, id: SlotId, standard: Option<string>, o: Oracle)
    requires Reachable(w) && IsSlot(w, id) && At(w, id).held.Finished?
    ensures var s := KernelWrites(At(w, id), At(w, id).held.completion);
      var w1 := Put(w, id, s);
      && IsSlot(w1, id) && At(w1, id) == s
      && s.frees == 0 && s.error.Null? && IsRecognized(s)
      && ReapStep(w, id, standard, o) == Put(w1, id, HandleCompletion(s, standard, o))
      && Reachable(ReapStep(w, id, standard, o))
  {
    Always(w);
    StepStaysReachable(w, Reap(id, standard, o));
    ReapIsRecognized(w, id, standard, o);
  }

  lemma FinishIsStep(w: World, pipe: nat, o: Oracle, answer: Answer)
    requires Reachable(w) && IsOpen(w, pipe) && HasFinished(w[pipe])
    ensures PipeInv(w[pipe], pipe, true)
    ensures var q := Deliver(w[pipe], o);
      var r := if q.enabled then SubmitNext(q, answer) else q;
      var w' := w[pipe := q][pipe := r];
      && w' == HandleFinishedStep(w, pipe, o, answer)
      && w[pipe := q][pipe := q] == w[pipe := q]
      && Reachable(w')
      && r.delivered == q.delivered
      && q.enabled == w[pipe].enabled
      && q.pendingCount < |q.slots|
  {
    Always(w);
    StepStaysReachable(w, HandleFinished(pipe, o, answer));
    FinishedRing(w[pipe], pipe, o, answer);
  }

  lemma FinishedRing(p: PipeModel.Pipe, pipe: nat, o: Oracle, answer: Answer)
    requires PipeInv(p, pipe, false) && !p.closed && HasFinished(p)
    ensures PipeInv(p, pipe, true)
    ensures var q := Deliver(p, o);
      && q.enabled == p.enabled && q.pendingCount < |q.slots|
      && SubmitNext(q, answer).delivered == q.delivered
  {
    DeliverKeeps(p, pipe, o);
  }

  lemma NothingFinished(w: World, pipe: nat, o: Oracle, answer: Answer)
    requires Reachable(w) && IsOpen(w, pipe) && !HasFinished(w[pipe])
    ensures HandleFinishedStep(w, pipe, o, answer) == w
  {
    Always(w);
    assert w[pipe := w[pipe]] == w;
    assert PipeInv(w[pipe], pipe, false);
  }

  lemma NextFinishInRange(w: World, pipe: nat)
    requires Reachable(w) && pipe < |w|
    ensures w[pipe].pendingCount > 0 ==> w[pipe].nextFinish < |w[pipe].slots|
  {
    Always(w);
    assert PipeInv(w[pipe], pipe, false);
  }

  lemma UnfreedWhileOpen(w: World, pipe: nat)
    requires Reachable(w) && IsOpen(w, pipe)
    ensures forall s | s in w[pipe].slots :: s.frees == 0
  {
    Always(w);
    assert PipeInv(w[pipe], pipe, false);
    forall i | 0 <= i < |w[pipe].slots| ensures w[pipe].slots[i].frees == 0 {
      assert SlotInv(w[pipe], pipe, i);
    }
  }

  lemma AddOne(m: map<Transfer, Completion>, t: Transfer, c: Completion)
    requires t !in m
    ensures |m[t := c]| == |m| + 1
  {
    assert m[t := c].Keys == m.Keys + {t};
  }

  lemma RemoveOne(m: map<Transfer, Completion>, t: Transfer)
    requires t in m
    ensures |m - {t}| == |m| - 1
  {
    assert (m - {t}).Keys == m.Keys - {t};
  }

  /** What a submission changes in a pipe, besides adding to the history. */
  predicate IsSubmission(p: PipeModel.Pipe, q: PipeModel.Pipe, serial: nat, answer: Answer)
    requires p.nextSubmit < |p.slots|
  {
    var n := p.nextSubmit;
    && q == p.(slots := q.slots, pendingCount := p.pendingCount + 1, nextSubmit := Increment(n, |p.slots|),
               fates := q.fates)
    && |q.slots| == |p.slots| && q.slots == p.slots[n := q.slots[n]]
    && q.slots[n] == SubmitSlot(p.slots[n], serial, answer)
  }

  lemma SubmitNextChangesOneSlot(p: PipeModel.Pipe, pipe: nat, answer: Answer)
    requires PipeInv(p, pipe, true) && p.pendingCount < |p.slots| && !p.closed
    ensures p.nextSubmit < |p.slots|
    ensures var s := p.slots[p.nextSubmit]; !s.pending && s.held.NotHeld? && s.frees == 0
    ensures IsSubmission(p, SubmitNext(p, answer), |p.fates|, answer)
  {
    SubmitNextKeeps(p, pipe, answer);
    assert SlotInv(p, pipe, p.nextSubmit);
  }

  /** struct libusbp_async_in_pipe. */
  class Pipe {
    const handle: Handle
    ghost const index: nat
    const pipeId: nat
    var transferArray: array?<Transfer?>
    var transferSize: nat
    var transferCount: nat
    var endlessTransfersEnabled: bool
    var pendingCount: nat
    var nextFinish: nat
    var nextSubmit: nat

    constructor (handle: Handle, pipeId: nat, ghost index: nat)
      ensures this.handle == handle && this.index == index && this.pipeId == pipeId
      ensures transferArray == null && transferSize == transferCount == 0
      ensures !endlessTransfersEnabled && pendingCount == nextFinish == nextSubmit == 0
    {
      this.handle, this.index, this.pipeId := handle, index, pipeId;
      transferArray, transferSize, transferCount := null, 0, 0;
      endlessTransfersEnabled, pendingCount, nextFinish, nextSubmit := false, 0, 0, 0;
    }

    /** The object has the fields of a pipe of the model. */
    ghost predicate Mirrors(m: PipeModel.Pipe)
      reads this
    {
      && pipeId == m.endpoint
      && transferSize == m.size
      && transferCount == |m.slots|
      && endlessTransfersEnabled == m.enabled
      && pendingCount == m.pendingCount
      && nextFinish == m.nextFinish
      && nextSubmit == m.nextSubmit
      && (if transferArray == null then m.slots == [] else transferArray.Length == |m.slots| > 0)
    }

    /** The array points to the transfers of this pipe, in order. */
    ghost predicate Holds(transfers: set<Transfer>)
      reads this, transferArray
    {
      transferArray != null ==>
        forall i | 0 <= i < transferArray.Length ::
          transferArray[i] != null && transferArray[i] in transfers && transferArray[i].id == SlotId(index, i)
    }

    // ---- Allocating transfers ----

    /** libusbp_async_in_pipe_allocate_transfers.  `garbage` is what fresh memory contains.
        Either everything is allocated, or nothing is left of what was. */
    method AllocateTransfers(count: nat, size: nat, garbage: seq<seq<byte>>, o: Oracle)
      returns (error: Error, ghost created: seq<Transfer>)
      requires handle.HasOpen(this) && handle.Valid()
      requires |garbage| == count && forall g | g in garbage :: |g| == size
      modifies this, handle`world, handle`transfers, handle`arrays, handle.heap
      ensures handle.Valid()
      ensures error.Null? <==>
        old(transferArray) == null && count > 0 && 0 < size <= INT_MAX && Succeed(o, 1 + 2 * count)
      ensures !error.Null? ==>
        unchanged(this) && unchanged(handle) && handle.heap.live == old(handle.heap.live)
      ensures !error.Null? && old(transferArray) == null && count > 0 && 0 < size <= INT_MAX ==> MEMORY in Codes(error)
      ensures error.Null? ==>
        && handle.world == AllocateStep(old(handle.world), index, size, garbage)
        && AllocatedBlocks(index, count) !! old(handle.heap.live)
        && handle.heap.live == old(handle.heap.live) + AllocatedBlocks(index, count)
        && |created| == count
        && handle.transfers == old(handle.transfers) + (set t | t in created)
        && forall i | 0 <= i < count :: IsNew(created[i], i, size, garbage[i])
      ensures forall t | t in created :: fresh(t)
    {
      ghost var live := handle.heap.live;
      if transferArray == null {
        NothingAllocatedYet(handle.world, live, index, count);
      }
      var newArray;
      newArray, error, created := CheckAndCreate(count, size, garbage, o);
      if error.Null? {
        AdoptTransfers(newArray, size, garbage, created, live);
      }
    }

    /** The argument checks of allocate_transfers. */
    method CheckAllocation(count: nat, size: nat, o: Oracle) returns (error: Error)
      ensures error.Null? <==> transferArray == null && count > 0 && size > 0
    {
      var text :=
        if transferArray != null then Some("Transfers were already allocated for this pipe.")
        else if count == 0 then Some("Transfer count cannot be zero.")
        else if size == 0 then Some("Transfer size cannot be zero.")
        else None;
      CreatesNonNull(Null, Text(text), o);
      error := AddText(Null, text, o).0;
    }

    /** Everything allocate_transfers does before it changes the pipe. */
    method CheckAndCreate(count: nat, size: nat, garbage: seq<seq<byte>>, o: Oracle)
      returns (newArray: array?<Transfer?>, error: Error, ghost created: seq<Transfer>)
      requires |garbage| == count && forall g | g in garbage :: |g| == size
      requires transferArray == null ==> AllocatedBlocks(index, count) !! handle.heap.live
      modifies handle.heap
      ensures error.Null? <==>
        transferArray == null && count > 0 && 0 < size <= INT_MAX && Succeed(o, 1 + 2 * count)
      ensures forall t | t in created :: fresh(t)
      ensures !error.Null? ==> handle.heap.live == old(handle.heap.live)
      ensures !error.Null? && transferArray == null && count > 0 && 0 < size <= INT_MAX ==> MEMORY in Codes(error)
      ensures error.Null? ==>
        && newArray != null && fresh(newArray) && newArray.Length == count == |created|
        && handle.heap.live == old(handle.heap.live) + AllocatedBlocks(index, count)
        && IsFilled(newArray, created) && AreNew(created, size, garbage)
    {
      newArray, created := null, [];
      error := CheckAllocation(count, size, o);
      if error.Null? {
        var rest;
        newArray, error, rest, created := CreateTransfers(count, size, garbage, o);
        if !error.Null? {
          error := ErrorAdd(error, "Failed to allocate transfers for asynchronous IN pipe.", rest);
        }
      }
    }

    /** The allocations of allocate_transfers, undone if one of them fails. */
    method CreateTransfers(count: nat, size: nat, garbage: seq<seq<byte>>, o: Oracle)
      returns (newArray: array?<Transfer?>, error: Error, o': Oracle, ghost created: seq<Transfer>)
      requires count > 0 && size > 0
      requires |garbage| == count && forall g | g in garbage :: |g| == size
      requires AllocatedBlocks(index, count) !! handle.heap.live
      modifies handle.heap
      ensures error.Null? <==> size <= INT_MAX && Succeed(o, 1 + 2 * count)
      ensures forall t | t in created :: fresh(t)
      ensures !error.Null? ==> handle.heap.live == old(handle.heap.live)
      ensures !error.Null? && transferArray == null && count > 0 && 0 < size <= INT_MAX ==> MEMORY in Codes(error)
      ensures error.Null? ==>
        && newArray != null && fresh(newArray) && newArray.Length == count == |created|
        && handle.heap.live == old(handle.heap.live) + AllocatedBlocks(index, count)
        && IsFilled(newArray, created) && AreNew(created, size, garbage)
    {
      newArray, error, created := null, Null, [];
      var hasArray;
      hasArray := handle.heap.Take(ArrayBlock(index), !Fails(o));
      o' := After(o);
      if !hasArray {
        error := NoMemory;
        return;
      }
      newArray := new Transfer?[count](_ => null);
      ArrayIsNoTransfer(index, count);
      error, o', created := FillArray(newArray, size, garbage, o');
      SucceedAfterFirst(o, 2 * count);
      if !error.Null? {
        EachIsNew(created, size, garbage);
        forall k | 0 <= k < |created| ensures fresh(created[k]) {
          assert created[k] in created;
        }
        UndoneAllocation(old(handle.heap.live), index, |created|, count);
        FreeNewArray(newArray, created);
        newArray := null;
      }
    }

    /** The loop of allocate_transfers: creates transfers until one cannot be created. */
    method FillArray(newArray: array<Transfer?>, size: nat, garbage: seq<seq<byte>>, o: Oracle)
      returns (error: Error, o': Oracle, ghost created: seq<Transfer>)
      requires newArray.Length == |garbage| > 0 && size > 0 && forall g | g in garbage :: |g| == size
      requires forall i | 0 <= i < newArray.Length :: newArray[i] == null
      requires TransferBlocks(index, |garbage|) !! handle.heap.live
      modifies newArray, handle.heap
      ensures error.Null? <==> size <= INT_MAX && Succeed(o, 2 * |garbage|)
      ensures !error.Null? && size <= INT_MAX ==> MEMORY in Codes(error)
      ensures error.Null? ==> |created| == newArray.Length
      ensures IsFilled(newArray, created) && AreNew(created, size, garbage)
      ensures forall t | t in created :: fresh(t)
      ensures handle.heap.live == old(handle.heap.live) + TransferBlocks(index, |created|)
    {
      error, o', created := Null, o, [];
      var i := 0;
      while error.Null? && i < newArray.Length
        invariant 0 <= i <= newArray.Length
        invariant |created| == if error.Null? then i else i - 1
        invariant !error.Null? && size <= INT_MAX ==> MEMORY in Codes(error)
        invariant Attempted(o, o', i, |garbage|, size, error.Null?)
        invariant IsFilled(newArray, created) && AreNew(created, size, garbage)
        invariant forall t | t in created :: fresh(t)
        invariant handle.heap.live == old(handle.heap.live) + TransferBlocks(index, |created|)
        decreases newArray.Length - i
      {
        ghost var before := o';
        NextTransferIsNew(old(handle.heap.live), index, i, |garbage|);
        OneMoreTransfer(old(handle.heap.live), index, i);
        assert garbage[i] in garbage;
        ghost var added;
        error, o', added := FillOne(newArray, i, size, garbage, o', created);
        OneMoreAttempt(o, before, o', i, |garbage|, size, error.Null?);
        if error.Null? {
          created := created + added;
        }
        i := i + 1;
      }
    }

    /** What the array looks like while it is filled. */
    ghost predicate IsFilled(newArray: array<Transfer?>, created: seq<Transfer>)
      reads newArray
    {
      && |created| <= newArray.Length
      && (forall k | |created| <= k < newArray.Length :: newArray[k] == null)
      && (forall k | 0 <= k < |created| :: newArray[k] == created[k])
    }

    /** The transfers in it. */
    ghost predicate AreNew(created: seq<Transfer>, size: nat, garbage: seq<seq<byte>>)
      requires |created| <= |garbage|
      reads created
      decreases |created|
    {
      created == [] ||
      var n := |created| - 1;
      && AreNew(created[..n], size, garbage)
      && IsNew(created[n], n, size, garbage[n]) && created[n].endpoint == pipeId
    }

    lemma {:induction false} EachIsNew(created: seq<Transfer>, size: nat, garbage: seq<seq<byte>>)
      requires |created| <= |garbage| && AreNew(created, size, garbage)
      ensures forall k | 0 <= k < |created| ::
        IsNew(created[k], k, size, garbage[k]) && created[k].endpoint == pipeId
      decreases |created|
    {
      if created != [] {
        EachIsNew(created[..|created| - 1], size, garbage);
      }
    }

    method FillOne(newArray: array<Transfer?>, i: nat, size: nat, garbage: seq<seq<byte>>, o: Oracle,
                   ghost created: seq<Transfer>)
      returns (error: Error, o': Oracle, ghost added: seq<Transfer>)
      requires |created| == i < newArray.Length == |garbage| && |garbage[i]| == size > 0
      requires IsFilled(newArray, created) && AreNew(created, size, garbage)
      requires TransferBlock(SlotId(index, i)) !in handle.heap.live
      requires BufferBlock(SlotId(index, i)) !in handle.heap.live
      modifies newArray, handle.heap
      ensures error.Null? <==> size <= INT_MAX && !Fails(o) && !Fails(After(o))
      ensures !error.Null? && size <= INT_MAX ==> MEMORY in Codes(error)
      ensures |added| == (if error.Null? then 1 else 0) && (forall t | t in added :: fresh(t))
      ensures IsFilled(newArray, created + added) && AreNew(created + added, size, garbage)
      ensures error.Null? ==> o' == After(After(o))
      ensures if !error.Null? then handle.heap.live == old(handle.heap.live)
        else handle.heap.live
               == old(handle.heap.live) + {TransferBlock(SlotId(index, i)), BufferBlock(SlotId(index, i))}
    {
      var transfer;
      transfer, error, o' := CreateOne(i, size, garbage[i], o);
      assert AreNew(created, size, garbage);
      newArray[i] := transfer;
      added := if transfer == null then [] else [transfer];
      if transfer == null {
        assert created + added == created;
      } else {
        assert (created + added)[..i] == created;
      }
    }

    method CreateOne(i: nat, size: nat, garbage: seq<byte>, o: Oracle)
      returns (transfer: Transfer?, error: Error, o': Oracle)
      requires |garbage| == size > 0
      requires TransferBlock(SlotId(index, i)) !in handle.heap.live
      requires BufferBlock(SlotId(index, i)) !in handle.heap.live
      modifies handle.heap
      ensures error.Null? <==> transfer != null
      ensures error.Null? <==> size <= INT_MAX && !Fails(o) && !Fails(After(o))
      ensures !error.Null? && size <= INT_MAX ==> MEMORY in Codes(error)
      ensures if transfer == null then handle.heap.live == old(handle.heap.live)
        else && fresh(transfer) && IsNew(transfer, i, size, garbage) && transfer.endpoint == pipeId
             && o' == After(After(o))
             && handle.heap.live == old(handle.heap.live)
                  + {TransferBlock(SlotId(index, i)), BufferBlock(SlotId(index, i))}
    {
      transfer, error, o' := Transfer.Create(handle.heap, handle.usbfd, pipeId, size, garbage, SlotId(index, i), o);
      assert transfer != null ==> transfer.View() == NewSlot(pipeId, size, SlotId(index, i), garbage);
    }

    /** A transfer as async_in_transfer_create makes it. */
    ghost predicate IsNew(t: Transfer, i: nat, size: nat, garbage: seq<byte>)
      reads t
    {
      && t.usbfd == handle.usbfd && t.id == SlotId(index, i) && t.usercontext == t
      && t.View() == NewSlot(t.endpoint, size, SlotId(index, i), garbage)
    }

    /** async_in_transfer_array_free on an array that never reached the pipe. */
    method FreeNewArray(newArray: array<Transfer?>, ghost created: seq<Transfer>)
      requires |created| <= newArray.Length
      requires forall k | |created| <= k < newArray.Length :: newArray[k] == null
      requires forall k | 0 <= k < |created| ::
        newArray[k] == created[k] && created[k].id == SlotId(index, k)
        && !created[k].pending && created[k].frees == 0 && created[k].error.Null?
      requires AllocatedBlocks(index, |created|) <= handle.heap.live
      modifies created, handle.heap
      ensures handle.heap.live == old(handle.heap.live) - AllocatedBlocks(index, |created|)
    {
      var i := 0;
      while i < newArray.Length
        invariant 0 <= i <= newArray.Length
        invariant handle.heap.live
          == old(handle.heap.live) - TransferBlocks(index, if i < |created| then i else |created|)
        invariant forall k | 0 <= k < |created| ::
          !created[k].pending && created[k].error.Null? && (i <= k ==> created[k].frees == 0)
      {
        var transfer := newArray[i];
        if transfer != null {
          OneFewerTransfer(old(handle.heap.live), index, i, |created|, transfer.View());
          transfer.Free(handle.heap);
        }
        i := i + 1;
      }
      ArrayIsNoTransfer(index, |created|);
      handle.heap.Release(ArrayBlock(index));
    }

    /** Putting the new array into the pipe. */
    method AdoptTransfers(newArray: array<Transfer?>, size: nat, ghost garbage: seq<seq<byte>>,
                          ghost created: seq<Transfer>, ghost live: set<Block>)
      requires handle.HasOpen(this) && transferArray == null
      requires handle.Coherent() && Reachable(handle.world) && Accounts(handle.world, live)
      requires newArray.Length == |created| == |garbage| > 0
      requires handle.heap.live == live + AllocatedBlocks(index, |created|)
      requires 0 < size <= INT_MAX && forall g | g in garbage :: |g| == size
      requires forall t | t in created :: t !in handle.transfers
      requires IsFilled(newArray, created) && AreNew(created, size, garbage)
      modifies this, handle`world, handle`transfers, handle`arrays
      ensures handle.Valid()
      ensures handle.world == AllocateStep(old(handle.world), index, size, garbage)
      ensures handle.transfers == old(handle.transfers) + (set t | t in created)
      ensures forall i | 0 <= i < |created| :: IsNew(created[i], i, size, garbage[i])
    {
      AllocateIsStep(handle.world, index, size, garbage);
      AllocateAccounts(handle.world, live, index, size, garbage);
      NewTransfersMatch(created, size, garbage);
      EachIsNew(created, size, garbage);
      assert handle.world[index].endpoint == pipeId;
      InstallTransfers(newArray, size, created, NewSlots(pipeId, size, index, garbage));
    }

    /** The new transfers are the slots that a successful allocation adds to the model. */
    ghost predicate Match(created: seq<Transfer>, slots: seq<Slot>)
      reads created
    {
      && |created| == |slots|
      && forall i | 0 <= i < |created| ::
           && created[i].usbfd == handle.usbfd && created[i].id == SlotId(index, i)
           && created[i].usercontext == created[i]
           && created[i].View() == slots[i] && slots[i].held.NotHeld?
    }

    lemma NewTransfersMatch(created: seq<Transfer>, size: nat, garbage: seq<seq<byte>>)
      requires |created| == |garbage| && AreNew(created, size, garbage)
      ensures Match(created, NewSlots(pipeId, size, index, garbage))
    {
      EachIsNew(created, size, garbage);
    }

    method InstallTransfers(newArray: array<Transfer?>, size: nat, ghost created: seq<Transfer>, ghost slots: seq<Slot>)
      requires handle.Has(this) && handle.Coherent() && transferArray == null
      requires newArray.Length == |created| > 0 && IsFilled(newArray, created) && Match(created, slots)
      requires forall t | t in created :: t !in handle.transfers
      modifies this, handle`world, handle`transfers, handle`arrays
      ensures handle.Coherent()
      ensures var w := old(handle.world); handle.world == w[index := w[index].(slots := slots, size := size)]
      ensures handle.transfers == old(handle.transfers) + (set t | t in created)
    {
      transferArray, transferCount, transferSize := newArray, newArray.Length, size;
      handle.transfers := handle.transfers + (set t | t in created);
      handle.arrays := handle.arrays + {newArray};
      handle.world := handle.world[index := handle.world[index].(slots := slots, size := size)];
      handle.TransfersAdded(index, created);
    }

    // ---- Submitting ----

    /** async_in_pipe_submit_next_transfer. */
    method SubmitNextTransfer(answer: Answer)
      requires handle.HasOpen(this) && handle.Consistent()
      requires PipeInv(handle.world[index], index, true) && pendingCount < transferCount
      modifies this`pendingCount, this`nextSubmit, handle`world, handle.usbfd, handle.transfers, handle.heap
      ensures handle.Consistent()
      ensures handle.world == old(handle.world)[index := SubmitNext(old(handle.world)[index], answer)]
    {
      ghost var w, live := handle.world, handle.heap.live;
      ghost var m, id := w[index], SlotId(index, nextSubmit);
      SubmitNextChangesOneSlot(m, index, answer);
      SlotOwns(w, live, id);
      SubmitInPlace(answer, |m.fates|, SubmitNext(m, answer));
      OneSlotAccounts(w, live, handle.world, id);
    }

    /** The objects of a submission: the transfer, the counters and the kernel. */
    method SubmitInPlace(answer: Answer, ghost serial: nat, ghost q: PipeModel.Pipe)
      requires handle.Has(this) && handle.Coherent()
      requires nextSubmit < |handle.world[index].slots|
      requires var s := handle.world[index].slots[nextSubmit];
        !s.pending && s.held.NotHeld? && s.frees == 0 && Owns(handle.heap.live, SlotId(index, nextSubmit), s)
      requires IsSubmission(handle.world[index], q, serial, answer)
      modifies this`pendingCount, this`nextSubmit, handle`world, handle.usbfd, handle.transfers, handle.heap
      ensures handle.Coherent()
      ensures handle.world == old(handle.world)[index := q]
      ensures var m, id := old(handle.world)[index], SlotId(index, old(nextSubmit));
        handle.heap.live
          == old(handle.heap.live) - SlotBlocks(id, m.slots[id.index]) + SlotBlocks(id, q.slots[id.index])
    {
      var transfer := transferArray[nextSubmit];
      assert handle.Tracks(transfer);
      transfer.Submit(handle.heap, serial, answer);
      pendingCount := pendingCount + 1;
      nextSubmit := Increment(nextSubmit, transferCount);
      handle.world := handle.world[index := q];
      handle.OneTransferChanged(transfer);
    }

    /** libusbp_async_in_pipe_start_endless_transfers. */
    method StartEndlessTransfers(answers: seq<Answer>, o: Oracle) returns (error: Error)
      requires handle.HasOpen(this) && handle.Valid()
      modifies this, handle`world, handle.usbfd, handle.transfers, handle.heap
      ensures handle.Valid()
      ensures error.Null? <==> old(transferArray) != null
      ensures error.Null? ==> endlessTransfersEnabled
      ensures handle.world ==
        if error.Null? then StartStep(old(handle.world), index, answers) else old(handle.world)
    {
      if transferArray == null {
        error := ErrorCreate("Pipe transfers have not been allocated yet.", o);
        return;
      }
      ghost var w := handle.world;
      StartIsStep(w, index, answers);
      endlessTransfersEnabled := true;
      handle.world := w[index := w[index].(enabled := true)];
      handle.PipeFieldsChanged(index);
      SameSlotsAccount(w, handle.heap.live, handle.world, index);
      SubmitRemaining(answers);
      error := Null;
    }

    /** The loop of start_endless_transfers. */
    method SubmitRemaining(answers: seq<Answer>)
      requires handle.HasOpen(this) && handle.Consistent()
      requires PipeInv(handle.world[index], index, true) && transferCount > 0
      modifies this`pendingCount, this`nextSubmit, handle`world, handle.usbfd, handle.transfers, handle.heap
      ensures handle.Consistent()
      ensures handle.world == old(handle.world)[index := SubmitAll(old(handle.world)[index], answers)]
    {
      ghost var w := handle.world;
      assert w[index := w[index]] == w;
      var rest := answers;
      while pendingCount < transferCount
        invariant handle.HasOpen(this) && handle.Consistent()
        invariant |handle.world| == |w| && handle.world == w[index := handle.world[index]]
        invariant PipeInv(handle.world[index], index, true)
        invariant transferCount > 0
        invariant SubmitAll(handle.world[index], rest) == SubmitAll(w[index], answers)
        decreases transferCount - pendingCount
      {
        SubmitNextKeeps(handle.world[index], index, First(rest));
        SubmitNextTransfer(First(rest));
        rest := Rest(rest);
      }
    }

    // ---- Finishing ----

    /** libusbp_async_in_pipe_handle_finished_transfer. */
    method HandleFinishedTransfer(o: Oracle, answer: Answer)
      returns (finished: bool, data: seq<byte>, transferred: nat, transferError: Error)
      requires handle.HasOpen(this) && handle.Valid()
      modifies this, handle`world, handle.usbfd, handle.transfers, handle.heap
      ensures handle.Valid()
      ensures handle.world == HandleFinishedStep(old(handle.world), index, o, answer)
      ensures finished <==> HasFinished(old(handle.world)[index])
      ensures if finished
        then handle.world[index].delivered == old(handle.world)[index].delivered + [Delivery(data, transferError)]
        else handle.world == old(handle.world) && data == [] && transferError.Null?
      ensures transferred == |data|
    {
      finished, data, transferred, transferError := false, [], 0, Null;
      ghost var w := handle.world;
      if pendingCount == 0 {
        NothingFinished(w, index, o, answer);
        return;
      }
      NextFinishInRange(w, index);
      var transfer := transferArray[nextFinish];
      assert handle.Tracks(transfer);
      if transfer.pending {
        NothingFinished(w, index, o, answer);
        return;
      }
      FinishIsStep(w, index, o, answer);
      data, transferred, transferError := TakeFinishedTransfer(transfer, o);
      finished := true;
      if endlessTransfersEnabled {
        SubmitNextTransfer(answer);
      }
    }

    /** The part of handle_finished_transfer between the checks and the resubmission. */
    method TakeFinishedTransfer(transfer: Transfer, o: Oracle)
      returns (data: seq<byte>, transferred: nat, transferError: Error)
      requires handle.HasOpen(this) && handle.Consistent()
      requires PipeInv(handle.world[index], index, true) && HasFinished(handle.world[index])
      requires transferArray != null && nextFinish < transferArray.Length && transferArray[nextFinish] == transfer
      modifies this`pendingCount, this`nextFinish, handle`world
      ensures handle.HasOpen(this) && handle.Consistent()
      ensures HasFinished(old(handle.world)[index])
      ensures handle.world == old(handle.world)[index := Deliver(old(handle.world)[index], o)]
      ensures PipeInv(handle.world[index], index, true)
      ensures handle.world[index].delivered
        == old(handle.world)[index].delivered + [Delivery(data, transferError)]
      ensures transferred == |data|
    {
      ghost var w := handle.world;
      ghost var m := w[index];
      assert handle.Tracks(transfer);
      DeliverKeeps(m, index, o);
      DeliverKeepsHistory(m, index, o);
      data, transferred, transferError := transfer.GetResults(o);
      pendingCount := pendingCount - 1;
      nextFinish := Increment(nextFinish, transferCount);
      handle.world := w[index := Deliver(m, o)];
      handle.PipeFieldsChanged(index);
      SameSlotsAccount(w, handle.heap.live, handle.world, index);
    }

    // ---- Cancelling and closing ----

    /** libusbp_async_in_pipe_cancel_transfers.  `discards` are the errno values with which
        the kernel refuses to discard a URB; EINVAL means that it was already completed. */
    method CancelTransfers(discards: seq<Option<int>>, o: Oracle) returns (error: Error)
      requires handle.HasOpen(this) && handle.Valid()
      modifies this, handle`world
      ensures handle.Valid()
      ensures handle.world == CancelStep(old(handle.world), index)
      ensures !endlessTransfersEnabled
      ensures error.Null? <==>
        forall i | 0 <= i < |discards| && i < transferCount ::
          discards[i].None? || discards[i].value == EINVAL
      ensures !error.Null? ==> exists i | 0 <= i < |discards| && i < transferCount ::
        IsFirstRefusal(discards, i) && IsDiscardFailure(error, discards[i].value, o)
    {
      ghost var w := handle.world;
      CancelIsStep(w, index);
      endlessTransfersEnabled := false;
      handle.world := CancelStep(w, index);
      handle.PipeFieldsChanged(index);
      SameSlotsAccount(w, handle.heap.live, handle.world, index);
      error := DiscardTransfers(discards, o);
    }

    /** The loop of cancel_transfers.  Asking the kernel to discard a URB changes nothing on
        this side; the URB is completed and reaped like any other. */
    method DiscardTransfers(discards: seq<Option<int>>, o: Oracle) returns (error: Error)
      ensures error.Null? <==>
        forall i | 0 <= i < |discards| && i < transferCount ::
          discards[i].None? || discards[i].value == EINVAL
      ensures !error.Null? ==> exists i | 0 <= i < |discards| && i < transferCount ::
        IsFirstRefusal(discards, i) && IsDiscardFailure(error, discards[i].value, o)
    {
      error := Null;
      var i := 0;
      while error.Null? && i < transferCount
        invariant 0 <= i <= transferCount
        invariant error.Null? ==>
          forall j | 0 <= j < |discards| && j < i :: discards[j].None? || discards[j].value == EINVAL
        invariant !error.Null? ==>
          exists j | 0 <= j < |discards| && j < transferCount ::
            IsFirstRefusal(discards, j) && IsDiscardFailure(error, discards[j].value, o)
        decreases transferCount - i, if error.Null? then 1 else 0
      {
        assert error.Null?;
        error := DiscardOne(if i < |discards| then discards[i] else None, o);
        i := i + 1;
      }
    }

    predicate IsFirstRefusal(discards: seq<Option<int>>, i: nat)
      requires i < |discards|
    {
      && discards[i].Some? && discards[i].value != EINVAL
      && forall j | 0 <= j < i :: discards[j].None? || discards[j].value == EINVAL
    }

    /** async_in_transfer_cancel and usbfd_discard_urb. */
    method DiscardOne(discard: Option<int>, o: Oracle) returns (error: Error)
      ensures error.Null? <==> discard.None? || discard.value == EINVAL
      ensures !error.Null? ==> IsDiscardFailure(error, discard.value, o)
    {
      error := Null;
      if discard.Some? && discard.value != EINVAL {
        error := CreateErrno(discard.value, None, Words(DiscardFailed), o);
      }
    }

    /** libusbp_async_in_pipe_close.  The pipe must not be used afterwards. */
    method Close()
      requires handle.HasOpen(this) && handle.Valid()
      modifies handle`world, handle.transfers, handle.heap
      ensures handle.Valid()
      ensures handle.world == CloseStep(old(handle.world), index)
      ensures PipeBlock(index) !in handle.heap.live && ArrayBlock(index) !in handle.heap.live
    {
      ghost var w := handle.world;
      CloseIsStep(w, index);
      UnfreedWhileOpen(w, index);
      FreeTransfers();
      label freed:
      CloseAccounts(handle.world, handle.heap.live, index);
      if transferArray != null {
        handle.heap.Release(ArrayBlock(index));
      }
      handle.heap.Release(PipeBlock(index));
      handle.world := CloseStep(w, index);
      handle.PipeFieldsChanged@freed(index);
    }

    /** The loop of async_in_transfer_array_free. */
    method FreeTransfers()
      requires handle.HasOpen(this) && handle.Consistent()
      requires forall s | s in handle.world[index].slots :: s.frees == 0
      modifies handle`world, handle.transfers, handle.heap
      ensures handle.Consistent()
      ensures var m := old(handle.world)[index];
        handle.world == old(handle.world)[index := m.(slots := FreeSlots(m.slots))]
    {
      ghost var w := handle.world;
      ghost var m := w[index];
      assert w[index := m] == w;
      FreedNoneAndAll(m);
      if transferArray == null {
        return;
      }
      var i := 0;
      while i < transferCount
        invariant 0 <= i <= transferCount == |m.slots|
        invariant handle.HasOpen(this) && handle.Consistent()
        invariant handle.world == w[index := FreedUpTo(m, i)]
      {
        FreedOneMore(m, i);
        FreeTransfer(i);
        i := i + 1;
      }
    }

    method FreeTransfer(i: nat)
      requires handle.HasOpen(this) && handle.Consistent()
      requires i < |handle.world[index].slots| && handle.world[index].slots[i].frees == 0
      modifies handle`world, handle.transfers, handle.heap
      ensures handle.Consistent()
      ensures var m := old(handle.world)[index];
        handle.world == old(handle.world)[index := m.(slots := m.slots[i := FreeSlot(m.slots[i])])]
    {
      ghost var w, live := handle.world, handle.heap.live;
      ghost var id := SlotId(index, i);
      SlotOwns(w, live, id);
      FreeInPlace(i);
      if At(w, id).pending {
        OneSlotSameBlocks(w, live, handle.world, id);
      } else {
        OneSlotAccounts(w, live, handle.world, id);
      }
    }

    method FreeInPlace(i: nat)
      requires handle.HasOpen(this) && handle.Coherent() && i < |handle.world[index].slots|
      requires handle.world[index].slots[i].frees == 0
      requires SlotBlocks(SlotId(index, i), handle.world[index].slots[i]) <= handle.heap.live
      modifies handle`world, handle.transfers, handle.heap
      ensures handle.Coherent()
      ensures var s := old(handle.world)[index].slots[i];
        && handle.world == Put(old(handle.world), SlotId(index, i), FreeSlot(s))
        && handle.heap.live ==
          if s.pending then old(handle.heap.live) else old(handle.heap.live) - SlotBlocks(SlotId(index, i), s)
    {
      var transfer := transferArray[i];
      assert handle.Tracks(transfer);
      transfer.Free(handle.heap);
      PutOnly(handle.world, transfer.id, transfer.View());
      handle.world := Put(handle.world, transfer.id, transfer.View());
      handle.OneTransferChanged(transfer);
    }
  }

  /** struct libusbp_generic_handle, with every pipe ever opened on it. */
  class Handle {
    const usbfd: Usbfd
    const heap: Heap
    ghost var pipes: seq<Pipe>
    ghost var transfers: set<Transfer>
    ghost var arrays: set<array<Transfer?>>
    ghost var world: World

    constructor ()
      ensures Valid() && world == []
      ensures fresh(usbfd) && fresh(heap)
    {
      usbfd := new Usbfd();
      heap := new Ledger<Block>();
      pipes, transfers, arrays, world := [], {}, {}, [];
      new;
      assert IsRun([], [], world);
    }

    /** libusbp_generic_handle_open_async_in_pipe, with async_in_pipe_create. */
    method OpenAsyncInPipe(pipeId: byte, o: Oracle) returns (pipe: Pipe?, error: Error)
      requires Valid()
      modifies this`pipes, this`world, heap
      ensures Valid()
      ensures error.Null? <==> 0x81 <= pipeId <= 0x8F && !Fails(o)
      ensures 0x81 <= pipeId <= 0x8F && Fails(o) ==> MEMORY in Codes(error)
      ensures if error.Null?
        then && pipe != null && fresh(pipe) && HasOpen(pipe) && pipe.index == |old(world)| && pipe.pipeId == pipeId
             && world == Next(old(world), Open(pipeId))
             && heap.live == old(heap.live) + {PipeBlock(pipe.index)}
        else pipe == null && unchanged(this) && heap.live == old(heap.live)
    {
      pipe := null;
      error := CheckPipeId(pipeId, o);
      if error.Null? {
        OpenAccounts(world, heap.live, pipeId);
        var ok := heap.Take(PipeBlock(|world|), !Fails(o));
        if !ok {
          error := NoMemory;
        } else {
          pipe := new Pipe(this, pipeId, |world|);
          StepStaysReachable(world, Open(pipeId));
          AddPipe(pipe, pipeId);
        }
      }
    }

    /** The checks of the pipe ID. */
    method CheckPipeId(pipeId: byte, o: Oracle) returns (error: Error)
      ensures error.Null? <==> 0x81 <= pipeId <= 0x8F
    {
      var text :=
        if pipeId % 0x80 > 15 || pipeId == 0x80 then Some("Invalid pipe ID.")
        else if pipeId < 0x80 then Some("Asynchronous pipes for OUT endpoints are not supported.")
        else None;
      CreatesNonNull(Null, Text(text), o);
      error := AddText(Null, text, o).0;
    }

    ghost method AddPipe(pipe: Pipe, pipeId: nat)
      requires Coherent() && pipe !in pipes
      requires pipe.handle == this && pipe.index == |world| && pipe.transferArray == null
      requires pipe.Mirrors(NewPipe(pipeId))
      modifies this`pipes, this`world
      ensures Coherent() && Has(pipe)
      ensures pipes == old(pipes) + [pipe] && world == old(world) + [NewPipe(pipeId)]
    {
      pipes, world := pipes + [pipe], world + [NewPipe(pipeId)];
      forall t | t in transfers ensures Tracks(t) {
        assert old(Tracks(t));
      }
    }

    // ---- The kernel ----

    /** A step of the kernel on its own. */
    method KernelCompletes(t: Transfer, c: Completion)
      requires Valid() && t in usbfd.inFlight && |c.data| <= t.bufferLength
      modifies this`world, usbfd, t`held
      ensures Valid()
      ensures Enabled(old(world), Complete(t.id, c)) && world == CompleteStep(old(world), t.id, c)
      ensures usbfd.inFlight == old(usbfd.inFlight) - {t} && usbfd.finished == old(usbfd.finished)[t := c]
      ensures t !in old(usbfd.finished)
    {
      assert Tracks(t);
      ghost var w := world;
      CompleteIsStep(w, t.id, c);
      CompleteOnly(w, t.id, c);
      CompleteUrb(t, c);
      OneSlotSameBlocks(w, heap.live, world, t.id);
    }

    method CompleteUrb(t: Transfer, c: Completion)
      requires Coherent() && t in transfers && t in usbfd.inFlight
      requires t !in usbfd.finished && t.held.InFlight? && IsSlot(world, t.id) && At(world, t.id).held.InFlight?
      modifies this`world, usbfd, t`held
      ensures Coherent()
      ensures world == CompleteStep(old(world), t.id, c)
      ensures usbfd.inFlight == old(usbfd.inFlight) - {t} && usbfd.finished == old(usbfd.finished)[t := c]
    {
      assert Tracks(t);
      CompleteOnly(world, t.id, c);
      usbfd.Complete(t, c);
      world := CompleteStep(world, t.id, c);
      OneTransferChanged(t);
    }

    /** The kernel finishes any number of URBs, in any order, while we are not looking. */
    method KernelProgress() returns (ghost steps: seq<Step>)
      requires Valid()
      modifies this`world, usbfd, transfers
      ensures Valid()
      ensures IsRun(old(world), steps, world)
      ensures HeldByKernel() == old(HeldByKernel())
      ensures forall step | step in steps :: step.Complete?
    {
      steps := [];
      var waiting := usbfd.inFlight;
      ghost var w := world;
      while waiting != {}
        invariant Valid() && waiting <= usbfd.inFlight
        invariant IsRun(w, steps, world)
        invariant HeldByKernel() == old(HeldByKernel())
        invariant forall step | step in steps :: step.Complete?
        decreases |waiting|
      {
        var t :| t in waiting;
        waiting := waiting - {t};
        var c: Completion := *;
        if |c.data| <= t.bufferLength {
          ghost var w1 := world;
          KernelMove(t, c);
          OneMoreStep(w, steps, w1, Complete(t.id, c));
          steps := steps + [Complete(t.id, c)];
        }
      }
    }

    method KernelMove(t: Transfer, c: Completion)
      requires Valid() && t in usbfd.inFlight && |c.data| <= t.bufferLength
      modifies this`world, usbfd, t`held
      ensures Valid()
      ensures Enabled(old(world), Complete(t.id, c)) && world == Next(old(world), Complete(t.id, c))
      ensures usbfd.inFlight == old(usbfd.inFlight) - {t}
      ensures HeldByKernel() == old(HeldByKernel())
    {
      ghost var m := usbfd.finished;
      KernelCompletes(t, c);
      AddOne(m, t, c);
    }

    /** How many URBs the kernel holds, in flight or finished: the measure of the loop. */
    ghost function HeldByKernel(): nat
      reads usbfd
    {
      |usbfd.inFlight| + |usbfd.finished|
    }

    // ---- The event loop ----

    /** handle_completed_urb. */
    method HandleCompletedUrb(urb: Transfer, standard: Option<string>, o: Oracle) returns (error: Error)
      requires urb.usercontext != null ==>
        urb.usercontext.frees == 0 && !urb.usercontext.error.Heap? && urb.usercontext.Owned(heap)
      modifies if urb.usercontext == null then {} else {urb.usercontext}
      modifies heap
      ensures error.Null? <==> IsRecognized(old(urb.View()))
      ensures error.Null? <==> old(urb.usercontext != null && urb.urbType == 3 && 0x80 <= urb.endpoint)
      ensures error.Null? ==>
        && old(urb.usercontext) != null
        && old(urb.usercontext).View() == HandleCompletion(old(urb.usercontext.View()), standard, o)
        && old(urb.usercontext).usercontext == old(urb.usercontext.usercontext)
        && heap.live == old(heap.live) - SlotBlocks(old(urb.usercontext).id, old(urb.usercontext.View()))
             + SlotBlocks(old(urb.usercontext).id, old(urb.usercontext).View())
      ensures !error.Null? ==> urb.View() == old(urb.View()) && heap.live == old(heap.live)
    {
      error := Null;
      if urb.usercontext == null {
        error := ErrorCreate("A completed USB request block has a NULL usercontext.", o);
      } else if urb.urbType == URB_TYPE_BULK && urb.endpoint >= 0x80 {
        urb.usercontext.HandleCompletion(heap, standard, o);
      } else {
        error := ErrorCreate("A completed USB request block was unrecognized.", o);
      }
    }

    /** usbfd_reap_urb: hands out any finished URB, or none if there is none, or fails
        without handing one out. */
    method TakeFinishedUrb(fails: bool, errno: int, standard: Option<string>, o: Oracle)
      returns (urb: Transfer?, error: Error)
      requires Consistent()
      modifies this`world, usbfd, transfers
      ensures Consistent()
      ensures error.Null? <==> !fails
      ensures fails ==> IsReapFailure(error, errno, standard, o)
      ensures usbfd.inFlight == old(usbfd.inFlight)
      ensures if urb != null
        then && urb in transfers
             && IsSlot(old(world), urb.id) && At(old(world), urb.id).held.Finished?
             && world == Put(old(world), urb.id,
                  KernelWrites(At(old(world), urb.id), At(old(world), urb.id).held.completion))
             && urb in old(usbfd.finished) && usbfd.finished == old(usbfd.finished) - {urb}
             && error.Null?
        else && world == old(world) && usbfd.finished == old(usbfd.finished)
             && (error.Null? ==> usbfd.finished == map[])
    {
      urb, error := null, Null;
      if fails {
        error := CreateErrno(errno, standard, Words(ReapFailed), o);
        return;
      }
      urb := usbfd.PickFinished();
      if urb != null {
        ghost var w := world;
        HandOutFinished(urb);
        PutOnly(w, urb.id, At(world, urb.id));
        OneSlotSameBlocks(w, heap.live, world, urb.id);
      }
    }

    method HandOutFinished(urb: Transfer)
      requires Coherent() && urb in usbfd.finished
      modifies this`world, usbfd, urb
      ensures Coherent() && urb in transfers
      ensures IsSlot(old(world), urb.id) && At(old(world), urb.id).held.Finished?
      ensures world == Put(old(world), urb.id,
        KernelWrites(At(old(world), urb.id), At(old(world), urb.id).held.completion))
      ensures usbfd.inFlight == old(usbfd.inFlight)
      ensures usbfd.finished == old(usbfd.finished) - {urb}
    {
      assert Tracks(urb);
      usbfd.HandOut(urb);
      world := Put(world, urb.id, urb.View());
      OneSlotPut(urb);
    }

    /** handle_completed_urb on a URB whose transfer is the one it belongs to. */
    method HandleOwnUrb(urb: Transfer, standard: Option<string>, o: Oracle) returns (error: Error)
      requires Consistent() && urb in transfers
      requires urb.held.NotHeld? && urb.frees == 0 && urb.error.Null? && IsRecognized(urb.View())
      modifies this`world, urb, heap
      ensures Consistent()
      ensures error.Null?
      ensures IsSlot(old(world), urb.id)
      ensures world == Put(old(world), urb.id, HandleCompletion(At(old(world), urb.id), standard, o))
    {
      assert Tracks(urb);
      ghost var w, live := world, heap.live;
      SlotOwns(w, live, urb.id);
      error := HandleInPlace(urb, standard, o);
      PutOnly(w, urb.id, At(world, urb.id));
      OneSlotAccounts(w, live, world, urb.id);
    }

    method HandleInPlace(urb: Transfer, standard: Option<string>, o: Oracle) returns (error: Error)
      requires Coherent() && urb in transfers && urb.Owned(heap)
      requires urb.held.NotHeld? && urb.frees == 0 && urb.error.Null? && IsRecognized(urb.View())
      modifies this`world, urb, heap
      ensures Coherent()
      ensures error.Null?
      ensures IsSlot(old(world), urb.id) && IsSlot(world, urb.id)
      ensures world == Put(old(world), urb.id, HandleCompletion(At(old(world), urb.id), standard, o))
      ensures heap.live
        == old(heap.live) - SlotBlocks(urb.id, At(old(world), urb.id)) + SlotBlocks(urb.id, At(world, urb.id))
    {
      assert Tracks(urb);
      error := HandleCompletedUrb(urb, standard, o);
      world := Put(world, urb.id, urb.View());
      OneSlotPut(urb);
    }

    /** One round of the loop of generic_handle_events: whether there was a URB to reap.
        Both error branches of handle_completed_urb are dead, so the error is always from
        the reaping itself. */
    method ReapOne(fails: bool, errno: int, standard: Option<string>, o: Oracle)
      returns (more: bool, error: Error, ghost id: SlotId)
      requires Valid()
      modifies this`world, usbfd, transfers, heap
      ensures Valid()
      ensures (error.Null? <==> !fails) && (fails ==> !more && IsReapFailure(error, errno, standard, o))
      ensures HeldByKernel() + (if more then 1 else 0) == old(HeldByKernel())
      ensures if more
        then IsSlot(old(world), id) && At(old(world), id).held.Finished?
             && world == ReapStep(old(world), id, standard, o)
        else && world == old(world)
             && (error.Null? ==> usbfd.finished == map[])
    {
      ghost var w, finished := world, usbfd.finished;
      var urb;
      urb, error := TakeFinishedUrb(fails, errno, standard, o);
      more := urb != null;
      id := SlotId(0, 0);
      if more {
        id := urb.id;
        RemoveOne(finished, urb);
        assert HeldByKernel() + 1 == old(HeldByKernel());
        ReapIsStep(w, id, standard, o);
        assert Tracks(urb);
        error := HandleOwnUrb(urb, standard, o);
      }
    }

    /** generic_handle_events: reaps until the kernel has nothing.  It ends even if more
        URBs are finished meanwhile, and takes only steps of the model, whichever pipes the
        URBs belong to.  `reaped` is the number of URBs handed out.  The reap after
        `failsAt` of them fails with an errno; an error comes out exactly if the loop gets
        that far, and it is the documented one. */
    method HandleEvents(failsAt: int, errno: int, failsWith: Option<string>, failsIn: Oracle)
      returns (error: Error, ghost steps: seq<Step>, reaped: nat)
      requires Valid()
      modifies this`world, usbfd, transfers, heap
      ensures Valid()
      ensures IsRun(old(world), steps, world)
      ensures forall step | step in steps :: step.Complete? || step.Reap?
      ensures HeldByKernel() + reaped == old(HeldByKernel())
      ensures error.Null? <==> failsAt != reaped
      ensures !error.Null? ==> IsReapFailure(error, errno, failsWith, failsIn)
      ensures failsAt >= 0 ==> reaped <= failsAt
      ensures error.Null? ==> forall id | IsSlot(world, id) :: !At(world, id).held.Finished?
    {
      error, steps, reaped := ReapAll(failsAt, errno, failsWith, failsIn);
      if error.Null? {
        NothingFinishedLeft();
      }
    }

    /** The loop of generic_handle_events. */
    method ReapAll(failsAt: int, errno: int, failsWith: Option<string>, failsIn: Oracle)
      returns (error: Error, ghost steps: seq<Step>, reaped: nat)
      requires Valid()
      modifies this`world, usbfd, transfers, heap
      ensures Valid()
      ensures IsRun(old(world), steps, world)
      ensures forall step | step in steps :: step.Complete? || step.Reap?
      ensures HeldByKernel() + reaped == old(HeldByKernel())
      ensures error.Null? <==> failsAt != reaped
      ensures !error.Null? ==> IsReapFailure(error, errno, failsWith, failsIn)
      ensures failsAt >= 0 ==> reaped <= failsAt
      ensures error.Null? ==> usbfd.finished == map[]
    {
      steps, reaped := [], 0;
      ghost var w := world;
      while true
        invariant Valid()
        invariant IsRun(w, steps, world)
        invariant forall step | step in steps :: step.Complete? || step.Reap?
        invariant HeldByKernel() + reaped == old(HeldByKernel())
        invariant failsAt >= 0 ==> reaped <= failsAt
        decreases HeldByKernel()
      {
        var more;
        ghost var moves;
        var standard: Option<string>, o: Oracle := *, *;
        if failsAt == reaped {
          standard, o := failsWith, failsIn;
        }
        more, error, moves := Round(failsAt == reaped, errno, standard, o);
        RunsCompose(w, steps, moves, world);
        steps := steps + moves;
        if !more {
          return;
        }
        reaped := reaped + 1;
      }
    }

    /** The kernel may finish some URBs, then one is reaped if there is one. */
    method Round(fails: bool, errno: int, standard: Option<string>, o: Oracle)
      returns (more: bool, error: Error, ghost steps: seq<Step>)
      requires Valid()
      modifies this`world, usbfd, transfers, heap
      ensures Valid()
      ensures IsRun(old(world), steps, world)
      ensures forall step | step in steps :: step.Complete? || step.Reap?
      ensures HeldByKernel() + (if more then 1 else 0) == old(HeldByKernel())
      ensures (error.Null? <==> !fails) && (fails ==> !more && IsReapFailure(error, errno, standard, o))
      ensures !more && error.Null? ==> usbfd.finished == map[]
    {
      ghost var w := world;
      steps := KernelProgress();
      ghost var id;
      ghost var w1 := world;
      more, error, id := ReapOne(fails, errno, standard, o);
      if more {
        OneMoreStep(w, steps, w1, Reap(id, standard, o));
        steps := steps + [Reap(id, standard, o)];
      }
    }

    /** The kernel holds exactly the transfers whose flag says pending, and none of those
        has been freed; nothing is freed twice. */
    lemma HeldExactlyIfPending(t: Transfer)
      requires Valid() && t in transfers
      ensures t.pending <==> t in usbfd.inFlight || t in usbfd.finished
      ensures t.pending ==> t.frees == 0 && t.error.Null?
      ensures t.frees <= 1 && t.lostErrors == 0
    {
      assert Tracks(t);
      MemoryIsSafe(world, t.id);
    }

    /** What is allocated: the struct and the array of each open pipe, and the struct, the
        buffer and the stored error of each transfer that has not been freed. */
    lemma AllocatedExactly(b: Block)
      requires Valid()
      ensures b in heap.live <==> IsLive(world, b)
    {}

    lemma NothingFinishedLeft()
      requires Valid() && usbfd.finished == map[]
      ensures forall id | IsSlot(world, id) :: !At(world, id).held.Finished?
    {
      forall id | IsSlot(world, id) ensures !At(world, id).held.Finished? {
        var pipe := pipes[id.pipe];
        assert pipe.Mirrors(world[id.pipe]) && pipe.Holds(transfers);
        assert Tracks(pipe.transferArray[id.index]);
      }
    }

    // ---- The invariant of the objects ----

    ghost predicate Has(pipe: Pipe)
      reads this
    {
      pipe.handle == this && pipe.index < |pipes| && pipes[pipe.index] == pipe
    }

    ghost predicate HasOpen(pipe: Pipe)
      reads this
    {
      Has(pipe) && IsOpen(world, pipe.index)
    }

    /** A transfer is as the world says, and so is the kernel's idea of it. */
    ghost predicate Tracks(t: Transfer)
      reads this, t, usbfd
    {
      && t.usbfd == usbfd
      && t.usercontext == t
      && IsSlot(world, t.id)
      && t.View() == At(world, t.id)
      && (t.held.InFlight? <==> t in usbfd.inFlight)
      && (t.held.Finished? <==> t in usbfd.finished)
      && (t.held.Finished? ==> t.held.completion == usbfd.finished[t])
    }

    /** The objects are as the world says. */
    ghost predicate Coherent()
      reads this, usbfd, pipes, transfers, arrays
    {
      && |pipes| == |world|
      && (forall k | 0 <= k < |pipes| ::
            && Has(pipes[k]) && pipes[k].index == k && pipes[k].Mirrors(world[k])
            && (pipes[k].transferArray != null ==> pipes[k].transferArray in arrays)
            && pipes[k].Holds(transfers))
      && (forall t | t in transfers :: Tracks(t))
      && (forall t, u | t in transfers && u in transfers && t.id == u.id :: t == u)
      && usbfd.inFlight <= transfers
      && usbfd.finished.Keys <= transfers
    }

    /** So is the memory that is allocated. */
    ghost predicate Consistent()
      reads this, usbfd, heap, pipes, transfers, arrays
    {
      Coherent() && Accounts(world, heap.live)
    }

    ghost predicate Valid()
      reads this, usbfd, heap, pipes, transfers, arrays
    {
      Consistent() && Reachable(world)
    }

    /** The same when the transfer is all that changes, and the kernel's idea of it. */
    twostate lemma OneSlotPut(t: Transfer)
      requires old(Coherent()) && t in transfers && IsSlot(old(world), t.id)
      requires pipes == old(pipes) && transfers == old(transfers) && arrays == old(arrays)
      requires world == Put(old(world), t.id, t.View()) && t.usercontext == t
      requires t.held.NotHeld? && t !in usbfd.inFlight && t !in usbfd.finished
      requires usbfd.inFlight == old(usbfd.inFlight) - {t}
      requires usbfd.finished == old(usbfd.finished) - {t}
      requires forall o: object {:trigger old(allocated(o))} | old(allocated(o)) ::
        o != this && o != usbfd && o != heap && o != t ==> unchanged(o)
      ensures Coherent()
    {
      PutOnly(old(world), t.id, t.View());
      assert unchanged(pipes[t.id.pipe]) by {
        var o: object := pipes[t.id.pipe];
        assert old(allocated(o));
      }
      assert old(Tracks(t));
      OneTransferChanged(t);
    }

    /** Objects stay coherent when only fields of one pipe change. */
    twostate lemma PipeFieldsChanged(k: nat)
      requires old(Coherent()) && k < |pipes|
      requires pipes == old(pipes) && transfers == old(transfers) && arrays == old(arrays) && unchanged(usbfd)
      requires |world| == |pipes| && world == old(world)[k := world[k]]
      requires world[k].slots == old(world)[k].slots
      requires forall o: object {:trigger old(allocated(o))} | old(allocated(o)) ::
        o != this && o != heap && o != pipes[k] ==> unchanged(o)
      requires pipes[k].Mirrors(world[k])
      requires pipes[k].transferArray == old(pipes[k].transferArray)
      ensures Coherent()
    {
      forall t: Transfer | t in transfers ensures unchanged(t) {
        var o: object := t;
        assert old(allocated(o));
      }
      OthersUnchanged(k);
      forall t | t in transfers ensures Tracks(t) {
        assert old(Tracks(t));
        assert At(world, t.id) == At(old(world), t.id);
      }
      forall j | 0 <= j < |pipes| ensures pipes[j].Mirrors(world[j]) && pipes[j].Holds(transfers) {
        assert old(pipes[j].Holds(transfers));
      }
    }

    /** Objects stay coherent when a pipe gets its transfers. */
    twostate lemma TransfersAdded(k: nat, new created: seq<Transfer>)
      requires old(Coherent()) && k < |old(world)| && old(world)[k].slots == [] && created != []
      requires pipes == old(pipes) && unchanged(usbfd)
      requires arrays == old(arrays) + {pipes[k].transferArray}
      requires transfers == old(transfers) + (set t | t in created)
      requires forall t | t in created :: t !in old(transfers)
      requires forall o: object {:trigger old(allocated(o))} | old(allocated(o)) ::
        o != this && o != heap && o != pipes[k] ==> unchanged(o)
      requires |world| == |pipes| && world == old(world)[k := world[k]]
      requires pipes[k].Mirrors(world[k]) && |world[k].slots| == |created|
      requires forall i | 0 <= i < |created| ::
        && pipes[k].transferArray[i] == created[i]
        && created[i].usbfd == usbfd && created[i].id == SlotId(k, i) && created[i].usercontext == created[i]
        && created[i].View() == world[k].slots[i] && created[i].held.NotHeld?
      ensures Coherent()
    {
      forall t: Transfer | t in old(transfers) ensures unchanged(t) {
        var o: object := t;
        assert old(allocated(o));
      }
      OthersUnchanged(k);
      forall t | t in transfers ensures Tracks(t) {
        if t in old(transfers) {
          assert old(Tracks(t));
          assert At(world, t.id) == At(old(world), t.id);
        } else {
          var i :| 0 <= i < |created| && created[i] == t;
        }
      }
      forall t, u | t in transfers && u in transfers && t.id == u.id ensures t == u {
        assert t in old(transfers) ==> old(Tracks(t)) && t.id.pipe != k;
        assert u in old(transfers) ==> old(Tracks(u)) && u.id.pipe != k;
      }
      forall j | 0 <= j < |pipes| ensures pipes[j].Mirrors(world[j]) && pipes[j].Holds(transfers) {
        assert j != k ==> old(pipes[j].Holds(transfers));
      }
    }

    /** The other pipes and the old arrays are unchanged if everything else is. */
    twostate lemma OthersUnchanged(k: nat)
      requires old(Coherent()) && k < |pipes| && pipes == old(pipes)
      requires forall o: object {:trigger old(allocated(o))} | old(allocated(o)) ::
        o != this && o != heap && o != pipes[k] ==> unchanged(o)
      ensures forall j | 0 <= j < |pipes| && j != k :: unchanged(pipes[j])
      ensures unchanged(old(arrays))
    {
      forall j | 0 <= j < |pipes| && j != k ensures unchanged(pipes[j]) {
        var o: object := pipes[j];
        assert old(allocated(o)) && pipes[j].index == j && pipes[k].index == k;
      }
      forall a: array<Transfer?> | a in old(arrays) ensures unchanged(a) {
        var o: object := a;
        assert old(allocated(o));
      }
    }

    /** Objects stay coherent when one transfer and the pipe it belongs to change. */
    twostate lemma OneTransferChanged(t: Transfer)
      requires old(Coherent()) && t in transfers
      requires pipes == old(pipes) && transfers == old(transfers) && arrays == old(arrays)
      requires |world| == |pipes| && IsSlot(old(world), t.id)
      requires world == old(world)[t.id.pipe := world[t.id.pipe]]
      requires |world[t.id.pipe].slots| == |old(world)[t.id.pipe].slots|
      requires world[t.id.pipe].slots == old(world)[t.id.pipe].slots[t.id.index := world[t.id.pipe].slots[t.id.index]]
      requires Tracks(t)
      requires forall o: object {:trigger old(allocated(o))} | old(allocated(o)) ::
        o != this && o != usbfd && o != heap && o != t && o != pipes[t.id.pipe] ==> unchanged(o)
      requires pipes[t.id.pipe].Mirrors(world[t.id.pipe])
      requires pipes[t.id.pipe].transferArray == old(pipes[t.id.pipe].transferArray)
      requires forall u: Transfer | u != t ::
        && (u in usbfd.inFlight <==> u in old(usbfd.inFlight))
        && (u in usbfd.finished <==> u in old(usbfd.finished))
        && (u in usbfd.finished ==> usbfd.finished[u] == old(usbfd.finished)[u])
      ensures Coherent()
    {
      forall u: Transfer | u in transfers && u != t ensures unchanged(u) {
        var o: object := u;
        assert old(allocated(o));
      }
      forall k | 0 <= k < |pipes| && k != t.id.pipe ensures unchanged(pipes[k]) {
        var o: object := pipes[k];
        assert old(allocated(o)) && pipes[k].index == k && pipes[t.id.pipe].index == t.id.pipe;
      }
      forall a: array<Transfer?> | a in arrays ensures unchanged(a) {
        var o: object := a;
        assert old(allocated(o));
      }
      forall u | u in transfers ensures Tracks(u) {
        if u != t {
          assert old(Tracks(u)) && u.id != t.id;
          assert At(world, u.id) == At(old(world), u.id);
        }
      }
      forall u | u in usbfd.inFlight ensures u in transfers {
        assert u != t ==> u in old(usbfd.inFlight);
      }
      forall u | u in usbfd.finished ensures u in transfers {
        assert u != t ==> u in old(usbfd.finished);
      }
      forall k | 0 <= k < |pipes| ensures pipes[k].Mirrors(world[k]) && pipes[k].Holds(transfers) {
        assert old(pipes[k].Holds(transfers));
      }
    }
  }
}
