/** The memory of the pipes of one handle: which blocks are allocated, as a function of the
    state of the pipes, and what closing a pipe leaves allocated. */
module PipeMemory {
  import opened Base
  import opened ErrorModel
  import opened PipeModel
  import opened PipeInvariant
  import opened PipeTheorems

  /** The blocks a handle's pipes can have: the structs, the arrays, the buffers, and the
      stored errors.  An error counts as one block; ErrorObjects.dfy has its parts. */
  datatype Block =
    | PipeBlock(pipe: nat)
    | ArrayBlock(pipe: nat)
    | TransferBlock(id: SlotId)
    | BufferBlock(id: SlotId)
    | ErrorBlock(id: SlotId)

  function ErrorBlocks(id: SlotId, e: Error): set<Block> {
    if e.Heap? then {ErrorBlock(id)} else {}
  }

  /** What is allocated for a transfer. */
  function SlotBlocks(id: SlotId, s: Slot): set<Block> {
    if s.frees > 0 then {} else {TransferBlock(id), BufferBlock(id)} + ErrorBlocks(id, s.error)
  }

  /** What the first n new transfers of a pipe take. */
  function TransferBlocks(pipe: nat, n: nat): set<Block> {
    if n == 0 then {}
    else TransferBlocks(pipe, n - 1) + {TransferBlock(SlotId(pipe, n - 1)), BufferBlock(SlotId(pipe, n - 1))}
  }

  /** What a successful allocation of transfers takes. */
  function AllocatedBlocks(pipe: nat, n: nat): set<Block> {
    {ArrayBlock(pipe)} + TransferBlocks(pipe, n)
  }

  lemma {:induction false} InTransferBlocks(pipe: nat, n: nat, b: Block)
    ensures b in TransferBlocks(pipe, n) <==>
      (b.TransferBlock? || b.BufferBlock?) && b.id.pipe == pipe && b.id.index < n
  {
    if n > 0 {
      InTransferBlocks(pipe, n - 1, b);
    }
  }

  lemma ArrayIsNoTransfer(pipe: nat, n: nat)
    ensures ArrayBlock(pipe) !in TransferBlocks(pipe, n)
  {
    InTransferBlocks(pipe, n, ArrayBlock(pipe));
  }

  /** The next transfer to be created has no blocks yet. */
  lemma NextTransferIsNew(live: set<Block>, pipe: nat, i: nat, n: nat)
    requires i < n && TransferBlocks(pipe, n) !! live
    ensures TransferBlock(SlotId(pipe, i)) !in live + TransferBlocks(pipe, i)
    ensures BufferBlock(SlotId(pipe, i)) !in live + TransferBlocks(pipe, i)
  {
    forall b | b in {TransferBlock(SlotId(pipe, i)), BufferBlock(SlotId(pipe, i))}
      ensures b !in live + TransferBlocks(pipe, i)
    {
      InTransferBlocks(pipe, i, b);
      InTransferBlocks(pipe, n, b);
    }
  }

  lemma OneMoreTransfer(live: set<Block>, pipe: nat, i: nat)
    ensures live + TransferBlocks(pipe, i) + {TransferBlock(SlotId(pipe, i)), BufferBlock(SlotId(pipe, i))}
      == live + TransferBlocks(pipe, i + 1)
  {}

  /** Undoing an allocation that got as far as k transfers. */
  lemma UndoneAllocation(live: set<Block>, pipe: nat, k: nat, n: nat)
    requires k <= n && AllocatedBlocks(pipe, n) !! live
    ensures live + {ArrayBlock(pipe)} + TransferBlocks(pipe, k) - AllocatedBlocks(pipe, k) == live
  {
    forall b | b in AllocatedBlocks(pipe, k) ensures b !in live {
      InTransferBlocks(pipe, k, b);
      InTransferBlocks(pipe, n, b);
    }
  }

  /** Freeing the first n new transfers one by one. */
  lemma OneFewerTransfer(live: set<Block>, pipe: nat, i: nat, n: nat, s: Slot)
    requires i < n && TransferBlocks(pipe, n) <= live && s.frees == 0 && !s.error.Heap?
    ensures SlotBlocks(SlotId(pipe, i), s) <= live - TransferBlocks(pipe, i)
    ensures live - TransferBlocks(pipe, i) - SlotBlocks(SlotId(pipe, i), s) == live - TransferBlocks(pipe, i + 1)
  {
    forall b | b in SlotBlocks(SlotId(pipe, i), s) ensures b in live && b !in TransferBlocks(pipe, i) {
      InTransferBlocks(pipe, i, b);
      InTransferBlocks(pipe, n, b);
    }
  }

  /** Which blocks are allocated in a world. */
  predicate IsLive(w: World, b: Block) {
    match b
    case PipeBlock(pipe) => IsOpen(w, pipe)
    case ArrayBlock(pipe) => IsOpen(w, pipe) && w[pipe].slots != []
    case TransferBlock(id) => IsSlot(w, id) && b in SlotBlocks(id, At(w, id))
    case BufferBlock(id) => IsSlot(w, id) && b in SlotBlocks(id, At(w, id))
    case ErrorBlock(id) => IsSlot(w, id) && b in SlotBlocks(id, At(w, id))
  }

  /** Exactly these blocks are allocated. */
  ghost predicate Accounts(w: World, live: set<Block>) {
    forall b :: b in live <==> IsLive(w, b)
  }

  /** What is allocated with the name of a transfer is what the transfer owns. */
  ghost predicate Owns(live: set<Block>, id: SlotId, s: Slot) {
    forall b: Block | b in {TransferBlock(id), BufferBlock(id), ErrorBlock(id)} ::
      b in live <==> b in SlotBlocks(id, s)
  }

  lemma SlotOwns(w: World, live: set<Block>, id: SlotId)
    requires Accounts(w, live) && IsSlot(w, id)
    ensures Owns(live, id, At(w, id))
    ensures SlotBlocks(id, At(w, id)) <= live
  {
    forall b | b in SlotBlocks(id, At(w, id)) ensures b in live {
      assert IsLive(w, b);
    }
  }

  lemma OneSlotAccounts(w: World, live: set<Block>, w': World, id: SlotId)
    requires Accounts(w, live) && IsSlot(w, id) && IsSlot(w', id)
    requires w' == w[id.pipe := w'[id.pipe]] && w'[id.pipe].closed == w[id.pipe].closed
    requires w'[id.pipe].slots == w[id.pipe].slots[id.index := At(w', id)]
    ensures Accounts(w', live - SlotBlocks(id, At(w, id)) + SlotBlocks(id, At(w', id)))
  {
    var live' := live - SlotBlocks(id, At(w, id)) + SlotBlocks(id, At(w', id));
    forall b ensures b in live' <==> IsLive(w', b) {
      assert b in live <==> IsLive(w, b);
    }
  }

  lemma OneSlotSameBlocks(w: World, live: set<Block>, w': World, id: SlotId)
    requires Accounts(w, live) && IsSlot(w, id) && IsSlot(w', id)
    requires w' == w[id.pipe := w'[id.pipe]] && w'[id.pipe].closed == w[id.pipe].closed
    requires w'[id.pipe].slots == w[id.pipe].slots[id.index := At(w', id)]
    requires SlotBlocks(id, At(w', id)) == SlotBlocks(id, At(w, id))
    ensures Accounts(w', live)
  {
    SlotOwns(w, live, id);
    OneSlotAccounts(w, live, w', id);
    assert live - SlotBlocks(id, At(w, id)) + SlotBlocks(id, At(w', id)) == live;
  }

  lemma SameSlotsAccount(w: World, live: set<Block>, w': World, pipe: nat)
    requires Accounts(w, live) && pipe < |w| == |w'|
    requires w' == w[pipe := w'[pipe]] && w'[pipe].slots == w[pipe].slots && w'[pipe].closed == w[pipe].closed
    ensures Accounts(w', live)
  {
    forall b ensures b in live <==> IsLive(w', b) {
      assert b in live <==> IsLive(w, b);
    }
  }

  lemma OpenAccounts(w: World, live: set<Block>, endpoint: nat)
    requires Accounts(w, live)
    ensures PipeBlock(|w|) !in live
    ensures Accounts(w + [NewPipe(endpoint)], live + {PipeBlock(|w|)})
  {
    assert !IsLive(w, PipeBlock(|w|));
    var w' := w + [NewPipe(endpoint)];
    forall b ensures b in live + {PipeBlock(|w|)} <==> IsLive(w', b) {
      assert b in live <==> IsLive(w, b);
    }
  }

  lemma NothingAllocatedYet(w: World, live: set<Block>, pipe: nat, n: nat)
    requires Accounts(w, live) && pipe < |w| && w[pipe].slots == []
    ensures AllocatedBlocks(pipe, n) !! live
  {
    forall b | b in AllocatedBlocks(pipe, n) ensures b !in live {
      InTransferBlocks(pipe, n, b);
      assert !IsLive(w, b);
    }
  }

  lemma AllocateAccounts(w: World, live: set<Block>, pipe: nat, size: nat, garbage: seq<seq<byte>>)
    requires Accounts(w, live) && IsOpen(w, pipe) && w[pipe].slots == [] && garbage != []
    ensures Accounts(AllocateStep(w, pipe, size, garbage), live + AllocatedBlocks(pipe, |garbage|))
  {
    var w' := AllocateStep(w, pipe, size, garbage);
    forall b ensures b in live + AllocatedBlocks(pipe, |garbage|) <==> IsLive(w', b) {
      InTransferBlocks(pipe, |garbage|, b);
      assert b in live <==> IsLive(w, b);
    }
  }

  /** What close frees besides the transfers. */
  function ClosedBlocks(p: Pipe, pipe: nat): set<Block> {
    {PipeBlock(pipe)} + (if p.slots == [] then {} else {ArrayBlock(pipe)})
  }

  lemma CloseAccounts(w: World, live: set<Block>, pipe: nat)
    requires Accounts(w, live) && IsOpen(w, pipe)
    ensures ClosedBlocks(w[pipe], pipe) <= live
    ensures Accounts(w[pipe := w[pipe].(closed := true)], live - ClosedBlocks(w[pipe], pipe))
  {
    var w' := w[pipe := w[pipe].(closed := true)];
    assert IsLive(w, PipeBlock(pipe)) && (w[pipe].slots != [] ==> IsLive(w, ArrayBlock(pipe)));
    forall b ensures b in live - ClosedBlocks(w[pipe], pipe) <==> IsLive(w', b) {
      assert b in live <==> IsLive(w, b);
    }
  }

  /** Of a closed pipe nothing stays allocated but the transfers that the kernel held when
      it was closed, with what belongs to them, and those stay whatever happens later. */
  lemma CloseLeavesOnlyHeld(w: World, pipe: nat, after: seq<Step>, b: Block)
    requires Reachable(w) && Enabled(w, Close(pipe))
    requires CanExecute(Next(w, Close(pipe)), after)
    requires (if b.PipeBlock? || b.ArrayBlock? then b.pipe else b.id.pipe) == pipe
    ensures var w' := Execute(Next(w, Close(pipe)), after);
      var isHeld := (b.TransferBlock? || b.BufferBlock? || b.ErrorBlock?)
                    && IsSlot(w, b.id) && !At(w, b.id).held.NotHeld?;
      && (IsLive(w', b) ==> isHeld)
      && (isHeld && !b.ErrorBlock? ==> IsLive(w', b))
  {
    CloseFreesOrLeaks(w, pipe, after);
    ClosedStaysClosed(w, pipe, after);
  }

  lemma ClosedStaysClosed(w: World, pipe: nat, after: seq<Step>)
    requires Reachable(w) && Enabled(w, Close(pipe))
    requires CanExecute(Next(w, Close(pipe)), after)
    ensures var w' := Execute(Next(w, Close(pipe)), after); pipe < |w'| && w'[pipe].closed
  {
    Always(w);
    var w1 := Next(w, Close(pipe));
    StepKeeps(w, Close(pipe));
    RunContinues(w1, after);
    assert Continues(w1[pipe], Execute(w1, after)[pipe]);
  }
}
