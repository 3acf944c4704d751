/** The transfers of the asynchronous IN pipes on objects that are updated in place:
    src/linux/async_in_transfer_linux.c, with the boundary to the kernel in
    src/linux/usbfd_linux.c and the heap that both use. */
module AsyncInTransfer {
  import opened Base
  import opened Ledgers
  import opened ErrorModel
  import opened LinuxErrors
  import opened PipeModel
  import opened PipeMemory

  /** The C library's heap, as far as pipes use it. */
  type Heap = Ledger<Block>

  /** An error that was made is stored in a transfer, where there must be none. */
  method KeepError(heap: Heap, e: Error, ghost id: SlotId)
    requires ErrorBlock(id) !in heap.live
    modifies heap
    ensures heap.live == old(heap.live) + ErrorBlocks(id, e)
  {
    if e.Heap? {
      var ok := heap.Take(ErrorBlock(id), true);
    }
  }

  /** libusbp_error_free on the error that a transfer stores. */
  method FreeError(heap: Heap, e: Error, ghost id: SlotId)
    requires ErrorBlocks(id, e) <= heap.live
    modifies heap
    ensures heap.live == old(heap.live) - ErrorBlocks(id, e)
  {
    if e.Heap? {
      heap.Release(ErrorBlock(id));
    }
  }

  /** The kernel's side of an open device node. */
  class Usbfd {
    var inFlight: set<Transfer>
    var finished: map<Transfer, Completion>

    constructor ()
      ensures inFlight == {} && finished == map[]
    {
      inFlight, finished := {}, map[];
    }

    /** usbfd_submit_urb. */
    method SubmitUrb(urb: Transfer, ghost serial: nat, answer: Answer) returns (error: Error)
      requires urb !in inFlight && urb !in finished
      modifies this, urb`held
      ensures finished == old(finished)
      ensures error == AnswerError(answer) && (error.Null? <==> answer.Accept?)
      ensures answer.Refuse? ==> Reports(error, DocumentedCodes(answer.errno))
      ensures inFlight == old(inFlight) + (if error.Null? then {urb} else {})
      ensures urb.View() == old(urb.View()).(held := if error.Null? then InFlight(serial) else old(urb.held))
    {
      error := AnswerError(answer);
      match answer
      case Accept =>
        inFlight := inFlight + {urb};
        urb.held := InFlight(serial);
      case Refuse(errno, standard, o) =>
        SubmitErrorDocumented(errno, standard, o);
    }

    /** The kernel finishes a URB.  Nothing on this side changes until the URB is reaped. */
    method Complete(urb: Transfer, c: Completion)
      requires urb in inFlight && urb !in finished && urb.held.InFlight?
      modifies this, urb`held
      ensures inFlight == old(inFlight) - {urb} && finished == old(finished)[urb := c]
      ensures urb.View() == old(urb.View()).(held := Finished(old(urb.held).serial, c))
      ensures |inFlight| + |finished| == old(|inFlight| + |finished|)
    {
      inFlight := inFlight - {urb};
      finished := finished[urb := c];
      urb.held := Finished(urb.held.serial, c);
    }

    /** The kernel's choice of a finished URB, if there is one. */
    method PickFinished() returns (urb: Transfer?)
      ensures urb == null <==> finished == map[]
      ensures urb != null ==> urb in finished
    {
      urb := null;
      if finished != map[] {
        var t :| t in finished;
        urb := t;
      }
    }

    /** The kernel hands out a finished URB, after writing to it and to its buffer. */
    method HandOut(urb: Transfer)
      requires urb in finished
      modifies this, urb
      ensures urb.View() == KernelWrites(old(urb.View()), old(finished)[urb])
      ensures urb.usercontext == old(urb.usercontext)
      ensures inFlight == old(inFlight)
      ensures finished == old(finished) - {urb}
    {
      urb.KernelWrites(finished[urb]);
      finished := finished - {urb};
    }
  }

  /** error_create. */
  method ErrorCreate(text: string, o: Oracle) returns (error: Error)
    ensures error == Masked || error == Heap(text, [])
  {
    JoinIdentity(text);
    error := AddText(Null, Some(text), o).0;
  }

  /** error_add. */
  method ErrorAdd(e: Error, text: string, o: Oracle) returns (error: Error)
    ensures error == Masked || (error.Heap? && error.codes == Codes(e))
  {
    error := AddText(e, Some(text), o).0;
  }

  /** error_create_errno. */
  method CreateErrno(errno: int, standard: Option<string>, context: string, o: Oracle) returns (error: Error)
    ensures IsReportOf(error, errno, standard, context, o)
  {
    ErrnoDocumented(errno, standard, context, o);
    error := ErrnoError(errno, standard, context, o);
  }

  /** struct async_in_transfer, with its URB. */
  class Transfer {
    const usbfd: Usbfd
    ghost const id: SlotId

    // struct usbdevfs_urb
    var urbType: int
    var endpoint: nat
    var usercontext: Transfer?
    var bufferLength: nat
    var buffer: seq<byte>
    var status: int
    var actualLength: int
    var errorCount: int

    var pending: bool
    var error: Error

    ghost var held: Held
    ghost var frees: nat
    ghost var lostErrors: nat
    ghost var submits: nat
    ghost var ends: nat

    ghost function View(): Slot
      reads this
    {
      Slot(urbType, endpoint, if usercontext == null then None else Some(usercontext.id), bufferLength, buffer,
           status, actualLength, errorCount, pending, error, frees, lostErrors, submits, ends, held)
    }

    constructor (usbfd: Usbfd, endpoint: nat, garbage: seq<byte>, ghost id: SlotId)
      ensures this.usbfd == usbfd && this.id == id && usercontext == this
      ensures View() == NewSlot(endpoint, |garbage|, id, garbage)
    {
      this.usbfd, this.id := usbfd, id;
      urbType, this.endpoint, bufferLength, buffer := URB_TYPE_BULK, endpoint, |garbage|, garbage;
      usercontext := this;
      status, actualLength, errorCount := 0, 0, 0;
      pending, error := false, Null;
      held, frees, lostErrors, submits, ends := NotHeld, 0, 0, 0, 0;
    }

    /** What is allocated for the transfer is what it should own. */
    ghost predicate Owned(heap: Heap)
      reads this, heap
    {
      Owns(heap.live, id, View())
    }

    /** async_in_transfer_create.  If it fails, nothing that it allocated is left. */
    static method Create(heap: Heap, usbfd: Usbfd, endpoint: nat, size: nat, garbage: seq<byte>, ghost id: SlotId,
                         o: Oracle)
      returns (transfer: Transfer?, error: Error, o': Oracle)
      requires size > 0 && |garbage| == size
      requires TransferBlock(id) !in heap.live && BufferBlock(id) !in heap.live
      modifies heap
      ensures error.Null? <==> transfer != null
      ensures error.Null? <==> size <= INT_MAX && !Fails(o) && !Fails(After(o))
      ensures !error.Null? && size <= INT_MAX ==> MEMORY in Codes(error)
      ensures heap.live ==
        if transfer == null then old(heap.live) else old(heap.live) + {TransferBlock(id), BufferBlock(id)}
      ensures transfer != null ==>
        && fresh(transfer)
        && o' == After(After(o))
        && transfer.usbfd == usbfd && transfer.id == id && transfer.usercontext == transfer
        && transfer.View() == NewSlot(endpoint, size, id, garbage)
    {
      transfer, error, o' := null, Null, o;
      if size > INT_MAX {
        CreatesNonNull(Null, Text(Some("Transfer size is too large.")), o);
        var r := AddText(Null, Some("Transfer size is too large."), o);
        return null, r.0, r.1;
      }
      var hasTransfer, hasBuffer := false, false;
      hasTransfer := heap.Take(TransferBlock(id), !Fails(o'));
      o' := After(o');
      if !hasTransfer {
        error := NoMemory;
      }
      if error.Null? {
        hasBuffer := heap.Take(BufferBlock(id), !Fails(o'));
        o' := After(o');
        if !hasBuffer {
          error := NoMemory;
        }
      }
      if error.Null? {
        transfer := new Transfer(usbfd, endpoint, garbage, id);
        hasTransfer, hasBuffer := false, false;
      }
      if hasBuffer {
        assert false;
      }
      if hasTransfer {
        heap.Release(TransferBlock(id));
      }
    }

    /** What the kernel does to a URB, and to its buffer, when it hands it out. */
    method KernelWrites(c: Completion)
      modifies this
      ensures View() == PipeModel.KernelWrites(old(View()), c)
      ensures usercontext == old(usercontext)
    {
      status, actualLength, errorCount := c.status, c.actualLength, c.errorCount;
      buffer := c.data + (if |c.data| <= |buffer| then buffer[|c.data|..] else []);
      held := NotHeld;
    }

    /** async_in_transfer_free. */
    method Free(heap: Heap)
      requires !pending ==> frees == 0 && SlotBlocks(id, View()) <= heap.live
      modifies this`frees, heap
      ensures View() == FreeSlot(old(View()))
      ensures heap.live == if pending then old(heap.live) else old(heap.live) - SlotBlocks(id, old(View()))
    {
      if !pending {
        FreeError(heap, error, id);
        heap.Release(BufferBlock(id));
        heap.Release(TransferBlock(id));
        frees := frees + 1;
      }
    }

    /** async_in_transfer_submit, with its assertion as the precondition.  The error of the
        submission before is freed. */
    method Submit(heap: Heap, ghost serial: nat, answer: Answer)
      requires !pending && frees == 0 && Owned(heap)
      requires this !in usbfd.inFlight && this !in usbfd.finished
      modifies this, usbfd, heap
      ensures View() == SubmitSlot(old(View()), serial, answer)
      ensures heap.live == old(heap.live) - SlotBlocks(id, old(View())) + SlotBlocks(id, View())
      ensures usbfd.finished == old(usbfd.finished)
      ensures usbfd.inFlight == old(usbfd.inFlight) + (if answer.Accept? then {this} else {})
      ensures usercontext == old(usercontext)
    {
      BeginSubmit(heap);
      var e := usbfd.SubmitUrb(this, serial, answer);
      EndIfRefused(heap, e);
    }

    /** The beginning of async_in_transfer_submit. */
    method BeginSubmit(heap: Heap)
      requires ErrorBlocks(id, error) <= heap.live
      modifies this`error, this`pending, this`submits, heap
      ensures View() == old(View()).(pending := true, error := Null, submits := old(submits) + 1)
      ensures heap.live == old(heap.live) - ErrorBlocks(id, old(error))
    {
      FreeError(heap, error, id);
      error := Null;
      pending := true;
      submits := submits + 1;
    }

    /** The end of async_in_transfer_submit. */
    method EndIfRefused(heap: Heap, e: Error)
      requires error.Null? && ErrorBlock(id) !in heap.live
      modifies this`error, this`pending, this`ends, heap
      ensures View() ==
        if e.Null? then old(View()) else old(View()).(pending := false, error := e, ends := old(ends) + 1)
      ensures heap.live == old(heap.live) + ErrorBlocks(id, e)
    {
      if !e.Null? {
        pending := false;
        ends := ends + 1;
        KeepError(heap, e, id);
        error := e;
      }
    }

    /** async_in_transfer_handle_completion.  It stores an error over the one that is there,
        which must not be lost. */
    method HandleCompletion(heap: Heap, standard: Option<string>, o: Oracle)
      requires frees == 0 && !error.Heap? && Owned(heap)
      modifies this, heap
      ensures View() == PipeModel.HandleCompletion(old(View()), standard, o)
      ensures heap.live == old(heap.live) - SlotBlocks(id, old(View())) + SlotBlocks(id, View())
      ensures usercontext == old(usercontext)
    {
      var e := CompletionError(status, errorCount, standard, o);
      pending := false;
      ends := ends + 1;
      KeepError(heap, e, id);
      error := e;
    }

    /** async_in_transfer_get_results, with its assertion as the precondition. */
    method GetResults(o: Oracle) returns (data: seq<byte>, transferred: nat, transferError: Error)
      requires !pending && frees == 0 && Transferred(View()) <= |buffer|
      ensures Delivery(data, transferError) == Results(View(), o)
      ensures transferred == |data| == if 0 <= actualLength <= bufferLength then actualLength else bufferLength
      ensures data <= buffer && transferError == Copy(error, o).0
    {
      transferred := if actualLength < 0 then bufferLength else actualLength;
      if transferred > bufferLength {
        transferred := bufferLength;
      }
      data := buffer[..transferred];
      transferError := Copy(error, o).0;
    }
  }
}
