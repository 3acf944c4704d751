/** The asynchronous IN pipes of one generic handle as a state machine: the pipes'
    rings (src/async_in_pipe.c), their transfers (src/linux/async_in_transfer_linux.c)
    and the kernel's side of the device node (src/linux/usbfd_linux.c).

    A world is the pipes ever opened on the handle, closed ones included, because the
    kernel can still hold transfers of a closed pipe.  Every call of the library and
    every move of the kernel is a step.  AsyncInPipe.dfy has the same operations on
    objects that are updated in place. */
module PipeModel {
  import opened Base
  import opened ErrorModel
  import opened LinuxErrors

  const URB_TYPE_BULK := 3

  /** What the kernel reports and writes for a URB when it is reaped. */
  datatype Completion = Completion(status: int, errorCount: int, actualLength: int, data: seq<byte>)

  predicate Good(c: Completion) {
    c.status == 0 && c.errorCount == 0
  }

  /** The kernel's view of a URB; a held URB remembers which submission it belongs to. */
  datatype Held =
    | NotHeld
    | InFlight(serial: nat)
    | Finished(serial: nat, completion: Completion)

  datatype SlotId = SlotId(pipe: nat, index: nat)

  /** struct async_in_transfer with its struct usbdevfs_urb.  `context` is the transfer
      that urb.usercontext points to.  The counters are history: `frees` counts the calls of
      free on the transfer, `lostErrors` the stored errors that were overwritten without
      being freed, `submits` the submissions and `ends` those that have ended. */
  datatype Slot = Slot(
    urbType: int,
    endpoint: nat,
    context: Option<SlotId>,
    bufferLength: nat,
    buffer: seq<byte>,
    status: int,
    actualLength: int,
    errorCount: int,
    pending: bool,
    error: Error,
    frees: nat,
    lostErrors: nat,
    submits: nat,
    ends: nat,
    held: Held)

  /** What became of a submission, as the kernel knows it. */
  datatype Fate = Accepted | Refused(errno: int, error: Error) | Completed(completion: Completion)

  /** What handle_finished_transfer gives to the user. */
  datatype Delivery = Delivery(data: seq<byte>, error: Error)

  /** struct libusbp_async_in_pipe, with the history of the pipe: the fate of every
      submission and everything delivered, both in order.  The transfer array is NULL
      until transfers are allocated; until then `slots` is empty.  `failed` says that an
      assertion of the library did not hold, or that it touched memory it does not own. */
  datatype Pipe = Pipe(
    endpoint: nat,
    slots: seq<Slot>,
    size: nat,
    enabled: bool,
    pendingCount: nat,
    nextFinish: nat,
    nextSubmit: nat,
    closed: bool,
    failed: bool,
    fates: seq<Fate>,
    delivered: seq<Delivery>)

  type World = seq<Pipe>

  /** The kernel's answer to USBDEVFS_SUBMITURB, with what building the error meets. */
  datatype Answer = Accept | Refuse(errno: int, standard: Option<string>, oracle: Oracle)

  // ---- Transfers ----

  /** async_in_transfer_create, once its allocations have succeeded. */
  function NewSlot(endpoint: nat, size: nat, id: SlotId, garbage: seq<byte>): Slot {
    Slot(URB_TYPE_BULK, endpoint, Some(id), size, garbage, 0, 0, 0, false, Null, 0, 0, 0, 0, NotHeld)
  }

  /** The error with which the kernel refuses a submission. */
  function AnswerError(answer: Answer): Error {
    match answer
    case Accept => Null
    case Refuse(errno, standard, o) => SubmitError(errno, standard, o)
  }

  function SubmitSlot(s: Slot, serial: nat, answer: Answer): Slot {
    match answer
    case Accept => s.(pending := true, error := Null, submits := s.submits + 1, held := InFlight(serial))
    case Refuse(_, _, _) =>
      s.(pending := false, error := AnswerError(answer), submits := s.submits + 1, ends := s.ends + 1)
  }

  /** What USBDEVFS_REAPURBNDELAY writes for a URB that it hands out. */
  function KernelWrites(s: Slot, c: Completion): Slot {
    s.(status := c.status, actualLength := c.actualLength, errorCount := c.errorCount,
       buffer := c.data + (if |c.data| <= |s.buffer| then s.buffer[|c.data|..] else []),
       held := NotHeld)
  }

  /** The tests of handle_completed_urb. */
  predicate IsRecognized(s: Slot) {
    s.context.Some? && s.urbType == URB_TYPE_BULK && s.endpoint >= 0x80
  }

  function HandleCompletion(s: Slot, standard: Option<string>, o: Oracle): Slot {
    s.(pending := false,
       error := CompletionError(s.status, s.errorCount, standard, o),
       lostErrors := s.lostErrors + (if s.error.Heap? then 1 else 0),
       ends := s.ends + 1)
  }

  /** `size_t tmp = urb.actual_length`, limited to the size of the buffer.  A negative
      length converts to a huge one. */
  function Limited(actualLength: int, bufferLength: nat): nat {
    if actualLength < 0 || actualLength > bufferLength then bufferLength else actualLength
  }

  function Transferred(s: Slot): nat {
    Limited(s.actualLength, s.bufferLength)
  }

  /** The bytes that the byte count covers. */
  function Shown(s: Slot): seq<byte>
    requires Transferred(s) <= |s.buffer|
  {
    s.buffer[..Transferred(s)]
  }

  function Results(s: Slot, o: Oracle): Delivery
    requires Transferred(s) <= |s.buffer|
  {
    Delivery(Shown(s), Copy(s.error, o).0)
  }

  function FreeSlot(s: Slot): Slot {
    if s.pending then s else s.(frees := s.frees + 1)
  }

  // ---- Pipes ----

  function Increment(n: nat, bound: nat): nat {
    if n + 1 >= bound then 0 else n + 1
  }

  function NewPipe(endpoint: nat): Pipe {
    Pipe(endpoint, [], 0, false, 0, 0, 0, false, false, [], [])
  }

  function Failed(p: Pipe): Pipe {
    p.(failed := true)
  }

  /** The assertions on the way to submitting the next transfer, which must be there. */
  predicate CanSubmit(p: Pipe) {
    && p.pendingCount < |p.slots|
    && p.nextSubmit < |p.slots|
    && !p.slots[p.nextSubmit].pending
    && p.slots[p.nextSubmit].frees == 0
  }

  function FateOf(answer: Answer): Fate {
    match answer
    case Accept => Accepted
    case Refuse(errno, _, _) => Refused(errno, AnswerError(answer))
  }

  function SubmitNext(p: Pipe, answer: Answer): Pipe {
    if !CanSubmit(p) then Failed(p)
    else
      p.(slots := p.slots[p.nextSubmit := SubmitSlot(p.slots[p.nextSubmit], |p.fates|, answer)],
         pendingCount := p.pendingCount + 1,
         nextSubmit := Increment(p.nextSubmit, |p.slots|),
         fates := p.fates + [FateOf(answer)])
  }

  /** Submits until all transfers are pending; answers that are not given accept. */
  function SubmitAll(p: Pipe, answers: seq<Answer>): Pipe
    decreases |p.slots| - p.pendingCount
  {
    if p.failed || p.pendingCount >= |p.slots| then p
    else if !CanSubmit(p) then Failed(p)
    else SubmitAll(SubmitNext(p, First(answers)), Rest(answers))
  }

  function First(answers: seq<Answer>): Answer {
    if answers == [] then Accept else answers[0]
  }

  function Rest(answers: seq<Answer>): seq<Answer> {
    if answers == [] then [] else answers[1..]
  }

  /** Whether handle_finished_transfer has a finished transfer to look at. */
  predicate HasFinished(p: Pipe) {
    p.pendingCount > 0 && p.nextFinish < |p.slots| && !p.slots[p.nextFinish].pending
  }

  function Deliver(p: Pipe, o: Oracle): Pipe
    requires HasFinished(p)
  {
    var s := p.slots[p.nextFinish];
    if Transferred(s) > |s.buffer| || s.frees > 0 then Failed(p)
    else
      p.(pendingCount := p.pendingCount - 1,
         nextFinish := Increment(p.nextFinish, |p.slots|),
         delivered := p.delivered + [Results(s, o)])
  }

  function Finish(p: Pipe, o: Oracle, answer: Answer): Pipe {
    if p.pendingCount == 0 then p
    else if p.nextFinish >= |p.slots| then Failed(p)
    else if p.slots[p.nextFinish].pending then p
    else
      var q := Deliver(p, o);
      if q.enabled then SubmitNext(q, answer) else q
  }

  function FreeSlots(slots: seq<Slot>): seq<Slot> {
    seq(|slots|, i requires 0 <= i < |slots| => FreeSlot(slots[i]))
  }

  function NewSlots(endpoint: nat, size: nat, pipe: nat, garbage: seq<seq<byte>>): seq<Slot> {
    seq(|garbage|, i requires 0 <= i < |garbage| => NewSlot(endpoint, size, SlotId(pipe, i), garbage[i]))
  }

  // ---- Steps ----

  datatype Step =
    | Open(endpoint: byte)
    | Allocate(pipe: nat, size: nat, garbage: seq<seq<byte>>)
    | Start(pipe: nat, answers: seq<Answer>)
    | HandleFinished(pipe: nat, oracle: Oracle, answer: Answer)
    | Cancel(pipe: nat)
    | Close(pipe: nat)
    | Complete(id: SlotId, completion: Completion)
    | Reap(id: SlotId, standard: Option<string>, oracle: Oracle)

  /** check_pipe_id and the check for an IN endpoint: bit 7 set, number from 1 to 15. */
  predicate IsInEndpoint(endpoint: byte) {
    0x81 <= endpoint <= 0x8F
  }

  predicate IsOpen(w: World, pipe: nat) {
    pipe < |w| && !w[pipe].closed
  }

  predicate IsSlot(w: World, id: SlotId) {
    id.pipe < |w| && id.index < |w[id.pipe].slots|
  }

  function At(w: World, id: SlotId): Slot
    requires IsSlot(w, id)
  {
    w[id.pipe].slots[id.index]
  }

  function Put(w: World, id: SlotId, s: Slot): World
    requires IsSlot(w, id)
  {
    w[id.pipe := w[id.pipe].(slots := w[id.pipe].slots[id.index := s])]
  }

  /** Which steps can happen.  Calls need an open pipe; the kernel only completes what is
      in flight, never writes past a buffer, and hands out a finished URB.  A successful
      allocation is the only one that changes anything. */
  predicate Enabled(w: World, step: Step) {
    match step
    case Open(endpoint) => IsInEndpoint(endpoint)
    case Allocate(pipe, size, garbage) =>
      && IsOpen(w, pipe)
      && w[pipe].slots == []
      && garbage != []
      && 0 < size <= INT_MAX
      && forall g | g in garbage :: |g| == size
    case Start(pipe, _) => IsOpen(w, pipe) && w[pipe].slots != []
    case HandleFinished(pipe, _, _) => IsOpen(w, pipe)
    case Cancel(pipe) => IsOpen(w, pipe)
    case Close(pipe) => IsOpen(w, pipe)
    case Complete(id, c) =>
      IsSlot(w, id) && At(w, id).held.InFlight? && |c.data| <= At(w, id).bufferLength
    case Reap(id, _, _) => IsSlot(w, id) && At(w, id).held.Finished?
  }

  /** The kernel finishes a submission: it is the fate of that submission. */
  function CompleteSlot(p: Pipe, index: nat, c: Completion): Pipe
    requires index < |p.slots| && p.slots[index].held.InFlight?
  {
    var serial := p.slots[index].held.serial;
    p.(slots := p.slots[index := p.slots[index].(held := Finished(serial, c))],
       fates := if serial < |p.fates| then p.fates[serial := Completed(c)] else p.fates)
  }

  function AllocateStep(w: World, pipe: nat, size: nat, garbage: seq<seq<byte>>): World
    requires pipe < |w|
  {
    w[pipe := w[pipe].(slots := NewSlots(w[pipe].endpoint, size, pipe, garbage), size := size)]
  }

  function StartStep(w: World, pipe: nat, answers: seq<Answer>): World
    requires pipe < |w|
  {
    w[pipe := SubmitAll(w[pipe].(enabled := true), answers)]
  }

  function HandleFinishedStep(w: World, pipe: nat, o: Oracle, answer: Answer): World
    requires pipe < |w|
  {
    w[pipe := Finish(w[pipe], o, answer)]
  }

  function CancelStep(w: World, pipe: nat): World
    requires pipe < |w|
  {
    w[pipe := w[pipe].(enabled := false)]
  }

  function CloseStep(w: World, pipe: nat): World
    requires pipe < |w|
  {
    w[pipe := w[pipe].(closed := true, slots := FreeSlots(w[pipe].slots))]
  }

  function CompleteStep(w: World, id: SlotId, c: Completion): World
    requires IsSlot(w, id) && At(w, id).held.InFlight?
  {
    w[id.pipe := CompleteSlot(w[id.pipe], id.index, c)]
  }

  /** The kernel writes the URB, then handle_completed_urb looks at it. */
  function ReapStep(w: World, id: SlotId, standard: Option<string>, o: Oracle): World
    requires IsSlot(w, id) && At(w, id).held.Finished?
  {
    var s := KernelWrites(At(w, id), At(w, id).held.completion);
    var w1 := Put(w, id, s);
    if !IsRecognized(s) then w1
    else if s.frees > 0 || !IsSlot(w1, s.context.value) || At(w1, s.context.value).frees > 0 then
      w1[id.pipe := Failed(w1[id.pipe])]
    else
      Put(w1, s.context.value, HandleCompletion(At(w1, s.context.value), standard, o))
  }

  function Next(w: World, step: Step): World
    requires Enabled(w, step)
  {
    match step
    case Open(endpoint) => w + [NewPipe(endpoint)]
    case Allocate(pipe, size, garbage) => AllocateStep(w, pipe, size, garbage)
    case Start(pipe, answers) => StartStep(w, pipe, answers)
    case HandleFinished(pipe, o, answer) => HandleFinishedStep(w, pipe, o, answer)
    case Cancel(pipe) => CancelStep(w, pipe)
    case Close(pipe) => CloseStep(w, pipe)
    case Complete(id, c) => CompleteStep(w, id, c)
    case Reap(id, standard, o) => ReapStep(w, id, standard, o)
  }

  predicate CanExecute(w: World, steps: seq<Step>)
    decreases |steps|
  {
    steps == [] || (Enabled(w, steps[0]) && CanExecute(Next(w, steps[0]), steps[1..]))
  }

  function Execute(w: World, steps: seq<Step>): World
    requires CanExecute(w, steps)
    decreases |steps|
  {
    if steps == [] then w else Execute(Next(w, steps[0]), steps[1..])
  }
}
