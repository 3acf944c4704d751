/** The three implementations of an asynchronous transfer: src/linux, src/mac and
    src/windows/async_in_transfer_*.c all refine one automaton. */
module Backends {
  import opened Base
  import opened Ledgers
  import opened ErrorModel
  import opened LinuxErrors
  import PipeModel
  import PipeInvariant

  // ---- The automaton ----

  datatype Result = Result(transferred: nat, error: Error)

  /** A transfer, with how often it was submitted and how many submissions have ended. */
  datatype Automaton = Automaton(pending: bool, submits: nat, ends: nat, result: Result)

  /** A submission is accepted, or ends at once, well or with an error; an accepted one is
      completed later.  Looking at a transfer changes nothing. */
  datatype Event = Accept | Instant(result: Result) | Refuse(result: Result) | Complete(result: Result) | Look

  predicate IsSubmit(e: Event) {
    e.Accept? || e.Instant? || e.Refuse?
  }

  predicate Allowed(a: Automaton, e: Event) {
    match e
    case Accept => !a.pending
    case Instant(r) => !a.pending && r.error.Null?
    case Refuse(r) => !a.pending && !r.error.Null?
    case Complete(_) => a.pending
    case Look => true
  }

  /** While a transfer is pending no error is stored in it. */
  function Step(a: Automaton, e: Event): Automaton {
    match e
    case Accept => Automaton(true, a.submits + 1, a.ends, Result(0, Null))
    case Instant(r) => Automaton(false, a.submits + 1, a.ends + 1, r)
    case Refuse(r) => Automaton(false, a.submits + 1, a.ends + 1, r)
    case Complete(r) => Automaton(false, a.submits, a.ends + 1, r)
    case Look => a
  }

  const START := Automaton(false, 0, 0, Result(0, Null))

  predicate CanRun(a: Automaton, events: seq<Event>)
    decreases |events|
  {
    events == [] || (Allowed(a, events[0]) && CanRun(Step(a, events[0]), events[1..]))
  }

  function RunEvents(a: Automaton, events: seq<Event>): Automaton
    decreases |events|
  {
    if events == [] then a else RunEvents(Step(a, events[0]), events[1..])
  }

  /** What a run of the automaton can lead to. */
  ghost predicate Reached(a: Automaton) {
    exists events :: CanRun(START, events) && RunEvents(START, events) == a
  }

  lemma {:induction false} RunsAppend(a: Automaton, first: seq<Event>, second: seq<Event>)
    requires CanRun(a, first) && CanRun(RunEvents(a, first), second)
    ensures CanRun(a, first + second)
    ensures RunEvents(a, first + second) == RunEvents(RunEvents(a, first), second)
    decreases |first|
  {
    if first == [] {
      assert first + second == second;
    } else {
      assert (first + second)[1..] == first[1..] + second;
      RunsAppend(Step(a, first[0]), first[1..], second);
    }
  }

  lemma StartReached()
    ensures Reached(START)
  {
    assert CanRun(START, []) && RunEvents(START, []) == START;
  }

  lemma OneEvent(a: Automaton, e: Event)
    requires Allowed(a, e)
    ensures CanRun(a, [e]) && RunEvents(a, [e]) == Step(a, e)
  {
    assert [e][1..] == [];
  }

  lemma StepReached(a: Automaton, e: Event)
    requires Reached(a) && Allowed(a, e)
    ensures Reached(Step(a, e))
  {
    var events :| CanRun(START, events) && RunEvents(START, events) == a;
    OneEvent(a, e);
    RunsAppend(START, events, [e]);
  }

  /** On every run each submission ends at most once, and all have ended but the pending
      one.  While it is pending no error is stored. */
  lemma EachSubmitEndsOnce(a: Automaton)
    requires Reached(a)
    ensures a.submits == a.ends + (if a.pending then 1 else 0)
    ensures a.pending ==> a.result.error.Null?
  {
    var events :| CanRun(START, events) && RunEvents(START, events) == a;
    RunEndsOnce(START, events);
  }

  lemma {:induction false} RunEndsOnce(a: Automaton, events: seq<Event>)
    requires CanRun(a, events) && a.submits == a.ends + (if a.pending then 1 else 0)
    requires a.pending ==> a.result.error.Null?
    ensures var b := RunEvents(a, events);
      b.submits == b.ends + (if b.pending then 1 else 0) && (b.pending ==> b.result.error.Null?)
    decreases |events|
  {
    if events != [] {
      RunEndsOnce(Step(a, events[0]), events[1..]);
    }
  }

  /** How many events of a run are submissions, and how many end one. */
  function Submits(events: seq<Event>): nat {
    if events == [] then 0 else Submits(events[..|events| - 1]) + (if IsSubmit(events[|events| - 1]) then 1 else 0)
  }

  function Ends(events: seq<Event>): nat {
    if events == [] then 0
    else
      var last := events[|events| - 1];
      Ends(events[..|events| - 1]) + (if last.Instant? || last.Refuse? || last.Complete? then 1 else 0)
  }

  /** The result that the last event of a run has left; an accepted submission clears it. */
  function LastResult(events: seq<Event>): Result {
    if events == [] then Result(0, Null)
    else
      match events[|events| - 1]
      case Accept => Result(0, Null)
      case Look => LastResult(events[..|events| - 1])
      case Instant(r) => r
      case Refuse(r) => r
      case Complete(r) => r
  }

  /** What a run leads to, in terms of its events: a transfer is pending while there is a
      submission that has not ended, and it has the result of the last event. */
  lemma {:induction false} RunExactly(events: seq<Event>)
    requires CanRun(START, events)
    ensures var a := RunEvents(START, events);
      && a.submits == Submits(events) && a.ends == Ends(events)
      && (a.pending <==> Submits(events) > Ends(events))
      && a.result == LastResult(events)
    decreases |events|
  {
    if events != [] {
      var n := |events| - 1;
      assert events == events[..n] + [events[n]];
      RunSplits(START, events[..n], [events[n]]);
      RunExactly(events[..n]);
      RunEndsOnce(START, events);
      assert [events[n]][1..] == [];
    }
  }

  lemma {:induction false} RunSplits(a: Automaton, first: seq<Event>, second: seq<Event>)
    requires CanRun(a, first + second)
    ensures CanRun(a, first) && CanRun(RunEvents(a, first), second)
    ensures RunEvents(a, first + second) == RunEvents(RunEvents(a, first), second)
    decreases |first|
  {
    if first == [] {
      assert first + second == second;
    } else {
      assert (first + second)[1..] == first[1..] + second;
      RunSplits(Step(a, first[0]), first[1..], second);
    }
  }

  predicate NoSubmit(events: seq<Event>) {
    forall e | e in events :: !IsSubmit(e)
  }

  /** Once a transfer is not pending, nothing changes its result until the next submit. */
  lemma {:induction false} ResultIsFixed(a: Automaton, events: seq<Event>)
    requires CanRun(a, events) && !a.pending && NoSubmit(events)
    ensures RunEvents(a, events) == a
    decreases |events|
  {
    if events != [] {
      assert events[0] in events && Allowed(a, events[0]);
      ResultIsFixed(a, events[1..]);
    }
  }

  /** The submissions of a run are counted: the count never falls, and it stays only if
      there is none. */
  lemma {:induction false} SubmitsAreCounted(a: Automaton, events: seq<Event>)
    requires CanRun(a, events)
    ensures RunEvents(a, events).submits >= a.submits
    ensures RunEvents(a, events).submits == a.submits <==> NoSubmit(events)
    decreases |events|
  {
    if events != [] {
      SubmitsAreCounted(Step(a, events[0]), events[1..]);
      assert events == [events[0]] + events[1..];
      assert NoSubmit(events) <==> !IsSubmit(events[0]) && NoSubmit(events[1..]);
    }
  }

  // ---- Linux ----

  /** A transfer of the pipe model is in a state of the automaton. */
  predicate Represents(s: PipeModel.Slot, a: Automaton) {
    && s.pending == a.pending
    && s.error == a.result.error
    && s.submits == a.submits && s.ends == a.ends
    && (!s.pending ==> a.result.transferred == PipeModel.Transferred(s))
  }

  /** What the automaton does when a Linux transfer is submitted. */
  function LinuxSubmit(s: PipeModel.Slot, answer: PipeModel.Answer): Event {
    match answer
    case Accept => Accept
    case Refuse(_, _, _) => Refuse(Result(PipeModel.Transferred(s), PipeModel.AnswerError(answer)))
  }

  lemma LinuxRefines(s: PipeModel.Slot, a: Automaton, serial: nat, answer: PipeModel.Answer)
    requires Represents(s, a) && !s.pending
    ensures var e := LinuxSubmit(s, answer);
      Allowed(a, e) && Represents(PipeModel.SubmitSlot(s, serial, answer), Step(a, e))
  {
    if answer.Refuse? {
      SubmitErrorNonNull(answer.errno, answer.standard, answer.oracle);
    }
  }

  lemma LinuxCompletionRefines(s: PipeModel.Slot, a: Automaton, standard: Option<string>, o: Oracle)
    requires Represents(s, a) && s.pending && s.held.Finished?
    ensures var t := PipeInvariant.Reaped(s, standard, o);
      var e := Complete(Result(PipeModel.Transferred(t), t.error));
      Allowed(a, e) && Represents(t, Step(a, e))
  {}

  /** A run of the automaton between two states of a transfer.  Without a submission the
      buffer of a transfer that has ended does not change either. */
  ghost predicate IsPath(s: PipeModel.Slot, t: PipeModel.Slot, a: Automaton, events: seq<Event>) {
    && CanRun(a, events) && Represents(t, RunEvents(a, events))
    && (!s.pending && NoSubmit(events) ==> t.buffer == s.buffer)
  }

  ghost predicate Follows(s: PipeModel.Slot, t: PipeModel.Slot) {
    forall a | Represents(s, a) :: exists events :: IsPath(s, t, a, events)
  }

  lemma FollowsSame(s: PipeModel.Slot, t: PipeModel.Slot)
    requires t.pending == s.pending && t.error == s.error && t.submits == s.submits && t.ends == s.ends
    requires !s.pending ==> PipeModel.Transferred(t) == PipeModel.Transferred(s) && t.buffer == s.buffer
    ensures Follows(s, t)
  {
    forall a | Represents(s, a) ensures exists events :: IsPath(s, t, a, events) {
      assert IsPath(s, t, a, []);
    }
  }

  lemma FollowsTransitive(s: PipeModel.Slot, t: PipeModel.Slot, u: PipeModel.Slot)
    requires Follows(s, t) && Follows(t, u)
    ensures Follows(s, u)
  {
    forall a | Represents(s, a) ensures exists events :: IsPath(s, u, a, events) {
      var first :| IsPath(s, t, a, first);
      var second :| IsPath(t, u, RunEvents(a, first), second);
      PathsJoin(s, t, u, a, first, second);
    }
  }

  lemma PathsJoin(s: PipeModel.Slot, t: PipeModel.Slot, u: PipeModel.Slot, a: Automaton,
                  first: seq<Event>, second: seq<Event>)
    requires Represents(s, a) && IsPath(s, t, a, first) && IsPath(t, u, RunEvents(a, first), second)
    ensures IsPath(s, u, a, first + second)
  {
    RunsAppend(a, first, second);
    if !s.pending && NoSubmit(first + second) {
      assert forall e | e in first || e in second :: e in first + second;
      ResultIsFixed(a, first);
    }
  }

  lemma SubmitFollows(s: PipeModel.Slot, serial: nat, answer: PipeModel.Answer)
    requires !s.pending
    ensures Follows(s, PipeModel.SubmitSlot(s, serial, answer))
  {
    var t := PipeModel.SubmitSlot(s, serial, answer);
    forall a | Represents(s, a) ensures exists events :: IsPath(s, t, a, events) {
      LinuxRefines(s, a, serial, answer);
      OneEvent(a, LinuxSubmit(s, answer));
      assert IsPath(s, t, a, [LinuxSubmit(s, answer)]);
    }
  }

  lemma ReapFollows(s: PipeModel.Slot, standard: Option<string>, o: Oracle)
    requires s.pending && s.held.Finished?
    ensures Follows(s, PipeInvariant.Reaped(s, standard, o))
  {
    var t := PipeInvariant.Reaped(s, standard, o);
    forall a | Represents(s, a) ensures exists events :: IsPath(s, t, a, events) {
      LinuxCompletionRefines(s, a, standard, o);
      var e := Complete(Result(PipeModel.Transferred(t), t.error));
      OneEvent(a, e);
      assert IsPath(s, t, a, [e]);
    }
  }

  // ---- Errors of the other platforms ----

  /** error_create_mach and error_create_winapi: the number, what the switch and the system
      add, then the context. */
  function PlatformError(number: string, middle: seq<Op>, context: string, o: Oracle): Error {
    Run(Null, [Add(number)] + middle + [Add(context)], o).0
  }

  /** What a failing system call gives: enough to build the error. */
  datatype Failure = Failure(number: string, middle: seq<Op>, oracle: Oracle)

  /** The context, what the switch and the system added, newest first, and the number; and
      the codes of the switch. */
  predicate IsComplete(e: Error, f: Failure, context: string) {
    IsMadeOf(e, [context] + Texts(f.middle, [f.number]), CodesOf(f.middle))
  }

  /** An error is complete, or says that memory ran out; the latter only if it did. */
  predicate IsFailure(e: Error, f: Failure, context: string) {
    && !e.Null?
    && (|CodesOf(f.middle)| < MAX_CODES ==> IsComplete(e, f, context) || HasCode(e, MEMORY))
    && (|CodesOf(f.middle)| < MAX_CODES && true !in f.oracle ==> IsComplete(e, f, context))
  }

  lemma PlatformErrorIsFailure(f: Failure, context: string)
    ensures IsFailure(PlatformError(f.number, f.middle, context, f.oracle), f, context)
  {
    var first, last := [Add(f.number)], [Add(context)];
    var ops := first + f.middle + last;
    assert ops[0] in ops && Creates(ops[0]);
    NullExactly(Null, ops, f.oracle);
    PlatformTexts(f, context);
    if |CodesOf(f.middle)| < MAX_CODES {
      CompleteOrMemory(Null, ops, f.oracle);
      if true !in f.oracle {
        HistoryOrMemory(Null, ops, f.oracle);
      }
    }
  }

  /** The error of an accepted transfer. */
  function TransferError(f: Failure): Error {
    PlatformError(f.number, f.middle, Words(TransferFailed), f.oracle)
  }

  predicate IsTransferFailure(e: Error, f: Failure) {
    IsFailure(e, f, "Asynchronous IN transfer failed.")
  }

  lemma TransferErrorIsFailure(f: Failure)
    ensures IsTransferFailure(TransferError(f), f) && !TransferError(f).Null?
  {
    PlatformErrorIsFailure(f, Words(TransferFailed));
  }

  lemma PlatformTexts(f: Failure, context: string)
    ensures var ops := [Add(f.number)] + f.middle + [Add(context)];
      && NonEmpty(Texts(ops, [""])) == NonEmpty([context] + Texts(f.middle, [f.number]))
      && CodesOf(ops) == CodesOf(f.middle)
  {
    var first, last := [Add(f.number)], [Add(context)];
    var parts := Texts(f.middle, [f.number]);
    TextsAppend(first + f.middle, last, [""]);
    TextsAppend(first, f.middle, [""]);
    TextsOfOne(f.number, [""]);
    TextsOnTop(f.middle, [f.number], [""]);
    TextsOfOne(context, parts + [""]);
    assert [context] + (parts + [""]) == ([context] + parts) + [""];
    NonEmptyAppend([context] + parts, [""]);
    assert NonEmpty([""]) == [];
    CodesOfAppend(first, f.middle);
    CodesOfAppend(first + f.middle, last);
  }

  lemma {:induction false} TextsOnTop(ops: seq<Op>, a: seq<string>, b: seq<string>)
    ensures Texts(ops, a + b) == Texts(ops, a) + b
    decreases |ops|
  {
    if ops != [] {
      match ops[0]
      case Text(Some(text)) =>
        assert [text] + (a + b) == ([text] + a) + b;
        TextsOnTop(ops[1..], [text] + a, b);
      case _ => TextsOnTop(ops[1..], a, b);
    }
  }

  /** The largest transfer: UINT32_MAX, and ULONG_MAX on Windows. */
  const SIZE_LIMIT: nat := 0xFFFF_FFFF

  /** What is allocated for a macOS or Windows transfer. */
  datatype Part = Struct | Buffer | Event | StoredError

  function ErrorPart(e: Error): set<Part> {
    if e.Heap? then {StoredError} else {}
  }

  /** libusbp_error_free on the error that a transfer stores. */
  method FreeError(parts: Ledger<Part>, e: Error)
    requires ErrorPart(e) <= parts.live
    modifies parts
    ensures parts.live == old(parts.live) - ErrorPart(e)
  {
    if e.Heap? {
      parts.Release(StoredError);
    }
  }

  /** An error that was made is stored in a transfer, where there must be none. */
  method KeepError(parts: Ledger<Part>, e: Error)
    requires StoredError !in parts.live
    modifies parts
    ensures parts.live == old(parts.live) + ErrorPart(e)
  {
    if e.Heap? {
      var ok := parts.Take(StoredError, true);
    }
  }

  // ---- macOS ----

  class MacTransfer {
    const parts: Ledger<Part>
    var size: nat
    var pending: bool
    var transferred: nat
    var error: Error
    ghost var promised: bool  // IOKit has promised to call back
    ghost var automaton: Automaton

    /** `parts` has exactly what the transfer owns: its error is freed once, and before it
        is overwritten. */
    ghost predicate Valid()
      reads this, parts
    {
      && Reached(automaton)
      && parts.live == {Struct, Buffer} + ErrorPart(error)
      && pending == promised == automaton.pending
      && error == automaton.result.error
      && transferred == automaton.result.transferred
      && transferred <= size
      && (pending ==> error.Null? && transferred == 0)
    }

    constructor (parts: Ledger<Part>, size: nat)
      requires parts.live == {Struct, Buffer}
      ensures Valid() && automaton == START && this.size == size && this.parts == parts
    {
      this.parts := parts;
      this.size, pending, transferred, error := size, false, 0, Null;
      promised, automaton := false, START;
      new;
      StartReached();
    }

    /** async_in_transfer_create.  If it fails, nothing that it allocated is left. */
    static method Create(parts: Ledger<Part>, size: nat, o: Oracle) returns (transfer: MacTransfer?, error: Error)
      requires parts.live == {}
      modifies parts
      ensures error.Null? <==> transfer != null
      ensures error.Null? <==> size <= SIZE_LIMIT && !Fails(o) && !Fails(After(o))
      ensures size <= SIZE_LIMIT && !error.Null? ==> HasCode(error, MEMORY)
      ensures if transfer == null then parts.live == {}
        else fresh(transfer) && transfer.parts == parts && transfer.Valid() && transfer.size == size
             && transfer.automaton == START
    {
      transfer, error := null, Null;
      if size > SIZE_LIMIT {
        CreatesNonNull(Null, Text(Some("Transfer size is too large.")), o);
        return null, AddText(Null, Some("Transfer size is too large."), o).0;
      }
      var hasStruct, hasBuffer := false, false;
      hasStruct := parts.Take(Struct, !Fails(o));
      if hasStruct {
        hasBuffer := parts.Take(Buffer, !Fails(After(o)));
      }
      if hasBuffer {
        transfer := new MacTransfer(parts, size);
        return;
      }
      error := NoMemory;
      if hasStruct {
        parts.Release(Struct);
      }
    }

    /** async_in_transfer_submit; `refusal` is why ReadPipeAsync failed, if it did. */
    method Submit(refusal: Option<Failure>)
      requires Valid() && !pending
      modifies this, parts
      ensures Valid() && size == old(size)
      ensures pending == refusal.None? && transferred == 0 && (pending ==> error.Null?)
      ensures if refusal.None? then automaton == Step(old(automaton), Accept)
        else && IsFailure(error, refusal.value, "Failed to submit asynchronous read transfer.")
             && Allowed(old(automaton), Refuse(Result(0, error)))
             && automaton == Step(old(automaton), Refuse(Result(0, error)))
    {
      FreeError(parts, error);
      error, transferred, pending := Null, 0, true;
      promised := refusal.None?;
      if refusal.None? {
        StepReached(automaton, Accept);
        automaton := Step(automaton, Accept);
      } else {
        var f := refusal.value;
        PlatformErrorIsFailure(f, "Failed to submit asynchronous read transfer.");
        pending := false;
        error := PlatformError(f.number, f.middle, "Failed to submit asynchronous read transfer.", f.oracle);
        KeepError(parts, error);
        StepReached(automaton, Refuse(Result(0, error)));
        automaton := Step(automaton, Refuse(Result(0, error)));
      }
    }

    /** async_in_transfer_callback.  IOKit calls it once for each accepted transfer, with a
        byte count that fits the buffer; then the assertions never fail. */
    method Callback(failure: Option<Failure>, arg0: nat)
      requires Valid() && promised && arg0 <= size
      modifies this, parts
      ensures Valid() && size == old(size)
      ensures !pending && transferred == arg0
      ensures error.Null? <==> failure.None?
      ensures failure.Some? ==> IsTransferFailure(error, failure.value)
      ensures Allowed(old(automaton), Complete(Result(arg0, error)))
      ensures automaton == Step(old(automaton), Complete(Result(arg0, error)))
    {
      assert pending;
      assert error == Null;
      assert transferred == 0;
      var e := Null;
      if failure.Some? {
        var f := failure.value;
        TransferErrorIsFailure(f);
        e := TransferError(f);
      }
      transferred := arg0;
      pending := false;
      KeepError(parts, e);
      error := e;
      promised := false;
      StepReached(automaton, Complete(Result(arg0, e)));
      automaton := Step(automaton, Complete(Result(arg0, e)));
    }

    /** async_in_transfer_free.  The transfer must not be used afterwards. */
    method Free()
      requires Valid()
      modifies parts
      ensures parts.live == if pending then old(parts.live) else {}
    {
      if !pending {
        FreeError(parts, error);
        parts.Release(Buffer);
        parts.Release(Struct);
      }
    }

    /** async_in_transfer_get_results, without the copying of the buffer. */
    method GetResults(o: Oracle) returns (count: nat, transferError: Error)
      requires Valid() && !pending
      ensures count == automaton.result.transferred == transferred <= size
      ensures transferError == Copy(automaton.result.error, o).0
    {
      count := transferred;
      if count > size {
        assert false;
      }
      transferError := Copy(error, o).0;
    }

    /** On every run of calls and callbacks each submission ends at most once. */
    lemma EndsOnce()
      requires Valid()
      ensures automaton.submits == automaton.ends + (if pending then 1 else 0)
      ensures pending ==> error.Null?
    {
      EachSubmitEndsOnce(automaton);
    }

    /** Between any two moments, if there is no submission, a transfer that is not pending
        keeps its result. */
    twostate lemma ResultStays(events: seq<Event>)
      requires old(Valid()) && Valid() && !old(pending)
      requires CanRun(old(automaton), events) && automaton == RunEvents(old(automaton), events)
      requires automaton.submits == old(automaton.submits)
      ensures !pending && transferred == old(transferred) && error == old(error)
    {
      SubmitsAreCounted(old(automaton), events);
      ResultIsFixed(old(automaton), events);
    }
  }

  // ---- Windows ----

  /** The outcome of WinUsb_ReadPipe or WinUsb_GetOverlappedResult, with the byte count
      written in any case. */
  datatype WinOutcome = Done(count: nat) | NotYet(count: nat) | Failed(count: nat, failure: Failure)

  class WinTransfer {
    const parts: Ledger<Part>
    var bufferSize: nat
    var transferred: nat
    var pending: bool
    var error: Error
    ghost var automaton: Automaton

    /** `parts` has exactly what the transfer owns, with the event for the overlapped I/O. */
    ghost predicate Valid()
      reads this, parts
    {
      && Reached(automaton)
      && parts.live == {Struct, Buffer, Event} + ErrorPart(error)
      && pending == automaton.pending
      && error == automaton.result.error
      && (!pending ==> automaton.result.transferred == transferred)
    }

    constructor (parts: Ledger<Part>, bufferSize: nat)
      requires parts.live == {Struct, Buffer, Event}
      ensures Valid() && automaton == START && this.bufferSize == bufferSize && this.parts == parts
    {
      this.parts := parts;
      this.bufferSize, transferred, pending, error := bufferSize, 0, false, Null;
      automaton := START;
      new;
      StartReached();
    }

    /** async_in_transfer_create.  If it fails, nothing that it allocated is left;
        `refusal` is why there is no event, if there is none. */
    static method Create(parts: Ledger<Part>, size: nat, refusal: Option<Failure>, o: Oracle)
      returns (transfer: WinTransfer?, error: Error)
      requires parts.live == {}
      modifies parts
      ensures error.Null? <==> transfer != null
      ensures error.Null? <==> size <= SIZE_LIMIT && !Fails(o) && !Fails(After(o)) && refusal.None?
      ensures size <= SIZE_LIMIT && (Fails(o) || Fails(After(o))) ==> HasCode(error, MEMORY)
      ensures size <= SIZE_LIMIT && !Fails(o) && !Fails(After(o)) && refusal.Some? ==>
        IsFailure(error, refusal.value, "Failed to create event for asynchronous in transfer.")
      ensures if transfer == null then parts.live == {}
        else fresh(transfer) && transfer.parts == parts && transfer.Valid() && transfer.bufferSize == size
             && transfer.automaton == START
    {
      transfer, error := null, Null;
      if size > SIZE_LIMIT {
        CreatesNonNull(Null, Text(Some("Transfer size is too large.")), o);
        return null, AddText(Null, Some("Transfer size is too large."), o).0;
      }
      var hasStruct, hasBuffer, hasEvent := false, false, false;
      hasStruct := parts.Take(Struct, !Fails(o));
      error := if hasStruct then Null else NoMemory;
      if error.Null? {
        hasBuffer := parts.Take(Buffer, !Fails(After(o)));
        error := if hasBuffer then Null else NoMemory;
      }
      if error.Null? {
        hasEvent := parts.Take(Event, refusal.None?);
        if !hasEvent {
          var f := refusal.value;
          PlatformErrorIsFailure(f, "Failed to create event for asynchronous in transfer.");
          error := PlatformError(f.number, f.middle, "Failed to create event for asynchronous in transfer.", f.oracle);
        }
      }
      if error.Null? {
        transfer := new WinTransfer(parts, size);
        return;
      }
      if hasEvent {
        assert false;
      }
      if hasBuffer {
        parts.Release(Buffer);
      }
      if hasStruct {
        parts.Release(Struct);
      }
    }

    /** async_in_transfer_submit: the transfer may be done at once. */
    method Submit(outcome: WinOutcome)
      requires Valid() && !pending
      modifies this, parts
      ensures Valid() && bufferSize == old(bufferSize)
      ensures var e := match outcome
          case Done(count) => Instant(Result(count, Null))
          case NotYet(_) => Accept
          case Failed(count, _) => Refuse(Result(count, error));
        Allowed(old(automaton), e) && automaton == Step(old(automaton), e)
      ensures pending == outcome.NotYet? && transferred == outcome.count && (error.Null? <==> !outcome.Failed?)
      ensures outcome.Failed? ==> IsFailure(error, outcome.failure, "Failed to submit asynchronous in transfer.")
    {
      FreeError(parts, error);
      error, pending, transferred := Null, true, 0;
      transferred := outcome.count;
      match outcome
      case Done(count) =>
        pending := false;
        StepReached(automaton, Instant(Result(count, Null)));
        automaton := Step(automaton, Instant(Result(count, Null)));
      case NotYet(_) =>
        StepReached(automaton, Accept);
        automaton := Step(automaton, Accept);
      case Failed(count, f) =>
        PlatformErrorIsFailure(f, "Failed to submit asynchronous in transfer.");
        error := PlatformError(f.number, f.middle, "Failed to submit asynchronous in transfer.", f.oracle);
        KeepError(parts, error);
        pending := false;
        StepReached(automaton, Refuse(Result(count, error)));
        automaton := Step(automaton, Refuse(Result(count, error)));
    }

    /** async_in_transfer_pending: polls only while the transfer is pending, so an outcome
        that was seen once is never looked for again. */
    method Pending(poll: WinOutcome) returns (isPending: bool)
      requires Valid()
      modifies this, parts
      ensures Valid() && bufferSize == old(bufferSize) && isPending == pending
      ensures var e := if !old(pending) || poll.NotYet? then Look else Complete(Result(poll.count, error));
        Allowed(old(automaton), e) && automaton == Step(old(automaton), e)
      ensures !old(pending) ==> unchanged(this)
      ensures old(pending) ==>
        pending == poll.NotYet? && transferred == poll.count && (error.Null? <==> !poll.Failed?)
      ensures old(pending) && poll.Failed? ==> IsTransferFailure(error, poll.failure)
    {
      if !pending {
        return false;
      }
      EndsOnce();
      transferred := poll.count;
      match poll {
        case Done(count) =>
          pending := false;
          StepReached(automaton, Complete(Result(count, Null)));
          automaton := Step(automaton, Complete(Result(count, Null)));
        case NotYet(_) =>
        case Failed(count, f) =>
          TransferErrorIsFailure(f);
          error := TransferError(f);
          KeepError(parts, error);
          pending := false;
          StepReached(automaton, Complete(Result(count, error)));
          automaton := Step(automaton, Complete(Result(count, error)));
      }
      isPending := pending;
    }

    /** async_in_transfer_free.  The transfer must not be used afterwards. */
    method Free()
      requires Valid()
      modifies parts
      ensures parts.live == if pending then old(parts.live) else {}
    {
      if !pending {
        FreeError(parts, error);
        parts.Release(Event);
        parts.Release(Buffer);
        parts.Release(Struct);
      }
    }

    /** async_in_transfer_get_results, without the copying of the buffer. */
    method GetResults(o: Oracle) returns (count: nat, transferError: Error)
      requires Valid() && !pending
      ensures count == if automaton.result.transferred <= bufferSize then automaton.result.transferred else bufferSize
      ensures transferError == Copy(automaton.result.error, o).0
    {
      count := transferred;
      if count > bufferSize {
        count := bufferSize;
      }
      transferError := Copy(error, o).0;
    }

    /** On every run of calls each submission ends at most once. */
    lemma EndsOnce()
      requires Valid()
      ensures automaton.submits == automaton.ends + (if pending then 1 else 0)
      ensures pending ==> error.Null?
    {
      EachSubmitEndsOnce(automaton);
    }

    /** Between any two moments, if there is no submission, a transfer that is not pending
        keeps its result. */
    twostate lemma ResultStays(events: seq<Event>)
      requires old(Valid()) && Valid() && !old(pending)
      requires CanRun(old(automaton), events) && automaton == RunEvents(old(automaton), events)
      requires automaton.submits == old(automaton.submits)
      ensures !pending && transferred == old(transferred) && error == old(error)
    {
      SubmitsAreCounted(old(automaton), events);
      ResultIsFixed(old(automaton), events);
    }
  }
}
