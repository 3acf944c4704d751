/** What a `libusbp_error *` means (src/error.c), as a value, and what each operation
    on it yields for every pattern of allocation failures.

    ErrorObjects.dfy has the same operations on memory; its methods are proved to
    compute these functions. */
module ErrorModel {
  import opened Base

  const MEMORY: nat := 1
  const ACCESS_DENIED: nat := 3
  const TIMEOUT: nat := 5
  const DEVICE_DISCONNECTED: nat := 6
  const STALL: nat := 7
  const CANCELLED: nat := 8

  /** SIZE_MAX / sizeof(uint32_t) for a 64-bit size_t. */
  const MAX_CODES: nat := 0x3FFF_FFFF_FFFF_FFFF

  /** A null pointer, one of the three static errors, or an error on the heap. */
  datatype Error =
    | Null
    | NoMemory
    | Masked
    | Blank
    | Heap(message: string, codes: seq<nat>)


  /** The messages of the static errors. */
  function StaticMessage(e: Error): string {
    if e.NoMemory? then "Failed to allocate memory."
    else if e.Masked? then "Failed to allocate memory for reporting an error."
    else ""
  }

  function Message(e: Error): string {
    if e.Heap? then e.message else StaticMessage(e)
  }

  function Codes(e: Error): seq<nat> {
    match e
    case Null => []
    case NoMemory => [MEMORY]
    case Masked => [MEMORY]
    case Blank => []
    case Heap(_, codes) => codes
  }

  predicate HasCode(e: Error, code: nat) {
    code in Codes(e)
  }

  // ---- The operations ----

  /** Three allocations are always attempted: the struct, the message and the code
      array; the last may fail when there are no codes to store. */
  function Copy(e: Error, o: Oracle): (Error, Oracle) {
    if e.Null? then (Null, o)
    else
      var o1 := After(o);
      var o2 := After(o1);
      var failed := Fails(o) || Fails(o1) || (Codes(e) != [] && Fails(o2));
      (if failed then Masked else Heap(Message(e), Codes(e)), After(o2))
  }

  function MakeMutable(e: Error, o: Oracle): (Error, Oracle) {
    if e.Heap? then (e, o) else Copy(if e.Null? then Blank else e, o)
  }

  /** The outer message goes in front; two spaces separate non-empty parts. */
  function Join(outer: string, inner: string): string {
    outer + (if outer != "" && inner != "" then "  " else "") + inner
  }

  /** error_add_v.  `None` is a NULL format. */
  function AddText(e: Error, text: Option<string>, o: Oracle): (Error, Oracle) {
    if text.None? then (e, o)
    else
      var (m, o1) := MakeMutable(e, o);
      if !m.Heap? then (m, o1)
      else if Fails(o1) then (Masked, After(o1))
      else (Heap(Join(text.value, m.message), m.codes), After(o1))
  }

  /** error_add_code. */
  function AddCode(e: Error, code: nat, o: Oracle): (Error, Oracle) {
    var (m, o1) := MakeMutable(e, o);
    if !m.Heap? then (m, o1)
    else if |m.codes| >= MAX_CODES then (m, o1)
    else if Fails(o1) then (Masked, After(o1))
    else (Heap(m.message, m.codes + [code]), After(o1))
  }

  /** One call on an error.  error_create is `Text` on Null. */
  datatype Op = Text(text: Option<string>) | Code(code: nat) | Duplicate

  function Apply(e: Error, op: Op, o: Oracle): (Error, Oracle) {
    match op
    case Text(text) => AddText(e, text, o)
    case Code(code) => AddCode(e, code, o)
    case Duplicate => Copy(e, o)
  }

  function Run(e: Error, ops: seq<Op>, o: Oracle): (Error, Oracle)
    decreases |ops|
  {
    if ops == [] then (e, o)
    else
      var (e1, o1) := Apply(e, ops[0], o);
      Run(e1, ops[1..], o1)
  }

  lemma {:induction false} RunAppend(e: Error, a: seq<Op>, b: seq<Op>, o: Oracle)
    ensures Run(e, a + b, o) == Run(Run(e, a, o).0, b, Run(e, a, o).1)
    decreases |a|
  {
    if a == [] {
      assert a + b == b;
    } else {
      var (e1, o1) := Apply(e, a[0], o);
      RunAppend(e1, a[1..], b, o1);
      assert (a + b)[1..] == a[1..] + b;
    }
  }

  // ---- What a caller is promised ----

  /** Whether an operation makes an error out of a null pointer. */
  predicate Creates(op: Op) {
    match op
    case Text(text) => text.Some?
    case Code(_) => true
    case Duplicate => false
  }

  /** The texts given to a sequence of operations, newest first, on top of `inner`. */
  function Texts(ops: seq<Op>, inner: seq<string>): seq<string> {
    if ops == [] then inner
    else match ops[0]
      case Text(Some(text)) => Texts(ops[1..], [text] + inner)
      case _ => Texts(ops[1..], inner)
  }

  /** The codes given to a sequence of operations, oldest first. */
  function CodesOf(ops: seq<Op>): seq<nat> {
    if ops == [] then []
    else (match ops[0] case Code(code) => [code] case _ => []) + CodesOf(ops[1..])
  }

  function NonEmpty(parts: seq<string>): seq<string> {
    if parts == [] then []
    else (if parts[0] == "" then [] else [parts[0]]) + NonEmpty(parts[1..])
  }

  /** The parts with two spaces between neighbours. */
  function Spaced(parts: seq<string>): string {
    if parts == [] then ""
    else if |parts| == 1 then parts[0]
    else parts[0] + "  " + Spaced(parts[1..])
  }

  /** The complete history: the error a caller gets when no allocation fails. */
  predicate IsHistory(e: Error, start: Error, ops: seq<Op>) {
    && Message(e) == Spaced(NonEmpty(Texts(ops, [Message(start)])))
    && Codes(e) == Codes(start) + CodesOf(ops)
  }

  lemma JoinIdentity(s: string)
    ensures Join("", s) == s == Join(s, "")
  {}

  lemma JoinAssociative(a: string, b: string, c: string)
    ensures Join(Join(a, b), c) == Join(a, Join(b, c))
  {
    if a == "" || b == "" || c == "" {
      JoinIdentity(Join(a, b));
      JoinIdentity(Join(b, c));
      JoinIdentity(a);
      JoinIdentity(b);
      JoinIdentity(c);
    } else {
      assert Join(Join(a, b), c) == a + "  " + b + "  " + c;
      assert Join(a, Join(b, c)) == a + ("  " + b + "  " + c);
    }
  }

  lemma {:induction false} SpacedNonEmpty(parts: seq<string>)
    ensures Spaced(NonEmpty(parts)) == "" <==> NonEmpty(parts) == []
  {
    if parts != [] {
      SpacedNonEmpty(parts[1..]);
      var rest := NonEmpty(parts[1..]);
      if parts[0] != "" {
        assert NonEmpty(parts)[1..] == rest;
      } else {
        assert NonEmpty(parts) == rest;
      }
    }
  }

  /** Adding a message is adding a part at the front. */
  lemma JoinIsSpaced(text: string, parts: seq<string>)
    ensures Join(text, Spaced(NonEmpty(parts))) == Spaced(NonEmpty([text] + parts))
  {
    SpacedNonEmpty(parts);
    assert ([text] + parts)[1..] == parts;
    if text == "" {
      assert NonEmpty([text] + parts) == NonEmpty(parts);
    } else {
      assert NonEmpty([text] + parts)[1..] == NonEmpty(parts);
    }
  }

  /** A single text is its own history, so any error starts as a history of itself. */
  lemma SpacedOne(s: string)
    ensures Spaced(NonEmpty([s])) == s
  {
    assert NonEmpty([s]) == if s == "" then [] else [s];
  }

  lemma {:induction false} TextsAppend(a: seq<Op>, b: seq<Op>, inner: seq<string>)
    ensures Texts(a + b, inner) == Texts(b, Texts(a, inner))
    decreases |a|
  {
    if a == [] {
      assert a + b == b;
    } else {
      assert (a + b)[1..] == a[1..] + b;
      match a[0]
      case Text(Some(text)) => TextsAppend(a[1..], b, [text] + inner);
      case _ => TextsAppend(a[1..], b, inner);
    }
  }

  lemma {:induction false} CodesOfAppend(a: seq<Op>, b: seq<Op>)
    ensures CodesOf(a + b) == CodesOf(a) + CodesOf(b)
  {
    if a == [] {
      assert a + b == b;
    } else {
      assert (a + b)[1..] == a[1..] + b;
      CodesOfAppend(a[1..], b);
    }
  }

  lemma CodesOfOne(op: Op)
    ensures CodesOf([op]) == match op case Code(code) => [code] case _ => []
  {
    assert [op][1..] == [];
  }

  function WithText(op: Op, message: string): string {
    match op
    case Text(Some(text)) => Join(text, message)
    case _ => message
  }

  /** What one operation adds when nothing is lost. */
  predicate Adds(e: Error, op: Op, r: Error) {
    && Message(r) == WithText(op, Message(e))
    && Codes(r) == Codes(e) + CodesOf([op])
  }

  lemma AfterKeeps(o: Oracle)
    ensures true !in o ==> true !in After(o) && !Fails(o)
  {}

  lemma CopyKeepsOrMasks(e: Error, o: Oracle)
    requires !e.Null?
    ensures var (r, o') := Copy(e, o);
      && ((r == Masked && true in o) || r == Heap(Message(e), Codes(e)))
      && (true !in o ==> true !in o')
  {
    AfterKeeps(o);
    AfterKeeps(After(o));
    AfterKeeps(After(After(o)));
  }

  lemma MutableKeepsOrMasks(e: Error, o: Oracle)
    ensures var (r, o') := MakeMutable(e, o);
      && ((r == Masked && true in o) || r == Heap(Message(e), Codes(e)))
      && (true !in o ==> true !in o')
  {
    if !e.Heap? {
      CopyKeepsOrMasks(if e.Null? then Blank else e, o);
    }
  }

  lemma TextAddsOrMasks(e: Error, text: string, o: Oracle)
    ensures var (r, o') := AddText(e, Some(text), o);
      && (r == Heap(Join(text, Message(e)), Codes(e)) || (r == Masked && true in o))
      && (true !in o ==> true !in o')
  {
    MutableKeepsOrMasks(e, o);
    AfterKeeps(MakeMutable(e, o).1);
  }

  lemma CodeAddsOrMasks(e: Error, code: nat, o: Oracle)
    requires |Codes(e)| < MAX_CODES
    ensures var (r, o') := AddCode(e, code, o);
      && (r == Heap(Message(e), Codes(e) + [code]) || (r == Masked && true in o))
      && (true !in o ==> true !in o')
  {
    MutableKeepsOrMasks(e, o);
    AfterKeeps(MakeMutable(e, o).1);
  }

  lemma TextAdds(e: Error, text: string)
    ensures Adds(e, Text(Some(text)), Heap(Join(text, Message(e)), Codes(e)))
  {
    CodesOfOne(Text(Some(text)));
  }

  lemma CodeAdds(e: Error, code: nat)
    ensures Adds(e, Code(code), Heap(Message(e), Codes(e) + [code]))
  {
    CodesOfOne(Code(code));
  }

  lemma NothingAdds(e: Error, op: Op, r: Error)
    requires op.Duplicate? || op == Text(None)
    requires Message(r) == Message(e) && Codes(r) == Codes(e)
    ensures Adds(e, op, r)
  {
    CodesOfOne(op);
    assert Codes(e) + [] == Codes(e);
  }

  lemma ApplyAddsOrMasks(e: Error, op: Op, o: Oracle)
    requires op.Code? ==> |Codes(e)| < MAX_CODES
    ensures var (r, o') := Apply(e, op, o);
      && (Adds(e, op, r) || (r == Masked && true in o))
      && (true !in o ==> true !in o')
  {
    match op
    case Duplicate =>
      if e.Null? {
        NothingAdds(e, op, e);
      } else {
        CopyKeepsOrMasks(e, o);
        NothingAdds(e, op, Heap(Message(e), Codes(e)));
      }
    case Code(code) =>
      CodeAddsOrMasks(e, code, o);
      CodeAdds(e, code);
    case Text(None) =>
      NothingAdds(e, op, e);
    case Text(Some(text)) =>
      TextAddsOrMasks(e, text, o);
      TextAdds(e, text);
  }

  lemma AddsKeepsHistory(e: Error, start: Error, ops: seq<Op>, op: Op, r: Error)
    requires IsHistory(e, start, ops)
    requires Adds(e, op, r)
    ensures IsHistory(r, start, ops + [op])
  {
    MessageGrows(ops, [Message(start)], op);
    CodesOfAppend(ops, [op]);
  }

  lemma MessageGrows(ops: seq<Op>, inner: seq<string>, op: Op)
    ensures Spaced(NonEmpty(Texts(ops + [op], inner))) ==
      WithText(op, Spaced(NonEmpty(Texts(ops, inner))))
  {
    TextsAppend(ops, [op], inner);
    assert [op][1..] == [];
    match op
    case Text(Some(text)) => JoinIsSpaced(text, Texts(ops, inner));
    case _ =>
  }

  /** Allocation failed at some operation; everything after it is there. */
  predicate MaskedSince(e: Error, ops: seq<Op>) {
    exists i | 0 < i <= |ops| :: IsHistory(e, Masked, ops[i..])
  }

  /** The documented promise of errors (include/libusbp.h): whatever allocations fail,
      the result is the complete history of all operations, or it is the complete
      history of the operations since one failed, on top of the static error that
      says so and carries the MEMORY code. */
  lemma {:induction false} HistoryOrMemory(start: Error, ops: seq<Op>, o: Oracle)
    requires |Codes(start)| + |CodesOf(ops)| < MAX_CODES
    ensures var r := Run(start, ops, o).0;
      IsHistory(r, start, ops) || (true in o && MaskedSince(r, ops))
    ensures true !in o ==> true !in Run(start, ops, o).1
    decreases |ops|
  {
    if ops == [] {
      SpacedOne(Message(start));
    } else {
      var n := |ops| - 1;
      var front, last := ops[..n], ops[n];
      assert ops == front + [last];
      CodesOfAppend(front, [last]);
      HistoryOrMemory(start, front, o);
      RunOneMore(start, front, last, o);
      var (e, o1) := Run(start, front, o);
      if IsHistory(e, start, front) {
        HistoryStep(e, start, front, last, o1);
        if !IsHistory(Apply(e, last, o1).0, start, ops) {
          MaskedJustNow(ops);
        }
      } else {
        MaskedStep(e, front, last, o1);
      }
    }
  }

  lemma MaskedJustNow(ops: seq<Op>)
    requires ops != []
    ensures MaskedSince(Masked, ops)
  {
    SpacedOne(StaticMessage(Masked));
    assert ops[|ops|..] == [];
    assert IsHistory(Masked, Masked, ops[|ops|..]);
  }

  lemma MaskedStep(e: Error, front: seq<Op>, last: Op, o: Oracle)
    requires MaskedSince(e, front)
    requires |CodesOf(front + [last])| < MAX_CODES
    ensures MaskedSince(Apply(e, last, o).0, front + [last])
  {
    var i :| 0 < i <= |front| && IsHistory(e, Masked, front[i..]);
    SuffixFits(front, last, i);
    HistoryStep(e, Masked, front[i..], last, o);
    assert front[i..] + [last] == (front + [last])[i..];
    var r := Apply(e, last, o).0;
    if r == Masked {
      MaskedJustNow(front + [last]);
    } else {
      assert IsHistory(r, Masked, (front + [last])[i..]);
    }
  }

  lemma SuffixFits(front: seq<Op>, last: Op, i: nat)
    requires i <= |front|
    requires |CodesOf(front + [last])| < MAX_CODES
    ensures last.Code? ==> 1 + |CodesOf(front[i..])| < MAX_CODES
  {
    assert front == front[..i] + front[i..];
    CodesOfAppend(front[..i], front[i..]);
    CodesOfAppend(front, [last]);
    CodesOfOne(last);
  }

  lemma RunOneMore(start: Error, front: seq<Op>, last: Op, o: Oracle)
    ensures var (e, o1) := Run(start, front, o);
      Run(start, front + [last], o) == Apply(e, last, o1)
  {
    RunAppend(start, front, [last], o);
    assert [last][1..] == [];
  }

  lemma HistoryStep(e: Error, start: Error, ops: seq<Op>, op: Op, o: Oracle)
    requires IsHistory(e, start, ops)
    requires op.Code? ==> |Codes(start)| + |CodesOf(ops)| < MAX_CODES
    ensures var r := Apply(e, op, o).0;
      IsHistory(r, start, ops + [op]) || (r == Masked && true in o)
    ensures true !in o ==> true !in Apply(e, op, o).1
  {
    CodesOfAppend(ops, [op]);
    ApplyAddsOrMasks(e, op, o);
    var r := Apply(e, op, o).0;
    if Adds(e, op, r) {
      AddsKeepsHistory(e, start, ops, op, r);
    }
  }

  /** The same promise in the words of the header: nothing is lost, or MEMORY is there. */
  lemma CompleteOrMemory(start: Error, ops: seq<Op>, o: Oracle)
    requires |Codes(start)| + |CodesOf(ops)| < MAX_CODES
    ensures var r := Run(start, ops, o).0; IsHistory(r, start, ops) || HasCode(r, MEMORY)
  {
    HistoryOrMemory(start, ops, o);
    var r := Run(start, ops, o).0;
    if !IsHistory(r, start, ops) {
      var i :| 0 < i <= |ops| && IsHistory(r, Masked, ops[i..]);
      assert Codes(r)[0] == MEMORY;
    }
  }

  lemma {:induction false} MemorySticks(e: Error, ops: seq<Op>, o: Oracle)
    requires HasCode(e, MEMORY)
    ensures HasCode(Run(e, ops, o).0, MEMORY)
    decreases |ops|
  {
    if ops != [] {
      var (e1, o1) := Apply(e, ops[0], o);
      MemorySticks(e1, ops[1..], o1);
    }
  }

  lemma CreatesNonNull(e: Error, op: Op, o: Oracle)
    ensures Apply(e, op, o).0.Null? <==> e.Null? && !Creates(op)
  {}

  /** A null pointer comes out exactly when one went in and nothing created an error. */
  lemma {:induction false} NullExactly(e: Error, ops: seq<Op>, o: Oracle)
    ensures Run(e, ops, o).0.Null? <==> e.Null? && forall op | op in ops :: !Creates(op)
    decreases |ops|
  {
    if ops != [] {
      var (e1, o1) := Apply(e, ops[0], o);
      NullExactly(e1, ops[1..], o1);
      CreatesNonNull(e, ops[0], o);
      assert ops == [ops[0]] + ops[1..];
    }
  }

  // ---- Where the promise ends ----

  /** There is room for every code given. */
  predicate CodesFit(start: Error, ops: seq<Op>) {
    CodesOf(ops) == [] || |Codes(start)| + |CodesOf(ops)| <= MAX_CODES
  }

  /** At the limit a code is dropped without a trace, so the promise has a boundary: with
      no allocation failing, the history is complete exactly when all codes fit. */
  lemma CompleteExactly(start: Error, ops: seq<Op>, o: Oracle)
    requires true !in o
    ensures IsHistory(Run(start, ops, o).0, start, ops) <==> CodesFit(start, ops)
  {
    CodesAreBounded(start, ops, o);
    if CodesFit(start, ops) {
      CompleteWhenCodesFit(start, ops, o);
    }
  }

  lemma {:induction false} CompleteWhenCodesFit(start: Error, ops: seq<Op>, o: Oracle)
    requires true !in o && CodesFit(start, ops)
    ensures IsHistory(Run(start, ops, o).0, start, ops)
    ensures true !in Run(start, ops, o).1
    decreases |ops|
  {
    if ops == [] {
      SpacedOne(Message(start));
    } else {
      var n := |ops| - 1;
      var front, last := ops[..n], ops[n];
      assert ops == front + [last];
      CodesOfAppend(front, [last]);
      CodesOfOne(last);
      CompleteWhenCodesFit(start, front, o);
      RunOneMore(start, front, last, o);
      var (e, o1) := Run(start, front, o);
      HistoryStep(e, start, front, last, o1);
    }
  }

  lemma {:induction false} CodesAreBounded(e: Error, ops: seq<Op>, o: Oracle)
    ensures |Codes(Run(e, ops, o).0)| <= MAX_CODES || |Codes(Run(e, ops, o).0)| <= |Codes(e)|
    decreases |ops|
  {
    if ops != [] {
      var (e1, o1) := Apply(e, ops[0], o);
      CodesAreBounded(e1, ops[1..], o1);
    }
  }

  /** A program that runs into the limit: the code is gone and no error says so. */
  lemma CodeDroppedAtLimit(codes: seq<nat>, code: nat, o: Oracle)
    requires |codes| == MAX_CODES
    ensures Run(Heap("", codes), [Code(code)], o).0 == Heap("", codes)
    ensures !IsHistory(Heap("", codes), Heap("", codes), [Code(code)])
  {
    assert [Code(code)][1..] == [];
    assert CodesOf([Code(code)]) == [code] + CodesOf([]);
  }
}
