/** The errors the Linux port builds from errno values and URB statuses
    (src/linux/error_linux.c), as sequences of operations on an error. */
module LinuxErrors {
  import opened Base
  import opened ErrorModel

  // Linux errno numbers.
  const ENOENT := 2
  const ENOMEM := 12
  const EACCES := 13
  const ENODEV := 19
  const EINVAL := 22
  const EPIPE := 32
  const ETIME := 62
  const EPROTO := 71
  const EOVERFLOW := 75
  const EILSEQ := 84
  const ESHUTDOWN := 108
  const ETIMEDOUT := 110

  /** The sentences of the library. */
  datatype Sentence =
    | GeneralFailure
    | Removed
    | TimedOut
    | Overflowed
    | IllegalSequence
    | Cancelled
    | SubmitFailed
    | ReapFailed
    | DiscardFailed
    | TransferFailed

  function Words(sentence: Sentence): string {
    match sentence
    case GeneralFailure => "The request was invalid or " + "there was an I/O problem."
    case Removed => "The device was removed."
    case TimedOut => "The operation timed out."
    case Overflowed => "The transfer overflowed."
    case IllegalSequence =>
      "Illegal byte sequence: " + "the device may have been disconnected or " + "the request may have been cancelled."
    case Cancelled => "The operation was cancelled."
    case SubmitFailed => "Submitting USB request block failed."
    case ReapFailed => "Failed to reap an asynchronous transfer."
    case DiscardFailed => "Failed to cancel asynchronous transfer."
    case TransferFailed => "Asynchronous IN transfer failed."
  }

  /** The output of printf for %d. */
  function Decimal(n: int): string
    decreases if n < 0 then 1 - n else n
  {
    if n < 0 then "-" + Decimal(-n)
    else (if n < 10 then "" else Decimal(n / 10)) + ['0' + (n % 10) as char]
  }

  function ErrorCodeText(errno: int): string {
    "Error code " + Decimal(errno) + "."
  }

  function Add(text: string): Op {
    Text(Some(text))
  }

  /** What the switch in error_create_errno does for an errno. */
  function SwitchOps(errno: int): seq<Op> {
    if errno == EACCES then [Code(ACCESS_DENIED)]
    else if errno == ENOMEM then [Code(MEMORY)]
    else if errno == EPIPE then [Add(Words(GeneralFailure)), Code(STALL), Code(DEVICE_DISCONNECTED)]
    else if errno == ENODEV || errno == ESHUTDOWN then [Add(Words(Removed)), Code(DEVICE_DISCONNECTED)]
    else if errno == EPROTO || errno == ETIME then [Code(DEVICE_DISCONNECTED)]
    else if errno == ETIMEDOUT then [Add(Words(TimedOut)), Code(TIMEOUT)]
    else if errno == EOVERFLOW then [Add(Words(Overflowed))]
    else if errno == EILSEQ then [Add(Words(IllegalSequence)), Code(DEVICE_DISCONNECTED), Code(CANCELLED)]
    else []
  }

  /** The sentence the library has for an errno, which replaces the system's. */
  function SwitchText(errno: int): Option<string> {
    if errno == EPIPE then Some(Words(GeneralFailure))
    else if errno == ENODEV || errno == ESHUTDOWN then Some(Words(Removed))
    else if errno == ETIMEDOUT then Some(Words(TimedOut))
    else if errno == EOVERFLOW then Some(Words(Overflowed))
    else if errno == EILSEQ then Some(Words(IllegalSequence))
    else None
  }

  predicate SkipsStandardMessage(errno: int) {
    SwitchText(errno).Some?
  }

  function CodeOps(codes: seq<nat>): seq<Op> {
    seq(|codes|, i requires 0 <= i < |codes| => Code(codes[i]))
  }

  /** `standard` is what strerror_r says, if it says anything. */
  function StandardOps(errno: int, standard: Option<string>): seq<Op> {
    if SkipsStandardMessage(errno) || standard.None? then [] else [Add(standard.value + ".")]
  }

  function ErrnoOps(errno: int, standard: Option<string>, context: string): seq<Op> {
    [Add(ErrorCodeText(errno))] + SwitchOps(errno) + StandardOps(errno, standard) + [Add(context)]
  }

  function StatusOps(status: int, standard: Option<string>): seq<Op> {
    if status == 0 then []
    else if -status == ENOENT then [Add(ErrorCodeText(ENOENT)), Add(Words(Cancelled)), Code(CANCELLED)]
    else ErrnoOps(-status, standard, "")
  }

  function ErrorCountText(errorCount: int): string {
    "Non-zero error count for USB request: " + Decimal(errorCount) + "."
  }

  /** What async_in_transfer_handle_completion does about a reaped URB. */
  function CompletionOps(status: int, errorCount: int, standard: Option<string>): seq<Op> {
    if status == 0 && errorCount == 0 then []
    else
      StatusOps(status, standard)
      + (if status == 0 then [Add(ErrorCountText(errorCount))] else [])
      + [Add(Words(TransferFailed))]
  }

  function CompletionError(status: int, errorCount: int, standard: Option<string>, o: Oracle): Error {
    Run(Null, CompletionOps(status, errorCount, standard), o).0
  }

  function ErrnoError(errno: int, standard: Option<string>, context: string, o: Oracle): Error {
    Run(Null, ErrnoOps(errno, standard, context), o).0
  }

  function SubmitError(errno: int, standard: Option<string>, o: Oracle): Error {
    ErrnoError(errno, standard, Words(SubmitFailed), o)
  }

  // ---- The documented conversion table ----

  /** The codes that an errno is documented to be converted to. */
  function DocumentedCodes(errno: int): seq<nat> {
    if errno == EACCES then [ACCESS_DENIED]
    else if errno == ENOMEM then [MEMORY]
    else if errno == EPIPE then [STALL, DEVICE_DISCONNECTED]
    else if errno in {ENODEV, ESHUTDOWN, EPROTO, ETIME} then [DEVICE_DISCONNECTED]
    else if errno == ETIMEDOUT then [TIMEOUT]
    else if errno == EILSEQ then [DEVICE_DISCONNECTED, CANCELLED]
    else []
  }

  /** The sentence between the context and the number that an errno is documented to give:
      the library's own where it has one, otherwise the system's, if there is one. */
  function DocumentedSentence(errno: int, standard: Option<string>): seq<string> {
    if errno == EPIPE then ["The request was invalid or " + "there was an I/O problem."]
    else if errno in {ENODEV, ESHUTDOWN} then ["The device was removed."]
    else if errno == ETIMEDOUT then ["The operation timed out."]
    else if errno == EOVERFLOW then ["The transfer overflowed."]
    else if errno == EILSEQ then
      ["Illegal byte sequence: " + "the device may have been disconnected or " + "the request may have been cancelled."]
    else if standard.Some? then [standard.value + "."]
    else []
  }

  function DocumentedNumber(errno: int): string {
    "Error code " + Decimal(errno) + "."
  }

  /** Parts of a message, the outermost first, and codes. */
  predicate IsMadeOf(e: Error, parts: seq<string>, codes: seq<nat>) {
    Message(e) == Spaced(NonEmpty(parts)) && Codes(e) == codes
  }

  /** The documented error: context, sentence and number, newest first, and the codes. */
  predicate IsDocumented(e: Error, errno: int, standard: Option<string>, context: string) {
    IsMadeOf(e, [context] + DocumentedSentence(errno, standard) + [DocumentedNumber(errno)], DocumentedCodes(errno))
  }

  /** An error has these codes, or says that memory ran out while reporting it. */
  predicate Reports(e: Error, codes: seq<nat>) {
    !e.Null? && (Codes(e) == codes || HasCode(e, MEMORY))
  }

  /** The sentence that the switch and the system give. */
  function SentenceOf(errno: int, standard: Option<string>): seq<string> {
    if SwitchText(errno).Some? then [SwitchText(errno).value]
    else if standard.Some? then [standard.value + "."]
    else []
  }

  lemma SentenceIsDocumented(errno: int, standard: Option<string>)
    ensures SentenceOf(errno, standard) == DocumentedSentence(errno, standard)
  {}

  /** What the callers of error_create_errno promise: the documented error in a context. */
  predicate IsReportOf(e: Error, errno: int, standard: Option<string>, context: string, o: Oracle) {
    && Reports(e, DocumentedCodes(errno))
    && (HasCode(e, MEMORY) || IsDocumented(e, errno, standard, context))
    && (true !in o ==> IsDocumented(e, errno, standard, context))
  }

  /** The conversion follows the table whatever allocations fail, or says MEMORY; if none
      fails it follows the table. */
  lemma ErrnoDocumented(errno: int, standard: Option<string>, context: string, o: Oracle)
    ensures IsReportOf(ErrnoError(errno, standard, context, o), errno, standard, context, o)
  {
    var ops := ErrnoOps(errno, standard, context);
    ErrnoCreates(errno, standard, context, o);
    ErrnoTexts(errno, standard, context);
    ErrnoCodes(errno, standard, context);
    SentenceIsDocumented(errno, standard);
    CompleteOrMemory(Null, ops, o);
    if true !in o {
      CompleteWhenCodesFit(Null, ops, o);
    }
  }

  predicate IsSubmitFailure(e: Error, errno: int, standard: Option<string>, o: Oracle) {
    IsReportOf(e, errno, standard, "Submitting USB request block failed.", o)
  }

  predicate IsReapFailure(e: Error, errno: int, standard: Option<string>, o: Oracle) {
    IsReportOf(e, errno, standard, "Failed to reap an asynchronous transfer.", o)
  }

  predicate IsDiscardFailure(e: Error, errno: int, o: Oracle) {
    IsReportOf(e, errno, None, "Failed to cancel asynchronous transfer.", o)
  }

  /** A refused submission is reported as documented, with its context. */
  lemma SubmitErrorDocumented(errno: int, standard: Option<string>, o: Oracle)
    ensures IsSubmitFailure(SubmitError(errno, standard, o), errno, standard, o)
  {
    ErrnoDocumented(errno, standard, Words(SubmitFailed), o);
    IsSubmitContext(SubmitError(errno, standard, o), errno, standard, Words(SubmitFailed), o);
  }

  /** For example, what a user reads when the device was unplugged: the parts in this order,
      two spaces apart. */
  lemma UnpluggedMessage(standard: Option<string>, o: Oracle)
    requires true !in o
    ensures var e := SubmitError(ENODEV, standard, o);
      && Message(e)
           == "Submitting USB request block failed." + "  " + "The device was removed." + "  " + "Error code 19."
      && Codes(e) == [DEVICE_DISCONNECTED]
  {
    SubmitErrorDocumented(ENODEV, standard, o);
    SpacedThree("Submitting USB request block failed.", "The device was removed.", DocumentedNumber(ENODEV));
    assert Decimal(1) == "1" && Decimal(19) == "19";
  }

  lemma SpacedThree(a: string, b: string, c: string)
    requires a != "" && b != "" && c != ""
    ensures Spaced(NonEmpty([a] + [b] + [c])) == a + "  " + b + "  " + c
  {
    var parts := [a] + [b] + [c];
    assert parts[1..] == [b, c] && parts[1..][1..] == [c] && [c][1..] == [];
    assert NonEmpty([c]) == [c] && NonEmpty([b, c]) == [b, c] && NonEmpty(parts) == [a] + [b, c];
    assert ([a] + [b, c])[1..] == [b, c];
    assert Spaced([b, c]) == b + "  " + c;
    assert Spaced([a] + [b, c]) == a + "  " + (b + "  " + c);
    assert a + "  " + (b + "  " + c) == a + "  " + b + "  " + c;
  }

  lemma IsSubmitContext(e: Error, errno: int, standard: Option<string>, context: string, o: Oracle)
    requires context == Words(SubmitFailed) && IsReportOf(e, errno, standard, context, o)
    ensures IsSubmitFailure(e, errno, standard, o)
  {
    assert context == "Submitting USB request block failed.";
  }

  // ---- Numbers ----

  /** The number that a decimal notation stands for. */
  function Parsed(s: string): int
    decreases |s|
  {
    if s == "" then 0
    else if s[0] == '-' then -Parsed(s[1..])
    else Parsed(s[..|s| - 1]) * 10 + (s[|s| - 1] as int - '0' as int)
  }

  lemma {:induction false} DecimalIsRight(n: int)
    ensures Parsed(Decimal(n)) == n
    ensures n >= 0 ==> Decimal(n) != "" && Decimal(n)[0] != '-'
    decreases if n < 0 then 1 - n else n
  {
    if n < 0 {
      DecimalIsRight(-n);
      assert Decimal(n)[1..] == Decimal(-n);
    } else if n >= 10 {
      DecimalIsRight(n / 10);
      var s := Decimal(n);
      assert s[..|s| - 1] == Decimal(n / 10);
    } else {
      var s := Decimal(n);
      assert s[..|s| - 1] == "";
    }
  }

  lemma ErrnoCreates(errno: int, standard: Option<string>, context: string, o: Oracle)
    ensures !Run(Null, ErrnoOps(errno, standard, context), o).0.Null?
  {
    var ops := ErrnoOps(errno, standard, context);
    assert ops[0] == Add(ErrorCodeText(errno)) && ops[0] in ops;
    NullExactly(Null, ops, o);
  }

  lemma ErrnoCodes(errno: int, standard: Option<string>, context: string)
    ensures CodesOf(ErrnoOps(errno, standard, context)) == DocumentedCodes(errno)
  {
    var first, switch, system, last :=
      [Add(ErrorCodeText(errno))], SwitchOps(errno), StandardOps(errno, standard), [Add(context)];
    CodesOfAppend(first + switch + system, last);
    CodesOfAppend(first + switch, system);
    CodesOfAppend(first, switch);
    CodesOfOne(first[0]);
    CodesOfOne(last[0]);
    if system != [] {
      CodesOfOne(system[0]);
    }
    SwitchEffect(errno, []);
  }

  /** A text, if any, then at most two codes: the shape of every case of the switch. */
  lemma OpsEffect(text: Option<string>, codes: seq<nat>, inner: seq<string>)
    requires |codes| <= 2
    ensures var ops := (if text.Some? then [Add(text.value)] else []) + CodeOps(codes);
      CodesOf(ops) == codes && Texts(ops, inner) == (if text.Some? then [text.value] else []) + inner
  {
    var t := if text.Some? then [Add(text.value)] else [];
    var c := CodeOps(codes);
    CodesOfAppend(t, c);
    TextsAppend(t, c, inner);
    assert t != [] ==> t[1..] == [];
    assert c != [] ==> CodesOf(c) == [codes[0]] + CodesOf(c[1..]);
    assert |c| == 2 ==> c[1..][0] == Code(codes[1]) && c[1..][1..] == [];
    assert |c| == 1 ==> c[1..] == [];
  }

  lemma SwitchEffect(errno: int, inner: seq<string>)
    ensures CodesOf(SwitchOps(errno)) == DocumentedCodes(errno)
    ensures Texts(SwitchOps(errno), inner) ==
      if SkipsStandardMessage(errno) then SentenceOf(errno, None) + inner else inner
  {
    var text := SwitchText(errno);
    var codes := DocumentedCodes(errno);
    OpsEffect(text, codes, inner);
    var c := CodeOps(codes);
    assert SwitchOps(errno) == (if text.Some? then [Add(text.value)] else []) + c;
  }

  lemma {:induction false} NonEmptyAppend(a: seq<string>, b: seq<string>)
    ensures NonEmpty(a + b) == NonEmpty(a) + NonEmpty(b)
  {
    if a == [] {
      assert a + b == b;
    } else {
      assert (a + b)[1..] == a[1..] + b;
      NonEmptyAppend(a[1..], b);
    }
  }

  lemma ErrnoTexts(errno: int, standard: Option<string>, context: string)
    ensures NonEmpty(Texts(ErrnoOps(errno, standard, context), [""]))
      == NonEmpty([context] + SentenceOf(errno, standard) + [ErrorCodeText(errno)])
  {
    var first, switch, system, last :=
      [Add(ErrorCodeText(errno))], SwitchOps(errno), StandardOps(errno, standard), [Add(context)];
    TextsAppend(first + switch + system, last, [""]);
    TextsAppend(first + switch, system, [""]);
    TextsAppend(first, switch, [""]);
    var number := ErrorCodeText(errno);
    TextsOfOne(number, [""]);
    SwitchEffect(errno, [number] + [""]);
    var middle := Texts(switch, [number] + [""]);
    if system != [] {
      TextsOfOne(standard.value + ".", middle);
    }
    var sentence := SentenceOf(errno, standard);
    TextsOfOne(context, sentence + [number] + [""]);
    assert Texts(ErrnoOps(errno, standard, context), [""]) == ([context] + sentence + [number]) + [""];
    NonEmptyAppend([context] + sentence + [number], [""]);
  }

  lemma TextsOfOne(text: string, inner: seq<string>)
    ensures Texts([Add(text)], inner) == [text] + inner
  {
    assert [Add(text)][1..] == [];
  }

  /** A submission that was refused, or a URB that came back bad, always yields an error;
      a good URB never does. */
  lemma CompletionErrorExactly(status: int, errorCount: int, standard: Option<string>, o: Oracle)
    ensures CompletionError(status, errorCount, standard, o).Null? <==> status == 0 && errorCount == 0
  {
    var ops := CompletionOps(status, errorCount, standard);
    NullExactly(Null, ops, o);
    if !(status == 0 && errorCount == 0) {
      var last := ops[|ops| - 1];
      assert last == Add(Words(TransferFailed)) && last in ops && Creates(last);
    }
  }

  lemma SubmitErrorNonNull(errno: int, standard: Option<string>, o: Oracle)
    ensures !SubmitError(errno, standard, o).Null?
  {
    ErrnoCreates(errno, standard, Words(SubmitFailed), o);
  }

  /** The codes for a URB that came back bad, by its status. */
  function CompletionCodes(status: int): seq<nat> {
    if status == 0 then [] else if -status == ENOENT then [CANCELLED] else DocumentedCodes(-status)
  }

  /** The message for a URB that came back bad, the outermost part first. */
  function CompletionParts(status: int, errorCount: int, standard: Option<string>): seq<string> {
    ["Asynchronous IN transfer failed."] +
    if status == 0 then ["Non-zero error count for USB request: " + Decimal(errorCount) + "."]
    else if -status == ENOENT then ["The operation was cancelled.", DocumentedNumber(ENOENT)]
    else DocumentedSentence(-status, standard) + [DocumentedNumber(-status)]
  }

  /** The error for a bad URB is the documented one, or says that memory ran out while
      reporting it; if no allocation fails it is the documented one. */
  lemma CompletionErrorDocumented(status: int, errorCount: int, standard: Option<string>, o: Oracle)
    requires !(status == 0 && errorCount == 0)
    ensures var e := CompletionError(status, errorCount, standard, o);
      var parts, codes := CompletionParts(status, errorCount, standard), CompletionCodes(status);
      && Reports(e, codes)
      && (HasCode(e, MEMORY) || IsMadeOf(e, parts, codes))
      && (true !in o ==> IsMadeOf(e, parts, codes))
  {
    var ops := CompletionOps(status, errorCount, standard);
    CompletionErrorExactly(status, errorCount, standard, o);
    CompletionOpsCodes(status, errorCount, standard);
    CompletionTexts(status, errorCount, standard);
    CompleteOrMemory(Null, ops, o);
    if true !in o {
      CompleteWhenCodesFit(Null, ops, o);
    }
  }

  lemma CompletionTexts(status: int, errorCount: int, standard: Option<string>)
    requires !(status == 0 && errorCount == 0)
    ensures NonEmpty(Texts(CompletionOps(status, errorCount, standard), [""]))
      == NonEmpty(CompletionParts(status, errorCount, standard))
  {
    var first, last := StatusOps(status, standard), [Add(Words(TransferFailed))];
    var count := if status == 0 then [Add(ErrorCountText(errorCount))] else [];
    assert CompletionOps(status, errorCount, standard) == (first + count) + last;
    TextsAppend(first + count, last, [""]);
    TextsOfOne(Words(TransferFailed), Texts(first + count, [""]));
    NonEmptyAppend([Words(TransferFailed)], Texts(first + count, [""]));
    StatusTexts(status, errorCount, standard);
    NonEmptyAppend([Words(TransferFailed)], StatusParts(status, errorCount, standard));
  }

  /** What is reported, without the context. */
  function StatusParts(status: int, errorCount: int, standard: Option<string>): seq<string> {
    if status == 0 then [ErrorCountText(errorCount)]
    else if -status == ENOENT then [Words(Cancelled), ErrorCodeText(ENOENT)]
    else DocumentedSentence(-status, standard) + [ErrorCodeText(-status)]
  }

  lemma StatusTexts(status: int, errorCount: int, standard: Option<string>)
    ensures var ops := StatusOps(status, standard) + (if status == 0 then [Add(ErrorCountText(errorCount))] else []);
      NonEmpty(Texts(ops, [""])) == NonEmpty(StatusParts(status, errorCount, standard))
  {
    if status == 0 {
      CountTexts(ErrorCountText(errorCount));
    } else {
      assert StatusOps(status, standard) + [] == StatusOps(status, standard);
      if -status == ENOENT {
        CancelledTexts(ErrorCodeText(ENOENT), Words(Cancelled));
      } else {
        FailedTexts(-status, standard);
      }
    }
  }

  lemma FailedTexts(errno: int, standard: Option<string>)
    ensures NonEmpty(Texts(ErrnoOps(errno, standard, ""), [""]))
      == NonEmpty(DocumentedSentence(errno, standard) + [ErrorCodeText(errno)])
  {
    var parts := DocumentedSentence(errno, standard) + [ErrorCodeText(errno)];
    SentenceIsDocumented(errno, standard);
    ErrnoTexts(errno, standard, "");
    assert [""] + SentenceOf(errno, standard) + [ErrorCodeText(errno)] == [""] + parts;
    NonEmptyAppend([""], parts);
  }

  lemma CountTexts(count: string)
    ensures NonEmpty(Texts([] + [Add(count)], [""])) == NonEmpty([count])
  {
    assert [] + [Add(count)] == [Add(count)];
    TextsOfOne(count, [""]);
    NonEmptyAppend([count], [""]);
  }

  lemma CancelledTexts(a: string, b: string)
    ensures NonEmpty(Texts([Add(a), Add(b), Code(CANCELLED)], [""])) == NonEmpty([b, a])
  {
    assert [Add(a), Add(b), Code(CANCELLED)] == [Add(a)] + ([Add(b)] + [Code(CANCELLED)]);
    TextsAppend([Add(a)], [Add(b)] + [Code(CANCELLED)], [""]);
    TextsAppend([Add(b)], [Code(CANCELLED)], [a] + [""]);
    TextsOfOne(a, [""]);
    TextsOfOne(b, [a] + [""]);
    assert [Code(CANCELLED)][1..] == [];
    assert Texts([Code(CANCELLED)], [b] + ([a] + [""])) == [b] + ([a] + [""]);
    assert [b] + ([a] + [""]) == [b, a] + [""];
    NonEmptyAppend([b, a], [""]);
  }

  lemma CompletionOpsCodes(status: int, errorCount: int, standard: Option<string>)
    requires !(status == 0 && errorCount == 0)
    ensures CodesOf(CompletionOps(status, errorCount, standard)) == CompletionCodes(status)
  {
    var first, last := StatusOps(status, standard), [Add(Words(TransferFailed))];
    var count := if status == 0 then [Add(ErrorCountText(errorCount))] else [];
    CodesOfAppend(first + count, last);
    CodesOfAppend(first, count);
    CodesOfOne(Add(Words(TransferFailed)));
    CodesOfOne(Add(ErrorCountText(errorCount)));
    StatusCodes(status, standard);
    assert CompletionOps(status, errorCount, standard) == first + count + last;
  }

  lemma StatusCodes(status: int, standard: Option<string>)
    ensures CodesOf(StatusOps(status, standard)) == CompletionCodes(status)
  {
    if status != 0 && -status != ENOENT {
      ErrnoCodes(-status, standard, "");
    } else if status != 0 {
      CancelledCodes(ErrorCodeText(ENOENT), Words(Cancelled));
    }
  }

  lemma CancelledCodes(a: string, b: string)
    ensures CodesOf([Add(a), Add(b), Code(CANCELLED)]) == [CANCELLED]
  {
    assert [Add(a), Add(b), Code(CANCELLED)] == [Add(a)] + ([Add(b)] + [Code(CANCELLED)]);
    CodesOfAppend([Add(a)], [Add(b)] + [Code(CANCELLED)]);
    CodesOfAppend([Add(b)], [Code(CANCELLED)]);
    CodesOfOne(Add(a));
    CodesOfOne(Add(b));
    CodesOfOne(Code(CANCELLED));
  }
}
