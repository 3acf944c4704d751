/** The searches over udev enumerations in src/linux/udev_linux.c, with the references
    that they take and drop. */
module UdevSearch {
  import opened Base
  import opened Ledgers

  datatype DeviceType = UsbInterface | OtherType

  /** What udev says about an entry of an enumeration.  `present` is whether a device can
      still be made from its path; the interface number may be missing or unreadable. */
  datatype Entry = Entry(
    present: bool,
    deviceType: Option<DeviceType>,
    interfaceNumber: Option<nat>,
    parentPath: Option<string>,
    isTty: bool)

  datatype Verdict = Skip | Match | Error

  datatype Outcome = Found(index: nat) | Failed | NotReady

  /** udevw_get_device_from_syspath, then udevw_check_if_device_is_specific_interface. */
  function JudgeInterface(e: Entry, path: string, number: nat): Verdict {
    if !e.present then Error
    else if e.deviceType.None? then Error
    else if e.deviceType.value != UsbInterface then Skip
    else if e.interfaceNumber.None? then Error
    else if e.interfaceNumber.value != number then Skip
    else if e.parentPath.None? then Error
    else if e.parentPath.value != path then Skip
    else Match
  }

  function JudgeTty(e: Entry): Verdict {
    if !e.present then Error else if e.isTty then Match else Skip
  }

  predicate AllSkipped(verdicts: seq<Verdict>, n: nat)
    requires n <= |verdicts|
  {
    forall j | 0 <= j < n :: verdicts[j] == Skip
  }

  /** The first entry that is not skipped decides. */
  ghost predicate Decides(verdicts: seq<Verdict>, r: Outcome) {
    match r
    case Found(i) => i < |verdicts| && verdicts[i] == Match && AllSkipped(verdicts, i)
    case Failed => exists i | 0 <= i < |verdicts| :: verdicts[i] == Error && AllSkipped(verdicts, i)
    case NotReady => AllSkipped(verdicts, |verdicts|)
  }

  /** Every enumeration has exactly one outcome. */
  lemma {:induction false} ExactlyOneOutcome(verdicts: seq<Verdict>, n: nat) returns (r: Outcome)
    requires n <= |verdicts| && AllSkipped(verdicts, n)
    ensures Decides(verdicts, r) && forall other | Decides(verdicts, other) :: other == r
    decreases |verdicts| - n
  {
    if n == |verdicts| {
      r := NotReady;
    } else if verdicts[n] == Skip {
      r := ExactlyOneOutcome(verdicts, n + 1);
    } else {
      r := if verdicts[n] == Match then Found(n) else Failed;
      forall other | Decides(verdicts, other) ensures other == r {
        var first := verdicts[n];
        assert first != Skip;
      }
    }
  }

  /** An entry is the interface that is looked for. */
  predicate IsInterfaceOf(e: Entry, path: string, number: nat) {
    && e.present && e.deviceType == Some(UsbInterface)
    && e.interfaceNumber == Some(number) && e.parentPath == Some(path)
  }

  /** An entry of which something that is needed cannot be read: the device itself, its
      type, the number of an interface, or the parent of an interface with the number. */
  predicate IsUnreadable(e: Entry, number: nat) {
    || !e.present
    || e.deviceType.None?
    || (e.deviceType == Some(UsbInterface) && e.interfaceNumber.None?)
    || (e.deviceType == Some(UsbInterface) && e.interfaceNumber == Some(number) && e.parentPath.None?)
  }

  /** All entries before one are readable and not the interface. */
  predicate NoInterfaceBefore(entries: seq<Entry>, path: string, number: nat, n: nat)
    requires n <= |entries|
  {
    forall j | 0 <= j < n :: !IsUnreadable(entries[j], number) && !IsInterfaceOf(entries[j], path, number)
  }

  /** What the outcome says about the entries: an entry of another type, with another number
      or of another device never ends the search. */
  ghost predicate DecidesInterface(entries: seq<Entry>, path: string, number: nat, r: Outcome) {
    match r
    case Found(i) =>
      && i < |entries| && IsInterfaceOf(entries[i], path, number)
      && NoInterfaceBefore(entries, path, number, i)
    case Failed => exists i | 0 <= i < |entries| ::
      IsUnreadable(entries[i], number) && NoInterfaceBefore(entries, path, number, i)
    case NotReady => NoInterfaceBefore(entries, path, number, |entries|)
  }

  /** The search for an interface in terms of the entries alone. */
  lemma FoundIsRight(entries: seq<Entry>, path: string, number: nat, r: Outcome)
    ensures Decides(InterfaceVerdicts(entries, path, number), r) <==> DecidesInterface(entries, path, number, r)
  {
    var verdicts := InterfaceVerdicts(entries, path, number);
    assert forall i | 0 <= i < |entries| ::
      && (verdicts[i] == Match <==> IsInterfaceOf(entries[i], path, number))
      && (verdicts[i] == Error <==> IsUnreadable(entries[i], number));
    assert forall n | 0 <= n <= |entries| ::
      AllSkipped(verdicts, n) <==> NoInterfaceBefore(entries, path, number, n);
  }

  /** All entries before one can be opened and are no tty. */
  predicate NoTtyBefore(entries: seq<Entry>, n: nat)
    requires n <= |entries|
  {
    forall j | 0 <= j < n :: entries[j].present && !entries[j].isTty
  }

  /** The same for a tty: the search fails only at an entry that cannot be opened. */
  ghost predicate DecidesTty(entries: seq<Entry>, r: Outcome) {
    match r
    case Found(i) => i < |entries| && entries[i].present && entries[i].isTty && NoTtyBefore(entries, i)
    case Failed => exists i | 0 <= i < |entries| :: !entries[i].present && NoTtyBefore(entries, i)
    case NotReady => NoTtyBefore(entries, |entries|)
  }

  /** The search for a tty in terms of the entries alone. */
  lemma FoundIsTty(entries: seq<Entry>, r: Outcome)
    ensures Decides(TtyVerdicts(entries), r) <==> DecidesTty(entries, r)
  {
    var verdicts := TtyVerdicts(entries);
    assert forall i | 0 <= i < |entries| ::
      && (verdicts[i] == Match <==> entries[i].present && entries[i].isTty)
      && (verdicts[i] == Error <==> !entries[i].present);
    assert forall n | 0 <= n <= |entries| :: AllSkipped(verdicts, n) <==> NoTtyBefore(entries, n);
  }

  /** What libudev hands out: a context, an enumeration, the device of an entry. */
  datatype Reference = Context | Enumeration | DeviceOf(entry: nat)

  /** udevw_check_if_device_is_specific_interface. */
  method CheckInterface(e: Entry, path: string, number: nat) returns (failed: bool, matches: bool)
    requires e.present
    ensures JudgeInterface(e, path, number) == if failed then Error else if matches then Match else Skip
  {
    failed, matches := false, false;
    if e.deviceType.None? {
      return true, false;
    }
    if e.deviceType.value != UsbInterface {
      return;
    }
    if e.interfaceNumber.None? {
      return true, false;
    }
    if e.interfaceNumber.value != number {
      return;
    }
    if e.parentPath.None? {
      return true, false;
    }
    if e.parentPath.value != path {
      return;
    }
    matches := true;
  }

  function InterfaceVerdicts(entries: seq<Entry>, path: string, number: nat): seq<Verdict> {
    seq(|entries|, i requires 0 <= i < |entries| => JudgeInterface(entries[i], path, number))
  }

  function TtyVerdicts(entries: seq<Entry>): seq<Verdict> {
    seq(|entries|, i requires 0 <= i < |entries| => JudgeTty(entries[i]))
  }

  /** udevw_get_interface.  The reference to what is found is the caller's; every other one
      has been dropped, and the list too, whatever fails. */
  method GetInterface(held: Ledger<Reference>, entries: seq<Entry>, listWorks: bool, path: string, number: nat)
    returns (r: Outcome)
    requires held.live == {}
    modifies held
    ensures if listWorks then Decides(InterfaceVerdicts(entries, path, number), r) else r == Failed
    ensures listWorks ==> DecidesInterface(entries, path, number, r)
    ensures held.live == if r.Found? then {DeviceOf(r.index)} else {}
  {
    var hasList := held.Take(Enumeration, listWorks);
    if !hasList {
      return Failed;
    }
    ghost var verdicts := InterfaceVerdicts(entries, path, number);
    r := NotReady;
    var i := 0;
    while i < |entries|
      invariant 0 <= i <= |entries| && r == NotReady
      invariant held.live == {Enumeration}
      invariant AllSkipped(verdicts, i)
    {
      var hasDevice := held.Take(DeviceOf(i), entries[i].present);
      if !hasDevice {
        assert verdicts[i] == Error && AllSkipped(verdicts, i);
        r := Failed;
        break;
      }
      var failed, matches := CheckInterface(entries[i], path, number);
      if failed {
        held.Release(DeviceOf(i));
        assert verdicts[i] == Error && AllSkipped(verdicts, i);
        r := Failed;
        break;
      }
      if matches {
        r := Found(i);
        break;
      }
      held.Release(DeviceOf(i));
      i := i + 1;
    }
    held.Release(Enumeration);
    FoundIsRight(entries, path, number, r);
  }

  /** udevw_get_tty. */
  method GetTty(held: Ledger<Reference>, entries: seq<Entry>, listWorks: bool) returns (r: Outcome)
    requires held.live == {}
    modifies held
    ensures if listWorks then Decides(TtyVerdicts(entries), r) else r == Failed
    ensures listWorks ==> DecidesTty(entries, r)
    ensures held.live == if r.Found? then {DeviceOf(r.index)} else {}
  {
    var hasList := held.Take(Enumeration, listWorks);
    if !hasList {
      return Failed;
    }
    ghost var verdicts := TtyVerdicts(entries);
    r := NotReady;
    var i := 0;
    while i < |entries|
      invariant 0 <= i <= |entries| && r == NotReady
      invariant held.live == {Enumeration}
      invariant AllSkipped(verdicts, i)
    {
      var hasDevice := held.Take(DeviceOf(i), entries[i].present);
      if !hasDevice {
        assert verdicts[i] == Error && AllSkipped(verdicts, i);
        r := Failed;
        break;
      }
      if entries[i].isTty {
        r := Found(i);
        break;
      }
      held.Release(DeviceOf(i));
      i := i + 1;
    }
    held.Release(Enumeration);
    FoundIsTty(entries, r);
  }
}
