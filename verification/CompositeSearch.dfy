/** The search for an interface of a composite device on Windows: get_interface_composite
    in src/windows/interface_windows.c. */
module CompositeSearch {
  import opened Base
  import opened Ledgers

  /** What the two scan patterns read from a device instance ID: the number after MI_ in a
      USB ID, or the last number of an FTDIBUS ID. */
  datatype DeviceId = DeviceId(usb: Option<nat>, ftdi: Option<nat>)

  /** An entry of a device list.  Getting its parent or its ID can fail. */
  datatype Entry = Entry(parent: Option<nat>, id: Option<DeviceId>)

  /** A device list: the system may refuse to make it, and going through it may end with an
      error instead of ERROR_NO_MORE_ITEMS. */
  datatype DeviceList = Unavailable | Available(entries: seq<Entry>, endsWithError: bool)

  datatype Failure = NoDeviceNode | ListFailed | EnumerationFailed | ParentFailed | IdFailed | NotReady

  datatype Outcome = Found(list: nat, index: nat) | Failed(failure: Failure)

  function InterfaceNumber(id: DeviceId): Option<nat> {
    if id.usb.Some? then id.usb else id.ftdi
  }

  // ---- The specification: one pass over everything ----

  datatype Item = Device(list: nat, index: nat, entry: Entry) | Broken(failure: Failure)

  datatype Verdict = Skip | Stop(outcome: Outcome)

  /** What one item means when looking for an interface of a device. */
  function Judge(item: Item, device: nat, number: nat): Verdict {
    match item
    case Broken(failure) => Stop(Failed(failure))
    case Device(list, index, entry) =>
      if entry.parent.None? then Stop(Failed(ParentFailed))
      else if entry.parent.value != device then Skip
      else if entry.id.None? then Stop(Failed(IdFailed))
      else if InterfaceNumber(entry.id.value) == Some(number) then Stop(Found(list, index))
      else Skip
  }

  /** The items of one list from an index on. */
  function Items(list: nat, content: DeviceList, from: nat): seq<Item>
    requires content.Available? ==> from <= |content.entries|
    decreases if content.Available? then |content.entries| - from else 0
  {
    if content.Unavailable? then [Broken(ListFailed)]
    else if from == |content.entries| then (if content.endsWithError then [Broken(EnumerationFailed)] else [])
    else [Device(list, from, content.entries[from])] + Items(list, content, from + 1)
  }

  /** The lists one after the other. */
  function Concatenation(lists: seq<DeviceList>, from: nat): seq<Item>
    requires from <= |lists|
    decreases |lists| - from
  {
    if from == |lists| then [] else Items(from, lists[from], 0) + Concatenation(lists, from + 1)
  }

  function FirstStop(items: seq<Item>, device: nat, number: nat): Outcome {
    if items == [] then Failed(NotReady)
    else
      match Judge(items[0], device, number)
      case Stop(outcome) => outcome
      case Skip => FirstStop(items[1..], device, number)
  }

  /** FirstStop in other words: the first item that is not skipped decides. */
  lemma {:induction false} FirstStopDecides(items: seq<Item>, device: nat, number: nat, k: nat)
    requires k <= |items| && forall i | 0 <= i < k :: Judge(items[i], device, number).Skip?
    requires k < |items| ==> Judge(items[k], device, number).Stop?
    ensures FirstStop(items, device, number) ==
      if k < |items| then Judge(items[k], device, number).outcome else Failed(NotReady)
  {
    if k > 0 {
      assert forall i | 0 <= i < k - 1 :: items[1..][i] == items[i + 1];
      FirstStopDecides(items[1..], device, number, k - 1);
    }
  }

  /** An item that stands for an entry of one of the lists. */
  predicate IsEntryOf(item: Item, lists: seq<DeviceList>) {
    item.Device? ==>
      && item.list < |lists| && lists[item.list].Available?
      && item.index < |lists[item.list].entries| && lists[item.list].entries[item.index] == item.entry
  }

  lemma {:induction false} ItemsAreEntries(lists: seq<DeviceList>, l: nat, from: nat)
    requires l < |lists| && (lists[l].Available? ==> from <= |lists[l].entries|)
    ensures forall item | item in Items(l, lists[l], from) :: IsEntryOf(item, lists)
    decreases if lists[l].Available? then |lists[l].entries| - from else 0
  {
    if lists[l].Available? && from < |lists[l].entries| {
      ItemsAreEntries(lists, l, from + 1);
    }
  }

  lemma {:induction false} ConcatenationIsEntries(lists: seq<DeviceList>, from: nat)
    requires from <= |lists|
    ensures forall item | item in Concatenation(lists, from) :: IsEntryOf(item, lists)
    decreases |lists| - from
  {
    if from < |lists| {
      ItemsAreEntries(lists, from, 0);
      ConcatenationIsEntries(lists, from + 1);
    }
  }

  lemma {:induction false} FoundIsItem(items: seq<Item>, device: nat, number: nat)
    ensures var r := FirstStop(items, device, number);
      r.Found? ==> exists item | item in items ::
        item.Device? && item.list == r.list && item.index == r.index && Judge(item, device, number) == Stop(r)
  {
    if items != [] {
      if Judge(items[0], device, number).Stop? {
        assert items[0] in items;
      } else {
        FoundIsItem(items[1..], device, number);
      }
    }
  }

  /** What is found is a child of the device, for the interface, in a list that was made. */
  lemma FoundIsRight(lists: seq<DeviceList>, device: nat, number: nat)
    ensures var r := FirstStop(Concatenation(lists, 0), device, number);
      r.Found? ==>
        && r.list < |lists| && lists[r.list].Available? && r.index < |lists[r.list].entries|
        && var e := lists[r.list].entries[r.index];
           e.parent == Some(device) && e.id.Some? && InterfaceNumber(e.id.value) == Some(number)
  {
    ConcatenationIsEntries(lists, 0);
    FoundIsItem(Concatenation(lists, 0), device, number);
  }

  // ---- The loop ----

  /** What is still to be decided when the loop is at index i of a list. */
  ghost function Remaining(lists: seq<DeviceList>, l: nat, i: nat, device: nat, number: nat): Outcome
    requires l < |lists| && lists[l].Available? && i <= |lists[l].entries|
  {
    FirstStop(Items(l, lists[l], i) + Concatenation(lists, l + 1), device, number)
  }

  ghost function RemainingLists(lists: seq<DeviceList>, l: nat, device: nat, number: nat): Outcome
    requires l <= |lists|
  {
    FirstStop(Concatenation(lists, l), device, number)
  }

  lemma ListStarts(lists: seq<DeviceList>, l: nat, device: nat, number: nat)
    requires l <= |lists|
    ensures RemainingLists(lists, l, device, number) ==
      if l == |lists| then Failed(NotReady)
      else if lists[l].Unavailable? then Failed(ListFailed)
      else Remaining(lists, l, 0, device, number)
  {}

  lemma ListEnds(lists: seq<DeviceList>, l: nat, device: nat, number: nat)
    requires l < |lists| && lists[l].Available?
    ensures Remaining(lists, l, |lists[l].entries|, device, number) ==
      if lists[l].endsWithError then Failed(EnumerationFailed) else RemainingLists(lists, l + 1, device, number)
  {
    assert [] + Concatenation(lists, l + 1) == Concatenation(lists, l + 1);
  }

  lemma DeviceDecides(lists: seq<DeviceList>, l: nat, i: nat, device: nat, number: nat)
    requires l < |lists| && lists[l].Available? && i < |lists[l].entries|
    ensures var verdict := Judge(Device(l, i, lists[l].entries[i]), device, number);
      Remaining(lists, l, i, device, number) ==
        if verdict.Stop? then verdict.outcome else Remaining(lists, l, i + 1, device, number)
  {
    var items := Items(l, lists[l], i) + Concatenation(lists, l + 1);
    assert items[1..] == Items(l, lists[l], i + 1) + Concatenation(lists, l + 1);
  }

  // ---- What is found, exactly ----

  /** A child of the device for the interface: by the number after MI_, or, if the ID has
      none, by the last number of an FTDIBUS ID. */
  predicate IsWanted(e: Entry, device: nat, number: nat) {
    && e.parent == Some(device) && e.id.Some?
    && (e.id.value.usb == Some(number) || (e.id.value.usb.None? && e.id.value.ftdi == Some(number)))
  }

  /** An entry that can be read as far as needed, and is not wanted. */
  predicate IsPassed(e: Entry, device: nat, number: nat) {
    && e.parent.Some?
    && (e.parent == Some(device) ==> e.id.Some?)
    && !IsWanted(e, device, number)
  }

  /** A list that can be gone through without finding anything. */
  predicate IsPassedList(content: DeviceList, device: nat, number: nat) {
    && content.Available? && !content.endsWithError
    && forall e | e in content.entries :: IsPassed(e, device, number)
  }

  /** Everything before entry i of list l has been passed. */
  predicate IsPassedUpTo(lists: seq<DeviceList>, l: nat, i: nat, device: nat, number: nat) {
    && l < |lists| && lists[l].Available? && i <= |lists[l].entries|
    && (forall k | 0 <= k < l :: IsPassedList(lists[k], device, number))
    && forall k | 0 <= k < i :: IsPassed(lists[l].entries[k], device, number)
  }

  /** What an outcome says about the lists: the first entry or list that is not passed
      decides, and how. */
  ghost predicate Decides(lists: seq<DeviceList>, device: nat, number: nat, r: Outcome) {
    match r
    case Found(l, i) =>
      && IsPassedUpTo(lists, l, i, device, number)
      && i < |lists[l].entries| && IsWanted(lists[l].entries[i], device, number)
    case Failed(NotReady) => forall content | content in lists :: IsPassedList(content, device, number)
    case Failed(ListFailed) =>
      exists l | 0 <= l < |lists| ::
        lists[l].Unavailable? && forall k | 0 <= k < l :: IsPassedList(lists[k], device, number)
    case Failed(EnumerationFailed) =>
      exists l | 0 <= l < |lists| ::
        && lists[l].Available? && lists[l].endsWithError
        && IsPassedUpTo(lists, l, |lists[l].entries|, device, number)
    case Failed(ParentFailed) =>
      exists l: nat, i: nat | IsPassedUpTo(lists, l, i, device, number) ::
        i < |lists[l].entries| && lists[l].entries[i].parent.None?
    case Failed(IdFailed) =>
      exists l: nat, i: nat | IsPassedUpTo(lists, l, i, device, number) ::
        i < |lists[l].entries| && lists[l].entries[i].parent == Some(device) && lists[l].entries[i].id.None?
    case Failed(NoDeviceNode) => false
  }

  /** Exactly one outcome does, the one of the search. */
  lemma SearchExactly(lists: seq<DeviceList>, device: nat, number: nat, r: Outcome)
    ensures Decides(lists, device, number, r) <==> r == FirstStop(Concatenation(lists, 0), device, number)
  {
    ListsDecide(lists, 0, device, number);
    if Decides(lists, device, number, r) {
      DecidesOnly(lists, device, number, r);
    }
  }

  lemma {:induction false} ListsDecide(lists: seq<DeviceList>, l: nat, device: nat, number: nat)
    requires l <= |lists| && forall k | 0 <= k < l :: IsPassedList(lists[k], device, number)
    ensures Decides(lists, device, number, RemainingLists(lists, l, device, number))
    decreases |lists| - l, 1, 0
  {
    ListStarts(lists, l, device, number);
    if l < |lists| && lists[l].Available? {
      EntriesDecide(lists, l, 0, device, number);
    }
  }

  lemma {:induction false} EntriesDecide(lists: seq<DeviceList>, l: nat, i: nat, device: nat, number: nat)
    requires IsPassedUpTo(lists, l, i, device, number)
    ensures Decides(lists, device, number, Remaining(lists, l, i, device, number))
    decreases |lists| - l, 0, |lists[l].entries| - i
  {
    if i == |lists[l].entries| {
      ListEnds(lists, l, device, number);
      if !lists[l].endsWithError {
        ListsDecide(lists, l + 1, device, number);
      }
    } else {
      DeviceDecides(lists, l, i, device, number);
      if IsPassed(lists[l].entries[i], device, number) {
        EntriesDecide(lists, l, i + 1, device, number);
      }
    }
  }

  lemma {:induction false} PassedLists(lists: seq<DeviceList>, l: nat, device: nat, number: nat)
    requires l <= |lists| && forall k | 0 <= k < l :: IsPassedList(lists[k], device, number)
    ensures RemainingLists(lists, 0, device, number) == RemainingLists(lists, l, device, number)
  {
    if l > 0 {
      PassedLists(lists, l - 1, device, number);
      assert IsPassedList(lists[l - 1], device, number);
      PassedList(lists, l - 1, device, number);
    }
  }

  lemma PassedList(lists: seq<DeviceList>, l: nat, device: nat, number: nat)
    requires l < |lists| && IsPassedList(lists[l], device, number)
    ensures RemainingLists(lists, l, device, number) == RemainingLists(lists, l + 1, device, number)
  {
    ListStarts(lists, l, device, number);
    PassedEntries(lists, l, |lists[l].entries|, device, number);
    ListEnds(lists, l, device, number);
  }

  lemma {:induction false} PassedEntries(lists: seq<DeviceList>, l: nat, i: nat, device: nat, number: nat)
    requires l < |lists| && lists[l].Available? && i <= |lists[l].entries|
    requires forall k | 0 <= k < i :: IsPassed(lists[l].entries[k], device, number)
    ensures Remaining(lists, l, 0, device, number) == Remaining(lists, l, i, device, number)
  {
    if i > 0 {
      PassedEntries(lists, l, i - 1, device, number);
      DeviceDecides(lists, l, i - 1, device, number);
    }
  }

  lemma PassedUpTo(lists: seq<DeviceList>, l: nat, i: nat, device: nat, number: nat)
    requires IsPassedUpTo(lists, l, i, device, number)
    ensures RemainingLists(lists, 0, device, number) == Remaining(lists, l, i, device, number)
  {
    PassedLists(lists, l, device, number);
    ListStarts(lists, l, device, number);
    PassedEntries(lists, l, i, device, number);
  }

  lemma DecidesOnly(lists: seq<DeviceList>, device: nat, number: nat, r: Outcome)
    requires Decides(lists, device, number, r)
    ensures r == RemainingLists(lists, 0, device, number)
  {
    match r
    case Found(l, i) =>
      PassedUpTo(lists, l, i, device, number);
      DeviceDecides(lists, l, i, device, number);
    case Failed(NotReady) =>
      PassedLists(lists, |lists|, device, number);
    case Failed(ListFailed) =>
      var l :| 0 <= l < |lists| && lists[l].Unavailable?
        && forall k | 0 <= k < l :: IsPassedList(lists[k], device, number);
      PassedLists(lists, l, device, number);
      ListStarts(lists, l, device, number);
    case Failed(EnumerationFailed) =>
      var l :| 0 <= l < |lists| && lists[l].Available? && lists[l].endsWithError
        && IsPassedUpTo(lists, l, |lists[l].entries|, device, number);
      PassedUpTo(lists, l, |lists[l].entries|, device, number);
      ListEnds(lists, l, device, number);
    case Failed(ParentFailed) =>
      var l: nat, i: nat :| IsPassedUpTo(lists, l, i, device, number)
        && i < |lists[l].entries| && lists[l].entries[i].parent.None?;
      PassedUpTo(lists, l, i, device, number);
      DeviceDecides(lists, l, i, device, number);
    case Failed(IdFailed) =>
      var l: nat, i: nat :| IsPassedUpTo(lists, l, i, device, number)
        && i < |lists[l].entries| && lists[l].entries[i].parent == Some(device) && lists[l].entries[i].id.None?;
      PassedUpTo(lists, l, i, device, number);
      DeviceDecides(lists, l, i, device, number);
    case Failed(NoDeviceNode) =>
  }

  const LIST_COUNT := 3

  /** get_interface_composite.  `handles` are those of the device information sets, each
      named after its list; `device` is the device node that CM_Locate_DevNode finds.
      It returns what one pass over the three lists decides.  Every handle is destroyed,
      except the one handed to the caller with what was found. */
  method GetInterfaceComposite(handles: Ledger<nat>, lists: seq<DeviceList>, device: Option<nat>, number: byte)
    returns (r: Outcome)
    requires |lists| == LIST_COUNT && handles.live == {}
    modifies handles
    ensures r == if device.None? then Failed(NoDeviceNode)
                 else FirstStop(Concatenation(lists, 0), device.value, number)
    ensures device.Some? ==> Decides(lists, device.value, number, r)
    ensures handles.live == if r.Found? then {r.list} else {}
  {
    if device.Some? {
      SearchExactly(lists, device.value, number, FirstStop(Concatenation(lists, 0), device.value, number));
    }
    if device.None? {
      return Failed(NoDeviceNode);
    }
    var listIndex := 0;
    var newList: Option<nat> := None;
    var i := 0;
    ghost var goal := RemainingLists(lists, 0, device.value, number);
    while true
      invariant 0 <= listIndex <= LIST_COUNT
      invariant newList.None? ==>
        handles.live == {} && goal == RemainingLists(lists, listIndex, device.value, number)
      invariant newList.Some? ==>
        && newList == Some(listIndex) && listIndex < LIST_COUNT && handles.live == {listIndex}
        && lists[listIndex].Available? && 0 <= i <= |lists[listIndex].entries|
        && goal == Remaining(lists, listIndex, i, device.value, number)
      decreases LIST_COUNT - listIndex,
        if newList.None? then 1 else 0,
        if newList.None? then 0 else |lists[listIndex].entries| - i
    {
      if newList.None? {
        ListStarts(lists, listIndex, device.value, number);
        if listIndex >= LIST_COUNT {
          return Failed(NotReady);
        }
        var works := handles.Take(listIndex, lists[listIndex].Available?);
        newList := if works then Some(listIndex) else None;
        if newList.None? {
          return Failed(ListFailed);
        }
        i := 0;
      }
      var next := LookAt(handles, lists, listIndex, i, device.value, number);
      match next {
        case Continue =>
          i := i + 1;
        case NextList =>
          newList := None;
          listIndex := listIndex + 1;
        case Return(outcome) =>
          return outcome;
      }
    }
  }

  /** How the loop goes on. */
  datatype Next = Continue | NextList | Return(outcome: Outcome)

  /** The part of the loop after a list has been opened. */
  method LookAt(handles: Ledger<nat>, lists: seq<DeviceList>, l: nat, i: nat, device: nat, number: nat)
    returns (next: Next)
    requires l < |lists| && lists[l].Available? && i <= |lists[l].entries| && handles.live == {l}
    modifies handles
    ensures next.Continue? ==>
      && i < |lists[l].entries| && handles.live == {l}
      && Remaining(lists, l, i, device, number) == Remaining(lists, l, i + 1, device, number)
    ensures next.NextList? ==>
      && handles.live == {}
      && Remaining(lists, l, i, device, number) == RemainingLists(lists, l + 1, device, number)
    ensures next.Return? ==>
      && handles.live == (if next.outcome.Found? then {next.outcome.list} else {})
      && Remaining(lists, l, i, device, number) == next.outcome
  {
    var content := lists[l];
    if i == |content.entries| {
      ListEnds(lists, l, device, number);
      handles.Release(l);
      return if content.endsWithError then Return(Failed(EnumerationFailed)) else NextList;
    }
    DeviceDecides(lists, l, i, device, number);
    var verdict := CheckEntry(content.entries[i], l, i, device, number);
    if verdict.Skip? {
      return Continue;
    }
    if verdict.outcome.Failed? {
      handles.Release(l);
    }
    next := Return(verdict.outcome);
  }

  /** The part of the loop that looks at one device. */
  method CheckEntry(entry: Entry, list: nat, index: nat, device: nat, number: nat) returns (verdict: Verdict)
    ensures verdict == Judge(Device(list, index, entry), device, number)
    ensures verdict.Stop? && verdict.outcome.Found? ==> verdict.outcome == Found(list, index)
  {
    if entry.parent.None? {
      return Stop(Failed(ParentFailed));
    }
    if entry.parent.value != device {
      return Skip;
    }
    if entry.id.None? {
      return Stop(Failed(IdFailed));
    }
    var actual := entry.id.value.usb;
    if actual.None? {
      actual := entry.id.value.ftdi;
      if actual.None? {
        return Skip;
      }
    }
    if actual.value != number {
      return Skip;
    }
    verdict := Stop(Found(list, index));
  }
}
