/** Lists of devices: the growing NULL-terminated array of src/list.c, the enumeration of
    src/linux/list_linux.c that fills it, and the search of src/find_device.c. */
module DeviceList {
  import opened Base
  import opened Ledgers
  import opened UdevSearch

  /** libusbp_device. */
  class Device {
    const vendorId: nat
    const productId: nat

    constructor (vendorId: nat, productId: nat)
      ensures this.vendorId == vendorId && this.productId == productId
    {
      this.vendorId, this.productId := vendorId, productId;
    }
  }

  /** device_create, once the IDs have been read and there is memory. */
  method CreateDevice(mem: Ledger<object>, vendorId: nat, productId: nat) returns (device: Device)
    modifies mem
    ensures fresh(device) && device.vendorId == vendorId && device.productId == productId
    ensures mem.live == old(mem.live) + {device}
  {
    device := new Device(vendorId, productId);
    var ok := mem.Take(device, true);
  }

  /** malloc of a list of one element. */
  method MallocList(mem: Ledger<object>, fails: bool) returns (list: array?<Device?>)
    modifies mem
    ensures list == null <==> fails
    ensures mem.live == if list == null then old(mem.live) else old(mem.live) + {list}
    ensures list != null ==> fresh(list) && list.Length == 1
  {
    list := null;
    if !fails {
      list := new Device?[1](_ => null);
      var ok := mem.Take(list, true);
    }
  }

  /** realloc to one more element: on failure the old list stays, on success a list with the
      same elements and a last one that is not set replaces it. */
  method Grow(mem: Ledger<object>, list: array<Device?>, fails: bool) returns (expanded: array?<Device?>)
    requires list in mem.live
    modifies mem
    ensures expanded == null <==> fails
    ensures mem.live == if expanded == null then old(mem.live) else old(mem.live) - {list} + {expanded}
    ensures expanded != null ==>
      fresh(expanded) && expanded.Length == list.Length + 1 && expanded[..list.Length] == list[..]
  {
    expanded := null;
    if !fails {
      expanded := new Device?[list.Length + 1](_ => null);
      var i := 0;
      while i < list.Length
        invariant 0 <= i <= list.Length
        invariant expanded[..i] == list[..i]
        modifies expanded
      {
        expanded[i] := list[i];
        i := i + 1;
      }
      mem.Release(list);
      var ok := mem.Take(expanded, true);
    }
  }

  function Blocks(devices: seq<Device>): set<object> {
    set d: Device | d in devices :: d
  }

  /** The devices of a list are followed by a NULL, and none of them is NULL. */
  ghost predicate IsList(list: array<Device?>, devices: seq<Device>)
    reads list
  {
    && list.Length == |devices| + 1
    && list[|devices|] == null
    && forall i | 0 <= i < |devices| :: list[i] == devices[i]
  }

  /** device_list_create. */
  method CreateList(mem: Ledger<object>, fails: bool) returns (list: array?<Device?>)
    modifies mem
    ensures list == null <==> fails
    ensures mem.live == if list == null then old(mem.live) else old(mem.live) + {list}
    ensures list != null ==> fresh(list) && IsList(list, [])
  {
    list := MallocList(mem, fails);
    if list != null {
      list[0] := null;
    }
  }

  /** device_list_append: realloc either fails and leaves the list as it was, or gives a
      list that is one longer. */
  method Append(mem: Ledger<object>, list: array<Device?>, count: nat, device: Device, fails: bool,
                ghost devices: seq<Device>)
    returns (newList: array<Device?>, newCount: nat, ok: bool)
    requires IsList(list, devices) && count == |devices| && list in mem.live
    modifies mem
    ensures ok == !fails
    ensures newCount == if ok then count + 1 else count
    ensures if ok then fresh(newList) else newList == list
    ensures mem.live == old(mem.live) - {list} + {newList}
    ensures IsList(newList, if ok then devices + [device] else devices)
  {
    newList, newCount, ok := list, count, false;
    var expanded := Grow(mem, list, fails);
    if expanded != null {
      newCount, ok := count + 1, true;
      newList := expanded;
      assert forall i | 0 <= i < |devices| :: expanded[i] == expanded[..list.Length][i] == list[i];
      newList[newCount - 1] := device;
      newList[newCount] := null;
    }
  }

  // ---- Enumeration ----

  datatype Type = UsbDevice | NotUsbDevice

  /** A udev entry: whether it can be opened, its type if known, whether it is initialised,
      its IDs if a device can be created from it, and whether appending the device fails. */
  datatype Entry = Entry(
    present: bool,
    deviceType: Option<Type>,
    initialized: bool,
    ids: Option<(nat, nat)>,
    appendFails: bool)

  /** The entries of which a device is created. */
  predicate IsCreated(e: Entry) {
    e.present && e.deviceType == Some(UsbDevice) && e.initialized && e.ids.Some?
  }

  /** The entries that end up in the list. */
  predicate IsListed(e: Entry) {
    IsCreated(e) && !e.appendFails
  }

  function ListedId(e: Entry): seq<(nat, nat)> {
    if IsListed(e) then [e.ids.value] else []
  }

  function ListedIds(entries: seq<Entry>): seq<(nat, nat)> {
    if entries == [] then [] else ListedId(entries[0]) + ListedIds(entries[1..])
  }

  ghost function Ids(devices: seq<Device>): seq<(nat, nat)> {
    seq(|devices|, i requires 0 <= i < |devices| => (devices[i].vendorId, devices[i].productId))
  }

  lemma {:induction false} ListedIdsSplit(entries: seq<Entry>, e: Entry)
    ensures ListedIds(entries + [e]) == ListedIds(entries) + ListedId(e)
  {
    var all := entries + [e];
    if entries == [] {
      assert all[1..] == [];
    } else {
      assert all[1..] == entries[1..] + [e];
      ListedIdsSplit(entries[1..], e);
      assert ListedIds(all) == ListedId(all[0]) + ListedIds(all[1..]);
    }
  }

  /** The entry is an initialised USB device whose IDs can be read, and there is memory to
      list it. */
  predicate HasIds(e: Entry, ids: (nat, nat)) {
    && e.present && e.deviceType == Some(UsbDevice) && e.initialized
    && e.ids == Some(ids) && !e.appendFails
  }

  /** Which entry each listed pair of IDs is from, and that no other entry has IDs. */
  ghost predicate IsListedAt(entries: seq<Entry>, ids: seq<(nat, nat)>, places: seq<nat>) {
    && |places| == |ids|
    && (forall k | 0 <= k < |ids| :: places[k] < |entries| && HasIds(entries[places[k]], ids[k]))
    && (forall j, k | 0 <= j < k < |places| :: places[j] < places[k])
    && forall i | 0 <= i < |entries| && i !in places :: forall pair :: !HasIds(entries[i], pair)
  }

  /** The IDs are those of the initialised devices of an enumeration, all of them, each
      once, in the same order. */
  ghost predicate IsListing(entries: seq<Entry>, ids: seq<(nat, nat)>) {
    exists places: seq<nat> :: IsListedAt(entries, ids, places)
  }

  lemma {:induction false} ListedExactly(entries: seq<Entry>)
    ensures IsListing(entries, ListedIds(entries))
  {
    if entries == [] {
      assert IsListedAt(entries, [], []);
    } else {
      var n := |entries| - 1;
      var front, last := entries[..n], entries[n];
      assert entries == front + [last];
      ListedIdsSplit(front, last);
      ListedExactly(front);
      var places: seq<nat> :| IsListedAt(front, ListedIds(front), places);
      OneMorePlace(front, last, ListedIds(front), places);
      assert ListedId(last) == if IsListed(last) then [last.ids.value] else [];
    }
  }

  lemma OneMorePlace(entries: seq<Entry>, e: Entry, ids: seq<(nat, nat)>, places: seq<nat>)
    requires IsListedAt(entries, ids, places)
    ensures IsListing(entries + [e], ids + ListedId(e))
  {
    var more := if IsListed(e) then places + [|entries|] else places;
    assert IsListed(e) ==> HasIds(e, e.ids.value);
    assert IsListed(e) ==> |entries| in more;
    forall i | 0 <= i < |entries + [e]| && i !in more ensures forall pair :: !HasIds((entries + [e])[i], pair) {
      assert i < |entries| ==> i !in places;
    }
    assert IsListedAt(entries + [e], ids + ListedId(e), more);
  }

  predicate AreDistinct(devices: seq<Device>) {
    forall i, j | 0 <= i < j < |devices| :: devices[i] != devices[j]
  }

  /** add_udev_device_to_list: a device that cannot be appended is freed again. */
  method AddDevice(mem: Ledger<object>, e: Entry, list: array<Device?>, count: nat, ghost devices: seq<Device>)
    returns (newList: array<Device?>, newCount: nat, ghost added: seq<Device>)
    requires IsList(list, devices) && count == |devices| && list in mem.live
    modifies mem
    ensures IsList(newList, devices + added) && newCount == |devices + added|
    ensures newList == list || fresh(newList)
    ensures |added| == (if e.ids.Some? && !e.appendFails then 1 else 0)
    ensures forall d | d in added :: fresh(d) && Some((d.vendorId, d.productId)) == e.ids
    ensures mem.live == old(mem.live) - {list} + {newList} + Blocks(added)
  {
    newList, newCount, added := list, count, [];
    assert devices + added == devices;
    if e.ids.Some? {
      var device := CreateDevice(mem, e.ids.value.0, e.ids.value.1);
      var ok;
      newList, newCount, ok := Append(mem, list, count, device, e.appendFails, devices);
      if ok {
        added := [device];
      } else {
        mem.Release(device);
      }
    }
  }

  /** add_udev_device_to_list_if_needed, and its caller's freeing of the error. */
  method AddIfNeeded(mem: Ledger<object>, held: Ledger<Reference>, entries: seq<Entry>, i: nat,
                     list: array<Device?>, count: nat, ghost devices: seq<Device>)
    returns (newList: array<Device?>, newCount: nat, ghost added: seq<Device>)
    requires i < |entries| && DeviceOf(i) !in held.live
    requires IsList(list, devices) && count == |devices| && list in mem.live
    modifies mem, held
    ensures IsList(newList, devices + added) && newCount == |devices + added|
    ensures newList == list || fresh(newList)
    ensures Ids(added) == ListedId(entries[i]) && forall d | d in added :: fresh(d)
    ensures mem.live == old(mem.live) - {list} + {newList} + Blocks(added)
    ensures held.live == old(held.live)
  {
    var e := entries[i];
    newList, newCount, added := list, count, [];
    assert devices + added == devices;
    var hasDevice := held.Take(DeviceOf(i), e.present);
    if hasDevice && e.deviceType == Some(UsbDevice) && e.initialized {
      newList, newCount, added := AddDevice(mem, e, list, count, devices);
    }
    if hasDevice {
      held.Release(DeviceOf(i));
    }
    assert held.live == old(held.live);
  }

  /** libusbp_list_connected_devices.  Entries that cause errors are left out, the others
      are listed in the order of the enumeration.  What is allocated afterwards is the list
      and the devices in it; no reference is held. */
  method ListConnectedDevices(mem: Ledger<object>, held: Ledger<Reference>, entries: seq<Entry>,
                              contextWorks: bool, enumerationWorks: bool, createFails: bool)
    returns (list: array?<Device?>, count: nat, ghost devices: seq<Device>)
    requires held.live == {}
    modifies mem, held
    ensures list != null <==> contextWorks && enumerationWorks && !createFails
    ensures held.live == {}
    ensures list == null ==> count == 0 && devices == [] && mem.live == old(mem.live)
    ensures list != null ==>
      && fresh(list) && IsList(list, devices) && count == |devices|
      && Ids(devices) == ListedIds(entries) && IsListing(entries, Ids(devices))
      && mem.live == old(mem.live) + {list} + Blocks(devices)
    ensures AreDistinct(devices) && forall d | d in devices :: fresh(d)
  {
    list, count, devices := null, 0, [];
    var hasContext := held.Take(Context, contextWorks);
    var hasEnumeration := false;
    if hasContext {
      hasEnumeration := held.Take(Enumeration, enumerationWorks);
    }
    if hasEnumeration {
      list := CreateList(mem, createFails);
    }
    if list != null {
      list, count, devices := AddAll(mem, held, entries, list);
    }
    ListedExactly(entries);
    if hasEnumeration {
      held.Release(Enumeration);
    }
    if hasContext {
      held.Release(Context);
    }
  }

  /** The loop of libusbp_list_connected_devices. */
  method AddAll(mem: Ledger<object>, held: Ledger<Reference>, entries: seq<Entry>, empty: array<Device?>)
    returns (list: array<Device?>, count: nat, ghost devices: seq<Device>)
    requires IsList(empty, []) && empty in mem.live && forall k :: DeviceOf(k) !in held.live
    modifies mem, held
    ensures list == empty || fresh(list)
    ensures IsList(list, devices) && count == |devices| && Ids(devices) == ListedIds(entries)
    ensures mem.live == old(mem.live) - {empty} + {list} + Blocks(devices)
    ensures AreDistinct(devices) && forall d | d in devices :: fresh(d)
    ensures held.live == old(held.live)
  {
    list, count, devices := empty, 0, [];
    ghost var base := mem.live - {empty};
    assert mem.live == base + {list} + Blocks(devices);
    var i := 0;
    while i < |entries|
      invariant 0 <= i <= |entries| && held.live == old(held.live)
      invariant list == empty || fresh(list)
      invariant IsList(list, devices) && count == |devices|
      invariant Ids(devices) == ListedIds(entries[..i])
      invariant list !in base && mem.live == base + {list} + Blocks(devices)
      invariant AreDistinct(devices) && forall d | d in devices :: fresh(d)
    {
      list, count, devices := AddNext(mem, held, entries, i, list, count, devices, base);
      i := i + 1;
    }
    assert entries[..i] == entries;
  }

  /** One round: `base` is what was allocated before the list. */
  method AddNext(mem: Ledger<object>, held: Ledger<Reference>, entries: seq<Entry>, i: nat,
                 list: array<Device?>, count: nat, ghost devices: seq<Device>, ghost base: set<object>)
    returns (newList: array<Device?>, newCount: nat, ghost devices': seq<Device>)
    requires i < |entries| && DeviceOf(i) !in held.live
    requires IsList(list, devices) && count == |devices| && AreDistinct(devices)
    requires Ids(devices) == ListedIds(entries[..i])
    requires list !in base && mem.live == base + {list} + Blocks(devices)
    modifies mem, held
    ensures newList == list || fresh(newList)
    ensures IsList(newList, devices') && newCount == |devices'| && AreDistinct(devices')
    ensures Ids(devices') == ListedIds(entries[..i + 1])
    ensures newList !in base && mem.live == base + {newList} + Blocks(devices')
    ensures forall d | d in devices' :: d in devices || fresh(d)
    ensures held.live == old(held.live)
  {
    ghost var added;
    newList, newCount, added := AddIfNeeded(mem, held, entries, i, list, count, devices);
    devices' := devices + added;
    assert entries[..i + 1] == entries[..i] + [entries[i]];
    ListedIdsSplit(entries[..i], entries[i]);
    assert |added| <= 1 && forall d | d in added :: d !in devices;
    OneMore(devices, added);
  }

  lemma OneMore(devices: seq<Device>, added: seq<Device>)
    requires AreDistinct(devices) && |added| <= 1 && forall d | d in added :: d !in devices
    ensures AreDistinct(devices + added)
    ensures Ids(devices + added) == Ids(devices) + Ids(added)
    ensures Blocks(devices + added) == Blocks(devices) + Blocks(added)
  {
    var all := devices + added;
    forall i, j | 0 <= i < j < |all| ensures all[i] != all[j] {
      assert j >= |devices| ==> all[j] in added && all[i] in devices;
    }
    assert forall d | d in all :: d in devices || d in added;
    BlocksOf(all);
    BlocksOf(devices);
    BlocksOf(added);
  }

  lemma BlocksOf(devices: seq<Device>)
    ensures forall b :: b in Blocks(devices) <==> b is Device && b as Device in devices
  {}

  // ---- Finding a device ----

  /** check_device_vid_pid: an error only for a null device. */
  method CheckVidPid(device: Device?, vendorId: nat, productId: nat) returns (error: bool, matches: bool)
    ensures error <==> device == null
    ensures matches <==> device != null && device.vendorId == vendorId && device.productId == productId
  {
    error, matches := false, false;
    if device == null {
      return true, false;
    }
    if device.vendorId != vendorId {
      return;
    }
    if device.productId != productId {
      return;
    }
    matches := true;
  }

  predicate IsFirstMatch(ids: seq<(nat, nat)>, wanted: (nat, nat), k: nat) {
    k < |ids| && ids[k] == wanted && forall j | 0 <= j < k :: ids[j] != wanted
  }

  /** What is found among the devices so far. */
  ghost predicate IsFound(device: Device?, devices: seq<Device>, wanted: (nat, nat), n: nat)
    requires n <= |devices|
  {
    if device == null then forall j | 0 <= j < n :: Ids(devices)[j] != wanted
    else exists k | 0 <= k < n :: devices[k] == device && IsFirstMatch(Ids(devices), wanted, k)
  }

  /** libusbp_find_device_with_vid_pid: the first listed device with these IDs.  Of all that
      was allocated in the call, only this device is left. */
  method FindDevice(mem: Ledger<object>, held: Ledger<Reference>, entries: seq<Entry>, vendorId: nat, productId: nat,
                    contextWorks: bool, enumerationWorks: bool, createFails: bool)
    returns (device: Device?, error: bool, ghost devices: seq<Device>)
    requires held.live == {}
    modifies mem, held
    ensures error <==> !(contextWorks && enumerationWorks && !createFails)
    ensures held.live == {}
    ensures error ==> device == null
    ensures !error ==>
      && Ids(devices) == ListedIds(entries) && IsListing(entries, Ids(devices))
      && IsFound(device, devices, (vendorId, productId), |devices|)
    ensures device != null ==> fresh(device)
    ensures mem.live == old(mem.live) + (if device == null then {} else {device})
  {
    device, error := null, false;
    var list, count;
    list, count, devices := ListConnectedDevices(mem, held, entries, contextWorks, enumerationWorks, createFails);
    if list == null {
      error := true;
      return;
    }
    device := KeepFirst(mem, list, count, vendorId, productId, devices);
    assert device != null ==> device in devices;
    mem.Release(list);
  }

  /** The loop of libusbp_find_device_with_vid_pid. */
  method KeepFirst(mem: Ledger<object>, list: array<Device?>, count: nat, vendorId: nat, productId: nat,
                   ghost devices: seq<Device>)
    returns (device: Device?)
    requires IsList(list, devices) && count == |devices| && AreDistinct(devices)
    requires Blocks(devices) <= mem.live
    modifies mem
    ensures IsFound(device, devices, (vendorId, productId), |devices|)
    ensures mem.live == old(mem.live) - Blocks(devices) + (if device == null then {} else {device})
  {
    device := null;
    var i := 0;
    while i < count
      invariant 0 <= i <= count
      invariant IsFound(device, devices, (vendorId, productId), i)
      invariant mem.live == old(mem.live) - Blocks(devices[..i]) + (if device == null then {} else {device})
    {
      var candidate := list[i];
      NextIsLive(devices, i);
      if device == null {
        var failed, matches := CheckVidPid(candidate, vendorId, productId);
        if failed {
          assert false;
        }
        if matches {
          assert IsFirstMatch(Ids(devices), (vendorId, productId), i);
          device := candidate;
          candidate := null;
        }
      }
      if candidate != null {
        mem.Release(candidate);
      }
      i := i + 1;
    }
    assert devices[..i] == devices;
  }

  lemma NextIsLive(devices: seq<Device>, i: nat)
    requires i < |devices| && AreDistinct(devices)
    ensures devices[i] in Blocks(devices) && devices[i] !in Blocks(devices[..i])
    ensures Blocks(devices[..i + 1]) == Blocks(devices[..i]) + {devices[i]}
    ensures forall k | 0 <= k < i :: devices[k] != devices[i]
  {
    BlocksOf(devices);
    BlocksOf(devices[..i]);
    BlocksOf(devices[..i + 1]);
    assert devices[i] in devices && devices[..i + 1] == devices[..i] + [devices[i]];
  }
}
