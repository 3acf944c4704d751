/** Which serial port belongs to a USB interface on macOS: the scan over the service
    held in libusbp_serial_port_create (src/mac/serial_port_mac.c). */
module SerialPortMac {
  import opened Base
  import opened Ledgers

  /** A service below the device, by the first class it conforms to.  The number of an
      interface may be unreadable. */
  datatype Node =
    | Interface(number: Option<int>)
    | AcmControl
    | AcmData
    | Port(name: string)
    | Other

  datatype Outcome = Found(index: nat) | NotReady | ReadFailed

  /** The three variables of the scan. */
  datatype State = State(current: int, controlNoPort: int, data: int)

  const START := State(-1, -1, -1)

  function Owner(s: State): int {
    if s.data == s.current && s.controlNoPort >= 0 then s.controlNoPort else s.current
  }

  function Visit(s: State, node: Node): State {
    match node
    case Interface(Some(number)) => s.(current := number)
    case Interface(None) => s
    case AcmControl => s.(controlNoPort := s.current)
    case AcmData => s.(data := s.current)
    case Port(_) => s.(controlNoPort := -1)
    case Other => s
  }

  function Scan(s: State, nodes: seq<Node>, from: nat, number: int): Outcome
    requires from <= |nodes|
    decreases |nodes| - from
  {
    if from == |nodes| then NotReady
    else
      match nodes[from]
      case Interface(None) => ReadFailed
      case Port(_) => if Owner(s) == number then Found(from) else Scan(Visit(s, nodes[from]), nodes, from + 1, number)
      case _ => Scan(Visit(s, nodes[from]), nodes, from + 1, number)
  }

  // ---- The references ----

  /** What must be given back: references to services, and the struct of the new port. */
  datatype Reference = PortStruct | DeviceService | Iterator | Service(index: nat)

  /** Which of the calls around the scan work. */
  datatype Calls = Calls(allocates: bool, findsDevice: bool, iterates: bool, readsName: bool)

  datatype Failure = NoMemory | NoDevice | NoIterator | UnreadableInterface | NoPort | NoName

  datatype Creation = Created(index: nat) | Failed(failure: Failure)

  function Expected(calls: Calls, nodes: seq<Node>, number: int): Creation {
    if !calls.allocates then Failed(NoMemory)
    else if !calls.findsDevice then Failed(NoDevice)
    else if !calls.iterates then Failed(NoIterator)
    else
      match Scan(START, nodes, 0, number)
      case Found(index) => if calls.readsName then Created(index) else Failed(NoName)
      case NotReady => Failed(NoPort)
      case ReadFailed => Failed(UnreadableInterface)
  }

  /** libusbp_serial_port_create.  On every path every reference is released exactly once;
      only the struct of a port that was created is left, for the caller. */
  method CreateSerialPort(held: Ledger<Reference>, nodes: seq<Node>, number: byte, calls: Calls) returns (r: Creation)
    requires held.live == {}
    modifies held
    ensures r == Expected(calls, nodes, number)
    ensures IsCreationFor(calls, nodes, number, r)
    ensures held.live == if r.Created? then {PortStruct} else {}
  {
    ExpectedIsRight(calls, nodes, number);
    var failure: Option<Failure> := None;
    var hasPort := held.Take(PortStruct, calls.allocates);
    if !hasPort {
      failure := Some(NoMemory);
    }
    var hasDevice := false;
    if failure.None? {
      hasDevice := held.Take(DeviceService, calls.findsDevice);
      failure := if hasDevice then None else Some(NoDevice);
    }
    var hasIterator := false;
    if failure.None? {
      hasIterator := held.Take(Iterator, calls.iterates);
      failure := if hasIterator then None else Some(NoIterator);
    }
    var service: Option<nat> := None;
    if failure.None? {
      service, failure := FindService(held, nodes, number);
    }
    if failure.None? && !calls.readsName {
      failure := Some(NoName);
    }
    r := if failure.None? then Created(service.value) else Failed(failure.value);
    if service.Some? {
      held.Release(Service(service.value));
    }
    if hasIterator {
      held.Release(Iterator);
    }
    if hasDevice {
      held.Release(DeviceService);
    }
    if hasPort && failure.Some? {
      held.Release(PortStruct);
    }
  }

  /** The loop of libusbp_serial_port_create: it keeps the reference to the service that it
      finds, and no other. */
  method FindService(held: Ledger<Reference>, nodes: seq<Node>, number: byte)
    returns (found: Option<nat>, failure: Option<Failure>)
    requires forall i :: Service(i) !in held.live
    modifies held
    ensures match Scan(START, nodes, 0, number)
      case Found(index) => found == Some(index) && failure.None?
      case NotReady => found.None? && failure == Some(NoPort)
      case ReadFailed => found.None? && failure == Some(UnreadableInterface)
    ensures held.live == old(held.live) + (if found.Some? then {Service(found.value)} else {})
  {
    var current, controlNoPort, data := -1, -1, -1;
    found, failure := None, None;
    var service := 0;
    while failure.None? && service < |nodes|
      invariant 0 <= service <= |nodes| && found.None?
      invariant held.live == old(held.live)
      invariant if failure.None?
        then Scan(START, nodes, 0, number)
               == Scan(State(current, controlNoPort, data), nodes, service, number)
        else failure == Some(UnreadableInterface) && Scan(START, nodes, 0, number) == ReadFailed
      decreases |nodes| - service
    {
      var ok := held.Take(Service(service), true);
      match nodes[service] {
      case Interface(value) =>
        if value.None? {
          failure := Some(UnreadableInterface);
        } else {
          current := value.value;
        }
      case AcmControl =>
        controlNoPort := current;
      case AcmData =>
        data := current;
      case Port(_) =>
        var fixedInterface := current;
        if data == current && controlNoPort >= 0 {
          fixedInterface := controlNoPort;
        }
        controlNoPort := -1;
        if fixedInterface == number {
          found := Some(service);
          break;
        }
      case Other =>
      }
      held.Release(Service(service));
      service := service + 1;
    }
    if failure.None? && found.None? {
      failure := Some(NoPort);
    }
  }

  // ---- What the three variables mean ----

  /** The interface in force: the last one before this point. */
  function Current(before: seq<Node>): int {
    if before == [] then -1
    else
      var rest, last := before[..|before| - 1], before[|before| - 1];
      if last.Interface? && last.number.Some? then last.number.value else Current(rest)
  }

  /** The interface in force at the last ACM data service. */
  function DataInterface(before: seq<Node>): int {
    if before == [] then -1
    else
      var rest, last := before[..|before| - 1], before[|before| - 1];
      if last.AcmData? then Current(rest) else DataInterface(rest)
  }

  /** The interface in force at the last ACM control service, unless there was a port since. */
  function ControlWithoutPort(before: seq<Node>): int {
    if before == [] then -1
    else
      var rest, last := before[..|before| - 1], before[|before| - 1];
      if last.AcmControl? then Current(rest) else if last.Port? then -1 else ControlWithoutPort(rest)
  }

  /** A port belongs to the control interface that is waiting for one, if the port is on
      the data interface; otherwise to the interface it is on. */
  predicate BelongsTo(nodes: seq<Node>, j: nat, number: int) {
    && j < |nodes| && nodes[j].Port?
    && var before := nodes[..j];
       number == if DataInterface(before) == Current(before) && ControlWithoutPort(before) >= 0
                 then ControlWithoutPort(before) else Current(before)
  }

  predicate Readable(nodes: seq<Node>, n: nat)
    requires n <= |nodes|
  {
    forall i | 0 <= i < n :: nodes[i] != Interface(None)
  }

  predicate NoneBefore(nodes: seq<Node>, n: nat, number: int) {
    forall i | 0 <= i < n :: !BelongsTo(nodes, i, number)
  }

  /** What an outcome says about the nodes. */
  ghost predicate IsFirst(nodes: seq<Node>, number: int, r: Outcome) {
    && (r.Found? ==>
        BelongsTo(nodes, r.index, number) && Readable(nodes, r.index) && NoneBefore(nodes, r.index, number))
    && (r.NotReady? ==> Readable(nodes, |nodes|) && NoneBefore(nodes, |nodes|, number))
    && (r.ReadFailed? ==> exists j | 0 <= j < |nodes| ::
          nodes[j] == Interface(None) && Readable(nodes, j) && NoneBefore(nodes, j, number))
  }

  /** The scan finds the first port that belongs to the interface, unless an interface
      before it cannot be read. */
  lemma ScanFindsFirst(nodes: seq<Node>, number: int)
    ensures IsFirst(nodes, number, Scan(START, nodes, 0, number))
  {
    ScanFindsFirstFrom(nodes, 0, number);
  }

  lemma {:induction false} ScanFindsFirstFrom(nodes: seq<Node>, from: nat, number: int)
    requires from <= |nodes| && Readable(nodes, from) && NoneBefore(nodes, from, number)
    ensures
      var s := State(Current(nodes[..from]), ControlWithoutPort(nodes[..from]), DataInterface(nodes[..from]));
      IsFirst(nodes, number, Scan(s, nodes, from, number))
    decreases |nodes| - from
  {
    if from < |nodes| {
      var s := State(Current(nodes[..from]), ControlWithoutPort(nodes[..from]), DataInterface(nodes[..from]));
      assert nodes[..from + 1][..from] == nodes[..from];
      if nodes[from] != Interface(None) && !BelongsTo(nodes, from, number) {
        ScanFindsFirstFrom(nodes, from + 1, number);
      }
    }
  }

  /** What the outcome says about the calls and the nodes: the first call that does not work
      decides, then the first port of the interface or unreadable interface, then whether
      the name of the port found can be read. */
  ghost predicate IsCreationFor(calls: Calls, nodes: seq<Node>, number: int, r: Creation) {
    match r
    case Failed(NoMemory) => !calls.allocates
    case Failed(NoDevice) => calls.allocates && !calls.findsDevice
    case Failed(NoIterator) => calls.allocates && calls.findsDevice && !calls.iterates
    case Failed(UnreadableInterface) =>
      calls.allocates && calls.findsDevice && calls.iterates && IsFirst(nodes, number, ReadFailed)
    case Failed(NoPort) =>
      calls.allocates && calls.findsDevice && calls.iterates && IsFirst(nodes, number, NotReady)
    case Failed(NoName) =>
      && calls.allocates && calls.findsDevice && calls.iterates && !calls.readsName
      && exists i: nat :: IsFirst(nodes, number, Found(i))
    case Created(i) =>
      && calls.allocates && calls.findsDevice && calls.iterates && calls.readsName
      && IsFirst(nodes, number, Found(i))
  }

  lemma ExpectedIsRight(calls: Calls, nodes: seq<Node>, number: int)
    ensures IsCreationFor(calls, nodes, number, Expected(calls, nodes, number))
  {
    ScanFindsFirst(nodes, number);
  }

  /** Nodes have no two outcomes, so this leaves one outcome only. */
  lemma OneCreation(calls: Calls, nodes: seq<Node>, number: int, r: Creation)
    ensures IsCreationFor(calls, nodes, number, r) <==> r == Expected(calls, nodes, number)
  {
    ExpectedIsRight(calls, nodes, number);
    if IsCreationFor(calls, nodes, number, r) {
      forall a, b | IsFirst(nodes, number, a) && IsFirst(nodes, number, b) ensures a == b {
        OneFirst(nodes, number, a, b);
      }
    }
  }

  lemma OneFirst(nodes: seq<Node>, number: int, a: Outcome, b: Outcome)
    requires IsFirst(nodes, number, a) && IsFirst(nodes, number, b)
    ensures a == b
  {}

  // ---- Traversals made of whole functions of a device ----

  /** An ACM function has its port, if it has one, below its data interface.  A plain
      interface may have a port of its own. */
  datatype Block = Acm(control: nat, data: nat, port: Option<string>) | Plain(number: nat, port: Option<string>)

  function Nodes(b: Block): seq<Node> {
    match b
    case Acm(control, data, port) =>
      [Interface(Some(control)), AcmControl, Interface(Some(data)), AcmData] + PortNodes(port)
    case Plain(number, port) => [Interface(Some(number))] + PortNodes(port)
  }

  function PortNodes(port: Option<string>): seq<Node> {
    if port.Some? then [Port(port.value)] else []
  }

  function Numbers(b: Block): seq<nat> {
    match b
    case Acm(control, data, _) => [control, data]
    case Plain(number, _) => [number]
  }

  function AllNodes(blocks: seq<Block>): seq<Node> {
    if blocks == [] then [] else Nodes(blocks[0]) + AllNodes(blocks[1..])
  }

  function AllNumbers(blocks: seq<Block>): seq<nat> {
    if blocks == [] then [] else Numbers(blocks[0]) + AllNumbers(blocks[1..])
  }

  /** The nodes without the unrelated ones. */
  function Related(nodes: seq<Node>): seq<Node> {
    if nodes == [] then []
    else (if nodes[0].Other? then [] else [nodes[0]]) + Related(nodes[1..])
  }

  predicate Distinct(numbers: seq<nat>) {
    forall i, j | 0 <= i < j < |numbers| :: numbers[i] != numbers[j]
  }

  /** A port node, by how many port nodes are before it, and its name. */
  datatype Attributed = Attributed(ordinal: nat, name: string)

  /** What is found where there is a port, or none, and then the rest. */
  function Yield(port: Option<string>, isWanted: bool, rest: Option<Attributed>): Option<Attributed> {
    if port.None? then rest
    else if isWanted then Some(Attributed(0, port.value))
    else if rest.None? then None
    else Some(Attributed(rest.value.ordinal + 1, rest.value.name))
  }

  /** The port an interface should get: an ACM function's by its control interface, a plain
      interface's own. */
  function PortOf(blocks: seq<Block>, number: nat): Option<Attributed> {
    if blocks == [] then None
    else Yield(blocks[0].port, number == PortOwner(blocks[0]), PortOf(blocks[1..], number))
  }

  /** The interface that a port of the block belongs to. */
  function PortOwner(b: Block): nat {
    if b.Acm? then b.control else b.number
  }

  /** How many of the first n blocks have a port. */
  function PortsOfFirst(blocks: seq<Block>, n: nat): nat
    requires n <= |blocks|
  {
    if n == 0 then 0 else (if blocks[0].port.Some? then 1 else 0) + PortsOfFirst(blocks[1..], n - 1)
  }

  /** How many port nodes there are from one place to another. */
  function PortsBetween(nodes: seq<Node>, from: nat, to: nat): nat
    requires from <= to <= |nodes|
    decreases |nodes| - from
  {
    if from == to then 0 else (if nodes[from].Port? then 1 else 0) + PortsBetween(nodes, from + 1, to)
  }

  /** The port that the scan of a list of nodes finds. */
  function PortFound(s: State, nodes: seq<Node>, number: int): Option<Attributed>
    decreases |nodes|
  {
    if nodes == [] then None
    else
      match nodes[0]
      case Interface(None) => None
      case Port(name) => Yield(Some(name), Owner(s) == number, PortFound(Visit(s, nodes[0]), nodes[1..], number))
      case _ => PortFound(Visit(s, nodes[0]), nodes[1..], number)
  }

  lemma {:induction false} PortFoundIsScan(s: State, nodes: seq<Node>, from: nat, number: int)
    requires from <= |nodes|
    ensures var r := Scan(s, nodes, from, number);
      if r.Found?
      then from <= r.index < |nodes| && nodes[r.index].Port?
           && PortFound(s, nodes[from..], number)
                == Some(Attributed(PortsBetween(nodes, from, r.index), nodes[r.index].name))
      else PortFound(s, nodes[from..], number) == None
    ensures (forall node | node in nodes :: node != Interface(None)) ==> !Scan(s, nodes, from, number).ReadFailed?
    decreases |nodes| - from
  {
    if from < |nodes| {
      assert nodes[from..][1..] == nodes[from + 1..];
      assert nodes[from] in nodes;
      PortFoundIsScan(Visit(s, nodes[from]), nodes, from + 1, number);
    }
  }

  lemma {:induction false} UnrelatedDoNotMatter(s: State, nodes: seq<Node>, number: int)
    ensures PortFound(s, nodes, number) == PortFound(s, Related(nodes), number)
    decreases |nodes|
  {
    if nodes != [] {
      UnrelatedDoNotMatter(Visit(s, nodes[0]), nodes[1..], number);
      if nodes[0].Other? {
        assert Related(nodes) == Related(nodes[1..]);
      } else {
        assert Related(nodes)[0] == nodes[0] && Related(nodes)[1..] == Related(nodes[1..]);
      }
    }
  }

  /** A port node, or no port node, and what follows. */
  lemma PortNode(s: State, port: Option<string>, rest: seq<Node>, number: nat)
    ensures PortFound(s, PortNodes(port) + rest, number) ==
      Yield(port, Owner(s) == number, PortFound(if port.Some? then Visit(s, Port(port.value)) else s, rest, number))
  {
    if port.Some? {
      assert ([Port(port.value)] + rest)[1..] == rest;
    } else {
      assert PortNodes(port) + rest == rest;
    }
  }

  /** One block yields its port to its interface.  A control interface without a port may
      be left waiting; it does not matter to the blocks after it. */
  lemma PlainBlock(s: State, k: nat, port: Option<string>, rest: seq<Node>, number: nat) returns (t: State)
    requires s.data != k
    ensures t.data == s.data
    ensures PortFound(s, Nodes(Plain(k, port)) + rest, number) ==
      Yield(port, number == k, PortFound(t, rest, number))
  {
    var s1 := State(k, s.controlNoPort, s.data);
    t := if port.Some? then Visit(s1, Port(port.value)) else s1;
    assert Nodes(Plain(k, port)) + rest == [Interface(Some(k))] + (PortNodes(port) + rest);
    OneNode(s, Interface(Some(k)), PortNodes(port) + rest, number);
    PortNode(s1, port, rest, number);
  }

  lemma AcmBlock(s: State, control: nat, data: nat, port: Option<string>, rest: seq<Node>, number: nat)
    returns (t: State)
    ensures t.data == data
    ensures PortFound(s, Nodes(Acm(control, data, port)) + rest, number) ==
      Yield(port, number == control, PortFound(t, rest, number))
  {
    var n5 := PortNodes(port) + rest;
    var n4 := [AcmData] + n5;
    var n3 := [Interface(Some(data))] + n4;
    var n2 := [AcmControl] + n3;
    assert Nodes(Acm(control, data, port)) + rest == [Interface(Some(control))] + n2;
    var s5 := State(data, control, data);
    t := if port.Some? then Visit(s5, Port(port.value)) else s5;
    OneNode(s, Interface(Some(control)), n2, number);
    OneNode(State(control, s.controlNoPort, s.data), AcmControl, n3, number);
    OneNode(State(control, control, s.data), Interface(Some(data)), n4, number);
    OneNode(State(data, control, s.data), AcmData, n5, number);
    PortNode(s5, port, rest, number);
  }

  lemma OneNode(s: State, node: Node, rest: seq<Node>, number: int)
    requires node != Interface(None) && !node.Port?
    ensures PortFound(s, [node] + rest, number) == PortFound(Visit(s, node), rest, number)
  {
    assert ([node] + rest)[1..] == rest;
  }

  lemma {:induction false} BlocksFrom(s: State, blocks: seq<Block>, number: nat)
    requires s.data !in AllNumbers(blocks) && Distinct(AllNumbers(blocks))
    ensures PortFound(s, AllNodes(blocks), number) == PortOf(blocks, number)
    decreases |blocks|
  {
    if blocks != [] {
      var b, rest := blocks[0], blocks[1..];
      FirstBlock(blocks);
      var t;
      if b.Acm? {
        t := AcmBlock(s, b.control, b.data, b.port, AllNodes(rest), number);
      } else {
        t := PlainBlock(s, b.number, b.port, AllNodes(rest), number);
      }
      BlocksFrom(t, rest, number);
    }
  }

  /** The numbers of the first block are not those of the others. */
  lemma FirstBlock(blocks: seq<Block>)
    requires blocks != [] && Distinct(AllNumbers(blocks))
    ensures var b, others := blocks[0], AllNumbers(blocks[1..]);
      && Distinct(others) && PortOwner(b) !in others && PortOwner(b) in AllNumbers(blocks)
      && (b.Acm? ==> b.data !in others && b.data in AllNumbers(blocks) && b.data != b.control)
      && forall n | n in others :: n in AllNumbers(blocks)
  {
    var b := blocks[0];
    DistinctSplit(Numbers(b), AllNumbers(blocks[1..]));
    assert Numbers(b)[0] == PortOwner(b) && (b.Acm? ==> Numbers(b)[1] == b.data);
  }

  /** For any number of functions with distinct interface numbers, in any order and with
      unrelated services in between, an interface gets the port it should get, told apart
      from other ports by its place, or none. */
  lemma PortsAreAttributed(nodes: seq<Node>, blocks: seq<Block>, number: nat)
    requires Related(nodes) == AllNodes(blocks) && Distinct(AllNumbers(blocks))
    ensures var r := Scan(START, nodes, 0, number);
      if PortOf(blocks, number).None? then r == NotReady
      else r.Found? && r.index < |nodes| && nodes[r.index].Port?
           && PortOf(blocks, number) == Some(Attributed(PortsBetween(nodes, 0, r.index), nodes[r.index].name))
  {
    PortFoundIsScan(START, nodes, 0, number);
    assert nodes[0..] == nodes;
    UnrelatedDoNotMatter(START, nodes, number);
    BlocksFrom(START, blocks, number);
    BlocksAreReadable(blocks);
    RelatedHasTheRest(nodes);
  }

  lemma {:induction false} BlocksAreReadable(blocks: seq<Block>)
    ensures Interface(None) !in AllNodes(blocks)
  {
    if blocks != [] {
      BlocksAreReadable(blocks[1..]);
      assert Interface(None) !in PortNodes(blocks[0].port);
      assert Interface(None) !in Nodes(blocks[0]);
    }
  }

  lemma {:induction false} RelatedHasTheRest(nodes: seq<Node>)
    ensures forall node | node in nodes && !node.Other? :: node in Related(nodes)
  {
    if nodes != [] {
      RelatedHasTheRest(nodes[1..]);
    }
  }

  /** So asking for the control interface of an ACM function, or for a plain interface,
      finds the port of this function if it has one, and asking for the data interface of
      an ACM function finds none. */
  lemma FunctionGetsItsPort(nodes: seq<Node>, blocks: seq<Block>, i: nat)
    requires Related(nodes) == AllNodes(blocks) && Distinct(AllNumbers(blocks)) && i < |blocks|
    ensures var b, r := blocks[i], Scan(START, nodes, 0, PortOwner(blocks[i]));
      if b.port.None? then r == NotReady
      else && r.Found? && r.index < |nodes| && nodes[r.index] == Port(b.port.value)
           && PortsBetween(nodes, 0, r.index) == PortsOfFirst(blocks, i)
    ensures blocks[i].Acm? ==> Scan(START, nodes, 0, blocks[i].data) == NotReady
  {
    PortOfFunction(blocks, i);
    PortsAreAttributed(nodes, blocks, PortOwner(blocks[i]));
    if blocks[i].Acm? {
      PortsAreAttributed(nodes, blocks, blocks[i].data);
    }
  }

  lemma {:induction false} PortOfFunction(blocks: seq<Block>, i: nat)
    requires i < |blocks| && Distinct(AllNumbers(blocks))
    ensures var b := blocks[i];
      PortOf(blocks, PortOwner(b)) ==
        if b.port.None? then None else Some(Attributed(PortsOfFirst(blocks, i), b.port.value))
    ensures blocks[i].Acm? ==> PortOf(blocks, blocks[i].data) == None
  {
    FirstBlock(blocks);
    if i == 0 {
      NoPortOf(blocks[1..], PortOwner(blocks[0]));
      if blocks[0].Acm? {
        NoPortOf(blocks[1..], blocks[0].data);
      }
    } else {
      PortOfFunction(blocks[1..], i - 1);
      NumberOfBlock(blocks[1..], i - 1);
    }
  }

  lemma DistinctSplit(a: seq<nat>, b: seq<nat>)
    requires Distinct(a + b)
    ensures Distinct(a) && Distinct(b) && forall n | n in a :: n !in b
  {
    var all := a + b;
    assert forall i | 0 <= i < |a| :: all[i] == a[i];
    assert forall i | 0 <= i < |b| :: all[|a| + i] == b[i];
  }

  lemma {:induction false} NoPortOf(blocks: seq<Block>, number: nat)
    requires number !in AllNumbers(blocks)
    ensures PortOf(blocks, number) == None
  {
    if blocks != [] {
      assert Numbers(blocks[0])[0] == PortOwner(blocks[0]);
      assert PortOwner(blocks[0]) in AllNumbers(blocks);
      NoPortOf(blocks[1..], number);
    }
  }

  lemma {:induction false} NumberOfBlock(blocks: seq<Block>, i: nat)
    requires i < |blocks|
    ensures PortOwner(blocks[i]) in AllNumbers(blocks)
    ensures blocks[i].Acm? ==> blocks[i].data in AllNumbers(blocks)
  {
    if i > 0 {
      NumberOfBlock(blocks[1..], i - 1);
    } else {
      assert Numbers(blocks[0])[0] == PortOwner(blocks[0]);
      assert blocks[0].Acm? ==> Numbers(blocks[0])[1] == blocks[0].data;
    }
  }
}
