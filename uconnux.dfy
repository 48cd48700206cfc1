/**
 * The device table of the C shell (include/uconnux.h, src/uconnux.c and
 * `add_device`/`create_uconnux_handler` of src/commands/add.c): ten slots, each
 * a pointer that is NULL or holds a device, and a counter of the occupied ones.
 */
module UConnux {
  import opened Wrappers
  import opened Errors

  const MAX_NUMBER_OF_PORT: nat := 10
  /** Port names are at most 49 characters: 50 with the terminator. */
  const MAX_PORT_NAME: nat := 50
  const MAX_DEVICE_NAME: nat := 50

  /** The `unsigned int` that `add_device` takes its bandwidth as. */
  type uint32 = x: int | 0 <= x < 0x1_0000_0000

  /** `NO_DEVICE` (0) marks a free slot; the others are 1, 2 and 3 in this order. */
  datatype DeviceStatus = NoDevice | DeviceConnecting | DeviceConnected | DeviceDisconnected

  datatype USBPort = USBPort(name: string, band: int)

  datatype Device = Device(name: string, port: Option<USBPort>, status: DeviceStatus)

  /** One entry of `devices`: a NULL pointer or a pointer to a device. */
  datatype Slot = Null | Allocated(device: Device)

  /** The device `uconnux_handler_init` puts in every slot: zeroed name, no port, free. */
  function EmptyDevice(): Device
  {
    Device("", None, NoDevice)
  }

  /** The device `add_device` creates for a port. */
  function NewDevice(portName: string, bandwidth: uint32): Device
  {
    Device("NO_DEVICE", Some(USBPort(portName, bandwidth)), DeviceDisconnected)
  }

  /** Every slot points to a device, as `uconnux_handler_init` leaves them. */
  predicate Initialised(slots: seq<Slot>)
  {
    forall i | 0 <= i < |slots| :: slots[i].Allocated?
  }

  predicate Occupied(s: Slot)
  {
    s.Allocated? && s.device.status != NoDevice
  }

  /** The number of slots holding a device whose status is not `NO_DEVICE`. */
  function CountOccupied(slots: seq<Slot>): (n: nat)
    ensures n <= |slots|
  {
    if slots == [] then 0
    else (if Occupied(slots[0]) then 1 else 0) + CountOccupied(slots[1..])
  }

  /** The slot holds a device attached to a port called `name`. */
  predicate HasPort(s: Slot, name: string)
  {
    s.Allocated? && s.device.port.Some? && s.device.port.value.name == name
  }

  predicate HoldsPort(slots: seq<Slot>, name: string)
  {
    exists i | 0 <= i < |slots| :: HasPort(slots[i], name)
  }

  /** No two slots are attached to ports of the same name. */
  predicate UniquePorts(slots: seq<Slot>)
  {
    forall i, j | 0 <= i < j < |slots| ::
      slots[i].Allocated? && slots[i].device.port.Some? ==> !HasPort(slots[j], slots[i].device.port.value.name)
  }

  /** A slot marked `NO_DEVICE` is attached to no port. */
  predicate FreeSlotsPortless(slots: seq<Slot>)
  {
    forall i | 0 <= i < |slots| :: slots[i].Allocated? && slots[i].device.status == NoDevice ==> slots[i].device.port.None?
  }

  /**
   * What the table promises between calls: ten slots, all allocated, the
   * counter equal to the number of occupied ones, port names unique, and
   * free slots attached to no port.
   */
  predicate TableInvariant(slots: seq<Slot>, counter: nat)
  {
    |slots| == MAX_NUMBER_OF_PORT && Initialised(slots) && counter == CountOccupied(slots) &&
    UniquePorts(slots) && FreeSlotsPortless(slots)
  }

  /** The first slot whose device has status `NO_DEVICE`, if any. */
  function FirstFree(slots: seq<Slot>): (r: Option<nat>)
    requires Initialised(slots)
    ensures r.Some? ==> r.value < |slots| && slots[r.value].device.status == NoDevice
    ensures r.Some? ==> forall j | 0 <= j < r.value :: slots[j].device.status != NoDevice
    ensures r.None? ==> forall j | 0 <= j < |slots| :: slots[j].device.status != NoDevice
  {
    if slots == [] then None
    else if slots[0].device.status == NoDevice then Some(0)
    else match FirstFree(slots[1..])
      case None => None
      case Some(k) => Some(k + 1)
  }

  datatype AddResult = AddResult(code: ErrorCode, slots: seq<Slot>, counter: nat)

  /**
   * `add_device` on a handler: the checks in the source's order, then the
   * device in the first free slot. `allocOk` says whether the two
   * allocations succeed.
   */
  function AddDeviceSpec(slots: seq<Slot>, counter: nat, portName: Option<string>, bandwidth: uint32, allocOk: bool): (r: AddResult)
    requires Initialised(slots)
    ensures Initialised(r.slots) && |r.slots| == |slots|
  {
    if portName.None? then AddResult(ErrNullArgument, slots, counter)
    else if counter >= MAX_NUMBER_OF_PORT then AddResult(ErrLimit, slots, counter)
    else if |portName.value| == 0 || |portName.value| >= MAX_PORT_NAME then AddResult(ErrInvalidArgument, slots, counter)
    else if HoldsPort(slots, portName.value) then AddResult(ErrAlreadyExist, slots, counter)
    else match FirstFree(slots)
      case None => AddResult(ErrFailure, slots, counter)
      case Some(k) =>
        if !allocOk then AddResult(ErrFailure, slots, counter)
        else AddResult(ErrSuccess, slots[k := Allocated(NewDevice(portName.value, bandwidth))], counter + 1)
  }

  class UConnuxHandler {
    const devices: array<Slot>
    /** A `uint8_t` in the source; the table invariant keeps it at most 10. */
    var devicesCounter: nat

    /** `create_uconnux_handler`: every slot NULL and the counter zero. */
    constructor Create()
      ensures devices.Length == MAX_NUMBER_OF_PORT && fresh(devices)
      ensures forall i | 0 <= i < devices.Length :: devices[i] == Null
      ensures devicesCounter == 0
    {
      devices := new Slot[MAX_NUMBER_OF_PORT];
      devicesCounter := 0;
      new;
      var i := 0;
      while i < MAX_NUMBER_OF_PORT
        invariant i <= MAX_NUMBER_OF_PORT
        invariant forall j | 0 <= j < i :: devices[j] == Null
        modifies devices
      {
        devices[i] := Null;
        i := i + 1;
      }
    }

    ghost predicate Valid()
      reads this, devices
    {
      TableInvariant(devices[..], devicesCounter)
    }

    /** The duplicate scan of `add_device`: is some slot attached to a port called `name`? */
    method FindPort(name: string) returns (held: bool)
      ensures held == HoldsPort(devices[..], name)
    {
      var i := 0;
      while i < devices.Length
        invariant i <= devices.Length
        invariant forall j | 0 <= j < i :: !HasPort(devices[j], name)
      {
        if devices[i].Allocated? && devices[i].device.port.Some? && devices[i].device.port.value.name == name {
          assert HasPort(devices[..][i], name);
          return true;
        }
        i := i + 1;
      }
      assert forall j | 0 <= j < |devices[..]| :: !HasPort(devices[..][j], name);
      return false;
    }

    /** The free-slot scan of `add_device`: the first slot whose status is `NO_DEVICE`. */
    method FindFreeSlot() returns (index: Option<nat>)
      requires Initialised(devices[..])
      ensures index == FirstFree(devices[..])
    {
      var i := 0;
      while i < devices.Length
        invariant i <= devices.Length
        invariant forall j | 0 <= j < i :: devices[..][j].device.status != NoDevice
      {
        assert devices[..][i] == devices[i];
        if devices[i].device.status == NoDevice {
          return Some(i);
        }
        i := i + 1;
      }
      return None;
    }
  }

  /**
   * `uconnux_handler_init`: NULL is refused; otherwise the counter is zeroed
   * and every slot gets a free, nameless, portless device.
   */
  method InitHandler(handler: UConnuxHandler?) returns (e: ErrorCode)
    requires handler != null ==> handler.devices.Length == MAX_NUMBER_OF_PORT
    modifies if handler == null then {} else {handler, handler.devices}
    ensures handler == null ==> e == ErrNullArgument
    ensures handler != null ==> e == ErrSuccess && handler.devicesCounter == 0
    ensures handler != null ==> forall i | 0 <= i < handler.devices.Length :: handler.devices[i] == Allocated(EmptyDevice())
    ensures handler != null ==> handler.Valid()
  {
    if handler == null {
      return ErrNullArgument;
    }
    handler.devicesCounter := 0;
    var i := 0;
    while i < MAX_NUMBER_OF_PORT
      invariant i <= MAX_NUMBER_OF_PORT
      invariant forall j | 0 <= j < i :: handler.devices[j] == Allocated(EmptyDevice())
      invariant handler.devicesCounter == 0
    {
      handler.devices[i] := Allocated(EmptyDevice());
      i := i + 1;
    }
    InitTableInvariant(handler.devices[..]);
    return ErrSuccess;
  }

  /**
   * `uconnux_handler_destory`: NULL is refused; otherwise every slot is set
   * to NULL.
   */
  method DestroyHandler(handler: UConnuxHandler?) returns (e: ErrorCode)
    modifies if handler == null then {} else {handler.devices}
    ensures handler == null ==> e == ErrNullArgument
    ensures handler != null ==> e == ErrSuccess
    ensures handler != null ==> forall i | 0 <= i < handler.devices.Length :: handler.devices[i] == Null
  {
    if handler == null {
      return ErrNullArgument;
    }
    var i := 0;
    while i < handler.devices.Length
      invariant i <= handler.devices.Length
      invariant forall j | 0 <= j < i :: handler.devices[j] == Null
    {
      if handler.devices[i] != Null {
        handler.devices[i] := Null;
      }
      i := i + 1;
    }
    return ErrSuccess;
  }

  /**
   * `add_device`. The source dereferences every slot it scans for a free
   * one, so a handler that reaches that scan must have been initialised.
   */
  method AddDevice(handler: UConnuxHandler?, portName: Option<string>, bandwidth: uint32, allocOk: bool) returns (e: ErrorCode)
    requires handler != null ==> Initialised(handler.devices[..])
    modifies if handler == null then {} else {handler, handler.devices}
    ensures handler == null ==> e == ErrNullArgument
    ensures handler != null ==>
      AddResult(e, handler.devices[..], handler.devicesCounter) ==
      AddDeviceSpec(old(handler.devices[..]), old(handler.devicesCounter), portName, bandwidth, allocOk)
    ensures handler != null && old(handler.Valid()) ==> handler.Valid()
  {
    if handler != null && handler.Valid() {
      AddPreservesInvariant(handler.devices[..], handler.devicesCounter, portName, bandwidth, allocOk);
    }
    if portName.None? || handler == null {
      return ErrNullArgument;
    }
    if handler.devicesCounter >= MAX_NUMBER_OF_PORT {
      return ErrLimit;
    }
    var name := portName.value;
    if |name| == 0 || |name| >= MAX_PORT_NAME {
      return ErrInvalidArgument;
    }
    var held := handler.FindPort(name);
    if held {
      return ErrAlreadyExist;
    }
    var index := handler.FindFreeSlot();
    if index.None? || !allocOk {
      return ErrFailure;
    }
    handler.devices[index.value] := Allocated(NewDevice(name, bandwidth));
    handler.devicesCounter := handler.devicesCounter + 1;
    return ErrSuccess;
  }

  lemma {:induction false} CountNone(slots: seq<Slot>)
    requires forall i | 0 <= i < |slots| :: !Occupied(slots[i])
    ensures CountOccupied(slots) == 0
  {
    if slots != [] {
      assert !Occupied(slots[0]);
      CountNone(slots[1..]);
    }
  }

  /** A freshly initialised table satisfies the table invariant with a zero counter. */
  lemma InitTableInvariant(slots: seq<Slot>)
    requires |slots| == MAX_NUMBER_OF_PORT
    requires forall i | 0 <= i < |slots| :: slots[i] == Allocated(EmptyDevice())
    ensures TableInvariant(slots, 0)
  {
    CountNone(slots);
  }

  /** Filling a free slot with an occupied one adds one to the count. */
  lemma {:induction false} CountFill(slots: seq<Slot>, k: nat, x: Slot)
    requires k < |slots| && !Occupied(slots[k]) && Occupied(x)
    ensures CountOccupied(slots[k := x]) == CountOccupied(slots) + 1
  {
    if k > 0 {
      CountFill(slots[1..], k - 1, x);
      assert slots[k := x][1..] == slots[1..][k - 1 := x];
    }
  }

  /** A table with fewer occupied slots than slots has a free one. */
  lemma {:induction false} FreeSlotExists(slots: seq<Slot>)
    requires Initialised(slots) && CountOccupied(slots) < |slots|
    ensures FirstFree(slots).Some?
  {
    if slots[0].device.status != NoDevice {
      FreeSlotExists(slots[1..]);
    }
  }

  /**
   * `add_device` keeps the table invariant: the counter still counts the
   * occupied slots, never passes 10, and port names stay unique.
   */
  lemma AddPreservesInvariant(slots: seq<Slot>, counter: nat, portName: Option<string>, bandwidth: uint32, allocOk: bool)
    requires TableInvariant(slots, counter)
    ensures var r := AddDeviceSpec(slots, counter, portName, bandwidth, allocOk);
      TableInvariant(r.slots, r.counter) && r.counter <= MAX_NUMBER_OF_PORT
  {
    var r := AddDeviceSpec(slots, counter, portName, bandwidth, allocOk);
    if r.code == ErrSuccess {
      var k := FirstFree(slots).value;
      var x := Allocated(NewDevice(portName.value, bandwidth));
      CountFill(slots, k, x);
      forall i, j | 0 <= i < j < |r.slots| && r.slots[i].Allocated? && r.slots[i].device.port.Some?
        ensures !HasPort(r.slots[j], r.slots[i].device.port.value.name)
      {
        if i == k {
          assert !HasPort(slots[j], portName.value);
        } else if j == k {
          assert !HasPort(slots[i], portName.value);
        }
      }
    }
  }

  /** While the invariant holds, the "no free slot" failure cannot happen: only a failed allocation gives ERR_FAILURE. */
  lemma AddNeverLacksSlot(slots: seq<Slot>, counter: nat, portName: Option<string>, bandwidth: uint32, allocOk: bool)
    requires TableInvariant(slots, counter)
    ensures AddDeviceSpec(slots, counter, portName, bandwidth, allocOk).code == ErrFailure ==> !allocOk
  {
    if counter < MAX_NUMBER_OF_PORT {
      FreeSlotExists(slots);
    }
  }

  /**
   * With the invariant and working allocation, `add_device` succeeds exactly
   * when the name is given, the table is not full, the name has 1 to 49
   * characters and no slot already has a port of that name.
   */
  lemma AddSucceedsIff(slots: seq<Slot>, counter: nat, name: string, bandwidth: uint32)
    requires TableInvariant(slots, counter)
    ensures AddDeviceSpec(slots, counter, Some(name), bandwidth, true).code == ErrSuccess <==>
      counter < MAX_NUMBER_OF_PORT && 0 < |name| < MAX_PORT_NAME && !HoldsPort(slots, name)
  {
    AddNeverLacksSlot(slots, counter, Some(name), bandwidth, true);
  }

  /**
   * A successful `add_device` fills the first free slot with the new device
   * and the port, adds one to the counter, and leaves every other slot alone;
   * any failure leaves the table as it was.
   */
  lemma AddEffect(slots: seq<Slot>, counter: nat, portName: Option<string>, bandwidth: uint32, allocOk: bool)
    requires Initialised(slots)
    ensures var r := AddDeviceSpec(slots, counter, portName, bandwidth, allocOk);
      r.code != ErrSuccess ==> r.slots == slots && r.counter == counter
    ensures var r := AddDeviceSpec(slots, counter, portName, bandwidth, allocOk);
      r.code == ErrSuccess ==>
        exists k | 0 <= k < |slots| ::
          slots[k].device.status == NoDevice &&
          (forall j | 0 <= j < k :: slots[j].device.status != NoDevice) &&
          r.slots[k] == Allocated(NewDevice(portName.value, bandwidth)) &&
          (forall j | 0 <= j < |slots| && j != k :: r.slots[j] == slots[j]) &&
          |r.slots| == |slots| && r.counter == counter + 1 && HoldsPort(r.slots, portName.value)
  {
    var r := AddDeviceSpec(slots, counter, portName, bandwidth, allocOk);
    if r.code == ErrSuccess {
      var k := FirstFree(slots).value;
      assert HasPort(r.slots[k], portName.value);
    }
  }

  /** Adding the same port again is refused, as a duplicate or because the table is now full. */
  lemma AddTwiceRefused(slots: seq<Slot>, counter: nat, name: string, b1: uint32, b2: uint32, ok1: bool, ok2: bool)
    requires TableInvariant(slots, counter)
    requires AddDeviceSpec(slots, counter, Some(name), b1, ok1).code == ErrSuccess
    ensures var r := AddDeviceSpec(slots, counter, Some(name), b1, ok1);
      var again := AddDeviceSpec(r.slots, r.counter, Some(name), b2, ok2);
      again.code == (if r.counter == MAX_NUMBER_OF_PORT then ErrLimit else ErrAlreadyExist) && again.slots == r.slots
  {
    AddPreservesInvariant(slots, counter, Some(name), b1, ok1);
    AddEffect(slots, counter, Some(name), b1, ok1);
  }

  /** No port is ever lost: a port held before `add_device` is still held after it. */
  lemma AddKeepsPorts(slots: seq<Slot>, counter: nat, portName: Option<string>, bandwidth: uint32, allocOk: bool, other: string)
    requires TableInvariant(slots, counter) && HoldsPort(slots, other)
    ensures HoldsPort(AddDeviceSpec(slots, counter, portName, bandwidth, allocOk).slots, other)
  {
    var r := AddDeviceSpec(slots, counter, portName, bandwidth, allocOk);
    var i :| 0 <= i < |slots| && HasPort(slots[i], other);
    if r.code == ErrSuccess {
      var k := FirstFree(slots).value;
      assert i != k;
      assert HasPort(r.slots[i], other);
    }
  }
}
