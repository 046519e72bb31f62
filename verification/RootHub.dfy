/** The ports of the emulated root hub (drivers/ude/vhci.cpp, drivers/ude/device.cpp,
    drivers/ude/vhci_ioctl.cpp). Claim, reclaim and the setting of the unplugged flag are atomic. */
module RootHub {
  import opened Words

  const MIN_PORTS := 1
  const DEFAULT_PORTS := 30
  const MAX_PORTS := 254
  const MAX_TOTAL_PORTS := 255
  const SUPER_SPEED := 5

  // ---- the number of ports

  function Wanted(r: RegistryNumber): int {
    if r.Absent? then DEFAULT_PORTS else Signed(r.value)
  }

  function Clamp(n: int): int {
    if n < MIN_PORTS then MIN_PORTS else if n > MAX_PORTS then MAX_PORTS else n
  }

  /** set_usb_ports_cnt. The USB 3 ports come first in the array; the USB 2 ports take what is left. */
  method SetUsbPortsCnt(usb2: RegistryNumber, usb3: RegistryNumber) returns (usb2Ports: int, usb3Ports: int)
    ensures usb2Ports >= MIN_PORTS && usb3Ports >= MIN_PORTS
    ensures usb2Ports + usb3Ports <= MAX_TOTAL_PORTS
    ensures usb3.Present? && 1 <= usb3.value <= 254 ==> usb3Ports == usb3.value
    ensures usb3 == Absent ==> usb3Ports == 30
    ensures usb3Ports == Clamp(Wanted(usb3))
    ensures usb2Ports == if Clamp(Wanted(usb2)) + usb3Ports <= MAX_TOTAL_PORTS then Clamp(Wanted(usb2)) else MAX_TOTAL_PORTS - usb3Ports
  {
    var cnt := new int[2];
    cnt[0], cnt[1] := Wanted(usb3), Wanted(usb2);
    var total := 0;
    for i := 0 to 2
      invariant i >= 1 ==> cnt[0] == Clamp(Wanted(usb3))
      invariant i >= 2 ==> MIN_PORTS <= cnt[1] <= Clamp(Wanted(usb2)) && (total == MAX_TOTAL_PORTS || cnt[1] == Clamp(Wanted(usb2)))
      invariant i < 2 ==> cnt[1] == Wanted(usb2)
      invariant i < 1 ==> cnt[0] == Wanted(usb3)
      invariant total == (if i >= 1 then cnt[0] else 0) + (if i >= 2 then cnt[1] else 0) && total <= MAX_TOTAL_PORTS
    {
      var n := if cnt[i] > MIN_PORTS then cnt[i] else MIN_PORTS;
      if n > MAX_PORTS {
        n := MAX_PORTS;
      }
      if total + n > MAX_TOTAL_PORTS {
        n := MAX_TOTAL_PORTS - total;
      }
      cnt[i] := n;
      total := total + n;
    }
    return cnt[1], cnt[0];
  }

  // ---- the table

  /** A device handle; zero is none. */
  type Handle = nat

  const NO_HANDLE: Handle := 0

  /** The part of device_ctx about the port. The reference count is that of the table; claimed and
      releases are history. */
  datatype Device = Device(speed: nat, port: nat, unplugged: bool, references: int, claimed: bool,
                           detaching: bool, releases: nat)

  datatype State = State(usb2Ports: nat, devices: seq<Handle>, contexts: map<Handle, Device>)

  function Begin(usb2Ports: nat, speed: nat): nat {
    if speed < SUPER_SPEED then 0 else usb2Ports
  }

  function End(usb2Ports: nat, devicesCnt: nat, speed: nat): nat {
    if speed < SUPER_SPEED then usb2Ports else devicesCnt
  }

  predicate InRange(s: State, i: nat, speed: nat) {
    Begin(s.usb2Ports, speed) <= i < End(s.usb2Ports, |s.devices|, speed)
  }

  /** The first free slot in [begin, end), or end. */
  function FirstFree(devices: seq<Handle>, begin: nat, end: nat): (i: nat)
    requires begin <= end <= |devices|
    ensures begin <= i <= end
    ensures forall k :: begin <= k < i ==> devices[k] != NO_HANDLE
    ensures i < end ==> devices[i] == NO_HANDLE
    decreases end - begin
  {
    if begin == end || devices[begin] == NO_HANDLE then begin else FirstFree(devices, begin + 1, end)
  }

  predicate WellFormed(s: State) {
    0 < s.usb2Ports < |s.devices| <= MAX_TOTAL_PORTS
  }

  function Slot(s: State, speed: nat): nat
    requires WellFormed(s)
  {
    FirstFree(s.devices, Begin(s.usb2Ports, speed), End(s.usb2Ports, |s.devices|, speed))
  }

  /** claim_roothub_port: the new state and the port, zero if there is none. */
  function Claim(s: State, h: Handle): (State, nat)
    requires WellFormed(s) && h in s.contexts
  {
    var d := s.contexts[h];
    var i := Slot(s, d.speed);
    if i == End(s.usb2Ports, |s.devices|, d.speed) then (s.(contexts := s.contexts[h := d.(claimed := true)]), 0)
    else (s.(devices := s.devices[i := h],
             contexts := s.contexts[h := d.(claimed := true, port := i + 1, references := d.references + 1)]), i + 1)
  }

  /** reclaim_roothub_port: the new state and the port that was released. */
  function Reclaim(s: State, h: Handle): (State, nat)
    requires h in s.contexts && s.contexts[h].port <= |s.devices|
  {
    var d := s.contexts[h];
    if d.port == 0 then (s, 0)
    else (s.(devices := s.devices[d.port - 1 := NO_HANDLE],
             contexts := s.contexts[h := d.(port := 0, references := d.references - 1, releases := d.releases + 1)]), d.port)
  }

  /** get_device: the device whose reference is returned. */
  function GetDevice(s: State, port: int): Handle {
    if 0 < port <= |s.devices| then s.devices[port - 1] else NO_HANDLE
  }

  // ---- the invariant

  ghost predicate Inv(s: State) {
    && WellFormed(s) && NO_HANDLE !in s.contexts
    && (forall i :: 0 <= i < |s.devices| && s.devices[i] != NO_HANDLE ==>
          s.devices[i] in s.contexts && s.contexts[s.devices[i]].port == i + 1 && InRange(s, i, s.contexts[s.devices[i]].speed))
    && (forall h :: h in s.contexts ==> DeviceInv(s, h, s.contexts[h]))
  }

  /** A device that has a port is in that slot, and the table holds one reference to it. A port that
      was claimed is held or was released once. */
  ghost predicate DeviceInv(s: State, h: Handle, d: Device) {
    && d.port <= |s.devices|
    && (d.port != 0 ==> s.devices[d.port - 1] == h)
    && d.references == (if d.port != 0 then 1 else 0)
    && d.releases + d.references <= (if d.claimed then 1 else 0)
    && (d.detaching ==> d.unplugged)
    && (d.unplugged && !d.detaching && d.claimed && d.releases == 0 ==> d.port == 0)
  }

  datatype Step =
    | Create(h: Handle, speed: nat)
    | ClaimPort(h: Handle)
    | SetUnplugged(h: Handle)  // detach begins; a second one stops here
    | ReleasePort(h: Handle)   // the detach that set the flag goes on
    | Delete(h: Handle)        // the framework frees an object nobody refers to; the handle may come back

  predicate Enabled(s: State, step: Step) {
    match step
    case Create(h, _) => h != NO_HANDLE && h !in s.contexts
    case ClaimPort(h) => h in s.contexts && !s.contexts[h].claimed && !s.contexts[h].unplugged
    case SetUnplugged(h) => h in s.contexts
    case ReleasePort(h) => h in s.contexts && s.contexts[h].detaching
    case Delete(h) => h in s.contexts && s.contexts[h].references == 0 && !s.contexts[h].detaching
  }

  /** The rest of a detach that set the flag. */
  function Release(s: State, h: Handle): State
    requires h in s.contexts && s.contexts[h].port <= |s.devices|
  {
    var t := Reclaim(s, h).0;
    t.(contexts := t.contexts[h := t.contexts[h].(detaching := false)])
  }

  function SetFlag(s: State, h: Handle): State
    requires h in s.contexts
  {
    var d := s.contexts[h];
    if d.unplugged then s else s.(contexts := s.contexts[h := d.(unplugged := true, detaching := true)])
  }

  ghost function Apply(s: State, step: Step): State
    requires Inv(s) && Enabled(s, step)
  {
    match step
    case Create(h, speed) => s.(contexts := s.contexts[h := Device(speed, 0, false, 0, false, false, 0)])
    case ClaimPort(h) => Claim(s, h).0
    case SetUnplugged(h) => SetFlag(s, h)
    case ReleasePort(h) => Release(s, h)
    case Delete(h) => s.(contexts := s.contexts - {h})
  }

  lemma {:induction false} ClaimKeepsInv(s: State, h: Handle)
    requires Inv(s) && h in s.contexts && !s.contexts[h].claimed && !s.contexts[h].unplugged
    ensures Inv(Claim(s, h).0)
  {
    hide FirstFree, InRange;
    var d := s.contexts[h];
    var i := Slot(s, d.speed);
    assert d.port == 0 by {
      assert DeviceInv(s, h, d);
    }
    FoundInRange(s, d.speed);
    if i == End(s.usb2Ports, |s.devices|, d.speed) {
      OneContext(s, s.devices, h, d.(claimed := true));
    } else {
      SlotTaken(s, h, i);
    }
  }

  lemma {:induction false} FoundInRange(s: State, speed: nat)
    requires WellFormed(s)
    ensures var i := Slot(s, speed);
      i < End(s.usb2Ports, |s.devices|, speed) ==> i < |s.devices| && s.devices[i] == NO_HANDLE && InRange(s, i, speed)
  {
  }

  /** The other devices stay where they are when one that has no port takes a free slot. */
  lemma {:induction false} SlotTaken(s: State, h: Handle, i: nat)
    requires Inv(s) && h in s.contexts && !s.contexts[h].claimed && !s.contexts[h].unplugged
    requires i < |s.devices| && s.devices[i] == NO_HANDLE && InRange(s, i, s.contexts[h].speed)
    ensures var d := s.contexts[h];
      Inv(s.(devices := s.devices[i := h],
             contexts := s.contexts[h := d.(claimed := true, port := i + 1, references := d.references + 1)]))
  {
    var d := s.contexts[h];
    assert DeviceInv(s, h, d) && d.port == 0;
    OneContext(s, s.devices[i := h], h, d.(claimed := true, port := i + 1, references := d.references + 1));
  }

  /** One slot and one device changed: the invariant is a matter of these. */
  lemma {:induction false} OneContext(s: State, devices: seq<Handle>, h: Handle, d: Device)
    requires Inv(s) && h in s.contexts && s.contexts[h].port == 0 && d.speed == s.contexts[h].speed
    requires |devices| == |s.devices| && forall i :: 0 <= i < |devices| ==>
      devices[i] == s.devices[i] || (s.devices[i] == NO_HANDLE && devices[i] == h && d.port == i + 1 && InRange(s, i, d.speed))
    requires var t := s.(devices := devices, contexts := s.contexts[h := d]); DeviceInv(t, h, d)
    ensures Inv(s.(devices := devices, contexts := s.contexts[h := d]))
  {
    var t := s.(devices := devices, contexts := s.contexts[h := d]);
    forall x | x in t.contexts ensures DeviceInv(t, x, t.contexts[x]) {
      assert x != h ==> DeviceInv(s, x, s.contexts[x]);
    }
    forall i | 0 <= i < |devices| && devices[i] != NO_HANDLE
      ensures devices[i] in t.contexts && t.contexts[devices[i]].port == i + 1 && InRange(t, i, t.contexts[devices[i]].speed)
    {
      assert devices[i] == s.devices[i] ==> s.contexts[devices[i]].port == i + 1;
    }
  }

  lemma {:induction false} ReclaimKeepsInv(s: State, h: Handle)
    requires Inv(s) && h in s.contexts && s.contexts[h].detaching
    ensures Inv(Release(s, h))
  {
    var t := Release(s, h);
    assert forall x :: x in t.contexts && x != h ==> t.contexts[x] == s.contexts[x];
    assert forall i :: 0 <= i < |t.devices| ==> t.devices[i] != h;
  }

  lemma {:induction false} StepKeepsInv(s: State, step: Step)
    requires Inv(s) && Enabled(s, step)
    ensures Inv(Apply(s, step))
  {
    match step
    case Create(h, speed) =>
    case ClaimPort(h) => ClaimKeepsInv(s, h);
    case SetUnplugged(h) =>
    case ReleasePort(h) => ReclaimKeepsInv(s, h);
    case Delete(h) =>
  }

  /** A release takes the device out of its slot and nothing else: the other slots and devices stay. The device has
      no port and no reference of the table any more. A device without a port is left alone. */
  lemma {:induction false} ReleasedSlot(s: State, h: Handle)
    requires Inv(s) && h in s.contexts
    ensures var (t, port) := Reclaim(s, h);
      && port == s.contexts[h].port && (port == 0 ==> t == s)
      && (port != 0 ==> s.devices[port - 1] == h && t.devices == s.devices[port - 1 := NO_HANDLE])
      && h in t.contexts && t.contexts == s.contexts[h := t.contexts[h]]
      && t.contexts[h].port == 0 && t.contexts[h].references == 0
      && t.contexts[h].unplugged == s.contexts[h].unplugged && t.contexts[h].speed == s.contexts[h].speed
      && forall i :: 0 <= i < |t.devices| ==> t.devices[i] != h
  {
    assert DeviceInv(s, h, s.contexts[h]);
  }

  // ---- what a detach does besides

  /** The calls that a detach makes, in order; the slot is zero if the device had no port. */
  datatype Effect = CloseSocket | JoinThread | ReleaseSlot(port: nat) | PlugOutAndDelete | DeleteObject | StartAttach

  function DetachEffects(port: nat, plugOut: bool, plugOutFails: bool, endpointAdded: bool, reattach: bool): seq<Effect> {
    var released := [CloseSocket, JoinThread, ReleaseSlot(port)];
    var pluggedOut := if plugOut then released + [PlugOutAndDelete] else released;
    var deleted := if plugOut && !plugOutFails && !endpointAdded then pluggedOut + [DeleteObject] else pluggedOut;
    if reattach then deleted + [StartAttach] else deleted
  }

  /** What connected does to a device that it could not plug in. */
  function FailureEffects(port: nat, plugged: bool, plugOutFails: bool, endpointAdded: bool): seq<Effect> {
    var detached := DetachEffects(port, plugged, plugOutFails, endpointAdded, false);
    if plugged then detached else detached + [DeleteObject]
  }

  predicate Disposes(e: Effect) {
    e.PlugOutAndDelete? || e.DeleteObject?
  }

  /** The slot is released at position i and nowhere else: after the socket was closed and the thread joined,
      and before anything that disposes of the device or attaches it again. */
  ghost predicate ReleasedAt(effects: seq<Effect>, port: nat, i: nat) {
    && i < |effects| && effects[i] == ReleaseSlot(port)
    && forall j :: 0 <= j < |effects| && j != i ==>
         && !effects[j].ReleaseSlot?
         && (effects[j].CloseSocket? || effects[j].JoinThread? ==> j < i)
         && (Disposes(effects[j]) || effects[j].StartAttach? ==> i < j)
  }

  ghost predicate ReleasedOnce(effects: seq<Effect>, port: nat) {
    exists i :: ReleasedAt(effects, port, i)
  }

  lemma DetachReleasesOnce(port: nat, plugOut: bool, plugOutFails: bool, endpointAdded: bool, reattach: bool)
    ensures ReleasedOnce(DetachEffects(port, plugOut, plugOutFails, endpointAdded, reattach), port)
  {
    assert ReleasedAt(DetachEffects(port, plugOut, plugOutFails, endpointAdded, reattach), port, 2);
  }

  /** How often a call is made. */
  function Times(effects: seq<Effect>, e: Effect): nat {
    multiset(effects)[e]
  }

  /** A detach closes the socket first and joins the thread next, each once. It plugs out if the device was plugged
      in; it deletes the object if plugging out worked and no endpoint was ever added; it attaches again, last, if
      this was asked for; and nothing else. */
  lemma DetachDoes(port: nat, plugOut: bool, plugOutFails: bool, endpointAdded: bool, reattach: bool)
    ensures var e := DetachEffects(port, plugOut, plugOutFails, endpointAdded, reattach);
      && e[..3] == [CloseSocket, JoinThread, ReleaseSlot(port)]
      && Times(e, CloseSocket) == 1 && Times(e, JoinThread) == 1
      && Times(e, PlugOutAndDelete) == (if plugOut then 1 else 0)
      && Times(e, DeleteObject) == (if plugOut && !plugOutFails && !endpointAdded then 1 else 0)
      && Times(e, StartAttach) == (if reattach then 1 else 0)
      && (reattach ==> e[|e| - 1] == StartAttach)
      && |e| == 3 + Times(e, PlugOutAndDelete) + Times(e, DeleteObject) + Times(e, StartAttach)
  {
    hide Times;
    var released := [CloseSocket, JoinThread, ReleaseSlot(port)];
    var pluggedOut := if plugOut then released + [PlugOutAndDelete] else released;
    var deleted := if plugOut && !plugOutFails && !endpointAdded then pluggedOut + [DeleteObject] else pluggedOut;
    TimesReleased(port);
    TimesAppend(released, PlugOutAndDelete);
    TimesAppend(pluggedOut, DeleteObject);
    TimesAppend(deleted, StartAttach);
  }

  lemma TimesReleased(port: nat)
    ensures forall e :: Times([CloseSocket, JoinThread, ReleaseSlot(port)], e)
                     == if e == CloseSocket || e == JoinThread || e == ReleaseSlot(port) then 1 else 0
  {
  }

  lemma TimesAppend(effects: seq<Effect>, x: Effect)
    ensures forall e :: Times(effects + [x], e) == Times(effects, e) + if e == x then 1 else 0
  {
  }

  /** A failed plug-in plugs the device out exactly if it had been plugged in, and deletes the object itself if not. */
  lemma FailedPlugInDoes(port: nat, plugged: bool, plugOutFails: bool, endpointAdded: bool)
    ensures var e := FailureEffects(port, plugged, plugOutFails, endpointAdded);
      && e[..3] == [CloseSocket, JoinThread, ReleaseSlot(port)]
      && Times(e, CloseSocket) == 1 && Times(e, JoinThread) == 1 && Times(e, StartAttach) == 0
      && Times(e, PlugOutAndDelete) == (if plugged then 1 else 0)
      && Times(e, DeleteObject) == (if plugged && (plugOutFails || endpointAdded) then 0 else 1)
  {
    DetachDoes(port, plugged, plugOutFails, endpointAdded, false);
  }

  /** A device that could not be plugged in is always disposed of, and this comes last. */
  ghost predicate DisposedLast(effects: seq<Effect>) {
    effects != [] && Disposes(effects[|effects| - 1])
  }

  lemma FailedPlugInDisposes(port: nat, plugged: bool, plugOutFails: bool, endpointAdded: bool)
    ensures ReleasedOnce(FailureEffects(port, plugged, plugOutFails, endpointAdded), port)
    ensures DisposedLast(FailureEffects(port, plugged, plugOutFails, endpointAdded))
  {
    assert ReleasedAt(FailureEffects(port, plugged, plugOutFails, endpointAdded), port, 2);
  }

  /** All slots for devices of this speed are taken. */
  ghost predicate RangeIsFull(s: State, speed: nat) {
    forall i :: 0 <= i < |s.devices| && InRange(s, i, speed) ==> s.devices[i] != NO_HANDLE
  }

  /** No device but h is created, deleted or changed. */
  predicate OthersStay(before: map<Handle, Device>, after: map<Handle, Device>, h: Handle) {
    after.Keys == before.Keys && forall x :: x in before && x != h ==> after[x] == before[x]
  }

  lemma OthersStayTwice(a: map<Handle, Device>, b: map<Handle, Device>, c: map<Handle, Device>, h: Handle)
    requires OthersStay(a, b, h) && OthersStay(b, c, h)
    ensures OthersStay(a, c, h)
  {
  }

  lemma ClaimLeavesOthers(s: State, h: Handle)
    requires WellFormed(s) && h in s.contexts
    ensures OthersStay(s.contexts, Claim(s, h).0.contexts, h)
  {
    hide FirstFree;
  }

  /** What the first detach of a device does to the table and the devices. */
  lemma DetachedState(s: State, h: Handle)
    requires Inv(s) && h in s.contexts && !s.contexts[h].detaching && !s.contexts[h].unplugged
    ensures s.contexts[h].port <= |s.devices|
    ensures var t, port := Release(SetFlag(s, h), h), s.contexts[h].port;
      && Inv(t) && OthersStay(s.contexts, t.contexts, h)
      && h in t.contexts && t.contexts[h].unplugged && !t.contexts[h].detaching
      && t.contexts[h].port == 0 && t.contexts[h].references == 0
      && (port != 0 ==> t.devices == s.devices[port - 1 := NO_HANDLE]) && (port == 0 ==> t.devices == s.devices)
      && Reclaim(SetFlag(s, h), h).1 == port
  {
    var u := SetFlag(s, h);
    FlagKeepsInv(s, h);
    ReleasedSlot(u, h);
    hide Inv, Reclaim;
    ReclaimKeepsInv(u, h);
  }

  lemma FlagKeepsInv(s: State, h: Handle)
    requires Inv(s) && h in s.contexts
    ensures Inv(SetFlag(s, h)) && s.contexts[h].port <= |s.devices|
  {
    assert DeviceInv(s, h, s.contexts[h]);
    StepKeepsInv(s, SetUnplugged(h));
  }

  // ---- the methods

  class Vhci {
    const usb2Ports: nat
    const devices: array<Handle>
    var contexts: map<Handle, Device>

    ghost function View(): State
      reads this, devices
    {
      State(usb2Ports, devices[..], contexts)
    }

    /** alloc_devices zeroes the table. */
    constructor (usb2Ports: nat, usb3Ports: nat)
      requires usb2Ports >= MIN_PORTS && usb3Ports >= MIN_PORTS && usb2Ports + usb3Ports <= MAX_TOTAL_PORTS
      ensures Inv(View()) && contexts == map[] && this.usb2Ports == usb2Ports && fresh(devices)
    {
      this.usb2Ports := usb2Ports;
      devices := new Handle[usb2Ports + usb3Ports](_ => NO_HANDLE);
      contexts := map[];
    }

    /** claim_roothub_port */
    method ClaimRoothubPort(h: Handle) returns (port: nat)
      requires WellFormed(View()) && h in contexts
      modifies devices, this`contexts
      ensures WellFormed(old(View())) && (View(), port) == Claim(old(View()), h)
    {
      port := 0;
      var d := contexts[h];
      ghost var slot := Slot(View(), d.speed);
      var begin := if d.speed < SUPER_SPEED then 0 else usb2Ports;
      var end := if d.speed < SUPER_SPEED then usb2Ports else devices.Length;
      contexts := contexts[h := d.(claimed := true)];
      var i := begin;
      while i < end
        invariant begin <= i <= end && port == 0
        invariant devices[..] == old(devices[..])
        invariant contexts == old(contexts)[h := d.(claimed := true)]
        invariant slot == FirstFree(old(devices[..]), i, end)
      {
        if devices[i] == NO_HANDLE {
          devices[i] := h;
          port := i + 1;
          contexts := contexts[h := d.(claimed := true, port := port, references := d.references + 1)];
          assert contexts == old(contexts)[h := d.(claimed := true, port := port, references := d.references + 1)];
          assert devices[..] == old(devices[..])[i := h];
          break;
        }
        i := i + 1;
      }
    }

    /** reclaim_roothub_port */
    method ReclaimRoothubPort(h: Handle) returns (port: nat)
      requires h in contexts && contexts[h].port <= devices.Length
      modifies devices, this`contexts
      ensures old(h in contexts && contexts[h].port <= |devices[..]|) && (View(), port) == Reclaim(old(View()), h)
    {
      port := 0;
      var d := contexts[h];
      if d.port != 0 {
        port := d.port;
        devices[d.port - 1] := NO_HANDLE;
        contexts := contexts[h := d.(port := 0)];
      }
      if port != 0 {
        contexts := contexts[h := d.(port := 0, references := d.references - 1, releases := d.releases + 1)];
        assert contexts == old(contexts)[h := contexts[h]];
        assert devices[..] == old(devices[..])[port - 1 := NO_HANDLE];
      }
    }

    /** get_device */
    method Get(port: int) returns (h: Handle)
      requires Inv(View())
      ensures h == GetDevice(View(), port)
      ensures h != NO_HANDLE ==> h in contexts && contexts[h].port == port
    {
      h := NO_HANDLE;
      if !(0 < port <= devices.Length) {
        return;
      }
      h := devices[port - 1];
    }

    /** detach. A second one finds the flag set and does nothing. */
    method Detach(h: Handle, plugOut: bool, plugOutFails: bool, endpointAdded: bool, reattach: bool)
      returns (port: nat, effects: seq<Effect>)
      requires Inv(View()) && h in contexts && !contexts[h].detaching
      modifies devices, this`contexts
      ensures Inv(View()) && h in contexts && contexts[h].unplugged && !contexts[h].detaching
      ensures old(contexts[h].unplugged) ==> port == 0 && effects == [] && View() == old(View())
      ensures !old(contexts[h].unplugged) ==>
        && port == old(contexts[h].port) && contexts[h].port == 0 && contexts[h].references == 0
        && effects == DetachEffects(port, plugOut, plugOutFails, endpointAdded, reattach)
        && ReleasedOnce(effects, port)
      ensures port != 0 ==> devices[..] == old(devices[..])[port - 1 := NO_HANDLE]
      ensures port == 0 ==> devices[..] == old(devices[..])
      ensures OthersStay(old(contexts), contexts, h)
    {
      hide ReleasedOnce;
      port, effects := 0, [];
      if contexts[h].unplugged {
        return;
      }
      hide OthersStay, Inv, Reclaim;
      DetachedState(View(), h);
      contexts := contexts[h := contexts[h].(unplugged := true, detaching := true)];
      port := ReclaimRoothubPort(h); // the socket was closed and the thread joined
      effects := [CloseSocket, JoinThread, ReleaseSlot(port)];
      contexts := contexts[h := contexts[h].(detaching := false)];
      if plugOut {
        effects := effects + [PlugOutAndDelete];
        if !plugOutFails && !endpointAdded {
          effects := effects + [DeleteObject];
        }
      }
      if reattach {
        effects := effects + [StartAttach];
      }
      DetachReleasesOnce(port, plugOut, plugOutFails, endpointAdded, reattach);
    }

    /** plugin */
    method Plugin(h: Handle, plugIn: bool, threadStarts: bool) returns (success: bool, plugged: bool, port: nat)
      requires WellFormed(View()) && h in contexts
      modifies devices, this`contexts
      ensures WellFormed(old(View())) && (View(), port) == Claim(old(View()), h)
      ensures plugged <==> port != 0 && plugIn
      ensures success <==> plugged && threadStarts
    {
      port := ClaimRoothubPort(h);
      plugged := port != 0 && plugIn;
      success := plugged && threadStarts;
    }

    /** connected, from the new device on: when the plug-in fails, its port is free again. */
    method Connected(h: Handle, plugIn: bool, threadStarts: bool, plugOutFails: bool, endpointAdded: bool)
      returns (success: bool, port: nat, effects: seq<Effect>)
      requires Inv(View()) && h in contexts && !contexts[h].claimed && !contexts[h].unplugged
      modifies devices, this`contexts
      ensures Inv(View()) && h in contexts
      ensures OthersStay(old(contexts), contexts, h)
      ensures success <==> port != 0 && plugIn && threadStarts
      ensures port == 0 <==> RangeIsFull(old(View()), old(contexts[h].speed))
      ensures success ==> contexts[h].port == port && devices[..] == old(devices[..])[port - 1 := h] && effects == []
      ensures !success ==> contexts[h].port == 0 && contexts[h].references == 0 && devices[..] == old(devices[..])
      ensures !success ==>
        && effects == FailureEffects(port, port != 0 && plugIn, plugOutFails, endpointAdded)
        && ReleasedOnce(effects, port) && DisposedLast(effects)
    {
      ghost var was := View();
      ClaimedState(was, h);
      hide ReleasedOnce, DisposedLast, OthersStay, DetachEffects, Claim, RangeIsFull, Inv, WellFormed;
      var plugged;
      success, plugged, port := Plugin(h, plugIn, threadStarts);
      ghost var claimed := contexts;
      effects := [];
      if !success {
        var _, e := Detach(h, plugged, plugOutFails, endpointAdded, false);
        effects := e;
        if !plugged {
          effects := effects + [DeleteObject];
        }
        FailedPlugInDisposes(port, plugged, plugOutFails, endpointAdded);
        PutAndTaken(was.devices, port, h);
        OthersStayTwice(was.contexts, claimed, contexts, h);
      }
    }
  }

  /** What the plug-in of a new device does to the table and the devices. */
  lemma ClaimedState(s: State, h: Handle)
    requires Inv(s) && h in s.contexts && !s.contexts[h].claimed && !s.contexts[h].unplugged
    ensures WellFormed(s)
    ensures var (t, port) := Claim(s, h);
      && Inv(t) && OthersStay(s.contexts, t.contexts, h)
      && h in t.contexts && t.contexts[h].port == port && !t.contexts[h].unplugged && !t.contexts[h].detaching
      && (port == 0 <==> RangeIsFull(s, s.contexts[h].speed)) && port <= |s.devices|
      && (port == 0 ==> t.devices == s.devices)
      && (port != 0 ==> s.devices[port - 1] == NO_HANDLE && t.devices == s.devices[port - 1 := h])
  {
    assert DeviceInv(s, h, s.contexts[h]);
    hide FirstFree, InRange, RangeIsFull, DeviceInv;
    ClaimKeepsInv(s, h);
    ClaimedSlot(s, h);
    ClaimLeavesOthers(s, h);
  }

  lemma PutAndTaken(devices: seq<Handle>, port: nat, h: Handle)
    requires 0 < port <= |devices| ==> devices[port - 1] == NO_HANDLE
    ensures 0 < port <= |devices| ==> devices[port - 1 := h][port - 1 := NO_HANDLE] == devices
  {
  }

  /** The claim takes the first free slot of the range of the speed; it fails only if all are taken. */
  lemma {:induction false} ClaimedSlot(s: State, h: Handle)
    requires Inv(s) && h in s.contexts
    ensures var (t, port) := Claim(s, h);
      && (port == 0 <==> RangeIsFull(s, s.contexts[h].speed))
      && (port != 0 ==>
        && port <= |s.devices| && InRange(s, port - 1, s.contexts[h].speed) && s.devices[port - 1] == NO_HANDLE
        && t.devices == s.devices[port - 1 := h]
        && forall i :: 0 <= i < port - 1 && InRange(s, i, s.contexts[h].speed) ==> s.devices[i] != NO_HANDLE)
      && (port == 0 ==> t.devices == s.devices) 
      && h in t.contexts && t.contexts == s.contexts[h := t.contexts[h]]
      && t.contexts[h] == (
           if port == 0 then s.contexts[h].(claimed := true)
           else s.contexts[h].(claimed := true, port := port, references := s.contexts[h].references + 1))
  {
    var speed := s.contexts[h].speed;
    var i := Slot(s, speed);
    assert i < End(s.usb2Ports, |s.devices|, speed) ==> InRange(s, i, speed);
  }

  /** Both ranges of ports are non-empty, and they share the table between them: a device below super speed (5)
      gets one of the USB 2 ports, which come first, any other one of the rest. */
  lemma RangesSplitTheTable(s: State, low: nat, high: nat, i: nat)
    requires WellFormed(s) && low < 5 <= high && i < |s.devices|
    ensures InRange(s, i, low) <==> i < s.usb2Ports
    ensures InRange(s, i, low) <==> !InRange(s, i, high)
    ensures InRange(s, 0, low) && InRange(s, |s.devices| - 1, high)
  {
  }

  // ---- runs

  function Empty(n: nat): (devices: seq<Handle>)
    ensures |devices| == n && forall i :: 0 <= i < n ==> devices[i] == NO_HANDLE
  {
    if n == 0 then [] else Empty(n - 1) + [NO_HANDLE]
  }

  /** The table after alloc_devices. */
  function Init(usb2Ports: nat, usb3Ports: nat): (s: State)
    requires usb2Ports >= MIN_PORTS && usb3Ports >= MIN_PORTS && usb2Ports + usb3Ports <= MAX_TOTAL_PORTS
    ensures Inv(s)
  {
    State(usb2Ports, Empty(usb2Ports + usb3Ports), map[])
  }

  /** The steps are enabled, each in its turn. */
  ghost predicate Runs(s: State, steps: seq<Step>)
    requires Inv(s)
    decreases |steps|
  {
    steps == [] || (
      Enabled(s, steps[0]) && (
        StepKeepsInv(s, steps[0]);
        Runs(Apply(s, steps[0]), steps[1..])))
  }

  ghost function After(s: State, steps: seq<Step>): State
    requires Inv(s) && Runs(s, steps)
    decreases |steps|
  {
    if steps == [] then s
    else
      StepKeepsInv(s, steps[0]);
      After(Apply(s, steps[0]), steps[1..])
  }

  lemma {:induction false} RunKeepsInv(s: State, steps: seq<Step>)
    requires Inv(s) && Runs(s, steps)
    ensures Inv(After(s, steps))
    ensures |After(s, steps).devices| == |s.devices| && After(s, steps).usb2Ports == s.usb2Ports
    decreases |steps|
  {
    if steps != [] {
      StepKeepsInv(s, steps[0]);
      RunKeepsInv(Apply(s, steps[0]), steps[1..]);
    }
  }

  /** On every run from the empty table, however claims, detaches and deletions interleave: slot p - 1
      holds a device exactly if its port is p; it is in the range of its speed; the table holds one
      reference to a device in a slot and none to another; a port is released at most once. */
  lemma {:induction false} EveryRun(usb2Ports: nat, usb3Ports: nat, steps: seq<Step>, h: Handle, p: nat)
    requires usb2Ports >= MIN_PORTS && usb3Ports >= MIN_PORTS && usb2Ports + usb3Ports <= MAX_TOTAL_PORTS
    requires Runs(Init(usb2Ports, usb3Ports), steps)
    requires h in After(Init(usb2Ports, usb3Ports), steps).contexts && 1 <= p <= usb2Ports + usb3Ports
    ensures var t := After(Init(usb2Ports, usb3Ports), steps);
      && |t.devices| == usb2Ports + usb3Ports && t.usb2Ports == usb2Ports
      && (t.devices[p - 1] == h <==> t.contexts[h].port == p)
      && (t.contexts[h].port == p ==> InRange(t, p - 1, t.contexts[h].speed) && t.contexts[h].references == 1)
      && (t.contexts[h].port == 0 ==> t.contexts[h].references == 0)
      && t.contexts[h].releases <= 1
      && (GetDevice(t, p) == h <==> t.contexts[h].port == p)
      && (GetDevice(t, p) != NO_HANDLE ==> GetDevice(t, p) in t.contexts && t.contexts[GetDevice(t, p)].port == p)
  {
    RunKeepsInv(Init(usb2Ports, usb3Ports), steps);
    var t := After(Init(usb2Ports, usb3Ports), steps);
    assert DeviceInv(t, h, t.contexts[h]);
  }
}
