/** The descriptor snapshot of an imported device: taken before the device is plugged in, against
    whatever the server answers, registered with the emulated controller and released
    (drivers/ude/device_filter.cpp, drivers/ude/device.cpp, drivers/ude/context.cpp). */
module DeviceFilter {
  import opened Words
  import opened DescriptorParser
  import opened DescriptorPatch
  import FilterPolicy

  const DEVICE_SIZE := 18
  const DEVICE_TYPE := 1
  const RET_SUBMIT := 3
  const COMPOSITE := 0xEF

  // ---- the server

  /** The answer to one GET_DESCRIPTOR: what arrives before the connection is closed, if anything. */
  datatype Reply = NoReply | Reply(command: int, status: int, actualLength: int, payload: seq<byte>)

  /** The bytes that get_descriptor reads when it asks for len of them. */
  function Received(r: Reply, len: nat): (got: Option<seq<byte>>)
    ensures got.Some? ==> |got.value| <= len
  {
    if r.NoReply? || r.command != RET_SUBMIT || r.status != 0 then None
    else if r.actualLength < 0 || r.actualLength > len || r.actualLength > |r.payload| then None
    else Some(r.payload[..r.actualLength])
  }

  /** The server's answer to the request with that sequence number; they start from one. */
  function Answer(server: seq<Reply>, seqnum: nat): Reply {
    if 1 <= seqnum <= |server| then server[seqnum - 1] else NoReply
  }

  /** What OP_REP_IMPORT said about the device. */
  datatype Identity = Identity(vendor: uint16, product: uint16, release: uint16,
                               cls: byte, subcls: byte, protocol: byte, configurations: byte)

  function IdentityOf(d: seq<byte>): Identity
    requires |d| == DEVICE_SIZE
  {
    Identity(LittleEndian(d[8], d[9]), LittleEndian(d[10], d[11]), LittleEndian(d[12], d[13]), d[4], d[5], d[6], d[17])
  }

  function AllowedBy(p: FilterPolicy.Policy): Policy
    requires p.count <= FilterPolicy.CAPACITY
  {
    (i: Interface) => FilterPolicy.Allows(p, i.cls, i.subcls, i.protocol)
  }

  // ---- what passes the filter

  /** The class of the device as a whole is allowed, unless it means "look at the interfaces". */
  predicate ClassPasses(p: FilterPolicy.Policy, udev: Identity)
    requires p.count <= FilterPolicy.CAPACITY
  {
    udev.cls == 0 || udev.cls == COMPOSITE || FilterPolicy.Allows(p, udev.cls, udev.subcls, udev.protocol)
  }

  predicate DevicePasses(server: seq<Reply>, udev: Identity) {
    var got := Received(Answer(server, 1), DEVICE_SIZE);
    && got.Some? && |got.value| == DEVICE_SIZE && got.value[0] == DEVICE_SIZE && got.value[1] == DEVICE_TYPE
    && IdentityOf(got.value) == udev
  }

  /** A generated serial number needs a string index. */
  function WithSerial(d: seq<byte>, hasSerial: bool): seq<byte>
    requires |d| == DEVICE_SIZE
  {
    if hasSerial && d[16] == 0 then d[16 := 0xFF] else d
  }

  predicate HeadPasses(head: Option<seq<byte>>) {
    && head.Some? && |head.value| == CONFIGURATION_SIZE
    && head.value[0] == CONFIGURATION_SIZE && head.value[1] == CONFIGURATION_TYPE
    && LittleEndian(head.value[2], head.value[3]) > head.value[0]
  }

  /** All bytes of configuration i, as the server sent them. */
  function Body(server: seq<Reply>, i: nat): Option<seq<byte>> {
    var head := Received(Answer(server, 2 * i + 2), CONFIGURATION_SIZE);
    if !HeadPasses(head) then None
    else
      var total := LittleEndian(head.value[2], head.value[3]);
      var full := Received(Answer(server, 2 * i + 3), total);
      if full.Some? && |full.value| == total then full else None
  }

  predicate ConfigurationPasses(server: seq<Reply>, i: nat, allowed: Policy) {
    Body(server, i).Some? && Evaluate(Body(server, i).value, allowed).error == Valid
  }

  /** The first n configurations pass, and there is memory for them. */
  predicate FirstPass(server: seq<Reply>, n: nat, allowed: Policy, noMemory: set<nat>) {
    forall i: nat :: i < n ==> ConfigurationPasses(server, i, allowed) && i + 1 !in noMemory
  }

  /** The device passes the filter; noMemory names the allocations that fail: 0 is the table of
      configurations, i + 1 is the buffer of configuration i. */
  predicate Passes(server: seq<Reply>, p: FilterPolicy.Policy, udev: Identity, noMemory: set<nat>)
    requires p.count <= FilterPolicy.CAPACITY
  {
    && ClassPasses(p, udev) && udev.configurations != 0 && DevicePasses(server, udev)
    && 0 !in noMemory && FirstPass(server, udev.configurations, AllowedBy(p), noMemory)
  }

  // ---- the snapshot

  /** configuration_descriptor_snapshot */
  datatype Config = Config(data: array?<byte>, length: nat)

  datatype Registered = DeviceDescriptor(bytes: seq<byte>) | ConfigurationDescriptor(index: nat, data: seq<byte>)

  datatype Status = Success | DeviceFiltered | InvalidDeviceState | Refused

  function Blocks(cs: seq<Config>): set<object> {
    if cs == [] then {}
    else (if cs[0].data == null then {} else {cs[0].data as object}) + Blocks(cs[1..])
  }

  predicate Unshared(cs: seq<Config>) {
    forall i, j :: 0 <= i < j < |cs| && cs[i].data != null ==> cs[i].data != cs[j].data
  }

  lemma {:induction false} NoBlocks(cs: seq<Config>)
    requires forall k :: 0 <= k < |cs| ==> cs[k].data == null
    ensures Blocks(cs) == {}
  {
    if cs != [] {
      NoBlocks(cs[1..]);
    }
  }

  lemma {:induction false} BlockAdded(cs: seq<Config>, i: nat, c: Config)
    requires i < |cs| && cs[i].data == null && c.data != null
    ensures Blocks(cs[i := c]) == Blocks(cs) + {c.data}
  {
    if i > 0 {
      BlockAdded(cs[1..], i - 1, c);
      assert cs[i := c][1..] == cs[1..][i - 1 := c];
    } else {
      assert cs[i := c][1..] == cs[1..];
    }
  }

  /** device_ctx_ext. Pool memory is counted by the ghost set of blocks that are allocated and
      not yet freed. */
  class DeviceExt {
    const speed: nat
    const hasSerial: bool
    var iserial: byte
    var device: seq<byte>
    var configurations: array?<Config>
    var configurationCount: nat
    var ready: bool
    ghost var live: set<object>

    /** The live blocks are exactly those of the snapshot, and none is shared. */
    ghost predicate Owned()
      reads this, configurations
    {
      if configurations == null then live == {} && !ready
      else
        && configurations.Length == configurationCount
        && Unshared(configurations[..])
        && live == {configurations as object} + Blocks(configurations[..])
    }

    /** alloc_device_ctx_ext zeroes the memory. */
    constructor (speed: nat, hasSerial: bool)
      ensures Owned() && !ready && configurations == null
      ensures this.speed == speed && this.hasSerial == hasSerial
    {
      this.speed, this.hasSerial := speed, hasSerial;
      iserial, device, configurations, configurationCount, ready, live := 0, [], null, 0, false, {};
    }

    /** snapshot_device_descriptor */
    method SnapshotDeviceDescriptor(server: seq<Reply>, seqnum: nat, udev: Identity) returns (status: Status, next: nat)
      requires seqnum == 1
      modifies this`device, this`iserial
      ensures next == seqnum + 1
      ensures status == if DevicePasses(server, udev) then Success else DeviceFiltered
      ensures status == Success ==> DeviceTaken(server)
      ensures !hasSerial ==> iserial == old(iserial)
    {
      next := seqnum + 1;
      var got := Received(Answer(server, seqnum), DEVICE_SIZE);
      if got.None? {
        return DeviceFiltered, next;
      }
      var d := got.value;
      if |d| != DEVICE_SIZE || d[0] != DEVICE_SIZE || d[1] != DEVICE_TYPE {
        return DeviceFiltered, next;
      }
      if IdentityOf(d) != udev {
        return DeviceFiltered, next;
      }
      if hasSerial {
        if d[16] == 0 {
          d := d[16 := 0xFF];
        }
        iserial := d[16];
      }
      device := d;
      return Success, next;
    }

    /** check_configuration; memory says whether the allocation succeeds. The snapshot is assigned
        on success only. */
    method CheckConfiguration(server: seq<Reply>, seqnum: nat, allowed: Policy, i: nat, memory: bool)
      returns (status: Status, next: nat, snapshot: Config)
      requires seqnum == 2 * i + 2
      modifies this`live
      ensures status == if ConfigurationPasses(server, i, allowed) && memory then Success else DeviceFiltered
      ensures status != Success ==> live == old(live)
      ensures status == Success ==>
        && next == seqnum + 2
        && snapshot.data != null && fresh(snapshot.data) && live == old(live) + {snapshot.data}
        && Taken(snapshot, server, i)
    {
      next, snapshot := seqnum + 1, Config(null, 0);
      var head := Received(Answer(server, seqnum), CONFIGURATION_SIZE);
      if head.None? {
        return DeviceFiltered, next, snapshot;
      }
      var h := head.value;
      if |h| < CONFIGURATION_SIZE || h[0] != CONFIGURATION_SIZE || h[1] != CONFIGURATION_TYPE || LittleEndian(h[2], h[3]) <= h[0] {
        return DeviceFiltered, next, snapshot;
      }
      var total := LittleEndian(h[2], h[3]);
      if !memory {
        return DeviceFiltered, next, snapshot;
      }
      var buf := new byte[total](_ => 0);
      live := live + {buf};
      next := next + 1;
      var full := Received(Answer(server, seqnum + 1), total);
      if full.None? || |full.value| < total {
        live := live - {buf};
        return DeviceFiltered, next, snapshot;
      }
      forall k | 0 <= k < total {
        buf[k] := full.value[k];
      }
      assert buf[..] == full.value;
      var result := EvaluateConfiguration(buf[..], allowed);
      if result.error != Valid {
        live := live - {buf};
        return DeviceFiltered, next, snapshot;
      }
      HeaderPassed(buf[..], allowed);
      Patch(buf, speed);
      return Success, next, Config(buf, total);
    }

    predicate Blank()
      reads this
    {
      configurations == null && configurationCount == 0 && !ready
    }

    /** check_device */
    method CheckDevice(server: seq<Reply>, value: FilterPolicy.RegistryValue, udev: Identity, noMemory: set<nat>)
      returns (status: Status)
      requires Owned() && Blank()
      modifies this
      ensures Owned()
      ensures ready <==> status == Success
      ensures status != Success ==> status == DeviceFiltered
      ensures status == Success <==> Passes(server, FilterPolicy.Loaded(value), udev, noMemory)
      ensures ready ==> Snapshot(server, udev)
    {
      hide DevicePasses, FirstPass, DeviceTaken, Body, Patched, FilterPolicy.Allows, FilterPolicy.Zeroed, FilterPolicy.Loaded;
      var p := FilterPolicy.Load(value, FilterPolicy.Zeroed(FilterPolicy.POLICY_SIZE));
      if udev.cls != 0 && udev.cls != COMPOSITE {
        if !FilterPolicy.Allows(p, udev.cls, udev.subcls, udev.protocol) {
          return DeviceFiltered;
        }
      }
      if udev.configurations == 0 {
        return DeviceFiltered;
      }
      var seqnum;
      status, seqnum := SnapshotDeviceDescriptor(server, 1, udev);
      if status != Success {
        return;
      }
      if 0 in noMemory {
        return DeviceFiltered;
      }
      configurations := new Config[udev.configurations](_ => Config(null, 0));
      configurationCount := udev.configurations;
      live := live + {configurations};
      NoBlocks(configurations[..]);
      status := CheckConfigurations(server, seqnum, AllowedBy(p), noMemory);
      if status != Success {
        return;
      }
      ready := true;
      assert forall i :: 0 <= i < configurationCount ==> Taken(configurations[i], server, i);
    }

    /** The loop of check_device over the configurations. */
    method CheckConfigurations(server: seq<Reply>, seqnum: nat, allowed: Policy,
                               noMemory: set<nat>) returns (status: Status)
      requires Owned() && configurations != null && !ready && seqnum == 2
      requires forall k :: 0 <= k < configurationCount ==> configurations[k] == Config(null, 0)
      modifies this`live, configurations
      ensures Owned()
      ensures status == Success || status == DeviceFiltered
      ensures status == Success <==> FirstPass(server, configurationCount, allowed, noMemory)
      ensures status == Success ==> forall k :: 0 <= k < configurationCount ==> Taken(configurations[k], server, k)
    {
      hide Body, Patched, Evaluate, ConfigurationPasses;
      var next := seqnum;
      for i := 0 to configurationCount
        invariant Owned() && next == 2 * i + 2
        invariant FirstPass(server, i, allowed, noMemory)
        invariant forall k :: 0 <= k < i ==> Taken(configurations[k], server, k)
        invariant forall k :: i <= k < configurationCount ==> configurations[k] == Config(null, 0)
      {
        var snapshot;
        status, next, snapshot := CheckConfiguration(server, next, allowed, i, i + 1 !in noMemory);
        if status != Success {
          assert !(ConfigurationPasses(server, i, allowed) && i + 1 !in noMemory);
          return;
        }
        BlockAdded(configurations[..], i, snapshot);
        configurations[i] := snapshot;
      }
      return Success;
    }

    ghost predicate DeviceTaken(server: seq<Reply>)
      reads this`device, this`iserial
    {
      var got := Received(Answer(server, 1), DEVICE_SIZE);
      && got.Some? && |got.value| == DEVICE_SIZE
      && device == WithSerial(got.value, hasSerial)
      && (hasSerial ==> iserial == device[16])
    }

    /** The entry holds the patched image of what the server sent as configuration i. */
    ghost predicate Taken(c: Config, server: seq<Reply>, i: nat)
      reads c.data
    {
      && Body(server, i).Some?
      && c.data != null && c.length == c.data.Length
      && c.data[..] == Patched(Body(server, i).value, speed)
    }

    ghost predicate Snapshot(server: seq<Reply>, udev: Identity)
      reads this, configurations, if configurations != null then set i | 0 <= i < configurations.Length :: configurations[i].data else {}
    {
      && configurations != null && configurations.Length == configurationCount == udev.configurations
      && DevicePasses(server, udev) && DeviceTaken(server)
      && forall i :: 0 <= i < configurationCount ==> Taken(configurations[i], server, i)
    }

    // ---- registration

    /** What is to be registered before configuration i. */
    ghost predicate RegisteredUpTo(registered: seq<Registered>, i: nat)
      reads this, configurations, if configurations != null then set k | 0 <= k < configurations.Length :: configurations[k].data else {}
    {
      && configurations != null && |registered| == i + 1 && i <= configurations.Length
      && registered[0] == DeviceDescriptor(device)
      && forall k :: 0 <= k < i ==> (
        && configurations[k].data != null
        && registered[k + 1] == ConfigurationDescriptor(k, configurations[k].data[..]))
    }

    /** add_snapshot_descriptors; refused names the calls that the emulated controller fails: 0 is
        the device descriptor, i + 1 is configuration i. Nothing is registered without a snapshot. */
    method AddSnapshotDescriptors(refused: set<nat>) returns (status: Status, registered: seq<Registered>)
      requires Owned() && (ready ==> configurations != null)
      requires forall k :: ready && 0 <= k < configurationCount && configurations[k].data != null ==>
        configurations[k].length == configurations[k].data.Length
      ensures !ready ==> status == Success && registered == []
      ensures ready && status == Success ==> RegisteredUpTo(registered, configurationCount)
      ensures ready && registered != [] ==> RegisteredUpTo(registered, |registered| - 1)
      ensures ready && status == InvalidDeviceState ==> (
        && 0 < |registered| <= configurationCount
        && (configurations[|registered| - 1].data == null || configurations[|registered| - 1].length == 0))
      ensures status == Refused ==> |registered| in refused
      ensures status != DeviceFiltered
      ensures ready && status == Success ==> forall k :: 0 <= k <= configurationCount ==> k !in refused
    {
      registered := [];
      if !ready {
        return Success, registered;
      }
      if 0 in refused {
        return Refused, registered;
      }
      registered := [DeviceDescriptor(device)];
      for i := 0 to configurationCount
        invariant RegisteredUpTo(registered, i)
        invariant forall k :: 0 <= k <= i ==> k !in refused
      {
        var config := configurations[i];
        if config.data == null || config.length == 0 {
          return InvalidDeviceState, registered;
        }
        if i + 1 in refused {
          return Refused, registered;
        }
        registered := registered + [ConfigurationDescriptor(i, config.data[..config.length])];
      }
      return Success, registered;
    }

    // ---- release

    /** ExFreePoolWithTag takes a block that is live. */
    method Free(block: object)
      requires block in live
      modifies this`live
      ensures live == old(live) - {block}
    {
      live := live - {block};
    }

    /** The release in destroy_device_ctx_ext, after any run of check_device: every block is freed
        once (Free takes live blocks only) and none is left. */
    method Destroy()
      requires Owned()
      modifies this`live
      ensures live == {}
    {
      if configurations != null {
        ghost var cs := configurations[..];
        for i := 0 to configurationCount
          invariant live == {configurations as object} + Blocks(cs[i..])
        {
          BlocksFront(cs, i);
          if configurations[i].data != null {
            Free(configurations[i].data);
          }
        }
        Free(configurations);
      }
    }
  }

  /** The first of the remaining blocks is not among the others. */
  lemma {:induction false} BlocksFront(cs: seq<Config>, i: nat)
    requires i < |cs| && Unshared(cs)
    ensures Blocks(cs[i..]) == (if cs[i].data == null then {} else {cs[i].data as object}) + Blocks(cs[i + 1..])
    ensures cs[i].data != null ==> cs[i].data !in Blocks(cs[i + 1..])
  {
    assert cs[i..][1..] == cs[i + 1..];
    if cs[i].data != null {
      assert forall j :: i < j < |cs| ==> cs[j].data != cs[i].data;
      NotInBlocks(cs[i + 1..], cs[i].data);
    }
  }

  lemma {:induction false} NotInBlocks(cs: seq<Config>, block: object)
    requires forall k :: 0 <= k < |cs| ==> cs[k].data != block
    ensures block !in Blocks(cs)
  {
    if cs != [] {
      NotInBlocks(cs[1..], block);
    }
  }

  lemma HeaderPassed(b: seq<byte>, allowed: Policy)
    requires Evaluate(b, allowed).error == Valid
    ensures |b| >= CONFIGURATION_SIZE && LittleEndian(b[2], b[3]) == |b|
  {
    hide Walk;
  }

  /** The registered bytes of a configuration that passed are themselves a configuration whose every
      interface the policy allows, although they were patched after the check. */
  lemma {:induction false} RegisteredIsAllowed(server: seq<Reply>, i: nat, p: FilterPolicy.Policy, speed: nat)
    requires p.count <= FilterPolicy.CAPACITY && ConfigurationPasses(server, i, AllowedBy(p))
    ensures exists ds :: IsConfiguration(Patched(Body(server, i).value, speed), ds, AllowedBy(p))
  {
    var b := Body(server, i).value;
    PatchKeepsResult(b, speed, AllowedBy(p));
    AcceptsExactlyConfigurations(Patched(b, speed), AllowedBy(p));
  }

  /** Every interface descriptor of a configuration has a class that the policy allows. */
  lemma {:induction false} EveryInterfaceIsAllowed(ds: seq<seq<byte>>, p: FilterPolicy.Policy, k: nat)
    requires p.count <= FilterPolicy.CAPACITY && AllGood(ds, AllowedBy(p))
    requires k < |ds| && |ds[k]| >= 2 && ds[k][1] == INTERFACE_TYPE
    ensures |ds[k]| >= INTERFACE_SIZE && FilterPolicy.Allows(p, ds[k][5], ds[k][6], ds[k][7])
  {
    if k > 0 {
      EveryInterfaceIsAllowed(ds[1..], p, k - 1);
    }
  }

  /** What is registered from a snapshot, in terms of the server's answers: the device descriptor with
      the identity that was imported, then exactly the patched image of each configuration, in order. */
  lemma {:induction false} RegistersTheSnapshot(ext: DeviceExt, server: seq<Reply>, udev: Identity,
                                        registered: seq<Registered>)
    requires ext.Snapshot(server, udev) && ext.RegisteredUpTo(registered, ext.configurationCount)
    ensures |registered| == udev.configurations + 1
    ensures registered[0].DeviceDescriptor? && |registered[0].bytes| == DEVICE_SIZE && IdentityOf(registered[0].bytes) == udev
    ensures forall k :: 0 <= k < udev.configurations ==> (
      && Body(server, k).Some?
      && registered[k + 1] == ConfigurationDescriptor(k, Patched(Body(server, k).value, ext.speed)))
    ensures ext.speed >= 3 ==> forall k :: 0 <= k < udev.configurations ==>
      Body(server, k).Some? && registered[k + 1] == ConfigurationDescriptor(k, Body(server, k).value)
  {
    hide Body, Converted;
    forall k | 0 <= k < udev.configurations
      ensures Body(server, k).Some? && registered[k + 1] == ConfigurationDescriptor(k, Patched(Body(server, k).value, ext.speed))
    {
      assert ext.Taken(ext.configurations[k], server, k);
    }
  }

  // ---- the server's answers, byte by byte

  /** Answer k is a RET_SUBMIT without an error that carries exactly the bytes b. */
  ghost predicate Carried(server: seq<Reply>, k: nat, b: seq<byte>) {
    && k < |server| && server[k].Reply? && server[k].command == 3 && server[k].status == 0
    && server[k].actualLength == |b| <= |server[k].payload| && server[k].payload[..|b|] == b
  }

  lemma {:induction false} ReceivedExactly(server: seq<Reply>, k: nat, len: nat, b: seq<byte>)
    requires |b| <= len
    ensures Received(Answer(server, k + 1), len) == Some(b) <==> Carried(server, k, b)
  {
  }

  ghost predicate DescribesDevice(d: seq<byte>, udev: Identity) {
    && |d| == 18 && d[0] == 18 && d[1] == 1
    && LittleEndian(d[8], d[9]) == udev.vendor && LittleEndian(d[10], d[11]) == udev.product && LittleEndian(d[12], d[13]) == udev.release
    && d[4] == udev.cls && d[5] == udev.subcls && d[6] == udev.protocol && d[17] == udev.configurations
  }

  /** The device descriptor passes exactly if the first answer carries one, of 18 bytes, that agrees with the
      imported device in every field of its identity. */
  lemma {:induction false} DevicePassesExactly(server: seq<Reply>, udev: Identity)
    ensures DevicePasses(server, udev) <==> exists d :: Carried(server, 0, d) && DescribesDevice(d, udev)
  {
    var got := Received(Answer(server, 1), DEVICE_SIZE);
    if got.Some? {
      ReceivedExactly(server, 0, DEVICE_SIZE, got.value);
    }
    if d :| Carried(server, 0, d) && DescribesDevice(d, udev) {
      ReceivedExactly(server, 0, DEVICE_SIZE, d);
    }
  }

  /** The nine bytes of a configuration descriptor that tell how long the whole configuration is. */
  ghost predicate Announces(head: seq<byte>, total: nat) {
    |head| == 9 && head[0] == 9 && head[1] == 2 && LittleEndian(head[2], head[3]) == total && total > 9
  }

  /** Configuration i has exactly the bytes that the second of its two answers carries, as many as the first
      announces. */
  lemma {:induction false} BodyExactly(server: seq<Reply>, i: nat, b: seq<byte>)
    ensures Body(server, i) == Some(b) <==>
      exists head :: Carried(server, 2 * i + 1, head) && Announces(head, |b|) && Carried(server, 2 * i + 2, b)
  {
    hide Received, Answer, Carried;
    var first, second := Answer(server, 2 * i + 2), Answer(server, 2 * i + 3);
    ReceivedExactly(server, 2 * i + 2, |b|, b);
    if Body(server, i) == Some(b) {
      var head := Received(first, CONFIGURATION_SIZE).value;
      ReceivedExactly(server, 2 * i + 1, CONFIGURATION_SIZE, head);
      assert Carried(server, 2 * i + 1, head) && Announces(head, |b|);
    }
    if head :| Carried(server, 2 * i + 1, head) && Announces(head, |b|) && Carried(server, 2 * i + 2, b) {
      ReceivedExactly(server, 2 * i + 1, CONFIGURATION_SIZE, head);
      assert Received(first, CONFIGURATION_SIZE) == Some(head) && Received(second, |b|) == Some(b);
    }
  }

  /** What the filter lets pass: a device whose class is allowed, or stands for its interfaces (0 and 0xEF), with
      at least one configuration, the right descriptor, and only configurations of allowed interfaces. */
  lemma {:induction false} PassesExactly(server: seq<Reply>, p: FilterPolicy.Policy, udev: Identity, noMemory: set<nat>)
    requires p.count <= FilterPolicy.CAPACITY
    ensures Passes(server, p, udev, noMemory) <==>
      && (udev.cls != 0 && udev.cls != 0xEF ==> FilterPolicy.Allows(p, udev.cls, udev.subcls, udev.protocol))
      && udev.configurations > 0
      && (exists d :: Carried(server, 0, d) && DescribesDevice(d, udev))
      && 0 !in noMemory
      && forall i: nat :: i < udev.configurations ==> BodyIsAllowed(server, i, p) && i + 1 !in noMemory
  {
    hide DevicePasses, Carried, DescribesDevice, FilterPolicy.Allows, ConfigurationPasses, BodyIsAllowed;
    DevicePassesExactly(server, udev);
    forall i: nat | i < udev.configurations
      ensures ConfigurationPasses(server, i, AllowedBy(p)) <==> BodyIsAllowed(server, i, p)
    {
      ConfigurationPassesExactly(server, i, p);
    }
  }

  ghost predicate BodyIsAllowed(server: seq<Reply>, i: nat, p: FilterPolicy.Policy)
    requires p.count <= FilterPolicy.CAPACITY
  {
    Body(server, i).Some? && IsAllowedConfiguration(Body(server, i).value, p)
  }

  lemma {:induction false} ConfigurationPassesExactly(server: seq<Reply>, i: nat, p: FilterPolicy.Policy)
    requires p.count <= FilterPolicy.CAPACITY
    ensures ConfigurationPasses(server, i, AllowedBy(p)) <==> BodyIsAllowed(server, i, p)
  {
    hide Body, Evaluate, IsConfiguration;
    if Body(server, i).Some? {
      AcceptsExactlyConfigurations(Body(server, i).value, AllowedBy(p));
    }
  }

  /** The registered device descriptor is the one that the server sent; only where it has no serial number and one
      is generated, the index of the string is 255. */
  lemma {:induction false} RegistersTheDevice(ext: DeviceExt, server: seq<Reply>, udev: Identity, registered: seq<Registered>)
    requires ext.Snapshot(server, udev) && ext.RegisteredUpTo(registered, ext.configurationCount)
    ensures exists d :: (
      && Carried(server, 0, d) && |d| == 18
      && registered[0] == DeviceDescriptor(d[..16] + [if ext.hasSerial && d[16] == 0 then 255 else d[16]] + d[17..]))
  {
    hide Body, Patched;
    var d := Received(Answer(server, 1), DEVICE_SIZE).value;
    ReceivedExactly(server, 0, DEVICE_SIZE, d);
    assert WithSerial(d, ext.hasSerial) == d[..16] + [if ext.hasSerial && d[16] == 0 then 255 else d[16]] + d[17..];
  }

  ghost predicate IsAllowedConfiguration(b: seq<byte>, p: FilterPolicy.Policy)
    requires p.count <= FilterPolicy.CAPACITY
  {
    exists ds :: IsConfiguration(b, ds, AllowedBy(p))
  }

  /** When check_device and then the registration succeed: each registered configuration is one that the
      loaded policy allows, whatever the server sent. */
  lemma {:induction false} WhatIsRegisteredIsAllowed(ext: DeviceExt, server: seq<Reply>, value: FilterPolicy.RegistryValue,
                                                     udev: Identity, noMemory: set<nat>, registered: seq<Registered>, k: nat)
    requires Passes(server, FilterPolicy.Loaded(value), udev, noMemory) && ext.Snapshot(server, udev)
    requires ext.RegisteredUpTo(registered, ext.configurationCount) && k < udev.configurations
    ensures registered[k + 1].ConfigurationDescriptor? && registered[k + 1].index == k
    ensures IsAllowedConfiguration(registered[k + 1].data, FilterPolicy.Loaded(value))
  {
    hide Body, Patched, ConfigurationPasses, IsConfiguration, FilterPolicy.Loaded;
    RegistersTheSnapshot(ext, server, udev, registered);
    assert ConfigurationPasses(server, k, AllowedBy(FilterPolicy.Loaded(value)));
    RegisteredIsAllowed(server, k, FilterPolicy.Loaded(value), ext.speed);
  }

  /** Registering a snapshot is refused by nobody but the emulated controller: no entry is empty. */
  lemma {:induction false} NoEntryIsEmpty(ext: DeviceExt, server: seq<Reply>, udev: Identity, k: nat)
    requires ext.Snapshot(server, udev) && k < ext.configurationCount
    ensures ext.configurations[k].data != null && ext.configurations[k].length == ext.configurations[k].data.Length > CONFIGURATION_SIZE
  {
    hide Patched;
    assert ext.Taken(ext.configurations[k], server, k);
    assert |ext.configurations[k].data[..]| == |Body(server, k).value|;
  }
}
