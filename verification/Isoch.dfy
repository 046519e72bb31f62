/** Isochronous transfers: the packet table of a request (drivers/ude/device_ioctl.cpp, repack)
    and the expansion of a compacted reply (drivers/ude/wsk_receive.cpp, fill_isoc_data). */
module Isoch {
  import opened Words

  /** iso_packet_descriptor, on the wire in both directions. */
  datatype IsoDescriptor = IsoDescriptor(offset: uint32, length: uint32, actualLength: uint32, status: uint32)

  /** USBD_ISO_PACKET_DESCRIPTOR, the packet of the URB. */
  datatype Packet = Packet(offset: uint32, length: uint32, status: uint32)

  datatype Status = Success | InvalidParameter
    | OutsideBuffer  // not a status of the source: the move would leave the transfer buffer

  // ---- repack

  /** Where packet i ends: at the next packet, or at the end of the buffer. */
  function End(packets: seq<Packet>, size: uint32, i: nat): uint32
    requires i < |packets|
  {
    if i + 1 < |packets| then packets[i + 1].offset else size
  }

  /** Offsets never decrease and stay within the buffer. */
  ghost predicate IsTable(packets: seq<Packet>, size: uint32) {
    && (forall i :: 0 <= i < |packets| ==> packets[i].offset <= size)
    && (forall i, j :: 0 <= i <= j < |packets| ==> packets[i].offset <= packets[j].offset)
  }

  function TableEntry(packets: seq<Packet>, size: uint32, i: nat): IsoDescriptor
    requires i < |packets| && packets[i].offset <= End(packets, size, i)
  {
    IsoDescriptor(packets[i].offset, End(packets, size, i) - packets[i].offset, 0, 0)
  }

  method Repack(d: array<IsoDescriptor>, packets: seq<Packet>, size: uint32) returns (ok: bool)
    requires |packets| <= d.Length
    modifies d
    ensures ok <==> IsTable(packets, size)
    ensures ok ==> forall i :: 0 <= i < |packets| ==>
                     packets[i].offset <= End(packets, size, i) && d[i] == TableEntry(packets, size, i)
    ensures ok ==> forall i :: 0 <= i < |packets| ==>
      d[i].offset == packets[i].offset && d[i].offset + d[i].length == End(packets, size, i)
      && d[i].actualLength == 0 && d[i].status == 0
    ensures forall i :: |packets| <= i < d.Length ==> d[i] == old(d[i])
  {
    var i := 0;
    while i < |packets|
      invariant 0 <= i <= |packets|
      invariant forall k :: 0 <= k < i ==> packets[k].offset <= End(packets, size, k) <= size
      invariant forall k :: 0 <= k < i ==> d[k] == TableEntry(packets, size, k)
      invariant forall k :: i <= k < d.Length ==> d[k] == old(d[k])
    {
      var offset := packets[i].offset;
      var nextOffset := if i + 1 < |packets| then packets[i + 1].offset else size;
      if nextOffset >= offset && nextOffset <= size {
        d[i] := IsoDescriptor(offset, nextOffset - offset, 0, 0);
      } else {
        assert End(packets, size, i) == nextOffset;
        return false;
      }
      i := i + 1;
    }
    StepsMakeTable(packets, size);
    return true;
  }

  lemma {:induction false} StepsMakeTable(packets: seq<Packet>, size: uint32)
    requires forall k :: 0 <= k < |packets| ==> packets[k].offset <= End(packets, size, k) <= size
    ensures IsTable(packets, size)
  {
    if packets != [] {
      var rest := packets[1..];
      forall k | 0 <= k < |rest| ensures rest[k].offset <= End(rest, size, k) <= size {
        assert End(rest, size, k) == End(packets, size, k + 1);
      }
      StepsMakeTable(rest, size);
      assert packets[0].offset <= End(packets, size, 0);
      assert forall j :: 1 <= j < |packets| ==> packets[j] == rest[j - 1];
      if rest != [] {
        assert packets[0].offset <= rest[0].offset;
      }
    }
  }

  function SumLengths(d: seq<IsoDescriptor>): nat {
    if d == [] then 0 else d[0].length + SumLengths(d[1..])
  }

  /** The lengths of a table telescope: they add up to the buffer without what precedes the
      first packet. */
  lemma {:induction false} LengthsTelescope(d: seq<IsoDescriptor>, packets: seq<Packet>, size: uint32)
    requires |d| == |packets| && IsTable(packets, size)
    requires forall i :: 0 <= i < |packets| ==>
               packets[i].offset <= End(packets, size, i) && d[i] == TableEntry(packets, size, i)
    ensures SumLengths(d) == if packets == [] then 0 else size - packets[0].offset
  {
    if packets != [] {
      var rest := packets[1..];
      forall i | 0 <= i < |rest|
        ensures rest[i].offset <= End(rest, size, i) && d[1..][i] == TableEntry(rest, size, i)
      {
        assert End(rest, size, i) == End(packets, size, i + 1);
      }
      LengthsTelescope(d[1..], rest, size);
    }
  }

  // ---- fill_isoc_data

  /** The bytes of the first n packets in the compacted buffer. */
  function SumActual(src: seq<IsoDescriptor>, n: nat): nat
    requires n <= |src|
  {
    if n == 0 then 0 else SumActual(src, n - 1) + src[n - 1].actualLength
  }

  lemma {:induction false} SumActualGrows(src: seq<IsoDescriptor>, i: nat, j: nat)
    requires i <= j <= |src|
    ensures SumActual(src, i) <= SumActual(src, j)
    ensures i < j ==> SumActual(src, i) + src[i].actualLength <= SumActual(src, j)
  {
    if i < j {
      SumActualGrows(src, i, j - 1);
    }
  }

  /** Where packet i starts in the compacted buffer, counted from the end of the data. */
  function Base(src: seq<IsoDescriptor>, length: nat, i: nat): int
    requires i <= |src|
  {
    length - (SumActual(src, |src|) - SumActual(src, i))
  }

  /** What is demanded of a packet that carries data. */
  ghost predicate PacketFits(offset: nat, s: IsoDescriptor, base: int, size: nat) {
    s.actualLength != 0 ==>
      s.actualLength <= s.length && s.offset == offset && 0 <= base <= offset && offset + s.actualLength <= size
  }

  /** The reply can be expanded: its lengths add up and every packet fits its slot. */
  ghost predicate Fits(packets: seq<Packet>, src: seq<IsoDescriptor>, length: nat, size: nat)
    requires |packets| == |src|
  {
    && SumActual(src, |src|) == length
    && forall i {:trigger packets[i]} :: 0 <= i < |src| ==> PacketFits(packets[i].offset, src[i], SumActual(src, i), size)
  }

  predicate Covers(p: Packet, s: IsoDescriptor, k: nat) {
    p.offset <= k < p.offset + s.actualLength
  }

  /** The first packet from `from` on whose slot has byte k, or the number of packets. */
  function FirstCovering(packets: seq<Packet>, src: seq<IsoDescriptor>, k: nat, from: nat): (i: nat)
    requires |packets| == |src| && from <= |src|
    ensures from <= i <= |src| && (i < |src| ==> Covers(packets[i], src[i], k))
    ensures forall j {:trigger packets[j]} :: from <= j < i ==> !Covers(packets[j], src[j], k)
    decreases |src| - from
  {
    if from == |src| || Covers(packets[from], src[from], k) then from
    else FirstCovering(packets, src, k, from + 1)
  }

  /** Byte k after the packets from `from` on were put in place, the last one first. */
  function ExpandedByte(packets: seq<Packet>, src: seq<IsoDescriptor>, length: nat, old': seq<byte>, k: nat,
                        from: nat): byte
    requires |packets| == |src| && from <= |src| && k < |old'|
  {
    var i := FirstCovering(packets, src, k, from);
    if i == |src| then old'[k]
    else
      var source := Base(src, length, i) + k - packets[i].offset;
      if 0 <= source < |old'| then old'[source] else old'[k]
  }

  /** The first n bytes of the buffer after the expansion. */
  function ExpandPrefix(packets: seq<Packet>, src: seq<IsoDescriptor>, length: nat, old': seq<byte>,
                        n: nat): (new': seq<byte>)
    requires |packets| == |src| && n <= |old'|
    ensures |new'| == n
  {
    if n == 0 then []
    else ExpandPrefix(packets, src, length, old', n - 1) + [ExpandedByte(packets, src, length, old', n - 1, 0)]
  }

  lemma {:induction false} ExpandPrefixAt(packets: seq<Packet>, src: seq<IsoDescriptor>, length: nat,
                                        old': seq<byte>, n: nat, k: nat)
    requires |packets| == |src| && k < n <= |old'|
    ensures ExpandPrefix(packets, src, length, old', n)[k] == ExpandedByte(packets, src, length, old', k, 0)
  {
    if k < n - 1 {
      ExpandPrefixAt(packets, src, length, old', n - 1, k);
    }
  }

  /** The whole buffer after the expansion. */
  function Expand(packets: seq<Packet>, src: seq<IsoDescriptor>, length: nat, old': seq<byte>): (new': seq<byte>)
    requires |packets| == |src|
    ensures |new'| == |old'|
  {
    ExpandPrefix(packets, src, length, old', |old'|)
  }

  /** RtlMoveMemory: the source and the destination may overlap. */
  method MoveMemory(b: array<byte>, dst: nat, src: nat, n: nat)
    requires dst + n <= b.Length && src + n <= b.Length
    modifies b
    ensures forall k :: 0 <= k < b.Length ==> b[k] == if dst <= k < dst + n then old(b[src + k - dst]) else old(b[k])
  {
    forall k | 0 <= k < n {
      b[dst + k] := b[src + k];
    }
  }

  /** What the loop decides about a packet when `rest` bytes are still compacted. The sum of the
      bounds check is one of 32-bit words; a packet is moved only if it is not in place. */
  function PacketOutcome(offset: uint32, sd: IsoDescriptor, rest: nat, size: uint32): Status {
    if sd.actualLength == 0 then Success
    else if sd.actualLength > sd.length || sd.offset != offset || rest < sd.actualLength then InvalidParameter
    else if !PassesCheck(offset, sd.actualLength, size) || offset < rest - sd.actualLength then InvalidParameter
    else if offset > rest - sd.actualLength && offset + sd.actualLength > size then OutsideBuffer
    else Success
  }

  /** The bounds check as the source writes it, with a sum of two 32-bit words. */
  predicate PassesCheck(offset: uint32, count: uint32, size: uint32) {
    (offset + count) % TWO_32 <= size
  }

  /** What becomes of the first n packets, the last of them first, and of the bytes left over. */
  function Outcome(packets: seq<Packet>, src: seq<IsoDescriptor>, rest: nat, size: uint32, n: nat): Status
    requires |packets| == |src| && n <= |src|
  {
    if n == 0 then (if rest == 0 then Success else InvalidParameter)
    else
      var status := PacketOutcome(packets[n - 1].offset, src[n - 1], rest, size);
      if status != Success then status else Outcome(packets, src, rest - src[n - 1].actualLength, size, n - 1)
  }

  /** The body of the loop for a packet that carries data: `rest` bytes are still compacted. */
  method PlacePacket(buffer: array<byte>, size: uint32, offset: uint32, sd: IsoDescriptor, rest: nat)
    returns (status: Status)
    requires rest <= size <= buffer.Length && sd.actualLength != 0
    modifies buffer
    ensures status == Success <==> PacketFits(offset, sd, rest - sd.actualLength, size)
    ensures status == Success ==> Moved(old(buffer[..]), buffer[..], offset, sd.actualLength, rest - sd.actualLength)
    ensures status != Success ==> buffer[..] == old(buffer[..])
    ensures status == PacketOutcome(offset, sd, rest, size)
    ensures status == OutsideBuffer ==> offset + sd.actualLength >= TWO_32 && sd.actualLength <= rest
  {
    if sd.actualLength > sd.length || sd.offset != offset || rest < sd.actualLength {
      return InvalidParameter;
    }
    var start := rest - sd.actualLength;
    if (offset + sd.actualLength) % TWO_32 > size || offset < start {
      return InvalidParameter;
    }
    if offset > start {
      if offset + sd.actualLength > size {
        return OutsideBuffer;
      }
      MoveMemory(buffer, offset, start, sd.actualLength);
    }
    return Success;
  }

  /** Length and status of a packet after the call. */
  function DonePacket(p: Packet, s: IsoDescriptor, dirOut: bool, translate: uint32 -> uint32): Packet {
    Packet(p.offset, if dirOut then p.length else s.actualLength, if s.status != 0 then translate(s.status) else 0)
  }

  /** The body of the loop. */
  method HandlePacket(packets: array<Packet>, buffer: array?<byte>, size: uint32, i: nat, sd: IsoDescriptor, rest: nat,
                      translate: uint32 -> uint32) returns (status: Status, left: nat)
    requires i < packets.Length && (buffer != null ==> rest <= size <= buffer.Length)
    modifies packets, buffer
    ensures buffer == null ==> status == Success
    ensures status == Success ==>
              packets[..] == old(packets[..])[i := DonePacket(old(packets[i]), sd, buffer == null, translate)]
    ensures buffer != null ==> Handled(old(buffer[..]), buffer[..], size, old(packets[i].offset), sd, rest, left, status)
  {
    packets[i] := packets[i].(status := if sd.status != 0 then translate(sd.status) else 0);
    left := rest;
    if buffer == null {
      return Success, rest;
    }
    if sd.actualLength != 0 {
      status := PlacePacket(buffer, size, packets[i].offset, sd, rest);
      if status != Success {
        return;
      }
      left := rest - sd.actualLength;
    }
    packets[i] := packets[i].(length := sd.actualLength);
    return Success, left;
  }

  /** A packet was put in place, or it was empty, or it does not fit and the bytes are as before. */
  ghost predicate Handled(was: seq<byte>, now: seq<byte>, size: uint32, offset: uint32, sd: IsoDescriptor,
                          rest: nat, left: nat, status: Status)
  {
    && status == PacketOutcome(offset, sd, rest, size)
    && (status == Success <==> sd.actualLength == 0 || PacketFits(offset, sd, rest - sd.actualLength, size))
    && (status == Success ==> left == rest - sd.actualLength && Moved(was, now, offset, sd.actualLength, left))
    && (status != Success ==> now == was)
    && (status == OutsideBuffer ==> offset + sd.actualLength >= TWO_32 && sd.actualLength <= rest)
  }

  /** The packets from i on fit, counting back from the end of the data. */
  ghost predicate FitFrom(packets: seq<Packet>, src: seq<IsoDescriptor>, length: nat, size: nat, i: nat)
    requires |packets| == |src|
  {
    forall k {:trigger packets[k]} :: i <= k < |src| ==> PacketFits(packets[k].offset, src[k], Base(src, length, k), size)
  }

  /** The packets from i on were put in place. */
  ghost predicate ExpandedFrom(packets: seq<Packet>, src: seq<IsoDescriptor>, length: nat,
                               before: seq<byte>, after: seq<byte>, i: nat)
    requires |packets| == |src| && i <= |src|
  {
    |after| == |before| && forall k :: 0 <= k < |before| ==> after[k] == ExpandedByte(packets, src, length, before, k, i)
  }

  /** A null buffer stands for an OUT transfer. `length` is the actual_length of the reply, a
      signed 32-bit field that was checked against the size of the transfer buffer. */
  method FillIsocData(packets: array<Packet>, buffer: array?<byte>, size: uint32, length: uint32,
                      src: seq<IsoDescriptor>, translate: uint32 -> uint32) returns (status: Status)
    requires packets.Length == |src|
    requires buffer != null ==> size <= buffer.Length && length <= size && length < TWO_31
    modifies packets, buffer
    ensures buffer == null ==> status == Success
    ensures buffer != null ==> (status == Success <==> Fits(old(packets[..]), src, length, size))
    ensures buffer != null ==> status == Outcome(old(packets[..]), src, length, size, |src|)
    ensures status == OutsideBuffer ==> exists i ::
      0 <= i < |src| && old(packets[i].offset) + src[i].actualLength >= TWO_32 && src[i].actualLength <= length
    ensures status == Success ==> Reported(old(packets[..]), packets[..], src, buffer == null, translate)
    ensures status == Success && buffer != null ==> buffer[..] == Expand(old(packets[..]), src, length, old(buffer[..]))
    ensures status == Success && buffer != null && NoOverlap(old(packets[..]), src) ==>
              Joined(packets[..], buffer[..], |src|) == old(buffer[..])[..length]
    ensures buffer != null ==> forall k :: size <= k < buffer.Length ==> buffer[k] == old(buffer[k])
  {
    hide Outcome, Handled, PlacedFrom, DoneFrom, Fits, Expand, NoOverlap, Joined, Reported;
    var dirOut := buffer == null;
    var rest: nat := length;
    ghost var before := packets[..];
    ghost var bytes := if buffer == null then [] else buffer[..];
    ghost var goal := Outcome(before, src, length, size, |src|);
    var i := |src|;
    NothingDone(before, src, length, size, bytes, dirOut, translate);
    while i > 0
      invariant 0 <= i <= |src|
      invariant !dirOut ==> rest <= length && Outcome(before, src, rest, size, i) == goal
      invariant DoneFrom(before, packets[..], src, dirOut, translate, i)
      invariant !dirOut ==> PlacedFrom(before, src, length, size, bytes, buffer[..], rest, i)
    {
      i := i - 1;
      ghost var was, rest0 := if dirOut then [] else buffer[..], rest;
      ghost var done := packets[..];
      OnePacketDone(before, done, src, dirOut, translate, i);
      status, rest := HandlePacket(packets, buffer, size, i, src[i], rest, translate);
      if !dirOut {
        OnePacket(before, src, length, size, bytes, was, buffer[..], rest0, rest, i, status);
      }
      if status != Success {
        BeyondIsUntouched(before, src, length, size, bytes, was, rest0, i + 1);
        return;
      }
    }
    if !dirOut {
      AllPlaced(before, src, length, size, bytes, buffer[..], rest);
      BeyondIsUntouched(before, src, length, size, bytes, buffer[..], rest, 0);
    }
    status := if rest != 0 && !dirOut then InvalidParameter else Success;
    AllDone(before, packets[..], src, dirOut, translate);
    if !dirOut && status == Success && NoOverlap(before, src) {
      ReceivedInOrder(before, packets[..], src, length, size, bytes, translate);
    }
  }

  /** What the URB says about each packet after a successful call: where it is, which a reply cannot change; how
      many bytes it has, for an IN transfer those received; and no error, or the translated one. */
  ghost predicate Reported(before: seq<Packet>, after: seq<Packet>, src: seq<IsoDescriptor>, dirOut: bool,
                           translate: uint32 -> uint32)
    requires |before| == |src|
  {
    && |after| == |src|
    && (forall k :: 0 <= k < |src| ==> after[k].offset == before[k].offset)
    && (forall k :: 0 <= k < |src| ==> after[k].length == if dirOut then before[k].length else src[k].actualLength)
    && (forall k :: 0 <= k < |src| && src[k].status == 0 ==> after[k].status == 0)
    && (forall k :: 0 <= k < |src| && src[k].status != 0 ==> after[k].status == translate(src[k].status))
  }

  lemma AllDone(before: seq<Packet>, after: seq<Packet>, src: seq<IsoDescriptor>, dirOut: bool, translate: uint32 -> uint32)
    requires |before| == |src| && DoneFrom(before, after, src, dirOut, translate, 0)
    ensures Reported(before, after, src, dirOut, translate)
  {
  }

  /** What a driver reads that takes the packets of the URB one after the other. */
  function Joined(packets: seq<Packet>, data: seq<byte>, n: nat): seq<byte>
    requires n <= |packets|
  {
    if n == 0 then [] else Joined(packets, data, n - 1) + Slice(data, packets[n - 1].offset, packets[n - 1].length)
  }

  lemma {:induction false} JoinedIsCompact(before: seq<Packet>, after: seq<Packet>, src: seq<IsoDescriptor>,
                                           translate: uint32 -> uint32, data: seq<byte>, n: nat)
    requires |before| == |src| && Reported(before, after, src, false, translate) && n <= |src|
    ensures Joined(after, data, n) == Compact(before, src, data, n)
  {
    if n > 0 {
      JoinedIsCompact(before, after, src, translate, data, n - 1);
    }
  }

  /** The packets of the URB, read one after the other, are the bytes that were received. */
  lemma {:induction false} ReceivedInOrder(before: seq<Packet>, after: seq<Packet>, src: seq<IsoDescriptor>, length: nat,
                                           size: nat, bytes: seq<byte>, translate: uint32 -> uint32)
    requires |before| == |src| && Reported(before, after, src, false, translate)
    requires Fits(before, src, length, size) && NoOverlap(before, src) && length <= size <= |bytes|
    ensures Joined(after, Expand(before, src, length, bytes), |src|) == bytes[..length]
  {
    JoinedIsCompact(before, after, src, translate, Expand(before, src, length, bytes), |src|);
    CompactInvertsExpand(before, src, length, size, bytes);
  }

  lemma {:induction false} NothingDone(packets: seq<Packet>, src: seq<IsoDescriptor>, length: nat, size: nat,
                                       bytes: seq<byte>, dirOut: bool, translate: uint32 -> uint32)
    requires |packets| == |src|
    ensures DoneFrom(packets, packets, src, dirOut, translate, |src|)
    ensures length <= size <= |bytes| ==> PlacedFrom(packets, src, length, size, bytes, bytes, length, |src|)
  {
  }

  lemma {:induction false} OnePacketDone(before: seq<Packet>, after: seq<Packet>, src: seq<IsoDescriptor>, dirOut: bool,
                                         translate: uint32 -> uint32, i: nat)
    requires |before| == |src| && i < |src| && DoneFrom(before, after, src, dirOut, translate, i + 1)
    ensures |after| == |src| && after[i] == before[i]
    ensures DoneFrom(before, after[i := DonePacket(before[i], src[i], dirOut, translate)], src, dirOut, translate, i)
  {
    hide DonePacket;
  }

  lemma {:induction false} BeyondIsUntouched(packets: seq<Packet>, src: seq<IsoDescriptor>, length: nat, size: nat,
                          bytes: seq<byte>, now: seq<byte>, rest: nat, i: nat)
    requires |packets| == |src| && i <= |src| && PlacedFrom(packets, src, length, size, bytes, now, rest, i)
    ensures forall k :: size <= k < |bytes| ==> now[k] == bytes[k]
  {
    forall k: nat, j | size <= k && i <= j < |src| ensures !Covers(packets[j], src[j], k) {
      assert PacketFits(packets[j].offset, src[j], Base(src, length, j), size);
    }
  }

  lemma {:induction false} AllPlaced(packets: seq<Packet>, src: seq<IsoDescriptor>, length: nat, size: uint32,
                  bytes: seq<byte>, now: seq<byte>, rest: nat)
    requires |packets| == |src| && PlacedFrom(packets, src, length, size, bytes, now, rest, 0)
    ensures rest == 0 <==> Fits(packets, src, length, size)
    ensures Outcome(packets, src, rest, size, 0) == if rest == 0 then Success else InvalidParameter
    ensures now == Expand(packets, src, length, bytes)
  {
    forall k: nat | k < |bytes| ensures now[k] == Expand(packets, src, length, bytes)[k] {
      ExpandPrefixAt(packets, src, length, bytes, |bytes|, k);
    }
    if rest == 0 {
      forall i | 0 <= i < |src| ensures PacketFits(packets[i].offset, src[i], SumActual(src, i), size) {
        assert Base(src, length, i) == SumActual(src, i);
      }
    }
  }

  /** The packets from i on were updated, the others are as before. */
  ghost predicate DoneFrom(before: seq<Packet>, after: seq<Packet>, src: seq<IsoDescriptor>, dirOut: bool,
                           translate: uint32 -> uint32, i: nat)
    requires |before| == |src|
  {
    && |after| == |src|
    && forall k :: 0 <= k < |src| ==> after[k] == if k < i then before[k] else DonePacket(before[k], src[k], dirOut, translate)
  }

  /** The state of an IN transfer before packet i - 1 is handled. */
  ghost predicate PlacedFrom(packets: seq<Packet>, src: seq<IsoDescriptor>, length: nat, size: nat,
                             bytes: seq<byte>, now: seq<byte>, rest: nat, i: nat)
    requires |packets| == |src| && i <= |src|
  {
    && length <= size <= |bytes| && rest == Base(src, length, i) && rest <= length
    && FitFrom(packets, src, length, size, i)
    && ExpandedFrom(packets, src, length, bytes, now, i)
  }

  /** n bytes were copied from `start` to `offset`, the others are as before. */
  ghost predicate Moved(was: seq<byte>, now: seq<byte>, offset: nat, n: nat, start: int) {
    && |now| == |was| && 0 <= start && start + n <= |was|
    && forall k {:trigger now[k]} :: 0 <= k < |was| ==> now[k] == if offset <= k < offset + n then was[start + k - offset] else was[k]
  }

  /** Moving packet i reads only bytes that are still compacted: the packets already in place
      lie behind them. A packet that does not fit makes the whole reply unfit. */
  lemma {:induction false} OnePacket(packets: seq<Packet>, src: seq<IsoDescriptor>, length: nat, size: uint32,
                                     bytes: seq<byte>, was: seq<byte>, now: seq<byte>, rest: nat, left: nat,
                                     i: nat, status: Status)
    requires |packets| == |src| && i < |src|
    requires PlacedFrom(packets, src, length, size, bytes, was, rest, i + 1)
    requires Handled(was, now, size, packets[i].offset, src[i], rest, left, status)
    ensures status == Success ==> left <= length && PlacedFrom(packets, src, length, size, bytes, now, left, i)
    ensures status != Success ==> !Fits(packets, src, length, size)
    ensures Outcome(packets, src, rest, size, i + 1) == if status != Success then status else Outcome(packets, src, left, size, i)
    ensures status == OutsideBuffer ==> packets[i].offset + src[i].actualLength >= TWO_32 && src[i].actualLength <= length
  {
    var start := rest - src[i].actualLength;
    assert start == Base(src, length, i);
    if status != Success {
      assert SumActual(src, |src|) == length ==> start == SumActual(src, i);
    } else {
      forall k: nat | k < |bytes| ensures now[k] == ExpandedByte(packets, src, length, bytes, k, i) {
        OneByte(packets, src, length, size, bytes, was, now, i, k);
      }
    }
  }

  lemma {:induction false} OneByte(packets: seq<Packet>, src: seq<IsoDescriptor>, length: nat, size: nat,
                                   bytes: seq<byte>, was: seq<byte>, now: seq<byte>, i: nat, k: nat)
    requires |packets| == |src| && i < |src| && k < |bytes| == |was| == |now| && length <= |bytes|
    requires ExpandedFrom(packets, src, length, bytes, was, i + 1) && FitFrom(packets, src, length, size, i + 1)
    requires 0 <= Base(src, length, i) && Base(src, length, i + 1) <= length
    requires Moved(was, now, packets[i].offset, src[i].actualLength, Base(src, length, i))
    ensures now[k] == ExpandedByte(packets, src, length, bytes, k, i)
  {
    assert Base(src, length, i + 1) == Base(src, length, i) + src[i].actualLength;
    if Covers(packets[i], src[i], k) {
      var source: nat := Base(src, length, i) + (k - packets[i].offset);
      assert now[k] == was[source];
      CompactedIsIntact(packets, src, length, bytes, size, i, source);
      assert was[source] == ExpandedByte(packets, src, length, bytes, source, i + 1);
      CoveredByte(packets, src, length, bytes, k, i);
    } else {
      assert was[k] == ExpandedByte(packets, src, length, bytes, k, i + 1);
      UncoveredByte(packets, src, length, bytes, k, i);
    }
  }

  lemma {:induction false} CoveredByte(packets: seq<Packet>, src: seq<IsoDescriptor>, length: nat, bytes: seq<byte>,
                                       k: nat, i: nat)
    requires |packets| == |src| && i < |src| && k < |bytes| && FirstCovering(packets, src, k, i) == i
    requires Covers(packets[i], src[i], k)
    requires 0 <= Base(src, length, i) && Base(src, length, i) + (k - packets[i].offset) < |bytes|
    ensures ExpandedByte(packets, src, length, bytes, k, i) == bytes[Base(src, length, i) + (k - packets[i].offset)]
  {
  }

  lemma {:induction false} UncoveredByte(packets: seq<Packet>, src: seq<IsoDescriptor>, length: nat,
                                        bytes: seq<byte>, k: nat, i: nat)
    requires |packets| == |src| && i < |src| && k < |bytes| && !Covers(packets[i], src[i], k)
    ensures ExpandedByte(packets, src, length, bytes, k, i) == ExpandedByte(packets, src, length, bytes, k, i + 1)
  {
  }

  lemma {:induction false} CompactedIsIntact(packets: seq<Packet>, src: seq<IsoDescriptor>, length: nat,
                                        bytes: seq<byte>, size: nat, i: nat, k: nat)
    requires |packets| == |src| && i < |src| && length <= |bytes|
    requires FitFrom(packets, src, length, size, i + 1) && k < Base(src, length, i + 1) && k < |bytes|
    ensures ExpandedByte(packets, src, length, bytes, k, i + 1) == bytes[k]
  {
    forall j | i < j < |src| ensures !Covers(packets[j], src[j], k) {
      SumActualGrows(src, i + 1, j);
    }
  }

  // ---- what the expansion means

  function Slice(s: seq<byte>, start: nat, count: nat): seq<byte> {
    if start + count <= |s| then s[start..start + count] else []
  }

  /** The bytes of a packet that starts at `start` in the compacted buffer are at its offset. */
  ghost predicate Intact(offset: nat, count: nat, start: nat, compacted: seq<byte>, expanded: seq<byte>) {
    count != 0 ==>
      && offset + count <= |expanded| && start + count <= |compacted|
      && Slice(expanded, offset, count) == Slice(compacted, start, count)
  }

  /** Every packet got its own bytes of the compacted buffer. */
  ghost predicate Faithful(packets: seq<Packet>, src: seq<IsoDescriptor>, compacted: seq<byte>, expanded: seq<byte>)
    requires |packets| == |src|
  {
    forall i {:trigger packets[i]} :: 0 <= i < |src| ==>
      Intact(packets[i].offset, src[i].actualLength, SumActual(src, i), compacted, expanded)
  }

  ghost predicate NoOverlap(packets: seq<Packet>, src: seq<IsoDescriptor>)
    requires |packets| == |src|
  {
    forall i, j, k :: 0 <= i < j < |src| && Covers(packets[i], src[i], k) ==> !Covers(packets[j], src[j], k)
  }

  /** A buffer that tells byte `one` from all others. */
  function Marker(size: nat, one: nat): (r: seq<byte>)
    ensures |r| == size
  {
    if size == 0 then [] else Marker(size - 1, one) + [if size - 1 == one then 1 else 0]
  }

  lemma {:induction false} MarkerAt(size: nat, one: nat, k: nat)
    requires k < size
    ensures Marker(size, one)[k] == if k == one then 1 else 0
  {
    if k < size - 1 {
      MarkerAt(size - 1, one, k);
    }
  }

  ghost predicate AlwaysFaithful(packets: seq<Packet>, src: seq<IsoDescriptor>, length: nat, size: nat)
    requires |packets| == |src|
  {
    forall bytes :: |bytes| == size ==> Faithful(packets, src, bytes, Expand(packets, src, length, bytes))
  }

  /** For an accepted reply: packets come out intact for all contents of the buffer exactly when
      their slots do not overlap. */
  lemma {:induction false} ExpansionIsFaithful(packets: seq<Packet>, src: seq<IsoDescriptor>, length: nat, size: nat)
    requires |packets| == |src| && Fits(packets, src, length, size)
    ensures NoOverlap(packets, src) <==> AlwaysFaithful(packets, src, length, size)
  {
    if NoOverlap(packets, src) {
      forall bytes | |bytes| == size ensures Faithful(packets, src, bytes, Expand(packets, src, length, bytes)) {
        DisjointIsFaithful(packets, src, length, size, bytes);
      }
    } else {
      var i: nat, j: nat, k: nat :| 0 <= i < j < |src| && Covers(packets[i], src[i], k) && Covers(packets[j], src[j], k);
      OverlapSpoils(packets, src, length, size, FirstCovering(packets, src, k, 0), j, k);
    }
  }

  /** A byte comes from the first packet whose slot has it. */
  lemma {:induction false} ExpandedAt(packets: seq<Packet>, src: seq<IsoDescriptor>, length: nat, size: nat,
                                      bytes: seq<byte>, i: nat, k: nat)
    requires |packets| == |src| && Fits(packets, src, length, size) && |bytes| >= size
    requires i < |src| && Covers(packets[i], src[i], k) && FirstCovering(packets, src, k, 0) == i
    ensures SumActual(src, i) <= packets[i].offset && packets[i].offset + src[i].actualLength <= size
    ensures Expand(packets, src, length, bytes)[k] == bytes[SumActual(src, i) + (k - packets[i].offset)]
  {
    assert PacketFits(packets[i].offset, src[i], SumActual(src, i), size);
    assert Base(src, length, i) == SumActual(src, i);
    var source := Base(src, length, i) + (k - packets[i].offset);
    assert 0 <= source < |bytes|;
    assert ExpandedByte(packets, src, length, bytes, k, 0) == bytes[source];
    ExpandPrefixAt(packets, src, length, bytes, |bytes|, k);
  }

  lemma {:induction false} OnlyCovering(packets: seq<Packet>, src: seq<IsoDescriptor>, i: nat, k: nat)
    requires |packets| == |src| && NoOverlap(packets, src) && i < |src| && Covers(packets[i], src[i], k)
    ensures FirstCovering(packets, src, k, 0) == i
  {
    var first := FirstCovering(packets, src, k, 0);
    assert first <= i;
  }

  lemma {:induction false} PacketIsIntact(packets: seq<Packet>, src: seq<IsoDescriptor>, length: nat, size: nat,
                                        bytes: seq<byte>, i: nat)
    requires |packets| == |src| && Fits(packets, src, length, size) && NoOverlap(packets, src) && |bytes| >= size
    requires i < |src|
    ensures Intact(packets[i].offset, src[i].actualLength, SumActual(src, i), bytes, Expand(packets, src, length, bytes))
  {
    var now := Expand(packets, src, length, bytes);
    var offset: nat, count: nat, start := packets[i].offset, src[i].actualLength, SumActual(src, i);
    assert PacketFits(offset, src[i], start, size);
    forall k: nat {:trigger now[k]} | offset <= k < offset + count ensures now[k] == bytes[start + (k - offset)] {
      OnlyCovering(packets, src, i, k);
      ExpandedAt(packets, src, length, size, bytes, i, k);
    }
    SlicesMatch(now, bytes, offset, start, count);
  }

  lemma {:induction false} SlicesMatch(now: seq<byte>, bytes: seq<byte>, offset: nat, start: nat, count: nat)
    requires count != 0 ==> offset + count <= |now| && start + count <= |bytes|
    requires forall k: nat {:trigger now[k]} :: offset <= k < offset + count ==> now[k] == bytes[start + (k - offset)]
    ensures Intact(offset, count, start, bytes, now)
  {
    var a, b := Slice(now, offset, count), Slice(bytes, start, count);
    if count != 0 {
      assert forall x :: 0 <= x < count ==> a[x] == now[offset + x] && b[x] == bytes[start + x];
    }
  }

  lemma {:induction false} SlicesDiffer(now: seq<byte>, bytes: seq<byte>, offset: nat, start: nat, count: nat, x: nat)
    requires x < count && offset + count <= |now| && start + count <= |bytes| && now[offset + x] != bytes[start + x]
    ensures !Intact(offset, count, start, bytes, now)
  {
    assert Slice(now, offset, count)[x] != Slice(bytes, start, count)[x];
  }

  lemma {:induction false} DisjointIsFaithful(packets: seq<Packet>, src: seq<IsoDescriptor>, length: nat, size: nat,
                                        bytes: seq<byte>)
    requires |packets| == |src| && Fits(packets, src, length, size) && NoOverlap(packets, src) && |bytes| >= size
    ensures Faithful(packets, src, bytes, Expand(packets, src, length, bytes))
  {
    forall i | 0 <= i < |src|
      ensures Intact(packets[i].offset, src[i].actualLength, SumActual(src, i), bytes, Expand(packets, src, length, bytes))
    {
      PacketIsIntact(packets, src, length, size, bytes, i);
    }
  }

  lemma {:induction false} MarkedByteLost(now: seq<byte>, source: nat, offset: nat, count: nat, start: nat, x: nat)
    requires x < count && offset + count <= |now| && start + count <= |now| && source < start
    requires now[offset + x] == Marker(|now|, start + x)[source]
    ensures !Intact(offset, count, start, Marker(|now|, start + x), now)
  {
    MarkerAt(|now|, start + x, source);
    MarkerAt(|now|, start + x, start + x);
    SlicesDiffer(now, Marker(|now|, start + x), offset, start, count, x);
  }

  lemma {:induction false} OverlapSpoils(packets: seq<Packet>, src: seq<IsoDescriptor>, length: nat, size: nat,
                                        i: nat, j: nat, k: nat)
    requires |packets| == |src| && Fits(packets, src, length, size)
    requires i < j < |src| && Covers(packets[j], src[j], k) && Covers(packets[i], src[i], k) && FirstCovering(packets, src, k, 0) == i
    ensures !AlwaysFaithful(packets, src, length, size)
  {
    var offset: nat, start, x: nat := packets[j].offset, SumActual(src, j), k - packets[j].offset;
    var bytes := Marker(size, start + x);
    var now := Expand(packets, src, length, bytes);
    assert PacketFits(offset, src[j], start, size);
    SumActualGrows(src, i, j);
    ExpandedAt(packets, src, length, size, bytes, i, k);
    MarkedByteLost(now, SumActual(src, i) + (k - packets[i].offset), offset, src[j].actualLength, start, x);
    assert !Faithful(packets, src, bytes, now);
  }

  /** A reply that keeps the offsets and lengths of the table that was sent. */
  ghost predicate KeepsTable(packets: seq<Packet>, size: uint32, src: seq<IsoDescriptor>)
    requires |packets| == |src|
  {
    && IsTable(packets, size)
    && forall i :: 0 <= i < |src| ==>
         && src[i].offset == packets[i].offset && src[i].offset + src[i].length == End(packets, size, i)
         && src[i].actualLength <= src[i].length
  }

  /** A reply that keeps the table is accepted when its lengths add up, and no slots overlap. */
  lemma {:induction false} KeptTableIsAccepted(packets: seq<Packet>, size: uint32, src: seq<IsoDescriptor>, length: nat)
    requires |packets| == |src| && KeepsTable(packets, size, src)
    ensures Fits(packets, src, length, size) <==> SumActual(src, |src|) == length
    ensures NoOverlap(packets, src)
  {
    forall i | 0 <= i < |src| ensures PacketFits(packets[i].offset, src[i], SumActual(src, i), size) {
      SumBelowOffset(packets, size, src, i);
    }
    forall i, j, k | 0 <= i < j < |src| && Covers(packets[i], src[i], k) ensures !Covers(packets[j], src[j], k) {
      assert packets[i + 1].offset <= packets[j].offset;
    }
  }

  lemma {:induction false} SumBelowOffset(packets: seq<Packet>, size: uint32, src: seq<IsoDescriptor>, i: nat)
    requires |packets| == |src| && KeepsTable(packets, size, src) && i < |src|
    ensures SumActual(src, i) <= packets[i].offset
  {
    if i > 0 {
      SumBelowOffset(packets, size, src, i - 1);
      assert src[i - 1].offset + src[i - 1].length == packets[i].offset;
    }
  }

  /** From repack to fill_isoc_data: a reply that keeps the offsets and lengths that were sent, with as much
      data as its packets say, is accepted, and every packet gets its own bytes. */
  lemma {:induction false} KeptReplyIsIntact(packets: seq<Packet>, size: uint32, sent: seq<IsoDescriptor>,
                                             src: seq<IsoDescriptor>, length: nat, bytes: seq<byte>)
    requires |packets| == |sent| == |src| && IsTable(packets, size) && |bytes| >= size
    requires forall i :: 0 <= i < |packets| ==>
      packets[i].offset <= End(packets, size, i) && sent[i] == TableEntry(packets, size, i)
    requires forall i :: 0 <= i < |src| ==>
      src[i].offset == sent[i].offset && src[i].length == sent[i].length && src[i].actualLength <= src[i].length
    requires SumActual(src, |src|) == length
    ensures Fits(packets, src, length, size)
    ensures Faithful(packets, src, bytes, Expand(packets, src, length, bytes))
  {
    assert KeepsTable(packets, size, src);
    KeptTableIsAccepted(packets, size, src, length);
    DisjointIsFaithful(packets, src, length, size, bytes);
  }

  /** What the server does before it sends: the data of the first n packets without gaps. */
  function Compact(packets: seq<Packet>, src: seq<IsoDescriptor>, data: seq<byte>, n: nat): seq<byte>
    requires |packets| == |src| && n <= |src|
  {
    if n == 0 then []
    else Compact(packets, src, data, n - 1) + Slice(data, packets[n - 1].offset, src[n - 1].actualLength)
  }

  lemma {:induction false} CompactFaithful(packets: seq<Packet>, src: seq<IsoDescriptor>, compacted: seq<byte>,
                                           expanded: seq<byte>, n: nat)
    requires |packets| == |src| && n <= |src| && SumActual(src, n) <= |compacted|
    requires Faithful(packets, src, compacted, expanded)
    ensures Compact(packets, src, expanded, n) == compacted[..SumActual(src, n)]
  {
    if n > 0 {
      CompactFaithful(packets, src, compacted, expanded, n - 1);
      var count: nat, start := src[n - 1].actualLength, SumActual(src, n - 1);
      assert Intact(packets[n - 1].offset, count, start, compacted, expanded);
      assert Slice(expanded, packets[n - 1].offset, count) == Slice(compacted, start, count) by {
        if count == 0 {
          assert Slice(expanded, packets[n - 1].offset, 0) == [] == Slice(compacted, start, 0);
        }
      }
      SliceExtendsPrefix(compacted, start, count);
    }
  }

  lemma SliceExtendsPrefix(s: seq<byte>, start: nat, count: nat)
    requires start + count <= |s|
    ensures s[..start] + Slice(s, start, count) == s[..start + count]
  {
  }

  /** Round trip: compacting the expanded buffer gives the bytes that were received. */
  lemma {:induction false} CompactInvertsExpand(packets: seq<Packet>, src: seq<IsoDescriptor>, length: nat, size: nat,
                                                bytes: seq<byte>)
    requires |packets| == |src| && Fits(packets, src, length, size) && NoOverlap(packets, src)
    requires length <= size <= |bytes|
    ensures Compact(packets, src, Expand(packets, src, length, bytes), |src|) == bytes[..length]
  {
    DisjointIsFaithful(packets, src, length, size, bytes);
    CompactFaithful(packets, src, bytes, Expand(packets, src, length, bytes), |src|);
  }

  /** The 32-bit sum in the bounds check (wsk_receive.cpp, line 145) is exact for all packets and
      replies exactly when the transfer buffer has at most 2^31 bytes. */
  lemma {:induction false} BoundsCheckIsExact(size: uint32)
    ensures size <= TWO_31 <==>
            forall offset: uint32, count: uint32 ::
              offset <= size && count <= size && count < TWO_31 && PassesCheck(offset, count, size) ==> offset + count <= size
  {
    if size > TWO_31 {
      assert PassesCheck(size, TWO_32 - size, size);
    }
  }

  /** In a buffer of at most 2^31 bytes no packet of a table is moved out of the buffer. */
  lemma {:induction false} StaysInside(packets: seq<Packet>, src: seq<IsoDescriptor>, rest: nat, size: uint32, n: nat)
    requires |packets| == |src| && n <= |src| && IsTable(packets, size)
    requires rest <= size <= TWO_31 && rest < TWO_31
    ensures Outcome(packets, src, rest, size, n) != OutsideBuffer
    decreases n
  {
    if n > 0 && PacketOutcome(packets[n - 1].offset, src[n - 1], rest, size) == Success {
      StaysInside(packets, src, rest - src[n - 1].actualLength, size, n - 1);
    }
  }

  /** Some reply makes the loop move bytes out of the transfer buffer. The packets are a table, as repack
      demands, and the data of the reply fit the buffer and a signed 32-bit length. */
  ghost predicate CanLeaveBuffer(size: uint32) {
    exists packets: seq<Packet>, src: seq<IsoDescriptor>, length: nat ::
      |packets| == |src| && IsTable(packets, size) && length <= size && length < TWO_31
      && Outcome(packets, src, length, size, |src|) == OutsideBuffer
  }

  /** The loop can write outside the transfer buffer if and only if this has more than 2^31 bytes. */
  lemma {:induction false} LeavesBufferExactly(size: uint32)
    ensures CanLeaveBuffer(size) <==> size > TWO_31
  {
    if size > TWO_31 {
      var count := TWO_32 - size;
      var packets, src := [Packet(size, 0, 0)], [IsoDescriptor(size, count, count, 0)];
      assert PacketOutcome(size, src[0], count, size) == OutsideBuffer;
      assert Outcome(packets, src, count, size, |src|) == OutsideBuffer;
      assert IsTable(packets, size);
    } else {
      forall packets: seq<Packet>, src: seq<IsoDescriptor>, length: nat
        | |packets| == |src| && IsTable(packets, size) && length <= size && length < TWO_31
        ensures Outcome(packets, src, length, size, |src|) != OutsideBuffer
      {
        StaysInside(packets, src, length, size, |src|);
      }
    }
  }

  /** The sum of the lengths that repack asserts: it is the size of the buffer exactly if the first packet
      starts at zero, or there is none and the buffer is empty. */
  lemma {:induction false} LengthsFillBuffer(d: seq<IsoDescriptor>, packets: seq<Packet>, size: uint32)
    requires |d| == |packets| && IsTable(packets, size)
    requires forall i :: 0 <= i < |packets| ==>
               packets[i].offset <= End(packets, size, i) && d[i] == TableEntry(packets, size, i)
    ensures SumLengths(d) == size <==> if packets == [] then size == 0 else packets[0].offset == 0
  {
    LengthsTelescope(d, packets, size);
  }

  /** One packet that does not start at zero: repack accepts it, and its length is not the buffer's size. */
  lemma FirstOffsetNotZero(offset: uint32, size: uint32)
    requires 0 < offset <= size
    ensures var packets := [Packet(offset, 0, 0)];
      IsTable(packets, size) && offset <= End(packets, size, 0) && SumLengths([TableEntry(packets, size, 0)]) != size
  {
    var packets := [Packet(offset, 0, 0)];
    var d := [TableEntry(packets, size, 0)];
    LengthsFillBuffer(d, packets, size);
  }
}
