/** The USB/IP header in memory (drivers/libdrv/pdu.cpp, include/usbip/proto.h, and
    validate_header in drivers/ude/wsk_receive.cpp).

    A header is twelve 32-bit words as a little-endian machine loads them. The wire order is
    big-endian (USB/IP protocol, Documentation/usb/usbip_protocol.rst of the Linux kernel). */
module Pdu {
  import opened Words
  import opened Seqnum

  const CMD_SUBMIT: uint32 := 1
  const CMD_UNLINK: uint32 := 2
  const RET_SUBMIT: uint32 := 3
  const RET_UNLINK: uint32 := 4

  const WORDS: nat := 12
  const HEADER_SIZE: nat := 48
  const ISO_DESCRIPTOR_SIZE: nat := 16
  const MAX_ISO_PACKETS: int := 1024
  const NON_ISOCH: int := -1
  const SIZE_T: int := 0x1_0000_0000_0000_0000

  // word positions
  const COMMAND := 0
  const SEQNUM := 1
  const DIRECTION := 3
  const ACTUAL_LENGTH := 6
  const NUMBER_OF_PACKETS := 8

  type Header = h: seq<uint32> | |h| == WORDS witness [0, 0, 0, 0, 0, 0, 0, 0, 0, 0, 0, 0]

  /** RtlUlongByteSwap */
  function ByteSwap(w: uint32): uint32 {
    FromBytes(ByteAt(w, 3), ByteAt(w, 2), ByteAt(w, 1), ByteAt(w, 0))
  }

  lemma ByteSwapTwice(w: uint32)
    ensures ByteSwap(ByteSwap(w)) == w
  {
    BytesOfWord(ByteAt(w, 3), ByteAt(w, 2), ByteAt(w, 1), ByteAt(w, 0));
    WordOfBytes(w);
  }

  /** Words [from, end) swapped. */
  function SwapRange(h: seq<uint32>, from: int, end: int): (r: seq<uint32>)
    ensures |r| == |h|
    ensures forall i :: 0 <= i < |h| ==> r[i] == if from <= i < end then ByteSwap(h[i]) else h[i]
    decreases |h|
  {
    if h == [] then []
    else
      var tail := SwapRange(h[1..], from - 1, end - 1);
      var r := [if from <= 0 < end then ByteSwap(h[0]) else h[0]] + tail;
      assert forall i :: 1 <= i < |h| ==> r[i] == tail[i - 1];
      r
  }

  /** Where the words of the command's own part end; they start after the basic header. */
  function BodyEnd(command: uint32): nat {
    if command == CMD_SUBMIT || command == RET_SUBMIT then 10
    else if command == CMD_UNLINK || command == RET_UNLINK then 6
    else 5
  }

  function NetToHost(h: Header): Header {
    var b := SwapRange(h, 0, 5);
    SwapRange(b, 5, BodyEnd(b[COMMAND]))
  }

  function HostToNet(h: Header): Header {
    SwapRange(SwapRange(h, 5, BodyEnd(h[COMMAND])), 0, 5)
  }

  method SwapWords(hdr: array<uint32>, from: nat, end: nat)
    requires from <= end <= hdr.Length
    modifies hdr
    ensures hdr[..] == SwapRange(old(hdr[..]), from, end)
  {
    for i := from to end
      invariant hdr[..] == SwapRange(old(hdr[..]), from, i)
    {
      hdr[i] := ByteSwap(hdr[i]);
    }
  }

  method ByteswapHeader(hdr: array<uint32>, net2host: bool)
    requires hdr.Length == WORDS
    modifies hdr
    ensures hdr[..] == if net2host then NetToHost(old(hdr[..])) else HostToNet(old(hdr[..]))
  {
    if net2host {
      SwapWords(hdr, 0, 5);
    }
    if hdr[COMMAND] == CMD_SUBMIT || hdr[COMMAND] == RET_SUBMIT {
      SwapWords(hdr, 5, 10);
    } else if hdr[COMMAND] == CMD_UNLINK || hdr[COMMAND] == RET_UNLINK {
      SwapWords(hdr, 5, 6);
    } else {
      assert SwapRange(hdr[..], 5, 5) == hdr[..];
    }
    if !net2host {
      SwapWords(hdr, 0, 5);
    }
  }

  lemma {:induction false} RangesUndo(h: Header, n: nat)
    requires 5 <= n <= WORDS
    ensures SwapRange(SwapRange(SwapRange(SwapRange(h, 0, 5), 5, n), 5, n), 0, 5) == h
    ensures SwapRange(SwapRange(SwapRange(SwapRange(h, 5, n), 0, 5), 0, 5), 5, n) == h
  {
    forall i | 0 <= i < WORDS ensures ByteSwap(ByteSwap(h[i])) == h[i] {
      ByteSwapTwice(h[i]);
    }
  }

  /** The two directions of the swap are inverse to each other on all headers, whatever the
      command word is. */
  lemma {:induction false} SwapsAreInverse(h: Header)
    ensures HostToNet(NetToHost(h)) == h && NetToHost(HostToNet(h)) == h
  {
    RangesUndo(h, BodyEnd(ByteSwap(h[COMMAND])));
    RangesUndo(h, BodyEnd(h[COMMAND]));
    ByteSwapTwice(h[COMMAND]);
    assert SwapRange(HostToNet(h), 0, 5)[COMMAND] == h[COMMAND];
  }

  /** get_payload_size, as the size_t that the pointer arithmetic gives. */
  function PayloadSize(h: Header): nat {
    if h[COMMAND] == RET_SUBMIT then
      var data := if h[DIRECTION] == 0 then 0 else Signed(h[ACTUAL_LENGTH]);
      var packets := Signed(h[NUMBER_OF_PACKETS]);
      (data + ISO_DESCRIPTOR_SIZE * (if packets == NON_ISOCH then 0 else packets)) % SIZE_T
    else 0  // RET_UNLINK
  }

  /** What a header becomes when validate_header accepts it. */
  function Validated(h: Header): Header {
    var d := h[DIRECTION := if ExtractDirIn(h[SEQNUM]) then 1 else 0];
    if h[COMMAND] == RET_SUBMIT && Signed(h[NUMBER_OF_PACKETS]) == NON_ISOCH then d[NUMBER_OF_PACKETS := 0] else d
  }

  predicate IsReply(h: Header) {
    && (h[COMMAND] == RET_SUBMIT || h[COMMAND] == RET_UNLINK) && IsValid(h[SEQNUM])
    && (h[COMMAND] == RET_SUBMIT ==> NON_ISOCH <= Signed(h[NUMBER_OF_PACKETS]) <= MAX_ISO_PACKETS)
  }

  method ValidateHeader(hdr: array<uint32>) returns (ok: bool)
    requires hdr.Length == WORDS
    modifies hdr
    ensures ok == IsReply(NetToHost(old(hdr[..])))
    ensures ok ==> hdr[..] == Validated(NetToHost(old(hdr[..])))
  {
    ByteswapHeader(hdr, true);
    ghost var h: Header := hdr[..];
    if hdr[COMMAND] == RET_SUBMIT {
      var packets := Signed(hdr[NUMBER_OF_PACKETS]);
      if packets == NON_ISOCH {
        hdr[NUMBER_OF_PACKETS] := 0;
      } else if !(0 <= packets <= MAX_ISO_PACKETS) {
        return false;
      }
    } else if hdr[COMMAND] != RET_UNLINK {
      return false;
    }
    ok := IsValid(hdr[SEQNUM]);
    if ok {
      hdr[DIRECTION] := if ExtractDirIn(hdr[SEQNUM]) then 1 else 0;
      assert hdr[..] == Validated(h);
    }
  }
}
