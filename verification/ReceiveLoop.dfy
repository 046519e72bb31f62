/** Framing of the replies: the receive loop reads a header, decides how many bytes of payload
    follow, and reads or drains exactly these (drivers/ude/wsk_receive.cpp, recv_loop). */
module ReceiveLoop {
  import opened Words
  import opened Seqnum
  import opened Pdu

  /** What the loop cannot know in advance in one turn: whether the device is unplugged at the
      two tests, whether the request is still in the list, and whether buffers for the payload
      can be prepared (prepare_wsk_mdl or the allocation of drain_payload). */
  datatype Turn = Turn(unpluggedBefore: bool, known: bool, unpluggedAfter: bool, ready: bool)

  /** A header that was read and accepted, and where it was read. */
  datatype Received = Received(pos: nat, header: Header)

  // ---- bytes

  /** The words that the bytes hold. */
  function Load(b: seq<byte>): (h: seq<uint32>)
    requires |b| % 4 == 0
    ensures 4 * |h| == |b|
  {
    if b == [] then [] else [Word(b[..4])] + Load(b[4..])
  }

  function Store(h: seq<uint32>): (b: seq<byte>)
    ensures |b| == 4 * |h|
  {
    if h == [] then [] else WordBytes(h[0]) + Store(h[1..])
  }

  /** A word on the wire: the most significant byte first. */
  function BigEndian(w: uint32): (b: seq<byte>)
    ensures |b| == 4
  {
    [w / 0x100_0000, w / 0x1_0000 % 0x100, w / 0x100 % 0x100, w % 0x100]
  }

  /** Words on the wire. */
  function Wire(h: seq<uint32>): (b: seq<byte>)
    ensures |b| == 4 * |h|
  {
    if h == [] then [] else BigEndian(h[0]) + Wire(h[1..])
  }

  lemma SwappedIsBigEndian(w: uint32)
    ensures WordBytes(ByteSwap(w)) == BigEndian(w)
  {
    BytesOfWord(ByteAt(w, 3), ByteAt(w, 2), ByteAt(w, 1), ByteAt(w, 0));
  }

  lemma {:induction false} StoredIsWire(s: seq<uint32>, h: seq<uint32>)
    requires |s| == |h| && forall i :: 0 <= i < |h| ==> WordBytes(s[i]) == BigEndian(h[i])
    ensures Store(s) == Wire(h)
  {
    hide BigEndian, WordBytes;
    if h != [] {
      StoredIsWire(s[1..], h[1..]);
    }
  }

  /** How many words of a header with this command are numbers in network byte order. */
  function Swapped(command: uint32): nat {
    if command == 1 || command == 3 then 10 else if command == 2 || command == 4 then 6 else 5
  }

  /** The bytes that are sent: the words of the basic header and of the part that belongs to the command in
      big-endian order, the setup packet or unused words as they are in memory. */
  lemma {:induction false} SentBytes(h: Header, i: nat)
    requires i < WORDS
    ensures Store(HostToNet(h))[4 * i..4 * i + 4] == if i < Swapped(h[0]) then BigEndian(h[i]) else WordBytes(h[i])
  {
    hide BigEndian, WordBytes, ByteSwap;
    StoreAt(HostToNet(h), i);
    SwappedIsBigEndian(h[i]);
  }

  lemma {:induction false} StoreAt(h: seq<uint32>, i: nat)
    requires i < |h|
    ensures Store(h)[4 * i..4 * i + 4] == WordBytes(h[i])
  {
    hide WordBytes;
    if i > 0 {
      var rest := Store(h[1..]);
      StoreAt(h[1..], i - 1);
      assert forall k :: 4 * i <= k < 4 * i + 4 ==> Store(h)[k] == rest[k - 4];
      assert Store(h)[4 * i..4 * i + 4] == rest[4 * (i - 1)..4 * (i - 1) + 4];
    }
  }

  lemma {:induction false} LoadInvertsStore(h: seq<uint32>)
    ensures Load(Store(h)) == h
  {
    if h != [] {
      WordOfWordBytes(h[0]);
      LoadInvertsStore(h[1..]);
    }
  }

  // ---- the loop

  /** A header that was accepted, and the size of its payload. */
  datatype Frame = NoFrame | Frame(header: Header, payload: nat)

  /** What reading a header at byte p gives. */
  function FrameAt(stream: seq<byte>, p: nat): Frame {
    if p + HEADER_SIZE > |stream| then NoFrame
    else
      var h := NetToHost(Load(stream[p..p + HEADER_SIZE]));
      if IsReply(h) then Frame(Validated(h), PayloadSize(Validated(h))) else NoFrame
  }

  /** The word on the wire at byte p. */
  function WordAt(stream: seq<byte>, p: nat): uint32
    requires p + 4 <= |stream|
  {
    FromBytes(stream[p + 3], stream[p + 2], stream[p + 1], stream[p])
  }

  lemma {:induction false} LoadAt(b: seq<byte>, i: nat)
    requires |b| % 4 == 0 && 4 * i + 4 <= |b|
    ensures Load(b)[i] == Word(b[4 * i..4 * i + 4])
  {
    hide Word;
    if i > 0 {
      LoadAt(b[4..], i - 1);
      PartOfPart(b, 4, |b|, 4 * (i - 1));
      assert b[4..|b|] == b[4..];
    }
  }

  lemma SwappedWord(stream: seq<byte>, p: nat)
    requires p + 4 <= |stream|
    ensures ByteSwap(Word(stream[p..p + 4])) == WordAt(stream, p)
  {
    hide FromBytes, ByteAt;
    assert Word(stream[p..p + 4]) == FromBytes(stream[p], stream[p + 1], stream[p + 2], stream[p + 3]);
    BytesOfWord(stream[p], stream[p + 1], stream[p + 2], stream[p + 3]);
  }

  lemma PartOfPart(s: seq<byte>, from: nat, end: nat, k: nat)
    requires from + k + 4 <= end <= |s|
    ensures s[from..end][k..k + 4] == s[from + k..from + k + 4]
  {
    var part := s[from..end][k..k + 4];
    assert forall j :: 0 <= j < 4 ==> part[j] == s[from..end][k + j] == s[from + (k + j)];
  }

  /** The words of a header that was read are the big-endian words of the stream, as many as its command has. */
  lemma {:induction false} HeaderWord(stream: seq<byte>, p: nat, i: nat)
    requires p + HEADER_SIZE <= |stream| && i < Swapped(WordAt(stream, p))
    ensures NetToHost(Load(stream[p..p + HEADER_SIZE]))[i] == WordAt(stream, p + 4 * i)
  {
    hide ByteSwap, Word, WordAt, Load;
    var b := stream[p..p + HEADER_SIZE];
    LoadAt(b, 0);
    LoadAt(b, i);
    PartOfPart(stream, p, p + HEADER_SIZE, 0);
    PartOfPart(stream, p, p + HEADER_SIZE, 4 * i);
    SwappedWord(stream, p);
    SwappedWord(stream, p + 4 * i);
  }

  /** Which headers are accepted, and how much payload follows them, in terms of the words on the wire. The command
      is RET_SUBMIT (3) or RET_UNLINK (4), the number in the upper 31 bits of the sequence number is not zero, and
      there are at most 1024 packets, or -1 for none. The data of an IN transfer follow, and 16 bytes a packet. */
  lemma {:induction false} FrameExactly(stream: seq<byte>, p: nat)
    ensures FrameAt(stream, p) != NoFrame <==>
      && p + 48 <= |stream| && (WordAt(stream, p) == 3 || WordAt(stream, p) == 4) && WordAt(stream, p + 4) >= 2
      && (WordAt(stream, p) == 3 ==> -1 <= Signed(WordAt(stream, p + 32)) <= 1024)
    ensures FrameAt(stream, p) != NoFrame && WordAt(stream, p) == 4 ==> FrameAt(stream, p).payload == 0
    ensures FrameAt(stream, p) != NoFrame && WordAt(stream, p) == 3 ==>
      var data := if WordAt(stream, p + 4) % 2 == 1 then Signed(WordAt(stream, p + 24)) else 0;
      var packets := if Signed(WordAt(stream, p + 32)) == -1 then 0 else Signed(WordAt(stream, p + 32));
      FrameAt(stream, p).payload == (data + 16 * packets) % 0x1_0000_0000_0000_0000
    ensures FrameAt(stream, p) != NoFrame ==> HeaderFrom(FrameAt(stream, p).header, stream, p)
  {
    hide Load, WordAt, NetToHost, HeaderFrom;
    if p + HEADER_SIZE <= |stream| {
      HeaderWord(stream, p, 0);
      HeaderWord(stream, p, 1);
      if WordAt(stream, p) == 3 {
        HeaderWord(stream, p, 6);
        HeaderWord(stream, p, 8);
      }
      if FrameAt(stream, p) != NoFrame {
        HeaderWords(stream, p);
      }
    }
  }

  /** The header as the driver uses it: the words of the wire, but the direction of the request, and no packets for
      a transfer that is not isochronous. */
  ghost predicate HeaderFrom(h: Header, stream: seq<byte>, p: nat)
    requires p + HEADER_SIZE <= |stream|
  {
    && h[0] == WordAt(stream, p) && h[1] == WordAt(stream, p + 4) && h[2] == WordAt(stream, p + 8)
    && h[3] == h[1] % 2 && h[4] == WordAt(stream, p + 16) && h[5] == WordAt(stream, p + 20)
    && (h[0] == 3 ==>
          && h[6] == WordAt(stream, p + 24) && h[7] == WordAt(stream, p + 28) && h[9] == WordAt(stream, p + 36)
          && h[8] == if Signed(WordAt(stream, p + 32)) == -1 then 0 else WordAt(stream, p + 32))
  }

  lemma {:induction false} HeaderWords(stream: seq<byte>, p: nat)
    requires p + HEADER_SIZE <= |stream| && FrameAt(stream, p) != NoFrame
    ensures HeaderFrom(FrameAt(stream, p).header, stream, p)
  {
    hide Load, WordAt, NetToHost, PayloadSize;
    HeaderWord(stream, p, 0);
    HeaderWord(stream, p, 1);
    HeaderWord(stream, p, 2);
    HeaderWord(stream, p, 4);
    HeaderWord(stream, p, 5);
    if WordAt(stream, p) == 3 {
      HeaderWord(stream, p, 6);
      HeaderWord(stream, p, 7);
      HeaderWord(stream, p, 8);
      HeaderWord(stream, p, 9);
    }
  }

  /** Whether the loop goes on after a header that was accepted at pos. */
  predicate GoesOn(size: nat, pos: nat, payload: nat, turn: Turn) {
    payload == 0
    || (!turn.unpluggedAfter && turn.ready && (turn.known || payload < TWO_32) && pos + HEADER_SIZE + payload <= size)
  }

  /** The headers that the loop accepts from byte pos on, turn by turn. */
  function Headers(stream: seq<byte>, pos: nat, turns: seq<Turn>): seq<Received>
    decreases |turns|
  {
    if turns == [] || turns[0].unpluggedBefore then []
    else
      match FrameAt(stream, pos)
      case NoFrame => []
      case Frame(h, payload) =>
        [Received(pos, h)] + (
          if GoesOn(|stream|, pos, payload, turns[0]) then Headers(stream, pos + HEADER_SIZE + payload, turns[1..])
          else [])
  }

  lemma {:induction false} LoadFirst(b: seq<byte>)
    requires |b| % 4 == 0 && |b| >= 4
    ensures Load(b) == [Word(b[..4])] + Load(b[4..])
  {
  }

  method LoadHeader(hdr: array<uint32>, bytes: seq<byte>)
    requires hdr.Length == WORDS && |bytes| == HEADER_SIZE
    modifies hdr
    ensures hdr[..] == Load(bytes)
  {
    hide Load, Word;
    ghost var goal := Load(bytes);
    var i, rest := 0, bytes;
    assert hdr[..0] + goal == goal;
    while i < WORDS
      invariant 0 <= i <= WORDS && |rest| == HEADER_SIZE - 4 * i
      invariant hdr[..i] + Load(rest) == goal
    {
      LoadFirst(rest);
      WordMoves(hdr[..i], Word(rest[..4]), Load(rest[4..]));
      hdr[i] := Word(rest[..4]);
      i, rest := i + 1, rest[4..];
      assert hdr[..i] == hdr[..i - 1] + [hdr[i - 1]];
    }
    assert hdr[..i] == hdr[..] && Load(rest) == [];
  }

  lemma WordMoves(loaded: seq<uint32>, w: uint32, tail: seq<uint32>)
    ensures loaded + ([w] + tail) == loaded + [w] + tail
  {
  }

  /** recv_usbip_header and get_payload_size */
  method ReadFrame(hdr: array<uint32>, stream: seq<byte>, pos: nat) returns (frame: Frame)
    requires hdr.Length == WORDS
    modifies hdr
    ensures frame == FrameAt(stream, pos)
  {
    hide Load, NetToHost, IsReply, Validated, PayloadSize;
    if pos + HEADER_SIZE > |stream| {
      return NoFrame;
    }
    LoadHeader(hdr, stream[pos..pos + HEADER_SIZE]);
    var ok := ValidateHeader(hdr);
    if !ok {
      return NoFrame;
    }
    return Frame(hdr[..], PayloadSize(hdr[..]));
  }

  /** One turn of the loop. */
  lemma {:induction false} OneTurn(stream: seq<byte>, pos: nat, turns: seq<Turn>, i: nat, received: seq<Received>)
    requires i < |turns| && !turns[i].unpluggedBefore
    ensures var frame := FrameAt(stream, pos);
      received + Headers(stream, pos, turns[i..]) ==
        if frame.NoFrame? then received
        else if !GoesOn(|stream|, pos, frame.payload, turns[i]) then received + [Received(pos, frame.header)]
        else received + [Received(pos, frame.header)]
             + Headers(stream, pos + HEADER_SIZE + frame.payload, turns[i + 1..])
  {
    hide FrameAt;
    assert turns[i..][0] == turns[i] && turns[i..][1..] == turns[i + 1..];
  }

  lemma {:induction false} NoTurn(stream: seq<byte>, pos: nat, turns: seq<Turn>, i: nat)
    requires i <= |turns| && (i < |turns| ==> turns[i].unpluggedBefore)
    ensures Headers(stream, pos, turns[i..]) == []
  {
  }

  /** recv_loop */
  method RecvLoop(stream: seq<byte>, turns: seq<Turn>) returns (received: seq<Received>)
    ensures received == Headers(stream, 0, turns)
  {
    hide FrameAt, Headers;
    received := [];
    var pos: nat, i: nat := 0, 0;
    var hdr := new uint32[WORDS];
    ghost var expected := Headers(stream, 0, turns);
    assert turns[0..] == turns && [] + expected == expected;
    while i < |turns| && !turns[i].unpluggedBefore
      invariant 0 <= i <= |turns| && fresh(hdr) && hdr.Length == WORDS
      invariant expected == received + Headers(stream, pos, turns[i..])
      decreases |turns| - i
    {
      OneTurn(stream, pos, turns, i, received);
      var frame := ReadFrame(hdr, stream, pos);
      if frame == NoFrame {
        return;
      }
      received := received + [Received(pos, frame.header)];
      if !GoesOn(|stream|, pos, frame.payload, turns[i]) {
        return;
      }
      pos, i := pos + HEADER_SIZE + frame.payload, i + 1;
    }
    NoTurn(stream, pos, turns, i);
  }

  /** The loop reads nothing once the device is unplugged; it goes on after a reply with a payload only if the
      device is still plugged in and the payload could be read or drained. */
  lemma {:induction false} StopsWhenUnplugged(stream: seq<byte>, pos: nat, turns: seq<Turn>, i: nat)
    requires i < |turns|
    ensures var received := Headers(stream, pos, turns);
      && (turns[i].unpluggedBefore ==> |received| <= i)
      && (i + 1 < |received| ==>
            PayloadSize(received[i].header) == 0 || (!turns[i].unpluggedAfter && turns[i].ready))
      && (i + 1 < |received| ==>
            received[i + 1].pos == received[i].pos + HEADER_SIZE + PayloadSize(received[i].header) <= |stream|)
    decreases i
  {
    hide PayloadSize, Validated, IsReply, NetToHost, Load;
    if !turns[0].unpluggedBefore && FrameAt(stream, pos).Frame? {
      var Frame(_, payload) := FrameAt(stream, pos);
      if GoesOn(|stream|, pos, payload, turns[0]) {
        if i > 0 {
          StopsWhenUnplugged(stream, pos + HEADER_SIZE + payload, turns[1..], i - 1);
        } else {
          NextHeader(stream, pos + HEADER_SIZE + payload, turns[1..]);
        }
      }
    }
  }

  lemma NextHeader(stream: seq<byte>, pos: nat, turns: seq<Turn>)
    ensures var received := Headers(stream, pos, turns); received != [] ==> received[0].pos == pos <= |stream|
  {
    hide PayloadSize, Validated, IsReply, NetToHost, Load;
  }

  // ---- a conforming server

  /** A reply of a server that follows the protocol: it echoes the sequence number, zeroes the
      rest of the basic header and sends what was transferred without gaps. */
  datatype Reply =
    | RetSubmit(seqnum: uint32, status: uint32, actualLength: nat, startFrame: uint32, packets: int, errorCount: uint32,
                data: seq<byte>, isoc: seq<byte>)
    | RetUnlink(seqnum: uint32, status: uint32)

  ghost predicate Conforms(r: Reply) {
    && IsValid(r.seqnum)
    && (r.RetSubmit? ==>
          && r.actualLength < TWO_31 && NON_ISOCH <= r.packets <= MAX_ISO_PACKETS
          && |r.data| == (if ExtractDirIn(r.seqnum) then r.actualLength else 0)
          && |r.isoc| == if r.packets == NON_ISOCH then 0 else ISO_DESCRIPTOR_SIZE * r.packets)
  }

  function Unsigned(n: int): uint32 { n % TWO_32 }

  lemma SignedOfUnsigned(n: int)
    requires -TWO_31 <= n < TWO_31
    ensures Signed(Unsigned(n)) == n
  {
    assert Unsigned(n) == if n < 0 then n + TWO_32 else n;
  }

  /** The header in host order. */
  function HeaderOf(r: Reply): Header
  {
    match r
    case RetUnlink(n, status) => [RET_UNLINK, n, 0, 0, 0, status, 0, 0, 0, 0, 0, 0]
    case RetSubmit(n, status, actual, start, packets, errors, _, _) =>
      [RET_SUBMIT, n, 0, 0, 0, status, Unsigned(actual), start, Unsigned(packets), errors, 0, 0]
  }

  /** The header that the driver works with: the direction is the one of the request. */
  function Recovered(r: Reply): Header
  {
    var h := HeaderOf(r)[DIRECTION := if ExtractDirIn(r.seqnum) then 1 else 0];
    if r.RetSubmit? && r.packets == NON_ISOCH then h[NUMBER_OF_PACKETS := 0] else h
  }

  function Encode(r: Reply): (b: seq<byte>)
    ensures |b| >= HEADER_SIZE
  {
    Wire(HeaderOf(r)) + if r.RetSubmit? then r.data + r.isoc else []
  }

  ghost predicate AllConform(replies: seq<Reply>) {
    forall r :: r in replies ==> Conforms(r)
  }

  function EncodeAll(replies: seq<Reply>): (chunks: seq<seq<byte>>)
    ensures |chunks| == |replies|
  {
    if replies == [] then [] else [Encode(replies[0])] + EncodeAll(replies[1..])
  }

  /** Where the i-th chunk starts. */
  function Boundary(chunks: seq<seq<byte>>, i: nat): nat
    requires i <= |chunks|
  {
    if i == 0 then 0 else |chunks[0]| + Boundary(chunks[1..], i - 1)
  }

  lemma PayloadFollows(r: Reply, v: Header)
    requires Conforms(r) && r.RetSubmit? && v[COMMAND] == RET_SUBMIT
    requires v[DIRECTION] == (if ExtractDirIn(r.seqnum) then 1 else 0) && Signed(v[ACTUAL_LENGTH]) == r.actualLength
    requires Signed(v[NUMBER_OF_PACKETS]) == if r.packets == NON_ISOCH then 0 else r.packets
    ensures PayloadSize(v) == |r.data| + |r.isoc| < TWO_32
  {
  }

  /** The header of a conforming reply is accepted, gets the direction of its request back, and
      the payload size computed from it is what the server sends after it. */
  lemma HeaderIsRecovered(r: Reply)
    requires Conforms(r)
    ensures IsReply(HeaderOf(r)) && Validated(HeaderOf(r)) == Recovered(r)
    ensures HEADER_SIZE + PayloadSize(Recovered(r)) == |Encode(r)|
    ensures PayloadSize(Recovered(r)) < TWO_32
  {
    var h := HeaderOf(r);
    assert |Encode(r)| == HEADER_SIZE + if r.RetSubmit? then |r.data| + |r.isoc| else 0;
    if r.RetSubmit? {
      SignedOfUnsigned(r.actualLength);
      SignedOfUnsigned(r.packets);
      assert h[COMMAND] == RET_SUBMIT && h[SEQNUM] == r.seqnum;
      assert Signed(h[ACTUAL_LENGTH]) == r.actualLength && Signed(h[NUMBER_OF_PACKETS]) == r.packets;
      PayloadFollows(r, Recovered(r));
    }
  }

  function FrameOf(r: Reply): Frame {
    Frame(Recovered(r), |Encode(r)| - HEADER_SIZE)
  }

  /** Reading where a reply starts gives its frame; of the reply only the header has to be there. */
  lemma {:induction false} ReplyIsFramed(r: Reply, stream: seq<byte>, pos: nat)
    requires Conforms(r) && pos + HEADER_SIZE <= |stream|
    requires stream[pos..pos + HEADER_SIZE] == Encode(r)[..HEADER_SIZE]
    ensures FrameAt(stream, pos) == FrameOf(r)
  {
    hide NetToHost, HostToNet, Load, Store, IsReply, Validated, PayloadSize, HeaderOf, Recovered;
    EncodedHeader(r);
    LoadInvertsStore(HostToNet(HeaderOf(r)));
    SwapsAreInverse(HeaderOf(r));
    HeaderIsRecovered(r);
  }

  lemma {:induction false} EncodedHeader(r: Reply)
    ensures Encode(r)[..HEADER_SIZE] == Store(HostToNet(HeaderOf(r)))
  {
    hide HostToNet, Store, HeaderOf, Wire;
    WireOfHeader(r);
  }

  /** Where the driver's host order goes over the wire, the server's words arrive. */
  lemma {:induction false} WireOfHeader(r: Reply)
    ensures Wire(HeaderOf(r)) == Store(HostToNet(HeaderOf(r)))
  {
    hide ByteSwap, BigEndian, WordBytes, Wire, Store;
    var h := HeaderOf(r);
    var s := HostToNet(h);
    assert WordBytes(0) == BigEndian(0) by {
      ZeroBytes();
    }
    forall i | 0 <= i < WORDS ensures WordBytes(s[i]) == BigEndian(h[i]) {
      SwappedIsBigEndian(h[i]);
    }
    StoredIsWire(s, h);
  }

  lemma ZeroBytes()
    ensures WordBytes(0) == BigEndian(0)
  {
  }

  ghost predicate NeverStops(turns: seq<Turn>) {
    forall i :: 0 <= i < |turns| ==> !turns[i].unpluggedBefore && !turns[i].unpluggedAfter && turns[i].ready
  }

  /** The headers are those of the first replies, each read where its reply starts. */
  ghost predicate AreOf(received: seq<Received>, replies: seq<Reply>, pos: nat) {
    && |received| <= |replies|
    && forall i {:trigger received[i]} :: 0 <= i < |received| ==>
         received[i] == Received(pos + Boundary(EncodeAll(replies), i), Recovered(replies[i]))
  }

  /** The replies whose headers are in the stream are exactly those that were read. */
  ghost predicate AllRead(count: nat, replies: seq<Reply>, pos: nat, size: nat) {
    forall i {:trigger Boundary(EncodeAll(replies), i)} :: 0 <= i < |replies| ==>
      (i < count <==> pos + Boundary(EncodeAll(replies), i) + HEADER_SIZE <= size)
  }

  lemma {:induction false} NextBoundary(replies: seq<Reply>, i: nat)
    requires 0 < i <= |replies|
    ensures Boundary(EncodeAll(replies), i) == |Encode(replies[0])| + Boundary(EncodeAll(replies[1..]), i - 1)
  {
    hide Encode;
    assert EncodeAll(replies)[1..] == EncodeAll(replies[1..]);
  }

  lemma {:induction false} ConsAreOf(x: Received, rest: seq<Received>, replies: seq<Reply>, pos: nat)
    requires replies != [] && x == Received(pos, Recovered(replies[0]))
    requires AreOf(rest, replies[1..], pos + |Encode(replies[0])|)
    ensures AreOf([x] + rest, replies, pos)
  {
    hide Encode, Recovered;
    var all := [x] + rest;
    forall i | 0 <= i < |all| ensures all[i] == Received(pos + Boundary(EncodeAll(replies), i), Recovered(replies[i])) {
      if i > 0 {
        NextBoundary(replies, i);
        assert all[i] == rest[i - 1] && replies[i] == replies[1..][i - 1];
      }
    }
  }

  lemma {:induction false} ConsAllRead(count: nat, replies: seq<Reply>, pos: nat, size: nat)
    requires replies != [] && pos + HEADER_SIZE <= size
    requires AllRead(count, replies[1..], pos + |Encode(replies[0])|, size)
    ensures AllRead(count + 1, replies, pos, size)
  {
    hide Encode;
    forall i | 0 <= i < |replies|
      ensures i < count + 1 <==> pos + Boundary(EncodeAll(replies), i) + HEADER_SIZE <= size
    {
      if i > 0 {
        NextBoundary(replies, i);
        assert i - 1 < |replies[1..]|;
      }
    }
  }

  /** What begins behind the end of the stream is not read. */
  lemma {:induction false} NothingBehind(replies: seq<Reply>, pos: nat, size: nat)
    requires pos + HEADER_SIZE > size
    ensures AllRead(0, replies, pos, size)
  {
  }

  /** The stream from pos on begins with the first reply, as far as it goes. */
  lemma {:induction false} FirstReply(stream: seq<byte>, pos: nat, replies: seq<Reply>)
    requires pos <= |stream| && replies != [] && stream[pos..] <= Flatten(EncodeAll(replies))
    ensures pos + HEADER_SIZE <= |stream| ==> stream[pos..pos + HEADER_SIZE] == Encode(replies[0])[..HEADER_SIZE]
    ensures var next := pos + |Encode(replies[0])|;
      next <= |stream| ==> stream[next..] <= Flatten(EncodeAll(replies[1..]))
  {
    var first, rest := Encode(replies[0]), Flatten(EncodeAll(replies[1..]));
    hide Encode;
    assert EncodeAll(replies)[1..] == EncodeAll(replies[1..]);
    assert Flatten(EncodeAll(replies)) == first + rest;
    PrefixOfJoined(stream, pos, first, rest);
  }

  lemma {:induction false} PrefixOfJoined(stream: seq<byte>, pos: nat, first: seq<byte>, rest: seq<byte>)
    requires pos <= |stream| && |first| >= HEADER_SIZE && stream[pos..] <= first + rest
    ensures pos + HEADER_SIZE <= |stream| ==> stream[pos..pos + HEADER_SIZE] == first[..HEADER_SIZE]
    ensures pos + |first| <= |stream| ==> stream[pos + |first|..] <= rest
  {
    var joined := first + rest;
    assert forall k :: 0 <= k < |stream| - pos ==> stream[pos + k] == stream[pos..][k] == joined[k];
    if pos + |first| <= |stream| {
      var tail := stream[pos + |first|..];
      assert forall k :: 0 <= k < |tail| ==> tail[k] == stream[pos + (|first| + k)] == joined[|first| + k] == rest[k];
    }
  }

  /** The loop from byte pos on, where a reply starts. */
  lemma {:induction false} FramedFrom(stream: seq<byte>, pos: nat, replies: seq<Reply>, turns: seq<Turn>)
    requires AllConform(replies) && pos <= |stream| && stream[pos..] <= Flatten(EncodeAll(replies))
    ensures var received := Headers(stream, pos, turns);
      && AreOf(received, replies, pos)
      && (NeverStops(turns) && |turns| >= |replies| ==> AllRead(|received|, replies, pos, |stream|))
    decreases |replies|
  {
    hide FrameAt, Encode, Recovered, AllRead;
    var received := Headers(stream, pos, turns);
    if replies == [] || pos + HEADER_SIZE > |stream| {
      NothingLeft(stream, pos, replies);
      NothingBehind(replies, pos, |stream|);
    } else if turns != [] {
      var r := replies[0];
      var next := pos + |Encode(r)|;
      FirstReply(stream, pos, replies);
      ReplyIsFramed(r, stream, pos);
      var x := Received(pos, Recovered(r));
      var payload := |Encode(r)| - HEADER_SIZE;
      SmallPayload(r);
      if turns[0].unpluggedBefore {
        assert received == [];
      } else if GoesOn(|stream|, pos, payload, turns[0]) {
        FramedFrom(stream, next, replies[1..], turns[1..]);
        ConsAreOf(x, Headers(stream, next, turns[1..]), replies, pos);
        if NeverStops(turns) && |turns| >= |replies| {
          assert forall i :: 0 <= i < |turns| - 1 ==> turns[1..][i] == turns[i + 1];
          ConsAllRead(|Headers(stream, next, turns[1..])|, replies, pos, |stream|);
        }
      } else {
        assert received == [x] + [];
        ConsAreOf(x, [], replies, pos);
        if NeverStops(turns) && |turns| >= |replies| {
          NothingBehind(replies[1..], next, |stream|);
          ConsAllRead(0, replies, pos, |stream|);
        }
      }
    }
  }

  lemma {:induction false} NothingLeft(stream: seq<byte>, pos: nat, replies: seq<Reply>)
    requires pos <= |stream| && stream[pos..] <= Flatten(EncodeAll(replies))
    requires replies == [] || pos + HEADER_SIZE > |stream|
    ensures FrameAt(stream, pos) == NoFrame && pos + HEADER_SIZE > |stream|
  {
    if replies == [] {
      assert |stream[pos..]| == 0;
    }
  }

  lemma {:induction false} SmallPayload(r: Reply)
    requires Conforms(r)
    ensures FrameOf(r) == Frame(Recovered(r), |Encode(r)| - HEADER_SIZE) && |Encode(r)| - HEADER_SIZE < TWO_32
  {
    HeaderIsRecovered(r);
  }

  /** The loop stays in step with the stream, also with one that breaks off anywhere: the i-th header it
      reads is the one of the i-th reply and is read where this reply starts, whichever requests are still known.
      While no turn stops it, it reads every reply whose header arrived. */
  lemma {:induction false} FramingIsKept(replies: seq<Reply>, stream: seq<byte>, turns: seq<Turn>)
    requires AllConform(replies) && stream <= Flatten(EncodeAll(replies))
    ensures var received := Headers(stream, 0, turns);
            && |received| <= |replies|
            && (forall i :: 0 <= i < |received| ==>
                  received[i] == Received(Boundary(EncodeAll(replies), i), Recovered(replies[i])))
            && (NeverStops(turns) && |turns| >= |replies| ==> forall i :: 0 <= i < |replies| ==>
                  (i < |received| <==> Boundary(EncodeAll(replies), i) + HEADER_SIZE <= |stream|))
  {
    assert stream[0..] == stream;
    FramedFrom(stream, 0, replies, turns);
  }
}
