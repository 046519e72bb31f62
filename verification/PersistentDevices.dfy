/** Devices that are attached again after a restart: how the library stores and reads them
    (userspace/libusbip/src/persistent.cpp), and how the driver reads them
    (drivers/ude/persistent.cpp, drivers/libdrv/strconv.cpp). */
module PersistentDevices {
  import opened Words
  import opened MultiSz

  const SEPARATOR := ','
  const SERIAL_BUFSZ := 16

  /** persistent_device */
  datatype Device = Device(hostname: string, service: string, busid: string, serial: string)

  datatype Result<T> = Ok(value: T) | InvalidParameter | SerialNumber | HashFailed

  // ---- fields

  /** The index of the first separator, or -1. */
  function IndexOf(s: string, sep: char): (i: int)
    ensures -1 <= i < |s|
    ensures i >= 0 ==> s[i] == sep && forall k :: 0 <= k < i ==> s[k] != sep
    ensures i < 0 ==> sep !in s
  {
    if s == "" then -1
    else if s[0] == sep then 0
    else if IndexOf(s[1..], sep) < 0 then -1 else 1 + IndexOf(s[1..], sep)
  }

  function Head(s: string): string {
    var i := IndexOf(s, SEPARATOR);
    if i < 0 then s else s[..i]
  }

  /** What is behind the first separator; empty if there is none. */
  function Tail(s: string): string {
    var i := IndexOf(s, SEPARATOR);
    if i < 0 then "" else s[i + 1..]
  }

  /** The four fields of a string; the last one is all that is behind the third separator. */
  function Fields(s: string): Device {
    Device(Head(s), Head(Tail(s)), Head(Tail(Tail(s))), Tail(Tail(Tail(s))))
  }

  predicate AsciiAlnum(c: char) {
    'a' <= c <= 'z' || 'A' <= c <= 'Z' || '0' <= c <= '9'
  }

  /** validate_device_serial */
  predicate ValidSerial(s: string) {
    |s| < SERIAL_BUFSZ && forall c :: c in s ==> AsciiAlnum(c)
  }

  predicate Malformed(d: Device) {
    d.hostname == "" || d.service == "" || d.busid == "" || !ValidSerial(d.serial)
  }

  /** What is accepted: no part of the location is empty, and the serial number has at most 15 characters, which are
      digits or letters of the ASCII table. */
  lemma AcceptedExactly(d: Device)
    ensures !Malformed(d) <==>
      && |d.hostname| > 0 && |d.service| > 0 && |d.busid| > 0 && |d.serial| <= 15
      && forall k :: 0 <= k < |d.serial| ==>
           48 <= d.serial[k] as int <= 57 || 65 <= d.serial[k] as int <= 90 || 97 <= d.serial[k] as int <= 122
  {
    assert ValidSerial(d.serial) ==> forall k :: 0 <= k < |d.serial| ==> AsciiAlnum(d.serial[k]);
  }

  // ---- the driver

  /** What the driver makes of a string: the fields, if the serial is valid, no part of the location is empty
      and the location can be hashed. */
  function DriverParse(s: string, hash: Option<uint32>): Result<Device> {
    if !ValidSerial(Fields(s).serial) then SerialNumber
    else if Malformed(Fields(s)) then InvalidParameter
    else if hash.None? then HashFailed
    else Ok(Fields(s))
  }

  /** UNICODE_STRING: a part of a buffer that is never written. */
  class UnicodeString {
    var text: string

    constructor (text: string)
      ensures this.text == text
    {
      this.text := text;
    }
  }

  method StrChr(s: UnicodeString, ch: char) returns (pos: int)
    ensures pos == IndexOf(s.text, ch)
  {
    for i := 0 to |s.text|
      invariant forall k :: 0 <= k < i ==> s.text[k] != ch
    {
      if s.text[i] == ch {
        return i;
      }
    }
    return -1;
  }

  /** split; the string that is split may be the head or the tail. */
  method SplitInTwo(head: UnicodeString, tail: UnicodeString, str: UnicodeString)
    requires head != tail
    modifies head, tail
    ensures head.text == old(Head(str.text)) && tail.text == old(Tail(str.text))
  {
    var pos := StrChr(str, SEPARATOR);
    if pos < 0 {
      head.text := str.text;
      tail.text := "";
      return;
    }
    var s := str.text;
    head.text := s[..pos];
    tail.text := s[pos + 1..];
  }

  /** validate_serial_number on the buffer of the serial: what is before its first NUL. */
  predicate ValidBuffer(buffer: string)
    requires |buffer| == SERIAL_BUFSZ
  {
    Len(buffer) < SERIAL_BUFSZ && forall c :: c in Cut(buffer) ==> AsciiAlnum(c)
  }

  function Padding(n: nat): string {
    if n == 0 then "" else [NUL] + Padding(n - 1)
  }

  lemma {:induction false} PaddingHasNuls(n: nat)
    ensures |Padding(n)| == n && forall k :: 0 <= k < n ==> Padding(n)[k] == NUL
  {
    if n > 0 {
      PaddingHasNuls(n - 1);
    }
  }

  function BufferOf(tail: string): (buffer: string)
    requires |tail| <= SERIAL_BUFSZ
    ensures |buffer| == SERIAL_BUFSZ
  {
    PaddingHasNuls(SERIAL_BUFSZ - |tail|);
    tail + Padding(SERIAL_BUFSZ - |tail|)
  }

  /** The part of device_attributes that is parsed. */
  class Attributes {
    const nodeName: UnicodeString
    const serviceName: UnicodeString
    const busid: UnicodeString
    var serial: string
    var locationHash: uint32

    constructor ()
      ensures fresh(nodeName) && fresh(serviceName) && fresh(busid)
      ensures nodeName != serviceName && nodeName != busid && serviceName != busid
    {
      nodeName := new UnicodeString("");
      serviceName := new UnicodeString("");
      busid := new UnicodeString("");
      serial, locationHash := "", 0;
    }

    /** parse_device_str; hash is what hashing the location gives, if it does not fail. */
    method ParseDeviceStr(deviceStr: UnicodeString, hash: Option<uint32>) returns (result: Result<Device>)
      requires nodeName != serviceName && nodeName != busid && serviceName != busid
      requires deviceStr !in {nodeName, serviceName, busid} && NulFree(deviceStr.text)
      modifies this`serial, this`locationHash, nodeName, serviceName, busid
      ensures result == DriverParse(deviceStr.text, hash)
      ensures result.Ok? ==> result.value == Device(nodeName.text, serviceName.text, busid.text, serial)
      ensures result.Ok? ==> Some(locationHash) == hash
    {
      hide IndexOf, Head, Tail, ValidSerial, ValidBuffer, BufferOf;
      SplitInTwo(nodeName, serviceName, deviceStr);
      SplitInTwo(serviceName, busid, serviceName);
      var tail := new UnicodeString("");
      SplitInTwo(busid, tail, busid);
      FieldsAreNulFree(deviceStr.text);
      if |tail.text| > SERIAL_BUFSZ {
        LongIsInvalid(tail.text);
        return SerialNumber;
      }
      BufferIsValid(tail.text);
      if !ValidBuffer(BufferOf(tail.text)) {
        return SerialNumber;
      }
      serial := tail.text;
      if nodeName.text == "" || serviceName.text == "" || busid.text == "" {
        return InvalidParameter;
      }
      if hash.None? {
        return HashFailed;
      }
      locationHash := hash.value;
      return Ok(Device(nodeName.text, serviceName.text, busid.text, serial));
    }
  }

  lemma {:induction false} FieldsAreNulFree(s: string)
    requires NulFree(s)
    ensures NulFree(Head(s)) && NulFree(Tail(s)) && NulFree(Head(Tail(s))) && NulFree(Tail(Tail(s)))
    ensures NulFree(Head(Tail(Tail(s)))) && NulFree(Tail(Tail(Tail(s))))
  {
  }

  lemma LongIsInvalid(tail: string)
    requires |tail| > SERIAL_BUFSZ
    ensures !ValidSerial(tail)
  {
  }

  lemma {:induction false} BufferIsValid(tail: string)
    requires |tail| <= SERIAL_BUFSZ && NulFree(tail)
    ensures ValidBuffer(BufferOf(tail)) <==> ValidSerial(tail)
  {
    PaddingHasNuls(SERIAL_BUFSZ - |tail|);
    LenIs(BufferOf(tail), |tail|);
    assert Cut(BufferOf(tail)) == tail;
  }

  // ---- the library

  /** The pieces between separators; an empty string has none. */
  function Pieces(s: string): (v: seq<string>)
    decreases |s|
  {
    if s == "" then [] else PiecesOf(s)
  }

  function PiecesOf(s: string): (v: seq<string>)
    ensures v != []
    decreases |s|
  {
    if IndexOf(s, SEPARATOR) < 0 then [s] else [Head(s)] + PiecesOf(Tail(s))
  }

  /** parse_persistent_device: three pieces, and the rest of the string from the fourth on. */
  method ParsePersistentDevice(str: string) returns (d: Device)
    ensures d == Fields(str)
  {
    hide Head, Tail, IndexOf, Pieces;
    d := Device("", "", "", "");
    var v := Pieces(str);
    PiecesAreFields(str);
    if |v| > 0 {
      d := d.(hostname := v[0]);
    }
    if |v| > 1 {
      d := d.(service := v[1]);
    }
    if |v| > 2 {
      d := d.(busid := v[2]);
    }
    if |v| > 3 {
      d := d.(serial := str[|v[0]| + |v[1]| + |v[2]| + 3..]);
    }
  }

  lemma {:induction false} OnePiece(s: string)
    ensures PiecesOf(s)[0] == Head(s)
    ensures HasTail(s) ==>
      |PiecesOf(s)| == |PiecesOf(Tail(s))| + 1 && forall k :: 1 <= k < |PiecesOf(s)| ==> PiecesOf(s)[k] == PiecesOf(Tail(s))[k - 1]
    ensures !HasTail(s) ==> |PiecesOf(s)| == 1
  {
    hide Tail;
    if HasTail(s) {
      assert PiecesOf(s) == [Head(s)] + PiecesOf(Tail(s));
    }
  }

  /** There is a separator. */
  predicate HasTail(s: string) { IndexOf(s, SEPARATOR) >= 0 }

  lemma TailIsSuffix(s: string)
    ensures if HasTail(s) then |Head(s)| < |s| && Tail(s) == s[|Head(s)| + 1..] else Tail(s) == ""
    ensures s == "" ==> !HasTail(s) && Head(s) == ""
  {
  }

  /** What is behind the third separator. */
  lemma SerialIsSuffix(s: string)
    ensures var t, u := Tail(s), Tail(Tail(s));
      if HasTail(s) && HasTail(t) && HasTail(u) then
        |Head(s)| + |Head(t)| + |Head(u)| + 3 <= |s| && Tail(u) == s[|Head(s)| + |Head(t)| + |Head(u)| + 3..]
      else Tail(u) == ""
  {
    hide IndexOf, Head, Tail, HasTail;
    var t, u := Tail(s), Tail(Tail(s));
    TailIsSuffix(s);
    TailIsSuffix(t);
    TailIsSuffix(u);
    if HasTail(s) && HasTail(t) && HasTail(u) {
      SkipTwice(s, |Head(s)| + 1, |Head(t)| + 1);
      SkipTwice(s, |Head(s)| + |Head(t)| + 2, |Head(u)| + 1);
    }
  }

  /** How many pieces there are, and the first three. */
  lemma {:induction false} FirstPieces(s: string)
    ensures var v, t, u := PiecesOf(s), Tail(s), Tail(Tail(s));
      && v[0] == Head(s)
      && (|v| > 1 <==> HasTail(s)) && (|v| > 2 <==> HasTail(s) && HasTail(t))
      && (|v| > 3 <==> HasTail(s) && HasTail(t) && HasTail(u))
      && (|v| > 1 ==> v[1] == Head(t)) && (|v| > 2 ==> v[2] == Head(u))
  {
    hide IndexOf, Head, Tail, HasTail, PiecesOf;
    OnePiece(s);
    OnePiece(Tail(s));
    OnePiece(Tail(Tail(s)));
  }

  lemma {:induction false} PiecesAreFields(s: string)
    ensures var v, d := Pieces(s), Fields(s);
      && d.hostname == (if |v| > 0 then v[0] else "")
      && d.service == (if |v| > 1 then v[1] else "")
      && d.busid == (if |v| > 2 then v[2] else "")
      && (|v| > 3 ==> |v[0]| + |v[1]| + |v[2]| + 3 <= |s|)
      && d.serial == (if |v| > 3 then s[|v[0]| + |v[1]| + |v[2]| + 3..] else "")
  {
    hide IndexOf, Head, Tail, HasTail, PiecesOf;
    TailIsSuffix(s);
    TailIsSuffix(Tail(s));
    TailIsSuffix(Tail(Tail(s)));
    SerialIsSuffix(s);
    FirstPieces(s);
  }

  lemma SkipTwice(s: string, a: nat, b: nat)
    requires a + b <= |s|
    ensures s[a..][b..] == s[a + b..]
  {
  }

  function Line(d: Device): string {
    d.hostname + [SEPARATOR] + d.service + [SEPARATOR] + d.busid + [SEPARATOR] + d.serial
  }

  function Lines(devices: seq<Device>): seq<string> {
    if devices == [] then [] else [Line(devices[0])] + Lines(devices[1..])
  }

  function Terminated(lines: seq<string>): string {
    if lines == [] then "" else Terminated(lines[..|lines| - 1]) + (lines[|lines| - 1] + [NUL])
  }

  /** The stored value: an empty list is two NULs. */
  function Stored(devices: seq<Device>): string {
    Terminated(Lines(devices)) + if devices == [] then [NUL, NUL] else [NUL]
  }

  /** make_multi_sz of the persistent devices */
  method MakePersistent(devices: seq<Device>) returns (r: Result<string>)
    ensures r == if exists d :: d in devices && Malformed(d) then InvalidParameter else Ok(Stored(devices))
  {
    var multiSz := "";
    for i := 0 to |devices|
      invariant forall d :: d in devices[..i] ==> !Malformed(d)
      invariant multiSz == Terminated(Lines(devices[..i]))
    {
      var d := devices[i];
      assert devices[..i + 1] == devices[..i] + [d];
      if Malformed(d) {
        return InvalidParameter;
      }
      LinesAppend(devices[..i], d);
      multiSz := multiSz + (Line(d) + [NUL]);
    }
    assert devices[..|devices|] == devices;
    var terminators := if devices == [] then 2 else 1;
    ghost var body := multiSz;
    for i := 0 to terminators
      invariant multiSz == body + (if i == 0 then "" else if i == 1 then [NUL] else [NUL, NUL])
    {
      multiSz := multiSz + [NUL];
    }
    return Ok(multiSz);
  }

  /** A stored value always ends with two NULs, as the registry demands of a list of strings. */
  lemma {:induction false} EndsTwice(devices: seq<Device>)
    ensures var v := Stored(devices); |v| >= 2 && v[|v| - 2..] == ['\0', '\0']
    ensures Stored([]) == ['\0', '\0']
  {
    if devices != [] {
      var lines := Lines(devices);
      assert Terminated(lines) == Terminated(lines[..|lines| - 1]) + (lines[|lines| - 1] + [NUL]);
    }
  }

  lemma {:induction false} LinesAppend(devices: seq<Device>, d: Device)
    ensures Lines(devices + [d]) == Lines(devices) + [Line(d)]
    ensures Terminated(Lines(devices + [d])) == Terminated(Lines(devices)) + (Line(d) + [NUL])
  {
    hide Line, Terminated;
    if devices == [] {
      assert [d][1..] == [];
    } else {
      LinesAppend(devices[1..], d);
      assert (devices + [d])[1..] == devices[1..] + [d];
    }
    TerminatedAppend(Lines(devices), Line(d));
  }

  lemma {:induction false} TerminatedAppend(lines: seq<string>, line: string)
    ensures Terminated(lines + [line]) == Terminated(lines) + (line + [NUL])
  {
    assert (lines + [line])[..|lines|] == lines;
  }

  /** The devices that the library takes from the strings: malformed ones are skipped. */
  function Parsed(strings: seq<string>): seq<Device> {
    if strings == [] then []
    else (if Malformed(Fields(strings[0])) then [] else [Fields(strings[0])]) + Parsed(strings[1..])
  }

  lemma {:induction false} ParsedStep(strings: seq<string>, i: nat, devices: seq<Device>)
    requires i < |strings|
    ensures var d := Fields(strings[i]);
      devices + Parsed(strings[i..]) == (if Malformed(d) then devices else devices + [d]) + Parsed(strings[i + 1..])
  {
    hide Fields, Malformed;
    var d, tail := Fields(strings[i]), Parsed(strings[i + 1..]);
    assert strings[i..][0] == strings[i] && strings[i..][1..] == strings[i + 1..];
    assert [] + tail == tail;
    assert devices + ([d] + tail) == devices + [d] + tail;
  }

  lemma NothingParsed()
    ensures Parsed([]) == []
  {
  }

  /** get_persistent, from the stored value on. */
  method GetPersistent(value: string) returns (devices: seq<Device>)
    ensures devices == Parsed(Split(value))
  {
    hide Parsed, Split, Fields, Malformed;
    var strings := SplitMultiSz(value);
    ghost var goal := Parsed(strings);
    devices := [];
    assert strings[0..] == strings && [] + goal == goal;
    for i := 0 to |strings|
      invariant devices + Parsed(strings[i..]) == goal
    {
      ParsedStep(strings, i, devices);
      var d := ParsePersistentDevice(strings[i]);
      if !Malformed(d) {
        devices := devices + [d];
      }
    }
    assert strings[|strings|..] == [];
    NothingParsed();
  }

  // ---- the round trip

  predicate Clear(s: string) {
    SEPARATOR !in s && NUL !in s
  }

  /** The location can be told from a line. */
  predicate Clean(d: Device) {
    Clear(d.hostname) && Clear(d.service) && Clear(d.busid)
  }

  lemma {:induction false} HeadOfJoined(s: string, t: string)
    requires SEPARATOR !in s
    ensures Head(s + [SEPARATOR] + t) == s && Tail(s + [SEPARATOR] + t) == t
  {
    var u := s + [SEPARATOR] + t;
    var i := IndexOf(u, SEPARATOR);
    assert u[|s|] == SEPARATOR;
    assert forall k :: 0 <= k < |s| ==> u[k] == s[k];
    assert i == |s|;
    assert u[..i] == s && u[i + 1..] == t;
  }

  lemma {:induction false} FieldsOfLine(d: Device)
    requires Clean(d)
    ensures Fields(Line(d)) == d
  {
    var t, u := d.busid + [SEPARATOR] + d.serial, d.service + [SEPARATOR] + (d.busid + [SEPARATOR] + d.serial);
    assert Line(d) == d.hostname + [SEPARATOR] + u;
    HeadOfJoined(d.hostname, u);
    HeadOfJoined(d.service, t);
    HeadOfJoined(d.busid, d.serial);
  }

  /** The format of a line. */
  lemma {:induction false} FieldsOfText(hostname: string, service: string, busid: string, serial: string)
    requires Clear(hostname) && Clear(service) && Clear(busid)
    ensures Fields(hostname + "," + service + "," + busid + "," + serial) == Device(hostname, service, busid, serial)
  {
    FieldsOfLine(Device(hostname, service, busid, serial));
  }

  lemma {:induction false} TerminatedIsMade(lines: seq<string>, rest: seq<string>)
    requires forall i :: 0 <= i < |lines| ==> lines[i] != "" && NulFree(lines[i])
    ensures Terminated(lines) + Make(rest) == Make(lines + rest)
  {
    if lines == [] {
      assert "" + Make(rest) == Make(rest) && lines + rest == rest;
    } else {
      var n := |lines| - 1;
      var last := lines[n];
      TerminatedIsMade(lines[..n], [last] + rest);
      assert lines[..n] + ([last] + rest) == lines + rest;
      CutOfNulFree(last);
      assert ([last] + rest)[1..] == rest;
      assert Terminated(lines[..n]) + (last + [NUL] + Make(rest)) == Terminated(lines[..n]) + (last + [NUL]) + Make(rest);
    }
  }

  lemma {:induction false} LinesAt(devices: seq<Device>)
    ensures |Lines(devices)| == |devices|
    ensures forall i :: 0 <= i < |devices| ==> Lines(devices)[i] == Line(devices[i])
  {
    if devices != [] {
      LinesAt(devices[1..]);
    }
  }

  lemma {:induction false} LineIsNulFree(d: Device)
    requires Clean(d) && !Malformed(d)
    ensures NulFree(Line(d)) && Line(d) != ""
  {
    assert NUL in d.serial ==> AsciiAlnum(NUL);
  }

  /** The strings of a stored list of clean devices are their lines. */
  lemma {:induction false} SplitOfStored(devices: seq<Device>)
    requires forall d :: d in devices ==> Clean(d) && !Malformed(d)
    ensures Split(Stored(devices)) == Lines(devices)
  {
    var lines := Lines(devices);
    if devices == [] {
      assert Stored(devices) == [NUL, NUL];
      LenIs([NUL, NUL], 0);
    } else {
      LinesAt(devices);
      forall i | 0 <= i < |lines| ensures lines[i] != "" && NulFree(lines[i]) {
        LineIsNulFree(devices[i]);
      }
      TerminatedIsMade(lines, []);
      assert lines + [] == lines;
      AllKept(lines);
    }
  }

  /** The driver takes the same device from each string that the library stored. */
  lemma {:induction false} DriverReadsTheSame(devices: seq<Device>, i: nat, hash: uint32)
    requires i < |devices| && forall d :: d in devices ==> Clean(d) && !Malformed(d)
    ensures |Split(Stored(devices))| == |devices| && NulFree(Split(Stored(devices))[i])
    ensures DriverParse(Split(Stored(devices))[i], Some(hash)) == Ok(devices[i])
  {
    SplitOfStored(devices);
    LinesAt(devices);
    FieldsOfLine(devices[i]);
    LineIsNulFree(devices[i]);
  }

  lemma {:induction false} ParsedLines(devices: seq<Device>)
    requires forall d :: d in devices ==> Clean(d) && !Malformed(d)
    ensures Parsed(Lines(devices)) == devices
  {
    hide Fields, Line, Malformed, Clean;
    if devices != [] {
      FieldsOfLine(devices[0]);
      ParsedLines(devices[1..]);
      assert Lines(devices)[1..] == Lines(devices[1..]);
    }
  }

  lemma {:induction false} FieldsAreCommaFree(s: string)
    requires NulFree(s)
    ensures Clean(Fields(s))
  {
    FieldsAreNulFree(s);
    HeadIsCommaFree(s);
    HeadIsCommaFree(Tail(s));
    HeadIsCommaFree(Tail(Tail(s)));
  }

  lemma HeadIsCommaFree(s: string)
    ensures SEPARATOR !in Head(s)
  {
  }

  lemma {:induction false} ParsedAreClean(strings: seq<string>)
    requires forall i :: 0 <= i < |strings| ==> NulFree(strings[i])
    ensures forall d :: d in Parsed(strings) ==> Clean(d)
  {
    if strings != [] {
      FieldsAreCommaFree(strings[0]);
      ParsedAreClean(strings[1..]);
    }
  }

  /** A list that the library agrees to store is read back unchanged if and only if no location in it
      has a comma or a NUL. */
  lemma {:induction false} RoundTrip(devices: seq<Device>)
    requires forall d :: d in devices ==> !Malformed(d)
    ensures Parsed(Split(Stored(devices))) == devices <==> forall d :: d in devices ==> Clean(d)
  {
    var strings := Split(Stored(devices));
    forall i | 0 <= i < |strings| ensures NulFree(strings[i]) {
      SplitIsNulFree(Stored(devices), i);
    }
    ParsedAreClean(strings);
    if forall d :: d in devices ==> Clean(d) {
      SplitOfStored(devices);
      ParsedLines(devices);
    }
  }

  /** A comma in the hostname is such a device: it can be stored, and is not read back. */
  lemma {:induction false} CommaIsLost(service: string, busid: string)
    requires service != "" && busid != ""
    ensures var d := Device([SEPARATOR], service, busid, "");
      !Malformed(d) && Parsed(Split(Stored([d]))) != [d]
  {
    var d := Device([SEPARATOR], service, busid, "");
    assert SEPARATOR in d.hostname && d in [d];
    RoundTrip([d]);
  }
}
