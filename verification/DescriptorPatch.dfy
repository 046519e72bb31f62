/** The patch of low- and full-speed configurations for the emulated host controller
    (drivers/ude/descriptor_patch.cpp; the walk of drivers/libdrv/usbdsc.cpp). */
module DescriptorPatch {
  import opened Words
  import opened DescriptorParser

  const HIGH_SPEED := 3
  const MAX_INTERVAL := 16

  const CONTROL := 0
  const ISOCHRONOUS := 1
  const BULK := 2
  const INTERRUPT := 3

  // ---- intervals

  function Pow2(n: nat): (r: nat)
    ensures r >= 1
  {
    if n == 0 then 1 else 2 * Pow2(n - 1)
  }

  /** The first exponent from i on that reaches the microframes, or the fallback. */
  function FirstReaching(i: nat, microframes: nat): (r: nat)
    requires 1 <= i <= MAX_INTERVAL + 1
    ensures 1 <= r <= MAX_INTERVAL
    decreases MAX_INTERVAL + 1 - i
  {
    if i == MAX_INTERVAL + 1 then MAX_INTERVAL
    else if Pow2(i - 1) >= microframes then i
    else FirstReaching(i + 1, microframes)
  }

  function HighSpeedInterval(interval: byte): byte {
    FirstReaching(1, 8 * interval)
  }

  /** to_high_speed_interval */
  method ToHighSpeedInterval(interval: byte) returns (r: byte)
    ensures r == HighSpeedInterval(interval)
  {
    var microframes := 8 * interval;
    var i, power := 1, 1;
    while i <= MAX_INTERVAL
      invariant 1 <= i <= MAX_INTERVAL + 1 && power == Pow2(i - 1)
      invariant FirstReaching(i, microframes) == HighSpeedInterval(interval)
    {
      if power >= microframes {
        return i;
      }
      i, power := i + 1, 2 * power;
    }
    return MAX_INTERVAL;
  }

  lemma {:induction false} Pow2Grows(a: nat, b: nat)
    requires a <= b
    ensures Pow2(a) <= Pow2(b)
    decreases b
  {
    if a < b {
      Pow2Grows(a, b - 1);
    }
  }

  lemma {:induction false} FirstReachingIsLeast(i: nat, microframes: nat)
    requires 1 <= i <= MAX_INTERVAL && Pow2(MAX_INTERVAL - 1) >= microframes
    ensures var r := FirstReaching(i, microframes);
      i <= r && Pow2(r - 1) >= microframes && (r > i ==> Pow2(r - 2) < microframes)
    decreases MAX_INTERVAL - i
  {
    hide Pow2;
    if Pow2(i - 1) < microframes {
      assert i < MAX_INTERVAL;
      FirstReachingIsLeast(i + 1, microframes);
    }
  }

  lemma Pow2Doubles(n: nat)
    ensures Pow2(n + 1) == 2 * Pow2(n)
  {
  }

  lemma SomePowers()
    ensures Pow2(0) == 1 && Pow2(11) == 2048 && Pow2(15) == 32768
  {
  }

  /** The converted interval is the least exponent whose period, in microframes, is at least
      the requested one; so the period is less than twice as long, and the search never falls back. */
  lemma {:induction false} IntervalIsLeast(interval: byte)
    ensures Pow2(HighSpeedInterval(interval) - 1) >= 8 * interval
    ensures forall e: nat :: Pow2(e) >= 8 * interval ==> e >= HighSpeedInterval(interval) - 1
    ensures interval > 0 ==> Pow2(HighSpeedInterval(interval) - 1) < 16 * interval
    ensures HighSpeedInterval(interval) <= 12
    ensures HighSpeedInterval(interval) == 1 <==> interval == 0
  {
    hide Pow2, FirstReaching;
    var r, m := HighSpeedInterval(interval), 8 * interval;
    SomePowers();
    FirstReachingIsLeast(1, m);
    if r > 1 {
      Pow2Doubles(r - 2);
      forall e: nat | Pow2(e) >= m ensures e >= r - 1 {
        if e < r - 1 {
          Pow2Grows(e, r - 2);
        }
      }
    }
    assert Pow2(11) >= m;
  }

  function IsochronousInterval(interval: byte): byte {
    if interval + 3 < MAX_INTERVAL then interval + 3 else MAX_INTERVAL
  }

  /** A frame is eight microframes: the isochronous period stays the same, up to the longest
      period that can be told. */
  lemma {:induction false} IsochronousPeriod(interval: byte)
    requires 1 <= interval
    ensures var period := Pow2(IsochronousInterval(interval) - 1);
      period == if 8 * Pow2(interval - 1) <= Pow2(15) then 8 * Pow2(interval - 1) else Pow2(15)
  {
    hide Pow2;
    Pow2Doubles(interval - 1);
    Pow2Doubles(interval);
    Pow2Doubles(interval + 1);
    if interval + 2 <= 15 {
      Pow2Grows(interval + 2, 15);
    } else {
      Pow2Grows(16, interval + 2);
      Pow2Doubles(15);
    }
  }

  // ---- one descriptor

  /** The walk takes the descriptor at the front of these bytes. */
  predicate Whole(b: seq<byte>) {
    |b| >= 2 && 2 <= b[0] <= |b|
  }

  predicate IsEndpoint(d: seq<byte>) {
    |d| >= ENDPOINT_SIZE && d[1] == ENDPOINT_TYPE
  }

  function Convert(d: seq<byte>): (e: seq<byte>)
    ensures |e| == |d|
  {
    if !IsEndpoint(d) then d
    else if d[3] % 4 == BULK then d[4 := 0][5 := 2]
    else if d[3] % 4 == ISOCHRONOUS then d[6 := IsochronousInterval(d[6])]
    else if d[3] % 4 == INTERRUPT then d[6 := HighSpeedInterval(d[6])]
    else d
  }

  /** What an endpoint descriptor says afterwards: 512 bytes a packet for bulk (transfer type 2), another interval
      for isochronous (1) and interrupt (3), nothing else. Any other descriptor, or a short one, stays. */
  lemma ConvertedEndpoint(d: seq<byte>)
    ensures |d| < 7 || d[1] != 5 ==> Convert(d) == d
    ensures |d| >= 7 && d[1] == 5 ==>
      var e := Convert(d);
      && LittleEndian(e[4], e[5]) == (if d[3] % 4 == 2 then 512 else LittleEndian(d[4], d[5]))
      && (d[3] % 4 == 1 ==> e[6] == IsochronousInterval(d[6]))
      && (d[3] % 4 == 3 ==> e[6] == HighSpeedInterval(d[6]))
      && (d[3] % 4 == 0 || d[3] % 4 == 2 ==> e[6] == d[6])
      && e[..4] == d[..4] && e[7..] == d[7..]
  {
  }

  /** All descriptors of the walk converted; what the walk does not reach stays. */
  function Converted(b: seq<byte>): (e: seq<byte>)
    ensures |e| == |b|
    decreases |b|
  {
    if !Whole(b) then b else Convert(b[..b[0]]) + Converted(b[b[0]..])
  }

  function Patched(b: seq<byte>, speed: nat): (e: seq<byte>)
    ensures |e| == |b|
  {
    if speed >= HIGH_SPEED then b else Converted(b)
  }

  // ---- the patch in place

  /** The bytes with the descriptor at offset p converted. */
  function ConvertAt(b: seq<byte>, p: nat): (e: seq<byte>)
    requires p < |b| && p + b[p] <= |b|
    ensures |e| == |b|
  {
    b[..p] + Convert(b[p..p + b[p]]) + b[p + b[p]..]
  }

  /** What is before offset p is done: with the rest converted it is the goal. */
  ghost predicate DoneUpTo(b: seq<byte>, p: nat, goal: seq<byte>) {
    p <= |b| && b[..p] + Converted(b[p..]) == goal
  }

  /** What the loop body does to the endpoint descriptor at offset p. */
  method PatchEndpoint(a: array<byte>, p: nat)
    requires p + ENDPOINT_SIZE <= a.Length && a[p + 1] == ENDPOINT_TYPE
    requires p + a[p] <= a.Length && a[p] >= ENDPOINT_SIZE
    modifies a
    ensures a[..] == ConvertAt(old(a[..]), p)
  {
    var kind := a[p + 3] % 4;
    if kind == BULK {
      a[p + 4] := 0;
      a[p + 5] := 2;
    } else if kind == ISOCHRONOUS {
      a[p + 6] := if a[p + 6] + 3 < MAX_INTERVAL then a[p + 6] + 3 else MAX_INTERVAL;
    } else if kind == INTERRUPT {
      var interval := ToHighSpeedInterval(a[p + 6]);
      a[p + 6] := interval;
    }
  }

  /** One turn of the loop: the descriptor at offset p is converted if it is an endpoint. */
  method PatchDescriptor(a: array<byte>, p: nat, ghost goal: seq<byte>) returns (next: nat)
    requires p + 2 <= a.Length && 2 <= a[p] <= a.Length - p && a.Length >= 4 && DoneUpTo(a[..], p, goal)
    modifies a
    ensures next == p + old(a[p]) && DoneUpTo(a[..], next, goal)
    ensures a[2] == old(a[2]) && a[3] == old(a[3])
  {
    hide Converted, Convert, ConvertAt, DoneUpTo;
    PatchStep(a[..], p, goal);
    next := p + a[p];
    if a[p + 1] == ENDPOINT_TYPE && a[p] >= ENDPOINT_SIZE {
      PatchEndpoint(a, p);
      assert a[2] == a[..][2] && a[3] == a[..][3];
    }
  }

  /** patch_configuration_for_udecx. The walk ends where wTotalLength of the buffer says. */
  method Patch(a: array<byte>, speed: nat)
    requires a.Length >= CONFIGURATION_SIZE && LittleEndian(a[2], a[3]) == a.Length
    modifies a
    ensures a[..] == Patched(old(a[..]), speed)
    ensures speed >= 3 ==> a[..] == old(a[..])
    ensures speed < 3 ==> a[..] == Converted(old(a[..]))
  {
    if speed >= HIGH_SPEED {
      return;
    }
    hide Converted, Convert, ConvertAt, DoneUpTo, LittleEndian;
    ghost var goal := Converted(a[..]);
    var cur := 0;
    NothingDone(a[..]);
    while cur + 2 <= LittleEndian(a[2], a[3]) && a[cur] >= 2 && cur + a[cur] <= LittleEndian(a[2], a[3])
      invariant 0 <= cur <= a.Length && LittleEndian(a[2], a[3]) == a.Length
      invariant DoneUpTo(a[..], cur, goal)
      decreases a.Length - cur
    {
      cur := PatchDescriptor(a, cur, goal);
    }
    AllDone(a[..], cur, goal);
  }

  lemma {:induction false} NothingDone(b: seq<byte>)
    ensures DoneUpTo(b, 0, Converted(b))
  {
    assert b[0..] == b;
  }

  lemma {:induction false} AllDone(b: seq<byte>, p: nat, goal: seq<byte>)
    requires DoneUpTo(b, p, goal) && (|b| - p < 2 || b[p] < 2 || b[p] > |b| - p)
    ensures b == goal
  {
    assert b[..p] + b[p..] == b;
  }

  /** One descriptor of the walk is converted; bytes 2 and 3, the total length, stay. */
  lemma {:induction false} PatchStep(b: seq<byte>, p: nat, goal: seq<byte>)
    requires p + 2 <= |b| && 2 <= b[p] <= |b| - p && |b| >= 4 && DoneUpTo(b, p, goal)
    ensures var e := ConvertAt(b, p);
      && DoneUpTo(e, p + b[p], goal) && e[2] == b[2] && e[3] == b[3]
      && (b[p + 1] != ENDPOINT_TYPE || b[p] < ENDPOINT_SIZE ==> e == b)
  {
    hide Converted, Convert, ConvertAt;
    var d, rest, e := b[p..p + b[p]], b[p + b[p]..], ConvertAt(b, p);
    Parts(b, p);
    ConvertedFirst(b[p..]);
    assert b[..p] + (Convert(d) + Converted(rest)) == (b[..p] + Convert(d)) + Converted(rest);
    assert e[..p + b[p]] + Converted(e[p + b[p]..]) == goal;
    KeepsTotal(b, p);
    if b[p + 1] != ENDPOINT_TYPE || b[p] < ENDPOINT_SIZE {
      NothingToConvert(b, p);
    }
  }

  lemma {:induction false} ConvertedFirst(b: seq<byte>)
    requires Whole(b)
    ensures Converted(b) == Convert(b[..b[0]]) + Converted(b[b[0]..])
  {
  }

  lemma {:induction false} Parts(b: seq<byte>, p: nat)
    requires p < |b| && p + b[p] <= |b|
    ensures b[p..][..b[p]] == b[p..p + b[p]] && b[p..][b[p]..] == b[p + b[p]..]
    ensures var e := ConvertAt(b, p);
      e[..p + b[p]] == b[..p] + Convert(b[p..p + b[p]]) && e[p + b[p]..] == b[p + b[p]..]
  {
    hide Convert;
  }

  lemma {:induction false} KeepsTotal(b: seq<byte>, p: nat)
    requires p < |b| && p + b[p] <= |b| && |b| >= 4
    ensures ConvertAt(b, p)[2] == b[2] && ConvertAt(b, p)[3] == b[3]
  {
    var d := b[p..p + b[p]];
    ConvertKeepsFirstFour(d);
    hide Convert;
  }

  lemma ConvertKeepsFirstFour(d: seq<byte>)
    ensures forall k :: 0 <= k < |d| && k < 4 ==> Convert(d)[k] == d[k]
  {
  }

  lemma {:induction false} NothingToConvert(b: seq<byte>, p: nat)
    requires p + 2 <= |b| && 2 <= b[p] <= |b| - p && (b[p + 1] != ENDPOINT_TYPE || b[p] < ENDPOINT_SIZE)
    ensures ConvertAt(b, p) == b
  {
    var d := b[p..p + b[p]];
    assert !IsEndpoint(d);
    assert b == b[..p] + d + b[p + b[p]..];
  }

  // ---- what the patch keeps

  /** Two descriptors differ at most in bytes 4 to 6 of an endpoint. */
  predicate Alike(d: seq<byte>, e: seq<byte>) {
    && |d| == |e|
    && forall k :: 0 <= k < |d| ==> d[k] == e[k] || (IsEndpoint(d) && 4 <= k <= 6)
  }

  /** Both split into descriptors at the same offsets, and those are alike. */
  ghost predicate AlikeAll(b: seq<byte>, e: seq<byte>)
    decreases |b|
  {
    if !Whole(b) then b == e
    else Whole(e) && e[0] == b[0] && Alike(b[..b[0]], e[..b[0]]) && AlikeAll(b[b[0]..], e[b[0]..])
  }

  lemma {:induction false} ConvertedIsAlike(b: seq<byte>)
    ensures AlikeAll(b, Converted(b))
    decreases |b|
  {
    if Whole(b) {
      ConvertedIsAlike(b[b[0]..]);
      var d, e := b[..b[0]], Converted(b);
      assert e[0] == Convert(d)[0] == b[0];
      assert e[..b[0]] == Convert(d) && e[b[0]..] == Converted(b[b[0]..]);
    }
  }

  lemma {:induction false} AlikeItself(b: seq<byte>)
    ensures AlikeAll(b, b)
    decreases |b|
  {
    if Whole(b) {
      AlikeItself(b[b[0]..]);
    }
  }

  /** The patch changes nothing but bytes 4 to 6 of endpoint descriptors, and keeps the split. */
  lemma {:induction false} OnlyEndpointsChange(b: seq<byte>, speed: nat)
    ensures AlikeAll(b, Patched(b, speed))
  {
    if speed >= HIGH_SPEED {
      AlikeItself(b);
    } else {
      ConvertedIsAlike(b);
    }
  }

  /** The parser finds the same at the front of both. */
  lemma {:induction false} SameError(b: seq<byte>, e: seq<byte>, allowed: Policy)
    requires AlikeAll(b, e) && |b| == |e| > 0
    ensures ErrorAt(b, 0, allowed) == ErrorAt(e, 0, allowed)
    ensures NumberAt(b, 0) == NumberAt(e, 0) && CountAt(b, 0) == CountAt(e, 0)
    ensures IsInterface(b, 0) && b[0] >= INTERFACE_SIZE && Whole(b) ==> InterfaceAt(b, 0) == InterfaceAt(e, 0)
    ensures ErrorAt(b, 0, allowed) == Valid ==> Whole(b)
    ensures ErrorAt(b, 0, allowed) == NotAllowed ==> Whole(b) && IsInterface(b, 0) && b[0] >= INTERFACE_SIZE
  {
    if Whole(b) {
      var n := b[0];
      assert forall k :: 0 <= k < n ==> b[k] == b[..n][k] && e[k] == e[..n][k];
      if n == 2 && |b| > 2 {
        var b', e' := b[2..], e[2..];
        assert b[2] == b'[0] && e[2] == e'[0];
      }
    }
  }

  lemma {:induction false} ShiftToFront(b: seq<byte>, p: nat, allowed: Policy)
    requires p < |b|
    ensures ErrorAt(b, p, allowed) == ErrorAt(b[p..], 0, allowed)
    ensures NumberAt(b, p) == NumberAt(b[p..], 0) && CountAt(b, p) == CountAt(b[p..], 0)
    ensures p + 8 <= |b| ==> InterfaceAt(b, p) == InterfaceAt(b[p..], 0)
  {
    ErrorShifts(b, p, allowed);
    assert forall k :: 0 <= k < |b| - p ==> b[p..][k] == b[p + k];
  }

  /** The parser cannot tell alike bytes apart, whatever the policy. */
  lemma {:induction false} WalkIsBlind(b: seq<byte>, e: seq<byte>, p: nat, allowed: Policy,
                                       declared: nat, seen: set<byte>, n: nat)
    requires |e| == |b| && p <= |b| && AlikeAll(b[p..], e[p..])
    ensures Walk(b, p, allowed, declared, seen, n) == Walk(e, p, allowed, declared, seen, n)
    decreases |b| - p
  {
    hide Walk, ErrorAt, NumberAt, CountAt, InterfaceAt;
    WalkStep(b, p, allowed, declared, seen, n);
    WalkStep(e, p, allowed, declared, seen, n);
    if p < |b| {
      SameError(b[p..], e[p..], allowed);
      ShiftToFront(b, p, allowed);
      ShiftToFront(e, p, allowed);
      if ErrorAt(b, p, allowed) == Valid {
        var next: nat := p + b[p];
        assert b[p..][b[p]..] == b[next..] && e[p..][b[p]..] == e[next..];
        WalkIsBlind(b, e, next, allowed, declared, seen + NumberAt(b, p), n + CountAt(b, p));
      }
    }
  }

  /** The parser's whole result is the same for the patched bytes, for every policy; also for
      bytes it rejects. */
  lemma {:induction false} PatchKeepsResult(b: seq<byte>, speed: nat, allowed: Policy)
    ensures Evaluate(Patched(b, speed), allowed) == Evaluate(b, allowed)
  {
    var e := Patched(b, speed);
    OnlyEndpointsChange(b, speed);
    HeaderKept(b, e);
    if HeaderError(b) == Valid {
      assert b[0..] == b && e[0..] == e;
      WalkIsBlind(b, e, 0, allowed, b[4], {}, 0);
    }
  }

  lemma {:induction false} HeaderKept(b: seq<byte>, e: seq<byte>)
    requires AlikeAll(b, e) && |b| == |e|
    ensures HeaderError(e) == HeaderError(b)
    ensures HeaderError(b) == Valid ==> b[4] == e[4]
  {
    if |b| >= CONFIGURATION_SIZE && Whole(b) {
      var n := b[0];
      assert forall k :: 0 <= k < n ==> b[k] == b[..n][k] && e[k] == e[..n][k];
    }
  }

  function ConvertAll(ds: seq<seq<byte>>): seq<seq<byte>> {
    if ds == [] then [] else [Convert(ds[0])] + ConvertAll(ds[1..])
  }

  /** The split is kept too: a configuration of some descriptors becomes a configuration of the
      converted ones. */
  lemma {:induction false} PatchConvertsEach(ds: seq<seq<byte>>, allowed: Policy)
    requires AllGood(ds, allowed)
    ensures Converted(Flatten(ds)) == Flatten(ConvertAll(ds))
    ensures AllGood(ConvertAll(ds), allowed)
    ensures Numbers(ConvertAll(ds)) == Numbers(ds)
    ensures |Interfaces(ConvertAll(ds))| == |Interfaces(ds)|
  {
    if ds != [] {
      PatchConvertsEach(ds[1..], allowed);
      var d, b := ds[0], Flatten(ds);
      assert b[..b[0]] == d && b[b[0]..] == Flatten(ds[1..]);
      assert ConvertAll(ds)[0] == Convert(d) && ConvertAll(ds)[1..] == ConvertAll(ds[1..]);
      ConvertKeepsGood(d, allowed);
    }
  }

  lemma {:induction false} ConvertKeepsGood(d: seq<byte>, allowed: Policy)
    requires Good(d, allowed)
    ensures Good(Convert(d), allowed) && NumberAt(Convert(d), 0) == NumberAt(d, 0)
    ensures IsInterface(Convert(d), 0) == IsInterface(d, 0)
  {
  }

  lemma {:induction false} PatchedConfiguration(b: seq<byte>, ds: seq<seq<byte>>, speed: nat, allowed: Policy)
    requires IsConfiguration(b, ds, allowed) && speed < HIGH_SPEED
    ensures IsConfiguration(Patched(b, speed), ConvertAll(ds), allowed)
  {
    PatchConvertsEach(ds, allowed);
    OnlyEndpointsChange(b, speed);
    HeaderKept(b, Patched(b, speed));
  }
}
