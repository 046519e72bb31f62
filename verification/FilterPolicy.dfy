/** The whitelist policy of the device-type filter and its registry value
    (drivers/ude/device_filter_policy.h, drivers/ude/device_filter.cpp, drivers/ude/vhci_ioctl.cpp). */
module FilterPolicy {
  import opened Words

  const DISABLED: byte := 0
  const WHITELIST: byte := 1
  const CAPACITY := 64
  const ENTRIES_OFFSET := 8
  const ENTRY_SIZE := 4
  const POLICY_SIZE := ENTRIES_OFFSET + CAPACITY * ENTRY_SIZE

  const MATCH_CLASS := 1
  const MATCH_SUBCLASS := 2
  const MATCH_PROTOCOL := 4

  /** device_filter_entry */
  datatype FilterEntry = FilterEntry(cls: byte, subcls: byte, protocol: byte, flags: byte)

  const NO_ENTRY := FilterEntry(0, 0, 0, 0)

  /** struct policy */
  datatype RawPolicy = RawPolicy(mode: byte, count: uint32, entries: seq<FilterEntry>)

  type Policy = p: RawPolicy | |p.entries| == CAPACITY
    ghost witness RawPolicy(WHITELIST, 0, Zeros(CAPACITY))

  function Zeros(n: nat): (r: seq<FilterEntry>)
    ensures |r| == n && forall i :: 0 <= i < n ==> r[i] == NO_ENTRY
  {
    if n == 0 then [] else [NO_ENTRY] + Zeros(n - 1)
  }

  function FailClosed(): Policy {
    RawPolicy(WHITELIST, 0, Zeros(CAPACITY))
  }

  function Min(a: int, b: int): int {
    if a <= b then a else b
  }

  // ---- the decision

  predicate FlagSet(flags: byte, bit: nat)
    requires bit > 0
  {
    flags / bit % 2 == 1
  }

  predicate Matches(e: FilterEntry, cls: byte, subcls: byte, protocol: byte) {
    && (FlagSet(e.flags, MATCH_CLASS) ==> e.cls == cls)
    && (FlagSet(e.flags, MATCH_SUBCLASS) ==> e.subcls == subcls)
    && (FlagSet(e.flags, MATCH_PROTOCOL) ==> e.protocol == protocol)
  }

  predicate Allows(p: RawPolicy, cls: byte, subcls: byte, protocol: byte)
    requires p.count <= |p.entries|
  {
    p.mode == DISABLED || exists i :: 0 <= i < p.count && Matches(p.entries[i], cls, subcls, protocol)
  }

  /** is_allowed */
  method IsAllowed(p: Policy, cls: byte, subcls: byte, protocol: byte) returns (allowed: bool)
    requires p.count <= CAPACITY
    ensures allowed <==> Allows(p, cls, subcls, protocol)
  {
    if p.mode == DISABLED {
      return true;
    }
    for i := 0 to p.count
      invariant forall k :: 0 <= k < i ==> !Matches(p.entries[k], cls, subcls, protocol)
    {
      var e := p.entries[i];
      if FlagSet(e.flags, MATCH_CLASS) && e.cls != cls {
        continue;
      }
      if FlagSet(e.flags, MATCH_SUBCLASS) && e.subcls != subcls {
        continue;
      }
      if FlagSet(e.flags, MATCH_PROTOCOL) && e.protocol != protocol {
        continue;
      }
      return true;
    }
    return false;
  }

  // ---- load and store

  function NormalMode(mode: byte): byte {
    if mode == DISABLED then DISABLED else WHITELIST
  }

  /** The policy cut down to its first n entries, with a known mode. */
  function Cut(p: Policy, n: nat): Policy
    requires n <= CAPACITY
  {
    RawPolicy(NormalMode(p.mode), n, p.entries[..n] + Zeros(CAPACITY - n))
  }

  /** The policy that a load of the stored value is meant to give. */
  function Normalized(p: Policy): Policy {
    Cut(p, Min(p.count, CAPACITY))
  }

  function Usable(count: nat, actual: nat): nat
    requires actual >= ENTRIES_OFFSET
  {
    Min(Min(count, (actual - ENTRIES_OFFSET) / ENTRY_SIZE), CAPACITY)
  }

  /** sanitize_loaded_policy; ok is false for bad_type_or_size. */
  method SanitizeLoadedPolicy(raw: Policy, actual: nat, binary: bool) returns (out: Policy, ok: bool)
    ensures ok <==> binary && actual >= ENTRIES_OFFSET
    ensures out == if ok then Cut(raw, Usable(raw.count, actual)) else FailClosed()
  {
    out := FailClosed();
    if !binary || actual < ENTRIES_OFFSET {
      return out, false;
    }
    var maxByLen := (actual - ENTRIES_OFFSET) / ENTRY_SIZE;
    var count: nat := raw.count;
    if count > maxByLen {
      count := maxByLen;
    }
    if count > CAPACITY {
      count := CAPACITY;
    }
    var mode := if raw.mode == DISABLED then DISABLED else WHITELIST;
    var entries := out.entries;
    for i := 0 to count
      invariant |entries| == CAPACITY
      invariant forall k :: 0 <= k < CAPACITY ==> entries[k] == if k < i then raw.entries[k] else NO_ENTRY
    {
      entries := entries[i := raw.entries[i]];
    }
    assert entries == raw.entries[..count] + Zeros(CAPACITY - count);
    return RawPolicy(mode, count, entries), true;
  }

  /** sanitize_policy_for_store */
  function SanitizePolicyForStore(p: Policy): Policy {
    var count := if p.count > CAPACITY then CAPACITY else p.count;
    p.(count := count, mode := if p.mode != DISABLED then WHITELIST else DISABLED)
  }

  function EntryBytes(e: FilterEntry): (b: seq<byte>)
    ensures |b| == ENTRY_SIZE
  {
    [e.cls, e.subcls, e.protocol, e.flags]
  }

  function Join(entries: seq<FilterEntry>): (b: seq<byte>)
    ensures |b| == ENTRY_SIZE * |entries|
  {
    if entries == [] then [] else EntryBytes(entries[0]) + Join(entries[1..])
  }

  function EntryAt(b: seq<byte>, p: nat): FilterEntry
    requires p + ENTRY_SIZE <= |b|
  {
    FilterEntry(b[p], b[p + 1], b[p + 2], b[p + 3])
  }

  function Split(b: seq<byte>): (entries: seq<FilterEntry>)
    ensures |entries| == |b| / ENTRY_SIZE
  {
    if |b| < ENTRY_SIZE then [] else [EntryAt(b, 0)] + Split(b[ENTRY_SIZE..])
  }

  /** The memory of a policy; the three bytes behind the mode are padding. */
  function Image(p: Policy, padding: seq<byte>): (b: seq<byte>)
    requires |padding| == 3
    ensures |b| == POLICY_SIZE
  {
    [p.mode] + padding + WordBytes(p.count) + Join(p.entries)
  }

  function FromImage(b: seq<byte>): Policy
    requires |b| == POLICY_SIZE
  {
    RawPolicy(b[0], Word(b[4..8]), Split(b[8..]))
  }

  /** The registry value that store writes: the active prefix. */
  function Stored(p: Policy, padding: seq<byte>): (value: seq<byte>)
    requires |padding| == 3
  {
    var tmp := SanitizePolicyForStore(p);
    Image(tmp, padding)[..ENTRIES_OFFSET + tmp.count * ENTRY_SIZE]
  }

  /** What the registry has under the name of the policy. */
  datatype RegistryValue = Missing | Value(binary: bool, bytes: seq<byte>)

  /** load. The query leaves the buffer behind the value as it was; a value that does not fit
      is an error. */
  method Load(value: RegistryValue, buffer: seq<byte>) returns (p: Policy)
    requires |buffer| == POLICY_SIZE
    ensures p == Loaded(value)
  {
    p := FailClosed();
    if value.Missing? || |value.bytes| > POLICY_SIZE {
      return;
    }
    var raw := FromImage(value.bytes + buffer[|value.bytes|..]);
    var ok;
    p, ok := SanitizeLoadedPolicy(raw, |value.bytes|, value.binary);
    if ok {
      BufferDoesNotMatter(value.bytes, buffer, Zeroed(POLICY_SIZE));
    }
  }

  function Zeroed(n: nat): (b: seq<byte>)
    ensures |b| == n
  {
    if n == 0 then [] else [0] + Zeroed(n - 1)
  }

  /** The loaded policy, as a function of the value alone. */
  function Loaded(value: RegistryValue): (p: Policy)
    ensures p.count <= CAPACITY
  {
    if value.Missing? || !value.binary || |value.bytes| < ENTRIES_OFFSET || |value.bytes| > POLICY_SIZE then FailClosed()
    else
      var raw := FromImage(value.bytes + Zeroed(POLICY_SIZE)[|value.bytes|..]);
      Cut(raw, Usable(raw.count, |value.bytes|))
  }

  lemma {:induction false} SplitAt(b: seq<byte>, i: nat)
    requires i < |b| / ENTRY_SIZE
    ensures Split(b)[i] == EntryAt(b, ENTRY_SIZE * i)
  {
    if i > 0 {
      SplitAt(b[ENTRY_SIZE..], i - 1);
    }
  }

  lemma {:induction false} JoinAt(entries: seq<FilterEntry>, i: nat)
    requires i < |entries|
    ensures EntryAt(Join(entries), ENTRY_SIZE * i) == entries[i]
  {
    var b := Join(entries);
    if i > 0 {
      JoinAt(entries[1..], i - 1);
      assert b[ENTRY_SIZE..] == Join(entries[1..]);
    }
  }

  /** Loading never uses a byte the query did not write. */
  lemma {:induction false} BufferDoesNotMatter(v: seq<byte>, buffer: seq<byte>, other: seq<byte>)
    requires |buffer| == |other| == POLICY_SIZE && ENTRIES_OFFSET <= |v| <= POLICY_SIZE
    ensures var r, s := FromImage(v + buffer[|v|..]), FromImage(v + other[|v|..]);
      r.count == s.count && Cut(r, Usable(r.count, |v|)) == Cut(s, Usable(s.count, |v|))
  {
    var b, c := v + buffer[|v|..], v + other[|v|..];
    assert b[4..8] == v[4..8] == c[4..8];
    var r, s := FromImage(b), FromImage(c);
    var n := Usable(r.count, |v|);
    forall i | 0 <= i < n ensures r.entries[i] == s.entries[i] {
      SplitAt(b[8..], i);
      SplitAt(c[8..], i);
    }
    assert r.entries[..n] == s.entries[..n];
  }

  lemma {:induction false} SamePrefix(b: seq<byte>, c: seq<byte>, k: nat)
    requires ENTRIES_OFFSET <= k <= |b| == |c| && b[..k] == c[..k]
    ensures b[0] == c[0] && b[4..8] == c[4..8] && b[8..][..k - 8] == c[8..][..k - 8]
  {
    assert forall j :: 0 <= j < k ==> b[j] == b[..k][j] == c[..k][j] == c[j];
  }

  lemma {:induction false} SameEntry(b: seq<byte>, c: seq<byte>, k: nat, i: nat)
    requires k <= |b| && k <= |c| && b[..k] == c[..k] && ENTRY_SIZE * i + ENTRY_SIZE <= k
    ensures Split(b)[i] == Split(c)[i]
  {
    SplitAt(b, i);
    SplitAt(c, i);
    assert forall j :: 0 <= j < k ==> b[j] == b[..k][j] == c[..k][j] == c[j];
  }

  /** Load after store gives the normalized policy, whatever the padding and the buffer held. */
  lemma {:induction false} LoadAfterStore(p: Policy, padding: seq<byte>)
    requires |padding| == 3
    ensures Loaded(Value(true, Stored(p, padding))) == Normalized(p)
  {
    var tmp, v := SanitizePolicyForStore(p), Stored(p, padding);
    var image, b := Image(tmp, padding), v + Zeroed(POLICY_SIZE)[|v|..];
    var r, n := FromImage(b), tmp.count;
    assert b[..|v|] == v == image[..|v|];
    SamePrefix(b, image, |v|);
    assert image[4..8] == WordBytes(n) && image[8..] == Join(p.entries);
    WordOfWordBytes(n);
    forall i | 0 <= i < n ensures r.entries[i] == p.entries[i] {
      SameEntry(b[8..], image[8..], |v| - 8, i);
      SplitAt(image[8..], i);
      JoinAt(p.entries, i);
    }
    assert r.entries[..n] == p.entries[..n];
  }

  lemma {:induction false} CutDecides(p: Policy, n: nat, cls: byte, subcls: byte, protocol: byte)
    requires n <= CAPACITY
    ensures Allows(Cut(p, n), cls, subcls, protocol) <==>
      p.mode == DISABLED || exists i :: 0 <= i < n && Matches(p.entries[i], cls, subcls, protocol)
  {
    var c := Cut(p, n);
    assert forall i :: 0 <= i < n ==> c.entries[i] == p.entries[i];
  }

  /** The loaded policy decides every class triple as the stored one does. */
  lemma {:induction false} SameDecision(p: Policy, padding: seq<byte>, cls: byte, subcls: byte, protocol: byte)
    requires |padding| == 3 && p.count <= CAPACITY
    ensures Allows(Loaded(Value(true, Stored(p, padding))), cls, subcls, protocol) <==> Allows(p, cls, subcls, protocol)
  {
    LoadAfterStore(p, padding);
    CutDecides(p, p.count, cls, subcls, protocol);
  }

  /** A triple that a value allows although it was cut short is allowed by the whole value;
      below the entries nothing is allowed. */
  lemma {:induction false} TruncationAllowsLess(v: seq<byte>, k: nat, cls: byte, subcls: byte, protocol: byte)
    requires k <= |v| <= POLICY_SIZE
    requires Allows(Loaded(Value(true, v[..k])), cls, subcls, protocol)
    ensures k >= ENTRIES_OFFSET && Allows(Loaded(Value(true, v)), cls, subcls, protocol)
  {
    var s, t := v[..k], v;
    if k >= ENTRIES_OFFSET {
      var zeros := Zeroed(POLICY_SIZE);
      var b, c := s + zeros[k..], t + zeros[|t|..];
      assert b[..k] == s == c[..k];
      SamePrefix(b, c, k);
      var r, q := FromImage(b), FromImage(c);
      var n, m := Usable(r.count, k), Usable(q.count, |v|);
      CutDecides(r, n, cls, subcls, protocol);
      CutDecides(q, m, cls, subcls, protocol);
      forall i | 0 <= i < n ensures r.entries[i] == q.entries[i] {
        SameEntry(b[8..], c[8..], k - 8, i);
      }
    }
  }

  // ---- values that do not fit the policy

  ghost predicate AllowsNothing(value: RegistryValue) {
    forall cls, subcls, protocol :: !Allows(Loaded(value), cls, subcls, protocol)
  }

  /** No truncation of the value allows a triple that the value does not allow. */
  ghost predicate TruncationsAllowLess(v: seq<byte>) {
    forall k, cls, subcls, protocol ::
      0 <= k <= |v| && Allows(Loaded(Value(true, v[..k])), cls, subcls, protocol) ==>
        Allows(Loaded(Value(true, v)), cls, subcls, protocol)
  }

  /** The header of the value is one of a whitelist without entries. */
  predicate IsEmptyWhitelist(v: seq<byte>) {
    |v| >= ENTRIES_OFFSET && v[0] != DISABLED && Word(v[4..8]) == 0
  }

  /** A value that fits the policy allows nothing exactly if it has no header, or is a whitelist of which
      no entry is there: an entry allows at least its own triple. */
  lemma {:induction false} AllowsNothingExactly(v: seq<byte>)
    requires |v| <= POLICY_SIZE
    ensures AllowsNothing(Value(true, v)) <==>
      |v| < ENTRIES_OFFSET || (v[0] != DISABLED && (Word(v[4..8]) == 0 || |v| < ENTRIES_OFFSET + ENTRY_SIZE))
  {
    if |v| >= ENTRIES_OFFSET {
      var b := v + Zeroed(POLICY_SIZE)[|v|..];
      assert b[0] == v[0] && b[4..8] == v[4..8];
      var r := FromImage(b);
      var n := Usable(r.count, |v|);
      assert n == 0 <==> r.count == 0 || |v| < ENTRIES_OFFSET + ENTRY_SIZE;
      CutAllowsNothing(r, n);
      assert Loaded(Value(true, v)) == Cut(r, n);
    }
  }

  lemma {:induction false} CutAllowsNothing(p: Policy, n: nat)
    requires n <= CAPACITY
    ensures (forall cls, subcls, protocol :: !Allows(Cut(p, n), cls, subcls, protocol)) <==> p.mode != DISABLED && n == 0
  {
    if p.mode != DISABLED && n == 0 {
      forall cls, subcls, protocol ensures !Allows(Cut(p, n), cls, subcls, protocol) {
        CutDecides(p, n, cls, subcls, protocol);
      }
    } else {
      var e := p.entries[0];
      CutDecides(p, n, e.cls, e.subcls, e.protocol);
      assert Matches(e, e.cls, e.subcls, e.protocol);
      assert Allows(Cut(p, n), e.cls, e.subcls, e.protocol);
    }
  }

  /** Truncation allows less for exactly the values that fit the policy, and of the others those whose
      first bytes are an empty whitelist. */
  lemma {:induction false} TruncationExactly(v: seq<byte>)
    ensures TruncationsAllowLess(v) <==> |v| <= POLICY_SIZE || IsEmptyWhitelist(v)
  {
    if |v| <= POLICY_SIZE {
      forall k, cls, subcls, protocol | 0 <= k <= |v| && Allows(Loaded(Value(true, v[..k])), cls, subcls, protocol)
        ensures Allows(Loaded(Value(true, v)), cls, subcls, protocol)
      {
        TruncationAllowsLess(v, k, cls, subcls, protocol);
      }
    } else {
      var w := v[..POLICY_SIZE];
      assert w[0] == v[0] && w[4..8] == v[4..8];
      AllowsNothingExactly(w);
      if IsEmptyWhitelist(v) {
        forall k, cls, subcls, protocol | 0 <= k <= |v|
          ensures !Allows(Loaded(Value(true, v[..k])), cls, subcls, protocol)
        {
          EmptyWhitelistTruncated(v, k, cls, subcls, protocol);
        }
      } else {
        assert !AllowsNothing(Value(true, w));
        var cls, subcls, protocol :| Allows(Loaded(Value(true, w)), cls, subcls, protocol);
        FailsClosed(Value(true, v), cls, subcls, protocol);
        assert Allows(Loaded(Value(true, v[..POLICY_SIZE])), cls, subcls, protocol);
        assert !TruncationsAllowLess(v);
      }
    }
  }

  lemma {:induction false} EmptyWhitelistTruncated(v: seq<byte>, k: nat, cls: byte, subcls: byte, protocol: byte)
    requires |v| > POLICY_SIZE && IsEmptyWhitelist(v) && k <= |v|
    ensures !Allows(Loaded(Value(true, v[..k])), cls, subcls, protocol)
  {
    var w := v[..k];
    if ENTRIES_OFFSET <= k <= POLICY_SIZE {
      assert w[0] == v[0] && w[4..8] == v[4..8];
      AllowsNothingExactly(w);
    } else {
      FailsClosed(Value(true, w), cls, subcls, protocol);
    }
  }

  /** A value one byte too long is such a case: everything is denied, and the filter is off without the byte. */
  lemma {:induction false} OneByteTooLong(p: Policy, padding: seq<byte>)
    requires |padding| == 3 && p.mode == DISABLED && p.count == CAPACITY
    ensures !TruncationsAllowLess(Stored(p, padding) + [0])
  {
    var stored := Stored(p, padding);
    TruncationExactly(stored + [0]);
    assert (stored + [0])[0] == Image(SanitizePolicyForStore(p), padding)[0] == DISABLED;
  }

  /** A missing value, one of another type, one too short for the header or one that does not fit
      denies every triple. */
  lemma {:induction false} FailsClosed(value: RegistryValue, cls: byte, subcls: byte, protocol: byte)
    requires value.Value? && value.binary ==> |value.bytes| < ENTRIES_OFFSET || |value.bytes| > POLICY_SIZE
    ensures !Allows(Loaded(value), cls, subcls, protocol)
  {
  }

  // ---- set and get from user mode

  datatype Status = Success | AbiMismatch | InvalidBufferSize | InvalidParameter | BufferTooSmall

  /** ioctl::device_filter: what the caller says and the entries its buffer holds. */
  datatype Request = Request(sizeOk: bool, mode: byte, count: uint32, entries: seq<FilterEntry>)

  /** set_device_filter: the policy to store. */
  function SetDeviceFilter(r: Request): (Status, Policy) {
    if !r.sizeOk then (AbiMismatch, FailClosed())
    else if r.count > |r.entries| then (InvalidBufferSize, FailClosed())
    else if r.count > CAPACITY then (InvalidParameter, FailClosed())
    else (Success, RawPolicy(r.mode, r.count, r.entries[..r.count] + Zeros(CAPACITY - r.count)))
  }

  /** get_device_filter: what is reported into a buffer that holds so many entries. */
  function GetDeviceFilter(value: RegistryValue, sizeOk: bool, available: nat): (Status, byte, seq<FilterEntry>) {
    if !sizeOk then (AbiMismatch, 0, [])
    else
      var p := Loaded(value);
      if p.count > available then (BufferTooSmall, 0, [])
      else (Success, p.mode, p.entries[..p.count])
  }

  /** What was set successfully is what is reported: the very entries, in order, if they fit. */
  lemma {:induction false} GetAfterSet(r: Request, padding: seq<byte>, sizeOk: bool, available: nat)
    requires |padding| == 3 && SetDeviceFilter(r).0 == Success
    ensures var value := Value(true, Stored(SetDeviceFilter(r).1, padding));
      GetDeviceFilter(value, sizeOk, available) ==
        if !sizeOk then (AbiMismatch, 0, [])
        else if r.count > available then (BufferTooSmall, 0, [])
        else (Success, NormalMode(r.mode), r.entries[..r.count])
  {
    var p := SetDeviceFilter(r).1;
    LoadAfterStore(p, padding);
    assert Normalized(p).entries[..r.count] == p.entries[..r.count] == r.entries[..r.count];
  }

  /** The entry agrees in every field that its flags select: 1 the class, 2 the subclass, 4 the protocol. */
  predicate Agrees(e: FilterEntry, cls: byte, subcls: byte, protocol: byte) {
    && (e.flags % 2 == 0 || e.cls == cls)
    && (e.flags % 4 < 2 || e.subcls == subcls)
    && (e.flags % 8 < 4 || e.protocol == protocol)
  }

  lemma MatchesAgrees(e: FilterEntry, cls: byte, subcls: byte, protocol: byte)
    ensures Matches(e, cls, subcls, protocol) <==> Agrees(e, cls, subcls, protocol)
  {
  }

  /** From the caller of set_device_filter to a decision of the driver that loads the value later: the request is
      taken exactly if its entries are all there and at most 64; then a triple is allowed exactly if the filter was
      set off or one of the entries that were given agrees with it. */
  lemma {:induction false} SetDecides(r: Request, padding: seq<byte>, cls: byte, subcls: byte, protocol: byte)
    requires |padding| == 3
    ensures SetDeviceFilter(r).0 == Success <==> r.sizeOk && r.count <= |r.entries| && r.count <= 64
    ensures !r.sizeOk ==> SetDeviceFilter(r).0 == AbiMismatch
    ensures r.sizeOk && r.count > |r.entries| ==> SetDeviceFilter(r).0 == InvalidBufferSize
    ensures r.sizeOk && 64 < r.count <= |r.entries| ==> SetDeviceFilter(r).0 == InvalidParameter
    ensures SetDeviceFilter(r).0 == Success ==>
      (Allows(Loaded(Value(true, Stored(SetDeviceFilter(r).1, padding))), cls, subcls, protocol) <==>
        r.mode == 0 || exists i :: 0 <= i < r.count && Agrees(r.entries[i], cls, subcls, protocol))
  {
    hide Matches, Agrees, Loaded, Stored;
    if SetDeviceFilter(r).0 == Success {
      var p := SetDeviceFilter(r).1;
      SameDecision(p, padding, cls, subcls, protocol);
      forall i | 0 <= i < r.count
        ensures p.entries[i] == r.entries[i]
        ensures Matches(p.entries[i], cls, subcls, protocol) <==> Agrees(r.entries[i], cls, subcls, protocol)
      {
        MatchesAgrees(r.entries[i], cls, subcls, protocol);
      }
    }
  }

  /** The four bytes of entry i in a registry value. */
  predicate Holds(v: seq<byte>, i: nat, e: FilterEntry) {
    && 12 + 4 * i <= |v|
    && v[8 + 4 * i] == e.cls && v[9 + 4 * i] == e.subcls && v[10 + 4 * i] == e.protocol && v[11 + 4 * i] == e.flags
  }

  /** The registry value of a policy, byte by byte: the mode, three bytes of padding, the number of entries, and
      four bytes for each of at most 64 entries. */
  lemma {:induction false} StoredBytes(p: Policy, padding: seq<byte>)
    requires |padding| == 3
    ensures var v := Stored(p, padding);
      var n := if p.count <= 64 then p.count else 64;
      && |v| == 8 + 4 * n && v[0] == (if p.mode == 0 then 0 else 1) && v[1..4] == padding && Word(v[4..8]) == n
      && forall i :: 0 <= i < n ==> Holds(v, i, p.entries[i])
  {
    hide Holds, Stored;
    StoredHeader(p, padding);
    forall i | 0 <= i < Min(p.count, 64) ensures Holds(Stored(p, padding), i, p.entries[i]) {
      StoredEntry(p, padding, i);
    }
  }

  lemma {:induction false} StoredHeader(p: Policy, padding: seq<byte>)
    requires |padding| == 3
    ensures var v := Stored(p, padding);
      var n := if p.count <= 64 then p.count else 64;
      |v| == 8 + 4 * n && v[0] == (if p.mode == 0 then 0 else 1) && v[1..4] == padding && Word(v[4..8]) == n
  {
    hide Image, WordBytes, Word;
    var tmp := SanitizePolicyForStore(p);
    ImageParts(tmp, padding);
    PartsOfPrefix(Image(tmp, padding), ENTRIES_OFFSET + tmp.count * ENTRY_SIZE);
    WordOfWordBytes(tmp.count);
  }

  lemma ImageParts(p: Policy, padding: seq<byte>)
    requires |padding| == 3
    ensures var image := Image(p, padding);
      image[0] == p.mode && image[1..4] == padding && image[4..8] == WordBytes(p.count) && image[8..] == Join(p.entries)
  {
    hide Join, WordBytes;
  }

  lemma PartsOfPrefix(image: seq<byte>, n: nat)
    requires 8 <= n <= |image|
    ensures image[..n][0] == image[0] && image[..n][1..4] == image[1..4] && image[..n][4..8] == image[4..8]
  {
  }

  lemma {:induction false} StoredEntry(p: Policy, padding: seq<byte>, i: nat)
    requires |padding| == 3 && i < p.count && i < 64
    ensures Holds(Stored(p, padding), i, p.entries[i])
  {
    hide Holds, Image;
    var v, image := Stored(p, padding), Image(SanitizePolicyForStore(p), padding);
    ImageParts(SanitizePolicyForStore(p), padding);
    JoinAt(p.entries, i);
    EntryIsThere(v, image, i);
  }

  lemma {:induction false} EntryIsThere(v: seq<byte>, image: seq<byte>, i: nat)
    requires 12 + 4 * i <= |v| <= |image| && v == image[..|v|]
    ensures Holds(v, i, EntryAt(image[8..], 4 * i))
  {
  }

  /** Entry i is counted in the header, it is wholly there, and it agrees with the triple. */
  predicate EntryAgrees(v: seq<byte>, i: nat, cls: byte, subcls: byte, protocol: byte)
    requires |v| >= 8
  {
    && i < Word(v[4..8]) && 12 + 4 * i <= |v|
    && Agrees(FilterEntry(v[8 + 4 * i], v[9 + 4 * i], v[10 + 4 * i], v[11 + 4 * i]), cls, subcls, protocol)
  }

  /** What the driver decides with any value of the registry that fits: its first byte turns the filter off, or an
      entry agrees. */
  lemma {:induction false} LoadedDecides(v: seq<byte>, cls: byte, subcls: byte, protocol: byte)
    requires 8 <= |v| <= 264
    ensures Allows(Loaded(Value(true, v)), cls, subcls, protocol) <==>
      v[0] == 0 || exists i: nat :: EntryAgrees(v, i, cls, subcls, protocol)
  {
    hide Matches, Agrees, Loaded;
    var p := Loaded(Value(true, v));
    LoadedHeader(v);
    forall i: nat
      ensures EntryAgrees(v, i, cls, subcls, protocol) <==> i < p.count && Matches(p.entries[i], cls, subcls, protocol)
    {
      if i < p.count {
        LoadedEntry(v, i);
        MatchesAgrees(p.entries[i], cls, subcls, protocol);
      }
    }
  }

  lemma {:induction false} LoadedHeader(v: seq<byte>)
    requires 8 <= |v| <= 264
    ensures var p := Loaded(Value(true, v));
      (p.mode == 0 <==> v[0] == 0) && forall i: nat :: i < p.count <==> i < Word(v[4..8]) && 12 + 4 * i <= |v|
  {
    hide Word, Split;
    var b := v + Zeroed(POLICY_SIZE)[|v|..];
    assert b[0] == v[0] && b[4..8] == v[4..8];
  }

  lemma {:induction false} LoadedEntry(v: seq<byte>, i: nat)
    requires 8 <= |v| <= 264 && i < Loaded(Value(true, v)).count
    ensures 12 + 4 * i <= |v|
    ensures Loaded(Value(true, v)).entries[i] == FilterEntry(v[8 + 4 * i], v[9 + 4 * i], v[10 + 4 * i], v[11 + 4 * i])
  {
    hide Word, Split;
    var b := v + Zeroed(POLICY_SIZE)[|v|..];
    assert Loaded(Value(true, v)).entries[i] == Split(b[8..])[i];
    SplitAt(b[8..], i);
  }
}
