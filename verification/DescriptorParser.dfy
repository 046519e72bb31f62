/** The configuration descriptor parser of the device-type filter
    (drivers/ude/device_filter_parser.h; USB 2.0 specification, sections 9.6.3, 9.6.5, 9.6.6). */
module DescriptorParser {
  import opened Words

  const CONFIGURATION_SIZE := 9
  const INTERFACE_SIZE := 9
  const ENDPOINT_SIZE := 7
  const CONFIGURATION_TYPE: byte := 2
  const INTERFACE_TYPE: byte := 4
  const ENDPOINT_TYPE: byte := 5

  /** interface_class */
  datatype Interface = Interface(number: byte, alternate: byte, cls: byte, subcls: byte, protocol: byte)

  /** descriptor_error, in the order of the checks */
  datatype Error =
    | Valid | HeaderTooShort | InvalidHeader | TotalLengthMismatch
    | DescriptorTruncated | InvalidLength | InvalidInterface | InvalidEndpoint
    | NoInterfaces | CountMismatch | NotAllowed

  /** descriptor_result */
  datatype Result = Result(error: Error, declared: nat, observed: nat, offending: Interface)

  const NOBODY := Interface(0, 0, 0, 0, 0)

  type Policy = Interface -> bool

  // ---- the parser

  function InterfaceAt(b: seq<byte>, p: nat): Interface
    requires p + 8 <= |b|
  {
    Interface(b[p + 2], b[p + 3], b[p + 5], b[p + 6], b[p + 7])
  }

  /** What is wrong with the descriptor that starts at offset p, if anything. */
  function ErrorAt(b: seq<byte>, p: nat, allowed: Policy): Error
    requires p < |b|
  {
    if |b| - p < 2 then DescriptorTruncated
    else if b[p] < 2 || b[p] > |b| - p then InvalidLength
    else if b[p + 1] == INTERFACE_TYPE then
      if b[p] < INTERFACE_SIZE then InvalidInterface
      else if !allowed(InterfaceAt(b, p)) then NotAllowed else Valid
    else if b[p + 1] == ENDPOINT_TYPE && b[p] < ENDPOINT_SIZE then InvalidEndpoint
    else Valid
  }

  function HeaderError(b: seq<byte>): Error {
    if |b| < CONFIGURATION_SIZE then HeaderTooShort
    else if b[0] != CONFIGURATION_SIZE || b[1] != CONFIGURATION_TYPE then InvalidHeader
    else if LittleEndian(b[2], b[3]) != |b| then TotalLengthMismatch
    else Valid
  }

  predicate IsInterface(b: seq<byte>, p: nat) {
    p + 2 < |b| && b[p + 1] == INTERFACE_TYPE
  }

  /** The interface number of the descriptor at offset p, if it is an interface. */
  function NumberAt(b: seq<byte>, p: nat): set<byte> {
    if IsInterface(b, p) then {b[p + 2]} else {}
  }

  function CountAt(b: seq<byte>, p: nat): nat {
    if IsInterface(b, p) then 1 else 0
  }

  /** The walk from offset p with the interface numbers seen so far. An interface that is not
      allowed is still counted. */
  function Walk(b: seq<byte>, p: nat, allowed: Policy, declared: nat, seen: set<byte>, interfaces: nat): Result
    requires p <= |b|
    decreases |b| - p
  {
    if p == |b| then
      var error := if interfaces == 0 then NoInterfaces else if |seen| != declared then CountMismatch else Valid;
      Result(error, declared, |seen|, NOBODY)
    else
      var error := ErrorAt(b, p, allowed);
      if error == Valid then Walk(b, p + b[p], allowed, declared, seen + NumberAt(b, p), interfaces + CountAt(b, p))
      else if error == NotAllowed then Result(error, declared, |seen + NumberAt(b, p)|, InterfaceAt(b, p))
      else Result(error, declared, |seen|, NOBODY)
  }

  function Evaluate(b: seq<byte>, allowed: Policy): Result {
    if HeaderError(b) != Valid then Result(HeaderError(b), 0, 0, NOBODY)
    else Walk(b, 0, allowed, b[4], {}, 0)
  }

  /** The flags mark exactly the interface numbers seen. */
  ghost predicate Marks(flags: seq<bool>, seen: set<byte>) {
    |flags| == 0x100 && forall n: byte :: flags[n] <==> n in seen
  }

  lemma NothingMarked(flags: seq<bool>)
    requires |flags| == 0x100 && forall n :: 0 <= n < 0x100 ==> !flags[n]
    ensures Marks(flags, {})
  {
  }

  lemma {:induction false} MarkOne(flags: seq<bool>, seen: set<byte>, n: byte)
    requires Marks(flags, seen)
    ensures flags[n] ==> seen + {n} == seen
    ensures !flags[n] ==> Marks(flags[n := true], seen + {n}) && |seen + {n}| == |seen| + 1
  {
  }

  /** Only an interface counts, with its number. */
  lemma {:induction false} CountsInterface(b: seq<byte>, p: nat)
    requires p + 2 <= |b|
    ensures p + 2 < |b| && b[p + 1] == INTERFACE_TYPE ==> NumberAt(b, p) == {b[p + 2]} && CountAt(b, p) == 1
    ensures b[p + 1] != INTERFACE_TYPE ==> NumberAt(b, p) == {} && CountAt(b, p) == 0
  {
  }

  /** What is reported about the descriptor at offset p: its bytes decide, in this order. */
  lemma {:induction false} ErrorCases(b: seq<byte>, p: nat, allowed: Policy)
    requires p < |b|
    ensures |b| - p < 2 ==> ErrorAt(b, p, allowed) == DescriptorTruncated
    ensures |b| - p >= 2 && (b[p] < 2 || b[p] > |b| - p) ==> ErrorAt(b, p, allowed) == InvalidLength
    ensures |b| - p >= 2 && 2 <= b[p] <= |b| - p && b[p + 1] == 4 ==>
      ErrorAt(b, p, allowed) == if b[p] < 9 then InvalidInterface
        else if !allowed(Interface(b[p + 2], b[p + 3], b[p + 5], b[p + 6], b[p + 7])) then NotAllowed else Valid
    ensures |b| - p >= 2 && 2 <= b[p] <= |b| - p && b[p + 1] != 4 ==>
      ErrorAt(b, p, allowed) == if b[p + 1] == 5 && b[p] < 7 then InvalidEndpoint else Valid
  {
  }

  /** One step of the walk. */
  lemma {:induction false} WalkStep(b: seq<byte>, p: nat, allowed: Policy, declared: nat, seen: set<byte>, n: nat)
    requires p <= |b|
    ensures p == |b| ==> Walk(b, p, allowed, declared, seen, n) == Result(
      if n == 0 then NoInterfaces else if |seen| != declared then CountMismatch else Valid, declared, |seen|, NOBODY)
    ensures p < |b| && ErrorAt(b, p, allowed) == Valid ==>
      Walk(b, p, allowed, declared, seen, n) ==
      Walk(b, p + b[p], allowed, declared, seen + NumberAt(b, p), n + CountAt(b, p))
    ensures p < |b| && ErrorAt(b, p, allowed) == NotAllowed ==>
      Walk(b, p, allowed, declared, seen, n) == Result(NotAllowed, declared, |seen + NumberAt(b, p)|, InterfaceAt(b, p))
    ensures p < |b| && ErrorAt(b, p, allowed) !in {Valid, NotAllowed} ==>
      Walk(b, p, allowed, declared, seen, n) == Result(ErrorAt(b, p, allowed), declared, |seen|, NOBODY)
  {
  }

  /** evaluate_configuration. A null pointer is the empty string of bytes. */
  method EvaluateConfiguration(b: seq<byte>, allowed: Policy) returns (result: Result)
    ensures result == Evaluate(b, allowed)
  {
    hide Walk, Marks, NumberAt, CountAt, IsInterface, ErrorAt;
    result := Result(Valid, 0, 0, NOBODY);
    if |b| < CONFIGURATION_SIZE {
      return result.(error := HeaderTooShort);
    }
    if b[0] != CONFIGURATION_SIZE || b[1] != CONFIGURATION_TYPE {
      return result.(error := InvalidHeader);
    }
    if LittleEndian(b[2], b[3]) != |b| {
      return result.(error := TotalLengthMismatch);
    }
    result := result.(declared := b[4]);
    var seenInterfaces := new bool[256](i => false);
    ghost var seen: set<byte> := {};
    assert Marks(seenInterfaces[..], seen) by { NothingMarked(seenInterfaces[..]); }
    ghost var goal := Evaluate(b, allowed);
    assert Walk(b, 0, allowed, b[4], seen, 0) == goal;
    hide Evaluate, HeaderError;
    var offset, interfaces := 0, 0;
    while offset < |b|
      invariant 0 <= offset <= |b| && result.error == Valid && result.offending == NOBODY && result.declared == b[4]
      invariant Marks(seenInterfaces[..], seen)
      invariant result.observed == |seen|
      invariant Walk(b, offset, allowed, b[4], seen, interfaces) == goal
      decreases |b| - offset
    {
      WalkStep(b, offset, allowed, b[4], seen, interfaces);
      ErrorCases(b, offset, allowed);
      if |b| - offset < 2 {
        return result.(error := DescriptorTruncated);
      }
      var length, kind := b[offset], b[offset + 1];
      if length < 2 || length > |b| - offset {
        return result.(error := InvalidLength);
      }
      if kind == INTERFACE_TYPE {
        if length < INTERFACE_SIZE {
          return result.(error := InvalidInterface);
        }
        var intf := InterfaceAt(b, offset);
        MarkOne(seenInterfaces[..], seen, intf.number);
        CountsInterface(b, offset);
        interfaces := interfaces + 1;
        if !seenInterfaces[intf.number] {
          seenInterfaces[intf.number] := true;
          result := result.(observed := result.observed + 1);
        }
        seen := seen + {intf.number};
        if !allowed(intf) {
          return result.(error := NotAllowed, offending := intf);
        }
      } else if kind == ENDPOINT_TYPE && length < ENDPOINT_SIZE {
        return result.(error := InvalidEndpoint);
      } else {
        CountsInterface(b, offset);
        assert seen + {} == seen;
      }
      offset := offset + length;
    }
    WalkStep(b, offset, allowed, b[4], seen, interfaces);
    if interfaces == 0 {
      return result.(error := NoInterfaces);
    }
    if result.observed != result.declared {
      return result.(error := CountMismatch);
    }
  }

  // ---- the declarative specification

  /** A length-prefixed descriptor that the filter accepts. */
  ghost predicate Good(d: seq<byte>, allowed: Policy) {
    && |d| >= 2 && d[0] == |d|
    && (d[1] == INTERFACE_TYPE ==> |d| >= INTERFACE_SIZE && allowed(InterfaceAt(d, 0)))
    && (d[1] == ENDPOINT_TYPE ==> |d| >= ENDPOINT_SIZE)
  }

  ghost predicate AllGood(ds: seq<seq<byte>>, allowed: Policy) {
    ds == [] || (Good(ds[0], allowed) && AllGood(ds[1..], allowed))
  }

  /** The interface descriptors among them. */
  function Interfaces(ds: seq<seq<byte>>): seq<seq<byte>> {
    if ds == [] then []
    else (if IsInterface(ds[0], 0) then [ds[0]] else []) + Interfaces(ds[1..])
  }

  /** The distinct interface numbers. */
  function Numbers(ds: seq<seq<byte>>): set<byte> {
    if ds == [] then {}
    else NumberAt(ds[0], 0) + Numbers(ds[1..])
  }

  /** The bytes are a configuration: a 9-byte header that tells the total size, split into good
      descriptors, with as many distinct interface numbers as the header declares, and some. */
  ghost predicate IsConfiguration(b: seq<byte>, ds: seq<seq<byte>>, allowed: Policy) {
    && Flatten(ds) == b && AllGood(ds, allowed)
    && |b| >= CONFIGURATION_SIZE && b[0] == CONFIGURATION_SIZE && b[1] == CONFIGURATION_TYPE
    && LittleEndian(b[2], b[3]) == |b|
    && Interfaces(ds) != [] && |Numbers(ds)| == b[4]
  }

  /** An offset error depends on the rest of the bytes only. */
  lemma {:induction false} ErrorShifts(b: seq<byte>, p: nat, allowed: Policy)
    requires p < |b|
    ensures ErrorAt(b, p, allowed) == ErrorAt(b[p..], 0, allowed)
  {
    assert forall k :: 0 <= k < |b| - p ==> b[p..][k] == b[p + k];
    if |b| - p >= 8 {
      assert InterfaceAt(b, p) == InterfaceAt(b[p..], 0);
    }
  }

  /** A good descriptor at the front has no error, whatever follows. */
  lemma {:induction false} GoodHasNoError(d: seq<byte>, rest: seq<byte>, allowed: Policy)
    requires Good(d, allowed)
    ensures ErrorAt(d + rest, 0, allowed) == Valid
  {
    if |d| >= 8 {
      assert InterfaceAt(d + rest, 0) == InterfaceAt(d, 0);
    }
  }

  /** A descriptor without an error is good. */
  lemma {:induction false} NoErrorIsGood(b: seq<byte>, allowed: Policy)
    requires b != [] && ErrorAt(b, 0, allowed) == Valid
    ensures 2 <= b[0] <= |b| && Good(b[..b[0]], allowed)
  {
    if b[0] >= INTERFACE_SIZE {
      assert InterfaceAt(b[..b[0]], 0) == InterfaceAt(b, 0);
    }
  }

  /** The walk takes a good descriptor in one step. */
  lemma {:induction false} WalkOverOne(b: seq<byte>, p: nat, d: seq<byte>, tail: seq<byte>, allowed: Policy,
                                       declared: nat, seen: set<byte>, interfaces: nat)
    requires p <= |b| && b[p..] == d + tail && Good(d, allowed)
    ensures p + |d| <= |b| && b[p + |d|..] == tail
    ensures Walk(b, p, allowed, declared, seen, interfaces)
         == Walk(b, p + |d|, allowed, declared, seen + NumberAt(d, 0), interfaces + CountAt(d, 0))
  {
    hide Walk, ErrorAt, NumberAt, CountAt;
    SameFront(b, p, d, tail, allowed);
    GoodHasNoError(d, tail, allowed);
    ErrorShifts(b, p, allowed);
    WalkStep(b, p, allowed, declared, seen, interfaces);
  }

  /** What a descriptor in the middle says is what it says alone. */
  lemma {:induction false} SameFront(b: seq<byte>, p: nat, d: seq<byte>, tail: seq<byte>, allowed: Policy)
    requires p <= |b| && b[p..] == d + tail && Good(d, allowed)
    ensures p + |d| <= |b| && b[p] == |d| > 0 && b[p + |d|..] == tail
    ensures NumberAt(b, p) == NumberAt(d, 0) && CountAt(b, p) == CountAt(d, 0)
  {
    assert b[p..][0] == b[p] == |d| && b[p..][1] == b[p + 1] == d[1];
    assert b[p + |d|..] == b[p..][|d|..];
    assert d[1] == INTERFACE_TYPE ==> b[p + 2] == b[p..][2];
    assert |d| == 2 ==> d[1] != INTERFACE_TYPE;
  }

  lemma {:induction false} FlattenCons(ds: seq<seq<byte>>, rest: seq<byte>)
    requires ds != []
    ensures Flatten(ds) + rest == ds[0] + (Flatten(ds[1..]) + rest)
  {
  }

  lemma NoneLeft(b: seq<byte>, p: nat, rest: seq<byte>)
    requires p <= |b| && b[p..] == Flatten([]) + rest
    ensures p == |b| - |rest|
  {
    assert |b[p..]| == |rest|;
  }

  function Collect(ds: seq<seq<byte>>, seen: set<byte>): set<byte> {
    if ds == [] then seen else Collect(ds[1..], seen + NumberAt(ds[0], 0))
  }

  function Count(ds: seq<seq<byte>>, n: nat): nat {
    if ds == [] then n else Count(ds[1..], n + CountAt(ds[0], 0))
  }

  lemma {:induction false} Collected(ds: seq<seq<byte>>, seen: set<byte>, n: nat)
    ensures Collect(ds, seen) == seen + Numbers(ds) && Count(ds, n) == n + |Interfaces(ds)|
  {
    if ds != [] {
      Collected(ds[1..], seen + NumberAt(ds[0], 0), n + CountAt(ds[0], 0));
    }
  }

  /** The walk over good descriptors collects their interface numbers and goes on behind them. */
  lemma {:induction false} WalkOverGood(b: seq<byte>, p: nat, ds: seq<seq<byte>>, rest: seq<byte>, allowed: Policy,
                                        declared: nat, seen: set<byte>, n: nat)
    requires p <= |b| && b[p..] == Flatten(ds) + rest && AllGood(ds, allowed)
    ensures |rest| <= |b|
    ensures Walk(b, p, allowed, declared, seen, n) == Walk(b, |b| - |rest|, allowed, declared, Collect(ds, seen), Count(ds, n))
    decreases |ds|
  {
    hide Walk, Good, Flatten, NumberAt, CountAt;
    if ds == [] {
      NoneLeft(b, p, rest);
    } else {
      var d, tail := ds[0], Flatten(ds[1..]) + rest;
      FlattenCons(ds, rest);
      WalkOverOne(b, p, d, tail, allowed, declared, seen, n);
      var q, seen', n' := p + |d|, seen + NumberAt(d, 0), n + CountAt(d, 0);
      WalkOverGood(b, q, ds[1..], rest, allowed, declared, seen', n');
      assert Collect(ds, seen) == Collect(ds[1..], seen') && Count(ds, n) == Count(ds[1..], n');
    }
  }

  /** The walk from the start, behind the good descriptors. */
  lemma {:induction false} WalkFromStart(b: seq<byte>, ds: seq<seq<byte>>, rest: seq<byte>, allowed: Policy)
    requires HeaderError(b) == Valid && b == Flatten(ds) + rest && AllGood(ds, allowed)
    ensures |rest| <= |b|
    ensures Evaluate(b, allowed) == Walk(b, |b| - |rest|, allowed, b[4], Numbers(ds), |Interfaces(ds)|)
  {
    WalkOverGood(b, 0, ds, rest, allowed, b[4], {}, 0);
    Collected(ds, {}, 0);
    assert {} + Numbers(ds) == Numbers(ds);
  }

  /** Every byte string splits into good descriptors and a rest that is empty or offends. */
  lemma {:induction false} SplitExists(b: seq<byte>, allowed: Policy) returns (ds: seq<seq<byte>>, rest: seq<byte>)
    ensures b == Flatten(ds) + rest && AllGood(ds, allowed)
    ensures rest == [] || ErrorAt(rest, 0, allowed) != Valid
    decreases |b|
  {
    if b == [] || ErrorAt(b, 0, allowed) != Valid {
      ds, rest := [], b;
    } else {
      NoErrorIsGood(b, allowed);
      var d := b[..b[0]];
      var ds', rest' := SplitExists(b[b[0]..], allowed);
      ds, rest := [d] + ds', rest';
      assert b == d + b[b[0]..];
    }
  }

  /** The parser accepts exactly the configurations of the declarative specification. */
  lemma {:induction false} AcceptsExactlyConfigurations(b: seq<byte>, allowed: Policy)
    ensures Evaluate(b, allowed).error == Valid <==> exists ds :: IsConfiguration(b, ds, allowed)
  {
    if HeaderError(b) == Valid {
      var ds, rest := SplitExists(b, allowed);
      WalkFromStart(b, ds, rest, allowed);
      if rest == [] {
        assert Flatten(ds) + [] == Flatten(ds);
        if Evaluate(b, allowed).error == Valid {
          assert IsConfiguration(b, ds, allowed);
        }
      } else {
        OffendingRest(b, rest, allowed, b[4], Numbers(ds), |Interfaces(ds)|);
      }
      forall ds' | IsConfiguration(b, ds', allowed) ensures Evaluate(b, allowed).error == Valid {
        assert Flatten(ds') + [] == b;
        WalkFromStart(b, ds', [], allowed);
      }
    }
  }

  lemma {:induction false} OffendingRest(b: seq<byte>, rest: seq<byte>, allowed: Policy, declared: nat,
                                        seen: set<byte>, n: nat)
    requires 0 < |rest| <= |b| && b[|b| - |rest|..] == rest && ErrorAt(rest, 0, allowed) != Valid
    ensures Walk(b, |b| - |rest|, allowed, declared, seen, n)
         == if ErrorAt(rest, 0, allowed) != NotAllowed then Result(ErrorAt(rest, 0, allowed), declared, |seen|, NOBODY)
            else Result(NotAllowed, declared, |seen + NumberAt(rest, 0)|, InterfaceAt(rest, 0))
  {
    hide Walk, ErrorAt;
    var p := |b| - |rest|;
    assert forall k :: 0 <= k < |rest| ==> b[p..][k] == b[p + k] == rest[k];
    ErrorShifts(b, p, allowed);
    ErrorCases(rest, 0, allowed);
    WalkStep(b, p, allowed, declared, seen, n);
  }

  /** The error reported during the walk is that of the first offending descriptor: whatever good descriptors
      precede it and whatever bytes follow. Distinct interface numbers are counted up to there, and an interface
      that is not allowed is counted and named. */
  lemma {:induction false} ReportsFirstOffender(b: seq<byte>, ds: seq<seq<byte>>, rest: seq<byte>, allowed: Policy)
    requires HeaderError(b) == Valid && b == Flatten(ds) + rest && AllGood(ds, allowed)
    requires rest != [] && ErrorAt(rest, 0, allowed) != Valid
    ensures var result := Evaluate(b, allowed);
      && result.error == ErrorAt(rest, 0, allowed) && result.declared == b[4]
      && (result.error != NotAllowed ==>
            result.observed == |Numbers(ds)| && result.offending == Interface(0, 0, 0, 0, 0))
      && (result.error == NotAllowed ==>
            |rest| >= 9 && result.observed == |Numbers(ds) + {rest[2]}| && result.offending == Interface(rest[2], rest[3], rest[5], rest[6], rest[7]))
  {
    hide Walk, ErrorAt, Good, Numbers, Interfaces, Evaluate;
    WalkFromStart(b, ds, rest, allowed);
    assert b[|b| - |rest|..] == rest;
    OffendingRest(b, rest, allowed, b[4], Numbers(ds), |Interfaces(ds)|);
    ErrorCases(rest, 0, allowed);
  }

  /** The whole result when every descriptor is good. */
  lemma {:induction false} GoodResult(b: seq<byte>, ds: seq<seq<byte>>, allowed: Policy)
    requires HeaderError(b) == Valid && b == Flatten(ds) && AllGood(ds, allowed)
    ensures Evaluate(b, allowed) == Result(
      if Interfaces(ds) == [] then NoInterfaces else if |Numbers(ds)| != b[4] then CountMismatch else Valid,
      b[4], |Numbers(ds)|, Interface(0, 0, 0, 0, 0))
  {
    hide Evaluate, Walk;
    assert Flatten(ds) + [] == b;
    WalkFromStart(b, ds, [], allowed);
    WalkStep(b, |b|, allowed, b[4], Numbers(ds), |Interfaces(ds)|);
  }

  /** What is reported without a walk. */
  lemma {:induction false} HeaderErrors(b: seq<byte>, allowed: Policy)
    ensures |b| < 9 ==> Evaluate(b, allowed) == Result(HeaderTooShort, 0, 0, NOBODY)
    ensures |b| >= 9 && (b[0] != 9 || b[1] != 2) ==> Evaluate(b, allowed) == Result(InvalidHeader, 0, 0, NOBODY)
    ensures |b| >= 9 && b[0] == 9 && b[1] == 2 && LittleEndian(b[2], b[3]) != |b| ==>
      Evaluate(b, allowed) == Result(TotalLengthMismatch, 0, 0, NOBODY)
    ensures HeaderError(b) == Valid <==> |b| >= 9 && b[0] == 9 && b[1] == 2 && LittleEndian(b[2], b[3]) == |b|
  {
  }

  /** The numbers that are counted are the third bytes of the interface descriptors, whose type is 4. */
  lemma {:induction false} NumbersAre(ds: seq<seq<byte>>, n: byte)
    ensures n in Numbers(ds) <==> exists k :: 0 <= k < |ds| && |ds[k]| > 2 && ds[k][1] == 4 && ds[k][2] == n
    ensures Interfaces(ds) != [] <==> exists k :: 0 <= k < |ds| && |ds[k]| > 2 && ds[k][1] == 4
  {
    if ds != [] {
      NumbersAre(ds[1..], n);
      assert forall k :: 1 <= k < |ds| ==> ds[k] == ds[1..][k - 1];
    }
  }
}
