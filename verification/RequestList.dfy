/** The list of requests that wait for USBIP_RET_SUBMIT (drivers/ude/request_list.cpp) and
    the endpoint purge loop (drivers/ude/device.cpp).

    Every function below is one region that holds device_ctx::requests_lock. */
module RequestList {
  import opened Words
  import opened Seqnum

  type Handle = nat    // WDFREQUEST
  type Endpoint = nat  // UDECXUSBENDPOINT

  /** request_ctx, linked into device_ctx::requests. */
  datatype Entry = Entry(request: Handle, endpoint: Endpoint, seqnum: uint32, cancelable: bool)

  /** request_search */
  datatype Search = BySeqnum(seqnum: uint32) | ByRequest(request: Handle) | ByEndpoint(endpoint: Endpoint)
  {
    predicate Multimatch() { ByEndpoint? }

    predicate Matches(e: Entry) {
      match this
      case BySeqnum(n) => n == e.seqnum
      case ByRequest(r) => r == e.request
      case ByEndpoint(p) => p == e.endpoint
    }
  }

  datatype Status = Success | Cancelled | NotCancelable

  /** What the framework knows about the requests of a device: for which a cancel was
      requested, which are marked cancelable, and whose cancel callback was dispatched. */
  datatype Wdf = Wdf(cancelRequested: set<Handle>, marked: set<Handle>, dispatched: set<Handle>)
  {
    /** WdfRequestMarkCancelableEx: no callback will follow if a cancel was already requested. */
    function Mark(request: Handle): (Status, Wdf) {
      if request in cancelRequested then (Cancelled, this)
      else (Success, this.(marked := marked + {request}))
    }

    /** WdfRequestUnmarkCancelable: CANCELLED exactly when the callback was dispatched. */
    function Unmark(request: Handle): (Status, Wdf) {
      if request in dispatched then (Cancelled, this)
      else if request in marked then (Success, this.(marked := marked - {request}))
      else (NotCancelable, this)
    }
  }

  datatype Marking = Marking(status: Status, requests: seq<Entry>, wdf: Wdf, marks: int)
  datatype Removal = Removal(found: Option<Handle>, requests: seq<Entry>, wdf: Wdf)

  /** mark_request_cancelable on values: only the first entry with this number is affected. */
  function MarkResult(list: seq<Entry>, wdf: Wdf, seqnum: uint32): Marking {
    if list == [] then Marking(Success, [], wdf, 0)
    else if list[0].seqnum != seqnum then
      var m := MarkResult(list[1..], wdf, seqnum);
      m.(requests := [list[0]] + m.requests)
    else
      var (status, wdf') := wdf.Mark(list[0].request);
      if status != Success then Marking(status, list[1..], wdf', 0)
      else Marking(Success, [list[0].(cancelable := true)] + list[1..], wdf', 1)
  }

  /** remove_request on values. */
  function RemoveResult(list: seq<Entry>, wdf: Wdf, crit: Search, unmark: bool): Removal {
    if list == [] then Removal(None, [], wdf)
    else if !crit.Matches(list[0]) then
      var r := RemoveResult(list[1..], wdf, crit, unmark);
      r.(requests := [list[0]] + r.requests)
    else if !(unmark && list[0].cancelable) then Removal(Some(list[0].request), list[1..], wdf)
    else
      var (status, wdf') := wdf.Unmark(list[0].request);
      if status != Cancelled then Removal(Some(list[0].request), list[1..], wdf')
      else if crit.Multimatch() then RemoveResult(list[1..], wdf', crit, unmark)
      else Removal(None, list[1..], wdf')
  }

  ghost function SkipPrefix(prefix: seq<Entry>, m: Marking): Marking {
    m.(requests := prefix + m.requests)
  }

  lemma SkipPrefixTwice(a: seq<Entry>, b: seq<Entry>, m: Marking)
    ensures SkipPrefix(a, SkipPrefix(b, m)) == SkipPrefix(a + b, m)
  {
    assert a + (b + m.requests) == (a + b) + m.requests;
  }

  ghost function KeepPrefix(prefix: seq<Entry>, r: Removal): Removal {
    r.(requests := prefix + r.requests)
  }

  lemma KeepPrefixTwice(a: seq<Entry>, b: seq<Entry>, r: Removal)
    ensures KeepPrefix(a, KeepPrefix(b, r)) == KeepPrefix(a + b, r)
  {
    assert a + (b + r.requests) == (a + b) + r.requests;
  }

  class DeviceCtx {
    var requests: seq<Entry>
    var cancelableRequests: nat
    var wdf: Wdf

    method AppendRequest(request: Handle, seqnum: uint32, endpoint: Endpoint)
      modifies this`requests
      ensures requests == old(requests) + [Entry(request, endpoint, seqnum, false)]
    {
      requests := requests + [Entry(request, endpoint, seqnum, false)];
    }

    method MarkRequestCancelable(seqnum: uint32) returns (status: Status)
      modifies this
      ensures Marking(status, requests, wdf, cancelableRequests - old(cancelableRequests))
           == MarkResult(old(requests), old(wdf), seqnum)
    {
      ghost var expected := MarkResult(requests, wdf, seqnum);
      var i := 0;
      while i < |requests|
        invariant 0 <= i <= |requests|
        invariant requests == old(requests) && wdf == old(wdf) && cancelableRequests == old(cancelableRequests)
        invariant expected == SkipPrefix(requests[..i], MarkResult(requests[i..], wdf, seqnum))
      {
        var e := requests[i];
        ghost var prefix, rest := requests[..i], requests[i + 1..];
        assert requests[i..] == [e] + rest && requests[i..][1..] == rest;
        if e.seqnum == seqnum {
          var (err, wdf') := wdf.Mark(e.request);
          wdf := wdf';
          if err != Success {
            requests := requests[..i] + requests[i + 1..];
            return err;
          }
          requests := requests[i := e.(cancelable := true)];
          assert requests == prefix + ([e.(cancelable := true)] + rest);
          cancelableRequests := cancelableRequests + 1;
          return Success;
        }
        assert requests[..i + 1] == prefix + [e];
        SkipPrefixTwice(prefix, [e], MarkResult(rest, wdf, seqnum));
        i := i + 1;
      }
      assert requests[..i] + [] == requests;
      return Success;
    }

    method RemoveRequest(crit: Search, unmark: bool) returns (found: Option<Handle>)
      modifies this`requests, this`wdf
      ensures Removal(found, requests, wdf) == RemoveResult(old(requests), old(wdf), crit, unmark)
    {
      ghost var expected := RemoveResult(requests, wdf, crit, unmark);
      var i := 0;
      while i < |requests|
        invariant 0 <= i <= |requests|
        invariant expected == KeepPrefix(requests[..i], RemoveResult(requests[i..], wdf, crit, unmark))
        decreases |requests| - i
      {
        var e := requests[i];
        ghost var prefix, rest := requests[..i], requests[i + 1..];
        assert requests[i..] == [e] + rest && requests[i..][1..] == rest;
        if !crit.Matches(e) {
          assert requests[..i + 1] == prefix + [e];
          KeepPrefixTwice(prefix, [e], RemoveResult(rest, wdf, crit, unmark));
          i := i + 1;
        } else {
          requests := requests[..i] + requests[i + 1..];
          assert requests[..i] == prefix && requests[i..] == rest;
          if !(unmark && e.cancelable) {
            return Some(e.request);
          }
          var (status, wdf') := wdf.Unmark(e.request);
          wdf := wdf';
          if status != Cancelled {
            return Some(e.request);
          } else if !crit.Multimatch() {
            return None;
          }
        }
      }
      assert requests[..i] + [] == requests;
      return None;
    }

    /** The loop of endpoint_purge. The requests it takes are cancelled in list order. */
    method EndpointPurge(endpoint: Endpoint) returns (taken: seq<Handle>)
      modifies this`requests, this`wdf
      ensures requests == Without(old(requests), endpoint)
      ensures taken == Available(old(requests), old(wdf), endpoint)
    {
      taken := [];
      while true
        invariant Without(requests, endpoint) == Without(old(requests), endpoint)
        invariant taken + Available(requests, wdf, endpoint) == Available(old(requests), old(wdf), endpoint)
        decreases |requests|
      {
        RemoveByEndpoint(requests, wdf, endpoint);
        var found := RemoveRequest(ByEndpoint(endpoint), true);
        if found == None {
          WithoutIsIdempotent(old(requests), endpoint);
          return;
        }
        taken := taken + [found.value];
      }
    }
  }

  /** The entries of other endpoints, in order. */
  function Without(list: seq<Entry>, endpoint: Endpoint): seq<Entry> {
    if list == [] then []
    else (if list[0].endpoint == endpoint then [] else [list[0]]) + Without(list[1..], endpoint)
  }

  /** An entry of this endpoint that a dispatched cancel callback does not own. */
  predicate IsAvailable(e: Entry, wdf: Wdf, endpoint: Endpoint) {
    e.endpoint == endpoint && !(e.cancelable && e.request in wdf.dispatched)
  }

  /** The requests of this endpoint that no dispatched cancel callback owns, in order. */
  function Available(list: seq<Entry>, wdf: Wdf, endpoint: Endpoint): seq<Handle> {
    if list == [] then []
    else (if IsAvailable(list[0], wdf, endpoint) then [list[0].request] else [])
         + Available(list[1..], wdf, endpoint)
  }

  lemma {:induction false} WithoutIsIdempotent(list: seq<Entry>, endpoint: Endpoint)
    ensures Without(Without(list, endpoint), endpoint) == Without(list, endpoint)
    ensures forall e :: e in Without(list, endpoint) <==> e in list && e.endpoint != endpoint
  {
    if list != [] {
      WithoutIsIdempotent(list[1..], endpoint);
      assert list == [list[0]] + list[1..];
      var tail := Without(list[1..], endpoint);
      if list[0].endpoint == endpoint {
        assert Without(list, endpoint) == tail;
      } else {
        assert ([list[0]] + tail)[1..] == tail;
      }
    }
  }

  /** Removal by endpoint takes the first available request, if there is one, drops nothing
      that is available and nothing of another endpoint, and finds none only when none is
      left, having unlinked every entry of the endpoint. */
  lemma {:induction false} RemoveByEndpoint(list: seq<Entry>, wdf: Wdf, endpoint: Endpoint)
    ensures var r := RemoveResult(list, wdf, ByEndpoint(endpoint), true);
            && r.wdf.dispatched == wdf.dispatched && r.wdf.cancelRequested == wdf.cancelRequested
            && Without(r.requests, endpoint) == Without(list, endpoint)
            && match r.found {
                 case Some(h) =>
                   && Available(list, wdf, endpoint) == [h] + Available(r.requests, r.wdf, endpoint)
                   && |r.requests| < |list|
                 case None =>
                   && Available(list, wdf, endpoint) == [] && r.wdf == wdf
                   && r.requests == Without(list, endpoint)
               }
  {
    if list != [] {
      var head, tail := list[0], list[1..];
      var r := RemoveResult(tail, wdf, ByEndpoint(endpoint), true);
      if head.endpoint != endpoint {
        RemoveByEndpoint(tail, wdf, endpoint);
        ConsUnfolds(head, r.requests, r.wdf, endpoint);
      } else if !head.cancelable {
      } else if head.request in wdf.dispatched {
        RemoveByEndpoint(tail, wdf, endpoint);
      } else {
        AvailableDependsOnDispatched(tail, wdf, wdf.Unmark(head.request).1, endpoint);
      }
    }
  }

  lemma ConsUnfolds(head: Entry, tail: seq<Entry>, wdf: Wdf, endpoint: Endpoint)
    requires head.endpoint != endpoint
    ensures Without([head] + tail, endpoint) == [head] + Without(tail, endpoint)
    ensures Available([head] + tail, wdf, endpoint) == Available(tail, wdf, endpoint)
  {
    assert ([head] + tail)[1..] == tail;
  }

  lemma AvailableDependsOnDispatched(list: seq<Entry>, a: Wdf, b: Wdf, endpoint: Endpoint)
    requires a.dispatched == b.dispatched
    ensures Available(list, a, endpoint) == Available(list, b, endpoint)
  {
  }

  /** No request is linked twice. */
  ghost predicate Distinct(list: seq<Entry>) {
    forall i, j :: 0 <= i < j < |list| ==> list[i].request != list[j].request
  }

  ghost predicate TakenAt(list: seq<Entry>, wdf: Wdf, endpoint: Endpoint, r: Removal, i: nat) {
    && i < |list| && IsAvailable(list[i], wdf, endpoint) && r.found == Some(list[i].request)
    && (forall j :: 0 <= j < i ==> !IsAvailable(list[j], wdf, endpoint))
    && r.requests == Without(list[..i], endpoint) + list[i + 1..]
  }

  /** The entry taken is the first available one. Besides it only the entries of the endpoint
      before it are unlinked, the rest keeps its order. */
  lemma {:induction false} FirstAvailableIsTaken(list: seq<Entry>, wdf: Wdf, endpoint: Endpoint)
    ensures var r := RemoveResult(list, wdf, ByEndpoint(endpoint), true);
            r.found != None ==> exists i :: TakenAt(list, wdf, endpoint, r, i)
  {
    hide RemoveResult, Without, IsAvailable;
    var r := RemoveResult(list, wdf, ByEndpoint(endpoint), true);
    if r.found != None {
      RemoveFromNothing(list, wdf, endpoint);
      if IsAvailable(list[0], wdf, endpoint) {
        RemoveTakesHead(list, wdf, endpoint);
      } else {
        RemoveSkipsHead(list, wdf, endpoint);
        FirstAvailableIsTaken(list[1..], wdf, endpoint);
        var r' := RemoveResult(list[1..], wdf, ByEndpoint(endpoint), true);
        var i: nat :| TakenAt(list[1..], wdf, endpoint, r', i);
        WithoutHead(list, endpoint, i);
        TakenBehindHead(list, wdf, endpoint, r, r', i);
      }
    }
  }

  /** The head, unless it is skipped. */
  function KeptHead(list: seq<Entry>, endpoint: Endpoint): seq<Entry>
    requires list != []
  {
    if list[0].endpoint == endpoint then [] else [list[0]]
  }

  lemma {:induction false} RemoveFromNothing(list: seq<Entry>, wdf: Wdf, endpoint: Endpoint)
    ensures list == [] ==> RemoveResult(list, wdf, ByEndpoint(endpoint), true).found == None
  {
  }

  lemma {:induction false} RemoveTakesHead(list: seq<Entry>, wdf: Wdf, endpoint: Endpoint)
    requires list != [] && IsAvailable(list[0], wdf, endpoint)
    ensures TakenAt(list, wdf, endpoint, RemoveResult(list, wdf, ByEndpoint(endpoint), true), 0)
  {
    assert list[..0] == [];
    assert [] + list[1..] == list[1..];
  }

  lemma {:induction false} RemoveSkipsHead(list: seq<Entry>, wdf: Wdf, endpoint: Endpoint)
    requires list != [] && !IsAvailable(list[0], wdf, endpoint)
    ensures var r, r' := RemoveResult(list, wdf, ByEndpoint(endpoint), true),
                         RemoveResult(list[1..], wdf, ByEndpoint(endpoint), true);
      r.found == r'.found && r.requests == KeptHead(list, endpoint) + r'.requests && r.wdf == r'.wdf
  {
    var r' := RemoveResult(list[1..], wdf, ByEndpoint(endpoint), true);
    assert [] + r'.requests == r'.requests;
  }

  lemma {:induction false} WithoutHead(list: seq<Entry>, endpoint: Endpoint, i: nat)
    requires i < |list|
    ensures Without(list[..i + 1], endpoint) == KeptHead(list, endpoint) + Without(list[1..][..i], endpoint)
  {
    assert list[..i + 1][1..] == list[1..][..i];
  }

  lemma {:induction false} TakenBehindHead(list: seq<Entry>, wdf: Wdf, endpoint: Endpoint, r: Removal, r': Removal, i: nat)
    requires list != [] && !IsAvailable(list[0], wdf, endpoint) && TakenAt(list[1..], wdf, endpoint, r', i)
    requires r.found == r'.found && r.requests == KeptHead(list, endpoint) + r'.requests
    requires Without(list[..i + 1], endpoint) == KeptHead(list, endpoint) + Without(list[1..][..i], endpoint)
    ensures TakenAt(list, wdf, endpoint, r, i + 1)
  {
    hide Without, IsAvailable, KeptHead;
    var kept, tail := Without(list[1..][..i], endpoint), list[i + 2..];
    assert list[1..][i + 1..] == tail;
    assert KeptHead(list, endpoint) + (kept + tail) == (KeptHead(list, endpoint) + kept) + tail;
    assert forall j :: 1 <= j < i + 1 ==> list[j] == list[1..][j - 1];
  }

  ghost predicate Linked(list: seq<Entry>, request: Handle) {
    exists e :: e in list && e.request == request
  }

  /** What marking does to the set of linked entries. */
  ghost predicate MarkedEntry(list: seq<Entry>, wdf: Wdf, m: Marking, e: Entry) {
    && e in list && Distinct(m.requests)
    && match m.status {
         case Success =>
           && m.wdf == wdf.(marked := wdf.marked + {e.request}) && e.request !in wdf.cancelRequested
           && forall x :: x in m.requests <==> x == e.(cancelable := true) || (x in list && x.request != e.request)
         case Cancelled =>
           && m.wdf == wdf && e.request in wdf.cancelRequested
           && forall x :: x in m.requests <==> x in list && x.request != e.request
         case NotCancelable => false
       }
  }

  /** Marking a number that one entry carries affects that entry and no other. */
  lemma {:induction false} MarkFound(list: seq<Entry>, wdf: Wdf, seqnum: uint32, e: Entry)
    requires Distinct(list) && e in list && e.seqnum == seqnum
    requires forall x :: x in list && x.seqnum == seqnum ==> x == e
    ensures MarkedEntry(list, wdf, MarkResult(list, wdf, seqnum), e)
  {
    var head, tail := list[0], list[1..];
    var m := MarkResult(tail, wdf, seqnum);
    InCons(list);
    if head == e {
      var marked := head.(cancelable := true);
      DistinctCons(marked, tail, tail);
      InCons([marked] + tail);
    } else {
      MarkFound(tail, wdf, seqnum, e);
      InCons([head] + m.requests);
      assert forall x :: x in m.requests ==> x.request != head.request;
      assert Distinct([head] + m.requests);
    }
  }

  lemma {:induction false} MarkNotFound(list: seq<Entry>, wdf: Wdf, seqnum: uint32)
    requires forall x :: x in list ==> x.seqnum != seqnum
    ensures MarkResult(list, wdf, seqnum) == Marking(Success, list, wdf, 0)
  {
    if list != [] {
      InCons(list);
      MarkNotFound(list[1..], wdf, seqnum);
    }
  }

  lemma {:induction false} MarkHead(list: seq<Entry>, wdf: Wdf, seqnum: uint32)
    requires list != [] && list[0].seqnum == seqnum
    ensures var e := list[0];
      MarkResult(list, wdf, seqnum) ==
        if e.request in wdf.cancelRequested then Marking(Cancelled, list[1..], wdf, 0)
        else Marking(Success, [e.(cancelable := true)] + list[1..], wdf.(marked := wdf.marked + {e.request}), 1)
  {
  }

  lemma {:induction false} MarkBehindHead(list: seq<Entry>, wdf: Wdf, seqnum: uint32)
    requires list != [] && list[0].seqnum != seqnum
    ensures MarkResult(list, wdf, seqnum) == SkipPrefix([list[0]], MarkResult(list[1..], wdf, seqnum))
  {
  }

  /** The list with entry i left out or replaced. */
  function Replaced(list: seq<Entry>, i: nat, put: seq<Entry>): seq<Entry>
    requires i < |list|
  {
    list[..i] + put + list[i + 1..]
  }

  lemma ReplacedInTail(list: seq<Entry>, i: nat, put: seq<Entry>)
    requires 0 < i < |list|
    ensures [list[0]] + Replaced(list[1..], i - 1, put) == Replaced(list, i, put)
  {
  }

  lemma ReplacedHead(list: seq<Entry>, put: seq<Entry>)
    requires list != []
    ensures Replaced(list, 0, put) == put + list[1..]
  {
  }

  /** The whole effect of marking: the first entry with the number is flagged cancelable in its place and counted,
      and its request marked; or, if a cancel was already requested, it is unlinked and nothing is marked. */
  lemma {:induction false} MarkFirst(list: seq<Entry>, wdf: Wdf, seqnum: uint32, i: nat)
    requires i < |list| && list[i].seqnum == seqnum && forall j :: 0 <= j < i ==> list[j].seqnum != seqnum
    ensures var e := list[i];
      MarkResult(list, wdf, seqnum) ==
        if e.request in wdf.cancelRequested then Marking(Cancelled, Replaced(list, i, []), wdf, 0)
        else Marking(Success, Replaced(list, i, [e.(cancelable := true)]), wdf.(marked := wdf.marked + {e.request}), 1)
  {
    hide MarkResult, Replaced;
    var marked := [list[i].(cancelable := true)];
    if i > 0 {
      var tail := list[1..];
      MarkBehindHead(list, wdf, seqnum);
      assert forall j :: 0 <= j < i - 1 ==> tail[j] == list[j + 1];
      MarkFirst(tail, wdf, seqnum, i - 1);
      ReplacedInTail(list, i, []);
      ReplacedInTail(list, i, marked);
    } else {
      MarkHead(list, wdf, seqnum);
      ReplacedHead(list, []);
      assert [] + list[1..] == list[1..];
      ReplacedHead(list, marked);
    }
  }

  lemma {:induction false} RemoveHead(list: seq<Entry>, wdf: Wdf, crit: Search, unmark: bool)
    requires !crit.ByEndpoint? && list != [] && crit.Matches(list[0])
    ensures var e := list[0];
      RemoveResult(list, wdf, crit, unmark) == Removal(
        if unmark && OwnedByCallback(e, wdf) then None else Some(e.request), list[1..],
        if unmark && !OwnedByCallback(e, wdf) then Unmarked(wdf, e) else wdf)
  {
    assert list[0].request !in wdf.marked ==> wdf.marked - {list[0].request} == wdf.marked;
  }

  lemma {:induction false} RemoveBehindHead(list: seq<Entry>, wdf: Wdf, crit: Search, unmark: bool)
    requires list != [] && !crit.Matches(list[0])
    ensures RemoveResult(list, wdf, crit, unmark) == KeepPrefix([list[0]], RemoveResult(list[1..], wdf, crit, unmark))
  {
  }

  /** The whole effect of a removal by number or by handle: the first match is unlinked, the rest keeps its order.
      It is returned and no longer marked, unless a dispatched cancel callback owns it and it was to be unmarked. */
  lemma {:induction false} RemoveSingle(list: seq<Entry>, wdf: Wdf, crit: Search, unmark: bool, i: nat)
    requires !crit.ByEndpoint? && i < |list| && crit.Matches(list[i]) && forall j :: 0 <= j < i ==> !crit.Matches(list[j])
    ensures var e := list[i];
      RemoveResult(list, wdf, crit, unmark) == Removal(
        if unmark && OwnedByCallback(e, wdf) then None else Some(e.request),
        Replaced(list, i, []),
        if unmark && !OwnedByCallback(e, wdf) then Unmarked(wdf, e) else wdf)
  {
    hide RemoveResult, OwnedByCallback, Unmarked, Replaced;
    if i > 0 {
      var tail := list[1..];
      RemoveBehindHead(list, wdf, crit, unmark);
      assert forall j :: 0 <= j < i - 1 ==> tail[j] == list[j + 1];
      RemoveSingle(tail, wdf, crit, unmark, i - 1);
      ReplacedInTail(list, i, []);
    } else {
      RemoveHead(list, wdf, crit, unmark);
      ReplacedHead(list, []);
      assert [] + list[1..] == list[1..];
    }
  }

  /** An entry that a dispatched cancel callback owns. */
  predicate OwnedByCallback(e: Entry, wdf: Wdf) {
    e.cancelable && e.request in wdf.dispatched
  }

  /** Removing by a number that one entry carries: the entry is unlinked and nothing else is; its request is
      returned, and not marked any more, unless a dispatched cancel callback owns it. */
  lemma {:induction false} RemoveFound(list: seq<Entry>, wdf: Wdf, seqnum: uint32, e: Entry)
    requires Distinct(list) && e in list && e.seqnum == seqnum
    requires forall x :: x in list && x.seqnum == seqnum ==> x == e
    ensures var r := RemoveResult(list, wdf, BySeqnum(seqnum), true);
      && Distinct(r.requests) && (forall x :: x in r.requests <==> x in list && x.request != e.request)
      && (if OwnedByCallback(e, wdf) then r.found == None && r.wdf == wdf
          else r.found == Some(e.request)
               && r.wdf == if e.cancelable then wdf.(marked := wdf.marked - {e.request}) else wdf)
  {
    var head, tail := list[0], list[1..];
    var r := RemoveResult(tail, wdf, BySeqnum(seqnum), true);
    InCons(list);
    if head == e {
      assert forall x :: x in tail ==> x.request != e.request;
      assert e.cancelable && e.request !in wdf.marked ==> wdf.marked - {e.request} == wdf.marked;
    } else {
      RemoveFound(tail, wdf, seqnum, e);
      InCons([head] + r.requests);
      DistinctCons(head, tail, r.requests);
      assert ([head] + r.requests)[1..] == r.requests;
    }
  }

  lemma {:induction false} RemoveNotFound(list: seq<Entry>, wdf: Wdf, seqnum: uint32)
    requires forall x :: x in list ==> x.seqnum != seqnum
    ensures RemoveResult(list, wdf, BySeqnum(seqnum), true) == Removal(None, list, wdf)
  {
    if list != [] {
      InCons(list);
      RemoveNotFound(list[1..], wdf, seqnum);
    }
  }

  /** The framework's state after the request of an entry was unmarked, if it had been marked. */
  function Unmarked(wdf: Wdf, e: Entry): Wdf {
    if e.cancelable then wdf.(marked := wdf.marked - {e.request}) else wdf
  }

  /** Removing by endpoint: the first available entry is returned, what precedes it of the endpoint is unlinked. */
  lemma {:induction false} RemoveFirst(list: seq<Entry>, wdf: Wdf, p: Endpoint, i: nat)
    requires i < |list| && IsAvailable(list[i], wdf, p)
    requires forall j :: 0 <= j < i ==> !IsAvailable(list[j], wdf, p)
    ensures RemoveResult(list, wdf, ByEndpoint(p), true)
         == Removal(Some(list[i].request), Without(list[..i], p) + list[i + 1..], Unmarked(wdf, list[i]))
  {
    hide RemoveResult, Without, IsAvailable, Unmarked, KeptHead;
    if i == 0 {
      HeadRemoved(list, wdf, p);
    } else {
      var tail := list[1..];
      assert forall j :: 0 <= j < i - 1 ==> tail[j] == list[j + 1];
      RemoveSkipsHead(list, wdf, p);
      RemoveFirst(tail, wdf, p, i - 1);
      WithoutHead(list, p, i - 1);
      JoinHead(KeptHead(list, p), Without(tail[..i - 1], p), list, i);
    }
  }

  lemma JoinHead(head: seq<Entry>, kept: seq<Entry>, list: seq<Entry>, i: nat)
    requires 0 < i < |list|
    ensures head + (kept + list[1..][i..]) == (head + kept) + list[i + 1..] && list[1..][i - 1] == list[i]
  {
  }

  lemma {:induction false} HeadRemoved(list: seq<Entry>, wdf: Wdf, p: Endpoint)
    requires list != [] && IsAvailable(list[0], wdf, p)
    ensures RemoveResult(list, wdf, ByEndpoint(p), true)
         == Removal(Some(list[0].request), Without(list[..0], p) + list[1..], Unmarked(wdf, list[0]))
  {
    assert list[0].request !in wdf.marked ==> wdf.marked - {list[0].request} == wdf.marked;
    assert list[..0] == [] && [] + list[1..] == list[1..];
  }

  lemma {:induction false} RemoveNone(list: seq<Entry>, wdf: Wdf, p: Endpoint)
    requires forall j :: 0 <= j < |list| ==> !IsAvailable(list[j], wdf, p)
    ensures RemoveResult(list, wdf, ByEndpoint(p), true) == Removal(None, Without(list, p), wdf)
  {
    if list != [] {
      assert forall j :: 0 <= j < |list| - 1 ==> list[1..][j] == list[j + 1];
      RemoveNone(list[1..], wdf, p);
    }
  }

  lemma {:induction false} WithoutKeeps(list: seq<Entry>, p: Endpoint)
    ensures forall e :: e in Without(list, p) <==> e in list && e.endpoint != p
  {
    if list != [] {
      InCons(list);
      WithoutKeeps(list[1..], p);
    }
  }

  /** An entry that removal skips because a dispatched cancel callback owns it. */
  ghost predicate Skipped(e: Entry, wdf: Wdf, crit: Search, unmark: bool) {
    crit.Matches(e) && unmark && e.cancelable && e.request in wdf.dispatched
  }

  ghost predicate FoundEntry(list: seq<Entry>, wdf: Wdf, crit: Search, unmark: bool, r: Removal, e: Entry) {
    && e in list && r.found == Some(e.request) && !Linked(r.requests, e.request)
    && crit.Matches(e) && !Skipped(e, wdf, crit, unmark)
    && r.wdf.dispatched == wdf.dispatched && r.wdf.cancelRequested == wdf.cancelRequested
    && forall h :: h in r.wdf.marked <==> h in wdf.marked && !(unmark && e.cancelable && h == e.request)
  }

  /** Removal either finds one request, or leaves the framework's state alone. */
  ghost predicate RemovalOutcome(list: seq<Entry>, wdf: Wdf, crit: Search, unmark: bool, r: Removal) {
    if r.found.Some? then exists e :: FoundEntry(list, wdf, crit, unmark, r, e)
    else r.wdf == wdf && (unmark || (r.requests == list && forall e :: e in list ==> !crit.Matches(e)))
  }

  /** Removal unlinks nothing but the request it returns and entries that a dispatched
      callback owns. */
  ghost predicate KeepsOthers(list: seq<Entry>, wdf: Wdf, crit: Search, unmark: bool, r: Removal) {
    && Distinct(r.requests)
    && (forall e :: e in r.requests ==> e in list)
    && (forall e :: e in list && e !in r.requests ==> r.found == Some(e.request) || Skipped(e, wdf, crit, unmark))
  }

  lemma {:induction false} RemoveKeepsOthers(list: seq<Entry>, wdf: Wdf, crit: Search, unmark: bool)
    requires Distinct(list)
    ensures KeepsOthers(list, wdf, crit, unmark, RemoveResult(list, wdf, crit, unmark))
  {
    if list != [] {
      var head, tail := list[0], list[1..];
      RemoveKeepsOthers(tail, wdf, crit, unmark);
      InCons(list);
      if !crit.Matches(head) {
        var r := RemoveResult(tail, wdf, crit, unmark);
        DistinctCons(head, tail, r.requests);
        InCons([head] + r.requests);
      }
    }
  }

  lemma InCons(list: seq<Entry>)
    requires list != []
    ensures forall e :: e in list <==> e == list[0] || e in list[1..]
  {
    assert list == [list[0]] + list[1..];
  }

  lemma DistinctCons(head: Entry, tail: seq<Entry>, kept: seq<Entry>)
    requires Distinct(kept) && forall e :: e in kept ==> e in tail
    requires forall e :: e in tail ==> e.request != head.request
    ensures Distinct([head] + kept)
  {
    assert forall i :: 0 <= i < |kept| ==> kept[i] in tail;
  }

  lemma {:induction false} RemoveOutcome(list: seq<Entry>, wdf: Wdf, crit: Search, unmark: bool)
    requires Distinct(list)
    ensures RemovalOutcome(list, wdf, crit, unmark, RemoveResult(list, wdf, crit, unmark))
  {
    if list != [] {
      var head, tail := list[0], list[1..];
      assert list == [head] + tail;
      var r := RemoveResult(list, wdf, crit, unmark);
      var r' := RemoveResult(tail, wdf, crit, unmark);
      RemoveOutcome(tail, wdf, crit, unmark);
      if crit.Matches(head) && !Skipped(head, wdf, crit, unmark) {
        assert FoundEntry(list, wdf, crit, unmark, r, head);
      } else if e :| FoundEntry(tail, wdf, crit, unmark, r', e) {
        if !crit.Matches(head) || crit.Multimatch() {
          assert FoundEntry(list, wdf, crit, unmark, r, e);
        }
      }
    }
  }
}
