/** Who owns a request while the send completion, the receiver of replies, the cancel callback
    and the endpoint purge race for it (drivers/ude/request_list.cpp and its callers).

    A state machine whose steps are the regions that hold device_ctx::requests_lock, the
    completion of a request, and the steps of the framework and of the other side. */
module RequestLifecycle {
  import opened Words
  import opened Seqnum
  import opened RequestList

  /** One acceptance of a request: the call of next_seqnum that numbered it. A handle can be
      recycled after completion, an instance cannot. */
  datatype Instance = Instance(index: nat, dirIn: bool)
  {
    function Seqnum(): uint32 { Issued(index, dirIn) }
  }

  /** A CMD_SUBMIT handed to the socket whose completion routine has not run yet. */
  datatype Send = Send(request: Handle, instance: Instance, fails: bool)

  /** History of an instance: numbered, accepted as pending, completed. */
  datatype Phase = Prepared(dirIn: bool) | Pending(request: Handle) | Done

  datatype State = State(
    issued: nat,                  // calls of next_seqnum so far
    phase: map<nat, Phase>,
    list: seq<Entry>,             // device_ctx::requests
    wdf: Wdf,
    live: map<Handle, Instance>,  // accepted as pending and not completed
    sends: map<nat, Send>,        // by instance
    callbacks: multiset<Handle>,  // dispatched cancel callbacks that have not taken the lock yet
    holders: multiset<Handle>,    // actors that took a request and are going to complete it
    completed: multiset<nat>,     // instances, once per completion
    fault: bool)                  // a handle was completed that is not pending

  const Init := State(0, map[], [], Wdf({}, {}, {}), map[], map[], multiset{}, multiset{}, multiset{}, false)

  datatype Step =
    | Number(dirIn: bool, submit: bool)             // next_seqnum, for a CMD_SUBMIT or another command
    | Submit(request: Handle, endpoint: Endpoint, instance: Instance, fails: bool)
    | SendCompleted(index: nat)                     // send_complete
    | Reply(seqnum: uint32)                         // ret_command, for whatever number the server sends
    | Purge(endpoint: Endpoint)                     // one turn of the endpoint_purge loop
    | RequestCancel(request: Handle)                // the I/O manager
    | DispatchCallback(request: Handle)             // the framework
    | RunCallback(request: Handle)                  // cancel_request
    | Complete(request: Handle)                     // usbip::complete

  predicate Recent(index: nat, issued: nat) {
    index < issued <= index + PERIOD
  }

  /** Every number in use (linked, being sent, or about to be) is among the last PERIOD
      issued ones. */
  ghost predicate InWindow(s: State, issued: nat) {
    && (forall k :: k in s.phase && s.phase[k].Prepared? ==> Recent(k, issued))
    && (forall k :: k in s.sends ==> Recent(k, issued))
    && (forall e :: e in s.list && e.request in s.live ==> Recent(s.live[e.request].index, issued))
  }

  ghost predicate Enabled(s: State, step: Step) {
    match step
    // fewer than 2^31 - 1 numbers are issued while one of them is in use
    case Number(_, _) => InWindow(s, s.issued + 1)
    // the framework presents a request that is not pending; sends of its former life may be outstanding
    case Submit(h, _, i, _) => i.index in s.phase && s.phase[i.index] == Prepared(i.dirIn) && h !in s.live
    case SendCompleted(k) => k in s.sends
    case Reply(_) => true
    case Purge(_) => true
    case RequestCancel(h) => h in s.live
    case DispatchCallback(h) => h in s.wdf.marked && h in s.wdf.cancelRequested
    case RunCallback(h) => h in s.callbacks
    case Complete(h) => h in s.holders
  }

  function Unlink(s: State, crit: Search, unmark: bool): State {
    var r := RemoveResult(s.list, s.wdf, crit, unmark);
    var t := s.(list := r.requests, wdf := r.wdf);
    if r.found == None then t else t.(holders := s.holders[r.found.value := s.holders[r.found.value] + 1])
  }

  function Apply(s: State, step: Step): State
    requires Enabled(s, step)
  {
    match step
    case Number(dirIn, submit) =>
      if submit then s.(issued := s.issued + 1, phase := s.phase[s.issued := Prepared(dirIn)])
      else s.(issued := s.issued + 1)
    case Submit(h, endpoint, i, fails) =>
      s.(phase := s.phase[i.index := Pending(h)], list := s.list + [Entry(h, endpoint, i.Seqnum(), false)],
         live := s.live[h := i], sends := s.sends[i.index := Send(h, i, fails)])
    case SendCompleted(k) =>
      var x := s.sends[k];
      var t := s.(sends := s.sends - {k});
      if x.fails then Unlink(t, ByRequest(x.request), false)
      else
        var m := MarkResult(s.list, s.wdf, x.instance.Seqnum());
        var u := t.(list := m.requests, wdf := m.wdf);
        if m.status == Success then u else u.(holders := s.holders[x.request := s.holders[x.request] + 1])
    case Reply(n) => Unlink(s, BySeqnum(n), true)
    case Purge(endpoint) => Unlink(s, ByEndpoint(endpoint), true)
    case RequestCancel(h) => s.(wdf := s.wdf.(cancelRequested := s.wdf.cancelRequested + {h}))
    case DispatchCallback(h) =>
      s.(wdf := s.wdf.(marked := s.wdf.marked - {h}, dispatched := s.wdf.dispatched + {h}),
         callbacks := s.callbacks[h := s.callbacks[h] + 1])
    case RunCallback(h) => // completes the request whether or not it was still linked
      var r := RemoveResult(s.list, s.wdf, ByRequest(h), false);
      s.(list := r.requests, wdf := r.wdf,
         callbacks := s.callbacks[h := s.callbacks[h] - 1], holders := s.holders[h := s.holders[h] + 1])
    case Complete(h) =>
      var t := s.(holders := s.holders[h := s.holders[h] - 1]);
      if h !in s.live then t.(fault := true)
      else
        var k := s.live[h].index;
        t.(live := s.live - {h}, completed := s.completed[k := s.completed[k] + 1], phase := s.phase[k := Done],
           wdf := Wdf(s.wdf.cancelRequested - {h}, s.wdf.marked - {h}, s.wdf.dispatched - {h}))
  }

  /** The steps are enabled, each in its turn. */
  ghost predicate Runs(s: State, steps: seq<Step>)
    decreases |steps|
  {
    steps == [] || (Enabled(s, steps[0]) && Runs(Apply(s, steps[0]), steps[1..]))
  }

  function After(s: State, steps: seq<Step>): State
    requires Runs(s, steps)
    decreases |steps|
  {
    if steps == [] then s else After(Apply(s, steps[0]), steps[1..])
  }

  /** A failed send looks its request up by handle. It strays if it finds one whose own send has completed:
      a later request that reuses the handle. */
  ghost predicate Strays(s: State, step: Step)
    requires Enabled(s, step)
  {
    && step.SendCompleted? && s.sends[step.index].fails
    && exists e :: e in s.list && e.request == s.sends[step.index].request && e.cancelable
  }

  ghost predicate NeverStrays(s: State, steps: seq<Step>)
    requires Runs(s, steps)
    decreases |steps|
  {
    steps == [] || (!Strays(s, steps[0]) && NeverStrays(Apply(s, steps[0]), steps[1..]))
  }

  // ---- the invariant

  /** How many owners a request has: the list unless a dispatched callback took over, the
      dispatched callback, or the actor that unlinked it. */
  ghost function Owners(s: State, h: Handle): nat {
    (if Linked(s.list, h) && h !in s.callbacks then 1 else 0) + s.callbacks[h] + s.holders[h]
  }

  ghost predicate OwnersOk(s: State) {
    forall h :: Owners(s, h) == if h in s.live then 1 else 0
  }

  ghost predicate PhasesOk(s: State) {
    && (forall k :: k in s.phase ==> k < s.issued)
    && (forall k :: s.completed[k] == if k in s.phase && s.phase[k] == Done then 1 else 0)
    && (forall h :: h in s.live ==> s.live[h].index in s.phase && s.phase[s.live[h].index] == Pending(h))
  }

  ghost predicate SendOk(s: State, k: nat, x: Send) {
    && k == x.instance.index && k in s.phase
    && (s.phase[k] == Done || (s.phase[k] == Pending(x.request) && x.request in s.live && s.live[x.request] == x.instance))
  }

  ghost predicate SendsOk(s: State) {
    forall k :: k in s.sends ==> SendOk(s, k, s.sends[k])
  }

  ghost predicate EntryOk(s: State, e: Entry) {
    var h := e.request;
    && h in s.live && e.seqnum == s.live[h].Seqnum()
    && (e.cancelable <==> s.live[h].index !in s.sends)
    && (e.cancelable ==> (h in s.wdf.marked <==> h !in s.callbacks))
    && (!e.cancelable ==> h !in s.wdf.marked && h !in s.callbacks)
  }

  ghost predicate ListOk(s: State) {
    Distinct(s.list) && forall e :: e in s.list ==> EntryOk(s, e)
  }

  ghost predicate WdfOk(s: State) {
    && (forall h :: h in s.wdf.marked ==> Linked(s.list, h) && h !in s.wdf.dispatched)
    && (forall h :: h in s.wdf.dispatched ==> s.callbacks[h] + s.holders[h] == 1)
    && (forall h :: h in s.callbacks ==> h in s.wdf.dispatched)
  }

  ghost predicate Inv(s: State) {
    PhasesOk(s) && InWindow(s, s.issued) && SendsOk(s) && ListOk(s) && WdfOk(s) && OwnersOk(s) && !s.fault
  }

  // ---- preservation, step by step

  /** Two numbers in use differ. */
  lemma SeqnumsDiffer(issued: nat, i: Instance, j: Instance)
    requires Recent(i.index, issued) && Recent(j.index, issued) && i.Seqnum() == j.Seqnum()
    ensures i == j
  {
    SameSeqnum(i.index, j.index, i.dirIn, j.dirIn);
    if i.index < j.index {
      DistinctWithinPeriod(i.index, j.index);
    } else if j.index < i.index {
      DistinctWithinPeriod(j.index, i.index);
    }
  }

  /** The invariant's parts that do not mention the list. */
  ghost predicate NumberingOk(s: State) {
    PhasesOk(s) && SendsOk(s)
  }

  /** The parts about the list and the owners look at nothing else of the state. */
  lemma SameListing(s: State, t: State)
    requires ListOk(s) && OwnersOk(s) && WdfOk(s)
    requires t.list == s.list && t.wdf.marked == s.wdf.marked && t.wdf.dispatched == s.wdf.dispatched
    requires t.live == s.live && t.sends == s.sends && t.callbacks == s.callbacks && t.holders == s.holders
    ensures ListOk(t) && OwnersOk(t) && WdfOk(t)
  {
    assert forall e :: EntryOk(s, e) ==> EntryOk(t, e);
    assert forall h :: Owners(t, h) == Owners(s, h);
  }

  /** The parts about numbers look at nothing else, and unlinking only helps them. */
  lemma SameNumbering(s: State, t: State)
    requires NumberingOk(s) && InWindow(s, s.issued)
    requires t.issued == s.issued && t.phase == s.phase && t.completed == s.completed
    requires t.live == s.live && t.sends == s.sends && forall e :: e in t.list ==> e in s.list
    ensures NumberingOk(t) && InWindow(t, t.issued)
  {
    assert forall k :: k in s.sends ==> SendOk(s, k, s.sends[k]) && SendOk(t, k, t.sends[k]);
  }

  lemma NumberKeepsNumbering(s: State, step: Step)
    requires NumberingOk(s) && step.Number? && Enabled(s, step)
    ensures NumberingOk(Apply(s, step))
  {
    var t := Apply(s, step);
    assert forall k :: k in s.sends ==> SendOk(s, k, s.sends[k]) && SendOk(t, k, t.sends[k]);
  }

  lemma NumberKeepsInv(s: State, step: Step)
    requires Inv(s) && step.Number? && Enabled(s, step)
    ensures Inv(Apply(s, step))
  {
    var t := Apply(s, step);
    SameListing(s, t);
    NumberKeepsNumbering(s, step);
  }

  lemma SubmitKeepsNumbering(s: State, step: Step)
    requires NumberingOk(s) && step.Submit? && Enabled(s, step)
    ensures NumberingOk(Apply(s, step))
  {
    var t := Apply(s, step);
    assert SendsOk(t) by {
      forall k | k in t.sends ensures SendOk(t, k, t.sends[k]) {
        assert k != step.instance.index ==> SendOk(s, k, s.sends[k]);
      }
    }
  }

  lemma SubmitKeepsListing(s: State, step: Step)
    requires NumberingOk(s) && ListOk(s) && WdfOk(s) && OwnersOk(s) && step.Submit? && Enabled(s, step)
    ensures var t := Apply(s, step); ListOk(t) && WdfOk(t) && OwnersOk(t)
  {
    hide RemoveResult;
    var Submit(h, endpoint, i, fails) := step;
    var t := Apply(s, step);
    var added := Entry(h, endpoint, i.Seqnum(), false);
    assert Owners(s, h) == 0;
    assert forall e :: e in t.list <==> e == added || e in s.list;
    assert ListOk(t) by {
      forall e | e in s.list ensures EntryOk(t, e) && e.request != h {
        assert EntryOk(s, e);
      }
      assert EntryOk(t, added);
    }
    forall g ensures Linked(t.list, g) <==> g == h || Linked(s.list, g) {
      assert added in t.list;
    }
    assert OwnersOk(t) by {
      forall g ensures Owners(t, g) == if g in t.live then 1 else 0 {
        assert Owners(s, g) == if g in s.live then 1 else 0;
      }
    }
  }

  lemma SubmitKeepsInv(s: State, step: Step)
    requires Inv(s) && step.Submit? && Enabled(s, step)
    ensures Inv(Apply(s, step))
  {
    hide PhasesOk, SendsOk, ListOk, WdfOk, OwnersOk;
    SubmitKeepsNumbering(s, step);
    SubmitKeepsListing(s, step);
  }

  /** Unlinking keeps the invariant when the cancelable requests it takes are unmarked. */
  lemma UnlinkKeepsInv(s: State, crit: Search, unmark: bool)
    requires Inv(s)
    requires unmark || forall e :: e in s.list && crit.Matches(e) ==> !e.cancelable
    ensures Inv(Unlink(s, crit, unmark))
  {
    var r := RemoveResult(s.list, s.wdf, crit, unmark);
    var t := Unlink(s, crit, unmark);
    RemoveKeepsOthers(s.list, s.wdf, crit, unmark);
    RemoveOutcome(s.list, s.wdf, crit, unmark);
    SameNumbering(s, t);
    if r.found == None {
      UnlinkNothing(s, crit, unmark);
    } else {
      var e :| FoundEntry(s.list, s.wdf, crit, unmark, r, e);
      UnlinkFound(s, crit, unmark, e);
    }
  }

  lemma UnlinkNothing(s: State, crit: Search, unmark: bool)
    requires ListOk(s) && WdfOk(s) && OwnersOk(s)
    requires var r := RemoveResult(s.list, s.wdf, crit, unmark);
             r.found == None && r.wdf == s.wdf && KeepsOthers(s.list, s.wdf, crit, unmark, r)
    ensures var t := Unlink(s, crit, unmark); ListOk(t) && WdfOk(t) && OwnersOk(t)
  {
    hide RemoveResult;
    var t := Unlink(s, crit, unmark);
    assert forall e :: e in s.list ==> EntryOk(s, e) && EntryOk(t, e);
    forall h ensures Owners(t, h) == Owners(s, h) && (h in s.wdf.marked ==> Linked(t.list, h)) {
      if e :| e in s.list && e.request == h && e !in t.list {
        assert Skipped(e, s.wdf, crit, unmark) && EntryOk(s, e);
        assert h !in s.wdf.marked && h in s.callbacks;
      }
    }
  }

  lemma UnlinkFound(s: State, crit: Search, unmark: bool, e: Entry)
    requires ListOk(s) && WdfOk(s) && OwnersOk(s)
    requires unmark || !e.cancelable
    requires var r := RemoveResult(s.list, s.wdf, crit, unmark);
             FoundEntry(s.list, s.wdf, crit, unmark, r, e) && KeepsOthers(s.list, s.wdf, crit, unmark, r)
    ensures var t := Unlink(s, crit, unmark); ListOk(t) && WdfOk(t) && OwnersOk(t)
  {
    hide RemoveResult;
    var t := Unlink(s, crit, unmark);
    var h := e.request;
    assert EntryOk(s, e);
    forall x | x in t.list ensures EntryOk(t, x) {
      assert x in s.list && EntryOk(s, x) && x.request != h;
    }
    assert Owners(s, h) == 1 && h !in s.callbacks;
    forall g ensures Owners(t, g) == (if g in t.live then 1 else 0) && (g in t.wdf.marked ==> Linked(t.list, g)) {
      assert Owners(s, g) == if g in s.live then 1 else 0;
      if x :| x in s.list && x.request == g && g != h && x !in t.list {
        assert Skipped(x, s.wdf, crit, unmark) && EntryOk(s, x);
      }
    }
    assert h !in t.wdf.marked && h !in t.wdf.dispatched;
  }

  /** A send that names no linked request can be forgotten. */
  lemma DropSend(s: State, k: nat)
    requires Inv(s) && forall e :: e in s.list && e.request in s.live ==> s.live[e.request].index != k
    ensures Inv(s.(sends := s.sends - {k}))
  {
    var t := s.(sends := s.sends - {k});
    assert ListOk(t) by {
      assert forall e :: e in s.list ==> EntryOk(s, e) && EntryOk(t, e);
    }
    assert OwnersOk(t) by {
      assert forall h :: Owners(t, h) == Owners(s, h);
    }
    assert SendsOk(t) by {
      assert forall j :: j in t.sends ==> SendOk(s, j, s.sends[j]) && SendOk(t, j, t.sends[j]);
    }
  }

  /** The entry of the instance that is being sent, if it is linked. */
  lemma EntryOfSend(s: State, k: nat, e: Entry)
    requires Inv(s) && k in s.sends && e in s.list
    ensures e.request in s.live
    ensures e.seqnum == s.sends[k].instance.Seqnum() <==> s.live[e.request].index == k
    ensures s.live[e.request].index == k ==> e.request == s.sends[k].request && s.live[e.request] == s.sends[k].instance && !e.cancelable
  {
    assert EntryOk(s, e) && SendOk(s, k, s.sends[k]);
    if e.seqnum == s.sends[k].instance.Seqnum() {
      SeqnumsDiffer(s.issued, s.live[e.request], s.sends[k].instance);
    }
  }

  lemma FailedSendKeepsInv(s: State, k: nat)
    requires Inv(s) && k in s.sends && s.sends[k].fails && !Strays(s, SendCompleted(k))
    ensures Inv(Apply(s, SendCompleted(k)))
  {
    hide PhasesOk, InWindow, SendsOk, WdfOk, OwnersOk, EntryOk, RemoveResult, MarkResult;
    var h := s.sends[k].request;
    var u := Unlink(s, ByRequest(h), false);
    OwnEntryHasHandle(s, k);
    UnlinkKeepsInv(s, ByRequest(h), false);
    assert Distinct(s.list);
    RemoveByRequest(s.list, s.wdf, h);
    DropSend(u, k);
    assert Apply(s, SendCompleted(k)) == u.(sends := u.sends - {k});
  }

  /** The entry of the instance that was sent, if it is linked, is one of the handle of the send. */
  lemma OwnEntryHasHandle(s: State, k: nat)
    requires Inv(s) && k in s.sends
    ensures forall e :: e in s.list ==>
      e.request in s.live && (s.live[e.request].index == k ==> e.request == s.sends[k].request)
  {
    forall e | e in s.list
      ensures e.request in s.live && (s.live[e.request].index == k ==> e.request == s.sends[k].request)
    {
      EntryOfSend(s, k, e);
    }
  }

  /** The entry that a successful send completion marks or unlinks. */
  ghost predicate OwnEntry(s: State, k: nat, e: Entry)
    requires k in s.sends
  {
    var x := s.sends[k];
    && e in s.list && e.request == x.request && e.request in s.live && s.live[e.request] == x.instance
    && x.instance.index == k && !e.cancelable
    && MarkedEntry(s.list, s.wdf, MarkResult(s.list, s.wdf, x.instance.Seqnum()), e)
  }

  /** Looking the number up finds the instance that was sent, or nothing. */
  lemma LookupFindsOwn(s: State, k: nat)
    requires Inv(s) && k in s.sends
    ensures (exists e :: OwnEntry(s, k, e))
         || ((forall e :: e in s.list && e.request in s.live ==> s.live[e.request].index != k)
             && MarkResult(s.list, s.wdf, s.sends[k].instance.Seqnum()) == Marking(Success, s.list, s.wdf, 0))
  {
    var seqnum := s.sends[k].instance.Seqnum();
    forall e | e in s.list
      ensures e.seqnum == seqnum <==> s.live[e.request].index == k
      ensures s.live[e.request].index == k ==> e.request == s.sends[k].request
    {
      EntryOfSend(s, k, e);
    }
    if e :| e in s.list && e.seqnum == seqnum {
      EntryOfSend(s, k, e);
      MarkFound(s.list, s.wdf, seqnum, e);
      assert SendOk(s, k, s.sends[k]);
      assert OwnEntry(s, k, e);
    } else {
      MarkNotFound(s.list, s.wdf, seqnum);
    }
  }

  lemma SuccessfulSendKeepsInv(s: State, k: nat)
    requires Inv(s) && k in s.sends && !s.sends[k].fails
    ensures Inv(Apply(s, SendCompleted(k)))
  {
    hide MarkResult, SendsOk, PhasesOk, InWindow, WdfOk, OwnersOk, EntryOk;
    LookupFindsOwn(s, k);
    if e :| OwnEntry(s, k, e) {
      MarkKeepsList(s, k, e);
      assert EntryOk(s, e);
      MarkKeepsOwners(s, k, e);
      MarkKeepsNumbering(s, k, e);
    } else {
      DropSend(s, k);
    }
  }

  lemma MarkKeepsNumbering(s: State, k: nat, e: Entry)
    requires NumberingOk(s) && InWindow(s, s.issued)
    requires k in s.sends && !s.sends[k].fails && OwnEntry(s, k, e)
    ensures var t := Apply(s, SendCompleted(k)); NumberingOk(t) && InWindow(t, t.issued)
  {
    var t := Apply(s, SendCompleted(k));
    assert forall j :: j in t.sends ==> SendOk(s, j, s.sends[j]) && SendOk(t, j, t.sends[j]);
  }

  lemma MarkKeepsList(s: State, k: nat, e: Entry)
    requires ListOk(s) && PhasesOk(s) && k in s.sends && !s.sends[k].fails && OwnEntry(s, k, e)
    ensures ListOk(Apply(s, SendCompleted(k)))
  {
    var t := Apply(s, SendCompleted(k));
    assert EntryOk(s, e);
    forall x | x in t.list ensures EntryOk(t, x) {
      assert x.request != e.request ==> x in s.list && EntryOk(s, x) && s.phase[s.live[x.request].index] == Pending(x.request);
    }
  }

  lemma MarkKeepsOwners(s: State, k: nat, e: Entry)
    requires WdfOk(s) && OwnersOk(s) && EntryOk(s, e)
    requires k in s.sends && !s.sends[k].fails && OwnEntry(s, k, e)
    ensures var t := Apply(s, SendCompleted(k)); WdfOk(t) && OwnersOk(t)
  {
    var t := Apply(s, SendCompleted(k));
    var h := e.request;
    var m := MarkResult(s.list, s.wdf, s.sends[k].instance.Seqnum());
    assert Owners(s, h) == 1;
    assert m.status == Success ==> e.(cancelable := true) in t.list;
    forall g ensures Linked(t.list, g) <==> Linked(s.list, g) && (g != h || m.status == Success) {
      if x :| x in s.list && x.request == g && g != h {
        assert x in t.list;
      }
    }
    assert OwnersOk(t) by {
      forall g ensures Owners(t, g) == if g in t.live then 1 else 0 {
        assert Owners(s, g) == if g in s.live then 1 else 0;
      }
    }
  }

  lemma RunCallbackKeepsListing(s: State, h: Handle)
    requires ListOk(s) && WdfOk(s) && OwnersOk(s) && h in s.callbacks
    requires var r := RemoveResult(s.list, s.wdf, ByRequest(h), false);
             && r.wdf == s.wdf && Distinct(r.requests)
             && forall e :: e in r.requests <==> e in s.list && e.request != h
    ensures var t := Apply(s, RunCallback(h)); ListOk(t) && WdfOk(t) && OwnersOk(t)
  {
    var t := Apply(s, RunCallback(h));
    assert Owners(s, h) == 1;
    forall e | e in t.list ensures EntryOk(t, e) {
      assert EntryOk(s, e);
    }
    forall g ensures Linked(t.list, g) <==> Linked(s.list, g) && g != h {
      if x :| x in s.list && x.request == g && g != h {
        assert x in t.list;
      }
    }
    assert OwnersOk(t) by {
      forall g ensures Owners(t, g) == if g in t.live then 1 else 0 {
        assert Owners(s, g) == if g in s.live then 1 else 0;
      }
    }
  }

  /** Removing by handle without unmarking unlinks the request and changes nothing else. */
  lemma RemoveByRequest(list: seq<Entry>, wdf: Wdf, h: Handle)
    requires Distinct(list)
    ensures var r := RemoveResult(list, wdf, ByRequest(h), false);
            && r.wdf == wdf && Distinct(r.requests) && (r.found == None || r.found == Some(h))
            && (r.found != None <==> Linked(list, h))
            && forall e :: e in r.requests <==> e in list && e.request != h
  {
    var r := RemoveResult(list, wdf, ByRequest(h), false);
    RemoveKeepsOthers(list, wdf, ByRequest(h), false);
    RemoveOutcome(list, wdf, ByRequest(h), false);
    if e :| FoundEntry(list, wdf, ByRequest(h), false, r, e) {
      assert r.wdf.marked == wdf.marked;
      assert forall x :: x in r.requests ==> x.request != h;
    }
  }

  lemma RunCallbackKeepsInv(s: State, h: Handle)
    requires Inv(s) && h in s.callbacks
    ensures Inv(Apply(s, RunCallback(h)))
  {
    RemoveByRequest(s.list, s.wdf, h);
    RunCallbackKeepsListing(s, h);
    SameNumbering(s, Apply(s, RunCallback(h)));
  }

  lemma CancelKeepsInv(s: State, step: Step)
    requires Inv(s) && (step.RequestCancel? || step.DispatchCallback?) && Enabled(s, step)
    ensures Inv(Apply(s, step))
  {
    hide RemoveResult, MarkResult, PhasesOk, SendsOk, InWindow;
    var t := Apply(s, step);
    var h := step.request;
    SameNumbering(s, t);
    assert Owners(s, h) == 1;
    forall e | e in t.list ensures EntryOk(t, e) {
      assert EntryOk(s, e);
    }
    assert OwnersOk(t) by {
      forall g ensures Owners(t, g) == if g in t.live then 1 else 0 {
        assert Owners(s, g) == if g in s.live then 1 else 0;
      }
    }
  }

  lemma CompleteKeepsInv(s: State, h: Handle)
    requires Inv(s) && h in s.holders
    ensures Inv(Apply(s, Complete(h))) && h in s.live
  {
    assert Owners(s, h) == 1;
    CompleteKeepsListing(s, h);
    CompleteKeepsNumbering(s, h);
  }

  lemma CompleteKeepsNumbering(s: State, h: Handle)
    requires NumberingOk(s) && InWindow(s, s.issued) && h in s.holders && h in s.live
    ensures var t := Apply(s, Complete(h)); NumberingOk(t) && InWindow(t, t.issued)
  {
    var t := Apply(s, Complete(h));
    var k := s.live[h].index;
    assert forall j :: j in t.sends ==> SendOk(s, j, s.sends[j]) && SendOk(t, j, t.sends[j]);
  }

  lemma CompleteKeepsListing(s: State, h: Handle)
    requires ListOk(s) && WdfOk(s) && OwnersOk(s) && h in s.holders && h in s.live
    ensures var t := Apply(s, Complete(h)); ListOk(t) && WdfOk(t) && OwnersOk(t)
  {
    var t := Apply(s, Complete(h));
    assert Owners(s, h) == 1;
    forall e | e in t.list ensures EntryOk(t, e) {
      assert EntryOk(s, e);
      assert e.request != h by {
        assert Linked(s.list, e.request);
      }
    }
    assert OwnersOk(t) by {
      forall g ensures Owners(t, g) == if g in t.live then 1 else 0 {
        assert Owners(s, g) == if g in s.live then 1 else 0;
      }
    }
  }

  lemma StepKeepsInv(s: State, step: Step)
    requires Inv(s) && Enabled(s, step) && !Strays(s, step)
    ensures Inv(Apply(s, step))
  {
    match step
    case Number(_, _) => NumberKeepsInv(s, step);
    case Submit(_, _, _, _) => SubmitKeepsInv(s, step);
    case SendCompleted(k) =>
      if s.sends[k].fails {
        FailedSendKeepsInv(s, k);
      } else {
        SuccessfulSendKeepsInv(s, k);
      }
    case Reply(n) => UnlinkKeepsInv(s, BySeqnum(n), true);
    case Purge(p) => UnlinkKeepsInv(s, ByEndpoint(p), true);
    case RequestCancel(_) => CancelKeepsInv(s, step);
    case DispatchCallback(_) => CancelKeepsInv(s, step);
    case RunCallback(h) => RunCallbackKeepsInv(s, h);
    case Complete(h) => CompleteKeepsInv(s, h);
  }

  // ---- main results

  /** The invariant holds after every run on which no failed send strays. */
  lemma {:induction false} RunKeepsInv(s: State, steps: seq<Step>)
    requires Inv(s) && Runs(s, steps) && NeverStrays(s, steps)
    ensures Inv(After(s, steps))
    decreases |steps|
  {
    if steps != [] {
      StepKeepsInv(s, steps[0]);
      RunKeepsInv(Apply(s, steps[0]), steps[1..]);
    }
  }

  /** In every interleaving in which no failed send strays, a pending request has exactly one owner,
      nothing else has one, no instance is completed twice, no handle is completed that is not pending, and an
      entry is flagged cancelable only while the request is marked or its callback was dispatched. */
  lemma ExactlyOneOwner(steps: seq<Step>)
    requires Runs(Init, steps) && NeverStrays(Init, steps)
    ensures var s := After(Init, steps);
            && (forall h :: Owners(s, h) == if h in s.live then 1 else 0)
            && (forall k :: s.completed[k] <= 1)
            && (forall h :: h in s.live ==> s.completed[s.live[h].index] == 0)
            && !s.fault
            && (forall e :: e in s.list && e.cancelable ==> (e.request in s.wdf.marked) != (e.request in s.callbacks))
  {
    RunKeepsInv(Init, steps);
    var s := After(Init, steps);
    assert forall e :: e in s.list ==> EntryOk(s, e);
  }

  /** What a failed send that strays takes: a request that is marked, or whose callback was dispatched. */
  lemma StraySendTakes(s: State, k: nat)
    requires Inv(s) && k in s.sends && Strays(s, SendCompleted(k))
    ensures var t, h := Apply(s, SendCompleted(k)), s.sends[k].request;
            && h in s.live && t.live == s.live && t.wdf == s.wdf && t.callbacks == s.callbacks
            && !Linked(t.list, h) && t.holders[h] == 1
            && (h in s.wdf.marked || s.callbacks[h] == 1)
  {
    hide RemoveResult;
    var h := s.sends[k].request;
    var e :| e in s.list && e.request == h && e.cancelable;
    assert EntryOk(s, e) && Owners(s, h) == 1;
    RemoveByRequest(s.list, s.wdf, h);
  }

  /** If a failed send strays, a second owner follows: the request it took can still be cancelled, and the
      callback completes it too. So one owner is kept in all that follows only if no send strays. */
  lemma {:induction false} StraySendDoublesOwner(steps: seq<Step>, k: nat)
    requires Runs(Init, steps) && NeverStrays(Init, steps)
    requires k in After(Init, steps).sends && Strays(After(Init, steps), SendCompleted(k))
    ensures var t, h := Apply(After(Init, steps), SendCompleted(k)), After(Init, steps).sends[k].request;
            exists more :: Runs(t, more) && Owners(After(t, more), h) == 2
  {
    RunKeepsInv(Init, steps);
    var s := After(Init, steps);
    var t, h := Apply(s, SendCompleted(k)), s.sends[k].request;
    StraySendTakes(s, k);
    if h in s.wdf.marked {
      assert h !in s.callbacks by {
        MarkedHasNoCallback(s, h);
      }
      CancelAndDispatch(t, h);
    } else {
      assert Runs(t, []) && After(t, []) == t && Owners(t, h) == 2;
    }
  }

  lemma MarkedHasNoCallback(s: State, h: Handle)
    requires ListOk(s) && WdfOk(s) && h in s.wdf.marked
    ensures h !in s.callbacks
  {
    var e :| e in s.list && e.request == h;
    assert EntryOk(s, e);
  }

  lemma {:induction false} CancelAndDispatch(t: State, h: Handle)
    requires h in t.live && h in t.wdf.marked && !Linked(t.list, h) && t.holders[h] == 1 && h !in t.callbacks
    ensures exists more :: Runs(t, more) && Owners(After(t, more), h) == 2
  {
    var u := Apply(t, RequestCancel(h));
    var v := Apply(u, DispatchCallback(h));
    var more := [RequestCancel(h), DispatchCallback(h)];
    assert more[1..] == [DispatchCallback(h)] && [DispatchCallback(h)][1..] == [];
    assert Runs(v, []) && After(v, []) == v;
    assert Runs(u, [DispatchCallback(h)]) && After(u, [DispatchCallback(h)]) == v;
    assert Runs(t, more) && After(t, more) == v;
    assert Owners(v, h) == 2;
  }

  /** No request is lost: once every send has completed and no actor or callback is at work,
      each pending request is linked and marked, so a reply, a cancel or a purge can take it. */
  lemma IdleRequestsAreReachable(steps: seq<Step>, h: Handle)
    requires Runs(Init, steps) && NeverStrays(Init, steps)
    requires var s := After(Init, steps);
             s.sends == map[] && s.holders == multiset{} && s.callbacks == multiset{} && h in s.live
    ensures var s := After(Init, steps);
            && h in s.wdf.marked
            && exists e :: e in s.list && e.request == h && e.cancelable && e.seqnum == s.live[h].Seqnum()
  {
    RunKeepsInv(Init, steps);
    var s := After(Init, steps);
    assert Owners(s, h) == 1;
    var e :| e in s.list && e.request == h;
    assert EntryOk(s, e);
  }

  /** The request's entry, its mark, its instance and the actors that hold it. */
  ghost predicate Untouched(s: State, t: State, h: Handle) {
    && h in s.live && h in t.live && t.live[h] == s.live[h] && t.holders[h] == s.holders[h]
    && (h in t.wdf.marked <==> h in s.wdf.marked)
    && forall e: Entry :: e.request == h ==> (e in t.list <==> e in s.list)
  }

  /** A failed send completion leaves a request of another instance alone exactly if it does not find that
      request by its handle. */
  lemma FailedSendLeavesOthers(s: State, k: nat, h: Handle)
    requires k in s.sends && s.sends[k].fails && h in s.live && Distinct(s.list)
    ensures Untouched(s, Apply(s, SendCompleted(k)), h) <==> h != s.sends[k].request || !Linked(s.list, h)
  {
    RemoveByRequest(s.list, s.wdf, s.sends[k].request);
  }

  lemma SuccessfulSendLeavesOthers(s: State, k: nat, h: Handle)
    requires k in s.sends && !s.sends[k].fails && h in s.live && s.live[h].index != k
    requires (exists e :: OwnEntry(s, k, e))
          || MarkResult(s.list, s.wdf, s.sends[k].instance.Seqnum()) == Marking(Success, s.list, s.wdf, 0)
    ensures Untouched(s, Apply(s, SendCompleted(k)), h)
  {
    if e :| OwnEntry(s, k, e) {
      assert e.request != h;
    }
  }

  /** A send completion, however late, leaves a request of another instance alone, even one that reuses its
      handle; unless the send failed, and its handle is the one of that request while it is linked. */
  lemma LateSendCompletion(steps: seq<Step>, k: nat, h: Handle)
    requires Runs(Init, steps) && NeverStrays(Init, steps)
    requires var s := After(Init, steps); k in s.sends && h in s.live && s.live[h].index != k
    ensures var s := After(Init, steps);
            Untouched(s, Apply(s, SendCompleted(k)), h) <==>
            !(s.sends[k].fails && s.sends[k].request == h && Linked(s.list, h))
  {
    RunKeepsInv(Init, steps);
    var s := After(Init, steps);
    if s.sends[k].fails {
      FailedSendLeavesOthers(s, k, h);
    } else {
      LookupFindsOwn(s, k);
      SuccessfulSendLeavesOthers(s, k, h);
    }
  }

  // ---- what each step does to the requests

  /** The request is unlinked and unmarked, and one actor holds it. */
  ghost predicate TakenBy(t: State, h: Handle) {
    !Linked(t.list, h) && h !in t.wdf.marked && t.holders[h] == 1
  }

  /** The entry is gone, and that is all that happened to its request: the dispatched callback owns it. */
  ghost predicate OnlyUnlinked(s: State, t: State, h: Handle) {
    !Linked(t.list, h) && t.holders[h] == s.holders[h] && t.callbacks[h] == s.callbacks[h] && h !in t.wdf.marked
  }

  lemma CallbackOwns(s: State, e: Entry)
    requires ListOk(s) && WdfOk(s) && OwnersOk(s) && e in s.list
    ensures OwnedByCallback(e, s.wdf) <==> e.request in s.callbacks
    ensures e.request in s.callbacks ==> s.callbacks[e.request] == 1
    ensures e.request !in s.wdf.marked || e.request !in s.callbacks
    ensures s.holders[e.request] == 0 && (!e.cancelable ==> e.request !in s.wdf.marked)
  {
    assert EntryOk(s, e) && Owners(s, e.request) == 1;
  }

  /** The requests with that number were taken from the list, or from one whose cancel callback was dispatched
      only the entry; the others are as before. */
  ghost predicate TookNumber(s: State, t: State, n: uint32) {
    && (forall e :: e in s.list && e.seqnum == n ==>
          if e.request in s.callbacks then OnlyUnlinked(s, t, e.request) else TakenBy(t, e.request))
    && ((forall e :: e in s.list ==> e.seqnum != n) ==> t == s)
    && (forall h :: h in s.live && !Carries(s.list, h, n) ==> Untouched(s, t, h))
  }

  /** A reply takes the request with its number. */
  lemma ReplyTakes(steps: seq<Step>, n: uint32)
    requires Runs(Init, steps) && NeverStrays(Init, steps)
    ensures var s := After(Init, steps); TookNumber(s, Apply(s, Reply(n)), n)
  {
    hide Apply, TookNumber, Inv;
    RunKeepsInv(Init, steps) by {
      InitHasInv();
    }
    ReplyTakesNumber(After(Init, steps), n);
  }

  lemma ReplyTakesNumber(s: State, n: uint32)
    requires Inv(s)
    ensures TookNumber(s, Apply(s, Reply(n)), n)
  {
    hide RemoveResult, MarkResult, Untouched, TakenBy, OnlyUnlinked, Inv;
    if e :| e in s.list && e.seqnum == n {
      ReplyTakesEntry(s, n, e);
      assert Carries(s.list, e.request, n);
    } else {
      RemoveNotFound(s.list, s.wdf, n);
      assert Apply(s, Reply(n)) == s;
      forall h | h in s.live ensures Untouched(s, s, h) {
        UntouchedByNothing(s, h);
      }
    }
  }

  lemma UntouchedByNothing(s: State, h: Handle)
    requires h in s.live
    ensures Untouched(s, s, h)
  {
  }

  /** An entry of the request has the number. */
  ghost predicate Carries(list: seq<Entry>, h: Handle, n: uint32) {
    exists e :: e in list && e.seqnum == n && e.request == h
  }

  lemma ReplyTakesEntry(s: State, n: uint32, e: Entry)
    requires Inv(s) && e in s.list && e.seqnum == n
    ensures var t := Apply(s, Reply(n));
            && (if e.request in s.callbacks then OnlyUnlinked(s, t, e.request) else TakenBy(t, e.request))
            && (forall x :: x in s.list && x.seqnum == n ==> x == e)
            && (forall h :: h in s.live && h != e.request ==> Untouched(s, t, h))
  {
    hide RemoveResult, MarkResult;
    forall x | x in s.list && x.seqnum == n ensures x == e {
      assert EntryOk(s, x) && EntryOk(s, e);
      SeqnumsDiffer(s.issued, s.live[x.request], s.live[e.request]);
      assert s.phase[s.live[e.request].index] == Pending(e.request);
    }
    RemoveFound(s.list, s.wdf, n, e);
    CallbackOwns(s, e);
  }

  /** The first entry of the endpoint that no dispatched callback owns. */
  ghost predicate FirstOf(s: State, p: Endpoint, i: nat) {
    && i < |s.list| && s.list[i].endpoint == p && s.list[i].request !in s.callbacks
    && forall j :: 0 <= j < i && s.list[j].endpoint == p ==> s.list[j].request in s.callbacks
  }

  /** The request of entry i was taken; entries of the endpoint before it were only unlinked, the others stay. */
  ghost predicate TookEntry(s: State, t: State, p: Endpoint, i: nat)
    requires i < |s.list|
  {
    && TakenBy(t, s.list[i].request)
    && (forall j :: 0 <= j < i && s.list[j].endpoint == p ==> OnlyUnlinked(s, t, s.list[j].request))
    && (forall j :: 0 <= j < |s.list| && j != i && (j > i || s.list[j].endpoint != p) ==> Untouched(s, t, s.list[j].request))
  }

  /** All entries of the endpoint were only unlinked, the others stay. */
  ghost predicate TookNone(s: State, t: State, p: Endpoint) {
    && (forall j :: 0 <= j < |s.list| && s.list[j].endpoint == p ==> OnlyUnlinked(s, t, s.list[j].request))
    && (forall j :: 0 <= j < |s.list| && s.list[j].endpoint != p ==> Untouched(s, t, s.list[j].request))
  }

  /** One turn of the purge takes the first request of the endpoint that no dispatched callback owns; if there
      is none, it unlinks what is left of the endpoint. */
  lemma PurgeTakes(steps: seq<Step>, p: Endpoint)
    requires Runs(Init, steps) && NeverStrays(Init, steps)
    ensures var s := After(Init, steps);
            && (forall i: nat :: FirstOf(s, p, i) ==> TookEntry(s, Apply(s, Purge(p)), p, i))
            && ((forall i: nat :: !FirstOf(s, p, i)) ==> TookNone(s, Apply(s, Purge(p)), p))
  {
    hide Apply, TookEntry, TookNone, Inv;
    RunKeepsInv(Init, steps) by {
      InitHasInv();
    }
    var s := After(Init, steps);
    forall i: nat | FirstOf(s, p, i) ensures TookEntry(s, Apply(s, Purge(p)), p, i) {
      PurgeTakesFirst(s, p, i);
    }
    if forall i: nat :: !FirstOf(s, p, i) {
      PurgeTakesNone(s, p);
    }
  }

  lemma InitHasInv()
    ensures Inv(Init)
  {
  }

  /** The list without the i-th entry and the entries of the endpoint before it. */
  lemma KeptEntries(list: seq<Entry>, p: Endpoint, i: nat, e: Entry)
    requires Distinct(list) && i < |list| && e in list
    ensures e in Without(list[..i], p) + list[i + 1..] <==>
      e != list[i] && !(e in list[..i] && e.endpoint == p)
  {
    WithoutKeeps(list[..i], p);
    var k :| 0 <= k < |list| && list[k] == e;
    assert k < i ==> e == list[..i][k];
    assert k > i ==> e == list[i + 1..][k - i - 1];
  }

  lemma OneEntryEach(list: seq<Entry>, kept: seq<Entry>, j: nat)
    requires Distinct(list) && j < |list| && forall e :: e in kept ==> e in list
    ensures Linked(kept, list[j].request) <==> list[j] in kept
    ensures forall e :: e in list && e.request == list[j].request ==> e == list[j]
  {
  }

  lemma PurgeTakesFirst(s: State, p: Endpoint, i: nat)
    requires Inv(s) && FirstOf(s, p, i)
    ensures TookEntry(s, Apply(s, Purge(p)), p, i)
  {
    hide RemoveResult, MarkResult, Without, PhasesOk, InWindow, SendsOk, WdfOk, OwnersOk, EntryOk, Untouched;
    var t := Apply(s, Purge(p));
    forall j | 0 <= j <= i ensures IsAvailable(s.list[j], s.wdf, p) <==> j == i {
      CallbackOwns(s, s.list[j]);
    }
    RemoveFirst(s.list, s.wdf, p, i);
    CallbackOwns(s, s.list[i]);
    forall j | 0 <= j < |s.list|
      ensures s.list[j] in t.list <==> j > i || (j < i && s.list[j].endpoint != p)
    {
      KeptAt(s.list, p, i, j);
    }
    WithoutKeeps(s.list[..i], p);
    OneEntryEach(s.list, t.list, i);
    forall j | 0 <= j < i && s.list[j].endpoint == p ensures OnlyUnlinked(s, t, s.list[j].request) {
      CallbackOwns(s, s.list[j]);
      OneEntryEach(s.list, t.list, j);
    }
    forall j | 0 <= j < |s.list| && j != i && (j > i || s.list[j].endpoint != p)
      ensures Untouched(s, t, s.list[j].request)
    {
      KeptIsUntouched(s, t, s.list[i].request, j);
    }
  }

  lemma KeptAt(list: seq<Entry>, p: Endpoint, i: nat, j: nat)
    requires Distinct(list) && i < |list| && j < |list|
    ensures list[j] in Without(list[..i], p) + list[i + 1..] <==> j > i || (j < i && list[j].endpoint != p)
  {
    hide Without;
    KeptEntries(list, p, i, list[j]);
    if j < i {
      assert list[j] == list[..i][j];
    } else if j > i {
      NotBefore(list, i, j);
    }
  }

  lemma NotBefore(list: seq<Entry>, i: nat, j: nat)
    requires Distinct(list) && i < j < |list|
    ensures list[j] !in list[..i]
  {
  }

  /** A request that stays linked while another one is taken. */
  lemma KeptIsUntouched(s: State, t: State, taken: Handle, j: nat)
    requires ListOk(s) && j < |s.list| && s.list[j].request != taken && s.list[j] in t.list
    requires (forall e :: e in t.list ==> e in s.list) && t.live == s.live
    requires forall h :: h != taken ==> t.holders[h] == s.holders[h] && (h in t.wdf.marked <==> h in s.wdf.marked)
    ensures Untouched(s, t, s.list[j].request)
  {
    assert EntryOk(s, s.list[j]);
    OneEntryEach(s.list, t.list, j);
  }

  lemma PurgeTakesNone(s: State, p: Endpoint)
    requires Inv(s) && forall i: nat :: !FirstOf(s, p, i)
    ensures TookNone(s, Apply(s, Purge(p)), p)
  {
    hide RemoveResult, MarkResult, Without, PhasesOk, InWindow, SendsOk, WdfOk, OwnersOk;
    var t := Apply(s, Purge(p));
    NoneAvailable(s, p, |s.list|);
    forall j | 0 <= j < |s.list| ensures !IsAvailable(s.list[j], s.wdf, p) {
      CallbackOwns(s, s.list[j]);
    }
    RemoveNone(s.list, s.wdf, p);
    WithoutKeeps(s.list, p);
    forall j | 0 <= j < |s.list|
      ensures if s.list[j].endpoint == p then OnlyUnlinked(s, t, s.list[j].request) else Untouched(s, t, s.list[j].request)
    {
      CallbackOwns(s, s.list[j]);
      OneEntryEach(s.list, t.list, j);
      assert EntryOk(s, s.list[j]);
    }
  }

  lemma {:induction false} NoneAvailable(s: State, p: Endpoint, n: nat)
    requires n <= |s.list| && forall i: nat :: !FirstOf(s, p, i)
    ensures forall j :: 0 <= j < n && s.list[j].endpoint == p ==> s.list[j].request in s.callbacks
  {
    if n > 0 {
      NoneAvailable(s, p, n - 1);
      assert !FirstOf(s, p, n - 1);
    }
  }

  /** The completion of the send of instance k did what it has to: a request that is still linked is marked
      cancelable, or taken if the send failed or a cancel was requested; one that is not is left alone. */
  ghost predicate SendDone(s: State, t: State, k: nat)
    requires k in s.sends
  {
    && t.sends == s.sends - {k} && t.live == s.live
    && (forall e :: e in s.list && e.request in s.live && s.live[e.request].index == k ==>
          if s.sends[k].fails || e.request in s.wdf.cancelRequested then TakenBy(t, e.request)
          else e.(cancelable := true) in t.list && e.request in t.wdf.marked && t.holders[e.request] == 0)
    && ((forall e :: e in s.list ==> e.request != s.sends[k].request) ==> t == s.(sends := s.sends - {k}))
  }

  lemma SendCompletes(steps: seq<Step>, k: nat)
    requires Runs(Init, steps) && NeverStrays(Init, steps)
    requires k in After(Init, steps).sends && !Strays(After(Init, steps), SendCompleted(k))
    ensures var s := After(Init, steps); SendDone(s, Apply(s, SendCompleted(k)), k)
  {
    hide Apply, SendDone, Inv;
    RunKeepsInv(Init, steps) by {
      InitHasInv();
    }
    var s := After(Init, steps);
    if s.sends[k].fails {
      FailedSendTakes(s, k);
    } else {
      SuccessfulSendMarks(s, k);
    }
  }

  lemma FailedSendTakes(s: State, k: nat)
    requires Inv(s) && k in s.sends && s.sends[k].fails && !Strays(s, SendCompleted(k))
    ensures SendDone(s, Apply(s, SendCompleted(k)), k)
  {
    hide RemoveResult, MarkResult, PhasesOk, InWindow, SendsOk, WdfOk, OwnersOk, EntryOk;
    var h := s.sends[k].request;
    OwnEntryHasHandle(s, k);
    RemoveByRequest(s.list, s.wdf, h);
    if e :| e in s.list && e.request == h {
      CallbackOwns(s, e);
      assert !e.cancelable;
    } else {
      RemoveNoRequest(s.list, s.wdf, h);
    }
  }

  lemma {:induction false} RemoveNoRequest(list: seq<Entry>, wdf: Wdf, h: Handle)
    requires forall e :: e in list ==> e.request != h
    ensures RemoveResult(list, wdf, ByRequest(h), false) == Removal(None, list, wdf)
  {
    if list != [] {
      InCons(list);
      RemoveNoRequest(list[1..], wdf, h);
    }
  }

  lemma SuccessfulSendMarks(s: State, k: nat)
    requires Inv(s) && k in s.sends && !s.sends[k].fails
    ensures SendDone(s, Apply(s, SendCompleted(k)), k)
  {
    hide RemoveResult, MarkResult, PhasesOk, InWindow, SendsOk, WdfOk, OwnersOk, EntryOk;
    LookupFindsOwn(s, k);
    OwnEntryHasHandle(s, k);
    var t := Apply(s, SendCompleted(k));
    if own :| OwnEntry(s, k, own) {
      CallbackOwns(s, own);
      forall e | e in s.list && e.request in s.live && s.live[e.request].index == k
        ensures if e.request in s.wdf.cancelRequested then TakenBy(t, e.request)
                else e.(cancelable := true) in t.list && e.request in t.wdf.marked && t.holders[e.request] == 0
      {
        assert e.request == s.sends[k].request == own.request && e == own;
      }
    }
  }

  ghost predicate CallbackDone(s: State, t: State, h: Handle) {
    TakenBy(t, h) && t.callbacks[h] == 0 && forall g :: g in s.live && g != h ==> Untouched(s, t, g)
  }

  /** The cancel callback unlinks its request, if a reply or a purge has not, and holds it; others are left alone. */
  lemma CallbackTakes(steps: seq<Step>, h: Handle)
    requires Runs(Init, steps) && NeverStrays(Init, steps) && h in After(Init, steps).callbacks
    ensures var s := After(Init, steps); CallbackDone(s, Apply(s, RunCallback(h)), h)
  {
    hide Apply, CallbackDone, Inv;
    RunKeepsInv(Init, steps) by {
      InitHasInv();
    }
    CallbackTakesRequest(After(Init, steps), h);
  }

  lemma CallbackTakesRequest(s: State, h: Handle)
    requires Inv(s) && h in s.callbacks
    ensures CallbackDone(s, Apply(s, RunCallback(h)), h)
  {
    hide RemoveResult, MarkResult, PhasesOk, InWindow, SendsOk, EntryOk;
    assert Owners(s, h) == 1;
    RemoveByRequest(s.list, s.wdf, h);
  }

  /** A command gets a number that no linked request has; it is used up, whether or not the command is a submit. */
  ghost predicate NumberTaken(s: State, t: State, dirIn: bool, submit: bool) {
    && t.issued == s.issued + 1 && t.list == s.list && t.live == s.live
    && (submit ==> s.issued in t.phase && t.phase[s.issued] == Prepared(dirIn))
    && (forall e :: e in s.list ==> e.seqnum != Issued(s.issued, dirIn))
  }

  lemma NumberIsFresh(steps: seq<Step>, dirIn: bool, submit: bool)
    requires Runs(Init, steps) && NeverStrays(Init, steps) && Enabled(After(Init, steps), Number(dirIn, submit))
    ensures var s := After(Init, steps); NumberTaken(s, Apply(s, Number(dirIn, submit)), dirIn, submit)
  {
    hide Apply, Enabled, NumberTaken, Inv;
    RunKeepsInv(Init, steps) by {
      InitHasInv();
    }
    FreshNumber(After(Init, steps), dirIn, submit);
  }

  lemma FreshNumber(s: State, dirIn: bool, submit: bool)
    requires Inv(s) && Enabled(s, Number(dirIn, submit))
    ensures NumberTaken(s, Apply(s, Number(dirIn, submit)), dirIn, submit)
  {
    hide RemoveResult, MarkResult, SendsOk, WdfOk, OwnersOk;
    forall e | e in s.list ensures e.seqnum != Issued(s.issued, dirIn) {
      assert EntryOk(s, e);
      if e.seqnum == Issued(s.issued, dirIn) {
        SeqnumsDiffer(s.issued + 1, s.live[e.request], Instance(s.issued, dirIn));
      }
    }
  }

  /** A request is linked with its number and endpoint, and from then on pending. */
  lemma SubmitLinks(s: State, h: Handle, p: Endpoint, i: Instance, fails: bool)
    requires Enabled(s, Submit(h, p, i, fails))
    ensures var t := Apply(s, Submit(h, p, i, fails));
      && t.list == s.list + [Entry(h, p, i.Seqnum(), false)]
      && h in t.live && t.live[h] == i && i.index in t.sends && t.sends[i.index] == Send(h, i, fails)
      && (forall g :: g in s.live ==> Untouched(s, t, g))
  {
  }

  ghost predicate CompletionDone(s: State, t: State, h: Handle) {
    && h in s.live && s.completed[s.live[h].index] == 0
    && t.live == s.live - {h} && t.holders[h] == 0 && !t.fault
    && t.completed == s.completed[s.live[h].index := 1]
  }

  /** Whoever took a request completes its instance, once, and nobody else's. */
  lemma CompleteEnds(steps: seq<Step>, h: Handle)
    requires Runs(Init, steps) && NeverStrays(Init, steps) && h in After(Init, steps).holders
    ensures var s := After(Init, steps); CompletionDone(s, Apply(s, Complete(h)), h)
  {
    hide Apply, CompletionDone, Inv;
    RunKeepsInv(Init, steps) by {
      InitHasInv();
    }
    HolderCompletes(After(Init, steps), h);
  }

  lemma HolderCompletes(s: State, h: Handle)
    requires Inv(s) && h in s.holders
    ensures CompletionDone(s, Apply(s, Complete(h)), h)
  {
    hide RemoveResult, MarkResult, InWindow, SendsOk, ListOk, WdfOk;
    assert Owners(s, h) == 1;
  }

  // ---- a run on which a failed send strays

  lemma RunCons(s: State, step: Step, rest: seq<Step>)
    requires Enabled(s, step) && !Strays(s, step)
    requires Runs(Apply(s, step), rest) && NeverStrays(Apply(s, step), rest)
    ensures Runs(s, [step] + rest) && NeverStrays(s, [step] + rest)
    ensures After(s, [step] + rest) == After(Apply(s, step), rest)
  {
    hide Apply, Enabled, Strays;
    assert ([step] + rest)[1..] == rest;
  }

  lemma {:induction false} RunsAppend(s: State, a: seq<Step>, b: seq<Step>)
    requires Runs(s, a) && Runs(After(s, a), b)
    ensures Runs(s, a + b) && After(s, a + b) == After(After(s, a), b)
    ensures NeverStrays(s, a) && NeverStrays(After(s, a), b) ==> NeverStrays(s, a + b)
    decreases |a|
  {
    hide Apply, Enabled, Strays;
    if a == [] {
      assert a + b == b;
    } else {
      RunsAppend(Apply(s, a[0]), a[1..], b);
      assert (a + b)[1..] == a[1..] + b;
    }
  }

  /** A request was sent, taken by a purge and completed; its send is going to fail. */
  ghost predicate Purged(s: State, h: Handle) {
    && s.issued == 1 && s.phase == map[0 := Done] && s.list == [] && s.live == map[] && s.wdf == Wdf({}, {}, {})
    && s.sends == map[0 := Send(h, Instance(0, false), true)]
  }

  /** A request was numbered and sent; its send is going to fail. */
  ghost predicate Sent(s: State, h: Handle, p: Endpoint) {
    && s.issued == 1 && s.list == [Entry(h, p, Instance(0, false).Seqnum(), false)] && s.wdf == Wdf({}, {}, {})
    && s.phase == map[0 := Pending(h)] && s.live == map[h := Instance(0, false)] && s.holders == multiset{}
    && s.sends == map[0 := Send(h, Instance(0, false), true)]
  }

  lemma FirstSend(h: Handle, p: Endpoint) returns (s: State)
    ensures Sent(s, h, p)
    ensures forall rest :: Runs(s, rest) && NeverStrays(s, rest) ==>
      var steps := [Number(false, true)] + ([Submit(h, p, Instance(0, false), true)] + rest);
      Runs(Init, steps) && NeverStrays(Init, steps) && After(Init, steps) == After(s, rest)
  {
    hide RemoveResult, MarkResult, Issued;
    var i := Instance(0, false);
    var a := Apply(Init, Number(false, true));
    s := Apply(a, Submit(h, p, i, true));
    forall rest | Runs(s, rest) && NeverStrays(s, rest)
      ensures var steps := [Number(false, true)] + ([Submit(h, p, i, true)] + rest);
        Runs(Init, steps) && NeverStrays(Init, steps) && After(Init, steps) == After(s, rest)
    {
      RunCons(a, Submit(h, p, i, true), rest);
      RunCons(Init, Number(false, true), [Submit(h, p, i, true)] + rest);
    }
  }

  lemma PurgeAndComplete(s: State, h: Handle, p: Endpoint) returns (steps: seq<Step>)
    requires Sent(s, h, p)
    ensures Runs(s, steps) && NeverStrays(s, steps) && Purged(After(s, steps), h)
  {
    hide RemoveResult, MarkResult, Issued;
    TakesOnly(s.list[0], s.wdf, p);
    var c := Apply(s, Purge(p));
    var d := Apply(c, Complete(h));
    assert Purged(d, h) && Runs(d, []) && NeverStrays(d, []) && After(d, []) == d;
    RunCons(c, Complete(h), []);
    RunCons(s, Purge(p), [Complete(h)] + []);
    steps := [Purge(p)] + ([Complete(h)] + []);
  }

  lemma FirstLife(h: Handle, p: Endpoint) returns (steps: seq<Step>)
    ensures Runs(Init, steps) && NeverStrays(Init, steps) && Purged(After(Init, steps), h)
  {
    hide Apply, Sent, Purged;
    var s := FirstSend(h, p);
    var rest := PurgeAndComplete(s, h, p);
    steps := [Number(false, true)] + ([Submit(h, p, Instance(0, false), true)] + rest);
  }

  lemma SecondLife(s: State, h: Handle, p: Endpoint) returns (steps: seq<Step>)
    requires Purged(s, h)
    ensures Runs(s, steps) && NeverStrays(s, steps)
    ensures var t := After(s, steps); 0 in t.sends && t.sends[0].request == h && Strays(t, SendCompleted(0))
  {
    hide RemoveResult, MarkResult, Issued;
    var j := Instance(1, false);
    var entry := Entry(h, p, j.Seqnum(), false);
    var e := Apply(s, Number(false, true));
    var f := Apply(e, Submit(h, p, j, false));
    assert f.list == [entry] && f.sends[1] == Send(h, j, false);
    MarksOnly(entry, f.wdf);
    var g := Apply(f, SendCompleted(1));
    assert entry.(cancelable := true) in g.list && g.sends[0] == s.sends[0];
    assert Runs(g, []) && NeverStrays(g, []) && After(g, []) == g;
    RunCons(f, SendCompleted(1), []);
    RunCons(e, Submit(h, p, j, false), [SendCompleted(1)]);
    RunCons(s, Number(false, true), [Submit(h, p, j, false), SendCompleted(1)]);
    assert [SendCompleted(1)] + [] == [SendCompleted(1)];
    assert [Submit(h, p, j, false)] + [SendCompleted(1)] == [Submit(h, p, j, false), SendCompleted(1)];
    steps := [Number(false, true)] + [Submit(h, p, j, false), SendCompleted(1)];
  }

  /** A send fails, but its endpoint is purged and the handle used again before the failure is reported; the
      send of the later request has completed. */
  lemma HandleReused(h: Handle, p: Endpoint) returns (steps: seq<Step>)
    ensures Runs(Init, steps) && NeverStrays(Init, steps)
    ensures var s := After(Init, steps); 0 in s.sends && s.sends[0].request == h && Strays(s, SendCompleted(0))
  {
    hide Apply, Enabled, Strays;
    var first := FirstLife(h, p);
    var second := SecondLife(After(Init, first), h, p);
    RunsAppend(Init, first, second);
    steps := first + second;
  }

  lemma TakesOnly(e: Entry, wdf: Wdf, p: Endpoint)
    requires e.endpoint == p && !e.cancelable
    ensures RemoveResult([e], wdf, ByEndpoint(p), true) == Removal(Some(e.request), [], wdf)
  {
  }

  lemma MarksOnly(e: Entry, wdf: Wdf)
    requires e.request !in wdf.cancelRequested
    ensures MarkResult([e], wdf, e.seqnum).requests == [e.(cancelable := true)]
    ensures MarkResult([e], wdf, e.seqnum).status == Success
  {
  }

  /** So there is a run with two owners, for any handle. */
  lemma {:induction false} TwoOwners(h: Handle)
    ensures exists steps :: Runs(Init, steps) && Owners(After(Init, steps), h) == 2
  {
    hide Apply, Strays, Owners;
    var steps := HandleReused(h, 0);
    var s := After(Init, steps);
    StraySendDoublesOwner(steps, 0);
    var t := Apply(s, SendCompleted(0));
    var more :| Runs(t, more) && Owners(After(t, more), h) == 2;
    assert ([SendCompleted(0)] + more)[1..] == more;
    RunsAppend(Init, steps, [SendCompleted(0)] + more);
  }
}
