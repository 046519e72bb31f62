/** Device state events: each open file has its own queue, filled when an event is published and
    emptied by reads (drivers/ude/vhci.cpp, drivers/ude/vhci_ioctl.cpp). Every method runs under the
    events lock and is one step. */
module EventQueues {
  type Id = nat
  type Event = int

  /** How an event left the queue of a file. */
  datatype Gone = Delivered(event: Event) | Dropped(event: Event)

  /** fileobject_ctx, with its history: what left the queue, and how many events had been published
      when the file subscribed. */
  datatype File = File(events: seq<Event>, processEvents: bool, gone: seq<Gone>, since: nat)

  /** The events part of vhci_ctx, the pending reads by file, and all events published so far. */
  datatype State = State(devicesCnt: nat, fileobjects: seq<Id>, files: map<Id, File>, pending: seq<Id>,
                         eventsSubscribers: int, published: seq<Event>)
  {
    function MaxEvents(): nat { 4 * devicesCnt }

    ghost predicate Closed() {
      forall id :: id in fileobjects ==> id in files
    }
  }

  function RemoveFirst(s: seq<Id>, id: Id): seq<Id> {
    if s == [] then [] else if s[0] == id then s[1..] else [s[0]] + RemoveFirst(s[1..], id)
  }

  // ---- the steps

  function DeviceFileCreate(s: State, id: Id): State {
    s.(fileobjects := s.fileobjects + [id], files := s.files[id := File([], false, [], 0)])
  }

  /** WdfCollectionAdd, then the oldest event makes room. */
  function Enqueue(f: File, evt: Event, max: nat): File {
    var events := f.events + [evt];
    if |events| > max then f.(events := events[1..], gone := f.gone + [Dropped(events[0])])
    else f.(events := events)
  }

  /** process_event for one file. */
  function ProcessFile(s: State, id: Id, evt: Event): State
    requires id in s.files
  {
    var f := s.files[id];
    if id in s.pending then
      s.(pending := RemoveFirst(s.pending, id), files := s.files[id := f.(gone := f.gone + [Delivered(evt)])])
    else s.(files := s.files[id := Enqueue(f, evt, s.MaxEvents())])
  }

  function ProcessFiles(s: State, todo: seq<Id>, evt: Event): (t: State)
    requires forall id :: id in todo ==> id in s.files
    ensures t.files.Keys == s.files.Keys && t.devicesCnt == s.devicesCnt
    decreases |todo|
  {
    if todo == [] then s
    else ProcessFiles(if s.files[todo[0]].processEvents then ProcessFile(s, todo[0], evt) else s, todo[1..], evt)
  }

  /** process_event */
  function Publish(s: State, evt: Event): State
    requires s.Closed()
  {
    var t := ProcessFiles(s, s.fileobjects, evt);
    t.(published := s.published + [evt])
  }

  function Subscribe(s: State, id: Id): State
    requires id in s.files
  {
    if s.files[id].processEvents then s
    else s.(eventsSubscribers := s.eventsSubscribers + 1,
            files := s.files[id := s.files[id].(processEvents := true, since := |s.published|)])
  }

  /** device_read; accepted says whether the queue of reads takes the request. */
  function DeviceRead(s: State, id: Id, rightLength: bool, accepted: bool): State
    requires id in s.files
  {
    if !rightLength then s
    else
      var t := Subscribe(s, id);
      var f := t.files[id];
      if f.events != [] then
        t.(files := t.files[id := f.(events := f.events[1..], gone := f.gone + [Delivered(f.events[0])])])
      else if accepted then t.(pending := t.pending + [id])
      else t
  }

  /** file_cleanup */
  function FileCleanup(s: State, id: Id): State
    requires id in s.files
  {
    s.(fileobjects := RemoveFirst(s.fileobjects, id),
       eventsSubscribers := s.eventsSubscribers - if s.files[id].processEvents then 1 else 0)
  }

  /** The framework cancels the k-th pending read. */
  function CancelRead(s: State, k: nat): State
    requires k < |s.pending|
  {
    s.(pending := s.pending[..k] + s.pending[k + 1..])
  }

  // ---- the methods

  class Vhci {
    const devicesCnt: nat
    var fileobjects: seq<Id>
    var files: map<Id, File>
    var pending: seq<Id>
    var eventsSubscribers: int
    var published: seq<Event>

    ghost function View(): State
      reads this
    {
      State(devicesCnt, fileobjects, files, pending, eventsSubscribers, published)
    }

    constructor (devicesCnt: nat)
      ensures View() == State(devicesCnt, [], map[], [], 0, [])
    {
      this.devicesCnt := devicesCnt;
      fileobjects, files, pending, eventsSubscribers, published := [], map[], [], 0, [];
    }

    /** device_file_create */
    method FileCreate(id: Id)
      modifies this
      ensures View() == DeviceFileCreate(old(View()), id)
    {
      files := files[id := File([], false, [], 0)];
      fileobjects := fileobjects + [id];
    }

    /** process_event for one file; max is 4*devices_cnt. */
    method ProcessOne(id: Id, evt: Event, max: nat)
      requires id in files && max == 4 * devicesCnt
      modifies this`files, this`pending
      ensures View() == ProcessFile(old(View()), id, evt)
    {
      var f := files[id];
      if id in pending {
        pending := RemoveFirst(pending, id);
        files := files[id := f.(gone := f.gone + [Delivered(evt)])];
      } else {
        f := f.(events := f.events + [evt]);
        if |f.events| > max {
          f := f.(events := f.events[1..], gone := f.gone + [Dropped(f.events[0])]);
        }
        files := files[id := f];
      }
    }

    /** process_event. The count of the files served is the number of subscribers. */
    method ProcessEvent(evt: Event)
      requires View().Closed() && eventsSubscribers == Subscribed(fileobjects, files)
      modifies this`files, this`pending, this`published
      ensures View() == Publish(old(View()), evt)
    {
      var cnt := 0;
      ghost var subscribed := Subscribed(fileobjects, files);
      for i := 0 to |fileobjects|
        invariant forall id :: id in fileobjects ==> id in files
        invariant published == old(published)
        invariant ProcessFiles(View(), fileobjects[i..], evt) == ProcessFiles(old(View()), fileobjects, evt)
        invariant cnt + Subscribed(fileobjects[i..], files) == subscribed
      {
        var id := fileobjects[i];
        assert fileobjects[i..][1..] == fileobjects[i + 1..] && fileobjects[i..][0] == id;
        if files[id].processEvents {
          SubscribedSame(fileobjects[i + 1..], files, ProcessFile(View(), id, evt).files);
          ProcessOne(id, evt, 4 * devicesCnt);
          cnt := cnt + 1;
        }
      }
      assert fileobjects[|fileobjects|..] == [];
      assert cnt == eventsSubscribers;
      published := published + [evt];
    }

    /** device_read */
    method Read(id: Id, rightLength: bool, accepted: bool) returns (completed: bool)
      requires id in files
      modifies this`files, this`pending, this`eventsSubscribers
      ensures View() == DeviceRead(old(View()), id, rightLength, accepted)
      ensures completed <==> pending == old(pending)
    {
      if !rightLength {
        return true;
      }
      var f := files[id];
      if !f.processEvents {
        eventsSubscribers := eventsSubscribers + 1;
        f := f.(processEvents := true, since := |published|);
        files := files[id := f];
      }
      if f.events != [] {
        files := files[id := f.(events := f.events[1..], gone := f.gone + [Delivered(f.events[0])])];
        return true;
      } else if accepted {
        pending := pending + [id];
        return false;
      } else {
        return true;
      }
    }

    /** file_cleanup */
    method Cleanup(id: Id)
      requires id in files
      modifies this`fileobjects, this`eventsSubscribers
      ensures View() == FileCleanup(old(View()), id)
    {
      fileobjects := RemoveFirst(fileobjects, id);
      if files[id].processEvents {
        eventsSubscribers := eventsSubscribers - 1;
      }
    }
  }

  /** The number of subscribed files in the list. */
  function Subscribed(list: seq<Id>, files: map<Id, File>): nat {
    if list == [] then 0
    else (if list[0] in files && files[list[0]].processEvents then 1 else 0) + Subscribed(list[1..], files)
  }

  lemma {:induction false} SubscribedSame(list: seq<Id>, files: map<Id, File>, files': map<Id, File>)
    requires files.Keys <= files'.Keys && forall id :: id in list ==> id in files
    requires forall id :: id in files ==> files'[id].processEvents == files[id].processEvents
    ensures Subscribed(list, files') == Subscribed(list, files)
  {
    if list != [] {
      SubscribedSame(list[1..], files, files');
    }
  }

  // ---- the invariant

  /** The events that left the queue, in order. */
  function Out(gone: seq<Gone>): seq<Event> {
    if gone == [] then [] else Out(gone[..|gone| - 1]) + [gone[|gone| - 1].event]
  }

  /** What holds of an open file: the events published since its first read are those that left
      its queue, then those in it; the queue is bounded, and empty while a read is pending. */
  ghost predicate FileInv(f: File, waiting: bool, published: seq<Event>, max: nat) {
    && |f.events| <= max
    && (f.events != [] ==> !waiting)
    && f.since <= |published|
    && if f.processEvents then Out(f.gone) + f.events == published[f.since..]
       else f.events == [] && f.gone == [] && !waiting
  }

  predicate Distinct(list: seq<Id>) {
    forall i, j :: 0 <= i < j < |list| ==> list[i] != list[j]
  }

  ghost predicate Inv(s: State) {
    && s.Closed() && Distinct(s.fileobjects)
    && (forall id :: id in s.fileobjects ==> FileInv(s.files[id], id in s.pending, s.published, s.MaxEvents()))
    && s.eventsSubscribers == Subscribed(s.fileobjects, s.files)
  }

  datatype Step =
    | Create(id: Id)
    | Published(evt: Event)
    | Read(id: Id, rightLength: bool, accepted: bool)
    | Cleanup(id: Id)
    | Cancel(k: nat)

  /** A file object is created once; reads and the cleanup come while it is open. */
  predicate Enabled(s: State, step: Step) {
    match step
    case Create(id) => id !in s.files && id !in s.pending
    case Published(_) => true
    case Read(id, _, _) => id in s.fileobjects
    case Cleanup(id) => id in s.fileobjects
    case Cancel(k) => k < |s.pending|
  }

  function Apply(s: State, step: Step): State
    requires s.Closed() && Enabled(s, step)
  {
    match step
    case Create(id) => DeviceFileCreate(s, id)
    case Published(evt) => Publish(s, evt)
    case Read(id, rightLength, accepted) => DeviceRead(s, id, rightLength, accepted)
    case Cleanup(id) => FileCleanup(s, id)
    case Cancel(k) => CancelRead(s, k)
  }

  lemma {:induction false} OutAppend(gone: seq<Gone>, g: Gone)
    ensures Out(gone + [g]) == Out(gone) + [g.event]
  {
    assert (gone + [g])[..|gone|] == gone;
  }

  lemma {:induction false} RemoveFirstKeeps(s: seq<Id>, id: Id, x: Id)
    ensures x in RemoveFirst(s, id) ==> x in s
    ensures x != id && x in s ==> x in RemoveFirst(s, id)
  {
    if s != [] && s[0] != id {
      RemoveFirstKeeps(s[1..], id, x);
    }
  }

  lemma {:induction false} RemoveFirstDistinct(s: seq<Id>, id: Id)
    requires Distinct(s)
    ensures Distinct(RemoveFirst(s, id)) && id !in RemoveFirst(s, id)
  {
    if s != [] {
      assert forall k :: 1 <= k < |s| ==> s[k] != s[0];
      assert s[0] !in s[1..];
      RemoveFirstDistinct(s[1..], id);
      RemoveFirstKeeps(s[1..], id, s[0]);
    }
  }

  // ---- every step keeps it

  lemma {:induction false} SubscribedOne(list: seq<Id>, files: map<Id, File>, id: Id, f: File)
    requires Distinct(list) && id in files
    ensures Subscribed(list, files[id := f]) == Subscribed(list, files)
      + (if id in list && f.processEvents then 1 else 0) - (if id in list && files[id].processEvents then 1 else 0)
  {
    if list != [] {
      SubscribedOne(list[1..], files, id, f);
    }
  }

  lemma {:induction false} SubscribedRemoved(list: seq<Id>, files: map<Id, File>, id: Id)
    requires id in list && id in files
    ensures Subscribed(RemoveFirst(list, id), files) == Subscribed(list, files) - if files[id].processEvents then 1 else 0
  {
    if list[0] != id {
      SubscribedRemoved(list[1..], files, id);
    }
  }

  lemma {:induction false} SubscribedAppend(list: seq<Id>, files: map<Id, File>, id: Id, f: File)
    requires id !in list && !f.processEvents
    ensures Subscribed(list + [id], files[id := f]) == Subscribed(list, files)
  {
    if list == [] {
      assert Subscribed([], files) == 0 && [id][1..] == [];
    } else {
      SubscribedAppend(list[1..], files, id, f);
      assert (list + [id])[1..] == list[1..] + [id];
    }
  }

  lemma {:induction false} Shift(published: seq<Event>, evt: Event, since: nat)
    requires since <= |published|
    ensures (published + [evt])[since..] == published[since..] + [evt]
  {
  }

  /** One file served: its own equation moves on by the event. */
  lemma {:induction false} FileServed(s: State, id: Id, evt: Event)
    requires id in s.files && s.files[id].processEvents
    requires FileInv(s.files[id], id in s.pending, s.published, s.MaxEvents())
    ensures var t := ProcessFile(s, id, evt);
      && FileInv(t.files[id], id in t.pending, s.published + [evt], s.MaxEvents())
      && t.files[id].processEvents && t.files.Keys == s.files.Keys
      && (forall x :: x in s.files && x != id ==> t.files[x] == s.files[x])
      && (forall x :: x != id ==> (x in t.pending <==> x in s.pending))
  {
    hide Out;
    var f, t := s.files[id], ProcessFile(s, id, evt);
    forall x ensures x != id ==> (x in t.pending <==> x in s.pending) {
      RemoveFirstKeeps(s.pending, id, x);
    }
    Shift(s.published, evt, f.since);
    if id in s.pending {
      OutAppend(f.gone, Delivered(evt));
    } else {
      Enqueued(f, evt, s.MaxEvents());
    }
  }

  /** The new event comes behind those that left the queue and those in it. */
  lemma {:induction false} Enqueued(f: File, evt: Event, max: nat)
    ensures var g := Enqueue(f, evt, max); Out(g.gone) + g.events == Out(f.gone) + f.events + [evt]
  {
    var events := f.events + [evt];
    OutAppend(f.gone, Dropped(events[0]));
    assert Out(f.gone) + [events[0]] + events[1..] == Out(f.gone) + events;
    assert Out(f.gone) + events == Out(f.gone) + f.events + [evt];
  }

  /** The loop over the files: those in the list that are subscribed move on, the others stay. */
  lemma {:induction false} FilesServed(s: State, todo: seq<Id>, evt: Event)
    requires Distinct(todo) && forall id :: id in todo ==> id in s.files
    requires forall id :: id in todo ==> FileInv(s.files[id], id in s.pending, s.published, s.MaxEvents())
    ensures var t := ProcessFiles(s, todo, evt);
      && t == s.(files := t.files, pending := t.pending) && t.files.Keys == s.files.Keys
      && (forall id :: id in todo ==> FileInv(t.files[id], id in t.pending, s.published + [evt], s.MaxEvents()))
      && (forall id :: id in s.files ==> t.files[id].processEvents == s.files[id].processEvents)
      && (forall id :: id in s.files && id !in todo ==> t.files[id] == s.files[id] && (id in t.pending <==> id in s.pending))
    decreases |todo|
  {
    if todo != [] {
      var id := todo[0];
      var t := if s.files[id].processEvents then ProcessFile(s, id, evt) else s;
      if s.files[id].processEvents {
        FileServed(s, id, evt);
      }
      FilesServed(t, todo[1..], evt);
    }
  }

  lemma {:induction false} PublishKeepsInv(s: State, evt: Event)
    requires Inv(s)
    ensures Inv(Publish(s, evt))
  {
    FilesServed(s, s.fileobjects, evt);
    SubscribedSame(s.fileobjects, s.files, Publish(s, evt).files);
  }

  lemma {:induction false} SubscribeKeepsInv(s: State, id: Id)
    requires Inv(s) && id in s.fileobjects
    ensures Inv(Subscribe(s, id))
  {
    SubscribedOne(s.fileobjects, s.files, id, Subscribe(s, id).files[id]);
    assert s.published[|s.published|..] == [];
    assert Out([]) == [];
  }

  lemma {:induction false} ReadKeepsInv(s: State, id: Id, rightLength: bool, accepted: bool)
    requires Inv(s) && id in s.fileobjects
    ensures Inv(DeviceRead(s, id, rightLength, accepted))
  {
    if rightLength {
      var t, u := Subscribe(s, id), DeviceRead(s, id, rightLength, accepted);
      SubscribeKeepsInv(s, id);
      var f := t.files[id];
      if f.events != [] {
        TakesOldest(f, t.published);
        SubscribedSame(t.fileobjects, t.files, u.files);
      }
    }
  }

  lemma {:induction false} TakesOldest(f: File, published: seq<Event>)
    requires f.events != []
    ensures Out(f.gone + [Delivered(f.events[0])]) + f.events[1..] == Out(f.gone) + f.events
  {
    OutAppend(f.gone, Delivered(f.events[0]));
    assert Out(f.gone) + [f.events[0]] + f.events[1..] == Out(f.gone) + f.events;
  }

  lemma {:induction false} CleanupKeepsInv(s: State, id: Id)
    requires Inv(s) && id in s.fileobjects
    ensures Inv(FileCleanup(s, id))
  {
    SubscribedRemoved(s.fileobjects, s.files, id);
    RemoveFirstDistinct(s.fileobjects, id);
    forall x | x in RemoveFirst(s.fileobjects, id) ensures x in s.fileobjects {
      RemoveFirstKeeps(s.fileobjects, id, x);
    }
  }

  lemma {:induction false} StepKeepsInv(s: State, step: Step)
    requires Inv(s) && Enabled(s, step)
    ensures Inv(Apply(s, step))
  {
    match step
    case Create(id) => SubscribedAppend(s.fileobjects, s.files, id, File([], false, [], 0));
    case Published(evt) => PublishKeepsInv(s, evt);
    case Read(id, rightLength, accepted) => ReadKeepsInv(s, id, rightLength, accepted);
    case Cleanup(id) => CleanupKeepsInv(s, id);
    case Cancel(k) =>
      forall x | x in Apply(s, step).pending ensures x in s.pending {
      }
  }

  // ---- runs

  function Init(devicesCnt: nat): (s: State)
    ensures Inv(s)
  {
    State(devicesCnt, [], map[], [], 0, [])
  }

  /** The steps are enabled, each in its turn. */
  ghost predicate Runs(s: State, steps: seq<Step>)
    requires Inv(s)
    decreases |steps|
  {
    steps == [] || (
      Enabled(s, steps[0]) && (
        StepKeepsInv(s, steps[0]);
        Runs(Apply(s, steps[0]), steps[1..])))
  }

  ghost function After(s: State, steps: seq<Step>): State
    requires Inv(s) && Runs(s, steps)
    decreases |steps|
  {
    if steps == [] then s
    else
      StepKeepsInv(s, steps[0]);
      After(Apply(s, steps[0]), steps[1..])
  }

  lemma {:induction false} RunKeepsInv(s: State, steps: seq<Step>)
    requires Inv(s) && Runs(s, steps)
    ensures Inv(After(s, steps)) && After(s, steps).devicesCnt == s.devicesCnt
    decreases |steps|
  {
    if steps != [] {
      StepKeepsInv(s, steps[0]);
      RunKeepsInv(Apply(s, steps[0]), steps[1..]);
    }
  }

  /** On every run: what was published since the first read of an open file is what left its queue,
      delivered or dropped, in order, and then its queue; the queue never has more than four events a
      port; a queued event and a pending read never meet; and the subscribers are counted exactly. */
  lemma {:induction false} EveryRun(devicesCnt: nat, steps: seq<Step>, id: Id)
    requires Runs(Init(devicesCnt), steps) && id in After(Init(devicesCnt), steps).fileobjects
    ensures var s := After(Init(devicesCnt), steps);
      && id in s.files
      && (s.files[id].processEvents ==>
            s.files[id].since <= |s.published| && Out(s.files[id].gone) + s.files[id].events == s.published[s.files[id].since..])
      && |s.files[id].events| <= 4 * devicesCnt
      && !(s.files[id].events != [] && id in s.pending)
      && s.eventsSubscribers == Subscribed(s.fileobjects, s.files)
  {
    RunKeepsInv(Init(devicesCnt), steps);
    var s := After(Init(devicesCnt), steps);
    assert FileInv(s.files[id], id in s.pending, s.published, s.MaxEvents());
  }

  /** What one published event does to a file: a waiting read takes it; otherwise it is queued, and
      the oldest event is dropped only when the queue was full. */
  lemma {:induction false} PublishEffect(s: State, evt: Event, id: Id)
    requires Inv(s) && id in s.fileobjects
    ensures var f, g := s.files[id], Publish(s, evt).files[id];
      if !f.processEvents then g == f
      else if id in s.pending then g == f.(gone := f.gone + [Delivered(evt)])
      else if |f.events| < s.MaxEvents() then g == f.(events := f.events + [evt])
      else g.events == (f.events + [evt])[1..] && g.gone == f.gone + [Dropped((f.events + [evt])[0])]
  {
    ServedOnce(s, s.fileobjects, evt, id);
  }

  lemma {:induction false} ServedOnce(s: State, todo: seq<Id>, evt: Event, id: Id)
    requires Distinct(todo) && id in s.files && forall x :: x in todo ==> x in s.files
    ensures var f, g := s.files[id], ProcessFiles(s, todo, evt).files[id];
      g == if id !in todo || !f.processEvents then f
           else if id in s.pending then f.(gone := f.gone + [Delivered(evt)]) else Enqueue(f, evt, s.MaxEvents())
    decreases |todo|
  {
    if todo != [] {
      var x := todo[0];
      var t := if s.files[x].processEvents then ProcessFile(s, x, evt) else s;
      RemoveFirstKeeps(s.pending, x, id);
      ServedOnce(t, todo[1..], evt, id);
    }
  }

  /** How many reads of the file are pending. */
  function Waiting(pending: seq<Id>, id: Id): nat {
    multiset(pending)[id]
  }

  lemma {:induction false} RemoveFirstTakesOne(s: seq<Id>, id: Id, x: Id)
    ensures Waiting(RemoveFirst(s, id), x) == if x == id && x in s then Waiting(s, x) - 1 else Waiting(s, x)
  {
    if s != [] {
      assert s == [s[0]] + s[1..];
      if s[0] != id {
        RemoveFirstTakesOne(s[1..], id, x);
      }
    }
  }

  /** An event completes one pending read of each subscribed file that has some, and no other read. */
  lemma {:induction false} PublishCompletesReads(s: State, evt: Event, id: Id)
    requires Inv(s)
    ensures Waiting(Publish(s, evt).pending, id) == Waiting(s.pending, id)
      - if id in s.fileobjects && s.files[id].processEvents && id in s.pending then 1 else 0
  {
    ReadsCompleted(s, s.fileobjects, evt, id);
  }

  lemma {:induction false} ReadsCompleted(s: State, todo: seq<Id>, evt: Event, id: Id)
    requires Distinct(todo) && forall x :: x in todo ==> x in s.files
    ensures Waiting(ProcessFiles(s, todo, evt).pending, id) == Waiting(s.pending, id)
      - if id in todo && s.files[id].processEvents && id in s.pending then 1 else 0
    decreases |todo|
  {
    hide Waiting;
    if todo != [] {
      var x := todo[0];
      var t := if s.files[x].processEvents then ProcessFile(s, x, evt) else s;
      assert todo == [x] + todo[1..];
      RemoveFirstTakesOne(s.pending, x, id);
      RemoveFirstKeeps(s.pending, x, id);
      ReadsCompleted(t, todo[1..], evt, id);
    }
  }

  /** Cancelling a read takes that read and nothing else; the others keep their order. */
  lemma {:induction false} CancelEffect(s: State, k: nat)
    requires k < |s.pending|
    ensures var t := CancelRead(s, k);
      && t == s.(pending := t.pending) && |t.pending| == |s.pending| - 1
      && (forall i :: 0 <= i < |t.pending| ==> t.pending[i] == s.pending[if i < k then i else i + 1])
      && (forall id :: Waiting(t.pending, id) == Waiting(s.pending, id) - if id == s.pending[k] then 1 else 0)
  {
    assert s.pending == s.pending[..k] + [s.pending[k]] + s.pending[k + 1..];
  }

  /** The file subscribed, with nothing to deliver from before. */
  ghost predicate Subscribes(s: State, t: State, id: Id)
    requires id in s.files && id in t.files
  {
    && t.files[id].processEvents
    && t.eventsSubscribers == (if s.files[id].processEvents then s.eventsSubscribers else s.eventsSubscribers + 1)
    && t.files[id].since == (if s.files[id].processEvents then s.files[id].since else |s.published|)
  }

  /** Only what concerns the file changed. */
  ghost predicate OthersAsBefore(s: State, t: State, id: Id) {
    && t.files.Keys == s.files.Keys && (forall x :: x in s.files && x != id ==> t.files[x] == s.files[x])
    && (forall x :: x != id ==> Waiting(t.pending, x) == Waiting(s.pending, x))
    && t.fileobjects == s.fileobjects && t.published == s.published && t.devicesCnt == s.devicesCnt
  }

  /** What a read does: with a buffer of the wrong length nothing; otherwise the file is subscribed, and the read
      takes the oldest event, or waits if there is none and it is accepted. A read that is refused takes nothing. */
  lemma {:induction false} ReadEffect(s: State, id: Id, rightLength: bool, accepted: bool)
    requires id in s.files
    ensures var t := DeviceRead(s, id, rightLength, accepted);
      && OthersAsBefore(s, t, id)
      && (!rightLength ==> t == s)
      && (rightLength ==>
            var f, g := s.files[id], t.files[id];
            && Subscribes(s, t, id)
            && (f.events != [] ==>
                  f.events == [f.events[0]] + g.events && g.gone == f.gone + [Delivered(f.events[0])] && t.pending == s.pending)
            && (f.events == [] ==> g.events == [] && g.gone == f.gone)
            && (f.events == [] && accepted ==> t.pending == s.pending + [id])
            && (f.events == [] && !accepted ==> t.pending == s.pending))
  {
  }

  /** A file that is closed is served no more; the others stay in the list and in their order of creation, and a
      new one comes last, without events and not subscribed. */
  lemma {:induction false} OpenAndClose(s: State, id: Id)
    requires Inv(s)
    ensures id !in s.files ==>
      var t := DeviceFileCreate(s, id);
      && t.fileobjects == s.fileobjects + [id] && t.files[id].events == [] && !t.files[id].processEvents
      && t.eventsSubscribers == s.eventsSubscribers
    ensures id in s.fileobjects ==>
      var t := FileCleanup(s, id);
      && id !in t.fileobjects
      && (forall x :: x in s.fileobjects && x != id ==> x in t.fileobjects)
      && Subscribed(t.fileobjects, t.files) == t.eventsSubscribers
      && t.eventsSubscribers == s.eventsSubscribers - if s.files[id].processEvents then 1 else 0
  {
    if id in s.fileobjects {
      CleanupKeepsInv(s, id);
      RemoveFirstDistinct(s.fileobjects, id);
      forall x | x in s.fileobjects && x != id ensures x in RemoveFirst(s.fileobjects, id) {
        RemoveFirstKeeps(s.fileobjects, id, x);
      }
    }
  }
}
