/** The gate that lets a socket be closed only when no call on it is in progress
    (drivers/libdrv/wsk_cpp.cpp, SOCKET::invoke and wait_invokers).

    Any number of threads. Each step performs at most one interlocked operation on the 64-bit
    word, so every interleaving of the source's operations is a run of this machine. */
module InvokeGate {

  const CLOSING: int := 0x2000_0000_0000_0000    // bit 61
  const EVENT_SET: int := 0x4000_0000_0000_0000  // bit 62
  const WORD: int := 0x1_0000_0000_0000_0000

  type Word = n: int | 0 <= n < WORD

  predicate HasClosing(n: Word) { n / CLOSING % 2 == 1 }
  predicate HasEventSet(n: Word) { n / EVENT_SET % 2 == 1 }

  function Incremented(n: Word): Word { (n + 1) % WORD }
  function Decremented(n: Word): Word { (n + WORD - 1) % WORD }
  function WithClosing(n: Word): Word { if HasClosing(n) then n else n + CLOSING }
  function WithEventSet(n: Word): Word { if HasEventSet(n) then n else n + EVENT_SET }

  type Thread = nat

  /** Where one call stands. A thread of the model makes one call: of invoke or of
      wait_invokers. Threads that are not in the map have not started. */
  datatype Pc =
    | Admitted   // invoke: counted, the callee runs
    | Refused    // invoke: counted, CLOSING was seen, the callee is not called
    | SawZero    // invoke: its decrement gave exactly CLOSING, about to test and set EVENT_SET
    | Signalling // invoke: it set EVENT_SET, about to call KeSetEvent
    | Returned   // invoke: done
    | Waiting    // wait_invokers: found callers, waits for the event
    | Marking    // wait_invokers: found none, about to set EVENT_SET
    | Closed     // wait_invokers: returned STATUS_SUCCESS
    | NotClosed  // wait_invokers: returned STATUS_NOT_SUPPORTED

  datatype State = State(word: Word, canClose: bool, signals: nat, pcs: map<Thread, Pc>)

  const Init := State(0, false, 0, map[])

  datatype Step =
    | Enter(t: Thread)       // InterlockedIncrement64
    | Leave(t: Thread)       // InterlockedDecrement64
    | TestAndSet(t: Thread)  // InterlockedBitTestAndSet64
    | Signal(t: Thread)      // KeSetEvent
    | Close(t: Thread)       // InterlockedOr64
    | Mark(t: Thread)        // InterlockedBitTestAndSet64 in wait_invokers
    | Awake(t: Thread)       // KeWaitForSingleObject returns

  ghost predicate At(s: State, t: Thread, pc: Pc) {
    t in s.pcs && s.pcs[t] == pc
  }

  predicate IsCounted(pc: Pc) { pc.Admitted? || pc.Refused? }

  function Counted(s: State): set<Thread> {
    set t | t in s.pcs && IsCounted(s.pcs[t])
  }

  ghost predicate Enabled(s: State, step: Step) {
    match step
    case Enter(t) => t !in s.pcs && |Counted(s)| + 1 < CLOSING  // fewer than 2^61 calls at once
    case Leave(t) => At(s, t, Admitted) || At(s, t, Refused)
    case TestAndSet(t) => At(s, t, SawZero)
    case Signal(t) => At(s, t, Signalling)
    case Close(t) => t !in s.pcs
    case Mark(t) => At(s, t, Marking)
    case Awake(t) => At(s, t, Waiting) && s.canClose
  }

  function Apply(s: State, step: Step): State {
    match step
    case Enter(t) =>
      var n := Incremented(s.word);
      s.(word := n, pcs := s.pcs[t := if HasClosing(n) then Refused else Admitted])
    case Leave(t) =>
      var n := Decremented(s.word);
      s.(word := n, pcs := s.pcs[t := if n == CLOSING then SawZero else Returned])
    case TestAndSet(t) =>
      s.(word := WithEventSet(s.word), pcs := s.pcs[t := if HasEventSet(s.word) then Returned else Signalling])
    case Signal(t) =>
      s.(canClose := true, signals := s.signals + 1, pcs := s.pcs[t := Returned])
    case Close(t) =>
      s.(word := WithClosing(s.word),
         pcs := s.pcs[t := if HasClosing(s.word) then NotClosed else if s.word != 0 then Waiting else Marking])
    case Mark(t) =>
      s.(word := WithEventSet(s.word), pcs := s.pcs[t := Closed])
    case Awake(t) =>
      s.(pcs := s.pcs[t := Closed])
  }

  /** SOCKET::invoke_cnt and SOCKET::can_close; where the calling threads stand is tracked
      beside the fields. Every method is one step: other threads can come in between. */
  class Socket {
    var invokeCnt: Word
    var canClose: bool
    ghost var signals: nat
    ghost var pcs: map<Thread, Pc>

    ghost function Value(): State
      reads this
    {
      State(invokeCnt, canClose, signals, pcs)
    }

    constructor ()
      ensures Value() == Init
    {
      invokeCnt, canClose, signals, pcs := 0, false, 0, map[];
    }

    /** invoke, up to the call of the function. */
    method BeginInvoke(ghost t: Thread) returns (admitted: bool)
      modifies this
      ensures Value() == Apply(old(Value()), Enter(t))
      ensures admitted == At(Value(), t, Admitted)
    {
      invokeCnt := Incremented(invokeCnt);
      admitted := !HasClosing(invokeCnt);
      pcs := pcs[t := if admitted then Admitted else Refused];
    }

    /** invoke, after the call: the decrement, and whether it gave exactly CLOSING. */
    method EndInvoke(ghost t: Thread) returns (last: bool)
      modifies this
      ensures Value() == Apply(old(Value()), Leave(t))
      ensures last == At(Value(), t, SawZero)
    {
      invokeCnt := Decremented(invokeCnt);
      last := invokeCnt == CLOSING;
      pcs := pcs[t := if last then SawZero else Returned];
    }

    /** invoke, of the caller that saw CLOSING alone: whether it has to signal. */
    method TakeEvent(ghost t: Thread) returns (signal: bool)
      modifies this
      ensures Value() == Apply(old(Value()), TestAndSet(t))
      ensures signal == At(Value(), t, Signalling)
    {
      signal := !HasEventSet(invokeCnt);
      invokeCnt := WithEventSet(invokeCnt);
      pcs := pcs[t := if signal then Signalling else Returned];
    }

    /** invoke, of the caller that set EVENT_SET. */
    method SignalEvent(ghost t: Thread)
      modifies this
      ensures Value() == Apply(old(Value()), Signal(t))
    {
      canClose := true;
      signals, pcs := signals + 1, pcs[t := Returned];
    }

    /** wait_invokers, up to the wait. */
    method BeginClose(ghost t: Thread) returns (refused: bool, wait: bool)
      modifies this
      ensures Value() == Apply(old(Value()), Close(t))
      ensures refused == At(Value(), t, NotClosed) && wait == At(Value(), t, Waiting)
    {
      var n := invokeCnt;
      invokeCnt := WithClosing(invokeCnt);
      refused, wait := HasClosing(n), !HasClosing(n) && n != 0;
      pcs := pcs[t := if refused then NotClosed else if wait then Waiting else Marking];
    }

    /** wait_invokers, of a closer that found no caller. */
    method CloseUnused(ghost t: Thread)
      modifies this
      ensures Value() == Apply(old(Value()), Mark(t))
      ensures HasEventSet(invokeCnt)
    {
      invokeCnt := WithEventSet(invokeCnt);
      pcs := pcs[t := Closed];
    }

    /** wait_invokers, when the wait is over. */
    method EndWait(ghost t: Thread)
      requires canClose
      modifies this
      ensures Value() == Apply(old(Value()), Awake(t))
    {
      pcs := pcs[t := Closed];
    }
  }

  ghost predicate Runs(s: State, steps: seq<Step>)
    decreases |steps|
  {
    steps == [] || (Enabled(s, steps[0]) && Runs(Apply(s, steps[0]), steps[1..]))
  }

  function After(s: State, steps: seq<Step>): State
    decreases |steps|
  {
    if steps == [] then s else After(Apply(s, steps[0]), steps[1..])
  }

  // ---- the invariant

  /** The word holds the number of counted calls and the two flags. */
  ghost predicate WordIs(word: Word, count: nat, closing: bool, eventSet: bool) {
    word == count + (if closing then CLOSING else 0) + (if eventSet then EVENT_SET else 0)
  }

  predicate IsCloser(pc: Pc) { pc.Waiting? || pc.Marking? || pc.Closed? }

  /** After these program counters, or once the event is signalled, no admitted call runs. */
  predicate IsPastCallers(pc: Pc) { pc.SawZero? || pc.Signalling? || pc.Marking? || pc.Closed? }

  ghost predicate CountOk(s: State) {
    && |Counted(s)| < CLOSING
    && WordIs(s.word, |Counted(s)|, HasClosing(s.word), HasEventSet(s.word))
  }

  ghost predicate FlagsOk(s: State) {
    && (HasEventSet(s.word) ==> HasClosing(s.word))
    && (HasClosing(s.word) <==> exists t :: t in s.pcs && IsCloser(s.pcs[t]))
    && (forall t, u :: t in s.pcs && u in s.pcs && IsCloser(s.pcs[t]) && IsCloser(s.pcs[u]) ==> t == u)
    && (forall t :: t in s.pcs && s.pcs[t].Refused? ==> HasClosing(s.word))
  }

  ghost predicate EventOk(s: State) {
    && s.signals == (if s.canClose then 1 else 0)
    && (s.canClose ==> HasEventSet(s.word) && forall t :: !At(s, t, Signalling))
    && (forall t :: At(s, t, Signalling) ==> HasEventSet(s.word))
    && (forall t, u :: At(s, t, Signalling) && At(s, u, Signalling) ==> t == u)
    && (forall t :: At(s, t, Closed) ==> HasEventSet(s.word))
  }

  ghost predicate NoneAdmitted(s: State) {
    forall t :: !At(s, t, Admitted)
  }

  ghost predicate QuietOk(s: State) {
    && (forall t :: t in s.pcs && IsPastCallers(s.pcs[t]) ==> HasClosing(s.word) && NoneAdmitted(s))
    && (HasEventSet(s.word) ==> NoneAdmitted(s))
  }

  /** Whoever waits for an event that is not signalled has someone who will signal it. */
  ghost predicate WakeOk(s: State) {
    forall c :: At(s, c, Waiting) ==>
      if !HasEventSet(s.word) then exists t :: t in s.pcs && (IsCounted(s.pcs[t]) || s.pcs[t].SawZero?)
      else s.canClose || exists t :: At(s, t, Signalling)
  }

  ghost predicate Inv(s: State) {
    CountOk(s) && FlagsOk(s) && EventOk(s) && QuietOk(s) && WakeOk(s)
  }

  // ---- preservation

  /** The count and the flags can be read back from the word. */
  lemma WordDecodes(word: Word, count: nat, closing: bool, eventSet: bool)
    requires count < CLOSING && WordIs(word, count, closing, eventSet)
    ensures HasClosing(word) == closing && HasEventSet(word) == eventSet
  {
  }

  lemma EnterKeepsCount(s: State, t: Thread)
    requires CountOk(s) && Enabled(s, Enter(t))
    ensures var s' := Apply(s, Enter(t));
            && CountOk(s') && HasClosing(s'.word) == HasClosing(s.word) && HasEventSet(s'.word) == HasEventSet(s.word)
  {
    var s' := Apply(s, Enter(t));
    assert Counted(s') == Counted(s) + {t};
    assert Incremented(s.word) == s.word + 1;
    WordDecodes(s'.word, |Counted(s)| + 1, HasClosing(s.word), HasEventSet(s.word));
  }

  lemma EnterKeepsInv(s: State, t: Thread)
    requires Inv(s) && Enabled(s, Enter(t))
    ensures Inv(Apply(s, Enter(t)))
  {
    var s' := Apply(s, Enter(t));
    EnterKeepsCount(s, t);
    Unmoved(s, s', t);
    assert t in s'.pcs && IsCounted(s'.pcs[t]);
  }

  /** The other threads stay where they are. */
  lemma Unmoved(s: State, s': State, t: Thread)
    requires t in s'.pcs && s'.pcs == s.pcs[t := s'.pcs[t]]
    ensures forall u, pc :: u != t ==> (At(s, u, pc) <==> At(s', u, pc))
    ensures (forall u :: u in s.pcs && IsCloser(s.pcs[u]) ==> u != t || IsCloser(s'.pcs[t]))
        && (exists u :: u in s.pcs && IsCloser(s.pcs[u]))
        ==> exists u :: u in s'.pcs && IsCloser(s'.pcs[u])
  {
    if u :| u in s.pcs && IsCloser(s.pcs[u]) {
      assert u in s'.pcs;
    }
  }

  lemma LeaveKeepsInv(s: State, t: Thread)
    requires Inv(s) && Enabled(s, Leave(t))
    ensures Inv(Apply(s, Leave(t)))
  {
    var s' := Apply(s, Leave(t));
    assert t in Counted(s) && Counted(s') == Counted(s) - {t};
    assert Decremented(s.word) == s.word - 1;
    WordDecodes(s'.word, |Counted(s)| - 1, HasClosing(s.word), HasEventSet(s.word));
    Unmoved(s, s', t);
    if s'.word == CLOSING {
      assert Counted(s') == {};
      assert forall u :: At(s', u, Admitted) ==> u in Counted(s');
      assert s'.pcs[t].SawZero?;
    } else if HasClosing(s.word) && !HasEventSet(s.word) {
      var u :| u in Counted(s');
      assert u in s'.pcs && IsCounted(s'.pcs[u]);
    }
  }

  lemma CloseKeepsInv(s: State, t: Thread)
    requires Inv(s) && Enabled(s, Close(t))
    ensures Inv(Apply(s, Close(t)))
  {
    var s' := Apply(s, Close(t));
    assert Counted(s') == Counted(s);
    if !HasClosing(s.word) {
      WordDecodes(s'.word, |Counted(s)|, true, false);
    }
    Unmoved(s, s', t);
    assert forall u :: At(s, u, Admitted) ==> u in Counted(s);
    assert CountOk(s');
    assert t in s'.pcs && (IsCloser(s'.pcs[t]) <==> !HasClosing(s.word));
    assert FlagsOk(s');
    assert EventOk(s');
    assert QuietOk(s');
    if u :| u in s.pcs && (IsCounted(s.pcs[u]) || s.pcs[u].SawZero?) {
      assert u in s'.pcs;
    }
    if s'.pcs[t] == Waiting {
      var u :| u in Counted(s);
      assert u in s'.pcs && IsCounted(s'.pcs[u]);
    }
  }

  lemma SetEventKeepsInv(s: State, step: Step)
    requires Inv(s) && (step.TestAndSet? || step.Mark?) && Enabled(s, step)
    ensures Inv(Apply(s, step))
  {
    var s' := Apply(s, step);
    assert Counted(s') == Counted(s);
    WordDecodes(s'.word, |Counted(s)|, HasClosing(s.word), true);
    Unmoved(s, s', step.t);
    assert At(s', step.t, s'.pcs[step.t]);
  }

  lemma WakeKeepsInv(s: State, step: Step)
    requires Inv(s) && (step.Signal? || step.Awake?) && Enabled(s, step)
    ensures Inv(Apply(s, step))
  {
    var s' := Apply(s, step);
    assert Counted(s') == Counted(s);
    Unmoved(s, s', step.t);
    assert At(s', step.t, s'.pcs[step.t]);
  }

  lemma StepKeepsInv(s: State, step: Step)
    requires Inv(s) && Enabled(s, step)
    ensures Inv(Apply(s, step))
  {
    match step
    case Enter(t) => EnterKeepsInv(s, t);
    case Leave(t) => LeaveKeepsInv(s, t);
    case Close(t) => CloseKeepsInv(s, t);
    case TestAndSet(_) => SetEventKeepsInv(s, step);
    case Mark(_) => SetEventKeepsInv(s, step);
    case Signal(_) => WakeKeepsInv(s, step);
    case Awake(_) => WakeKeepsInv(s, step);
  }

  lemma {:induction false} RunKeepsInv(s: State, steps: seq<Step>)
    requires Inv(s) && Runs(s, steps)
    ensures Inv(After(s, steps))
    decreases |steps|
  {
    if steps != [] {
      StepKeepsInv(s, steps[0]);
      RunKeepsInv(Apply(s, steps[0]), steps[1..]);
    }
  }

  lemma InitHasInv()
    ensures Inv(Init)
  {
    assert Counted(Init) == {};
  }

  // ---- main results

  /** A close that succeeded stays so: on every continuation no admitted call is in progress,
      no call is admitted, and every other close is refused. */
  lemma {:induction false} ClosedForGood(steps: seq<Step>, more: seq<Step>, t: Thread)
    requires Runs(Init, steps) && At(After(Init, steps), t, Closed) && Runs(After(Init, steps), more)
    ensures var s := After(After(Init, steps), more);
            && NoneAdmitted(s) && At(s, t, Closed)
            && forall u :: u in s.pcs && IsCloser(s.pcs[u]) ==> u == t
  {
    InitHasInv();
    RunKeepsInv(Init, steps);
    RunKeepsInv(After(Init, steps), more);
    ClosedStays(After(Init, steps), more, t);
  }

  lemma {:induction false} ClosedStays(s: State, steps: seq<Step>, t: Thread)
    requires Runs(s, steps) && At(s, t, Closed)
    ensures At(After(s, steps), t, Closed)
    decreases |steps|
  {
    if steps != [] {
      ClosedStays(Apply(s, steps[0]), steps[1..], t);
    }
  }

  /** When a close has succeeded EVENT_SET is set, so no caller that comes later tests and sets it. */
  lemma ClosedMeansEventSet(steps: seq<Step>, t: Thread)
    requires Runs(Init, steps) && At(After(Init, steps), t, Closed)
    ensures HasEventSet(After(Init, steps).word)
  {
    InitHasInv();
    RunKeepsInv(Init, steps);
  }

  /** However the run goes on, the event is not signalled once more. */
  ghost predicate NeverSignalledAgain(s: State) {
    forall more :: Runs(s, more) ==> After(s, more).signals == s.signals && After(s, more).canClose == s.canClose
  }

  /** After a close that succeeded the event is never signalled again, exactly if no caller had set EVENT_SET and
      was about to signal it. */
  lemma {:induction false} NoSignalAfterClose(steps: seq<Step>, t: Thread)
    requires Runs(Init, steps) && At(After(Init, steps), t, Closed)
    ensures var s := After(Init, steps); NeverSignalledAgain(s) <==> forall u :: !At(s, u, Signalling)
  {
    hide Inv, NeverSignalledAgain;
    InitHasInv();
    RunKeepsInv(Init, steps);
    var s := After(Init, steps);
    if u :| At(s, u, Signalling) {
      SignalFollows(s, u);
    } else {
      NoSignalEver(s, t);
    }
  }

  lemma SignalFollows(s: State, u: Thread)
    requires At(s, u, Signalling)
    ensures !NeverSignalledAgain(s)
  {
    var next := Apply(s, Signal(u));
    assert Runs(next, []) && After(next, []) == next;
    assert Runs(s, [Signal(u)]) && After(s, [Signal(u)]).signals == s.signals + 1;
  }

  lemma {:induction false} NoSignalEver(s: State, t: Thread)
    requires Inv(s) && At(s, t, Closed) && forall u :: !At(s, u, Signalling)
    ensures NeverSignalledAgain(s)
  {
    forall more | Runs(s, more) ensures After(s, more).signals == s.signals && After(s, more).canClose == s.canClose {
      NoSignalFollows(s, more, t);
    }
  }

  lemma {:induction false} NoSignalFollows(s: State, steps: seq<Step>, t: Thread)
    requires Inv(s) && Runs(s, steps) && At(s, t, Closed) && forall u :: !At(s, u, Signalling)
    ensures After(s, steps).signals == s.signals && After(s, steps).canClose == s.canClose
    decreases |steps|
  {
    if steps != [] {
      var next := Apply(s, steps[0]);
      StepKeepsInv(s, steps[0]);
      StepAddsNoSignal(s, steps[0], t);
      NoSignalFollows(next, steps[1..], t);
    }
  }

  lemma StepAddsNoSignal(s: State, step: Step, t: Thread)
    requires HasEventSet(s.word) && Enabled(s, step) && At(s, t, Closed) && forall u :: !At(s, u, Signalling)
    ensures var next := Apply(s, step);
      && At(next, t, Closed) && next.signals == s.signals && next.canClose == s.canClose
      && forall u :: !At(next, u, Signalling)
  {
    hide HasEventSet, HasClosing;
    var next := Apply(s, step);
    assert !At(s, step.t, Signalling);
    forall u ensures !At(next, u, Signalling) {
      assert !At(s, u, Signalling);
    }
  }

  /** The exception occurs: a refused caller comes between the two operations of a closer that found none, and
      signals the event after the close has succeeded. */
  lemma SignalAfterClose()
    ensures exists steps :: Runs(Init, steps) && At(After(Init, steps), 0, Closed) && At(After(Init, steps), 1, Signalling)
  {
    hide Incremented, Decremented, WithClosing, WithEventSet, HasClosing, HasEventSet;
    LateWords();
    var a := Apply(Init, Close(0));
    var b := Apply(a, Enter(1));
    var c := Apply(b, Leave(1));
    var d := Apply(c, TestAndSet(1));
    var e := Apply(d, Mark(0));
    assert Counted(Init) == {} && Counted(a) == {};
    assert Runs(e, []) && After(e, []) == e;
    RunCons(d, Mark(0), []);
    RunCons(c, TestAndSet(1), [Mark(0)]);
    RunCons(b, Leave(1), [TestAndSet(1), Mark(0)]);
    RunCons(a, Enter(1), [Leave(1), TestAndSet(1), Mark(0)]);
    RunCons(Init, Close(0), [Enter(1), Leave(1), TestAndSet(1), Mark(0)]);
    assert [Mark(0)] + [] == [Mark(0)];
    assert [TestAndSet(1)] + [Mark(0)] == [TestAndSet(1), Mark(0)];
    assert [Leave(1)] + [TestAndSet(1), Mark(0)] == [Leave(1), TestAndSet(1), Mark(0)];
    assert [Enter(1)] + [Leave(1), TestAndSet(1), Mark(0)] == [Enter(1), Leave(1), TestAndSet(1), Mark(0)];
  }

  lemma LateWords()
    ensures WithClosing(0) == CLOSING && !HasClosing(0) && Incremented(CLOSING) == CLOSING + 1
    ensures HasClosing(CLOSING + 1) && Decremented(CLOSING + 1) == CLOSING && !HasEventSet(CLOSING)
  {
  }

  lemma RunCons(s: State, step: Step, rest: seq<Step>)
    requires Enabled(s, step) && Runs(Apply(s, step), rest)
    ensures Runs(s, [step] + rest) && After(s, [step] + rest) == After(Apply(s, step), rest)
  {
    hide Apply, Enabled;
    assert ([step] + rest)[1..] == rest;
  }

  /** On every run the event is signalled at most once, EVENT_SET implies CLOSING, and at most
      one wait_invokers gets past the check that refuses a second close. */
  lemma SignalledOnce(steps: seq<Step>)
    requires Runs(Init, steps)
    ensures var s := After(Init, steps);
            && s.signals <= 1 && (HasEventSet(s.word) ==> HasClosing(s.word))
            && forall t, u :: t in s.pcs && u in s.pcs && IsCloser(s.pcs[t]) && IsCloser(s.pcs[u]) ==> t == u
  {
    InitHasInv();
    RunKeepsInv(Init, steps);
  }

  /** A call is admitted exactly if no close has begun; a second close is refused, the first one waits exactly if
      there are callers. */
  lemma AdmittedExactly(steps: seq<Step>, t: Thread)
    requires Runs(Init, steps) && t !in After(Init, steps).pcs
    ensures var s := After(Init, steps);
      var closing := exists u :: u in s.pcs && IsCloser(s.pcs[u]);
      && (Enabled(s, Enter(t)) ==> At(Apply(s, Enter(t)), t, if closing then Refused else Admitted))
      && At(Apply(s, Close(t)), t, if closing then NotClosed else if Counted(s) != {} then Waiting else Marking)
  {
    InitHasInv();
    RunKeepsInv(Init, steps);
    AdmittedInState(After(Init, steps), t);
  }

  lemma AdmittedInState(s: State, t: Thread)
    requires Inv(s) && t !in s.pcs
    ensures var closing := exists u :: u in s.pcs && IsCloser(s.pcs[u]);
      && (Enabled(s, Enter(t)) ==> At(Apply(s, Enter(t)), t, if closing then Refused else Admitted))
      && At(Apply(s, Close(t)), t, if closing then NotClosed else if Counted(s) != {} then Waiting else Marking)
  {
    if Enabled(s, Enter(t)) {
      EnterKeepsCount(s, t);
    }
    assert |Counted(s)| == 0 <==> Counted(s) == {};
  }

  /** No wake-up is lost: if a closer waits and the event is not signalled, some caller is still
      counted or stands between its final decrement and the signal. So when every caller has
      returned, the closer can go on. */
  lemma NoLostWakeup(steps: seq<Step>, c: Thread)
    requires Runs(Init, steps) && At(After(Init, steps), c, Waiting)
    ensures var s := After(Init, steps);
            s.canClose || exists t :: t in s.pcs && (IsCounted(s.pcs[t]) || s.pcs[t].SawZero? || s.pcs[t].Signalling?)
    ensures var s := After(Init, steps);
            (forall t :: t in s.pcs && t != c ==> s.pcs[t].Returned? || s.pcs[t].NotClosed?) ==> Enabled(s, Awake(c))
  {
    InitHasInv();
    RunKeepsInv(Init, steps);
    var s := After(Init, steps);
    if t :| At(s, t, Signalling) {
      assert t in s.pcs;
    }
  }

  /** The assertion after the wait says that the count is zero. At any time after a successful close
      it holds exactly if no refused caller is between its increment and its decrement. */
  lemma CountIsZeroExactly(steps: seq<Step>, t: Thread)
    requires Runs(Init, steps) && At(After(Init, steps), t, Closed)
    ensures var s := After(Init, steps); s.word % CLOSING == 0 <==> forall u :: !At(s, u, Refused)
  {
    InitHasInv();
    RunKeepsInv(Init, steps);
    var s := After(Init, steps);
    CountFromWord(s.word, |Counted(s)|, HasClosing(s.word), HasEventSet(s.word));
    if u :| At(s, u, Refused) {
      assert u in Counted(s);
    }
    if u :| u in Counted(s) {
      assert At(s, u, s.pcs[u]);
    }
  }

  lemma CountFromWord(word: Word, count: nat, closing: bool, eventSet: bool)
    requires count < CLOSING && WordIs(word, count, closing, eventSet)
    ensures word % CLOSING == count
  {
    WordDecodes(word, count, closing, eventSet);
  }

  ghost predicate NoEnter(steps: seq<Step>) {
    forall i :: 0 <= i < |steps| ==> !steps[i].Enter?
  }

  /** If nobody calls invoke once the close began, the assertion holds. */
  lemma {:induction false} CountIsZeroWithoutCallers(before: seq<Step>, t: Thread, more: seq<Step>)
    requires Runs(Init, before) && Enabled(After(Init, before), Close(t))
    requires Runs(Apply(After(Init, before), Close(t)), more) && NoEnter(more)
    requires At(After(Apply(After(Init, before), Close(t)), more), t, Closed)
    ensures After(Apply(After(Init, before), Close(t)), more).word % CLOSING == 0
  {
    InitHasInv();
    RunKeepsInv(Init, before);
    var s := After(Init, before);
    var s' := Apply(s, Close(t));
    if HasClosing(s.word) {
      RefusedCloseStays(s', more, t);
      assert false;
    }
    NoneRefusedStays(s', more);
    RunsAppend(Init, before, [Close(t)] + more);
    assert ([Close(t)] + more)[1..] == more;
    CountIsZeroExactly(before + ([Close(t)] + more), t);
  }

  lemma {:induction false} RefusedCloseStays(s: State, steps: seq<Step>, t: Thread)
    requires Runs(s, steps) && At(s, t, NotClosed)
    ensures At(After(s, steps), t, NotClosed)
    decreases |steps|
  {
    if steps != [] {
      RefusedCloseStays(Apply(s, steps[0]), steps[1..], t);
    }
  }

  lemma {:induction false} NoneRefusedStays(s: State, steps: seq<Step>)
    requires Runs(s, steps) && NoEnter(steps) && forall u :: !At(s, u, Refused)
    ensures forall u :: !At(After(s, steps), u, Refused)
    decreases |steps|
  {
    if steps != [] {
      var next, rest := Apply(s, steps[0]), steps[1..];
      assert !steps[0].Enter? && forall i :: 0 <= i < |rest| ==> rest[i] == steps[i + 1];
      forall u ensures !At(next, u, Refused) {
        assert !At(s, u, Refused);
      }
      NoneRefusedStays(next, rest);
    }
  }

  lemma {:induction false} RunsAppend(s: State, a: seq<Step>, b: seq<Step>)
    requires Runs(s, a) && Runs(After(s, a), b)
    ensures Runs(s, a + b) && After(s, a + b) == After(After(s, a), b)
    decreases |a|
  {
    if a == [] {
      assert a + b == b;
    } else {
      RunsAppend(Apply(s, a[0]), a[1..], b);
      assert (a + b)[1..] == a[1..] + b;
    }
  }

  /** The assertion after the wait, that the count is zero, does not hold on every run: a
      refused caller can be counted while the closer returns. */
  lemma RefusedCallerIsCounted()
    ensures exists steps :: Runs(Init, steps) && At(After(Init, steps), 0, Closed) && After(Init, steps).word % CLOSING != 0
  {
    var steps := [Close(0), Mark(0), Enter(1)];
    var s1 := Apply(Init, steps[0]);
    var s2 := Apply(s1, Mark(0));
    var s3 := Apply(s2, Enter(1));
    assert Counted(Init) == {} && Counted(s2) == {};
    assert HasClosing(s1.word) && s3.word == CLOSING + EVENT_SET + 1;
    assert steps[1..] == [Mark(0), Enter(1)];
    assert [Mark(0), Enter(1)][1..] == [Enter(1)] && [Enter(1)][1..] == [];
    assert Runs(s3, []) && After(s3, []) == s3;
    assert Runs(s2, [Enter(1)]) && After(s2, [Enter(1)]) == s3;
    assert Runs(s1, [Mark(0), Enter(1)]) && After(s1, [Mark(0), Enter(1)]) == s3;
    assert Runs(Init, steps) && After(Init, steps) == s3;
  }
}
