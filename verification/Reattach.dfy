/** Back-off of the attempts to attach a device again (drivers/ude/persistent.h,
    drivers/ude/persistent.cpp, drivers/ude/vhci.cpp). Delays are in seconds. */
module Reattach {
  import opened Words

  const HOUR := 3600
  const DEFAULT_FIRST_DELAY := 30
  const DEFAULT_MAX_DELAY := 480
  const DEFAULT_MAX_ATTEMPTS := 20
  const MIN_DELAY := 1
  const MAX_DELAY := HOUR
  const MAX_TOTAL_DELAY := 72 * HOUR

  // ---- delays

  /** get_next_delay; the product is taken in 64 bits. It stays on one second and grows from two. */
  function GetNextDelay(delay: nat, maxDelay: nat): (next: nat)
    requires 1 <= delay <= maxDelay
    ensures delay <= next <= maxDelay
    ensures next == delay <==> delay == 1 || delay == maxDelay
    ensures next > delay ==> next <= delay + delay / 2
    ensures next < maxDelay ==> 3 * delay - 1 <= 2 * next
  {
    if delay == maxDelay then delay
    else if 3 * delay / 2 < maxDelay then 3 * delay / 2 else maxDelay
  }

  /** The k-th delay of the back-off. */
  function Delay(first: nat, maxDelay: nat, k: nat): (d: nat)
    requires 1 <= first <= maxDelay
    ensures first <= d <= maxDelay
  {
    if k == 0 then first else GetNextDelay(Delay(first, maxDelay, k - 1), maxDelay)
  }

  /** The sum of the first n delays. */
  function Total(first: nat, maxDelay: nat, n: nat): nat
    requires 1 <= first <= maxDelay
  {
    if n == 0 then 0 else Total(first, maxDelay, n - 1) + Delay(first, maxDelay, n - 1)
  }

  lemma {:induction false} DelaysGrow(first: nat, maxDelay: nat, j: nat, k: nat)
    requires 1 <= first <= maxDelay && j <= k
    ensures Delay(first, maxDelay, j) <= Delay(first, maxDelay, k)
    decreases k
  {
    if j < k {
      DelaysGrow(first, maxDelay, j, k - 1);
    }
  }

  lemma {:induction false} TotalsGrow(first: nat, maxDelay: nat, j: nat, k: nat)
    requires 1 <= first <= maxDelay && j <= k
    ensures Total(first, maxDelay, k) >= Total(first, maxDelay, j) + (k - j)
    decreases k
  {
    if j < k {
      TotalsGrow(first, maxDelay, j, k - 1);
    }
  }

  lemma {:induction false} DelayReaches(first: nat, maxDelay: nat, k: nat)
    requires 2 <= first <= maxDelay
    ensures Delay(first, maxDelay, k) >= if first + k < maxDelay then first + k else maxDelay
  {
    if k > 0 {
      DelayReaches(first, maxDelay, k - 1);
    }
  }

  lemma {:induction false} OneSecondStays(maxDelay: nat, k: nat)
    requires 1 <= maxDelay
    ensures Delay(1, maxDelay, k) == 1
  {
    if k > 0 {
      OneSecondStays(maxDelay, k - 1);
    }
  }

  /** The back-off gets to the longest delay if and only if it does not start with a second; with a
      first delay of one second it never slows down. */
  lemma {:induction false} ReachesTheLongestDelay(first: nat, maxDelay: nat)
    requires 1 <= first <= maxDelay
    ensures (exists k :: Delay(first, maxDelay, k) == maxDelay) <==> first >= 2 || maxDelay == 1
  {
    if first == 1 {
      assert Delay(first, maxDelay, 0) == 1;
      forall k: nat ensures Delay(first, maxDelay, k) == 1 {
        OneSecondStays(maxDelay, k);
      }
    } else {
      DelayReaches(first, maxDelay, maxDelay);
    }
  }

  // ---- the number of attempts

  /** A sum of unsigned ints. */
  function Wrap(n: nat): (r: uint32)
    ensures n < TWO_32 ==> r == n
  {
    n % TWO_32
  }

  /** get_max_attach_attempts: the largest number of delays whose sum is within the limit. The sum
      is an unsigned int that never wraps. */
  method GetMaxAttachAttempts(first: nat, maxDelay: nat, maxTotal: nat) returns (cnt: nat)
    requires 1 <= first <= maxDelay && maxTotal + maxDelay < TWO_32
    ensures forall n: nat :: Total(first, maxDelay, n) <= maxTotal <==> n <= cnt
  {
    cnt := 0;
    var delay, total := first, 0;
    while true
      invariant total == Total(first, maxDelay, cnt) <= maxTotal
      invariant delay == Delay(first, maxDelay, cnt)
      decreases maxTotal - total
    {
      total := Wrap(total + delay);
      if total <= maxTotal {
        delay := GetNextDelay(delay, maxDelay);
      } else {
        break;
      }
      cnt := cnt + 1;
    }
    LargestCount(first, maxDelay, maxTotal, cnt);
  }

  lemma {:induction false} LargestCount(first: nat, maxDelay: nat, maxTotal: nat, cnt: nat)
    requires 1 <= first <= maxDelay
    requires Total(first, maxDelay, cnt) <= maxTotal < Total(first, maxDelay, cnt + 1)
    ensures forall n: nat :: Total(first, maxDelay, n) <= maxTotal <==> n <= cnt
  {
    forall n: nat ensures Total(first, maxDelay, n) <= maxTotal <==> n <= cnt {
      if n <= cnt {
        TotalsGrow(first, maxDelay, n, cnt);
      } else {
        TotalsGrow(first, maxDelay, cnt + 1, n);
      }
    }
  }

  /** The default number of attempts is what fits in two hours. */
  lemma DefaultAttempts(n: nat)
    ensures Total(DEFAULT_FIRST_DELAY, DEFAULT_MAX_DELAY, n) <= 2 * HOUR <==> n <= DEFAULT_MAX_ATTEMPTS
  {
    DefaultTotal(DEFAULT_MAX_ATTEMPTS);
    DefaultTotal(DEFAULT_MAX_ATTEMPTS + 1);
    if n <= DEFAULT_MAX_ATTEMPTS {
      TotalsGrow(DEFAULT_FIRST_DELAY, DEFAULT_MAX_DELAY, n, DEFAULT_MAX_ATTEMPTS);
    } else {
      TotalsGrow(DEFAULT_FIRST_DELAY, DEFAULT_MAX_DELAY, DEFAULT_MAX_ATTEMPTS + 1, n);
    }
  }

  /** The default delays are 30, 45, 67, 100, 150, 225, 337 and then always 480. */
  lemma {:induction false} DefaultTotal(n: nat)
    requires n >= 7
    ensures Delay(DEFAULT_FIRST_DELAY, DEFAULT_MAX_DELAY, n) == 480
    ensures Total(DEFAULT_FIRST_DELAY, DEFAULT_MAX_DELAY, n) == 954 + 480 * (n - 7)
  {
    var f, m := DEFAULT_FIRST_DELAY, DEFAULT_MAX_DELAY;
    if n == 7 {
      assert Delay(f, m, 1) == 45 && Total(f, m, 1) == 30;
      assert Delay(f, m, 2) == 67 && Total(f, m, 2) == 75;
      assert Delay(f, m, 3) == 100 && Total(f, m, 3) == 142;
      assert Delay(f, m, 4) == 150 && Total(f, m, 4) == 242;
      assert Delay(f, m, 5) == 225 && Total(f, m, 5) == 392;
      assert Delay(f, m, 6) == 337 && Total(f, m, 6) == 617;
    } else {
      DefaultTotal(n - 1);
    }
  }

  function Or(r: RegistryNumber, value: uint32): uint32 {
    if r.Absent? then value else r.value
  }

  function InRange(n: nat): (r: nat)
    ensures 1 <= r <= 3600 && (1 <= n <= 3600 ==> r == n)
    ensures n > 3600 ==> r == 3600
  {
    if n < MIN_DELAY then MIN_DELAY else if n > MAX_DELAY then MAX_DELAY else n
  }

  function Bounded(n: nat, default: nat): (r: nat)
    ensures n == 0 ==> r == default
    ensures 1 <= n <= 3600 ==> r == n
    ensures n > 3600 ==> r == 3600
  {
    if n != 0 then InRange(n) else default
  }

  datatype Constants = Constants(maxAttempts: nat, firstDelay: nat, maxDelay: nat)

  ghost predicate Sound(c: Constants) {
    && MIN_DELAY <= c.firstDelay <= c.maxDelay <= MAX_DELAY
    && Total(c.firstDelay, c.maxDelay, c.maxAttempts) <= MAX_TOTAL_DELAY
  }

  /** init_constants; was is what the constants were before. */
  method InitConstants(keyOpens: bool, attempts: RegistryNumber, first: RegistryNumber, max: RegistryNumber,
                       was: Constants)
    returns (c: Constants)
    requires was.maxAttempts < TWO_32 && was.firstDelay < TWO_32 && was.maxDelay < TWO_32
    ensures Sound(c)
    ensures !keyOpens ==> c == Constants(20, 30, 480)
    ensures keyOpens ==>
      var f, m := Bounded(Or(first, was.firstDelay), DEFAULT_FIRST_DELAY), Bounded(Or(max, was.maxDelay), DEFAULT_MAX_DELAY);
      c.firstDelay == (if f <= m then f else m) && c.maxDelay == (if f <= m then m else f)
    ensures keyOpens ==>
      var n := Or(attempts, was.maxAttempts);
      c.maxAttempts <= n && (c.maxAttempts < n ==> Total(c.firstDelay, c.maxDelay, c.maxAttempts + 1) > MAX_TOTAL_DELAY)
  {
    if !keyOpens {
      DefaultAttempts(DEFAULT_MAX_ATTEMPTS);
      return Constants(DEFAULT_MAX_ATTEMPTS, DEFAULT_FIRST_DELAY, DEFAULT_MAX_DELAY);
    }
    var maxAttempts, firstDelay, maxDelay := Or(attempts, was.maxAttempts), Or(first, was.firstDelay), Or(max, was.maxDelay);
    firstDelay := if firstDelay != 0 then InRange(firstDelay) else DEFAULT_FIRST_DELAY;
    maxDelay := if maxDelay != 0 then InRange(maxDelay) else DEFAULT_MAX_DELAY;
    if firstDelay > maxDelay {
      firstDelay, maxDelay := maxDelay, firstDelay;
    }
    var n := GetMaxAttachAttempts(firstDelay, maxDelay, MAX_TOTAL_DELAY);
    if maxAttempts > n {
      maxAttempts := n;
    }
    return Constants(maxAttempts, firstDelay, maxDelay);
  }

  // ---- the attempts

  /** What became of one attempt: whether it failed, whether the failure allows another one, whether
      the controller is being removed, and whether the request can be used again. */
  datatype Outcome = Outcome(failed: bool, canReattach: bool, removing: bool, reuses: bool)

  /** attach_ctx, with the delays of all timers that were started as history; the fixed delay of a
      delayed start is not among them. */
  datatype Attempts = Attempts(retryCnt: nat, delay: nat, timers: seq<nat>)

  function Start(c: Constants, delayed: bool): Attempts {
    Attempts(if delayed then 1 else 0, c.firstDelay, [])
  }

  predicate Retries(c: Constants, a: Attempts, o: Outcome) {
    o.failed && a.retryCnt < c.maxAttempts && o.canReattach && !o.removing && o.reuses
  }

  function Completed(c: Constants, a: Attempts, o: Outcome): Attempts
    requires 1 <= a.delay <= c.maxDelay
  {
    if Retries(c, a, o) then Attempts(a.retryCnt + 1, GetNextDelay(a.delay, c.maxDelay), a.timers + [a.delay])
    else a.(retryCnt := a.retryCnt + 1)
  }

  class AttachCtx {
    var retryCnt: nat
    var delay: nat
    var timers: seq<nat>

    ghost function View(): Attempts
      reads this
    {
      Attempts(retryCnt, delay, timers)
    }

    /** init_attach_ctx, and start_attach_attempts */
    constructor (c: Constants, delayed: bool)
      ensures View() == Start(c, delayed)
    {
      retryCnt, delay, timers := 0, c.firstDelay, [];
      new;
      if delayed {
        retryCnt := retryCnt + 1;
      }
    }

    /** on_plugin_hardware; the request is deleted unless a timer starts. */
    method OnPluginHardware(c: Constants, o: Outcome) returns (timer: bool)
      requires 1 <= delay <= c.maxDelay
      modifies this
      ensures timer <==> Retries(c, old(View()), o)
      ensures old(1 <= delay) && old(delay) <= c.maxDelay && View() == Completed(c, old(View()), o)
    {
      var cnt := retryCnt;
      retryCnt := retryCnt + 1;
      var retry := o.failed && cnt < c.maxAttempts && o.canReattach;
      if !(retry && !o.removing) {
        return false;
      }
      if !o.reuses {
        return false;
      }
      var d := delay;
      delay := GetNextDelay(d, c.maxDelay);
      timers := timers + [d];
      return true;
    }
  }

  /** The timers so far are the first delays of the back-off, not more than there are attempts. */
  ghost predicate Inv(c: Constants, a: Attempts) {
    && Sound(c) && |a.timers| <= a.retryCnt && |a.timers| <= c.maxAttempts
    && a.delay == Delay(c.firstDelay, c.maxDelay, |a.timers|)
    && forall k :: 0 <= k < |a.timers| ==> a.timers[k] == Delay(c.firstDelay, c.maxDelay, k)
  }

  lemma {:induction false} StepKeepsInv(c: Constants, a: Attempts, o: Outcome)
    requires Inv(c, a)
    ensures Inv(c, Completed(c, a, o))
  {
  }

  /** The attempts go on as long as a timer is started. */
  ghost predicate Runs(c: Constants, a: Attempts, outcomes: seq<Outcome>)
    requires Inv(c, a)
    decreases |outcomes|
  {
    outcomes == [] || (
      StepKeepsInv(c, a, outcomes[0]);
      (Retries(c, a, outcomes[0]) || |outcomes| == 1) && Runs(c, Completed(c, a, outcomes[0]), outcomes[1..]))
  }

  ghost function After(c: Constants, a: Attempts, outcomes: seq<Outcome>): Attempts
    requires Inv(c, a) && Runs(c, a, outcomes)
    decreases |outcomes|
  {
    if outcomes == [] then a
    else
      StepKeepsInv(c, a, outcomes[0]);
      After(c, Completed(c, a, outcomes[0]), outcomes[1..])
  }

  lemma {:induction false} RunKeepsInv(c: Constants, a: Attempts, outcomes: seq<Outcome>)
    requires Inv(c, a) && Runs(c, a, outcomes)
    ensures Inv(c, After(c, a, outcomes))
    ensures |outcomes| <= |After(c, a, outcomes).timers| - |a.timers| + 1
    decreases |outcomes|
  {
    if outcomes != [] {
      StepKeepsInv(c, a, outcomes[0]);
      RunKeepsInv(c, Completed(c, a, outcomes[0]), outcomes[1..]);
    }
  }

  function Sum(s: seq<nat>): nat {
    if s == [] then 0 else Sum(s[..|s| - 1]) + s[|s| - 1]
  }

  lemma {:induction false} SumIsTotal(s: seq<nat>, first: nat, maxDelay: nat)
    requires 1 <= first <= maxDelay
    requires forall k :: 0 <= k < |s| ==> s[k] == Delay(first, maxDelay, k)
    ensures Sum(s) == Total(first, maxDelay, |s|)
  {
    if s != [] {
      SumIsTotal(s[..|s| - 1], first, maxDelay);
    }
  }

  /** On every run, whatever the outcomes: the run ends, with at most one attempt more than there may
      be timers; the timers never get shorter, each is between the first and the longest delay, and
      together they take 72 hours at most. */
  lemma {:induction false} EveryRun(c: Constants, delayed: bool, outcomes: seq<Outcome>)
    requires Sound(c) && Runs(c, Start(c, delayed), outcomes)
    ensures var timers := After(c, Start(c, delayed), outcomes).timers;
      && |outcomes| <= |timers| + 1 <= c.maxAttempts + 1
      && (forall j, k :: 0 <= j <= k < |timers| ==> c.firstDelay <= timers[j] <= timers[k] <= c.maxDelay)
      && Sum(timers) <= 72 * 3600
  {
    var a := Start(c, delayed);
    RunKeepsInv(c, a, outcomes);
    var timers := After(c, a, outcomes).timers;
    forall j, k | 0 <= j <= k < |timers| ensures c.firstDelay <= timers[j] <= timers[k] <= c.maxDelay {
      DelaysGrow(c.firstDelay, c.maxDelay, j, k);
    }
    SumIsTotal(timers, c.firstDelay, c.maxDelay);
    TotalsGrow(c.firstDelay, c.maxDelay, |timers|, c.maxAttempts);
  }

  /** Whether another attempt may follow one that ended so. */
  predicate MayFollow(o: Outcome) {
    o.failed && o.canReattach && !o.removing && o.reuses
  }

  /** Attempts were left before each outcome but the first, when `before` attempts count already. */
  ghost predicate AllFollowed(c: Constants, before: nat, outcomes: seq<Outcome>) {
    forall i :: 0 <= i < |outcomes| - 1 ==> MayFollow(outcomes[i]) && before + i < c.maxAttempts
  }

  lemma {:induction false} TimersFollow(c: Constants, a: Attempts, outcomes: seq<Outcome>)
    requires Inv(c, a) && Runs(c, a, outcomes) && outcomes != []
    ensures AllFollowed(c, a.retryCnt, outcomes)
    ensures var last := |outcomes| - 1;
      |After(c, a, outcomes).timers|
        == |a.timers| + last + if MayFollow(outcomes[last]) && a.retryCnt + last < c.maxAttempts then 1 else 0
    decreases |outcomes|
  {
    hide AllFollowed, GetNextDelay;
    var next, rest := Completed(c, a, outcomes[0]), outcomes[1..];
    StepKeepsInv(c, a, outcomes[0]);
    if rest == [] {
      assert After(c, next, rest) == next;
      LastFollows(c, a.retryCnt, outcomes);
    } else {
      TimersFollow(c, next, rest);
      assert Retries(c, a, outcomes[0]);
      OneFollowed(c, a.retryCnt, outcomes);
    }
  }

  lemma LastFollows(c: Constants, before: nat, outcomes: seq<Outcome>)
    requires |outcomes| == 1
    ensures AllFollowed(c, before, outcomes)
  {
  }

  lemma OneFollowed(c: Constants, before: nat, outcomes: seq<Outcome>)
    requires outcomes != [] && MayFollow(outcomes[0]) && before < c.maxAttempts && AllFollowed(c, before + 1, outcomes[1..])
    ensures AllFollowed(c, before, outcomes)
  {
    forall i | 0 <= i < |outcomes| - 1 ensures MayFollow(outcomes[i]) && before + i < c.maxAttempts {
      assert i > 0 ==> outcomes[i] == outcomes[1..][i - 1];
    }
  }

  /** On every run there was another attempt only after one that failed, for a reason that another one can change,
      while the controller stays and the request could be used again, and while attempts were left; a delayed start
      counts as one. The number of timers tells whether one is running after the last outcome. */
  lemma {:induction false} TimerExactly(c: Constants, delayed: bool, outcomes: seq<Outcome>)
    requires Sound(c) && Runs(c, Start(c, delayed), outcomes) && outcomes != []
    ensures var last, before := |outcomes| - 1, if delayed then 1 else 0;
      && AllFollowed(c, before, outcomes)
      && |After(c, Start(c, delayed), outcomes).timers|
         == if MayFollow(outcomes[last]) && before + last < c.maxAttempts then last + 1 else last
  {
    hide Runs, After, AllFollowed, Sound;
    TimersFollow(c, Start(c, delayed), outcomes);
  }
}
