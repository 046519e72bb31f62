/** Sequence numbers of USB/IP commands (drivers/ude/context.cpp, context.h).

    A sequence number is a 32-bit word. Its low bit carries the transfer direction
    (0 is OUT, 1 is IN), the remaining 31 bits carry a number that is never zero. */
module Seqnum {
  import opened Words

  /** How many different non-zero 31-bit numbers there are. */
  const PERIOD: int := TWO_31 - 1

  function ExtractNum(seqnum: uint32): uint32 {
    seqnum / 2
  }

  predicate ExtractDirIn(seqnum: uint32) {
    seqnum % 2 == 1
  }

  predicate IsValid(seqnum: uint32) {
    ExtractNum(seqnum) != 0
  }

  /** The number part of the sequence number that a zero-initialised counter issues
      at its `index`-th call, counting from zero. */
  function Number(index: nat): uint32 {
    index % PERIOD + 1
  }

  /** The whole sequence number issued at the `index`-th call. */
  function Issued(index: nat, dirIn: bool): (seqnum: uint32)
    ensures IsValid(seqnum) && ExtractNum(seqnum) == Number(index) && ExtractDirIn(seqnum) == dirIn
  {
    2 * Number(index) + (if dirIn then 1 else 0)
  }

  /** Incrementing the word increments its low 31 bits, and shifting drops the top bit. */
  lemma IncrementLow(x: uint32)
    ensures (x + 1) % TWO_32 % TWO_31 == (x % TWO_31 + 1) % TWO_31
    ensures (x + 1) % TWO_32 * 2 % TWO_32 == 2 * ((x % TWO_31 + 1) % TWO_31)
  {
    var high, low := x / TWO_31, x % TWO_31;
    assert x == high * TWO_31 + low && 0 <= high < 2;
  }

  /** The low 31 bits of the counter after `issued` successful calls. */
  ghost predicate Tracks(low: int, issued: nat) {
    low == issued % PERIOD || (low == PERIOD && issued % PERIOD == 0)
  }

  lemma NextTracks(low: int, issued: nat)
    requires Tracks(low, issued)
    ensures low == PERIOD ==> Tracks(0, issued)
    ensures low != PERIOD ==> low + 1 == Number(issued) && Tracks(low + 1, issued + 1)
  {
    assert (issued + 1) % PERIOD == if issued % PERIOD + 1 == PERIOD then 0 else issued % PERIOD + 1;
  }

  /** What an increment of the word and the shift of its result give. */
  lemma OneTick(x: uint32, issued: nat, dirIn: bool)
    requires Tracks(x % TWO_31, issued)
    ensures var y := (x + 1) % TWO_32;
      var num := y * 2 % TWO_32;
      && (num == 0 ==> x % TWO_31 == PERIOD && y % TWO_31 == 0 && Tracks(y % TWO_31, issued))
      && (num != 0 ==> Tracks(y % TWO_31, issued + 1) && num + (if dirIn then 1 else 0) == Issued(issued, dirIn))
  {
    hide Tracks, Number;
    IncrementLow(x);
    var low := x % TWO_31;
    assert (low + 1) % TWO_31 == if low == PERIOD then 0 else low + 1;
    NextTracks(low, issued);
  }

  /** The interlocked 32-bit counter device_ctx::seqnum. */
  class Counter {
    var seqnum: uint32
    ghost var issued: nat  // successful calls so far

    ghost predicate Valid()
      reads this
    {
      Tracks(seqnum % TWO_31, issued)
    }

    constructor ()
      ensures Valid() && issued == 0
    {
      seqnum, issued := 0, 0;
    }

    /** One interlocked increment and the shift of its result. This is the unit of
        interleaving: calls of several threads are sequences of these steps. */
    method Tick(dirIn: bool) returns (num: uint32)
      requires Valid()
      modifies this
      ensures Valid()
      ensures num == 0 ==> issued == old(issued) && old(seqnum) % TWO_31 == PERIOD && seqnum % TWO_31 == 0
      ensures num != 0 ==> num == Issued(old(issued), dirIn) && issued == old(issued) + 1
    {
      hide Tracks, Issued;
      OneTick(seqnum, issued, dirIn);
      seqnum := (seqnum + 1) % TWO_32;
      num := seqnum * 2 % TWO_32;
      if num != 0 {
        num := num + if dirIn then 1 else 0;
        issued := issued + 1;
      }
    }

    /** next_seqnum: retries the increment while the 31-bit number is zero. */
    method Next(dirIn: bool) returns (num: uint32)
      requires Valid()
      modifies this
      ensures Valid() && issued == old(issued) + 1
      ensures num == Issued(old(issued), dirIn)
    {
      while true
        invariant Valid() && issued == old(issued)
        decreases if seqnum % TWO_31 == 0 then 0 else 1
      {
        num := Tick(dirIn);
        if num != 0 {
          return;
        }
      }
    }
  }

  /** Two issued sequence numbers collide exactly when they have the same direction and
      their calls are a whole number of periods apart. */
  lemma {:induction false} SameSeqnum(j: nat, k: nat, jIn: bool, kIn: bool)
    ensures Issued(j, jIn) == Issued(k, kIn) <==> jIn == kIn && j % PERIOD == k % PERIOD
  {
    assert ExtractNum(Issued(j, jIn)) == Number(j) && ExtractNum(Issued(k, kIn)) == Number(k);
    assert ExtractDirIn(Issued(j, jIn)) == jIn && ExtractDirIn(Issued(k, kIn)) == kIn;
  }

  /** Any PERIOD consecutive calls issue pairwise distinct numbers, whatever their
      directions. */
  lemma {:induction false} DistinctWithinPeriod(j: nat, k: nat)
    requires j < k < j + PERIOD
    ensures Number(j) != Number(k)
  {
  }
}
