/**
 The wrap-around pointers of the bridges' FIFOs: registers of LGFIFO + 1 bits that count modulo twice the depth
 cap = 2^LGFIFO. The low bits name the slot, the top bit the lap.
 */
module Pointers {
  import opened Powers

  /** The register value of an unbounded count. */
  function Ptr(cap: nat, n: nat): (p: nat)
    requires cap > 0
    ensures p < 2 * cap
  {
    if n < 2 * cap then n else Ptr(cap, n - 2 * cap)
  }

  /** p + 1'b1 */
  function NextPtr(cap: nat, p: nat): nat
    requires cap > 0
  {
    if p + 1 == 2 * cap then 0 else p + 1
  }

  /** p - 1'b1 */
  function PrevPtr(cap: nat, p: nat): nat
    requires cap > 0
  {
    if p == 0 then 2 * cap - 1 else p - 1
  }

  /** p[LGFIFO-1:0] */
  function Slot(cap: nat, p: nat): nat {
    if p < cap then p else p - cap
  }

  /** p[LGFIFO] */
  predicate Lap(cap: nat, p: nat) { p >= cap }

  /** How often a count has passed the end of the buffer. */
  function LapOf(cap: nat, n: nat): nat
    requires cap > 0
  {
    if n < cap then 0 else 1 + LapOf(cap, n - cap)
  }

  lemma {:induction false} PtrIsRemainder(cap: nat, n: nat, d: nat)
    requires cap > 0 && d == 2 * cap
    ensures Ptr(cap, n) == n % d
    decreases n
  {
    if n < d {
      RemainderUnique(n, d, 0, n);
    } else {
      PtrIsRemainder(cap, n - d, d);
      NextLap(n - d, d);
    }
  }

  lemma {:induction false} NextIsSuccessor(cap: nat, n: nat)
    requires cap > 0
    ensures NextPtr(cap, Ptr(cap, n)) == Ptr(cap, n + 1)
  {
    if n >= 2 * cap { NextIsSuccessor(cap, n - 2 * cap); }
  }

  /** Counts less than two laps apart have equal pointers only when they are equal. */
  lemma {:induction false} EqualPointers(cap: nat, a: nat, b: nat)
    requires cap > 0 && a < b + 2 * cap && b < a + 2 * cap
    ensures Ptr(cap, a) == Ptr(cap, b) <==> a == b
  {
    if a >= 2 * cap && b >= 2 * cap { EqualPointers(cap, a - 2 * cap, b - 2 * cap); }
  }

  /** Counts less than one lap apart use different slots. */
  lemma {:induction false} SlotsDiffer(cap: nat, a: nat, b: nat)
    requires cap > 0 && a < b < a + cap
    ensures Slot(cap, Ptr(cap, a)) != Slot(cap, Ptr(cap, b))
  {
    if a >= 2 * cap { SlotsDiffer(cap, a - 2 * cap, b - 2 * cap); }
  }

  /** Same slot on different laps, as the RTL tests for a full FIFO. */
  predicate LooksFull(cap: nat, first: nat, last: nat) {
    Slot(cap, first) == Slot(cap, last) && Lap(cap, first) != Lap(cap, last)
  }

  lemma {:induction false} LooksFullMeansFull(cap: nat, a: nat, b: nat)
    requires cap > 0 && a <= b <= a + cap
    ensures LooksFull(cap, Ptr(cap, b), Ptr(cap, a)) <==> b == a + cap
  {
    if a >= 2 * cap { LooksFullMeansFull(cap, a - 2 * cap, b - 2 * cap); }
  }

  /** Different slots on the same lap: the stricter test behind the write bridge's ready flags. */
  predicate LooksRoomy(cap: nat, first: nat, last: nat) {
    Slot(cap, first) != Slot(cap, last) && Lap(cap, first) == Lap(cap, last)
  }

  lemma TwoLaps(cap: nat, n: nat)
    requires cap > 0 && n >= 2 * cap
    ensures LapOf(cap, n) == 2 + LapOf(cap, n - 2 * cap)
  {
    var m := n - cap;
    assert LapOf(cap, n) == 1 + LapOf(cap, m) && LapOf(cap, m) == 1 + LapOf(cap, m - cap);
  }

  /** It holds exactly when the two counts lie in the same lap, so it also fails on FIFOs that are not full. */
  lemma {:induction false} LooksRoomyMeansSameLap(cap: nat, a: nat, b: nat)
    requires cap > 0 && a < b <= a + cap
    ensures LooksRoomy(cap, Ptr(cap, b), Ptr(cap, a)) <==> LapOf(cap, a) == LapOf(cap, b)
    ensures LapOf(cap, a) == LapOf(cap, b) ==> b < a + cap
  {
    if a >= 2 * cap {
      LooksRoomyMeansSameLap(cap, a - 2 * cap, b - 2 * cap);
      TwoLaps(cap, a);
      TwoLaps(cap, b);
    } else {
      assert LapOf(cap, b) == if b < cap then 0 else 1 + LapOf(cap, b - cap);
      assert b >= cap ==> LapOf(cap, b - cap) == if b < 2 * cap then 0 else 1 + LapOf(cap, b - 2 * cap);
    }
  }
}
