/** Histories of what has been handed over, and of what the bus has seen. */
module Histories {

  lemma Regroup<T>(a: seq<T>, b: seq<T>, c: seq<T>)
    ensures (a + b) + c == a + (b + c)
  {}

  /** At most one item handed over extends the slice handed over later. */
  lemma PrependSlice<T>(h: seq<T>, a: nat, b: nat, c: nat, v: seq<T>)
    requires a <= b <= c <= |v| && b == a + |h|
    requires |h| <= 1 && (h != [] ==> h == [v[a]])
    ensures h + v[b..c] == v[a..c]
  {}

  /**
   Requests, named by their place among all accepted ones, in the order the slave took them: each at most once, all
   below bound, and the last m, which it has not answered, are those from mid on.
   */
  ghost predicate InOrder(issued: seq<nat>, bound: int, mid: nat, m: int) {
    && 0 <= m <= |issued|
    && (forall j :: 0 <= j < |issued| ==> issued[j] < bound)
    && (forall j, k :: 0 <= j < k < |issued| ==> issued[j] < issued[k])
    && (forall j :: |issued| - m <= j < |issued| ==> issued[j] == mid + j - (|issued| - m))
  }

  /**
   One clock: the slave may take the next request and may answer the oldest open one; or all open ones are dropped.
   */
  lemma ClockKeepsOrder(issued: seq<nat>, bound: nat, mid: nat, m: int, takes: bool,
                        after: seq<nat>, higher: int, later: nat, open: int)
    requires InOrder(issued, bound, mid, m) && (takes ==> bound == mid + m)
    requires after == if takes then issued + [bound] else issued
    requires higher >= if takes then bound + 1 else bound
    requires var n := if takes then m + 1 else m;
      open == 0 || (open == n && later == mid) || (open == n - 1 && later == mid + 1)
    requires open >= 0
    ensures InOrder(after, higher, later, open)
  {}

  /** The 32-bit word that holds a byte address. */
  predicate IsWordOf(word: nat, addr: nat) { 4 * word <= addr < 4 * word + 4 }

  ghost predicate WordsOf(words: seq<nat>, addrs: seq<nat>) {
    |words| == |addrs| && forall k :: 0 <= k < |words| ==> IsWordOf(words[k], addrs[k])
  }

  /** How far a count is from reaching k. */
  function Short(k: nat, count: int): nat { if count < k then k - count else 0 }
}
