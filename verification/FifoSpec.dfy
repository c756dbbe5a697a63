/**
 The dual-clock FIFO as an unbounded queue seen through stale counts. Pointers count without wrapping; each side
 knows only an older value of the other side's pointer, and each flag is computed one edge ahead from that value.
 A write with `full` high or a read with `empty` high is outside the contract (lines 117-118 of the source).
 */
module FifoSpec {
  import opened Histories

  datatype Queue<T> = Queue(
    written: seq<T>,   // every word ever written; its length is the write pointer
    rp: nat,           // words popped so far
    wpSeen: nat,       // the write pointer held by the read side
    rpSeen: nat,       // the read pointer held by the write side
    ra: nat,           // the index latched by the memory's read port
    full: bool,
    empty: bool)
  {
    function Wp(): nat { |written| }
    function WrittenAfter(we: bool, din: T): seq<T> { if we then written + [din] else written }
    function WpAfter(we: bool): nat { if we then Wp() + 1 else Wp() }
    function RpAfter(re: bool): nat { if re then rp + 1 else rp }
  }

  /** A clock edge on one side, or on both at once; in the latter case each sample may catch the old or new pointer. */
  datatype Edge<T> =
    | Write(we: bool, din: T)
    | Read(re: bool)
    | Both(we: bool, din: T, re: bool, newWpSeen: bool, newRpSeen: bool)
  {
    predicate Pushes() { !Read? && we }
    predicate Pops() { !Write? && re }
    function Word(): seq<T> { if Pushes() then [din] else [] }
  }

  function Reset<T>(): Queue<T> {
    Queue([], 0, 0, 0, 0, false, true)
  }

  predicate FullNext<T>(q: Queue<T>, cap: nat, we: bool) {
    q.Wp() == q.rpSeen + cap || (we && q.Wp() + 1 == q.rpSeen + cap)
  }

  predicate EmptyNext<T>(q: Queue<T>, re: bool) {
    q.wpSeen == q.rp || (re && q.wpSeen == q.rp + 1)
  }

  /** n agrees with q after its write side has ticked with this sample. */
  ghost predicate WriterAdvances<T>(q: Queue<T>, cap: nat, we: bool, din: T, sample: nat, n: Queue<T>) {
    n.written == q.WrittenAfter(we, din) && n.rpSeen == sample && n.full == FullNext(q, cap, we)
  }

  ghost predicate ReaderAdvances<T>(q: Queue<T>, re: bool, sample: nat, n: Queue<T>) {
    n.rp == q.RpAfter(re) && n.wpSeen == sample && n.ra == q.rp && n.empty == EmptyNext(q, re)
  }

  function WriteSide<T>(q: Queue<T>, cap: nat, we: bool, din: T, rpSample: nat): Queue<T> {
    q.(written := q.WrittenAfter(we, din),
       rpSeen := rpSample,
       full := FullNext(q, cap, we))
  }

  function ReadSide<T>(q: Queue<T>, re: bool, wpSample: nat): Queue<T> {
    q.(rp := if re then q.rp + 1 else q.rp,
       wpSeen := wpSample,
       ra := q.rp,
       empty := EmptyNext(q, re))
  }

  function Step<T>(q: Queue<T>, cap: nat, e: Edge<T>): Queue<T> {
    match e
    case Write(we, din) => WriteSide(q, cap, we, din, q.rp)
    case Read(re) => ReadSide(q, re, q.Wp())
    case Both(we, din, re, newWp, newRp) =>
      var rpSample := q.RpAfter(newRp && re);
      var wpSample := q.WpAfter(newWp && we);
      ReadSide(WriteSide(q, cap, we, din, rpSample), re, wpSample)
  }

  /** The caller's obligation on one edge. */
  predicate Allowed<T>(q: Queue<T>, e: Edge<T>) {
    (e.Pushes() ==> !q.full) && (e.Pops() ==> !q.empty)
  }

  ghost predicate Inv<T>(q: Queue<T>, cap: nat) {
    && q.rpSeen <= q.rp <= q.wpSeen <= q.Wp() <= q.rpSeen + cap
    && q.ra <= q.rp <= q.ra + 1
    && (!q.empty ==> q.rp < q.wpSeen)
    && (!q.full ==> q.Wp() < q.rpSeen + cap)
  }

  lemma StepKeepsInv<T>(q: Queue<T>, cap: nat, e: Edge<T>)
    requires Inv(q, cap) && Allowed(q, e)
    ensures Inv(Step(q, cap, e), cap)
  {}

  lemma BothAdvance<T>(q: Queue<T>, cap: nat, we: bool, din: T, re: bool, newWp: bool, newRp: bool)
    ensures var n := Step(q, cap, Both(we, din, re, newWp, newRp));
            && WriterAdvances(q, cap, we, din, q.RpAfter(newRp && re), n)
            && ReaderAdvances(q, re, q.WpAfter(newWp && we), n)
  {}

  // ----- Whole runs -----

  function Run<T>(q: Queue<T>, cap: nat, es: seq<Edge<T>>): Queue<T>
    decreases |es|
  {
    if |es| == 0 then q else Run(Step(q, cap, es[0]), cap, es[1..])
  }

  predicate RunAllowed<T>(q: Queue<T>, cap: nat, es: seq<Edge<T>>)
    decreases |es|
  {
    |es| == 0 || (Allowed(q, es[0]) && RunAllowed(Step(q, cap, es[0]), cap, es[1..]))
  }

  /** The words handed in, in order. */
  function Pushed<T>(es: seq<Edge<T>>): seq<T> {
    if |es| == 0 then [] else es[0].Word() + Pushed(es[1..])
  }

  /** The words handed out, in order: each pop takes the queue's oldest word. */
  function Popped<T>(q: Queue<T>, cap: nat, es: seq<Edge<T>>): seq<T>
    decreases |es|
  {
    if |es| == 0 then []
    else (if es[0].Pops() && q.rp < q.Wp() then [q.written[q.rp]] else []) + Popped(Step(q, cap, es[0]), cap, es[1..])
  }

  function Pops<T>(es: seq<Edge<T>>): nat {
    if |es| == 0 then 0 else (if es[0].Pops() then 1 else 0) + Pops(es[1..])
  }

  lemma StepWrites<T>(q: Queue<T>, cap: nat, e: Edge<T>)
    ensures Step(q, cap, e).written == q.written + e.Word()
    ensures Step(q, cap, e).rp == q.rp + if e.Pops() then 1 else 0
  {}

  lemma {:induction false} RunKeepsInv<T>(q: Queue<T>, cap: nat, es: seq<Edge<T>>)
    requires Inv(q, cap) && RunAllowed(q, cap, es)
    ensures var r := Run(q, cap, es);
            && Inv(r, cap)
            && r.written == q.written + Pushed(es)
            && r.rp == q.rp + Pops(es)
    decreases |es|
  {
    if |es| > 0 {
      var n := Step(q, cap, es[0]);
      StepKeepsInv(q, cap, es[0]);
      RunKeepsInv(n, cap, es[1..]);
      StepWrites(q, cap, es[0]);
      Regroup(q.written, es[0].Word(), Pushed(es[1..]));
    } else {
      assert q.written + Pushed(es) == q.written;
    }
  }

  /** For every interleaving of edges, from any reachable queue: pops hand out the pushed words in order. */
  lemma {:induction false} RunPopsInOrder<T>(q: Queue<T>, cap: nat, es: seq<Edge<T>>)
    requires Inv(q, cap) && RunAllowed(q, cap, es)
    ensures var r := Run(q, cap, es);
            q.rp <= r.rp <= r.Wp() && Popped(q, cap, es) == r.written[q.rp..r.rp]
    decreases |es|
  {
    RunKeepsInv(q, cap, es);
    if |es| > 0 {
      var n, r := Step(q, cap, es[0]), Run(q, cap, es);
      StepKeepsInv(q, cap, es[0]);
      RunPopsInOrder(n, cap, es[1..]);
      if es[0].Pops() {
        PrependSlice([r.written[q.rp]], q.rp, n.rp, r.rp, r.written);
      }
    }
  }

  /** From reset: what comes out is a prefix of what went in, short of it by at most the depth. */
  lemma FifoOrder<T>(cap: nat, es: seq<Edge<T>>)
    requires cap > 0
    requires RunAllowed(Reset(), cap, es)
    ensures var ins, outs := Pushed(es), Popped(Reset(), cap, es);
            |outs| == Pops(es) <= |ins| <= |outs| + cap && outs == ins[..|outs|]
  {
    RunKeepsInv(Reset<T>(), cap, es);
    RunPopsInOrder(Reset<T>(), cap, es);
    assert Run(Reset(), cap, es).written == Pushed(es);
  }

  // ----- Flags -----

  /** After every edge each flag is high exactly when the pointer behind it has come up to what the side had seen. */
  lemma FlagsFollowPointers<T>(q: Queue<T>, cap: nat, e: Edge<T>)
    requires Inv(q, cap) && Allowed(q, e)
    ensures !e.Write? ==> (Step(q, cap, e).empty <==> Step(q, cap, e).rp == q.wpSeen)
    ensures !e.Read? ==> (Step(q, cap, e).full <==> Step(q, cap, e).Wp() == q.rpSeen + cap)
  {}

  /** Each edge brings its side the other side's pointer; when both edges fall together, the old or the new one. */
  lemma SamplesAreFresh<T>(q: Queue<T>, cap: nat, e: Edge<T>)
    ensures var n := Step(q, cap, e);
            && (e.Read? ==> n.wpSeen == q.Wp() && n.rpSeen == q.rpSeen && n.full == q.full)
            && (e.Write? ==> n.rpSeen == q.rp && n.wpSeen == q.wpSeen && n.empty == q.empty)
            && (e.Both? ==> n.wpSeen == if e.newWpSeen then n.Wp() else q.Wp())
            && (e.Both? ==> n.rpSeen == if e.newRpSeen then n.rp else q.rp)
            && (e.Write? ==> n.ra == q.ra) && (!e.Write? ==> n.ra == q.rp)
  {}

  /** The read edges on which the reader pops whenever it may. */
  function EagerReads<T>(q: Queue<T>, cap: nat, es: seq<Edge<T>>): nat
    decreases |es|
  {
    if |es| == 0 then 0
    else (if !es[0].Write? && (es[0].re || q.empty) then 1 else 0) + EagerReads(Step(q, cap, es[0]), cap, es[1..])
  }

  function EagerWrites<T>(q: Queue<T>, cap: nat, es: seq<Edge<T>>): nat
    decreases |es|
  {
    if |es| == 0 then 0
    else (if !es[0].Read? && (es[0].we || q.full) then 1 else 0) + EagerWrites(Step(q, cap, es[0]), cap, es[1..])
  }

  /** Read edges until word number k - 1 is out: one each, one to see the pointer, one for the flag. */
  function ReadsOwed<T>(q: Queue<T>, k: nat): nat {
    if q.rp >= k then 0 else k - q.rp + if q.wpSeen < k then 2 else if q.empty then 1 else 0
  }

  function WritesOwed<T>(q: Queue<T>, cap: nat, j: nat): nat {
    if q.Wp() >= j + cap then 0 else j + cap - q.Wp() + if q.rpSeen < j then 2 else if q.full then 1 else 0
  }

  lemma ReadsOwedFall<T>(q: Queue<T>, cap: nat, e: Edge<T>, k: nat)
    requires Inv(q, cap) && Allowed(q, e) && k <= q.Wp()
    ensures var n := Step(q, cap, e);
            && k <= n.Wp() && ReadsOwed(n, k) <= ReadsOwed(q, k)
            && (!e.Write? && (e.re || q.empty) && q.rp < k ==> ReadsOwed(n, k) < ReadsOwed(q, k))
  {}

  lemma WritesOwedFall<T>(q: Queue<T>, cap: nat, e: Edge<T>, j: nat)
    requires Inv(q, cap) && Allowed(q, e) && j <= q.rp
    ensures var n := Step(q, cap, e);
            && j <= n.rp && WritesOwed(n, cap, j) <= WritesOwed(q, cap, j)
            && (!e.Read? && (e.we || q.full) && q.Wp() < j + cap ==> WritesOwed(n, cap, j) < WritesOwed(q, cap, j))
  {}

  lemma {:induction false} ReadsOwedArePaid<T>(q: Queue<T>, cap: nat, es: seq<Edge<T>>, k: nat)
    requires Inv(q, cap) && RunAllowed(q, cap, es) && k <= q.Wp()
    ensures var r := Run(q, cap, es); r.rp >= k || ReadsOwed(r, k) + EagerReads(q, cap, es) <= ReadsOwed(q, k)
    decreases |es|
  {
    if q.rp >= k {
      RunPopsInOrder(q, cap, es);
    } else if |es| > 0 {
      StepKeepsInv(q, cap, es[0]);
      ReadsOwedFall(q, cap, es[0], k);
      ReadsOwedArePaid(Step(q, cap, es[0]), cap, es[1..], k);
    }
  }

  lemma {:induction false} WritesOwedArePaid<T>(q: Queue<T>, cap: nat, es: seq<Edge<T>>, j: nat)
    requires Inv(q, cap) && RunAllowed(q, cap, es) && j <= q.rp
    ensures var r := Run(q, cap, es);
            r.Wp() >= j + cap || WritesOwed(r, cap, j) + EagerWrites(q, cap, es) <= WritesOwed(q, cap, j)
    decreases |es|
  {
    if q.Wp() >= j + cap {
      RunKeepsInv(q, cap, es);
    } else if |es| > 0 {
      StepKeepsInv(q, cap, es[0]);
      WritesOwedFall(q, cap, es[0], j);
      WritesOwedArePaid(Step(q, cap, es[0]), cap, es[1..], j);
    }
  }

  /**
   No word is stuck: whatever the writer does, the first k words written are out after one read edge for each that is
   not and two more, on which the reader pops whenever the flag lets it. So the flag lets it on all but two.
   */
  lemma EveryWordComesOut<T>(q: Queue<T>, cap: nat, es: seq<Edge<T>>, k: nat)
    requires Inv(q, cap) && RunAllowed(q, cap, es) && q.rp <= k <= q.Wp()
    requires EagerReads(q, cap, es) >= k - q.rp + 2
    ensures Run(q, cap, es).rp >= k
  {
    ReadsOwedArePaid(q, cap, es, k);
  }

  /** No place is lost: whatever the reader does, all places free at the start are filled in the same way. */
  lemma EveryPlaceIsFilled<T>(q: Queue<T>, cap: nat, es: seq<Edge<T>>)
    requires Inv(q, cap) && RunAllowed(q, cap, es)
    requires EagerWrites(q, cap, es) >= q.rp + cap - q.Wp() + 2
    ensures Run(q, cap, es).Wp() >= q.rp + cap
  {
    WritesOwedArePaid(q, cap, es, q.rp);
  }

  function ReadEdges<T>(es: seq<Edge<T>>): nat {
    if |es| == 0 then 0 else (if es[0].Write? then 0 else 1) + ReadEdges(es[1..])
  }

  function WriteEdges<T>(es: seq<Edge<T>>): nat {
    if |es| == 0 then 0 else (if es[0].Read? then 0 else 1) + WriteEdges(es[1..])
  }

  /** How exact the flags are when each clock has ticked r and w times since the pointers last moved. */
  ghost predicate Settled<T>(q: Queue<T>, cap: nat, r: nat, w: nat) {
    && (r >= 1 ==> q.wpSeen == q.Wp())
    && (w >= 1 ==> q.rpSeen == q.rp)
    && (r >= 2 ==> (q.empty <==> q.rp == q.Wp()))
    && (w >= 2 ==> (q.full <==> q.Wp() == q.rp + cap))
  }

  ghost predicate Quiet<T>(es: seq<Edge<T>>) {
    forall i :: 0 <= i < |es| ==> !es[i].Pushes() && !es[i].Pops()
  }

  lemma {:induction false} IdleRunSettles<T>(q: Queue<T>, cap: nat, es: seq<Edge<T>>, r: nat, w: nat)
    requires Inv(q, cap) && Settled(q, cap, r, w)
    requires Quiet(es)
    ensures Settled(Run(q, cap, es), cap, r + ReadEdges(es), w + WriteEdges(es))
    decreases |es|
  {
    if |es| > 0 {
      var e := es[0];
      StepKeepsInv(q, cap, e);
      IdleRunSettles(Step(q, cap, e), cap, es[1..], r + if e.Write? then 0 else 1, w + if e.Read? then 0 else 1);
    }
  }

  /** Once both pointers stop, two edges of each clock, in any order, make both flags exact. */
  lemma FlagsBecomeExact<T>(q: Queue<T>, cap: nat, es: seq<Edge<T>>)
    requires Inv(q, cap)
    requires Quiet(es)
    requires ReadEdges(es) >= 2 && WriteEdges(es) >= 2
    ensures var r := Run(q, cap, es);
            (r.empty <==> r.rp == r.Wp()) && (r.full <==> r.Wp() == r.rp + cap)
  {
    IdleRunSettles(q, cap, es, 0, 0);
  }

  // ----- The read port -----

  /** The index whose word the memory shows on `dout`: a write one lap ahead replaces the latched one. */
  function Shown<T>(q: Queue<T>, cap: nat): nat {
    if q.Wp() <= q.ra + cap then q.ra else q.ra + cap
  }

  ghost predicate OnlyWriteEdges<T>(es: seq<Edge<T>>) {
    forall i :: 0 <= i < |es| ==> es[i].Write?
  }

  lemma {:induction false} WriteEdgesKeepReader<T>(q: Queue<T>, cap: nat, es: seq<Edge<T>>)
    requires Inv(q, cap) && RunAllowed(q, cap, es) && OnlyWriteEdges(es)
    ensures var r := Run(q, cap, es); Inv(r, cap) && r.rp == q.rp && r.ra == q.ra
    decreases |es|
  {
    if |es| > 0 {
      StepKeepsInv(q, cap, es[0]);
      WriteEdgesKeepReader(Step(q, cap, es[0]), cap, es[1..]);
    }
  }

  /** After a read edge that pops nothing, `dout` is the head of the queue, whatever the writer does then or later. */
  lemma HeadStaysShown<T>(q: Queue<T>, cap: nat, e: Edge<T>, es: seq<Edge<T>>)
    requires Inv(q, cap) && Allowed(q, e) && !e.Write? && !e.Pops()
    requires RunAllowed(Step(q, cap, e), cap, es) && OnlyWriteEdges(es)
    ensures Shown(Run(Step(q, cap, e), cap, es), cap) == q.rp
  {
    StepKeepsInv(q, cap, e);
    WriteEdgesKeepReader(Step(q, cap, e), cap, es);
  }

  /** After a popping edge, `dout` is the popped word for as long as no write has gone a full lap past it. */
  lemma PoppedWordShownIff<T>(q: Queue<T>, cap: nat, e: Edge<T>, es: seq<Edge<T>>)
    requires cap > 0 && Inv(q, cap) && Allowed(q, e) && e.Pops()
    requires RunAllowed(Step(q, cap, e), cap, es) && OnlyWriteEdges(es)
    ensures var r := Run(Step(q, cap, e), cap, es); Shown(r, cap) == q.rp <==> r.Wp() <= q.rp + cap
  {
    StepKeepsInv(q, cap, e);
    WriteEdgesKeepReader(Step(q, cap, e), cap, es);
  }

  lemma RunFirst<T>(q: Queue<T>, cap: nat, es: seq<Edge<T>>)
    requires |es| > 0
    ensures Run(q, cap, es) == Run(Step(q, cap, es[0]), cap, es[1..])
    ensures RunAllowed(q, cap, es) <==> Allowed(q, es[0]) && RunAllowed(Step(q, cap, es[0]), cap, es[1..])
    ensures |es| == 1 ==> Run(q, cap, es) == Step(q, cap, es[0]) && (RunAllowed(q, cap, es) <==> Allowed(q, es[0]))
  {}

  /** Two write edges no earlier than the popping edge can never overwrite the popped word. */
  lemma {:induction false} PoppedWordHoldsForTwoWriteEdges<T>(q: Queue<T>, cap: nat, e: Edge<T>, es: seq<Edge<T>>)
    requires cap > 0 && Inv(q, cap) && Allowed(q, e) && e.Pops()
    requires RunAllowed(Step(q, cap, e), cap, es) && OnlyWriteEdges(es)
    requires |es| + (if e.Both? then 1 else 0) <= 2
    ensures Shown(Run(Step(q, cap, e), cap, es), cap) == q.rp
  {
    PoppedWordShownIff(q, cap, e, es);
    var n := Step(q, cap, e);
    StepKeepsInv(q, cap, e);
    if |es| >= 1 {
      StepKeepsInv(n, cap, es[0]);
      RunFirst(n, cap, es);
      if |es| == 2 { RunFirst(Step(n, cap, es[0]), cap, es[1..]); }
    }
  }

  /** The third can: with two slots filled, one word is popped and its slot is reused before the next read edge. */
  lemma ThirdWriteEdgeOverwrites(a: Queue<int>, before: seq<Edge<int>>, after: seq<Edge<int>>)
    requires a == Reset()
    requires before == [Write(true, 10), Write(true, 20), Read(false), Read(false)]
    requires after == [Write(false, 0), Write(false, 0), Write(true, 30)]
    ensures RunAllowed(a, 2, before)
    ensures var q := Run(a, 2, before);
            && Allowed(q, Read(true)) && q.rp < q.Wp() && q.written[q.rp] == 10
            && var n := Step(q, 2, Read(true));
               && RunAllowed(n, 2, after)
               && var r := Run(n, 2, after); Shown(r, 2) < r.Wp() && r.written[Shown(r, 2)] == 30
  {
    StagesRun(0, before);
    StageSteps(4);
    StagesRun(5, after);
  }

  ghost predicate Follows<T>(stage: nat -> Queue<T>, edge: nat -> Edge<T>, cap: nat, n: nat) {
    Allowed(stage(n), edge(n)) && stage(n + 1) == Step(stage(n), cap, edge(n))
  }

  /** A run that passes from stage to stage ends at the last one. */
  lemma {:induction false} RunFollows<T>(
    stage: nat -> Queue<T>, edge: nat -> Edge<T>, cap: nat, n: nat, es: seq<Edge<T>>)
    requires forall k: nat :: n <= k < n + |es| ==> Follows(stage, edge, cap, k)
    requires forall k :: 0 <= k < |es| ==> es[k] == edge(n + k)
    ensures RunAllowed(stage(n), cap, es) && Run(stage(n), cap, es) == stage(n + |es|)
    decreases |es|
  {
    if |es| > 0 {
      assert Follows(stage, edge, cap, n) && es[0] == edge(n + 0);
      RunFollows(stage, edge, cap, n + 1, es[1..]);
    }
  }

  function Stage(n: nat): Queue<int> {
    match n
    case 0 => Reset()
    case 1 => Queue([10], 0, 0, 0, 0, false, true)
    case 2 => Queue([10, 20], 0, 0, 0, 0, true, true)
    case 3 => Queue([10, 20], 0, 2, 0, 0, true, true)
    case 4 => Queue([10, 20], 0, 2, 0, 0, true, false)
    case 5 => Queue([10, 20], 1, 2, 0, 0, true, false)
    case 6 => Queue([10, 20], 1, 2, 1, 0, true, false)
    case 7 => Queue([10, 20], 1, 2, 1, 0, false, false)
    case _ => Queue([10, 20, 30], 1, 2, 1, 0, true, false)
  }

  function StageEdge(n: nat): Edge<int> {
    match n
    case 0 => Write(true, 10)
    case 1 => Write(true, 20)
    case 2 => Read(false)
    case 3 => Read(false)
    case 4 => Read(true)
    case 5 => Write(false, 0)
    case 6 => Write(false, 0)
    case _ => Write(true, 30)
  }

  lemma StageSteps(n: nat)
    requires n < 8
    ensures Follows(Stage, StageEdge, 2, n)
  {
    if n == 0 {} else if n == 1 {} else if n == 2 {} else if n == 3 {}
    else if n == 4 {} else if n == 5 {} else if n == 6 {} else {}
  }

  lemma StagesRun(n: nat, es: seq<Edge<int>>)
    requires n + |es| <= 8 && forall k :: 0 <= k < |es| ==> es[k] == StageEdge(n + k)
    ensures RunAllowed(Stage(n), 2, es) && Run(Stage(n), 2, es) == Stage(n + |es|)
  {
    forall k: nat | k < 8 ensures Follows(Stage, StageEdge, 2, k) { StageSteps(k); }
    RunFollows(Stage, StageEdge, 2, n, es);
  }
}
