/**
 The AXI4-Lite to Wishbone write bridge in unbounded counts and whole histories. One Step is one clock.
 The slave side follows Wishbone B4, section 3.1.3: one ACK or ERR per request, in order, never both at once.
 */
module WriteBridgeSpec {
  import opened AxiResponse
  import opened Pointers
  import opened Histories

  datatype Beat = Beat(data: nat, strb: nat)

  datatype In = In(reset: bool, awvalid: bool, awaddr: nat, wvalid: bool, beat: Beat, bready: bool,
                   stall: bool, ack: bool, err: bool)

  datatype State = State(
    aw: seq<nat>,            // word addresses accepted on the AW channel
    w: seq<Beat>,            // data and strobes accepted on the W channel
    first: nat,              // writes launched: address and data paired up and loaded into the Wishbone registers
    issued: seq<nat>,        // indices of the launched writes that the Wishbone slave accepted
    verdicts: seq<Verdict>,  // the outcome of each write, in order
    last: nat,               // responses delivered on the B channel
    stb: bool,
    awready: bool,
    wready: bool,
    err: bool,               // draining after a bus error
    errLoc: nat)             // the write that failed
  {
    function Mid(): nat { |verdicts| }
    predicate Full(cap: nat) { first == last + cap }
    predicate HoldsAw() { |aw| > first }
    predicate HoldsW() { |w| > first }
    predicate Bvalid() { if err then first != last else Mid() != last }
    function Outstanding(): int { if err then 0 else first - Mid() - if stb then 1 else 0 }
    predicate Cyc() { stb || Outstanding() > 0 }
  }

  function Reset(): State {
    State([], [], 0, [], [], 0, false, true, true, false, 0)
  }

  /** What the slave may do on this clock. Outside a bus cycle anything: late answers are ignored. */
  predicate SlaveOk(s: State, i: In) {
    s.Cyc() ==> !(i.ack && i.err) && (i.ack || i.err ==> s.Outstanding() > 0 || (s.stb && !i.stall))
  }

  // ----- One clock -----

  function AwAfter(s: State, i: In): seq<nat> {
    if i.awvalid && s.awready then s.aw + [i.awaddr / 4] else s.aw
  }

  function WAfter(s: State, i: In): seq<Beat> {
    if i.wvalid && s.wready then s.w + [i.beat] else s.w
  }

  predicate Launch(s: State, cap: nat, i: In) {
    (!s.stb || !i.stall) && !s.Full(cap) && !s.err && |AwAfter(s, i)| > s.first && |WAfter(s, i)| > s.first
  }

  function FirstAfter(s: State, cap: nat, i: In): nat {
    if Launch(s, cap, i) then s.first + 1 else s.first
  }

  predicate BusError(s: State, i: In) { s.Cyc() && i.err }

  predicate Taken(s: State, i: In) { s.Bvalid() && i.bready }

  predicate StbAfter(s: State, cap: nat, i: In) {
    !BusError(s, i) && !s.err && (Launch(s, cap, i) || (s.stb && i.stall))
  }

  function IssuedAfter(s: State, i: In): seq<nat> {
    if s.stb && !i.stall && s.first > 0 then s.issued + [s.first - 1] else s.issued
  }

  function VerdictsAfter(s: State, i: In): seq<Verdict> {
    if s.Cyc() && i.ack then s.verdicts + [Okay]
    else if BusError(s, i) then s.verdicts + [SlvErr]
    else if s.err && s.Mid() != s.first then s.verdicts + [DecErr]
    else s.verdicts
  }

  predicate ErrAfter(s: State, i: In) {
    s.first != s.last && (s.err || BusError(s, i))
  }

  /** Ready for the next address: the held one has just been launched and the pointers share a lap, or none is held. */
  predicate AwreadyAfter(s: State, cap: nat, i: In)
    requires cap > 0
  {
    if |AwAfter(s, i)| > s.first then
      Launch(s, cap, i) && (Taken(s, i) || LapOf(cap, s.first + 1) == LapOf(cap, s.last))
    else
      !(s.stb && i.stall && !s.awready) && (Taken(s, i) || !s.Full(cap))
  }

  /** As for addresses, except that data launched from the holding register frees it unconditionally. */
  predicate WreadyAfter(s: State, cap: nat, i: In)
    requires cap > 0
  {
    if |WAfter(s, i)| > s.first then
      Launch(s, cap, i) && (Taken(s, i) || s.HoldsW() || LapOf(cap, s.first + 1) == LapOf(cap, s.last))
    else
      !(s.stb && i.stall && !s.wready) && (Taken(s, i) || !s.Full(cap))
  }

  function Step(s: State, cap: nat, i: In): State
    requires cap > 0
  {
    if i.reset then Reset()
    else
      State(AwAfter(s, i), WAfter(s, i), FirstAfter(s, cap, i), IssuedAfter(s, i), VerdictsAfter(s, i),
            if Taken(s, i) then s.last + 1 else s.last,
            StbAfter(s, cap, i), AwreadyAfter(s, cap, i), WreadyAfter(s, cap, i), ErrAfter(s, i),
            if BusError(s, i) then s.Mid() else s.errLoc)
  }

  // ----- Invariants -----

  /** Counts and ready flags: nothing held is overwritten, and the counts stay within one buffer. */
  ghost predicate CountInv(s: State, cap: nat) {
    && s.first <= |s.aw| <= s.first + 1 && s.first <= |s.w| <= s.first + 1
    && (s.HoldsAw() ==> !s.awready) && (s.HoldsW() ==> !s.wready)
    && s.last <= s.Mid() <= s.first <= s.last + cap
    && (s.Full(cap) ==> !s.awready) && (s.Full(cap) && s.wready ==> !s.HoldsAw())
    && (s.err ==> !s.stb && (s.last < s.Mid() || s.Mid() == s.first))
    && s.Outstanding() >= 0
  }

  /** Verdicts not yet delivered are OKAY; while draining, the failed write has SLVERR and all later ones DECERR. */
  ghost predicate VerdictInv(s: State, cap: nat) {
    && (s.err ==> s.errLoc < s.Mid() && s.first <= s.errLoc + cap && s.verdicts[s.errLoc] == SlvErr)
    && (forall k :: s.last <= k < s.Mid() && (s.err ==> k < s.errLoc) ==> s.verdicts[k] == Okay)
    && (s.err ==> forall k :: s.errLoc < k < s.Mid() ==> s.verdicts[k] == DecErr)
  }

  ghost predicate Clean(s: State) {
    !s.err && forall k :: 0 <= k < s.Mid() ==> s.verdicts[k] == Okay
  }

  /** The slave sees each launched write at most once and in order; the unanswered ones are the last it saw. */
  ghost predicate IssueOrder(s: State) {
    InOrder(s.issued, s.first - (if s.stb then 1 else 0), s.Mid(), s.Outstanding())
  }

  /** Only a write that the slave accepted is answered OKAY. */
  ghost predicate OkayMeansIssued(s: State) {
    forall k :: 0 <= k < s.Mid() && s.verdicts[k] == Okay ==> k in s.issued
  }

  /** Without errors every launched write reaches the slave, in order. */
  ghost predicate CleanMeansAllIssued(s: State) {
    Clean(s) ==>
      |s.issued| == s.first - (if s.stb then 1 else 0) && forall j :: 0 <= j < |s.issued| ==> s.issued[j] == j
  }

  ghost predicate IssueInv(s: State) {
    IssueOrder(s) && OkayMeansIssued(s) && CleanMeansAllIssued(s)
  }

  ghost predicate Inv(s: State, cap: nat) {
    CountInv(s, cap) && VerdictInv(s, cap) && IssueInv(s)
  }

  lemma ResetHolds(q: State, cap: nat)
    requires q == Reset() && cap > 0
    ensures Inv(q, cap)
  {
    assert q.aw == [] && q.w == [] && q.issued == [] && q.verdicts == [] && q.Outstanding() == 0;
    assert InOrder(q.issued, 0, 0, 0);
  }

  lemma StepKeepsCounts(s: State, cap: nat, i: In)
    requires cap > 0 && CountInv(s, cap) && SlaveOk(s, i)
    ensures CountInv(Step(s, cap, i), cap)
  {
    if s.first + 1 == s.last + cap { assert LapOf(cap, s.first + 1) == 1 + LapOf(cap, s.last); }
  }

  lemma StepKeepsVerdicts(s: State, cap: nat, i: In)
    requires cap > 0 && CountInv(s, cap) && VerdictInv(s, cap) && SlaveOk(s, i)
    ensures VerdictInv(Step(s, cap, i), cap)
  {}

  lemma StepKeepsIssueOrder(s: State, cap: nat, i: In)
    requires cap > 0 && CountInv(s, cap) && IssueOrder(s) && SlaveOk(s, i)
    ensures IssueOrder(Step(s, cap, i))
  {
    var t := Step(s, cap, i);
    if !i.reset {
      ClockKeepsOrder(s.issued, s.first - (if s.stb then 1 else 0), s.Mid(), s.Outstanding(), s.stb && !i.stall,
                      t.issued, t.first - (if t.stb then 1 else 0), t.Mid(), t.Outstanding());
    }
  }

  lemma StepKeepsOkayIssued(s: State, cap: nat, i: In)
    requires cap > 0 && CountInv(s, cap) && IssueOrder(s) && OkayMeansIssued(s) && SlaveOk(s, i)
    ensures OkayMeansIssued(Step(s, cap, i))
  {
    var t := Step(s, cap, i);
    if !i.reset && s.Cyc() && i.ack {
      var n, m := |s.issued|, s.Outstanding();
      if m > 0 { assert t.issued[n - m] == s.Mid(); } else { assert t.issued[n] == s.Mid(); }
    }
    forall k | 0 <= k < t.Mid() && t.verdicts[k] == Okay
      ensures k in t.issued
    {
      if k < s.Mid() { assert k in s.issued; }
    }
  }

  lemma StepKeepsCleanIssued(s: State, cap: nat, i: In)
    requires cap > 0 && CountInv(s, cap) && VerdictInv(s, cap) && CleanMeansAllIssued(s) && SlaveOk(s, i)
    ensures CleanMeansAllIssued(Step(s, cap, i))
  {
    var t := Step(s, cap, i);
    if !i.reset {
      if s.err { assert t.verdicts[s.errLoc] == SlvErr; }
      if BusError(s, i) { assert t.verdicts[s.Mid()] == SlvErr; }
      assert forall k :: 0 <= k < s.Mid() ==> s.verdicts[k] == t.verdicts[k];
    }
  }

  lemma StepKeepsInv(s: State, cap: nat, i: In)
    requires cap > 0 && Inv(s, cap) && SlaveOk(s, i)
    ensures Inv(Step(s, cap, i), cap)
  {
    StepKeepsCounts(s, cap, i);
    StepKeepsVerdicts(s, cap, i);
    StepKeepsIssueOrder(s, cap, i);
    StepKeepsOkayIssued(s, cap, i);
    StepKeepsCleanIssued(s, cap, i);
  }

  // ----- Whole runs -----

  function Run(s: State, cap: nat, ins: seq<In>): State
    requires cap > 0
    decreases |ins|
  {
    if |ins| == 0 then s else Run(Step(s, cap, ins[0]), cap, ins[1..])
  }

  predicate RunOk(s: State, cap: nat, ins: seq<In>)
    requires cap > 0
    decreases |ins|
  {
    |ins| == 0 || (SlaveOk(s, ins[0]) && RunOk(Step(s, cap, ins[0]), cap, ins[1..]))
  }

  lemma {:induction false} RunKeepsInv(s: State, cap: nat, ins: seq<In>)
    requires cap > 0 && Inv(s, cap) && RunOk(s, cap, ins)
    ensures Inv(Run(s, cap, ins), cap)
    decreases |ins|
  {
    if |ins| > 0 {
      StepKeepsInv(s, cap, ins[0]);
      RunKeepsInv(Step(s, cap, ins[0]), cap, ins[1..]);
    }
  }

  /** The writes the Wishbone slave accepted, as it saw them. */
  function Seen(s: State): seq<(nat, Beat)>
    requires forall j :: 0 <= j < |s.issued| ==> s.issued[j] < |s.aw| && s.issued[j] < |s.w|
  {
    seq(|s.issued|, j requires 0 <= j < |s.issued| => (s.aw[s.issued[j]], s.w[s.issued[j]]))
  }

  /**
   In a run without errors the k-th write on Wishbone carries the k-th address with the k-th data and strobes,
   whatever the skew between the channels, and the two channels never drift apart by more than one.
   */
  lemma ErrorFreeRunPairsInOrder(q: State, cap: nat, ins: seq<In>)
    requires q == Reset() && cap > 0 && RunOk(q, cap, ins)
    requires forall n :: 0 <= n < |ins| ==> !ins[n].reset && !ins[n].err
    ensures var s := Run(q, cap, ins);
            && Inv(s, cap)
            && |s.issued| == s.first - (if s.stb then 1 else 0)
            && Seen(s) == seq(|s.issued|, k requires 0 <= k < |s.issued| => (s.aw[k], s.w[k]))
            && -1 <= |s.aw| - |s.w| <= 1
            && |s.aw| <= |s.issued| + 2 && |s.w| <= |s.issued| + 2
  {
    RunKeepsInv(q, cap, ins);
    NoErrorKeepsClean(q, cap, ins);
    CleanPairs(Run(q, cap, ins), cap);
  }

  lemma CleanPairs(s: State, cap: nat)
    requires Inv(s, cap) && Clean(s)
    ensures |s.issued| == s.first - (if s.stb then 1 else 0)
    ensures Seen(s) == seq(|s.issued|, k requires 0 <= k < |s.issued| => (s.aw[k], s.w[k]))
    ensures -1 <= |s.aw| - |s.w| <= 1
    ensures |s.aw| <= |s.issued| + 2 && |s.w| <= |s.issued| + 2
  {}

  lemma {:induction false} NoErrorKeepsClean(s: State, cap: nat, ins: seq<In>)
    requires cap > 0 && Inv(s, cap) && Clean(s) && RunOk(s, cap, ins)
    requires forall n :: 0 <= n < |ins| ==> !ins[n].reset && !ins[n].err
    ensures Clean(Run(s, cap, ins))
    decreases |ins|
  {
    if |ins| > 0 {
      StepKeepsInv(s, cap, ins[0]);
      NoErrorKeepsClean(Step(s, cap, ins[0]), cap, ins[1..]);
    }
  }

  // ----- Responses -----

  /** A response waits unchanged until it is taken, and is then followed by the next write's verdict. */
  lemma ResponseIsHeld(s: State, cap: nat, i: In)
    requires cap > 0 && Inv(s, cap) && SlaveOk(s, i) && !i.reset && s.Bvalid()
    ensures s.last < s.Mid()
    ensures var t := Step(s, cap, i);
            && s.verdicts <= t.verdicts
            && (if i.bready then t.last == s.last + 1 else t.Bvalid() && t.last == s.last)
  {}

  function Handed(s: State, i: In): seq<Verdict> {
    if Taken(s, i) && s.last < s.Mid() then [s.verdicts[s.last]] else []
  }

  /** The verdict on offer after a clock, from what is known before it. */
  lemma NextVerdict(s: State, cap: nat, i: In)
    requires cap > 0 && CountInv(s, cap) && VerdictInv(s, cap) && SlaveOk(s, i) && !i.reset
    ensures var t := Step(s, cap, i);
            t.Bvalid() ==>
              && t.last < t.Mid()
              && t.verdicts[t.last] == (
               if s.Bvalid() && !i.bready && s.last < s.Mid() then s.verdicts[s.last]
               else if !s.err then (if BusError(s, i) && s.Mid() == t.last then SlvErr else Okay)
               else if s.last + 1 == s.errLoc then SlvErr
               else if s.last < s.Mid() && s.verdicts[s.last] != Okay then DecErr
               else Okay)
  {}

  /** The B responses handed over during a run. */
  function Delivered(s: State, cap: nat, ins: seq<In>): seq<Verdict>
    requires cap > 0
    decreases |ins|
  {
    if |ins| == 0 then [] else Handed(s, ins[0]) + Delivered(Step(s, cap, ins[0]), cap, ins[1..])
  }

  lemma StepHandsNext(s: State, cap: nat, i: In)
    requires cap > 0 && Inv(s, cap) && SlaveOk(s, i) && !i.reset
    ensures var n := Step(s, cap, i);
            s.verdicts <= n.verdicts && n.last == s.last + |Handed(s, i)|
            && (Handed(s, i) != [] ==> s.last < s.Mid() && Handed(s, i) == [s.verdicts[s.last]])
  {}

  /** Over every run each write gets at most one response, in order, and it is that write's verdict. */
  lemma {:induction false} ResponsesInOrder(s: State, cap: nat, ins: seq<In>)
    requires cap > 0 && Inv(s, cap) && RunOk(s, cap, ins)
    requires forall n :: 0 <= n < |ins| ==> !ins[n].reset
    ensures var t := Run(s, cap, ins);
            && Inv(t, cap) && s.verdicts <= t.verdicts
            && s.last <= t.last <= t.Mid() && Delivered(s, cap, ins) == t.verdicts[s.last..t.last]
    decreases |ins|
  {
    if |ins| > 0 {
      var n := Step(s, cap, ins[0]);
      StepKeepsInv(s, cap, ins[0]);
      StepHandsNext(s, cap, ins[0]);
      ResponsesInOrder(n, cap, ins[1..]);
      PrependSlice(Handed(s, ins[0]), s.last, n.last, Run(n, cap, ins[1..]).last, Run(n, cap, ins[1..]).verdicts);
    }
  }

  /** Every error: its own answer is SLVERR, those before it not yet delivered are OKAY, and the slave had seen it. */
  lemma EachError(s: State, cap: nat, i: In)
    requires cap > 0 && Inv(s, cap) && SlaveOk(s, i) && !i.reset && BusError(s, i)
    ensures var t := Step(s, cap, i); var e := s.Mid();
            && !s.err && t.err && t.errLoc == e && e < t.Mid() && t.verdicts[e] == SlvErr
            && (forall k :: s.last <= k < e ==> t.verdicts[k] == Okay)
            && e in t.issued
  {
    var t := Step(s, cap, i);
    var n, m := |s.issued|, s.Outstanding();
    assert t.issued[n - m] == s.Mid();
  }

  /** The first error of a run: every answer before it is OKAY, delivered or not. */
  lemma FirstError(s: State, cap: nat, i: In)
    requires cap > 0 && Inv(s, cap) && Clean(s) && SlaveOk(s, i) && !i.reset && BusError(s, i)
    ensures var t := Step(s, cap, i); var e := s.Mid();
            && t.err && t.errLoc == e && e < t.Mid() && t.verdicts[e] == SlvErr
            && (forall k :: 0 <= k < e ==> t.verdicts[k] == Okay)
            && e in t.issued
  {
    EachError(s, cap, i);
  }

  /** How often the AXI side was ready for a response during a run. */
  function ReadyClocks(ins: seq<In>): nat {
    if |ins| == 0 then 0 else (if ins[0].bready then 1 else 0) + ReadyClocks(ins[1..])
  }

  /** A drain takes one ready clock per outstanding write, whenever these come, and one clock more. */
  lemma {:induction false} DrainEnds(s: State, cap: nat, ins: seq<In>) returns (n: nat)
    requires cap > 0 && Inv(s, cap) && s.err && RunOk(s, cap, ins)
    requires forall n :: 0 <= n < |ins| ==> !ins[n].reset
    requires ReadyClocks(ins) > s.first - s.last
    ensures 0 < n <= |ins| && ReadyClocks(ins[..n - 1]) == s.first - s.last
    ensures var t := Run(s, cap, ins[..n]);
            && !t.err && t.last == t.first == t.Mid() == s.first
            && forall k :: s.errLoc < k < s.first ==> t.verdicts[k] == DecErr
    decreases |ins|
  {
    var t := Step(s, cap, ins[0]);
    StepKeepsInv(s, cap, ins[0]);
    DrainMeasure(s, cap, ins[0]);
    if s.first != s.last {
      var m := DrainEnds(t, cap, ins[1..]);
      n := m + 1;
      assert ins[..n][1..] == ins[1..][..m];
      assert ins[..n - 1][1..] == ins[1..][..m - 1];
    } else {
      n := 1;
      assert ins[..1][1..] == [] && ins[..0] == [];
      assert Run(t, cap, []) == t;
    }
  }

  /** The measure behind it: while draining nothing is launched, and each response taken leaves one fewer owed. */
  lemma DrainMeasure(s: State, cap: nat, i: In)
    requires cap > 0 && Inv(s, cap) && s.err && SlaveOk(s, i) && !i.reset
    ensures var t := Step(s, cap, i);
            && t.first == s.first && !t.stb
            && (t.err <==> s.first != s.last)
            && t.first - t.last == s.first - s.last - (if i.bready && s.first != s.last then 1 else 0)
  {}

  /** A write launched before the drain is answered DECERR after the failed one, however slowly responses are taken. */
  lemma {:induction false} LaterWritesFail(s: State, cap: nat, ins: seq<In>)
    requires cap > 0 && Inv(s, cap) && s.err && RunOk(s, cap, ins)
    requires forall n :: 0 <= n < |ins| ==> !ins[n].reset
    ensures var t := Run(s, cap, ins);
            && s.errLoc < t.Mid() && t.verdicts[s.errLoc] == SlvErr
            && forall k :: s.errLoc < k < s.first && k < t.Mid() ==> t.verdicts[k] == DecErr
    decreases |ins|
  {
    if |ins| > 0 {
      var n := Step(s, cap, ins[0]);
      StepKeepsInv(s, cap, ins[0]);
      DrainMeasure(s, cap, ins[0]);
      if n.err {
        LaterWritesFail(n, cap, ins[1..]);
      } else {
        ResponsesInOrder(n, cap, ins[1..]);
      }
    }
  }

  /** Up to write number launched: OKAY before the failed write e, SLVERR for it, DECERR after it. */
  ghost predicate AroundError(v: seq<Verdict>, e: nat, launched: nat) {
    forall k :: 0 <= k < launched && k < |v| ==> v[k] == if k < e then Okay else if k == e then SlvErr else DecErr
  }

  lemma VerdictsAroundError(s: State, cap: nat, ins: seq<In>)
    requires cap > 0 && Inv(s, cap) && Clean(s) && RunOk(s, cap, ins) && |ins| > 0 && BusError(s, ins[0])
    requires forall n :: 0 <= n < |ins| ==> !ins[n].reset
    ensures AroundError(Run(s, cap, ins).verdicts, s.Mid(), Step(s, cap, ins[0]).first)
  {
    var t := Step(s, cap, ins[0]);
    FirstError(s, cap, ins[0]);
    StepKeepsInv(s, cap, ins[0]);
    LaterWritesFail(t, cap, ins[1..]);
    ResponsesInOrder(t, cap, ins[1..]);
  }

  lemma PrefixAroundError(v: seq<Verdict>, w: seq<Verdict>, e: nat, launched: nat)
    requires v <= w && AroundError(w, e, launched)
    ensures AroundError(v, e, launched)
  {}

  /** The responses over a run from reset whose first error comes after the clocks in pre. */
  lemma ErrorRunDelivers(q: State, cap: nat, pre: seq<In>, post: seq<In>)
    requires q == Reset() && cap > 0 && RunOk(q, cap, pre + post) && |post| > 0
    requires forall n :: 0 <= n < |pre| ==> !pre[n].reset && !pre[n].err
    requires forall n :: 0 <= n < |post| ==> !post[n].reset
    requires BusError(Run(q, cap, pre), post[0])
    ensures var s := Run(q, cap, pre);
            AroundError(Delivered(q, cap, pre + post), s.Mid(), Step(s, cap, post[0]).first)
  {
    var s := Run(q, cap, pre);
    RunConcat(q, cap, pre, post);
    CleanFromReset(q, cap, pre);
    VerdictsAroundError(s, cap, post);
    DeliveredIsPrefix(q, cap, pre, post);
    PrefixAroundError(Delivered(q, cap, pre + post), Run(s, cap, post).verdicts, s.Mid(), Step(s, cap, post[0]).first);
  }

  lemma CleanFromReset(q: State, cap: nat, pre: seq<In>)
    requires q == Reset() && cap > 0 && RunOk(q, cap, pre)
    requires forall n :: 0 <= n < |pre| ==> !pre[n].reset && !pre[n].err
    ensures Inv(Run(q, cap, pre), cap) && Clean(Run(q, cap, pre))
  {
    RunKeepsInv(q, cap, pre);
    NoErrorKeepsClean(q, cap, pre);
  }

  lemma DeliveredIsPrefix(q: State, cap: nat, pre: seq<In>, post: seq<In>)
    requires q == Reset() && cap > 0 && RunOk(q, cap, pre + post)
    requires forall n :: 0 <= n < |pre| ==> !pre[n].reset
    requires forall n :: 0 <= n < |post| ==> !post[n].reset
    ensures Delivered(q, cap, pre + post) <= Run(q, cap, pre + post).verdicts
  {
    var ins := pre + post;
    assert forall n :: 0 <= n < |ins| ==> !ins[n].reset;
    ResponsesInOrder(q, cap, ins);
  }

  lemma {:induction false} RunConcat(s: State, cap: nat, a: seq<In>, b: seq<In>)
    requires cap > 0
    ensures Run(s, cap, a + b) == Run(Run(s, cap, a), cap, b)
    ensures RunOk(s, cap, a + b) <==> RunOk(s, cap, a) && RunOk(Run(s, cap, a), cap, b)
    decreases |a|
  {
    if |a| == 0 {
      assert a + b == b;
    } else {
      assert (a + b)[1..] == a[1..] + b;
      RunConcat(Step(s, cap, a[0]), cap, a[1..], b);
    }
  }

  // ----- Ready flags at the end of a lap -----

  /** A flag that is down with nothing held comes back as soon as the bus moves and the buffer has room. */
  lemma ReadyComesBack(s: State, cap: nat, i: In)
    requires cap > 0 && Inv(s, cap) && !i.reset && !(s.stb && i.stall) && (!s.Full(cap) || Taken(s, i))
    ensures !s.awready && !s.HoldsAw() ==> Step(s, cap, i).awready
    ensures !s.wready && !s.HoldsW() ==> Step(s, cap, i).wready
  {}

  function Busy(ack: bool): In { In(false, true, 0, true, Beat(0, 0), true, false, ack, false) }

  function Quiet(ack: bool): In { In(false, false, 0, false, Beat(0, 0), true, false, ack, false) }

  /** Three writes, answered and taken, and then a fourth. */
  function FourWrites(): seq<In> {
    [Busy(false), Busy(false), Busy(true), Quiet(true), Quiet(true), Quiet(false), Busy(false)]
  }

  ghost predicate Trace(states: seq<State>, cap: nat, ins: seq<In>)
    requires cap > 0
  {
    && |states| == |ins| + 1
    && forall k :: 0 <= k < |ins| ==> SlaveOk(states[k], ins[k]) && states[k + 1] == Step(states[k], cap, ins[k])
  }

  lemma {:induction false} TraceIsRun(states: seq<State>, cap: nat, ins: seq<In>)
    requires cap > 0 && Trace(states, cap, ins)
    ensures RunOk(states[0], cap, ins) && Run(states[0], cap, ins) == states[|ins|]
    decreases |ins|
  {
    if |ins| > 0 { TraceIsRun(states[1..], cap, ins[1..]); }
  }

  function Stage(n: nat): State {
    var b := Beat(0, 0);
    match n
    case 0 => Reset()
    case 1 => State([0], [b], 1, [], [], 0, true, true, true, false, 0)
    case 2 => State([0, 0], [b, b], 2, [0], [], 0, true, true, true, false, 0)
    case 3 => State([0, 0, 0], [b, b, b], 3, [0, 1], [Okay], 0, true, true, true, false, 0)
    case 4 => State([0, 0, 0], [b, b, b], 3, [0, 1, 2], [Okay, Okay], 1, false, true, true, false, 0)
    case 5 => State([0, 0, 0], [b, b, b], 3, [0, 1, 2], [Okay, Okay, Okay], 2, false, true, true, false, 0)
    case 6 => State([0, 0, 0], [b, b, b], 3, [0, 1, 2], [Okay, Okay, Okay], 3, false, true, true, false, 0)
    case _ => State([0, 0, 0, 0], [b, b, b, b], 4, [0, 1, 2], [Okay, Okay, Okay], 3, true, false, false, false, 0)
  }

  lemma FourWritesTrace(k: nat)
    requires k < 7
    ensures SlaveOk(Stage(k), FourWrites()[k])
    ensures Stage(k + 1) == Step(Stage(k), 4, FourWrites()[k])
  {
    if k == 0 {} else if k == 1 {} else if k == 2 {} else if k == 3 {} else if k == 4 {} else if k == 5 {} else {}
  }

  lemma FourWritesAreTrace(ins: seq<In>) returns (states: seq<State>)
    requires ins == FourWrites()
    ensures Trace(states, 4, ins) && states[0] == Reset() && states[7] == Stage(7)
  {
    states := seq(8, k requires 0 <= k < 8 => Stage(k));
    forall k | 0 <= k < |ins|
      ensures SlaveOk(states[k], ins[k]) && states[k + 1] == Step(states[k], 4, ins[k])
    {
      FourWritesTrace(k);
    }
  }

  /** The ready flags drop at the end of a lap although the buffer has room: here one write of four is outstanding. */
  lemma ReadyDropsEarly(q: State, ins: seq<In>)
    requires q == Reset() && ins == FourWrites()
    ensures RunOk(q, 4, ins)
    ensures var t := Run(q, 4, ins); t.first - t.last == 1 && !t.awready && !t.wready
  {
    var states := FourWritesAreTrace(ins);
    TraceIsRun(states, 4, ins);
  }
}
