/**
 The AXI4-Lite to Wishbone read bridge in unbounded counts and whole histories. One Step is one clock; the slave
 follows Wishbone B4, section 3.1.3.
 */
module ReadBridgeSpec {
  import opened AxiResponse
  import opened Histories

  // The data of a DECERR answer is arbitrary and written as 0 here.
  datatype Answer = Answer(verdict: Verdict, data: nat)

  datatype In = In(reset: bool, arvalid: bool, araddr: nat, rready: bool, stall: bool, ack: bool, data: nat, err: bool)

  datatype State = State(
    ar: seq<nat>,          // word addresses accepted on the AR channel
    issued: seq<nat>,      // indices of the reads that the Wishbone slave accepted
    answers: seq<Answer>,  // the outcome of each read, in order
    last: nat,             // responses delivered on the R channel
    stb: bool,
    shadow: bool,          // the newest read waits in the shadow register
    arready: bool,
    err: bool,             // draining after a bus error
    errLoc: nat)           // the read that failed
  {
    function First(): nat { |ar| }
    function Mid(): nat { |answers| }
    predicate Full(cap: nat) { First() == last + cap }
    function Waiting(): nat { (if stb then 1 else 0) + if shadow then 1 else 0 }
    function Outstanding(): int { if err then 0 else First() - Mid() - Waiting() }
    predicate Cyc() { stb || Outstanding() > 0 }
    predicate Rvalid() { if err then First() != last else Mid() != last }
  }

  function Reset(): State {
    State([], [], [], 0, false, false, true, false, 0)
  }

  /** What the slave may do on this clock. Outside a bus cycle anything: late answers are ignored. */
  predicate SlaveOk(s: State, i: In) {
    s.Cyc() ==> !(i.ack && i.err) && (i.ack || i.err ==> s.Outstanding() > 0 || (s.stb && !i.stall))
  }

  // ----- One clock -----

  predicate Accept(s: State, i: In) { i.arvalid && s.arready }

  predicate BusError(s: State, i: In) { s.Cyc() && i.err }

  predicate Taken(s: State, i: In) { s.Rvalid() && i.rready }

  function LastAfter(s: State, i: In): nat { if Taken(s, i) then s.last + 1 else s.last }

  function ArAfter(s: State, i: In): seq<nat> {
    if Accept(s, i) then s.ar + [i.araddr / 4] else s.ar
  }

  /** The slave takes the oldest waiting read. */
  function IssuedAfter(s: State, i: In): seq<nat> {
    if s.stb && !i.stall && s.First() >= s.Waiting() then s.issued + [s.First() - s.Waiting()] else s.issued
  }

  function AnswersAfter(s: State, i: In): seq<Answer> {
    if s.Cyc() && i.ack then s.answers + [Answer(Okay, i.data)]
    else if BusError(s, i) then s.answers + [Answer(SlvErr, i.data)]
    else if s.err && s.Mid() != s.First() then s.answers + [Answer(DecErr, 0)]
    else s.answers
  }

  predicate StbAfter(s: State, i: In) {
    !BusError(s, i) && !s.err && (s.shadow || Accept(s, i) || (s.stb && i.stall))
  }

  predicate ShadowAfter(s: State, i: In) {
    !BusError(s, i) && !s.err && s.stb && i.stall && (s.shadow || Accept(s, i))
  }

  /** Ready unless draining, stalled with a read already waiting, or full. */
  predicate ArreadyAfter(s: State, cap: nat, i: In) {
    && !BusError(s, i) && !s.err
    && !(s.stb && i.stall && (Accept(s, i) || !s.arready))
    && |ArAfter(s, i)| < LastAfter(s, i) + cap
  }

  predicate ErrAfter(s: State, i: In) {
    s.First() != s.last && (s.err || BusError(s, i))
  }

  function Step(s: State, cap: nat, i: In): State {
    if i.reset then Reset()
    else
      State(ArAfter(s, i), IssuedAfter(s, i), AnswersAfter(s, i), LastAfter(s, i), StbAfter(s, i), ShadowAfter(s, i),
            ArreadyAfter(s, cap, i), ErrAfter(s, i), if BusError(s, i) then s.Mid() else s.errLoc)
  }

  // ----- Invariants -----

  ghost predicate CountInv(s: State, cap: nat) {
    && s.last <= s.Mid() <= s.First() <= s.last + cap
    && (s.shadow ==> s.stb && !s.arready)
    && (s.Full(cap) ==> !s.arready)
    && (s.err ==> !s.stb && !s.arready && (s.last < s.Mid() || s.Mid() == s.First()))
    && s.Outstanding() >= 0
  }

  /** Answers not yet delivered are OKAY; while draining, the failed read has SLVERR and all later ones DECERR. */
  ghost predicate AnswerInv(s: State, cap: nat) {
    && (s.err ==> s.errLoc < s.Mid() && s.First() <= s.errLoc + cap && s.answers[s.errLoc].verdict == SlvErr)
    && (forall k :: s.last <= k < s.Mid() && (s.err ==> k < s.errLoc) ==> s.answers[k].verdict == Okay)
    && (s.err ==> forall k :: s.errLoc < k < s.Mid() ==> s.answers[k].verdict == DecErr)
  }

  /** The slave sees each accepted read at most once and in order; the unanswered ones are the last it saw. */
  ghost predicate IssueOrder(s: State) {
    InOrder(s.issued, s.First() - s.Waiting(), s.Mid(), s.Outstanding())
  }

  /** Only a read that the slave accepted is answered OKAY. */
  ghost predicate OkayMeansIssued(s: State) {
    forall k :: 0 <= k < s.Mid() && s.answers[k].verdict == Okay ==> k in s.issued
  }

  ghost predicate Clean(s: State) {
    !s.err && forall k :: 0 <= k < s.Mid() ==> s.answers[k].verdict == Okay
  }

  /** Without errors every accepted read reaches the slave, in order. */
  ghost predicate CleanMeansAllIssued(s: State) {
    Clean(s) ==> |s.issued| == s.First() - s.Waiting() && forall j :: 0 <= j < |s.issued| ==> s.issued[j] == j
  }

  ghost predicate Inv(s: State, cap: nat) {
    CountInv(s, cap) && AnswerInv(s, cap) && IssueOrder(s) && OkayMeansIssued(s) && CleanMeansAllIssued(s)
  }

  lemma ResetHolds(q: State, cap: nat)
    requires q == Reset() && cap > 0
    ensures Inv(q, cap)
  {
    assert q.ar == q.issued == [] && q.answers == [] && q.Outstanding() == 0;
    assert InOrder(q.issued, 0, 0, 0);
  }

  lemma StepKeepsCounts(s: State, cap: nat, i: In)
    requires cap > 0 && CountInv(s, cap) && SlaveOk(s, i)
    ensures CountInv(Step(s, cap, i), cap)
  {}

  lemma StepKeepsAnswers(s: State, cap: nat, i: In)
    requires cap > 0 && CountInv(s, cap) && AnswerInv(s, cap) && SlaveOk(s, i)
    ensures AnswerInv(Step(s, cap, i), cap)
  {}

  lemma StepKeepsIssueOrder(s: State, cap: nat, i: In)
    requires cap > 0 && CountInv(s, cap) && IssueOrder(s) && SlaveOk(s, i)
    ensures IssueOrder(Step(s, cap, i))
  {
    var t := Step(s, cap, i);
    if !i.reset {
      ClockKeepsOrder(s.issued, s.First() - s.Waiting(), s.Mid(), s.Outstanding(), s.stb && !i.stall,
                      t.issued, t.First() - t.Waiting(), t.Mid(), t.Outstanding());
    }
  }

  lemma StepKeepsOkayIssued(s: State, cap: nat, i: In)
    requires cap > 0 && CountInv(s, cap) && IssueOrder(s) && OkayMeansIssued(s) && SlaveOk(s, i)
    ensures OkayMeansIssued(Step(s, cap, i))
  {
    var t := Step(s, cap, i);
    if !i.reset && s.Cyc() && i.ack {
      var n, m := |s.issued|, s.Outstanding();
      if m > 0 { assert t.issued[n - m] == s.Mid(); } else { assert t.issued[n] == s.Mid(); }
    }
    forall k | 0 <= k < t.Mid() && t.answers[k].verdict == Okay
      ensures k in t.issued
    {
      if k < s.Mid() { assert k in s.issued; }
    }
  }

  lemma StepKeepsCleanIssued(s: State, cap: nat, i: In)
    requires cap > 0 && CountInv(s, cap) && AnswerInv(s, cap) && CleanMeansAllIssued(s) && SlaveOk(s, i)
    ensures CleanMeansAllIssued(Step(s, cap, i))
  {
    var t := Step(s, cap, i);
    if !i.reset {
      if s.err { assert t.answers[s.errLoc].verdict == SlvErr; }
      if BusError(s, i) { assert t.answers[s.Mid()].verdict == SlvErr; }
      assert forall k :: 0 <= k < s.Mid() ==> s.answers[k] == t.answers[k];
    }
  }

  lemma StepKeepsInv(s: State, cap: nat, i: In)
    requires cap > 0 && Inv(s, cap) && SlaveOk(s, i)
    ensures Inv(Step(s, cap, i), cap)
  {
    StepKeepsCounts(s, cap, i);
    StepKeepsAnswers(s, cap, i);
    StepKeepsIssueOrder(s, cap, i);
    StepKeepsOkayIssued(s, cap, i);
    StepKeepsCleanIssued(s, cap, i);
  }

  // ----- Whole runs -----

  function Run(s: State, cap: nat, ins: seq<In>): State
    decreases |ins|
  {
    if |ins| == 0 then s else Run(Step(s, cap, ins[0]), cap, ins[1..])
  }

  predicate RunOk(s: State, cap: nat, ins: seq<In>)
    decreases |ins|
  {
    |ins| == 0 || (SlaveOk(s, ins[0]) && RunOk(Step(s, cap, ins[0]), cap, ins[1..]))
  }

  ghost predicate NoReset(ins: seq<In>) {
    forall n :: 0 <= n < |ins| ==> !ins[n].reset
  }

  ghost predicate NoError(ins: seq<In>) {
    forall n :: 0 <= n < |ins| ==> !ins[n].reset && !ins[n].err
  }

  function Handed(s: State, i: In): seq<Answer> {
    if Taken(s, i) && s.last < s.Mid() then [s.answers[s.last]] else []
  }

  /** The R responses handed over during a run. */
  function Delivered(s: State, cap: nat, ins: seq<In>): seq<Answer>
    decreases |ins|
  {
    if |ins| == 0 then [] else Handed(s, ins[0]) + Delivered(Step(s, cap, ins[0]), cap, ins[1..])
  }

  lemma StepHandsNext(s: State, cap: nat, i: In)
    requires cap > 0 && Inv(s, cap) && SlaveOk(s, i) && !i.reset
    ensures var n := Step(s, cap, i);
            s.answers <= n.answers && n.last == s.last + |Handed(s, i)|
            && (Handed(s, i) != [] ==> s.last < s.Mid() && Handed(s, i) == [s.answers[s.last]])
  {}

  /** Over every run each read gets at most one response, in order, and it is that read's answer. */
  lemma {:induction false} ResponsesInOrder(s: State, cap: nat, ins: seq<In>)
    requires cap > 0 && Inv(s, cap) && RunOk(s, cap, ins) && NoReset(ins)
    ensures var t := Run(s, cap, ins);
            && Inv(t, cap) && s.answers <= t.answers
            && s.last <= t.last <= t.Mid() && Delivered(s, cap, ins) == t.answers[s.last..t.last]
    decreases |ins|
  {
    if |ins| > 0 {
      var n := Step(s, cap, ins[0]);
      StepKeepsInv(s, cap, ins[0]);
      StepHandsNext(s, cap, ins[0]);
      ResponsesInOrder(n, cap, ins[1..]);
      PrependSlice(Handed(s, ins[0]), s.last, n.last, Run(n, cap, ins[1..]).last, Run(n, cap, ins[1..]).answers);
    }
  }

  function AckOf(s: State, i: In): seq<Answer> { if s.Cyc() && i.ack then [Answer(Okay, i.data)] else [] }

  /** The data the slave returned with its ACKs during a run. */
  function Acked(s: State, cap: nat, ins: seq<In>): seq<Answer>
    decreases |ins|
  {
    if |ins| == 0 then [] else AckOf(s, ins[0]) + Acked(Step(s, cap, ins[0]), cap, ins[1..])
  }

  lemma ErrorFreeStep(s: State, cap: nat, i: In)
    requires cap > 0 && CountInv(s, cap) && Clean(s) && SlaveOk(s, i) && !i.reset && !i.err
    ensures Clean(Step(s, cap, i)) && Step(s, cap, i).answers == s.answers + AckOf(s, i)
  {}

  lemma {:induction false} ErrorFreeAnswers(s: State, cap: nat, ins: seq<In>)
    requires cap > 0 && Inv(s, cap) && Clean(s) && RunOk(s, cap, ins) && NoError(ins)
    ensures Clean(Run(s, cap, ins)) && Run(s, cap, ins).answers == s.answers + Acked(s, cap, ins)
    decreases |ins|
  {
    if |ins| > 0 {
      var n := Step(s, cap, ins[0]);
      StepKeepsInv(s, cap, ins[0]);
      ErrorFreeStep(s, cap, ins[0]);
      ErrorFreeAnswers(n, cap, ins[1..]);
      Regroup(s.answers, AckOf(s, ins[0]), Acked(n, cap, ins[1..]));
    } else {
      assert s.answers + Acked(s, cap, ins) == s.answers;
    }
  }

  /**
   What an error-free run shows: the addresses the slave accepted are the accepted AXI addresses in order, none
   dropped or repeated by the shadow register, and the j-th response carries the data of the j-th ACK.
   */
  ghost predicate Transparent(s: State, out: seq<Answer>, acked: seq<Answer>) {
    && |s.issued| == |s.ar| - s.Waiting()
    && (forall j :: 0 <= j < |s.issued| ==> s.issued[j] == j)
    && |out| <= |acked| <= |s.issued|
    && out == acked[..|out|]
  }

  lemma TransparentFrom(q: State, cap: nat, ins: seq<In>)
    requires cap > 0 && Inv(q, cap) && Clean(q) && q.answers == [] && q.last == 0
    requires RunOk(q, cap, ins) && NoError(ins)
    ensures Inv(Run(q, cap, ins), cap)
    ensures Transparent(Run(q, cap, ins), Delivered(q, cap, ins), Acked(q, cap, ins))
  {
    ResponsesInOrder(q, cap, ins);
    ErrorFreeAnswers(q, cap, ins);
    assert Run(q, cap, ins).answers == Acked(q, cap, ins);
  }

  lemma ErrorFreeRunIsTransparent(q: State, cap: nat, ins: seq<In>)
    requires q == Reset() && cap > 0 && RunOk(q, cap, ins) && NoError(ins)
    ensures Transparent(Run(q, cap, ins), Delivered(q, cap, ins), Acked(q, cap, ins))
  {
    TransparentFrom(q, cap, ins);
  }

  // ----- Errors -----

  /** A response waits unchanged until it is taken. */
  lemma ResponseIsHeld(s: State, cap: nat, i: In)
    requires cap > 0 && Inv(s, cap) && SlaveOk(s, i) && !i.reset && s.Rvalid()
    ensures s.last < s.Mid()
    ensures var t := Step(s, cap, i);
            && s.answers <= t.answers
            && (if i.rready then t.last == s.last + 1 else t.Rvalid() && t.last == s.last)
  {}

  /** The answer on offer after a clock, from what is known before it. */
  lemma NextVerdict(s: State, cap: nat, i: In)
    requires cap > 0 && CountInv(s, cap) && AnswerInv(s, cap) && SlaveOk(s, i) && !i.reset
    ensures var t := Step(s, cap, i);
            t.Rvalid() ==>
              && t.last < t.Mid()
              && t.answers[t.last].verdict == (
                if s.Rvalid() && !i.rready && s.last < s.Mid() then s.answers[s.last].verdict
                else if !s.err then (if BusError(s, i) && s.Mid() == t.last then SlvErr else Okay)
                else if s.last + 1 == s.errLoc then SlvErr
                else if s.last < s.Mid() && s.answers[s.last].verdict != Okay then DecErr
                else Okay)
  {}

  /** While draining no read is accepted, and each response taken leaves one fewer owed. */
  lemma DrainMeasure(s: State, cap: nat, i: In)
    requires cap > 0 && Inv(s, cap) && s.err && SlaveOk(s, i) && !i.reset
    ensures var t := Step(s, cap, i);
            && t.ar == s.ar && !t.stb && !t.shadow && !t.arready
            && (t.err <==> s.First() != s.last)
            && t.First() - t.last == s.First() - s.last - (if i.rready && s.First() != s.last then 1 else 0)
  {}

  /** How often the AXI side was ready for a response during a run. */
  function ReadyClocks(ins: seq<In>): nat {
    if |ins| == 0 then 0 else (if ins[0].rready then 1 else 0) + ReadyClocks(ins[1..])
  }

  /** A drain takes one ready clock per outstanding read, whenever these come, and one clock more. */
  lemma {:induction false} DrainEnds(s: State, cap: nat, ins: seq<In>) returns (n: nat)
    requires cap > 0 && Inv(s, cap) && s.err && RunOk(s, cap, ins) && NoReset(ins)
    requires ReadyClocks(ins) > s.First() - s.last
    ensures 0 < n <= |ins| && ReadyClocks(ins[..n - 1]) == s.First() - s.last
    ensures var t := Run(s, cap, ins[..n]);
            && !t.err && t.ar == s.ar && t.last == t.Mid() == |s.ar|
            && forall k :: s.errLoc < k < |s.ar| ==> t.answers[k].verdict == DecErr
    decreases |ins|
  {
    var t := Step(s, cap, ins[0]);
    StepKeepsInv(s, cap, ins[0]);
    DrainMeasure(s, cap, ins[0]);
    if s.First() != s.last {
      var m := DrainEnds(t, cap, ins[1..]);
      n := m + 1;
      assert ins[..n][1..] == ins[1..][..m];
      assert ins[..n - 1][1..] == ins[1..][..m - 1];
    } else {
      n := 1;
      assert ins[..1][1..] == [] && ins[..0] == [];
      assert Run(t, cap, []) == t;
    }
  }

  /** A read accepted before the drain is answered DECERR after the failed one, however slowly responses are taken. */
  lemma {:induction false} LaterReadsFail(s: State, cap: nat, ins: seq<In>)
    requires cap > 0 && Inv(s, cap) && s.err && RunOk(s, cap, ins) && NoReset(ins)
    ensures var t := Run(s, cap, ins);
            && s.errLoc < t.Mid() && t.answers[s.errLoc].verdict == SlvErr
            && forall k :: s.errLoc < k < s.First() && k < t.Mid() ==> t.answers[k].verdict == DecErr
    decreases |ins|
  {
    if |ins| > 0 {
      var n := Step(s, cap, ins[0]);
      StepKeepsInv(s, cap, ins[0]);
      DrainMeasure(s, cap, ins[0]);
      if n.err {
        LaterReadsFail(n, cap, ins[1..]);
      } else {
        ResponsesInOrder(n, cap, ins[1..]);
      }
    }
  }

  /** Every error: its own answer is SLVERR, those before it not yet delivered are OKAY, and the slave had seen it. */
  lemma EachError(s: State, cap: nat, i: In)
    requires cap > 0 && Inv(s, cap) && SlaveOk(s, i) && !i.reset && BusError(s, i)
    ensures var t := Step(s, cap, i); var e := s.Mid();
            && !s.err && t.err && t.errLoc == e && e < t.Mid() && t.answers[e].verdict == SlvErr
            && (forall k :: s.last <= k < e ==> t.answers[k].verdict == Okay)
            && e in t.issued
  {
    var t := Step(s, cap, i);
    var n, m := |s.issued|, s.Outstanding();
    assert t.issued[n - m] == s.Mid();
  }

  /** The first error of a run: every answer before it is OKAY, delivered or not. */
  lemma FirstError(s: State, cap: nat, i: In)
    requires cap > 0 && Inv(s, cap) && Clean(s) && SlaveOk(s, i) && !i.reset && BusError(s, i)
    ensures var t := Step(s, cap, i); var e := s.Mid();
            && t.err && t.errLoc == e && e < t.Mid() && t.answers[e].verdict == SlvErr
            && (forall k :: 0 <= k < e ==> t.answers[k].verdict == Okay)
            && e in t.issued
  {
    EachError(s, cap, i);
  }

  /** Up to read number accepted: OKAY before the failed read e, SLVERR for it, DECERR after it. */
  ghost predicate AroundError(v: seq<Answer>, e: nat, accepted: nat) {
    forall k :: 0 <= k < accepted && k < |v| ==>
      v[k].verdict == if k < e then Okay else if k == e then SlvErr else DecErr
  }

  lemma AnswersAroundError(s: State, cap: nat, ins: seq<In>)
    requires cap > 0 && Inv(s, cap) && Clean(s) && RunOk(s, cap, ins) && |ins| > 0 && BusError(s, ins[0])
    requires NoReset(ins)
    ensures AroundError(Run(s, cap, ins).answers, s.Mid(), Step(s, cap, ins[0]).First())
  {
    var t := Step(s, cap, ins[0]);
    FirstError(s, cap, ins[0]);
    StepKeepsInv(s, cap, ins[0]);
    LaterReadsFail(t, cap, ins[1..]);
    ResponsesInOrder(t, cap, ins[1..]);
  }

  lemma PrefixAroundError(v: seq<Answer>, w: seq<Answer>, e: nat, accepted: nat)
    requires v <= w && AroundError(w, e, accepted)
    ensures AroundError(v, e, accepted)
  {}

  /** The responses over a run from reset whose first error comes after the clocks in pre. */
  lemma ErrorRunDelivers(q: State, cap: nat, pre: seq<In>, post: seq<In>)
    requires q == Reset() && cap > 0 && RunOk(q, cap, pre + post) && |post| > 0
    requires NoError(pre) && NoReset(post) && BusError(Run(q, cap, pre), post[0])
    ensures var s := Run(q, cap, pre);
            AroundError(Delivered(q, cap, pre + post), s.Mid(), Step(s, cap, post[0]).First())
  {
    var s := Run(q, cap, pre);
    RunConcat(q, cap, pre, post);
    CleanFromReset(q, cap, pre);
    AnswersAroundError(s, cap, post);
    DeliveredIsPrefix(q, cap, pre, post);
    PrefixAroundError(Delivered(q, cap, pre + post), Run(s, cap, post).answers, s.Mid(), Step(s, cap, post[0]).First());
  }

  lemma CleanFromReset(q: State, cap: nat, pre: seq<In>)
    requires q == Reset() && cap > 0 && RunOk(q, cap, pre) && NoError(pre)
    ensures Inv(Run(q, cap, pre), cap) && Clean(Run(q, cap, pre))
  {
    ResponsesInOrder(q, cap, pre);
    ErrorFreeAnswers(q, cap, pre);
  }

  lemma DeliveredIsPrefix(q: State, cap: nat, pre: seq<In>, post: seq<In>)
    requires q == Reset() && cap > 0 && RunOk(q, cap, pre + post) && NoReset(pre) && NoReset(post)
    ensures Delivered(q, cap, pre + post) <= Run(q, cap, pre + post).answers
  {
    var ins := pre + post;
    assert NoReset(ins);
    ResponsesInOrder(q, cap, ins);
  }

  lemma {:induction false} RunConcat(s: State, cap: nat, a: seq<In>, b: seq<In>)
    ensures Run(s, cap, a + b) == Run(Run(s, cap, a), cap, b)
    ensures RunOk(s, cap, a + b) <==> RunOk(s, cap, a) && RunOk(Run(s, cap, a), cap, b)
    decreases |a|
  {
    if |a| == 0 {
      assert a + b == b;
    } else {
      assert (a + b)[1..] == a[1..] + b;
      RunConcat(Step(s, cap, a[0]), cap, a[1..], b);
    }
  }
}
