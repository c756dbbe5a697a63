/** What the write bridge takes in, and that it gets everything done: inputs on one side, progress on the other. */
module WriteBridgeFlow {
  import opened AxiResponse
  import opened Histories
  import opened Pointers
  import opened WriteBridgeSpec

  ghost predicate NoReset(ins: seq<In>) {
    forall n :: 0 <= n < |ins| ==> !ins[n].reset
  }

  // ----- What comes in -----

  function AddressHanded(s: State, i: In): seq<nat> { if i.awvalid && s.awready then [i.awaddr] else [] }

  function BeatHanded(s: State, i: In): seq<Beat> { if i.wvalid && s.wready then [i.beat] else [] }

  /** The byte addresses handed over on the AW channel during a run. */
  function AddressesHanded(s: State, cap: nat, ins: seq<In>): seq<nat>
    requires cap > 0
    decreases |ins|
  {
    if |ins| == 0 then [] else AddressHanded(s, ins[0]) + AddressesHanded(Step(s, cap, ins[0]), cap, ins[1..])
  }

  /** The data and strobes handed over on the W channel during a run. */
  function BeatsHanded(s: State, cap: nat, ins: seq<In>): seq<Beat>
    requires cap > 0
    decreases |ins|
  {
    if |ins| == 0 then [] else BeatHanded(s, ins[0]) + BeatsHanded(Step(s, cap, ins[0]), cap, ins[1..])
  }

  lemma StepTakes(s: State, cap: nat, i: In, addrs: seq<nat>)
    requires cap > 0 && !i.reset && WordsOf(s.aw, addrs)
    ensures WordsOf(Step(s, cap, i).aw, addrs + AddressHanded(s, i))
    ensures Step(s, cap, i).w == s.w + BeatHanded(s, i)
  {}

  /**
   The bridge records, and so goes on to issue, exactly what is handed over, in order: of every address the word that
   holds it, and every beat with its data and strobes as they are.
   */
  lemma {:induction false} TakesWhatIsHanded(s: State, cap: nat, ins: seq<In>, addrs: seq<nat>)
    requires cap > 0 && NoReset(ins) && WordsOf(s.aw, addrs)
    ensures WordsOf(Run(s, cap, ins).aw, addrs + AddressesHanded(s, cap, ins))
    ensures Run(s, cap, ins).w == s.w + BeatsHanded(s, cap, ins)
    decreases |ins|
  {
    if |ins| > 0 {
      var n := Step(s, cap, ins[0]);
      StepTakes(s, cap, ins[0], addrs);
      TakesWhatIsHanded(n, cap, ins[1..], addrs + AddressHanded(s, ins[0]));
      Regroup(addrs, AddressHanded(s, ins[0]), AddressesHanded(n, cap, ins[1..]));
      Regroup(s.w, BeatHanded(s, ins[0]), BeatsHanded(n, cap, ins[1..]));
    } else {
      assert addrs + AddressesHanded(s, cap, ins) == addrs && s.w + BeatsHanded(s, cap, ins) == s.w;
    }
  }

  /** The k-th write that the slave has accepted is the k-th address and the k-th beat handed over. */
  ghost predicate WrittenAsHanded(s: State, addrs: seq<nat>, beats: seq<Beat>) {
    && |s.issued| <= |addrs| && |s.issued| <= |beats|
    && (forall j :: 0 <= j < |s.issued| ==> s.issued[j] < |s.aw| && s.issued[j] < |s.w|)
    && forall k :: 0 <= k < |s.issued| ==> IsWordOf(Seen(s)[k].0, addrs[k]) && Seen(s)[k].1 == beats[k]
  }

  lemma CleanWrites(s: State, cap: nat, addrs: seq<nat>, beats: seq<Beat>)
    requires Inv(s, cap) && Clean(s) && WordsOf(s.aw, addrs) && s.w == beats
    ensures WrittenAsHanded(s, addrs, beats)
  {
    CleanPairs(s, cap);
  }

  lemma TakesFromReset(q: State, cap: nat, ins: seq<In>)
    requires q == Reset() && cap > 0 && NoReset(ins)
    ensures WordsOf(Run(q, cap, ins).aw, AddressesHanded(q, cap, ins)) && Run(q, cap, ins).w == BeatsHanded(q, cap, ins)
  {
    TakesWhatIsHanded(q, cap, ins, []);
    assert [] + AddressesHanded(q, cap, ins) == AddressesHanded(q, cap, ins);
  }

  /** So it is in every error-free run from reset. */
  lemma WritesWhatIsHanded(q: State, cap: nat, ins: seq<In>)
    requires q == Reset() && cap > 0 && RunOk(q, cap, ins)
    requires forall n :: 0 <= n < |ins| ==> !ins[n].reset && !ins[n].err
    ensures WrittenAsHanded(Run(q, cap, ins), AddressesHanded(q, cap, ins), BeatsHanded(q, cap, ins))
  {
    RunKeepsInv(q, cap, ins);
    NoErrorKeepsClean(q, cap, ins);
    TakesFromReset(q, cap, ins);
    CleanWrites(Run(q, cap, ins), cap, AddressesHanded(q, cap, ins), BeatsHanded(q, cap, ins));
  }

  // ----- One clock of progress -----

  /** A reset leaves the bridge idle and ready. */
  lemma ResetIsIdle(s: State, cap: nat, i: In)
    requires cap > 0 && i.reset
    ensures var t := Step(s, cap, i); t.awready && t.wready && !t.stb && !t.Bvalid() && !t.Cyc() && !t.err
  {}

  /** An address and data that are both there are launched as soon as the bus moves and the buffer has room. */
  lemma PairIsLaunched(s: State, cap: nat, i: In)
    requires cap > 0 && Inv(s, cap) && !i.reset && !s.err && !(s.stb && i.stall) && !s.Full(cap)
    requires (s.HoldsAw() || (i.awvalid && s.awready)) && (s.HoldsW() || (i.wvalid && s.wready))
    ensures var t := Step(s, cap, i);
            t.first == s.first + 1 && !t.HoldsAw() && !t.HoldsW() && (BusError(s, i) || t.stb)
  {}

  /**
   Which channels are ready again right after a launch: the address if a response is taken or the pointers stay on one
   lap, and the data in these cases or if it came from its holding register.
   */
  lemma ReadyAfterLaunchIff(s: State, cap: nat, i: In)
    requires cap > 0 && Inv(s, cap) && !i.reset && !s.err && !(s.stb && i.stall) && !s.Full(cap)
    requires (s.HoldsAw() || (i.awvalid && s.awready)) && (s.HoldsW() || (i.wvalid && s.wready))
    ensures var t, taken, lap := Step(s, cap, i), Taken(s, i), LapOf(cap, s.first + 1) == LapOf(cap, s.last);
            && (t.awready <==> taken || lap)
            && (t.wready <==> taken || lap || s.HoldsW())
  {}

  /** One write is taken and launched on every clock while the bus moves and responses are taken, or the lap lasts. */
  lemma WritesFollowWithoutGap(s: State, cap: nat, i: In)
    requires cap > 0 && Inv(s, cap) && !i.reset && !s.err && !(s.stb && i.stall) && !s.Full(cap)
    requires s.awready && s.wready && i.awvalid && i.wvalid
    requires Taken(s, i) || LapOf(cap, s.first + 1) == LapOf(cap, s.last)
    ensures var t := Step(s, cap, i); t.first == s.first + 1 && t.awready && t.wready
  {}

  /** An ACK or ERR is the verdict of the oldest write without one. */
  lemma AnswerIsRecorded(s: State, cap: nat, i: In)
    requires cap > 0 && Inv(s, cap) && SlaveOk(s, i) && !i.reset && s.Cyc() && (i.ack || i.err)
    ensures Step(s, cap, i).verdicts == s.verdicts + [if i.ack then Okay else SlvErr]
  {}

  /** While draining one DECERR a clock is made up until every write has its verdict, whether or not any are taken. */
  lemma DrainAnswersAll(s: State, cap: nat, i: In)
    requires cap > 0 && Inv(s, cap) && SlaveOk(s, i) && !i.reset && s.err
    ensures Step(s, cap, i).verdicts == s.verdicts + if s.Mid() != s.first then [DecErr] else []
  {}

  /** A write that has its verdict is answered on the next clock on which the AXI side is ready and it is its turn. */
  lemma VerdictIsHanded(s: State, cap: nat, i: In)
    requires cap > 0 && Inv(s, cap) && SlaveOk(s, i) && !i.reset && s.last < s.Mid() && i.bready
    ensures Step(s, cap, i).last == s.last + 1 && Handed(s, i) == [s.verdicts[s.last]]
  {}

  // ----- Progress over runs -----

  /** Ready clocks deliver, one verdict each, as long as there are any, in error mode as well. */
  lemma {:induction false} ReadyClocksDeliver(s: State, cap: nat, ins: seq<In>)
    requires cap > 0 && Inv(s, cap) && RunOk(s, cap, ins) && NoReset(ins)
    ensures var t := Run(s, cap, ins); t.last >= s.Mid() || t.last >= s.last + ReadyClocks(ins)
    decreases |ins|
  {
    if |ins| > 0 {
      StepKeepsInv(s, cap, ins[0]);
      StepHandsNext(s, cap, ins[0]);
      if s.last < s.Mid() && ins[0].bready { VerdictIsHanded(s, cap, ins[0]); }
      ReadyClocksDeliver(Step(s, cap, ins[0]), cap, ins[1..]);
      ResponsesInOrder(Step(s, cap, ins[0]), cap, ins[1..]);
    }
  }

  /** Enough ready clocks, whenever they come, deliver every verdict there is. */
  lemma DeliveryCatchesUp(s: State, cap: nat, ins: seq<In>)
    requires cap > 0 && Inv(s, cap) && RunOk(s, cap, ins) && NoReset(ins) && ReadyClocks(ins) >= s.Mid() - s.last
    ensures s.last <= s.Mid() && s.verdicts[s.last..] <= Delivered(s, cap, ins)
  {
    ReadyClocksDeliver(s, cap, ins);
    ResponsesInOrder(s, cap, ins);
    var t := Run(s, cap, ins);
    assert s.verdicts[s.last..] == t.verdicts[s.last..s.Mid()];
  }

  /** A clock that does not stand in the way: the bus moves, an open request is answered, and a response is taken. */
  predicate Helps(s: State, i: In) {
    !i.stall && i.bready && (s.Outstanding() > 0 ==> i.ack)
  }

  function HelpfulClocks(s: State, cap: nat, ins: seq<In>): nat
    requires cap > 0
    decreases |ins|
  {
    if |ins| == 0 then 0
    else (if Helps(s, ins[0]) then 1 else 0) + HelpfulClocks(Step(s, cap, ins[0]), cap, ins[1..])
  }

  /** What the first k writes still have before them: launch, issue, verdict and response of each. */
  function Owed(s: State, k: nat): nat {
    Short(k, s.first) + Short(k, s.first - if s.stb then 1 else 0) + Short(k, s.Mid()) + Short(k, s.last)
  }

  lemma OwedFalls(s: State, cap: nat, i: In, k: nat)
    requires cap > 0 && CountInv(s, cap) && SlaveOk(s, i) && !i.reset && !i.err && !s.err
    requires k <= |s.aw| && k <= |s.w|
    ensures var t := Step(s, cap, i);
            && !t.err && k <= |t.aw| && k <= |t.w| && Owed(t, k) <= Owed(s, k)
            && (Helps(s, i) && s.last < k ==> Owed(t, k) < Owed(s, k))
  {}

  lemma {:induction false} OwedIsPaid(s: State, cap: nat, ins: seq<In>, k: nat)
    requires cap > 0 && Inv(s, cap) && RunOk(s, cap, ins) && !s.err && k <= |s.aw| && k <= |s.w|
    requires forall n :: 0 <= n < |ins| ==> !ins[n].reset && !ins[n].err
    ensures Run(s, cap, ins).last >= k || Owed(Run(s, cap, ins), k) + HelpfulClocks(s, cap, ins) <= Owed(s, k)
    decreases |ins|
  {
    if |ins| > 0 {
      var n := Step(s, cap, ins[0]);
      StepKeepsInv(s, cap, ins[0]);
      OwedFalls(s, cap, ins[0], k);
      OwedIsPaid(n, cap, ins[1..], k);
      if s.last >= k { ResponsesInOrder(s, cap, ins); }
    }
  }

  /**
   Every write whose address and data have been accepted is answered: outside errors, whatever else is offered
   meanwhile, four helpful clocks for each write not yet answered are enough, whenever they come.
   */
  lemma EveryWriteIsAnswered(s: State, cap: nat, ins: seq<In>, k: nat)
    requires cap > 0 && Inv(s, cap) && RunOk(s, cap, ins) && !s.err && s.last <= k <= |s.aw| && k <= |s.w|
    requires forall n :: 0 <= n < |ins| ==> !ins[n].reset && !ins[n].err
    requires HelpfulClocks(s, cap, ins) >= 4 * (k - s.last)
    ensures Run(s, cap, ins).last >= k
  {
    OwedIsPaid(s, cap, ins, k);
    assert Owed(s, k) <= 4 * (k - s.last);
  }
}
