/** What the read bridge takes in, and that it gets everything done: inputs on one side, progress on the other. */
module ReadBridgeFlow {
  import opened AxiResponse
  import opened Histories
  import opened ReadBridgeSpec

  // ----- What comes in -----

  function AddressHanded(s: State, i: In): seq<nat> { if i.arvalid && s.arready then [i.araddr] else [] }

  /** The byte addresses handed over on the AR channel during a run. */
  function AddressesHanded(s: State, cap: nat, ins: seq<In>): seq<nat>
    decreases |ins|
  {
    if |ins| == 0 then [] else AddressHanded(s, ins[0]) + AddressesHanded(Step(s, cap, ins[0]), cap, ins[1..])
  }

  lemma StepTakes(s: State, cap: nat, i: In, addrs: seq<nat>)
    requires !i.reset && WordsOf(s.ar, addrs)
    ensures WordsOf(Step(s, cap, i).ar, addrs + AddressHanded(s, i))
  {}

  /** The bridge records, and so goes on to issue, the word of every address handed over, in order. */
  lemma {:induction false} TakesWhatIsHanded(s: State, cap: nat, ins: seq<In>, addrs: seq<nat>)
    requires NoReset(ins) && WordsOf(s.ar, addrs)
    ensures WordsOf(Run(s, cap, ins).ar, addrs + AddressesHanded(s, cap, ins))
    decreases |ins|
  {
    if |ins| > 0 {
      var n := Step(s, cap, ins[0]);
      StepTakes(s, cap, ins[0], addrs);
      TakesWhatIsHanded(n, cap, ins[1..], addrs + AddressHanded(s, ins[0]));
      Regroup(addrs, AddressHanded(s, ins[0]), AddressesHanded(n, cap, ins[1..]));
    } else {
      assert addrs + AddressesHanded(s, cap, ins) == addrs;
    }
  }

  // ----- One clock of progress -----

  /** A reset leaves the bridge idle and ready. */
  lemma ResetIsIdle(s: State, cap: nat, i: In)
    requires i.reset
    ensures var t := Step(s, cap, i); t.arready && !t.stb && !t.Rvalid() && !t.Cyc() && !t.err
  {}

  /** A read that is accepted is on the bus on the next clock, or waits behind the one that is. */
  lemma ReadIsOffered(s: State, cap: nat, i: In)
    requires cap > 0 && Inv(s, cap) && !i.reset && i.arvalid && s.arready && !BusError(s, i)
    ensures var t := Step(s, cap, i); t.stb && t.First() == s.First() + 1 && t.Waiting() > 0
  {}

  /** The ready flag is up after every clock on which the bus moves and that leaves room, errors aside. */
  lemma ReadyComesBack(s: State, cap: nat, i: In)
    requires cap > 0 && Inv(s, cap) && !i.reset && !s.err && !BusError(s, i) && !(s.stb && i.stall)
    requires var t := Step(s, cap, i); t.First() < t.last + cap
    ensures Step(s, cap, i).arready
  {}

  /** An ACK is the answer, with its data, of the oldest read without one; so is an ERR. */
  lemma AnswerIsRecorded(s: State, cap: nat, i: In)
    requires cap > 0 && Inv(s, cap) && SlaveOk(s, i) && !i.reset && s.Cyc() && (i.ack || i.err)
    ensures Step(s, cap, i).answers == s.answers + [Answer(if i.ack then Okay else SlvErr, i.data)]
  {}

  /** While draining one DECERR a clock is made up until every read has its answer, whether or not any are taken. */
  lemma DrainAnswersAll(s: State, cap: nat, i: In)
    requires cap > 0 && Inv(s, cap) && SlaveOk(s, i) && !i.reset && s.err
    ensures Step(s, cap, i).answers == s.answers + if s.Mid() != s.First() then [Answer(DecErr, 0)] else []
  {}

  /** A read that has its answer is answered on the next clock on which the AXI side is ready and it is its turn. */
  lemma AnswerIsHanded(s: State, cap: nat, i: In)
    requires cap > 0 && Inv(s, cap) && SlaveOk(s, i) && !i.reset && s.last < s.Mid() && i.rready
    ensures Step(s, cap, i).last == s.last + 1 && Handed(s, i) == [s.answers[s.last]]
  {}

  // ----- Progress over runs -----

  /** Ready clocks deliver, one answer each, as long as there are any, in error mode as well. */
  lemma {:induction false} ReadyClocksDeliver(s: State, cap: nat, ins: seq<In>)
    requires cap > 0 && Inv(s, cap) && RunOk(s, cap, ins) && NoReset(ins)
    ensures var t := Run(s, cap, ins); t.last >= s.Mid() || t.last >= s.last + ReadyClocks(ins)
    decreases |ins|
  {
    if |ins| > 0 {
      StepKeepsInv(s, cap, ins[0]);
      StepHandsNext(s, cap, ins[0]);
      if s.last < s.Mid() && ins[0].rready { AnswerIsHanded(s, cap, ins[0]); }
      ReadyClocksDeliver(Step(s, cap, ins[0]), cap, ins[1..]);
      ResponsesInOrder(Step(s, cap, ins[0]), cap, ins[1..]);
    }
  }

  /** Enough ready clocks, whenever they come, deliver every answer there is. */
  lemma DeliveryCatchesUp(s: State, cap: nat, ins: seq<In>)
    requires cap > 0 && Inv(s, cap) && RunOk(s, cap, ins) && NoReset(ins) && ReadyClocks(ins) >= s.Mid() - s.last
    ensures s.last <= s.Mid() && s.answers[s.last..] <= Delivered(s, cap, ins)
  {
    ReadyClocksDeliver(s, cap, ins);
    ResponsesInOrder(s, cap, ins);
    var t := Run(s, cap, ins);
    assert s.answers[s.last..] == t.answers[s.last..s.Mid()];
  }

  lemma PrefixOfPrefix<T>(a: seq<T>, d: seq<T>, whole: seq<T>)
    requires a <= whole && d <= whole && |a| <= |d|
    ensures a <= d
  {}

  lemma CatchesUp(s: State, cap: nat, ins: seq<In>)
    requires cap > 0 && Inv(s, cap) && RunOk(s, cap, ins) && NoReset(ins) && ReadyClocks(ins) >= s.Mid()
    ensures Run(s, cap, ins).last >= s.Mid() && s.answers <= Run(s, cap, ins).answers
  {
    ReadyClocksDeliver(s, cap, ins);
    ResponsesInOrder(s, cap, ins);
  }

  lemma AfterPrefix(q: State, cap: nat, pre: seq<In>, post: seq<In>) returns (s: State)
    requires q == Reset() && cap > 0 && RunOk(q, cap, pre + post) && NoError(pre)
    ensures Inv(s, cap) && s.answers == Acked(q, cap, pre)
    ensures RunOk(s, cap, post) && Run(q, cap, pre + post) == Run(s, cap, post)
  {
    s := Run(q, cap, pre);
    RunConcat(q, cap, pre, post);
    CleanFromReset(q, cap, pre);
    ErrorFreeAnswers(q, cap, pre);
  }

  lemma DeliveredCount(q: State, cap: nat, ins: seq<In>)
    requires q == Reset() && cap > 0 && RunOk(q, cap, ins) && NoReset(ins)
    ensures |Delivered(q, cap, ins)| == Run(q, cap, ins).last
  {
    ResponsesInOrder(q, cap, ins);
  }

  /** From reset: as many ready clocks after an error-free run as it had ACKs, and all of their data is delivered. */
  lemma AllAckedIsDelivered(q: State, cap: nat, pre: seq<In>, post: seq<In>)
    requires q == Reset() && cap > 0 && RunOk(q, cap, pre + post) && NoError(pre) && NoReset(post)
    requires ReadyClocks(post) >= |Acked(q, cap, pre)|
    ensures Acked(q, cap, pre) <= Delivered(q, cap, pre + post)
  {
    var s := AfterPrefix(q, cap, pre, post);
    CatchesUp(s, cap, post);
    DeliveredCount(q, cap, pre + post);
    DeliveredIsPrefix(q, cap, pre, post);
    PrefixOfPrefix(Acked(q, cap, pre), Delivered(q, cap, pre + post), Run(q, cap, pre + post).answers);
  }

  /** In an error-free run from reset the k-th read on Wishbone is of the word of the k-th address handed over. */
  lemma ReadsWhatIsHanded(q: State, cap: nat, ins: seq<In>)
    requires q == Reset() && cap > 0 && RunOk(q, cap, ins) && NoError(ins)
    ensures var s, addrs := Run(q, cap, ins), AddressesHanded(q, cap, ins);
            && |s.ar| == |addrs| && |s.issued| == |addrs| - s.Waiting()
            && forall k :: 0 <= k < |s.issued| ==> s.issued[k] == k && IsWordOf(s.ar[s.issued[k]], addrs[k])
  {
    ErrorFreeRunIsTransparent(q, cap, ins);
    TakesWhatIsHanded(q, cap, ins, []);
    assert [] + AddressesHanded(q, cap, ins) == AddressesHanded(q, cap, ins);
  }

  /** A clock that does not stand in the way: the bus moves, an open request is answered, and a response is taken. */
  predicate Helps(s: State, i: In) {
    !i.stall && i.rready && (s.Outstanding() > 0 ==> i.ack)
  }

  function HelpfulClocks(s: State, cap: nat, ins: seq<In>): nat
    decreases |ins|
  {
    if |ins| == 0 then 0
    else (if Helps(s, ins[0]) then 1 else 0) + HelpfulClocks(Step(s, cap, ins[0]), cap, ins[1..])
  }

  /** What the first k reads still have before them: issue, answer and response of each. */
  function Owed(s: State, k: nat): nat {
    Short(k, s.First() - s.Waiting()) + Short(k, s.Mid()) + Short(k, s.last)
  }

  lemma OwedFalls(s: State, cap: nat, i: In, k: nat)
    requires cap > 0 && CountInv(s, cap) && SlaveOk(s, i) && !i.reset && !i.err && !s.err && k <= s.First()
    ensures var t := Step(s, cap, i);
            && !t.err && k <= t.First() && Owed(t, k) <= Owed(s, k)
            && (Helps(s, i) && s.last < k ==> Owed(t, k) < Owed(s, k))
  {}

  lemma {:induction false} OwedIsPaid(s: State, cap: nat, ins: seq<In>, k: nat)
    requires cap > 0 && Inv(s, cap) && RunOk(s, cap, ins) && !s.err && k <= s.First() && NoError(ins)
    ensures Run(s, cap, ins).last >= k || Owed(Run(s, cap, ins), k) + HelpfulClocks(s, cap, ins) <= Owed(s, k)
    decreases |ins|
  {
    if |ins| > 0 {
      StepKeepsInv(s, cap, ins[0]);
      OwedFalls(s, cap, ins[0], k);
      OwedIsPaid(Step(s, cap, ins[0]), cap, ins[1..], k);
      if s.last >= k { ResponsesInOrder(s, cap, ins); }
    }
  }

  /**
   Every accepted read is answered: outside errors, whatever else is offered meanwhile, three helpful clocks for each
   read not yet answered are enough, whenever they come.
   */
  lemma EveryReadIsAnswered(s: State, cap: nat, ins: seq<In>, k: nat)
    requires cap > 0 && Inv(s, cap) && RunOk(s, cap, ins) && !s.err && s.last <= k <= s.First() && NoError(ins)
    requires HelpfulClocks(s, cap, ins) >= 3 * (k - s.last)
    ensures Run(s, cap, ins).last >= k
  {
    OwedIsPaid(s, cap, ins, k);
    assert Owed(s, k) <= 3 * (k - s.last);
  }
}
