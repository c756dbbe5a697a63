/**
 axlite2wbsp: the read bridge and the write bridge share one Wishbone through the arbiter, reads on channel A and
 writes on channel B. Only the slave behind the arbiter is assumed to follow Wishbone B4; what either bridge assumes
 of its own Wishbone side, and the arbiter of its masters, is proved here.
 */
module AdapterSpec {
  import Arb = Arbiter
  import R = ReadBridgeSpec
  import W = WriteBridgeSpec
  import RF = ReadBridgeFlow
  import WF = WriteBridgeFlow
  import AxiResponse
  import opened Histories

  datatype In = In(reset: bool,
                   arvalid: bool, araddr: nat, rready: bool,
                   awvalid: bool, awaddr: nat, wvalid: bool, beat: W.Beat, bready: bool,
                   reply: Arb.Reply, data: nat)

  // A request that the slave has accepted: the n-th read or write of its channel
  datatype Accepted = Accepted(m: Arb.Master, n: nat)

  datatype State = State(rd: R.State, wr: W.State, arb: Arb.State, seen: seq<Accepted>)

  function Reset(): State {
    State(R.Reset(), W.Reset(), Arb.Reset(), [])
  }

  // ----- Wires -----

  /** The arbiter's inputs; what travels along with a request is of no account here. */
  function Wires(s: State, i: In): Arb.In<()> {
    Arb.In(Arb.Port(s.rd.Cyc(), s.rd.stb, ()), Arb.Port(s.wr.Cyc(), s.wr.stb, ()), i.reply)
  }

  function ReadIn(s: State, i: In): R.In {
    var r := Arb.ReplyTo(s.arb, Wires(s, i), Arb.A);
    R.In(i.reset, i.arvalid, i.araddr, i.rready, r.stall, r.ack, i.data, r.err)
  }

  function WriteIn(s: State, i: In): W.In {
    var r := Arb.ReplyTo(s.arb, Wires(s, i), Arb.B);
    W.In(i.reset, i.awvalid, i.awaddr, i.wvalid, i.beat, i.bready, r.stall, r.ack, r.err)
  }

  /** All that is assumed: within a cycle the slave ends only requests it has accepted, one at a time. */
  predicate SlaveOk(s: State, i: In) {
    Arb.Cyc(s.arb, Wires(s, i)) ==>
      && !(i.reply.ack && i.reply.err)
      && (i.reply.ack || i.reply.err ==> |Arb.InFlight(s.arb, Wires(s, i))| > 0)
  }

  // ----- One clock -----

  /** The request on the shared bus. */
  function Offered(s: State): Accepted {
    if s.arb.owner.A? then Accepted(Arb.A, if s.rd.First() < s.rd.Waiting() then 0 else s.rd.First() - s.rd.Waiting())
    else Accepted(Arb.B, if s.wr.first == 0 then 0 else s.wr.first - 1)
  }

  // What o_wb_we, o_wb_addr, o_wb_data and o_wb_sel say together
  datatype Request = ReadOf(addr: nat) | WriteOf(at: nat, beat: W.Beat)

  /** r is the request offered: the address accepted at that place, for a write with the data accepted there. */
  ghost predicate IsOffered(s: State, r: Request) {
    var n := Offered(s).n;
    if s.arb.owner.A? then n < |s.rd.ar| && r == ReadOf(s.rd.ar[n])
    else n < |s.wr.aw| && n < |s.wr.w| && r == WriteOf(s.wr.aw[n], s.wr.w[n])
  }

  function SeenAfter(s: State, i: In): seq<Accepted> {
    if i.reset then [] else if Arb.Accepts(s.arb, Wires(s, i)) then s.seen + [Offered(s)] else s.seen
  }

  /** The arbiter takes no part in a reset. */
  function Step(s: State, cap: nat, i: In): State
    requires cap > 0
  {
    State(R.Step(s.rd, cap, ReadIn(s, i)), W.Step(s.wr, cap, WriteIn(s, i)), Arb.Step(s.arb, Wires(s, i)),
          SeenAfter(s, i))
  }

  // ----- Invariants -----

  /** Of the accepted requests, those of one channel. */
  function Of(seen: seq<Accepted>, m: Arb.Master): seq<nat> {
    if |seen| == 0 then []
    else
      var last := |seen| - 1;
      Of(seen[..last], m) + if seen[last].m == m then [seen[last].n] else []
  }

  /** During a bridge's cycle the arbiter counts as many of its requests open as the bridge itself does. */
  ghost predicate CountsAgree(s: State) {
    && (s.rd.Cyc() ==> s.arb.Out(Arb.A) == s.rd.Outstanding())
    && (s.wr.Cyc() ==> s.arb.Out(Arb.B) == s.wr.Outstanding())
  }

  /** The slave has seen what the two bridges have issued, each bridge's requests in its own order. */
  ghost predicate SeenIsIssued(s: State) {
    Of(s.seen, Arb.A) == s.rd.issued && Of(s.seen, Arb.B) == s.wr.issued
  }

  ghost predicate Inv(s: State, cap: nat) {
    R.Inv(s.rd, cap) && W.Inv(s.wr, cap) && Arb.Inv(s.arb) && CountsAgree(s) && SeenIsIssued(s)
  }

  lemma ResetKeepsInv(s: State, cap: nat)
    requires s == Reset() && cap > 0
    ensures Inv(s, cap)
  {
    R.ResetHolds(s.rd, cap);
    W.ResetHolds(s.wr, cap);
  }

  /** The assumptions of both bridges and of the arbiter follow from that on the one slave. */
  lemma EveryoneIsServed(s: State, cap: nat, i: In)
    requires Arb.Inv(s.arb) && CountsAgree(s) && SlaveOk(s, i)
    ensures R.SlaveOk(s.rd, ReadIn(s, i)) && W.SlaveOk(s.wr, WriteIn(s, i)) && Arb.EnvOk(s.arb, Wires(s, i))
  {}

  lemma StepKeepsReadCount(s: State, cap: nat, i: In)
    requires cap > 0 && R.CountInv(s.rd, cap) && Arb.Inv(s.arb) && CountsAgree(s) && SlaveOk(s, i)
    ensures var t := Step(s, cap, i); t.rd.Cyc() ==> t.arb.Out(Arb.A) == t.rd.Outstanding()
  {}

  lemma StepKeepsWriteCount(s: State, cap: nat, i: In)
    requires cap > 0 && W.CountInv(s.wr, cap) && Arb.Inv(s.arb) && CountsAgree(s) && SlaveOk(s, i)
    ensures var t := Step(s, cap, i); t.wr.Cyc() ==> t.arb.Out(Arb.B) == t.wr.Outstanding()
  {}

  lemma OfOwn(seen: seq<Accepted>, m: Arb.Master, n: nat)
    ensures Of(seen + [Accepted(m, n)], m) == Of(seen, m) + [n]
  {
    assert (seen + [Accepted(m, n)])[..|seen|] == seen;
  }

  lemma OfOther(seen: seq<Accepted>, x: Accepted, m: Arb.Master)
    requires x.m != m
    ensures Of(seen + [x], m) == Of(seen, m)
  {
    assert (seen + [x])[..|seen|] == seen;
  }

  /** The slave takes a request exactly when the bridge that owns the bus sees it taken. */
  lemma TakenFromOwner(s: State, i: In)
    ensures Arb.Accepts(s.arb, Wires(s, i)) && s.arb.owner.A? <==> s.rd.stb && !ReadIn(s, i).stall
    ensures Arb.Accepts(s.arb, Wires(s, i)) && s.arb.owner.B? <==> s.wr.stb && !WriteIn(s, i).stall
  {}

  lemma SeenReads(s: State, i: In)
    requires s.rd.Waiting() <= s.rd.First() && Of(s.seen, Arb.A) == s.rd.issued
    ensures Of(SeenAfter(s, i), Arb.A) == if i.reset then [] else R.IssuedAfter(s.rd, ReadIn(s, i))
  {
    TakenFromOwner(s, i);
    if s.arb.owner.A? {
      OfOwn(s.seen, Arb.A, s.rd.First() - s.rd.Waiting());
    } else {
      OfOther(s.seen, Offered(s), Arb.A);
    }
  }

  lemma SeenWrites(s: State, i: In)
    requires (s.wr.stb ==> s.wr.first > 0) && Of(s.seen, Arb.B) == s.wr.issued
    ensures Of(SeenAfter(s, i), Arb.B) == if i.reset then [] else W.IssuedAfter(s.wr, WriteIn(s, i))
  {
    TakenFromOwner(s, i);
    if s.arb.owner.B? {
      if s.wr.stb { OfOwn(s.seen, Arb.B, s.wr.first - 1); }
    } else {
      OfOther(s.seen, Offered(s), Arb.B);
    }
  }

  lemma StepKeepsSeen(s: State, cap: nat, i: In)
    requires cap > 0 && R.CountInv(s.rd, cap) && W.CountInv(s.wr, cap) && SeenIsIssued(s)
    ensures SeenIsIssued(Step(s, cap, i))
  {
    SeenReads(s, i);
    SeenWrites(s, i);
  }

  lemma StepKeepsInv(s: State, cap: nat, i: In)
    requires cap > 0 && Inv(s, cap) && SlaveOk(s, i)
    ensures Inv(Step(s, cap, i), cap)
  {
    EveryoneIsServed(s, cap, i);
    R.StepKeepsInv(s.rd, cap, ReadIn(s, i));
    W.StepKeepsInv(s.wr, cap, WriteIn(s, i));
    Arb.StepKeepsInv(s.arb, Wires(s, i));
    StepKeepsReadCount(s, cap, i);
    StepKeepsWriteCount(s, cap, i);
    StepKeepsSeen(s, cap, i);
  }

  /** Each response channel moves on exactly when its own ready is up and the next answer is there. */
  lemma ResponsesAreTaken(s: State, cap: nat, i: In)
    requires cap > 0 && Inv(s, cap) && SlaveOk(s, i) && !i.reset
    ensures var t := Step(s, cap, i);
            && t.rd.last == s.rd.last + (if i.rready && s.rd.last < s.rd.Mid() then 1 else 0)
            && t.wr.last == s.wr.last + (if i.bready && s.wr.last < s.wr.Mid() then 1 else 0)
  {}

  // ----- Whole runs -----

  function Run(s: State, cap: nat, ins: seq<In>): State
    requires cap > 0
    decreases |ins|
  {
    if |ins| == 0 then s else Run(Step(s, cap, ins[0]), cap, ins[1..])
  }

  predicate RunOk(s: State, cap: nat, ins: seq<In>)
    requires cap > 0
    decreases |ins|
  {
    |ins| == 0 || (SlaveOk(s, ins[0]) && RunOk(Step(s, cap, ins[0]), cap, ins[1..]))
  }

  /** The run as the read bridge sees it. */
  function ReadIns(s: State, cap: nat, ins: seq<In>): (rs: seq<R.In>)
    requires cap > 0
    ensures |rs| == |ins|
    decreases |ins|
  {
    if |ins| == 0 then [] else [ReadIn(s, ins[0])] + ReadIns(Step(s, cap, ins[0]), cap, ins[1..])
  }

  /** The run as the write bridge sees it. */
  function WriteIns(s: State, cap: nat, ins: seq<In>): (ws: seq<W.In>)
    requires cap > 0
    ensures |ws| == |ins|
    decreases |ins|
  {
    if |ins| == 0 then [] else [WriteIn(s, ins[0])] + WriteIns(Step(s, cap, ins[0]), cap, ins[1..])
  }

  /**
   Every run of the whole adapter is a run of each bridge alone with a well-behaved slave, so all that is proved of
   the bridges holds in it; and what the shared slave accepts is the two bridges' requests, each in its own order.
   */
  lemma {:induction false} RunIsTwoRuns(s: State, cap: nat, ins: seq<In>)
    requires cap > 0 && Inv(s, cap) && RunOk(s, cap, ins)
    ensures Inv(Run(s, cap, ins), cap)
    ensures R.RunOk(s.rd, cap, ReadIns(s, cap, ins)) && W.RunOk(s.wr, cap, WriteIns(s, cap, ins))
    ensures Run(s, cap, ins).rd == R.Run(s.rd, cap, ReadIns(s, cap, ins))
    ensures Run(s, cap, ins).wr == W.Run(s.wr, cap, WriteIns(s, cap, ins))
    decreases |ins|
  {
    if |ins| > 0 {
      var n := Step(s, cap, ins[0]);
      EveryoneIsServed(s, cap, ins[0]);
      StepKeepsInv(s, cap, ins[0]);
      RunIsTwoRuns(n, cap, ins[1..]);
      assert ReadIns(s, cap, ins)[1..] == ReadIns(n, cap, ins[1..]);
      assert WriteIns(s, cap, ins)[1..] == WriteIns(n, cap, ins[1..]);
    }
  }

  ghost predicate NoError(ins: seq<In>) {
    forall n :: 0 <= n < |ins| ==> !ins[n].reset && !ins[n].reply.err
  }

  lemma {:induction false} NoErrorForEither(s: State, cap: nat, ins: seq<In>)
    requires cap > 0 && NoError(ins)
    ensures R.NoError(ReadIns(s, cap, ins))
    ensures forall n :: 0 <= n < |ins| ==> !WriteIns(s, cap, ins)[n].reset && !WriteIns(s, cap, ins)[n].err
    decreases |ins|
  {
    if |ins| > 0 {
      NoErrorForEither(Step(s, cap, ins[0]), cap, ins[1..]);
    }
  }

  // ----- What passes the adapter's own ports -----

  /** The byte addresses handed over on the AR channel during a run. */
  function ReadAddresses(s: State, cap: nat, ins: seq<In>): seq<nat>
    requires cap > 0
    decreases |ins|
  {
    if |ins| == 0 then []
    else (if ins[0].arvalid && s.rd.arready then [ins[0].araddr] else [])
         + ReadAddresses(Step(s, cap, ins[0]), cap, ins[1..])
  }

  /** The byte addresses handed over on the AW channel. */
  function WriteAddresses(s: State, cap: nat, ins: seq<In>): seq<nat>
    requires cap > 0
    decreases |ins|
  {
    if |ins| == 0 then []
    else (if ins[0].awvalid && s.wr.awready then [ins[0].awaddr] else [])
         + WriteAddresses(Step(s, cap, ins[0]), cap, ins[1..])
  }

  /** The data and strobes handed over on the W channel. */
  function Beats(s: State, cap: nat, ins: seq<In>): seq<W.Beat>
    requires cap > 0
    decreases |ins|
  {
    if |ins| == 0 then []
    else (if ins[0].wvalid && s.wr.wready then [ins[0].beat] else []) + Beats(Step(s, cap, ins[0]), cap, ins[1..])
  }

  /** The data on the shared bus on the clocks on which the slave acknowledges a read. */
  function ReadAcks(s: State, cap: nat, ins: seq<In>): seq<nat>
    requires cap > 0
    decreases |ins|
  {
    if |ins| == 0 then []
    else (if s.arb.owner.A? && s.rd.Cyc() && ins[0].reply.ack then [ins[0].data] else [])
         + ReadAcks(Step(s, cap, ins[0]), cap, ins[1..])
  }

  lemma {:induction false} ReadPorts(s: State, cap: nat, ins: seq<In>)
    requires cap > 0
    ensures ReadAddresses(s, cap, ins) == RF.AddressesHanded(s.rd, cap, ReadIns(s, cap, ins))
    decreases |ins|
  {
    if |ins| > 0 {
      ReadPorts(Step(s, cap, ins[0]), cap, ins[1..]);
      assert ReadIns(s, cap, ins)[1..] == ReadIns(Step(s, cap, ins[0]), cap, ins[1..]);
    }
  }

  lemma {:induction false} WritePorts(s: State, cap: nat, ins: seq<In>)
    requires cap > 0
    ensures WriteAddresses(s, cap, ins) == WF.AddressesHanded(s.wr, cap, WriteIns(s, cap, ins))
    ensures Beats(s, cap, ins) == WF.BeatsHanded(s.wr, cap, WriteIns(s, cap, ins))
    decreases |ins|
  {
    if |ins| > 0 {
      WritePorts(Step(s, cap, ins[0]), cap, ins[1..]);
      assert WriteIns(s, cap, ins)[1..] == WriteIns(Step(s, cap, ins[0]), cap, ins[1..]);
    }
  }

  ghost predicate Okays(answers: seq<R.Answer>, data: seq<nat>) {
    |answers| == |data| && forall k :: 0 <= k < |data| ==> answers[k] == R.Answer(AxiResponse.Okay, data[k])
  }

  lemma {:induction false} AckPorts(s: State, cap: nat, ins: seq<In>)
    requires cap > 0
    ensures Okays(R.Acked(s.rd, cap, ReadIns(s, cap, ins)), ReadAcks(s, cap, ins))
    decreases |ins|
  {
    if |ins| > 0 {
      AckPorts(Step(s, cap, ins[0]), cap, ins[1..]);
      assert ReadIns(s, cap, ins)[1..] == ReadIns(Step(s, cap, ins[0]), cap, ins[1..]);
    }
  }

  /** The reads among what the slave accepted are those of the words of the addresses handed over, once and in order. */
  ghost predicate ReadsShown(t: State, addrs: seq<nat>) {
    var rd := Of(t.seen, Arb.A);
    && |rd| == |addrs| - t.rd.Waiting() && |t.rd.ar| == |addrs|
    && forall k :: 0 <= k < |rd| ==> rd[k] == k && IsWordOf(t.rd.ar[k], addrs[k])
  }

  /** The writes among it are those of the words of the addresses, each with its own data and strobes. */
  ghost predicate WritesShown(t: State, addrs: seq<nat>, beats: seq<W.Beat>) {
    var wr := Of(t.seen, Arb.B);
    && |wr| == t.wr.first - (if t.wr.stb then 1 else 0) && t.wr.first <= |addrs| && t.wr.first <= |beats|
    && |t.wr.aw| == |addrs| && t.wr.w == beats
    && forall k :: 0 <= k < |wr| ==> wr[k] == k && IsWordOf(t.wr.aw[k], addrs[k])
  }

  lemma ErrorFreeReads(s: State, cap: nat, ins: seq<In>)
    requires s == Reset() && cap > 0 && RunOk(s, cap, ins) && NoError(ins)
    ensures ReadsShown(Run(s, cap, ins), ReadAddresses(s, cap, ins))
  {
    ResetKeepsInv(s, cap);
    RunIsTwoRuns(s, cap, ins);
    NoErrorForEither(s, cap, ins);
    ReadPorts(s, cap, ins);
    RF.ReadsWhatIsHanded(s.rd, cap, ReadIns(s, cap, ins));
  }

  lemma OkaysPrefix(out: seq<R.Answer>, acked: seq<R.Answer>, acks: seq<nat>)
    requires out <= acked && Okays(acked, acks)
    ensures |out| <= |acks| && Okays(out, acks[..|out|])
  {}

  lemma ErrorFreeAnswers(s: State, cap: nat, ins: seq<In>)
    requires s == Reset() && cap > 0 && RunOk(s, cap, ins) && NoError(ins)
    ensures var out, acks := R.Delivered(s.rd, cap, ReadIns(s, cap, ins)), ReadAcks(s, cap, ins);
            |out| <= |acks| <= |Of(Run(s, cap, ins).seen, Arb.A)| && Okays(out, acks[..|out|])
  {
    ResetKeepsInv(s, cap);
    RunIsTwoRuns(s, cap, ins);
    NoErrorForEither(s, cap, ins);
    var rs := ReadIns(s, cap, ins);
    AckPorts(s, cap, ins);
    R.ErrorFreeRunIsTransparent(s.rd, cap, rs);
    OkaysPrefix(R.Delivered(s.rd, cap, rs), R.Acked(s.rd, cap, rs), ReadAcks(s, cap, ins));
  }

  lemma ErrorFreeWrites(s: State, cap: nat, ins: seq<In>)
    requires s == Reset() && cap > 0 && RunOk(s, cap, ins) && NoError(ins)
    ensures WritesShown(Run(s, cap, ins), WriteAddresses(s, cap, ins), Beats(s, cap, ins))
  {
    ResetKeepsInv(s, cap);
    RunIsTwoRuns(s, cap, ins);
    NoErrorForEither(s, cap, ins);
    WritePorts(s, cap, ins);
    var ws := WriteIns(s, cap, ins);
    W.NoErrorKeepsClean(s.wr, cap, ws);
    W.ErrorFreeRunPairsInOrder(s.wr, cap, ws);
    WF.TakesFromReset(s.wr, cap, ws);
  }

  /**
   In every run without errors, in terms of the adapter's own ports: the slave behind the arbiter sees each channel's
   requests exactly once and in order, at the words of the addresses handed over, every write with its own data and
   strobes; and each read is answered with the data on the bus on the clock of its own ACK.
   */
  lemma ErrorFreeRunSharesTheBus(s: State, cap: nat, ins: seq<In>)
    requires s == Reset() && cap > 0 && RunOk(s, cap, ins) && NoError(ins)
    ensures ReadsShown(Run(s, cap, ins), ReadAddresses(s, cap, ins))
    ensures WritesShown(Run(s, cap, ins), WriteAddresses(s, cap, ins), Beats(s, cap, ins))
    ensures var out, acks := R.Delivered(s.rd, cap, ReadIns(s, cap, ins)), ReadAcks(s, cap, ins);
            |out| <= |acks| <= |Of(Run(s, cap, ins).seen, Arb.A)| && Okays(out, acks[..|out|])
  {
    ErrorFreeReads(s, cap, ins);
    ErrorFreeAnswers(s, cap, ins);
    ErrorFreeWrites(s, cap, ins);
  }
}
