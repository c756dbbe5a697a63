/**
 The PLIC over any number of sources and targets (RISC-V PLIC Specification 1.0.0, chapters 4, 8 and 9). Source ids
 are 1 to n; id 0 means "no interrupt". One Step is one clock. The claim/complete protocol is what the gateways do as
 long as software completes only what it has claimed; Step itself accepts any completion, as the hardware does.
 */
module PlicSpec {
  import opened Tournament

  datatype Gateway = Gateway(ip: bool, waitCompletion: bool)

  datatype Config = Config(priority: seq<nat>, enable: seq<seq<bool>>, threshold: seq<nat>)

  // Decoded register accesses
  datatype ReadReg = ClaimReg(t: nat) | OtherReg
  datatype Write =
    | Complete(id: nat)
    | SetPriority(source: nat, level: nat)
    | SetThreshold(target: nat, limit: nat)
    | SetEnable(enabled: nat, mask: seq<bool>)
    | OtherWrite

  datatype In = In(sources: seq<bool>, arValid: bool, ar: ReadReg, rReady: bool,
                   awValid: bool, wValid: bool, w: Write, bReady: bool)

  datatype State = State(
    gateways: seq<Gateway>,
    config: Config,
    best: seq<Request>,  // per target, the winner among the requests of the previous clock
    readBusy: bool,      // the one-entry read stage
    readReg: ReadReg,
    stall: bool,         // coherency stall: no read completes on this clock
    writeBusy: bool)     // a write response waits
  {
    function N(): nat { |gateways| }
    function Targets(): nat { |best| }
  }

  predicate ShapeOk(s: State) {
    && |s.config.priority| == s.N()
    && |s.config.enable| == |s.config.threshold| == s.Targets()
    && (forall t :: 0 <= t < s.Targets() ==> |s.config.enable[t]| == s.N())
    && (s.readReg.ClaimReg? ==> s.readReg.t < s.Targets())
  }

  predicate InOk(s: State, i: In) {
    && |i.sources| == s.N()
    && (i.ar.ClaimReg? ==> i.ar.t < s.Targets())
    && (i.w.SetPriority? ==> i.w.source < s.N())
    && (i.w.SetThreshold? ==> i.w.target < s.Targets())
    && (i.w.SetEnable? ==> i.w.enabled < s.Targets() && |i.w.mask| == s.N())
  }

  /** Reset, after at least one clock: nothing pending and the winner is the stand-in request 0. */
  function Reset(n: nat, targets: nat): State {
    State(seq(n, _ => Gateway(false, false)),
          Config(seq(n, _ => 0), seq(targets, _ => seq(n, _ => false)), seq(targets, _ => 0)),
          seq(targets, _ => Request(0, 0, true)), false, OtherReg, false, false)
  }

  // ----- Claims -----

  /** Entry 0 stands in at priority 0; entry k is source k. */
  function Requests(pending: seq<bool>, priority: seq<nat>, enable: seq<bool>): (r: seq<Request>)
    requires |pending| == |priority| == |enable|
    ensures |r| == |pending| + 1
  {
    [Request(0, 0, true)]
    + seq(|pending|, k requires 0 <= k < |pending| => Request(priority[k], k + 1, pending[k] && enable[k]))
  }

  function ClaimOf(best: Request, threshold: nat): nat {
    if threshold < best.priority then best.id else 0
  }

  ghost predicate Contends(pending: seq<bool>, priority: seq<nat>, enable: seq<bool>, threshold: nat)
    requires |pending| == |priority| == |enable|
  {
    exists k :: 0 <= k < |pending| && pending[k] && enable[k] && priority[k] > threshold
  }

  /**
   What a claim is to answer: non-zero exactly when some pending, enabled source exceeds the threshold, and then the
   source of greatest priority, the smallest id among equals.
   */
  ghost predicate IsClaim(c: nat, pending: seq<bool>, priority: seq<nat>, enable: seq<bool>, threshold: nat)
    requires |pending| == |priority| == |enable|
  {
    && (c != 0 <==> Contends(pending, priority, enable, threshold))
    && (c != 0 ==>
          && c <= |pending| && pending[c - 1] && enable[c - 1] && priority[c - 1] > threshold
          && forall k :: 0 <= k < |pending| && pending[k] && enable[k] ==>
               priority[k] <= priority[c - 1] && (k < c - 1 ==> priority[k] < priority[c - 1]))
  }

  lemma ClaimIsHighestPriority(pending: seq<bool>, priority: seq<nat>, enable: seq<bool>, threshold: nat)
    requires |pending| == |priority| == |enable|
    ensures IsClaim(ClaimOf(Reduce(Requests(pending, priority, enable)), threshold),
                    pending, priority, enable, threshold)
  {
    var rs := Requests(pending, priority, enable);
    var w := ReduceFindsWinner(rs);
    assert forall k :: 0 <= k < |pending| ==> rs[k + 1] == Request(priority[k], k + 1, pending[k] && enable[k]);
    assert w == 0 ==> rs[w].priority == 0;
    if w > 0 && threshold < rs[w].priority {
      assert pending[w - 1] && enable[w - 1] && priority[w - 1] > threshold;
    }
    forall k | 0 <= k < |pending| && pending[k] && enable[k]
      ensures priority[k] <= rs[w].priority && (k + 1 < w ==> priority[k] < rs[w].priority)
    {
      assert rs[k + 1].valid;
    }
  }

  // ----- One clock -----

  predicate ReadFires(s: State, i: In) { s.readBusy && !s.stall && i.rReady }

  predicate WriteFires(s: State, i: In) { i.awValid && i.wValid && !s.writeBusy }

  /** The id handed out on this clock, or 0. */
  function Claiming(s: State, i: In): nat
    requires ShapeOk(s)
  {
    if ReadFires(s, i) && s.readReg.ClaimReg? then ClaimOf(s.best[s.readReg.t], s.config.threshold[s.readReg.t]) else 0
  }

  function Completing(s: State, i: In): nat {
    if WriteFires(s, i) && i.w.Complete? then i.w.id else 0
  }

  /** The flip-flops of one gateway after a clock: sampling first, then the claim and the completion override. */
  function GatewayAfter(g: Gateway, source: bool, claimed: bool, completed: bool): Gateway {
    var ip := if !g.waitCompletion then source else g.ip;
    var wait := if !g.waitCompletion then source else g.waitCompletion;
    Gateway(if claimed then false else ip, if completed then false else wait)
  }

  function ConfigAfter(s: State, i: In): Config
    requires ShapeOk(s) && InOk(s, i)
  {
    var c := s.config;
    if !WriteFires(s, i) then c
    else
      match i.w
      case SetPriority(k, p) => c.(priority := c.priority[k := p])
      case SetThreshold(t, p) => c.(threshold := c.threshold[t := p])
      case SetEnable(t, m) => c.(enable := c.enable[t := m])
      case _ => c
  }

  function PendingBits(s: State): (b: seq<bool>)
    ensures |b| == s.N()
  {
    seq(s.N(), k requires 0 <= k < s.N() => s.gateways[k].ip)
  }

  function GatewaysAfter(s: State, i: In): (g: seq<Gateway>)
    requires ShapeOk(s) && InOk(s, i)
    ensures |g| == s.N()
  {
    seq(s.N(), k requires 0 <= k < s.N() =>
      GatewayAfter(s.gateways[k], i.sources[k], Claiming(s, i) == k + 1, Completing(s, i) == k + 1))
  }

  function BestAfter(s: State): (b: seq<Request>)
    requires ShapeOk(s)
    ensures |b| == s.Targets()
  {
    seq(s.Targets(), t requires 0 <= t < s.Targets() =>
      Scan(Requests(PendingBits(s), s.config.priority, s.config.enable[t])))
  }

  function Step(s: State, i: In): (n: State)
    requires ShapeOk(s) && InOk(s, i)
    ensures ShapeOk(n) && n.N() == s.N() && n.Targets() == s.Targets()
  {
    State(GatewaysAfter(s, i), ConfigAfter(s, i), BestAfter(s),
          if ReadFires(s, i) then false else s.readBusy || i.arValid,
          if s.readBusy then s.readReg else i.ar,
          !s.stall && (s.readBusy || (i.awValid && i.wValid)),
          if s.writeBusy && i.bReady then false else s.writeBusy || (i.awValid && i.wValid))
  }

  /** The interrupt line of target t: the registered winner exceeds the threshold. */
  predicate Line(s: State, t: nat)
    requires ShapeOk(s) && t < s.Targets()
  {
    s.config.threshold[t] < s.best[t].priority
  }

  /** The line is up exactly when one clock before some pending, enabled source exceeded what is now the threshold. */
  lemma LineIff(s: State, i: In, t: nat)
    requires ShapeOk(s) && InOk(s, i) && t < s.Targets()
    ensures Line(Step(s, i), t) <==>
              Contends(PendingBits(s), s.config.priority, s.config.enable[t], Step(s, i).config.threshold[t])
  {
    WinnerIsClaimed(s, i, t);
  }

  /**
   The winner was registered one clock before it is read: it is the best source among those pending and enabled on
   the clock before, judged by the threshold of the clock of the claim.
   */
  lemma WinnerIsClaimed(s: State, i: In, t: nat)
    requires ShapeOk(s) && InOk(s, i) && t < s.Targets()
    ensures var n := Step(s, i);
            var c := ClaimOf(n.best[t], n.config.threshold[t]);
            && IsClaim(c, PendingBits(s), s.config.priority, s.config.enable[t], n.config.threshold[t])
            && (Line(n, t) <==> c != 0)
  {
    var n := Step(s, i);
    var rs := Requests(PendingBits(s), s.config.priority, s.config.enable[t]);
    ReduceIsScan(rs);
    ClaimIsHighestPriority(PendingBits(s), s.config.priority, s.config.enable[t], n.config.threshold[t]);
    var k := ScanFindsWinner(rs);
    assert k == 0 ==> rs[k].priority == 0;
  }

  // ----- The protocol of one source -----

  datatype Phase = Idle | Pending | InService

  function Encode(p: Phase): Gateway {
    Gateway(p == Pending, p != Idle)
  }

  /** A gateway in one of the three phases: it never waits for a claim without waiting for a completion. */
  predicate Legal(g: Gateway) { g.ip ==> g.waitCompletion }

  function PhaseOf(g: Gateway): Phase {
    if !g.waitCompletion then Idle else if g.ip then Pending else InService
  }

  function PhaseAfter(p: Phase, source: bool, claimed: bool, completed: bool): Phase {
    match p
    case Idle => if source then Pending else Idle
    case Pending => if claimed then InService else Pending
    case InService => if completed then Idle else InService
  }

  /**
   The flip-flops follow the protocol exactly when no claim takes a source that is just being raised and no
   completion names one that is pending or just being raised.
   */
  lemma GatewayFollowsProtocolIff(p: Phase, source: bool, claimed: bool, completed: bool)
    ensures GatewayAfter(Encode(p), source, claimed, completed) == Encode(PhaseAfter(p, source, claimed, completed))
      <==> (completed ==> p == InService || (p == Idle && !source)) && (claimed ==> !(p == Idle && source))
  {}

  /**
   A completion of a source that is still pending: the interrupt is pending again on the next clock but one exactly
   when the input is still high then (and it is not just being claimed); otherwise it is lost. If it is claimed on that
   clock it is in service exactly when the input has been sampled high and is not completed at once.
   */
  lemma EarlyCompletionLosesInterruptIff(s: State, i: In, j: In, k: nat)
    requires ShapeOk(s) && InOk(s, i) && InOk(Step(s, i), j) && k < s.N()
    requires s.gateways[k] == Encode(Pending) && Completing(s, i) == k + 1 && Claiming(s, i) != k + 1
    ensures Step(s, i).gateways[k] == Gateway(true, false)
    ensures var n := Step(s, i);
            && (Step(n, j).gateways[k].ip <==> j.sources[k] && Claiming(n, j) != k + 1)
            && (Step(n, j).gateways[k].waitCompletion <==> j.sources[k] && Completing(n, j) != k + 1)
  {}

  /** The software side of the protocol: an id is completed only while it is claimed. */
  predicate SoftwareOk(s: State, i: In) {
    var c := Completing(s, i);
    1 <= c <= s.N() ==> s.gateways[c - 1] == Encode(InService)
  }

  // ----- Invariants -----

  /** While a read waits in the stage, the registered winners are still pending, although one clock old. */
  ghost predicate WinnersFresh(s: State) {
    s.readBusy ==> forall t :: 0 <= t < s.Targets() && s.best[t].id != 0 ==>
      s.best[t].id <= s.N() && s.gateways[s.best[t].id - 1].ip
  }

  ghost predicate GatewaysLegal(s: State) {
    forall k :: 0 <= k < s.N() ==> Legal(s.gateways[k])
  }

  ghost predicate Inv(s: State) {
    ShapeOk(s) && WinnersFresh(s) && GatewaysLegal(s)
  }

  lemma ResetKeepsInv(n: nat, targets: nat)
    ensures Inv(Reset(n, targets))
  {}

  /** A claim and the next read are two clocks apart or more, so the winner registered between has seen the claim. */
  lemma StepKeepsWinnersFresh(s: State, i: In)
    requires ShapeOk(s) && InOk(s, i) && GatewaysLegal(s)
    ensures WinnersFresh(Step(s, i))
  {
    var n := Step(s, i);
    if n.readBusy {
      forall t | 0 <= t < n.Targets() && n.best[t].id != 0
        ensures n.best[t].id <= n.N() && n.gateways[n.best[t].id - 1].ip
      {
        assert n.best[t] == Scan(Requests(PendingBits(s), s.config.priority, s.config.enable[t]));
        WinnerIsPending(PendingBits(s), s.config.priority, s.config.enable[t]);
        assert Claiming(s, i) == 0;
        assert Legal(s.gateways[n.best[t].id - 1]);
      }
    }
  }

  lemma WinnerIsPending(pending: seq<bool>, priority: seq<nat>, enable: seq<bool>)
    requires |pending| == |priority| == |enable|
    ensures var w := Scan(Requests(pending, priority, enable)); w.id != 0 ==> w.id <= |pending| && pending[w.id - 1]
  {
    var rs := Requests(pending, priority, enable);
    var k := ScanFindsWinner(rs);
    if k > 0 { assert rs[k] == Request(priority[k - 1], k, pending[k - 1] && enable[k - 1]); }
  }

  /** A claimed source is pending at the moment it is claimed. */
  lemma ClaimIsPending(s: State, i: In)
    requires Inv(s) && Claiming(s, i) != 0
    ensures Claiming(s, i) <= s.N() && s.gateways[Claiming(s, i) - 1] == Encode(Pending)
  {
    assert Legal(s.gateways[Claiming(s, i) - 1]);
  }

  /** Every source follows the protocol, whatever is claimed, as long as software keeps to its side. */
  lemma SourceFollowsProtocol(s: State, i: In, k: nat)
    requires Inv(s) && InOk(s, i) && SoftwareOk(s, i) && k < s.N()
    ensures var claimed, completed := Claiming(s, i) == k + 1, Completing(s, i) == k + 1;
            && Legal(Step(s, i).gateways[k])
            && PhaseOf(Step(s, i).gateways[k]) == PhaseAfter(PhaseOf(s.gateways[k]), i.sources[k], claimed, completed)
            && (claimed ==> PhaseOf(s.gateways[k]) == Pending) && (completed ==> PhaseOf(s.gateways[k]) == InService)
  {
    assert Legal(s.gateways[k]);
    if Claiming(s, i) != 0 { ClaimIsPending(s, i); }
  }

  lemma StepKeepsInv(s: State, i: In)
    requires Inv(s) && InOk(s, i) && SoftwareOk(s, i)
    ensures Inv(Step(s, i))
  {
    StepKeepsWinnersFresh(s, i);
    forall k | 0 <= k < s.N() ensures Legal(Step(s, i).gateways[k]) { SourceFollowsProtocol(s, i, k); }
  }

  // ----- Whole runs -----

  predicate InsOk(s: State, ins: seq<In>) {
    forall k :: 0 <= k < |ins| ==> InOk(s, ins[k])
  }

  /** The state before clock k of a run. */
  function At(s: State, ins: seq<In>, k: nat): (r: State)
    requires ShapeOk(s) && InsOk(s, ins) && k <= |ins|
    ensures ShapeOk(r) && r.N() == s.N() && r.Targets() == s.Targets()
  {
    if k == 0 then s else Step(At(s, ins, k - 1), ins[k - 1])
  }

  ghost predicate SoftwareOkAt(s: State, ins: seq<In>, k: nat)
    requires ShapeOk(s) && InsOk(s, ins) && k < |ins|
  {
    SoftwareOk(At(s, ins, k), ins[k])
  }

  ghost predicate RunOk(s: State, ins: seq<In>)
    requires ShapeOk(s)
  {
    InsOk(s, ins) && forall k :: 0 <= k < |ins| ==> SoftwareOkAt(s, ins, k)
  }

  lemma {:induction false} RunKeepsInv(s: State, ins: seq<In>, k: nat)
    requires Inv(s) && RunOk(s, ins) && k <= |ins|
    ensures Inv(At(s, ins, k))
  {
    if k > 0 {
      RunKeepsInv(s, ins, k - 1);
      assert SoftwareOkAt(s, ins, k - 1);
      StepKeepsInv(At(s, ins, k - 1), ins[k - 1]);
    }
  }

  /** The phase of source q before clock k of a run. */
  ghost function PhaseAt(s: State, ins: seq<In>, q: nat, k: nat): Phase
    requires ShapeOk(s) && InsOk(s, ins) && k <= |ins| && q < s.N()
  {
    PhaseOf(At(s, ins, k).gateways[q])
  }

  ghost predicate ClaimsAt(s: State, ins: seq<In>, q: nat, k: nat)
    requires ShapeOk(s) && InsOk(s, ins)
  {
    k < |ins| && Claiming(At(s, ins, k), ins[k]) == q + 1
  }

  ghost predicate CompletesAt(s: State, ins: seq<In>, q: nat, k: nat)
    requires ShapeOk(s) && InsOk(s, ins)
  {
    k < |ins| && Completing(At(s, ins, k), ins[k]) == q + 1
  }

  ghost predicate SampledAt(ins: seq<In>, q: nat, k: nat) {
    k < |ins| && q < |ins[k].sources| && ins[k].sources[q]
  }

  lemma PhaseStep(s: State, ins: seq<In>, q: nat, k: nat)
    requires Inv(s) && RunOk(s, ins) && k < |ins| && q < s.N()
    ensures var p, n := PhaseAt(s, ins, q, k), PhaseAt(s, ins, q, k + 1);
            && (ClaimsAt(s, ins, q, k) ==> p == Pending && n == InService)
            && (CompletesAt(s, ins, q, k) ==> p == InService && n == Idle)
            && (n != p ==> match p
                           case Idle => n == Pending && SampledAt(ins, q, k)
                           case Pending => n == InService && ClaimsAt(s, ins, q, k)
                           case InService => n == Idle && CompletesAt(s, ins, q, k))
  {
    RunKeepsInv(s, ins, k);
    assert SoftwareOkAt(s, ins, k);
    SourceFollowsProtocol(At(s, ins, k), ins[k], q);
  }

  /** Between two clocks with different phases of a source lies the clock on which it left the first. */
  lemma {:induction false} PhaseIsLeft(s: State, ins: seq<In>, q: nat, a: nat, b: nat) returns (m: nat)
    requires Inv(s) && RunOk(s, ins) && a <= b <= |ins| && q < s.N()
    requires PhaseAt(s, ins, q, a) != PhaseAt(s, ins, q, b)
    ensures a <= m < b && PhaseAt(s, ins, q, m) == PhaseAt(s, ins, q, a) != PhaseAt(s, ins, q, m + 1)
    decreases b - a
  {
    if PhaseAt(s, ins, q, a + 1) != PhaseAt(s, ins, q, a) {
      m := a;
    } else {
      m := PhaseIsLeft(s, ins, q, a + 1, b);
    }
  }

  lemma ServiceEnds(s: State, ins: seq<In>, q: nat, a: nat, b: nat) returns (m: nat)
    requires Inv(s) && RunOk(s, ins) && a <= b <= |ins| && q < s.N()
    requires PhaseAt(s, ins, q, a) == InService != PhaseAt(s, ins, q, b)
    ensures a <= m < b && CompletesAt(s, ins, q, m) && PhaseAt(s, ins, q, m + 1) == Idle
  {
    m := PhaseIsLeft(s, ins, q, a, b);
    PhaseStep(s, ins, q, m);
  }

  lemma IdleEnds(s: State, ins: seq<In>, q: nat, a: nat, b: nat) returns (m: nat)
    requires Inv(s) && RunOk(s, ins) && a <= b <= |ins| && q < s.N()
    requires PhaseAt(s, ins, q, a) == Idle != PhaseAt(s, ins, q, b)
    ensures a <= m < b && SampledAt(ins, q, m) && PhaseAt(s, ins, q, m + 1) == Pending
  {
    m := PhaseIsLeft(s, ins, q, a, b);
    PhaseStep(s, ins, q, m);
  }

  lemma PendingEnds(s: State, ins: seq<In>, q: nat, a: nat, b: nat) returns (m: nat)
    requires Inv(s) && RunOk(s, ins) && a <= b <= |ins| && q < s.N()
    requires PhaseAt(s, ins, q, a) == Pending != PhaseAt(s, ins, q, b)
    ensures a <= m < b && ClaimsAt(s, ins, q, m) && PhaseAt(s, ins, q, m + 1) == InService
  {
    m := PhaseIsLeft(s, ins, q, a, b);
    PhaseStep(s, ins, q, m);
  }

  lemma ServedAndRaised(s: State, ins: seq<In>, q: nat, a: nat, b: nat) returns (m: nat, r: nat)
    requires Inv(s) && RunOk(s, ins) && a <= b <= |ins| && q < s.N()
    requires PhaseAt(s, ins, q, a) == InService && PhaseAt(s, ins, q, b) == Pending
    ensures a <= m < r < b && CompletesAt(s, ins, q, m) && SampledAt(ins, q, r)
  {
    m := ServiceEnds(s, ins, q, a, b);
    r := IdleEnds(s, ins, q, m + 1, b);
  }

  /**
   Over every run, from reset on, for any number of sources and targets: between two claims of one source, whichever
   targets made them, lie a completion of it and then a new sample of its input.
   */
  lemma ClaimsAreSeparated(s: State, ins: seq<In>, q: nat, a: nat, b: nat)
    returns (m: nat, r: nat)
    requires Inv(s) && RunOk(s, ins) && q < s.N()
    requires a < b && ClaimsAt(s, ins, q, a) && ClaimsAt(s, ins, q, b)
    ensures a < m < r < b && CompletesAt(s, ins, q, m) && SampledAt(ins, q, r)
  {
    PhaseStep(s, ins, q, a);
    PhaseStep(s, ins, q, b);
    m, r := ServedAndRaised(s, ins, q, a + 1, b);
  }

  /** And between two completions of it lie a new sample and then a claim. */
  lemma CompletionsAreSeparated(s: State, ins: seq<In>, q: nat, a: nat, b: nat)
    returns (r: nat, m: nat)
    requires Inv(s) && RunOk(s, ins) && q < s.N()
    requires a < b && CompletesAt(s, ins, q, a) && CompletesAt(s, ins, q, b)
    ensures a < r < m < b && SampledAt(ins, q, r) && ClaimsAt(s, ins, q, m)
  {
    PhaseStep(s, ins, q, a);
    PhaseStep(s, ins, q, b);
    r := IdleEnds(s, ins, q, a + 1, b);
    m := PendingEnds(s, ins, q, r + 1, b);
  }

  // ----- The read channel -----

  /** A read is taken as soon as none is waiting, and leaves the stage when its response does. */
  lemma ReadStage(s: State, i: In)
    requires ShapeOk(s) && InOk(s, i)
    ensures var n := Step(s, i);
            && (!s.readBusy && i.arValid ==> n.readBusy && n.readReg == i.ar)
            && (!s.readBusy && !i.arValid ==> !n.readBusy)
            && (s.readBusy && !ReadFires(s, i) ==> n.readBusy && n.readReg == s.readReg)
            && (s.readBusy && ReadFires(s, i) ==> !n.readBusy)
  {}

  /** A waiting read is answered on this clock or the next when the master is ready on both. */
  lemma ReadIsAnswered(s: State, i: In, j: In)
    requires ShapeOk(s) && InOk(s, i) && InOk(s, j) && s.readBusy && i.rReady && j.rReady
    ensures ReadFires(s, i) || ReadFires(Step(s, i), j)
  {}

  /** A read that arrives while nothing waits and nothing is written can be answered on the very next clock. */
  lemma ReadIsAnsweredAtOnce(s: State, i: In, j: In)
    requires ShapeOk(s) && InOk(s, i) && !s.readBusy && i.arValid && !(i.awValid && i.wValid) && j.rReady
    ensures ReadFires(Step(s, i), j)
  {}

  lemma {:induction false} RequestIsKept(s: State, ins: seq<In>, a: nat, k: nat)
    requires ShapeOk(s) && InsOk(s, ins) && a < k <= |ins| && !At(s, ins, a).readBusy && ins[a].arValid
    requires forall m :: a < m < k ==> !ReadFires(At(s, ins, m), ins[m])
    ensures At(s, ins, k).readBusy && At(s, ins, k).readReg == ins[a].ar
    decreases k
  {
    if k > a + 1 { RequestIsKept(s, ins, a, k - 1); }
    ReadStage(At(s, ins, k - 1), ins[k - 1]);
  }

  /**
   A claim on the bus: target t's claim register is asked for on clock a and read on clock k, the first on which a
   read fires. It hands out the best source among those pending and enabled for t on the clock before, judged by t's
   threshold of clock k.
   */
  lemma ClaimOnBus(s: State, ins: seq<In>, a: nat, k: nat, t: nat)
    requires ShapeOk(s) && InsOk(s, ins) && a < k < |ins|
    requires !At(s, ins, a).readBusy && ins[a].arValid && ins[a].ar == ClaimReg(t)
    requires forall m :: a < m < k ==> !ReadFires(At(s, ins, m), ins[m])
    requires ReadFires(At(s, ins, k), ins[k])
    ensures t < s.Targets()
    ensures var p, n := At(s, ins, k - 1), At(s, ins, k);
            IsClaim(Claiming(n, ins[k]), PendingBits(p), p.config.priority, p.config.enable[t], n.config.threshold[t])
  {
    assert InOk(s, ins[a]);
    RequestIsKept(s, ins, a, k);
    WinnerIsClaimed(At(s, ins, k - 1), ins[k - 1], t);
  }

  /**
   A read response that is offered but not taken is withdrawn on the next clock, because the waiting read itself
   starts a coherency stall; it is offered again on the clock after that.
   */
  lemma ResponseIsNotHeld(s: State, i: In, j: In)
    requires ShapeOk(s) && InOk(s, i) && InOk(Step(s, i), j)
    requires s.readBusy && !s.stall && !i.rReady
    ensures var n := Step(s, i); var m := Step(n, j);
            && n.readBusy && n.stall && n.readReg == s.readReg
            && m.readBusy && !m.stall && m.readReg == s.readReg
  {}

  // ----- The write channel -----

  /** A completion ends the service of the source it names, whichever target makes it. */
  lemma CompletionEndsService(s: State, i: In, k: nat)
    requires ShapeOk(s) && InOk(s, i) && k < s.N() && s.gateways[k] == Encode(InService)
    ensures Step(s, i).gateways[k] ==
              Encode(if i.awValid && i.wValid && !s.writeBusy && i.w == Complete(k + 1) then Idle else InService)
  {}

  /** A configuration write lands in the one place it names; without one the configuration stays as it is. */
  lemma ConfigWriteLands(s: State, i: In)
    requires ShapeOk(s) && InOk(s, i)
    ensures var c, d := s.config, Step(s, i).config;
            var takes := i.awValid && i.wValid && !s.writeBusy;
            && (forall k :: 0 <= k < s.N() ==>
                  d.priority[k] == if takes && i.w.SetPriority? && i.w.source == k then i.w.level else c.priority[k])
            && (forall t :: 0 <= t < s.Targets() ==>
                  d.threshold[t] == if takes && i.w.SetThreshold? && i.w.target == t then i.w.limit else c.threshold[t])
            && (forall t :: 0 <= t < s.Targets() ==>
                  d.enable[t] == if takes && i.w.SetEnable? && i.w.enabled == t then i.w.mask else c.enable[t])
  {}

  /** Every write gets one response, which waits until it is taken; only then is the next write taken. */
  lemma WriteIsAnswered(s: State, i: In)
    requires ShapeOk(s) && InOk(s, i)
    ensures var n := Step(s, i);
            && (!s.writeBusy && i.awValid && i.wValid ==> n.writeBusy)
            && (!s.writeBusy && !(i.awValid && i.wValid) ==> !n.writeBusy)
            && (s.writeBusy ==> n.writeBusy == !i.bReady)
            && (s.writeBusy ==> n.config == s.config && Completing(s, i) == 0)
  {}
}
