/**
 AxiLite4Plic at register level, for any number of sources and targets instead of 32 and 2 unrolled copies. The
 winner of each target is found by the balanced tree and registered; every clock is one step of PlicSpec.
 */
module Plic {
  import opened Tournament
  import opened PlicSpec

  // The one-entry read stage, the one-bit coherency stall counter and the pending write response
  datatype BusRegs = BusRegs(readBusy: bool, readReg: ReadReg, stall: bool, writeBusy: bool)

  class Controller {
    var gateways: seq<Gateway>
    var config: Config
    var best: seq<Request>
    var bus: BusRegs

    /** The registers as a state of PlicSpec. */
    ghost function Value(): State
      reads this
    {
      State(gateways, config, best, bus.readBusy, bus.readReg, bus.stall, bus.writeBusy)
    }

    ghost predicate Valid()
      reads this
    {
      ShapeOk(Value())
    }

    constructor (n: nat, targets: nat)
      ensures Valid() && Value() == Reset(n, targets)
    {
      gateways := seq(n, _ => Gateway(false, false));
      config := Config(seq(n, _ => 0), seq(targets, _ => seq(n, _ => false)), seq(targets, _ => 0));
      best := seq(targets, _ => Request(0, 0, true));
      bus := BusRegs(false, OtherReg, false, false);
    }

    // ----- Wires -----

    predicate ReadOccurs(i: In) reads this { bus.readBusy && !bus.stall && i.rReady }

    predicate WriteOccurs(i: In) reads this { i.awValid && i.wValid && !bus.writeBusy }

    /** The interrupt line of target t: the registered winner exceeds the current threshold. */
    predicate Iep(t: nat): (up: bool)
      requires Valid() && t < |best|
      reads this
      ensures up <==> Line(Value(), t)
    {
      config.threshold[t] < best[t].priority
    }

    function ClaimId(i: In): (c: nat)
      requires Valid()
      reads this
      ensures c == Claiming(Value(), i)
    {
      if ReadOccurs(i) && bus.readReg.ClaimReg? && Iep(bus.readReg.t) then best[bus.readReg.t].id else 0
    }

    function CompletionId(i: In): (c: nat)
      requires Valid()
      reads this
      ensures c == Completing(Value(), i)
    {
      if WriteOccurs(i) && i.w.Complete? then i.w.id else 0
    }

    // ----- Always blocks -----

    /** Whatever is completed; the sources follow the protocol when software does. */
    method GatewaysNext(i: In) returns (g: seq<Gateway>)
      requires Valid() && InOk(Value(), i)
      ensures g == GatewaysAfter(Value(), i)
      ensures Inv(Value()) && SoftwareOk(Value(), i) ==>
        forall k :: 0 <= k < |g| ==>
          g[k] == Encode(PhaseAfter(PhaseOf(gateways[k]), i.sources[k], ClaimId(i) == k + 1, CompletionId(i) == k + 1))
    {
      var claim, completion := ClaimId(i), CompletionId(i);
      g := [];
      for k := 0 to |gateways|
        invariant |g| == k
        invariant forall j :: 0 <= j < k ==> g[j] == GatewaysAfter(Value(), i)[j]
      {
        var n := gateways[k];
        if !gateways[k].waitCompletion { n := Gateway(i.sources[k], i.sources[k]); }
        if claim == k + 1 { n := n.(ip := false); }
        if completion == k + 1 { n := n.(waitCompletion := false); }
        g := g + [n];
      }
      if Inv(Value()) && SoftwareOk(Value(), i) {
        forall k | 0 <= k < |g|
          ensures g[k] == Encode(PhaseAfter(PhaseOf(gateways[k]), i.sources[k], claim == k + 1, completion == k + 1))
        {
          SourceFollowsProtocol(Value(), i, k);
        }
      }
    }

    /** Each target's tree works on the registers of the clock that is ending. */
    method BestNext() returns (b: seq<Request>)
      requires Valid()
      ensures b == BestAfter(Value())
    {
      b := [];
      var ip := seq(|gateways|, k requires 0 <= k < |gateways| reads this => gateways[k].ip);
      assert ip == PendingBits(Value());
      for t := 0 to |best|
        invariant |b| == t
        invariant forall j :: 0 <= j < t ==> b[j] == BestAfter(Value())[j]
      {
        var rs := Requests(ip, config.priority, config.enable[t]);
        ReduceIsScan(rs);
        b := b + [Reduce(rs)];
      }
    }

    method ConfigNext(i: In) returns (c: Config)
      requires Valid() && InOk(Value(), i)
      ensures c == ConfigAfter(Value(), i)
    {
      c := config;
      if WriteOccurs(i) {
        match i.w {
          case SetPriority(k, v) => c := c.(priority := c.priority[k := v]);
          case SetThreshold(t, v) => c := c.(threshold := c.threshold[t := v]);
          case SetEnable(t, m) => c := c.(enable := c.enable[t := m]);
          case _ =>
        }
      }
    }

    method BusNext(i: In) returns (b: BusRegs)
      requires Valid() && InOk(Value(), i)
      ensures var n := Step(Value(), i); b == BusRegs(n.readBusy, n.readReg, n.stall, n.writeBusy)
    {
      b := bus;
      if i.arValid { b := b.(readBusy := true); }
      if ReadOccurs(i) { b := b.(readBusy := false); }
      if !bus.readBusy { b := b.(readReg := i.ar); }
      var increment := bus.stall || (i.awValid && i.wValid) || bus.readBusy;
      b := b.(stall := bus.stall != increment);  // one bit, so the sum is an exclusive or
      if i.awValid && i.wValid { b := b.(writeBusy := true); }
      if bus.writeBusy && i.bReady { b := b.(writeBusy := false); }
    }

    // ----- The clock -----

    /**
     A rising edge of clk, with any completion. A non-zero claim takes a pending source, although the winner is one
     clock old, for as long as software has kept to the protocol.
     */
    method Tick(i: In) returns (claim: nat)
      requires Valid() && InOk(Value(), i)
      modifies this
      ensures Valid() && Value() == Step(old(Value()), i)
      ensures claim == Claiming(old(Value()), i)
      ensures old(Inv(Value())) && claim != 0 ==>
        claim <= |old(gateways)| && old(gateways)[claim - 1] == Encode(Pending)
      ensures old(Inv(Value()) && SoftwareOk(Value(), i)) ==> Inv(Value())
    {
      claim := ClaimId(i);
      var g := GatewaysNext(i);
      var b := BestNext();
      var c := ConfigNext(i);
      var u := BusNext(i);
      if Inv(Value()) {
        if claim != 0 { ClaimIsPending(Value(), i); }
        if SoftwareOk(Value(), i) { StepKeepsInv(Value(), i); }
      }
      gateways, best, config, bus := g, b, c, u;
    }
  }
}
