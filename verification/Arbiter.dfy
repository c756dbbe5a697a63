/**
 wbarbiter with SCHEME "ALTERNATING" and the LOW_LOGIC routing. The specification tags every request in flight with
 the master that issued it and counts what each master believes to have outstanding.
 */
module Arbiter {

  datatype Master = A | B
  {
    function Other(): Master { if A? then B else A }
  }

  // One master's side of the bus; we, adr, dat and sel travel together as the payload.
  datatype Port<P> = Port(cyc: bool, stb: bool, payload: P)
  datatype Reply = Reply(ack: bool, stall: bool, err: bool)

  datatype In<P> = In(a: Port<P>, b: Port<P>, reply: Reply)
  {
    function Of(m: Master): Port<P> { if m.A? then a else b }
    predicate Ends() { reply.ack || reply.err }
  }

  datatype State = State(
    owner: Master,
    last: Master,           // the master that last held a bus cycle
    inflight: seq<Master>,  // issuers of the requests the slave has accepted and not answered, oldest first
    aOut: int,              // requests outstanding in the view of each master
    bOut: int)
  {
    function Out(m: Master): int { if m.A? then aOut else bOut }
  }

  function Reset(): State { State(A, B, [], 0, 0) }

  predicate Cyc<P>(s: State, i: In<P>) { i.Of(s.owner).cyc }

  predicate Accepts<P>(s: State, i: In<P>) { Cyc(s, i) && i.Of(s.owner).stb && !i.reply.stall }

  /** In flight during this clock, the request accepted on it included. */
  function InFlight<P>(s: State, i: In<P>): seq<Master> {
    if Accepts(s, i) then s.inflight + [s.owner] else s.inflight
  }

  /** What master m sees of the slave's reply. */
  function ReplyTo<P>(s: State, i: In<P>, m: Master): Reply {
    if m == s.owner then i.reply else Reply(false, true, false)
  }

  /**
   Masters raise STB only inside a cycle; within one the slave ends only requests in flight, one at a time
   (Wishbone B4). Outside a cycle it may do anything.
   */
  predicate EnvOk<P>(s: State, i: In<P>) {
    && (i.a.stb ==> i.a.cyc) && (i.b.stb ==> i.b.cyc)
    && (Cyc(s, i) ==> !(i.reply.ack && i.reply.err) && (i.Ends() ==> |InFlight(s, i)| > 0))
  }

  function OwnerAfter<P>(s: State, i: In<P>): Master {
    if !i.a.cyc && !i.b.cyc then s.last.Other()
    else if !i.Of(s.owner).cyc && i.Of(s.owner.Other()).stb then s.owner.Other()
    else s.owner
  }

  /** A master that drops CYC abandons its requests. */
  function OutAfter<P>(s: State, i: In<P>, m: Master): int {
    var p, r := i.Of(m), ReplyTo(s, i, m);
    if !p.cyc then 0
    else s.Out(m) + (if p.stb && !r.stall then 1 else 0) - if r.ack || r.err then 1 else 0
  }

  function Step<P>(s: State, i: In<P>): State {
    State(OwnerAfter(s, i),
          if Cyc(s, i) then s.owner else s.last,
          if !Cyc(s, i) then [] else if i.Ends() && |InFlight(s, i)| > 0 then InFlight(s, i)[1..] else InFlight(s, i),
          OutAfter(s, i, A), OutAfter(s, i, B))
  }

  ghost predicate Inv(s: State) {
    && s.Out(s.owner) == |s.inflight| && s.Out(s.owner.Other()) == 0
    && forall k :: 0 <= k < |s.inflight| ==> s.inflight[k] == s.owner
  }

  lemma StepKeepsInv<P>(s: State, i: In<P>)
    requires Inv(s) && EnvOk(s, i)
    ensures Inv(Step(s, i))
  {
    assert Cyc(s, i) ==> OwnerAfter(s, i) == s.owner;
  }

  function Run<P>(s: State, ins: seq<In<P>>): State
    decreases |ins|
  {
    if |ins| == 0 then s else Run(Step(s, ins[0]), ins[1..])
  }

  predicate RunOk<P>(s: State, ins: seq<In<P>>)
    decreases |ins|
  {
    |ins| == 0 || (EnvOk(s, ins[0]) && RunOk(Step(s, ins[0]), ins[1..]))
  }

  /**
   For every behaviour of the masters and the slave: the owner's outstanding count is the slave's, the other master
   has none, and whatever the slave ends next was issued by the master that sees it end.
   */
  lemma {:induction false} RepliesReachTheIssuer<P>(s: State, ins: seq<In<P>>, i: In<P>)
    requires Inv(s) && RunOk(s, ins) && EnvOk(Run(s, ins), i)
    ensures var t := Run(s, ins);
            && Inv(t)
            && (forall m: Master :: Cyc(t, i) && (ReplyTo(t, i, m).ack || ReplyTo(t, i, m).err) ==>
                  i.Ends() && |InFlight(t, i)| > 0 && InFlight(t, i)[0] == m)
            && (Cyc(t, i) && i.Ends() ==> var m := InFlight(t, i)[0];
                  ReplyTo(t, i, m).ack == i.reply.ack && ReplyTo(t, i, m).err == i.reply.err)
    decreases |ins|
  {
    if |ins| > 0 {
      StepKeepsInv(s, ins[0]);
      RepliesReachTheIssuer(Step(s, ins[0]), ins[1..], i);
    }
  }

  /**
   A master that keeps asking while the other holds the bus waits for exactly one tenure: ownership stays put through
   the n clocks of the running cycle and passes on the first clock on which it is dropped.
   */
  lemma {:induction false} WaitsForOneTenure<P>(s: State, ins: seq<In<P>>, m: Master)
    requires |ins| > 0 && s.owner == m.Other()
    requires forall k :: 0 <= k < |ins| ==> ins[k].Of(m).stb && ins[k].Of(m).cyc
    requires forall k :: 0 <= k < |ins| - 1 ==> ins[k].Of(m.Other()).cyc
    requires !ins[|ins| - 1].Of(m.Other()).cyc
    ensures Run(s, ins).owner == m
    ensures forall k :: 0 <= k < |ins| ==> Run(s, ins[..k]).owner == m.Other()
    decreases |ins|
  {
    var n := Step(s, ins[0]);
    if |ins| == 1 {
      assert Run(n, ins[1..]) == n;
    } else {
      WaitsForOneTenure(n, ins[1..], m);
      forall k | 0 <= k < |ins|
        ensures Run(s, ins[..k]).owner == m.Other()
      {
        if k > 0 {
          assert ins[..k][1..] == ins[1..][..k - 1];
          assert Run(s, ins[..k]) == Run(n, ins[1..][..k - 1]);
        }
      }
    }
  }

  predicate BothIdle<P>(i: In<P>) { !i.a.cyc && !i.b.cyc }

  lemma {:induction false} StaysParked<P>(s: State, ins: seq<In<P>>)
    requires |ins| > 0 && forall k :: 0 <= k < |ins| ==> BothIdle(ins[k])
    ensures Run(s, ins).owner == s.last.Other() && Run(s, ins).last == s.last
    decreases |ins|
  {
    var n := Step(s, ins[0]);
    assert !Cyc(s, ins[0]) && n.owner == s.last.Other();
    if |ins| > 1 { StaysParked(n, ins[1..]); }
  }

  /** However long both masters are idle after a cycle, the bus is parked at the one that did not hold it last. */
  lemma IdleParksAtOther<P>(s: State, i: In<P>, idle: seq<In<P>>)
    requires Cyc(s, i) && forall k :: 0 <= k < |idle| ==> BothIdle(idle[k])
    ensures Run(Step(s, i), idle).owner == if |idle| == 0 then s.owner else s.owner.Other()
  {
    if |idle| > 0 { StaysParked(Step(s, i), idle); }
  }

  /** The bus passes on exactly when its owner is idle and the other asks, or both are and the owner had it last. */
  lemma OwnershipPassesIff<P>(s: State, i: In<P>)
    requires (i.a.stb ==> i.a.cyc) && (i.b.stb ==> i.b.cyc)
    ensures Step(s, i).owner == s.owner.Other() <==>
            !i.Of(s.owner).cyc && (i.Of(s.owner.Other()).stb || (BothIdle(i) && s.owner == s.last))
  {}

  /** What travels along with the requests does not matter to the arbiter. */
  lemma PayloadIsIrrelevant<P, Q>(s: State, i: In<P>, j: In<Q>)
    requires i.a.cyc == j.a.cyc && i.a.stb == j.a.stb && i.b.cyc == j.b.cyc && i.b.stb == j.b.stb && i.reply == j.reply
    ensures Step(s, i) == Step(s, j) && (EnvOk(s, i) <==> EnvOk(s, j))
    ensures forall m: Master :: ReplyTo(s, i, m) == ReplyTo(s, j, m)
  {
    assert Cyc(s, i) == Cyc(s, j) && Accepts(s, i) == Accepts(s, j) && InFlight(s, i) == InFlight(s, j);
  }

  class WbArbiter {
    var aOwner: bool
    var lastOwner: bool

    ghost var s: State

    ghost predicate Valid()
      reads this
    {
      Inv(s) && aOwner == (s.owner == A) && lastOwner == (s.last == A)
    }

    constructor ()
      ensures Valid() && s == Reset()
    {
      aOwner, lastOwner := true, false;
      s := Reset();
    }

    /** The combinational outputs: the bus as the slave sees it and the reply to each master. */
    method Route<P>(i: In<P>) returns (bus: Port<P>, toA: Reply, toB: Reply)
      requires Valid()
      ensures bus == i.Of(s.owner) && toA == ReplyTo(s, i, A) && toB == ReplyTo(s, i, B)
    {
      bus := if aOwner then i.a else i.b;
      toA := Reply(if aOwner then i.reply.ack else false, if aOwner then i.reply.stall else true,
                   if aOwner then i.reply.err else false);
      toB := Reply(if !aOwner then i.reply.ack else false, if !aOwner then i.reply.stall else true,
                   if !aOwner then i.reply.err else false);
    }

    /** A rising edge of i_clk. While the bus is in a cycle its owner does not change. */
    method Tick<P>(i: In<P>)
      requires Valid() && EnvOk(s, i)
      modifies this
      ensures Valid() && s == Step(old(s), i)
      ensures Cyc(old(s), i) ==> aOwner == old(aOwner)
    {
      var owner', last' := aOwner, lastOwner;
      if i.a.cyc && aOwner { last' := true; }
      else if i.b.cyc && !aOwner { last' := false; }

      if !i.a.cyc && !i.b.cyc {
        owner' := !lastOwner;
      } else if aOwner && !i.a.cyc {
        if i.b.stb { owner' := false; }
      } else if !aOwner && !i.b.cyc {
        if i.a.stb { owner' := true; }
      }

      StepKeepsInv(s, i);
      aOwner, lastOwner := owner', last';
      s := Step(s, i);
    }
  }
}
