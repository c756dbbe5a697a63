/** axlite2wbsp: the two bridges and the arbiter, wired together. Every clock refines one step of AdapterSpec. */
module Adapter {
  import opened AdapterSpec
  import Arb = Arbiter
  import R = ReadBridgeSpec
  import W = WriteBridgeSpec
  import ReadBridge
  import WriteBridge

  class AxiLiteToWb {
    const rd: ReadBridge.Bridge
    const wr: WriteBridge.Bridge
    const arb: Arb.WbArbiter

    ghost var seen: seq<Accepted>

    ghost function Value(): State
      reads this, rd, wr, arb
    {
      State(rd.s, wr.s, arb.s, seen)
    }

    ghost predicate Valid()
      reads this, rd, rd.dfifo, wr, arb
    {
      rd.Valid() && wr.Valid() && arb.Valid() && rd.cap == wr.cap && Inv(Value(), rd.cap)
    }

    /** Power-up: the data registers and the data FIFO hold anything. */
    constructor (cap: nat, dfifo: array<nat>, anyAddr: nat, anyBeat: W.Beat, anyLoc: nat)
      requires cap > 1 && dfifo.Length == cap
      ensures Valid() && Value() == Reset() && rd.cap == cap && rd.dfifo == dfifo
      ensures fresh(rd) && fresh(wr) && fresh(arb)
    {
      rd := new ReadBridge.Bridge(cap, dfifo, anyAddr, anyLoc);
      wr := new WriteBridge.Bridge(cap, anyAddr, anyBeat, anyLoc);
      arb := new Arb.WbArbiter();
      seen := [];
      new;
      ResetKeepsInv(Value(), cap);
    }

    /** The arbiter's inputs as they leave the bridges' registers. */
    function Ports(i: In): Arb.In<Request>
      reads rd, wr
    {
      Arb.In(Arb.Port(rd.Cyc(), rd.bus.stb, ReadOf(rd.bus.addr)),
             Arb.Port(wr.Cyc(), wr.bus.stb, WriteOf(wr.bus.addr, wr.bus.beat)), i.reply)
    }

    lemma PortsMatch(i: In)
      requires Valid()
      ensures var p, w := Ports(i), Wires(Value(), i);
        && p.a.cyc == w.a.cyc && p.a.stb == w.a.stb && p.b.cyc == w.b.cyc && p.b.stb == w.b.stb && p.reply == w.reply
      ensures var p := Ports(i).Of(arb.s.owner); p.stb ==> IsOffered(Value(), p.payload)
    {
      rd.WiresMatch(ReadIn(Value(), i));
      wr.WiresMatch(WriteIn(Value(), i));
    }

    /** The wires of this clock: the shared bus, and what each bridge gets to see. */
    method Route(i: In) returns (bus: Arb.Port<Request>, r: R.In, w: W.In)
      requires Valid()
      ensures bus.cyc == Arb.Cyc(arb.s, Wires(Value(), i))
      ensures bus.stb == Wires(Value(), i).Of(arb.s.owner).stb && (bus.stb ==> IsOffered(Value(), bus.payload))
      ensures r == ReadIn(Value(), i) && w == WriteIn(Value(), i)
    {
      PortsMatch(i);
      Arb.PayloadIsIrrelevant(arb.s, Ports(i), Wires(Value(), i));
      var toA, toB;
      bus, toA, toB := arb.Route(Ports(i));
      r := R.In(i.reset, i.arvalid, i.araddr, i.rready, toA.stall, toA.ack, i.data, toA.err);
      w := W.In(i.reset, i.awvalid, i.awaddr, i.wvalid, i.beat, i.bready, toB.stall, toB.ack, toB.err);
    }

    /** What the arbiter makes of the clock. */
    lemma PortsAreWires(i: In)
      requires Valid()
      ensures Arb.Step(arb.s, Ports(i)) == Arb.Step(arb.s, Wires(Value(), i))
      ensures Arb.EnvOk(arb.s, Ports(i)) <==> Arb.EnvOk(arb.s, Wires(Value(), i))
    {
      PortsMatch(i);
      Arb.PayloadIsIrrelevant(arb.s, Ports(i), Wires(Value(), i));
    }

    /** All three parts see the edge at once. */
    method Edge(p: Arb.In<Request>, r: R.In, w: W.In, ghost next: State)
      requires rd.Valid() && wr.Valid() && arb.Valid() && rd.cap == wr.cap && rd.cap > 0
      requires R.SlaveOk(rd.s, r) && W.SlaveOk(wr.s, w) && Arb.EnvOk(arb.s, p)
      requires next.rd == R.Step(rd.s, rd.cap, r) && next.wr == W.Step(wr.s, wr.cap, w)
      requires next.arb == Arb.Step(arb.s, p)
      requires Inv(next, rd.cap)
      modifies this, rd, rd.dfifo, wr, arb
      ensures Valid() && Value() == next
    {
      rd.Tick(r);
      wr.Tick(w);
      arb.Tick(p);
      seen := next.seen;
    }

    /** A rising edge of i_clk. The bus shows the request that the slave may take on it. */
    method Tick(i: In) returns (bus: Arb.Port<Request>)
      requires Valid() && AdapterSpec.SlaveOk(Value(), i)
      modifies this, rd, rd.dfifo, wr, arb
      ensures Valid() && Value() == Step(old(Value()), rd.cap, i)
      ensures bus.cyc == Arb.Cyc(old(arb.s), Wires(old(Value()), i))
      ensures bus.stb == Wires(old(Value()), i).Of(old(arb.s.owner)).stb
      ensures bus.stb ==> IsOffered(old(Value()), bus.payload)
    {
      var r, w;
      bus, r, w := Route(i);
      PortsAreWires(i);
      EveryoneIsServed(Value(), rd.cap, i);
      StepKeepsInv(Value(), rd.cap, i);
      Edge(Ports(i), r, w, Step(Value(), rd.cap, i));
    }
  }
}
