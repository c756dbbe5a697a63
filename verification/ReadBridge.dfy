/**
 axilrd2wbsp at register level. Each always block is a method that returns its register's next value; Tick loads
 them all at once and refines one step of ReadBridgeSpec.
 */
module ReadBridge {
  import opened AxiResponse
  import opened Pointers
  import opened ReadBridgeSpec

  // Wishbone request, shadow request, and the count of requests the slave has not answered
  datatype BusRegs = BusRegs(stb: bool, addr: nat, shadow: bool, shadowAddr: nat, pending: bool, outstanding: nat)

  // Wrap-around pointers of the FIFO of outstanding reads
  datatype FifoRegs = FifoRegs(first: nat, mid: nat, last: nat, full: bool, arready: bool)

  // Response channel and error mode
  datatype RespRegs = RespRegs(rvalid: bool, rresp: int, err: bool, errLoc: nat)

  class Bridge {
    const cap: nat  // 2^LGFIFO
    const dfifo: array<nat>
    var bus: BusRegs
    var fifo: FifoRegs
    var resp: RespRegs

    ghost var s: State

    ghost predicate RequestIs(t: State, st: bool, a: nat) {
      st == t.stb && (st ==> t.Waiting() <= t.First() && a == t.ar[t.First() - t.Waiting()])
    }

    ghost predicate ShadowIs(t: State, sh: bool, a: nat) {
      sh == t.shadow && (sh ==> 0 < t.First() && a == t.ar[t.First() - 1])
    }

    ghost predicate ResponseIs(t: State, rv: bool, rr: int) {
      rv == t.Rvalid() && (rv ==> t.last < t.Mid() && rr == Code(t.answers[t.last].verdict))
    }

    ghost predicate BusIs(t: State, k: BusRegs) {
      && RequestIs(t, k.stb, k.addr) && ShadowIs(t, k.shadow, k.shadowAddr)
      && k.outstanding == t.Outstanding() && k.pending == (k.outstanding > 0)
    }

    ghost predicate FifoIs(t: State, k: FifoRegs) {
      && cap > 1
      && k.first == Ptr(cap, t.First()) && k.mid == Ptr(cap, t.Mid()) && k.last == Ptr(cap, t.last)
      && k.full == t.Full(cap) && k.arready == t.arready
    }

    ghost predicate RespIs(t: State, k: RespRegs) {
      cap > 1 && ResponseIs(t, k.rvalid, k.rresp) && k.err == t.err && (k.err ==> k.errLoc == Ptr(cap, t.errLoc))
    }

    /** The data FIFO holds the data of every answer not yet delivered. */
    ghost predicate DataHeld(t: State)
      reads dfifo
    {
      && cap > 0 && dfifo.Length == cap
      && forall k {:trigger t.answers[k]} :: t.last <= k < t.Mid() && t.answers[k].verdict != DecErr ==>
           DataAt(k) == t.answers[k].data
    }

    ghost function DataAt(k: nat): nat
      requires cap > 0 && dfifo.Length == cap
      reads dfifo
    {
      dfifo[Slot(cap, Ptr(cap, k))]
    }

    ghost predicate Matches(t: State)
      reads this, dfifo
    {
      BusIs(t, bus) && FifoIs(t, fifo) && RespIs(t, resp) && DataHeld(t)
    }

    /** What the always blocks rely on. */
    ghost predicate Linked()
      reads this, dfifo
    {
      CountInv(s, cap) && Matches(s)
    }

    ghost predicate Valid()
      reads this, dfifo
    {
      Inv(s, cap) && Matches(s)
    }

    /** Power-up: the data registers and the data FIFO hold anything. */
    constructor (cap: nat, dfifo: array<nat>, anyAddr: nat, anyLoc: nat)
      requires cap > 1 && dfifo.Length == cap
      ensures Valid() && s == Reset() && this.cap == cap && this.dfifo == dfifo
    {
      this.cap := cap;
      this.dfifo := dfifo;
      bus := BusRegs(false, anyAddr, false, anyAddr, false, 0);
      fifo := FifoRegs(0, 0, 0, false, true);
      resp := RespRegs(false, 0, false, anyLoc);
      s := Reset();
      new;
      assert s.ar == s.issued == [] && s.answers == [] && s.last == 0 && !s.stb && !s.shadow && !s.err;
    }

    // ----- Wires -----

    predicate Cyc() reads this { bus.pending || bus.stb }

    function Rdata(): nat
      requires dfifo.Length == cap && fifo.last < 2 * cap
      reads this, dfifo
    {
      dfifo[Slot(cap, fifo.last)]
    }

    lemma WiresMatch(i: In)
      requires Linked()
      ensures Cyc() == s.Cyc() && (i.arvalid && fifo.arready) == Accept(s, i)
      ensures (resp.rvalid && i.rready) == Taken(s, i)
    {}

    // ----- Always blocks -----

    method RequestNext(i: In) returns (st: bool, a: nat)
      requires Linked() && SlaveOk(s, i)
      ensures RequestIs(Step(s, cap, i), st, a)
    {
      WiresMatch(i);
      if i.reset || (Cyc() && i.err) || resp.err { st := false; }
      else if bus.shadow || (i.arvalid && fifo.arready) { st := true; }
      else if Cyc() && !i.stall { st := false; }
      else { st := bus.stb; }

      a := bus.addr;
      if bus.shadow && !i.stall { a := bus.shadowAddr; }
      else if fifo.arready && (!bus.stb || !i.stall) { a := i.araddr / 4; }
    }

    method ShadowNext(i: In) returns (v: bool, a: nat)
      requires Linked() && SlaveOk(s, i)
      ensures ShadowIs(Step(s, cap, i), v, a)
    {
      WiresMatch(i);
      v, a := bus.shadow, bus.shadowAddr;
      if i.arvalid && fifo.arready && bus.stb && i.stall {
        v, a := true, i.araddr / 4;
      } else if !i.stall || !Cyc() {
        v := false;
      }
      if i.reset || (Cyc() && i.err) || resp.err { v := false; }
    }

    method OutstandingNext(i: In) returns (p: bool, n: nat)
      requires Linked() && SlaveOk(s, i)
      ensures n == Step(s, cap, i).Outstanding() && p == (n > 0)
    {
      WiresMatch(i);
      p, n := bus.pending, bus.outstanding;
      if i.reset || !Cyc() || i.err || resp.err {
        p, n := false, 0;
      } else if !(bus.stb && !i.stall) && i.ack {
        n := PrevPtr(cap, bus.outstanding);
        p := bus.outstanding >= 2;
      } else if (bus.stb && !i.stall) && !i.ack {
        n := NextPtr(cap, bus.outstanding);
        p := true;
      }
    }

    lemma FullMatches()
      requires Linked()
      ensures !fifo.full ==> (LooksFull(cap, NextPtr(cap, fifo.first), fifo.last) <==> s.First() + 1 == s.last + cap)
    {
      NextIsSuccessor(cap, s.First());
      if !fifo.full { LooksFullMeansFull(cap, s.last, s.First() + 1); }
    }

    method FullNext(i: In) returns (v: bool)
      requires Linked() && SlaveOk(s, i)
      ensures v == Step(s, cap, i).Full(cap)
    {
      WiresMatch(i);
      FullMatches();
      v := fifo.full;
      if i.reset { v := false; }
      else if !(resp.rvalid && i.rready) && i.arvalid && fifo.arready {
        v := LooksFull(cap, NextPtr(cap, fifo.first), fifo.last);
      }
      else if (resp.rvalid && i.rready) && !(i.arvalid && fifo.arready) { v := false; }
    }

    method ArreadyNext(i: In) returns (v: bool)
      requires Linked() && SlaveOk(s, i)
      ensures v == Step(s, cap, i).arready
    {
      WiresMatch(i);
      FullMatches();
      if i.reset { v := true; }
      else if (Cyc() && i.err) || resp.err { v := false; }
      else if i.arvalid && fifo.arready && bus.stb && i.stall { v := false; }
      else if !fifo.arready && bus.stb && i.stall { v := false; }
      else if fifo.full && (!resp.rvalid || !i.rready) { v := false; }
      else if (!resp.rvalid || !i.rready) && i.arvalid && fifo.arready {
        v := Slot(cap, NextPtr(cap, fifo.first)) != Slot(cap, fifo.last)
          || Lap(cap, NextPtr(cap, fifo.first)) == Lap(cap, fifo.last);
      }
      else { v := true; }
    }

    method FirstNext(i: In) returns (p: nat)
      requires Linked() && SlaveOk(s, i)
      ensures p == Ptr(cap, Step(s, cap, i).First())
    {
      WiresMatch(i);
      NextIsSuccessor(cap, s.First());
      p := fifo.first;
      if i.reset { p := 0; } else if i.arvalid && fifo.arready { p := NextPtr(cap, fifo.first); }
    }

    method MidNext(i: In) returns (p: nat)
      requires Linked() && SlaveOk(s, i)
      ensures p == Ptr(cap, Step(s, cap, i).Mid())
    {
      WiresMatch(i);
      NextIsSuccessor(cap, s.Mid());
      EqualPointers(cap, s.Mid(), s.First());
      p := fifo.mid;
      if i.reset { p := 0; }
      else if Cyc() && (i.ack || i.err) { p := NextPtr(cap, fifo.mid); }
      else if resp.err && fifo.mid != fifo.first { p := NextPtr(cap, fifo.mid); }
    }

    method LastNext(i: In) returns (p: nat)
      requires Linked() && SlaveOk(s, i)
      ensures p == Ptr(cap, Step(s, cap, i).last)
    {
      WiresMatch(i);
      NextIsSuccessor(cap, s.last);
      p := fifo.last;
      if i.reset { p := 0; } else if resp.rvalid && i.rready { p := NextPtr(cap, fifo.last); }
    }

    method ErrNext(i: In) returns (v: bool, loc: nat)
      requires Linked() && SlaveOk(s, i)
      ensures var t := Step(s, cap, i); v == t.err && (v ==> loc == Ptr(cap, t.errLoc))
    {
      WiresMatch(i);
      EqualPointers(cap, s.First(), s.last);
      v, loc := resp.err, resp.errLoc;
      if i.reset { v := false; }
      else if fifo.first == fifo.last { v := false; }
      else if Cyc() && i.err { v := true; }
      if Cyc() && i.err { loc := fifo.mid; }
    }

    method RvalidNext(i: In) returns (v: bool)
      requires Linked() && SlaveOk(s, i)
      ensures v == Step(s, cap, i).Rvalid()
    {
      WiresMatch(i);
      NextIsSuccessor(cap, s.last);
      EqualPointers(cap, s.last + 1, s.First());
      EqualPointers(cap, s.last + 1, s.Mid());
      v := resp.rvalid;
      if i.reset { v := false; }
      else if Cyc() && (i.ack || i.err) { v := true; }
      else if resp.rvalid && i.rready {
        if resp.err { v := NextPtr(cap, fifo.last) != fifo.first; } else { v := NextPtr(cap, fifo.last) != fifo.mid; }
      }
    }

    method RrespNext(i: In) returns (r: int)
      requires Linked() && AnswerInv(s, cap) && SlaveOk(s, i)
      ensures ResponseIs(Step(s, cap, i), Step(s, cap, i).Rvalid(), r)
    {
      WiresMatch(i);
      NextIsSuccessor(cap, s.last);
      EqualPointers(cap, s.last + 1, s.Mid());
      if s.err { EqualPointers(cap, s.last + 1, s.errLoc); }
      if !i.reset { NextVerdict(s, cap, i); }
      r := resp.rresp;
      if i.reset { r := 0; }
      else if !resp.rvalid || i.rready {
        if !resp.err && (!Cyc() || !i.err) { r := 0; }
        else if !resp.err && Cyc() && i.err {
          if resp.rvalid { r := if fifo.mid == NextPtr(cap, fifo.last) then 2 else 0; }
          else { r := if fifo.mid == fifo.last then 2 else 0; }
        } else if resp.err {
          if NextPtr(cap, fifo.last) == resp.errLoc { r := 2; }
          else if resp.rresp >= 2 { r := 3; }
        } else { r := 0; }
      }
    }

    /** The write port of the data FIFO never hits a slot that is still owed to the AXI side. */
    method StoreData(i: In)
      requires Linked() && SlaveOk(s, i)
      modifies dfifo
      ensures DataHeld(Step(s, cap, i))
      ensures forall k :: s.last <= k < s.Mid() ==> DataAt(k) == old(DataAt(k))
    {
      WiresMatch(i);
      if !s.err && s.Mid() < s.First() {
        forall k: nat | s.last <= k < s.Mid()
          ensures Slot(cap, Ptr(cap, k)) != Slot(cap, Ptr(cap, s.Mid()))
        {
          SlotsDiffer(cap, k, s.Mid());
        }
      }
      if Cyc() && (i.ack || i.err) {
        dfifo[Slot(cap, fifo.mid)] := i.data;
      }
    }

    // ----- The clock -----

    method BusNext(i: In) returns (k: BusRegs)
      requires Linked() && SlaveOk(s, i)
      ensures BusIs(Step(s, cap, i), k)
    {
      var st, a := RequestNext(i);
      var sh, sa := ShadowNext(i);
      var p, n := OutstandingNext(i);
      k := BusRegs(st, a, sh, sa, p, n);
    }

    method FifoNext(i: In) returns (k: FifoRegs)
      requires Linked() && SlaveOk(s, i)
      ensures FifoIs(Step(s, cap, i), k)
    {
      var f := FirstNext(i);
      var m := MidNext(i);
      var l := LastNext(i);
      var u := FullNext(i);
      var r := ArreadyNext(i);
      k := FifoRegs(f, m, l, u, r);
    }

    method RespNext(i: In) returns (k: RespRegs)
      requires Linked() && AnswerInv(s, cap) && SlaveOk(s, i)
      ensures RespIs(Step(s, cap, i), k)
    {
      var rv := RvalidNext(i);
      var rr := RrespNext(i);
      var e, loc := ErrNext(i);
      k := RespRegs(rv, rr, e, loc);
    }

    /** A response that waits for `rready` is the same after the clock. */
    lemma HeldResponse(i: In)
      requires Valid() && SlaveOk(s, i) && !i.reset && resp.rvalid && !i.rready
      ensures var t := Step(s, cap, i);
        && t.Rvalid() && t.last == s.last < s.Mid() && Rdata() == DataAt(s.last)
        && Code(t.answers[t.last].verdict) == resp.rresp
    {
      ResponseIsHeld(s, cap, i);
    }

    /** Every register is loaded from values computed before the edge. */
    method Edge(i: In)
      requires Valid() && SlaveOk(s, i)
      modifies this, dfifo
      ensures Valid() && s == Step(old(s), cap, i) && Rdata() == DataAt(s.last)
      ensures forall k :: old(s.last) <= k < old(s.Mid()) ==> DataAt(k) == old(DataAt(k))
    {
      assert Linked();
      var bus' := BusNext(i);
      var fifo' := FifoNext(i);
      var resp' := RespNext(i);
      StepKeepsInv(s, cap, i);
      StoreData(i);
      Load(bus', fifo', resp', Step(s, cap, i));
    }

    /** A rising edge of i_clk. A response that waits for `rready` keeps its data and its code. */
    method Tick(i: In)
      requires Valid() && SlaveOk(s, i)
      modifies this, dfifo
      ensures Valid() && s == Step(old(s), cap, i)
      ensures !i.reset && old(resp.rvalid) && !i.rready ==>
                resp.rvalid && resp.rresp == old(resp.rresp) && Rdata() == old(Rdata())
    {
      if !i.reset && resp.rvalid && !i.rready { HeldResponse(i); }
      Edge(i);
    }

    method Load(b: BusRegs, f: FifoRegs, r: RespRegs, ghost t: State)
      requires Inv(t, cap) && BusIs(t, b) && FifoIs(t, f) && RespIs(t, r) && DataHeld(t)
      modifies this
      ensures Valid() && s == t && resp == r && Rdata() == DataAt(t.last)
    {
      bus, fifo, resp := b, f, r;
      s := t;
    }
  }
}
