/**
 axilwr2wbsp at register level. Each always block is a method that returns its register's next value; Tick loads
 them all at once and refines one step of WriteBridgeSpec.
 */
module WriteBridge {
  import opened AxiResponse
  import opened Pointers
  import opened WriteBridgeSpec

  // Holding registers and ready flags
  datatype SkidRegs = SkidRegs(heldAw: bool, heldAddr: nat, heldW: bool, heldBeat: Beat, awready: bool, wready: bool)

  // Wishbone request, and the count of requests the slave has not answered
  datatype BusRegs = BusRegs(stb: bool, addr: nat, beat: Beat, pending: bool, outstanding: nat)

  // Wrap-around pointers of the FIFO of outstanding writes
  datatype FifoRegs = FifoRegs(first: nat, mid: nat, last: nat, full: bool)

  // Response channel and error mode
  datatype RespRegs = RespRegs(bvalid: bool, bresp: int, err: bool, errLoc: nat)

  class Bridge {
    const cap: nat  // 2^LGFIFO
    var skid: SkidRegs
    var bus: BusRegs
    var fifo: FifoRegs
    var resp: RespRegs

    ghost var s: State

    ghost predicate RequestIs(t: State, st: bool, a: nat, b: Beat) {
      && st == t.stb
      && (st ==> 0 < t.first <= |t.aw| && t.first <= |t.w| && a == t.aw[t.first - 1] && b == t.w[t.first - 1])
    }

    ghost predicate ResponseIs(t: State, bv: bool, br: int) {
      bv == t.Bvalid() && (bv ==> t.last < t.Mid() && br == Code(t.verdicts[t.last]))
    }

    ghost predicate SkidIs(t: State, k: SkidRegs) {
      && k.heldAw == t.HoldsAw() && (k.heldAw ==> k.heldAddr == t.aw[t.first])
      && k.heldW == t.HoldsW() && (k.heldW ==> k.heldBeat == t.w[t.first])
      && k.awready == t.awready && k.wready == t.wready
    }

    ghost predicate BusIs(t: State, k: BusRegs) {
      RequestIs(t, k.stb, k.addr, k.beat) && k.outstanding == t.Outstanding() && k.pending == (k.outstanding > 0)
    }

    ghost predicate FifoIs(t: State, k: FifoRegs) {
      && cap > 1
      && k.first == Ptr(cap, t.first) && k.mid == Ptr(cap, t.Mid()) && k.last == Ptr(cap, t.last)
      && k.full == t.Full(cap)
    }

    ghost predicate RespIs(t: State, k: RespRegs) {
      cap > 1 && ResponseIs(t, k.bvalid, k.bresp) && k.err == t.err && (k.err ==> k.errLoc == Ptr(cap, t.errLoc))
    }

    ghost predicate Matches(t: State)
      reads this
    {
      SkidIs(t, skid) && BusIs(t, bus) && FifoIs(t, fifo) && RespIs(t, resp)
    }

    /** What the always blocks rely on. */
    ghost predicate Linked()
      reads this
    {
      CountInv(s, cap) && Matches(s)
    }

    ghost predicate Valid()
      reads this
    {
      Inv(s, cap) && Matches(s)
    }

    /** Power-up: the data registers hold anything. */
    constructor (cap: nat, anyAddr: nat, anyBeat: Beat, anyLoc: nat)
      requires cap > 1
      ensures Valid() && s == Reset() && this.cap == cap
    {
      this.cap := cap;
      skid := SkidRegs(false, anyAddr, false, anyBeat, true, true);
      bus := BusRegs(false, anyAddr, anyBeat, false, 0);
      fifo := FifoRegs(0, 0, 0, false);
      resp := RespRegs(false, 0, false, anyLoc);
      s := Reset();
    }

    // ----- Wires -----

    predicate Cyc() reads this { bus.pending || bus.stb }

    predicate GotAw(i: In) reads this { skid.heldAw || (i.awvalid && skid.awready) }

    predicate GotW(i: In) reads this { skid.heldW || (i.wvalid && skid.wready) }

    predicate Accepted(i: In)
      reads this
    {
      (!bus.stb || !i.stall) && !fifo.full && !resp.err && GotAw(i) && GotW(i)
    }

    lemma WiresMatch(i: In)
      requires Linked()
      ensures Cyc() == s.Cyc() && Accepted(i) == Launch(s, cap, i)
      ensures GotAw(i) == (|AwAfter(s, i)| > s.first) && GotW(i) == (|WAfter(s, i)| > s.first)
      ensures (resp.bvalid && i.bready) == Taken(s, i)
    {}

    // ----- Always blocks -----

    method StbNext(i: In) returns (v: bool)
      requires Linked() && SlaveOk(s, i)
      ensures v == Step(s, cap, i).stb
    {
      if i.reset || (Cyc() && i.err) || resp.err { v := false; }
      else if Accepted(i) { v := true; }
      else if Cyc() && !i.stall { v := false; }
      else { v := bus.stb; }
    }

    method RequestNext(i: In) returns (a: nat, b: Beat)
      requires Linked() && SlaveOk(s, i)
      ensures RequestIs(Step(s, cap, i), Step(s, cap, i).stb, a, b)
    {
      a, b := bus.addr, bus.beat;
      if !bus.stb || !i.stall {
        if skid.heldAw { a := skid.heldAddr; } else { a := i.awaddr / 4; }
        if skid.heldW { b := skid.heldBeat; } else { b := i.beat; }
      }
    }

    method HeldAwNext(i: In) returns (v: bool, a: nat)
      requires Linked() && SlaveOk(s, i)
      ensures var t := Step(s, cap, i); v == t.HoldsAw() && (v ==> a == t.aw[t.first])
    {
      v, a := skid.heldAw, skid.heldAddr;
      if i.awvalid && skid.awready {
        a := i.awaddr / 4;
        v := !Accepted(i);
      } else if Accepted(i) {
        v := false;
      }
      if i.reset { v := false; }
    }

    method HeldWNext(i: In) returns (v: bool, b: Beat)
      requires Linked() && SlaveOk(s, i)
      ensures var t := Step(s, cap, i); v == t.HoldsW() && (v ==> b == t.w[t.first])
    {
      v, b := skid.heldW, skid.heldBeat;
      if i.wvalid && skid.wready {
        b := i.beat;
        v := !Accepted(i);
      } else if Accepted(i) {
        v := false;
      }
      if i.reset { v := false; }
    }

    method AwreadyNext(i: In) returns (v: bool)
      requires Linked() && SlaveOk(s, i)
      ensures v == Step(s, cap, i).awready
    {
      WiresMatch(i);
      RoomyMatches();
      if i.reset { v := true; }
      else if bus.stb && i.stall && GotAw(i) { v := false; }
      else if resp.err && GotAw(i) { v := false; }
      else if GotAw(i) && !GotW(i) { v := false; }
      else if !skid.awready && bus.stb && i.stall { v := false; }
      else if fifo.full && (skid.heldAw || !resp.bvalid || !i.bready) { v := false; }
      else if (!resp.bvalid || !i.bready) && GotAw(i) { v := LooksRoomy(cap, NextPtr(cap, fifo.first), fifo.last); }
      else { v := true; }
    }

    method WreadyNext(i: In) returns (v: bool)
      requires Linked() && SlaveOk(s, i)
      ensures v == Step(s, cap, i).wready
    {
      WiresMatch(i);
      RoomyMatches();
      if i.reset { v := true; }
      else if bus.stb && i.stall && GotW(i) { v := false; }
      else if resp.err && GotW(i) { v := false; }
      else if GotW(i) && !GotAw(i) { v := false; }
      else if !skid.wready && bus.stb && i.stall { v := false; }
      else if fifo.full && (skid.heldW || !resp.bvalid || !i.bready) { v := false; }
      else if (!resp.bvalid || !i.bready) && i.wvalid && skid.wready {
        v := LooksRoomy(cap, NextPtr(cap, fifo.first), fifo.last);
      }
      else { v := true; }
    }

    lemma RoomyMatches()
      requires Linked()
      ensures !fifo.full ==>
        (LooksRoomy(cap, NextPtr(cap, fifo.first), fifo.last) <==> LapOf(cap, s.first + 1) == LapOf(cap, s.last))
      ensures !fifo.full ==>
        (LooksFull(cap, NextPtr(cap, fifo.first), fifo.last) <==> s.first + 1 == s.last + cap)
    {
      NextIsSuccessor(cap, s.first);
      if !fifo.full {
        LooksRoomyMeansSameLap(cap, s.last, s.first + 1);
        LooksFullMeansFull(cap, s.last, s.first + 1);
      }
    }

    method OutstandingNext(i: In) returns (p: bool, n: nat)
      requires Linked() && SlaveOk(s, i)
      ensures n == Step(s, cap, i).Outstanding() && p == (n > 0)
    {
      WiresMatch(i);
      p, n := bus.pending, bus.outstanding;
      if i.reset || !Cyc() || i.err || resp.err {
        p, n := false, 0;
      } else if !(bus.stb && !i.stall) && i.ack {
        n := PrevPtr(cap, bus.outstanding);
        p := bus.outstanding >= 2;
      } else if (bus.stb && !i.stall) && !i.ack {
        n := NextPtr(cap, bus.outstanding);
        p := true;
      }
    }

    method FullNext(i: In) returns (v: bool)
      requires Linked() && SlaveOk(s, i)
      ensures v == Step(s, cap, i).Full(cap)
    {
      WiresMatch(i);
      RoomyMatches();
      v := fifo.full;
      if i.reset { v := false; }
      else if !(resp.bvalid && i.bready) && Accepted(i) { v := LooksFull(cap, NextPtr(cap, fifo.first), fifo.last); }
      else if (resp.bvalid && i.bready) && !Accepted(i) { v := false; }
    }

    method FirstNext(i: In) returns (p: nat)
      requires Linked() && SlaveOk(s, i)
      ensures p == Ptr(cap, Step(s, cap, i).first)
    {
      WiresMatch(i);
      NextIsSuccessor(cap, s.first);
      p := fifo.first;
      if i.reset { p := 0; } else if Accepted(i) { p := NextPtr(cap, fifo.first); }
    }

    method MidNext(i: In) returns (p: nat)
      requires Linked() && SlaveOk(s, i)
      ensures p == Ptr(cap, Step(s, cap, i).Mid())
    {
      WiresMatch(i);
      NextIsSuccessor(cap, s.Mid());
      EqualPointers(cap, s.Mid(), s.first);
      p := fifo.mid;
      if i.reset { p := 0; }
      else if Cyc() && (i.ack || i.err) { p := NextPtr(cap, fifo.mid); }
      else if resp.err && fifo.mid != fifo.first { p := NextPtr(cap, fifo.mid); }
    }

    method LastNext(i: In) returns (p: nat)
      requires Linked() && SlaveOk(s, i)
      ensures p == Ptr(cap, Step(s, cap, i).last)
    {
      WiresMatch(i);
      NextIsSuccessor(cap, s.last);
      p := fifo.last;
      if i.reset { p := 0; } else if resp.bvalid && i.bready { p := NextPtr(cap, fifo.last); }
    }

    method ErrNext(i: In) returns (v: bool, loc: nat)
      requires Linked() && SlaveOk(s, i)
      ensures var t := Step(s, cap, i); v == t.err && (v ==> loc == Ptr(cap, t.errLoc))
    {
      WiresMatch(i);
      EqualPointers(cap, s.first, s.last);
      v, loc := resp.err, resp.errLoc;
      if i.reset { v := false; }
      else if fifo.first == fifo.last { v := false; }
      else if Cyc() && i.err { v := true; }
      if Cyc() && i.err { loc := fifo.mid; }
    }

    method BvalidNext(i: In) returns (v: bool)
      requires Linked() && SlaveOk(s, i)
      ensures v == Step(s, cap, i).Bvalid()
    {
      WiresMatch(i);
      NextIsSuccessor(cap, s.last);
      EqualPointers(cap, s.last + 1, s.first);
      EqualPointers(cap, s.last + 1, s.Mid());
      v := resp.bvalid;
      if i.reset { v := false; }
      else if Cyc() && (i.ack || i.err) { v := true; }
      else if resp.bvalid && i.bready {
        if resp.err { v := NextPtr(cap, fifo.last) != fifo.first; } else { v := NextPtr(cap, fifo.last) != fifo.mid; }
      }
    }

    method BrespNext(i: In) returns (r: int)
      requires Linked() && VerdictInv(s, cap) && SlaveOk(s, i)
      ensures ResponseIs(Step(s, cap, i), Step(s, cap, i).Bvalid(), r)
    {
      WiresMatch(i);
      NextIsSuccessor(cap, s.last);
      EqualPointers(cap, s.last + 1, s.Mid());
      if s.err { EqualPointers(cap, s.last + 1, s.errLoc); }
      if !i.reset { NextVerdict(s, cap, i); }
      r := resp.bresp;
      if i.reset { r := 0; }
      else if !resp.bvalid || i.bready {
        if !resp.err && (!Cyc() || !i.err) { r := 0; }
        else if !resp.err && Cyc() && i.err {
          if resp.bvalid { r := if fifo.mid == NextPtr(cap, fifo.last) then 2 else 0; }
          else { r := if fifo.mid == fifo.last then 2 else 0; }
        } else if resp.err {
          if NextPtr(cap, fifo.last) == resp.errLoc { r := 2; }
          else if resp.bresp >= 2 { r := 3; }
        } else { r := 0; }
      }
    }

    // ----- The clock -----

    method SkidNext(i: In) returns (k: SkidRegs)
      requires Linked() && SlaveOk(s, i)
      ensures SkidIs(Step(s, cap, i), k)
    {
      var ha, haddr := HeldAwNext(i);
      var hw, hbeat := HeldWNext(i);
      var ar := AwreadyNext(i);
      var wr := WreadyNext(i);
      k := SkidRegs(ha, haddr, hw, hbeat, ar, wr);
    }

    method BusNext(i: In) returns (k: BusRegs)
      requires Linked() && SlaveOk(s, i)
      ensures BusIs(Step(s, cap, i), k)
    {
      var st := StbNext(i);
      var a, b := RequestNext(i);
      var p, n := OutstandingNext(i);
      k := BusRegs(st, a, b, p, n);
    }

    method FifoNext(i: In) returns (k: FifoRegs)
      requires Linked() && SlaveOk(s, i)
      ensures FifoIs(Step(s, cap, i), k)
    {
      var f := FirstNext(i);
      var m := MidNext(i);
      var l := LastNext(i);
      var u := FullNext(i);
      k := FifoRegs(f, m, l, u);
    }

    method RespNext(i: In) returns (k: RespRegs)
      requires Linked() && VerdictInv(s, cap) && SlaveOk(s, i)
      ensures RespIs(Step(s, cap, i), k)
    {
      var bv := BvalidNext(i);
      var br := BrespNext(i);
      var e, loc := ErrNext(i);
      k := RespRegs(bv, br, e, loc);
    }

    /** A rising edge of i_clk: every register is loaded from values computed before it. */
    method Tick(i: In)
      requires Valid() && SlaveOk(s, i)
      modifies this
      ensures Valid() && s == Step(old(s), cap, i)
    {
      assert Linked();
      var skid' := SkidNext(i);
      var bus' := BusNext(i);
      var fifo' := FifoNext(i);
      var resp' := RespNext(i);
      StepKeepsInv(s, cap, i);
      Load(skid', bus', fifo', resp', Step(s, cap, i));
    }

    method Load(k: SkidRegs, b: BusRegs, f: FifoRegs, r: RespRegs, ghost t: State)
      requires Inv(t, cap) && SkidIs(t, k) && BusIs(t, b) && FifoIs(t, f) && RespIs(t, r)
      modifies this
      ensures Valid() && s == t
    {
      skid, bus, fifo, resp := k, b, f, r;
      s := t;
    }
  }
}
