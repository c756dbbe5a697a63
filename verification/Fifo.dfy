/**
 generic_fifo_dc_gray at register level: Gray-coded pointers of aw + 1 bits, cross-domain samples, decoded
 comparisons and a memory of 2^aw words. Every clock edge refines the matching step of FifoSpec.
 */
module Fifo {
  import opened Powers
  import opened GrayCode
  import opened FifoSpec

  class DualClockFifo<T> {
    const aw: nat
    const mem: array<T>

    // Write clock domain
    var wpBin: Bits
    var wpGray: Bits
    var rpS: Bits
    var full: bool

    // Read clock domain
    var rpBin: Bits
    var rpGray: Bits
    var wpS: Bits
    var empty: bool
    var ra: Bits  // address register of the memory's read port

    ghost var q: Queue<T>

    ghost function Cap(): nat { Pow2(aw) }

    /** A pointer kept in binary and in Gray code. */
    ghost predicate IsPointer(bin: Bits, gray: Bits, n: nat) {
      bin == ToBits(aw + 1, n) && gray == Encode(bin)
    }

    /** A pointer as held by the other clock domain. */
    ghost predicate IsSample(s: Bits, n: nat) {
      s == Encode(ToBits(aw + 1, n))
    }

    /** The registers clocked by wr_clk hold what s says. */
    ghost predicate WriterMatches(s: Queue<T>)
      reads `wpBin, `wpGray, `rpS, `full, mem
    {
      IsPointer(wpBin, wpGray, s.Wp()) && IsSample(rpS, s.rpSeen) && full == s.full && MemoryHolds(s.written)
    }

    /** The registers clocked by rd_clk hold what s says. */
    ghost predicate ReaderMatches(s: Queue<T>)
      reads `rpBin, `rpGray, `wpS, `empty, `ra
    {
      IsPointer(rpBin, rpGray, s.rp) && IsSample(wpS, s.wpSeen) && ra == ToBits(aw, s.ra) && empty == s.empty
    }

    /** The memory holds the last 2^aw words written. */
    ghost predicate MemoryHolds(words: seq<T>)
      reads mem
    {
      && mem.Length == Cap()
      && forall i :: 0 <= i < |words| <= i + Cap() ==> mem[i % Cap()] == words[i]
    }

    ghost predicate Valid()
      reads this, mem
    {
      Inv(q, Cap()) && WriterMatches(q) && ReaderMatches(q)
    }

    constructor (aw: nat, mem: array<T>)
      requires mem.Length == Pow2(aw)
      ensures Valid() && q == Reset() && this.aw == aw && this.mem == mem
    {
      this.aw := aw;
      this.mem := mem;
      var zero := ToBits(aw + 1, 0);
      wpBin, wpGray, rpS, full := zero, Encode(zero), Encode(zero), false;
      rpBin, rpGray, wpS, empty := zero, Encode(zero), Encode(zero), true;
      ra := ToBits(aw, 0);
      q := Reset();
    }

    /** The word on the memory's output. */
    function Dout(): T
      requires Valid()
      reads this, mem
    {
      RegisterValue(aw, q.ra);
      mem[ToNat(ra)]
    }

    /** `dout` carries the word FifoSpec names. */
    lemma DoutIsShown()
      requires Valid() && Shown(q, Cap()) < q.Wp()
      ensures Dout() == q.written[Shown(q, Cap())]
    {
      RegisterValue(aw, q.ra);
      var i := Shown(q, Cap());
      NextLap(q.ra, Cap());
      assert mem[i % Cap()] == q.written[i];
    }

    /** Gray codes of counts at most one buffer apart are equal only for equal counts. */
    lemma SameGray(a: nat, b: nat)
      requires a <= b <= a + Pow2(aw)
      ensures Encode(ToBits(aw + 1, a)) == Encode(ToBits(aw + 1, b)) <==> a == b
    {
      DecodeEncode(ToBits(aw + 1, a));
      DecodeEncode(ToBits(aw + 1, b));
      EqualRegisters(aw + 1, a, b);
    }

    /** Next values of the write pointer pair and of `full`, from the write domain's own registers. */
    method WriterNext(we: bool) returns (bin: Bits, gray: Bits, f: bool)
      requires Inv(q, Cap()) && WriterMatches(q) && (we ==> !full)
      ensures IsPointer(bin, gray, q.WpAfter(we))
      ensures f <==> FullNext(q, Cap(), we)
    {
      var binNext := Increment(wpBin);
      var grayNext := Encode(binNext);
      var rpX := Decode(rpS);
      f := OppositeLaps(aw, wpBin, rpX) || (we && OppositeLaps(aw, binNext, rpX));
      bin, gray := wpBin, wpGray;
      if we { bin, gray := binNext, grayNext; }

      DecodeEncode(ToBits(aw + 1, q.rpSeen));
      IncrementIsSuccessor(aw + 1, q.Wp());
      OppositeLapsMeansFull(aw, q.rpSeen, q.Wp());
      if we { OppositeLapsMeansFull(aw, q.rpSeen, q.Wp() + 1); }
    }

    /** Next values of the read pointer pair and of `empty`, from the read domain's own registers. */
    method ReaderNext(re: bool) returns (bin: Bits, gray: Bits, e: bool)
      requires Inv(q, Cap()) && ReaderMatches(q) && (re ==> !empty)
      ensures IsPointer(bin, gray, q.RpAfter(re))
      ensures e <==> EmptyNext(q, re)
    {
      var binNext := Increment(rpBin);
      var grayNext := Encode(binNext);
      e := wpS == rpGray || (re && wpS == grayNext);
      bin, gray := rpBin, rpGray;
      if re { bin, gray := binNext, grayNext; }

      IncrementIsSuccessor(aw + 1, q.rp);
      SameGray(q.rp, q.wpSeen);
      if re { SameGray(q.rp + 1, q.wpSeen); }
    }

    /** The memory's write port. */
    method Store(we: bool, din: T)
      requires Inv(q, Cap()) && WriterMatches(q) && (we ==> !full)
      modifies mem
      ensures MemoryHolds(q.WrittenAfter(we, din))
    {
      if we {
        AddressBits(aw, q.Wp());
        RegisterValue(aw, q.Wp());
        ghost var n := q.Wp();
        mem[ToNat(wpBin[..aw])] := din;
        forall i | 0 <= i < n + 1 <= i + Cap()
          ensures mem[i % Cap()] == (q.written + [din])[i]
        {
          if i < n { DistinctSlots(i, n, Cap()); }
        }
      }
    }

    /** What a rising edge of wr_clk does to the registers it clocks. */
    method WriteHalf(we: bool, din: T, rpSample: Bits, ghost seen: nat, ghost next: Queue<T>)
      requires Inv(q, Cap()) && WriterMatches(q) && (we ==> !full) && IsSample(rpSample, seen)
      requires WriterAdvances(q, Cap(), we, din, seen, next)
      modifies `wpBin, `wpGray, `rpS, `full, mem
      ensures WriterMatches(next)
    {
      var bin, gray, f := WriterNext(we);
      Store(we, din);
      wpBin, wpGray, rpS, full := bin, gray, rpSample, f;
    }

    /** What a rising edge of rd_clk does to the registers it clocks. */
    method ReadHalf(re: bool, wpSample: Bits, ghost seen: nat, ghost next: Queue<T>)
      requires Inv(q, Cap()) && ReaderMatches(q) && (re ==> !empty) && IsSample(wpSample, seen)
      requires ReaderAdvances(q, re, seen, next)
      modifies `rpBin, `rpGray, `wpS, `empty, `ra
      ensures ReaderMatches(next)
    {
      var bin, gray, e := ReaderNext(re);
      AddressBits(aw, q.rp);
      rpBin, rpGray, wpS, empty, ra := bin, gray, wpSample, e, rpBin[..aw];
    }

    /** A rising edge of wr_clk alone. */
    method WriteEdge(we: bool, din: T)
      requires Valid() && (we ==> !full)
      modifies this, mem
      ensures Valid() && q == Step(old(q), Cap(), Write(we, din))
    {
      ghost var next := Step(q, Cap(), Write(we, din));
      StepKeepsInv(q, Cap(), Write(we, din));
      WriteHalf(we, din, rpGray, q.rp, next);
      q := next;
    }

    /** A rising edge of rd_clk alone. */
    method ReadEdge(re: bool)
      requires Valid() && (re ==> !empty)
      modifies this
      ensures Valid() && q == Step(old(q), Cap(), Read(re))
    {
      ghost var next := Step(q, Cap(), Read(re));
      StepKeepsInv(q, Cap(), Read(re));
      ReadHalf(re, wpGray, q.Wp(), next);
      q := next;
    }

    /** A popping edge leaves the oldest unread word on `dout`. */
    method PopWord() returns (word: T)
      requires Valid() && !empty
      modifies this
      ensures Valid() && q == Step(old(q), Cap(), Read(true))
      ensures old(q.rp < q.Wp()) && word == old(q.written[q.rp])
    {
      ReadEdge(true);
      DoutIsShown();
      word := Dout();
    }

    static function GrayAfter(bin: Bits, gray: Bits, moves: bool): Bits {
      if moves then Encode(Increment(bin)) else gray
    }

    /** The count a synchronizer holds after sampling a pointer register that may be moving. */
    lemma SampledCount(s: Bits, bin: Bits, gray: Bits, moves: bool, n: nat) returns (isNew: bool)
      requires IsPointer(bin, gray, n)
      requires MixedSample(s, gray, GrayAfter(bin, gray, moves))
      ensures IsSample(s, if isNew && moves then n + 1 else n)
    {
      IncrementIsSuccessor(aw + 1, n);
      SampleIsOldOrNew(s, bin, moves, gray, GrayAfter(bin, gray, moves));
      isNew := s != gray;
    }

    /** Both edges at once: each synchronizer bit independently catches the old or the new Gray bit. */
    method BothEdges(we: bool, din: T, re: bool, wpSample: Bits, rpSample: Bits)
      returns (ghost newWp: bool, ghost newRp: bool)
      requires Valid() && (we ==> !full) && (re ==> !empty)
      requires MixedSample(wpSample, wpGray, GrayAfter(wpBin, wpGray, we))
      requires MixedSample(rpSample, rpGray, GrayAfter(rpBin, rpGray, re))
      modifies this, mem
      ensures Valid() && q == Step(old(q), Cap(), Both(we, din, re, newWp, newRp))
    {
      newWp := SampledCount(wpSample, wpBin, wpGray, we, q.Wp());
      newRp := SampledCount(rpSample, rpBin, rpGray, re, q.rp);
      BothAdvance(q, Cap(), we, din, re, newWp, newRp);
      StepKeepsInv(q, Cap(), Both(we, din, re, newWp, newRp));
      BothHalves(we, din, re, wpSample, rpSample, q.WpAfter(newWp && we), q.RpAfter(newRp && re),
                 Step(q, Cap(), Both(we, din, re, newWp, newRp)));
    }

    method BothHalves(we: bool, din: T, re: bool, wpSample: Bits, rpSample: Bits, ghost wpSeen: nat, ghost rpSeen: nat,
                      ghost next: Queue<T>)
      requires Valid() && (we ==> !full) && (re ==> !empty)
      requires IsSample(wpSample, wpSeen) && IsSample(rpSample, rpSeen)
      requires Inv(next, Cap())
      requires WriterAdvances(q, Cap(), we, din, rpSeen, next) && ReaderAdvances(q, re, wpSeen, next)
      modifies this, mem
      ensures Valid() && q == next
    {
      WriteHalf(we, din, rpSample, rpSeen, next);
      ReadHalf(re, wpSample, wpSeen, next);
      q := next;
    }
  }
}
