/**
 The serial image loader of firmware/serial.c. The memory map ends with the DRAM; a store behind it is an access
 fault, and since the firmware sets no trap vector the load never comes back from one.
 */
module SerialLoad {

  import opened Bytes
  import opened Folds

  /**
   * The word arithmetic the loader uses, as a parameter: the framing does not depend on it.
   * Module SerialImages supplies the 32-bit words and the CRC-32.
   */
  datatype Words<!W> = Words(
    join: (Byte, Byte, Byte, Byte) -> W,
    split: W -> seq<Byte>,
    length: W -> nat,
    magic: W,
    limit: nat,
    crcInit: W,
    crcUpdate: (W, Byte) -> W,
    crcFinal: W -> W)
  {
    function Join(b0: Byte, b1: Byte, b2: Byte, b3: Byte): W { join(b0, b1, b2, b3) }
    function Length(w: W): nat { length(w) }
    function Update(crc: W, b: Byte): W { crcUpdate(crc, b) }
    function Final(crc: W): W { crcFinal(crc) }
    function Running(bs: seq<Byte>): W { Fold(crcUpdate, crcInit, bs) }
    function Checksum(bs: seq<Byte>): W { Final(Running(bs)) }
  }

  // ----- What a stream says -----

  type Stream = int -> Byte

  function ByteAt(input: Stream, p: nat): Byte { input(p) }

  function WordAt<W>(ops: Words<W>, input: Stream, p: nat): W {
    ops.Join(ByteAt(input, p), ByteAt(input, p + 1), ByteAt(input, p + 2), ByteAt(input, p + 3))
  }

  function BytesAt(input: Stream, p: nat, n: nat): (bs: seq<Byte>)
    ensures |bs| == n
  {
    if n == 0 then [] else BytesAt(input, p, n - 1) + [ByteAt(input, p + n - 1)]
  }

  const DDR2_BASE_ADDR: nat := 0x8000_0000
  const DDR2_SIZE: nat := 128 * 1024 * 1024
  const DRAM_END: nat := DDR2_BASE_ADDR + DDR2_SIZE

  /** How many bytes may be stored from addr on before the memory map ends. */
  function Room(addr: nat): nat { if addr < DRAM_END then DRAM_END - addr else 0 }

  // serial_load returns 0, returns -1, or does not return
  datatype Status = Accepted | Rejected | Faulted

  /** The result of one load: how it ends, bytes taken from the stream, bytes put into memory. */
  datatype Outcome = Outcome(status: Status, consumed: nat, written: seq<Byte>)

  function Load<W(==)>(ops: Words<W>, input: Stream, p: nat, addr: nat): Outcome {
    AfterHeader(ops, input, p + 8, addr, WordAt(ops, input, p), WordAt(ops, input, p + 4))
  }

  function AfterHeader<W(==)>(ops: Words<W>, input: Stream, p: nat, addr: nat, magic: W, size: W): Outcome {
    var n := ops.Length(size);
    if magic != ops.magic || n > ops.limit then
      Outcome(Rejected, 8, [])
    else
      OfPayload(ops, input, p, addr, n)
  }

  /** The byte that has no room is taken from the stream before its store faults. */
  function OfPayload<W(==)>(ops: Words<W>, input: Stream, p: nat, addr: nat, n: nat): Outcome {
    if n > Room(addr) then
      Outcome(Faulted, 9 + Room(addr), BytesAt(input, p, Room(addr)))
    else
      AfterPayload(ops, BytesAt(input, p, n), WordAt(ops, input, p + n))
  }

  function AfterPayload<W(==)>(ops: Words<W>, payload: seq<Byte>, received: W): Outcome {
    Outcome(if ops.Checksum(payload) == received then Accepted else Rejected, 12 + |payload|, payload)
  }

  lemma {:induction false} BytesAreLocal(s: Stream, t: Stream, p: nat, n: nat)
    requires forall i: nat :: p <= i < p + n ==> ByteAt(s, i) == ByteAt(t, i)
    ensures BytesAt(s, p, n) == BytesAt(t, p, n)
    decreases n
  {
    if n > 0 { BytesAreLocal(s, t, p, n - 1); }
  }

  /** A load depends on no byte but those it takes. */
  lemma LoadIsLocal<W>(ops: Words<W>, s: Stream, t: Stream, p: nat, addr: nat)
    requires forall i: nat :: p <= i < p + Load(ops, s, p, addr).consumed ==> ByteAt(s, i) == ByteAt(t, i)
    ensures Load(ops, t, p, addr) == Load(ops, s, p, addr)
  {
    assert WordAt(ops, s, p) == WordAt(ops, t, p) && WordAt(ops, s, p + 4) == WordAt(ops, t, p + 4);
    if Load(ops, s, p, addr).consumed > 8 {
      PayloadIsLocal(ops, s, t, p + 8, addr, ops.Length(WordAt(ops, s, p + 4)));
    }
  }

  lemma PayloadIsLocal<W>(ops: Words<W>, s: Stream, t: Stream, p: nat, addr: nat, n: nat)
    requires forall i: nat :: p <= i < p + OfPayload(ops, s, p, addr, n).consumed - 8 ==> ByteAt(s, i) == ByteAt(t, i)
    ensures OfPayload(ops, t, p, addr, n) == OfPayload(ops, s, p, addr, n)
  {
    if n > Room(addr) {
      BytesAreLocal(s, t, p, Room(addr));
    } else {
      BytesAreLocal(s, t, p, n);
      assert WordAt(ops, s, p + n) == WordAt(ops, t, p + n);
    }
  }

  type Memory = map<nat, Byte>

  /** Memory after the bytes have been written one after the other from addr on. */
  function Store(mem: Memory, addr: nat, bs: seq<Byte>): Memory
    decreases |bs|
  {
    if |bs| == 0 then mem
    else
      var last := |bs| - 1;
      Store(mem, addr, bs[..last])[addr + last := bs[last]]
  }

  /** What one more byte adds to the payload, to memory and to the checksum. */
  lemma NextByte<W>(ops: Words<W>, input: Stream, p: nat, mem: Memory, addr: nat, payload: seq<Byte>, b: Byte)
    requires payload == BytesAt(input, p, |payload|) && b == ByteAt(input, p + |payload|)
    ensures payload + [b] == BytesAt(input, p, |payload| + 1)
    ensures Store(mem, addr, payload + [b]) == Store(mem, addr, payload)[addr + |payload| := b]
    ensures ops.Running(payload + [b]) == ops.Update(ops.Running(payload), b)
  {
    assert (payload + [b])[..|payload|] == payload;
    FoldConcat(ops.crcUpdate, ops.crcInit, payload, [b]);
  }

  /** Every byte is at its address, and nothing else changes. */
  lemma {:induction false} StoreWrites(mem: Memory, addr: nat, bs: seq<Byte>, a: nat)
    ensures addr <= a < addr + |bs| ==> a in Store(mem, addr, bs) && Store(mem, addr, bs)[a] == bs[a - addr]
    ensures !(addr <= a < addr + |bs|) ==>
      (a in Store(mem, addr, bs) <==> a in mem) && (a in mem ==> Store(mem, addr, bs)[a] == mem[a])
    decreases |bs|
  {
    if |bs| > 0 { StoreWrites(mem, addr, bs[..|bs| - 1], a); }
  }

  /** A load that takes only the header leaves memory alone; any other has written all that it took and had room for. */
  lemma RejectedHeaderStoresNothing<W>(ops: Words<W>, input: Stream, p: nat, addr: nat, mem: Memory)
    ensures var o := Load(ops, input, p, addr);
      && (o.consumed == 8 ==> o.status == Rejected && Store(mem, addr, o.written) == mem)
      && (o.consumed != 8 ==> o.consumed == |o.written| + (if o.status == Faulted then 9 else 12)
                              && o.written == BytesAt(input, p + 8, |o.written|))
  {}

  /**
   The size check does not keep the stores inside the DRAM: a load faults exactly when an accepted header announces
   more bytes than there is room for from the load address on.
   */
  lemma FaultsIff<W>(ops: Words<W>, input: Stream, p: nat, addr: nat)
    ensures var o, size := Load(ops, input, p, addr), ops.Length(WordAt(ops, input, p + 4));
      && (o.status == Faulted <==> WordAt(ops, input, p) == ops.magic && Room(addr) < size <= ops.limit)
      && |o.written| <= Room(addr)
  {}

  predicate HeaderOk<W(==)>(ops: Words<W>, input: Stream, p: nat) {
    WordAt(ops, input, p) == ops.magic && Announced(ops, input, p) <= ops.limit
  }

  /** The size the header at p announces. */
  function Announced<W>(ops: Words<W>, input: Stream, p: nat): nat { ops.Length(WordAt(ops, input, p + 4)) }

  /** The word behind the payload is the payload's checksum. */
  predicate SumOk<W(==)>(ops: Words<W>, input: Stream, p: nat) {
    var n := Announced(ops, input, p);
    ops.Checksum(BytesAt(input, p + 8, n)) == WordAt(ops, input, p + 8 + n)
  }

  /** From the bytes of the stream alone: which loads are accepted, rejected and end in a fault, and what they take. */
  lemma LoadEndsIff<W>(ops: Words<W>, input: Stream, p: nat, addr: nat)
    ensures var o, ok := Load(ops, input, p, addr), HeaderOk(ops, input, p);
      var fits := Announced(ops, input, p) <= Room(addr);
      && (o.status == Accepted <==> ok && fits && SumOk(ops, input, p))
      && (o.status == Rejected <==> !ok || (fits && !SumOk(ops, input, p)))
      && (o.consumed == 8 <==> !ok)
      && (ok && fits ==> o.consumed == 12 + Announced(ops, input, p))
      && (ok && fits ==> o.written == BytesAt(input, p + 8, Announced(ops, input, p)))
      && (ok && !fits ==> o.consumed == 9 + Room(addr) && o.written == BytesAt(input, p + 8, Room(addr)))
  {}

  class Loader<!W(==)> {
    const ops: Words<W>
    /** The bytes the UART delivers, in order; a read waits for the next one. */
    const input: Stream
    var pos: nat
    var mem: Memory

    constructor (ops: Words<W>, input: Stream, mem: Memory)
      ensures this.ops == ops && this.input == input && this.mem == mem && pos == 0
    {
      this.ops, this.input, this.mem, pos := ops, input, mem, 0;
    }

    method Read8() returns (b: Byte)
      modifies this`pos
      ensures b == ByteAt(input, old(pos)) && pos == old(pos) + 1
    {
      b := ByteAt(input, pos);
      pos := pos + 1;
    }

    method Read32() returns (w: W)
      modifies this`pos
      ensures w == WordAt(ops, input, old(pos)) && pos == old(pos) + 4
    {
      var b0 := Read8();
      var b1 := Read8();
      var b2 := Read8();
      var b3 := Read8();
      w := ops.Join(b0, b1, b2, b3);
    }

    /** ok tells whether every byte found room. */
    method ReadPayload(addr: nat, len: nat) returns (ok: bool, crc: W, ghost payload: seq<Byte>)
      modifies this
      ensures ok <==> len <= Room(addr)
      ensures ok ==> pos == old(pos) + len && payload == BytesAt(input, old(pos), len) && crc == ops.Checksum(payload)
      ensures !ok ==> pos == old(pos) + Room(addr) + 1 && payload == BytesAt(input, old(pos), Room(addr))
      ensures mem == Store(old(mem), addr, payload)
    {
      payload := [];
      crc := ops.crcInit;
      ghost var p, m := pos, mem;
      for i := 0 to len
        invariant pos == p + i && |payload| == i <= Room(addr)
        invariant payload == BytesAt(input, p, i)
        invariant crc == ops.Running(payload)
        invariant mem == Store(m, addr, payload)
      {
        var b := Read8();
        if addr + i >= DRAM_END {
          assert i == Room(addr);
          return false, crc, payload;
        }
        NextByte(ops, input, p, m, addr, payload, b);
        mem := mem[addr + i := b];
        crc := ops.Update(crc, b);
        payload := payload + [b];
      }
      return true, ops.Final(crc), payload;
    }

    /** The two fields of struct serial_header. */
    method ReadHeader() returns (magic: W, size: W)
      modifies this`pos
      ensures magic == WordAt(ops, input, old(pos)) && size == WordAt(ops, input, old(pos) + 4)
      ensures pos == old(pos) + 8
    {
      magic := Read32();
      size := Read32();
    }

    /** serial_load from an accepted header on. */
    method LoadPayload(addr: nat, len: nat) returns (status: Status, ghost o: Outcome)
      modifies this
      ensures o == OfPayload(ops, input, old(pos), addr, len)
      ensures status == o.status
      ensures pos == old(pos) + o.consumed - 8
      ensures mem == Store(old(mem), addr, o.written)
    {
      o := OfPayload(ops, input, pos, addr, len);
      var ok, computed, payload := ReadPayload(addr, len);
      if !ok {
        return Faulted, o;
      }
      var received := Read32();
      assert o == AfterPayload(ops, payload, received);
      if computed != received {
        return Rejected, o;
      }
      return Accepted, o;
    }

    /** serial_load from its checks of the header on. */
    method LoadBody(addr: nat, magic: W, size: W) returns (status: Status, ghost o: Outcome)
      modifies this
      ensures o == AfterHeader(ops, input, old(pos), addr, magic, size)
      ensures status == o.status
      ensures pos == old(pos) + o.consumed - 8
      ensures mem == Store(old(mem), addr, o.written)
    {
      o := Outcome(Rejected, 8, []);
      if magic != ops.magic {
        return Rejected, o;
      }
      var len := ops.Length(size);
      if len > ops.limit {
        return Rejected, o;
      }
      status, o := LoadPayload(addr, len);
    }

    /** Memory is written before the checksum is compared. */
    method SerialLoad(addr: nat) returns (status: Status, ghost o: Outcome)
      modifies this
      ensures o == Load(ops, input, old(pos), addr)
      ensures status == o.status
      ensures pos == old(pos) + o.consumed
      ensures mem == Store(old(mem), addr, o.written)
    {
      var magic, size := ReadHeader();
      status, o := LoadBody(addr, magic, size);
    }
  }

  // ----- What a sender writes (scripts/serial_boot.sh) -----

  function Frame<W>(ops: Words<W>, size: W, payload: seq<Byte>, crc: W): seq<Byte> {
    ops.split(ops.magic) + ops.split(size) + payload + ops.split(crc)
  }

  predicate Carries(input: Stream, p: nat, bs: seq<Byte>) {
    forall i :: 0 <= i < |bs| ==> ByteAt(input, p + i) == bs[i]
  }

  ghost predicate RoundTrips<W(!new)>(ops: Words<W>) {
    forall w :: |ops.split(w)| == 4
             && ops.Join(ops.split(w)[0], ops.split(w)[1], ops.split(w)[2], ops.split(w)[3]) == w
  }

  lemma CarriesParts(input: Stream, p: nat, a: seq<Byte>, b: seq<Byte>)
    requires Carries(input, p, a + b)
    ensures Carries(input, p, a) && Carries(input, p + |a|, b)
  {
    forall i | 0 <= i < |b| ensures ByteAt(input, p + |a| + i) == b[i] {
      assert (a + b)[|a| + i] == b[i];
    }
    forall i | 0 <= i < |a| ensures ByteAt(input, p + i) == a[i] {
      assert (a + b)[i] == a[i];
    }
  }

  lemma {:induction false} CarriedBytes(input: Stream, p: nat, bs: seq<Byte>, n: nat)
    requires Carries(input, p, bs) && n <= |bs|
    ensures BytesAt(input, p, n) == bs[..n]
    decreases n
  {
    if n > 0 {
      CarriedBytes(input, p, bs, n - 1);
      assert bs[..n] == bs[..n - 1] + [bs[n - 1]];
    }
  }

  lemma CarriesWord<W(!new)>(ops: Words<W>, input: Stream, p: nat, w: W)
    requires RoundTrips(ops) && Carries(input, p, ops.split(w))
    ensures WordAt(ops, input, p) == w
  {
    var s := ops.split(w);
    assert ByteAt(input, p + 0) == s[0] && ByteAt(input, p + 1) == s[1];
    assert ByteAt(input, p + 2) == s[2] && ByteAt(input, p + 3) == s[3];
  }

  /** What becomes of a frame: accepted exactly when its checksum is the payload's, if the payload finds room. */
  function FrameOutcome<W(==)>(ops: Words<W>, addr: nat, payload: seq<Byte>, crc: W): Outcome {
    if |payload| <= Room(addr) then AfterPayload(ops, payload, crc)
    else Outcome(Faulted, 9 + Room(addr), payload[..Room(addr)])
  }

  lemma FrameLoads<W(!new)>(ops: Words<W>, input: Stream, p: nat, addr: nat, size: W, payload: seq<Byte>, crc: W)
    requires RoundTrips(ops) && ops.Length(size) == |payload| <= ops.limit
    requires Carries(input, p, Frame(ops, size, payload, crc))
    ensures Load(ops, input, p, addr) == FrameOutcome(ops, addr, payload, crc)
  {
    var m, z := ops.split(ops.magic), ops.split(size);
    CarriesParts(input, p, m + z + payload, ops.split(crc));
    CarriesParts(input, p, m + z, payload);
    CarriesParts(input, p, m, z);
    CarriesWord(ops, input, p, ops.magic);
    CarriesWord(ops, input, p + 4, size);
    CarriesWord(ops, input, p + 8 + |payload|, crc);
    CarriedBytes(input, p + 8, payload, if |payload| <= Room(addr) then |payload| else Room(addr));
    assert payload[..|payload|] == payload;
  }
}
