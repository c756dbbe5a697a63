/** start_firmware of firmware/start.c: the device tree is copied, then kernel and ramfs are loaded. */
module Boot {

  import opened Bytes
  import opened SerialLoad

  const RAMFS_BASE_ADDR: nat := 0x8600_0000
  const RAMFS_OFFSET: nat := RAMFS_BASE_ADDR - DDR2_BASE_ADDR
  const DTB_ADDR: nat := DDR2_BASE_ADDR + 0x0700_0000

  // Trapped: a store behind the DRAM, from which nothing comes back
  datatype Ending = Booted | KernelFailed | RamfsFailed | Trapped

  datatype BootOutcome = BootOutcome(ending: Ending, consumed: nat, kernel: seq<Byte>, ramfs: seq<Byte>)

  function AfterKernel(status: Status): Ending
    requires !status.Accepted?
  {
    if status.Faulted? then Trapped else KernelFailed
  }

  function AfterRamfs(status: Status): Ending {
    match status
    case Accepted => Booted
    case Rejected => RamfsFailed
    case Faulted => Trapped
  }

  /** The second load is tried only after a good first one. */
  function LoadBoth<W(==)>(ops: Words<W>, input: Stream, p: nat): BootOutcome {
    var first := Load(ops, input, p, DDR2_BASE_ADDR);
    if !first.status.Accepted? then
      BootOutcome(AfterKernel(first.status), first.consumed, first.written, [])
    else
      var second := Load(ops, input, p + first.consumed, RAMFS_BASE_ADDR);
      BootOutcome(AfterRamfs(second.status), first.consumed + second.consumed, first.written, second.written)
  }

  /** The ramfs is put over whatever the kernel has written. */
  function WithBoth(mem: Memory, kernel: seq<Byte>, ramfs: seq<Byte>): Memory {
    Store(Store(mem, DDR2_BASE_ADDR, kernel), RAMFS_BASE_ADDR, ramfs)
  }

  lemma KernelFails<W>(ops: Words<W>, input: Stream, p: nat, first: Outcome)
    requires Load(ops, input, p, DDR2_BASE_ADDR) == first && !first.status.Accepted?
    ensures LoadBoth(ops, input, p) == BootOutcome(AfterKernel(first.status), first.consumed, first.written, [])
  {}

  lemma LoadsInTurn<W>(ops: Words<W>, input: Stream, p: nat, first: Outcome, second: Outcome)
    requires Load(ops, input, p, DDR2_BASE_ADDR) == first && first.status.Accepted?
    requires Load(ops, input, p + first.consumed, RAMFS_BASE_ADDR) == second
    ensures LoadBoth(ops, input, p)
         == BootOutcome(AfterRamfs(second.status), first.consumed + second.consumed, first.written, second.written)
  {}

  /** How a boot ends, by how its two loads end. */
  lemma BootEndsIff<W>(ops: Words<W>, input: Stream, p: nat)
    ensures var o, first := LoadBoth(ops, input, p), Load(ops, input, p, DDR2_BASE_ADDR);
      var second := Load(ops, input, p + first.consumed, RAMFS_BASE_ADDR);
      var good := first.status == Accepted;
      && (o.ending == Booted <==> good && second.status == Accepted)
      && (o.ending == RamfsFailed <==> good && second.status == Rejected)
      && (o.ending == KernelFailed <==> first.status == Rejected)
      && (o.ending == Trapped <==> first.status == Faulted || (good && second.status == Faulted))
      && o.kernel == first.written
      && (good ==> o.ramfs == second.written && o.consumed == first.consumed + second.consumed)
      && (!good ==> o.ramfs == [] && o.consumed == first.consumed)
  {}

  /** A frame at p that addr has room for, with the right magic, a size within the limit and the right checksum. */
  predicate GoodFrame<W(==)>(ops: Words<W>, input: Stream, p: nat, addr: nat) {
    HeaderOk(ops, input, p) && Announced(ops, input, p) <= Room(addr) && SumOk(ops, input, p)
  }

  /** From the bytes of the stream alone: it boots exactly when two good frames follow one another. */
  lemma BootsIff<W>(ops: Words<W>, input: Stream, p: nat)
    ensures LoadBoth(ops, input, p).ending == Booted
       <==> && GoodFrame(ops, input, p, DDR2_BASE_ADDR)
            && GoodFrame(ops, input, p + 12 + Announced(ops, input, p), RAMFS_BASE_ADDR)
  {
    BootEndsIff(ops, input, p);
    LoadEndsIff(ops, input, p, DDR2_BASE_ADDR);
    LoadEndsIff(ops, input, p + 12 + Announced(ops, input, p), RAMFS_BASE_ADDR);
  }

  ghost predicate EndsAs(o: BootOutcome, ending: Ending, p: nat, q: nat, before: Memory, after: Memory) {
    ending == o.ending && q == p + o.consumed && after == WithBoth(before, o.kernel, o.ramfs)
  }

  /** Each failure panics. */
  method LoadImages<W(==)>(loader: Loader<W>) returns (ending: Ending)
    modifies loader
    ensures EndsAs(LoadBoth(loader.ops, loader.input, old(loader.pos)), ending,
                   old(loader.pos), loader.pos, old(loader.mem), loader.mem)
  {
    ghost var p := loader.pos;
    var status, first := loader.SerialLoad(DDR2_BASE_ADDR);
    if status != Accepted {
      KernelFails(loader.ops, loader.input, p, first);
      return AfterKernel(status);
    }
    ghost var second;
    status, second := loader.SerialLoad(RAMFS_BASE_ADDR);
    LoadsInTurn(loader.ops, loader.input, p, first, second);
    return AfterRamfs(status);
  }

  // ----- The device tree -----

  /** The length is a difference of pointers to eight-byte words, and is then used as a number of bytes. */
  function Copied(dtb: seq<Byte>): seq<Byte> { dtb[..|dtb| / 8] }

  method CopyDtb<W>(loader: Loader<W>, dtb: seq<Byte>)
    modifies loader`mem
    ensures loader.mem == Store(old(loader.mem), DTB_ADDR, Copied(dtb))
  {
    var len := |dtb| / 8;
    for i := 0 to len
      invariant loader.mem == Store(old(loader.mem), DTB_ADDR, dtb[..i])
    {
      assert dtb[..i + 1][..i] == dtb[..i];
      loader.mem := loader.mem[DTB_ADDR + i := dtb[i]];
    }
  }

  method StartFirmware<W(==)>(loader: Loader<W>, dtb: seq<Byte>) returns (ending: Ending)
    modifies loader
    ensures EndsAs(LoadBoth(loader.ops, loader.input, old(loader.pos)), ending, old(loader.pos), loader.pos,
                   Store(old(loader.mem), DTB_ADDR, Copied(dtb)), loader.mem)
  {
    CopyDtb(loader, dtb);
    ending := LoadImages(loader);
  }

  predicate Holds(mem: Memory, a: nat, b: Byte) { a in mem && mem[a] == b }

  ghost predicate HoldsAll(mem: Memory, addr: nat, bs: seq<Byte>) {
    forall i :: 0 <= i < |bs| ==> Holds(mem, addr + i, bs[i])
  }

  /** The copy is whole exactly when memory already held the other seven eighths. */
  lemma DtbIsCopiedIff(mem: Memory, dtb: seq<Byte>)
    ensures HoldsAll(Store(mem, DTB_ADDR, Copied(dtb)), DTB_ADDR, dtb)
       <==> forall i :: |dtb| / 8 <= i < |dtb| ==> Holds(mem, DTB_ADDR + i, dtb[i])
  {
    forall i | 0 <= i < |dtb|
      ensures Holds(Store(mem, DTB_ADDR, Copied(dtb)), DTB_ADDR + i, dtb[i])
         <==> (|dtb| / 8 <= i ==> Holds(mem, DTB_ADDR + i, dtb[i]))
    {
      StoreWrites(mem, DTB_ADDR, Copied(dtb), DTB_ADDR + i);
    }
  }

  // ----- What is in memory in the end -----

  /** The last written byte counts: the ramfs over the kernel over what was there before. */
  lemma BothImagesInMemory(mem: Memory, kernel: seq<Byte>, ramfs: seq<Byte>, a: nat, b: Byte)
    ensures Holds(WithBoth(mem, kernel, ramfs), a, b) <==>
      if RAMFS_BASE_ADDR <= a < RAMFS_BASE_ADDR + |ramfs| then ramfs[a - RAMFS_BASE_ADDR] == b
      else if DDR2_BASE_ADDR <= a < DDR2_BASE_ADDR + |kernel| then kernel[a - DDR2_BASE_ADDR] == b
      else Holds(mem, a, b)
  {
    StoreWrites(mem, DDR2_BASE_ADDR, kernel, a);
    StoreWrites(Store(mem, DDR2_BASE_ADDR, kernel), RAMFS_BASE_ADDR, ramfs, a);
  }

  /**
   * Only the size of each image is checked, not that the two fit side by side: the kernel is whole
   * after booting exactly when the ramfs repeats whatever part of it lies above the ramfs address.
   */
  lemma KernelIsWholeIff(mem: Memory, kernel: seq<Byte>, ramfs: seq<Byte>)
    ensures HoldsAll(WithBoth(mem, kernel, ramfs), DDR2_BASE_ADDR, kernel)
       <==> forall i :: RAMFS_OFFSET <= i < RAMFS_OFFSET + |ramfs| && i < |kernel| ==>
              ramfs[i - RAMFS_OFFSET] == kernel[i]
  {
    forall i | 0 <= i < |kernel|
      ensures Holds(WithBoth(mem, kernel, ramfs), DDR2_BASE_ADDR + i, kernel[i])
         <==> (RAMFS_OFFSET <= i < RAMFS_OFFSET + |ramfs| ==> ramfs[i - RAMFS_OFFSET] == kernel[i])
    {
      BothImagesInMemory(mem, kernel, ramfs, DDR2_BASE_ADDR + i, kernel[i]);
    }
  }

  predicate Written(a: nat, kernel: seq<Byte>, ramfs: seq<Byte>) {
    DDR2_BASE_ADDR <= a < DDR2_BASE_ADDR + |kernel| || RAMFS_BASE_ADDR <= a < RAMFS_BASE_ADDR + |ramfs|
  }

  /** The two loads write no byte of the device tree exactly when both images end below it. */
  lemma ImagesMissDtbIff(kernel: seq<Byte>, ramfs: seq<Byte>, n: nat)
    requires n > 0
    ensures (forall a :: DTB_ADDR <= a < DTB_ADDR + n ==> !Written(a, kernel, ramfs))
       <==> |kernel| <= DTB_ADDR - DDR2_BASE_ADDR && |ramfs| <= DTB_ADDR - RAMFS_BASE_ADDR
  {
    assert Written(DTB_ADDR, kernel, ramfs) <==>
      |kernel| > DTB_ADDR - DDR2_BASE_ADDR || |ramfs| > DTB_ADDR - RAMFS_BASE_ADDR;
  }

  /** All addresses written are in the DRAM exactly when each image finds room between its address and the end. */
  lemma StoresStayInDramIff(kernel: seq<Byte>, ramfs: seq<Byte>)
    ensures (forall a :: a >= DRAM_END ==> !Written(a, kernel, ramfs))
       <==> |kernel| <= DDR2_SIZE && |ramfs| <= DDR2_SIZE - RAMFS_OFFSET
  {
    assert Written(DRAM_END, kernel, ramfs) <==> |kernel| > DDR2_SIZE || |ramfs| > DDR2_SIZE - RAMFS_OFFSET;
  }

  /** What has been copied of the device tree survives exactly when the images repeat it where they cover it. */
  lemma DtbSurvivesIff(mem: Memory, dtb: seq<Byte>, kernel: seq<Byte>, ramfs: seq<Byte>)
    ensures HoldsAll(WithBoth(Store(mem, DTB_ADDR, dtb), kernel, ramfs), DTB_ADDR, dtb)
       <==> forall i :: 0 <= i < |dtb| ==>
              if DTB_ADDR + i < RAMFS_BASE_ADDR + |ramfs| then ramfs[DTB_ADDR + i - RAMFS_BASE_ADDR] == dtb[i]
              else if DTB_ADDR + i < DDR2_BASE_ADDR + |kernel| then kernel[DTB_ADDR + i - DDR2_BASE_ADDR] == dtb[i]
              else true
  {
    forall i | 0 <= i < |dtb|
      ensures Holds(Store(mem, DTB_ADDR, dtb), DTB_ADDR + i, dtb[i])
      ensures Holds(WithBoth(Store(mem, DTB_ADDR, dtb), kernel, ramfs), DTB_ADDR + i, dtb[i]) <==>
              if DTB_ADDR + i < RAMFS_BASE_ADDR + |ramfs| then ramfs[DTB_ADDR + i - RAMFS_BASE_ADDR] == dtb[i]
              else if DTB_ADDR + i < DDR2_BASE_ADDR + |kernel| then kernel[DTB_ADDR + i - DDR2_BASE_ADDR] == dtb[i]
              else true
    {
      StoreWrites(mem, DTB_ADDR, dtb, DTB_ADDR + i);
      BothImagesInMemory(Store(mem, DTB_ADDR, dtb), kernel, ramfs, DTB_ADDR + i, dtb[i]);
    }
  }

  lemma RamfsDamagesDtb(mem: Memory, dtb: seq<Byte>, kernel: seq<Byte>, ramfs: seq<Byte>)
    requires |dtb| > 0 && |ramfs| > DTB_ADDR - RAMFS_BASE_ADDR && ramfs[DTB_ADDR - RAMFS_BASE_ADDR] != dtb[0]
    ensures !HoldsAll(WithBoth(Store(mem, DTB_ADDR, dtb), kernel, ramfs), DTB_ADDR, dtb)
  {
    BothImagesInMemory(Store(mem, DTB_ADDR, dtb), kernel, ramfs, DTB_ADDR + 0, dtb[0]);
  }

  // ----- Two frames back to back -----

  /** A frame sound in length and checksum. */
  ghost predicate Sound<W>(ops: Words<W>, size: W, payload: seq<Byte>, crc: W) {
    ops.Length(size) == |payload| <= ops.limit && ops.Checksum(payload) == crc
  }

  lemma SoundFrameLoads<W(!new)>(
    ops: Words<W>, input: Stream, p: nat, addr: nat, n: W, payload: seq<Byte>, c: W)
    requires RoundTrips(ops) && Sound(ops, n, payload, c) && Carries(input, p, Frame(ops, n, payload, c))
    ensures Load(ops, input, p, addr)
         == if |payload| <= Room(addr) then Outcome(Accepted, |Frame(ops, n, payload, c)|, payload)
            else Outcome(Faulted, 9 + Room(addr), payload[..Room(addr)])
  {
    FrameLoads(ops, input, p, addr, n, payload, c);
  }

  /** Behind a sound kernel frame the ramfs load decides. */
  lemma SoundKernelThen<W(!new)>(ops: Words<W>, input: Stream, p: nat, n: W, kernel: seq<Byte>, c: W, rest: seq<Byte>,
                                 q: nat)
    requires RoundTrips(ops) && ops.limit <= DDR2_SIZE && Sound(ops, n, kernel, c)
    requires Carries(input, p, Frame(ops, n, kernel, c) + rest)
    requires q == p + |Frame(ops, n, kernel, c)|
    ensures Carries(input, q, rest)
    ensures LoadBoth(ops, input, p).ending == AfterRamfs(Load(ops, input, q, RAMFS_BASE_ADDR).status)
  {
    CarriesParts(input, p, Frame(ops, n, kernel, c), rest);
    SoundFrameLoads(ops, input, p, DDR2_BASE_ADDR, n, kernel, c);
    LoadsInTurn(ops, input, p, Outcome(Accepted, q - p, kernel), Load(ops, input, q, RAMFS_BASE_ADDR));
  }

  /** Two sound frames boot exactly when the ramfs finds room between its address and the end of the DRAM. */
  lemma FramesLoadInTurn<W(!new)>(ops: Words<W>, input: Stream, p: nat,
                                  n: W, kernel: seq<Byte>, c: W, m: W, ramfs: seq<Byte>, d: W)
    requires RoundTrips(ops) && ops.limit <= DDR2_SIZE && Sound(ops, n, kernel, c) && Sound(ops, m, ramfs, d)
    requires Carries(input, p, Frame(ops, n, kernel, c) + Frame(ops, m, ramfs, d))
    ensures var first, room := |Frame(ops, n, kernel, c)|, DDR2_SIZE - RAMFS_OFFSET;
      LoadBoth(ops, input, p)
        == if |ramfs| <= room then BootOutcome(Booted, first + |Frame(ops, m, ramfs, d)|, kernel, ramfs)
           else BootOutcome(Trapped, first + 9 + room, kernel, ramfs[..room])
  {
    var a, b := Frame(ops, n, kernel, c), Frame(ops, m, ramfs, d);
    CarriesParts(input, p, a, b);
    SoundFrameLoads(ops, input, p, DDR2_BASE_ADDR, n, kernel, c);
    SoundFrameLoads(ops, input, p + |a|, RAMFS_BASE_ADDR, m, ramfs, d);
    LoadsInTurn(ops, input, p, Outcome(Accepted, |a|, kernel), Load(ops, input, p + |a|, RAMFS_BASE_ADDR));
  }
}
