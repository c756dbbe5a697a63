/** The loader with 32-bit words and the CRC-32, fed by the sender of scripts/serial_boot.sh. */
module SerialImages {

  import opened Bytes
  import opened Crc32
  import opened SerialLoad
  import opened Boot

  const SERIAL_MAGIC: Word := 0xACF3FA19

  function JoinBytes(b0: Byte, b1: Byte, b2: Byte, b3: Byte): Word {
    (b0 as Word) | ((b1 as Word) << 8) | ((b2 as Word) << 16) | ((b3 as Word) << 24)
  }

  /** Least significant byte first. */
  function SplitWord(w: Word): seq<Byte> {
    [(w & 0xFF) as Byte, ((w >> 8) & 0xFF) as Byte, ((w >> 16) & 0xFF) as Byte, ((w >> 24) & 0xFF) as Byte]
  }

  function Length(w: Word): nat { w as nat }

  const FIRMWARE: Words<Word> :=
    Words(JoinBytes, SplitWord, Length, SERIAL_MAGIC, DDR2_SIZE, Init(), Update, Final)

  /** The first byte counts least. */
  lemma JoinIsLittleEndian(b0: Byte, b1: Byte, b2: Byte, b3: Byte)
    ensures JoinBytes(b0, b1, b2, b3)
         == (b0 as Word) + 0x100 * (b1 as Word) + 0x1_0000 * (b2 as Word) + 0x100_0000 * (b3 as Word)
  {}

  lemma BytesJoin(w: Word)
    ensures JoinBytes((w & 0xFF) as Byte, ((w >> 8) & 0xFF) as Byte,
                      ((w >> 16) & 0xFF) as Byte, ((w >> 24) & 0xFF) as Byte) == w
  {}

  lemma WordRoundTrip(w: Word)
    ensures |SplitWord(w)| == 4
    ensures JoinBytes(SplitWord(w)[0], SplitWord(w)[1], SplitWord(w)[2], SplitWord(w)[3]) == w
  {
    BytesJoin(w);
  }

  lemma FirmwareRoundTrips()
    ensures RoundTrips(FIRMWARE)
  {
    forall w: Word
      ensures |SplitWord(w)| == 4
           && JoinBytes(SplitWord(w)[0], SplitWord(w)[1], SplitWord(w)[2], SplitWord(w)[3]) == w
    {
      WordRoundTrip(w);
    }
  }

  lemma FirmwareChecksum(bs: seq<Byte>)
    ensures FIRMWARE.Checksum(bs) == SerialCrc(MessageBits(bs))
  {
    ChecksumIsSerialCrc(bs);
  }

  /** What the sender writes for one file: the checksum is that of the standard, not of the firmware's table. */
  function Sent(size: Word, payload: seq<Byte>): seq<Byte> {
    Frame(FIRMWARE, size, payload, SerialCrc(MessageBits(payload)))
  }

  /** A file that the sender can announce and that passes the loader's size check. */
  predicate Sendable(size: Word, payload: seq<Byte>) { Length(size) == |payload| <= DDR2_SIZE }

  /**
   * Two files sent back to back boot, with exactly their bytes taken, if and only if the ramfs is no longer than the
   * DRAM from the ramfs address on. A longer one passes the size check and faults when that room is used up.
   */
  lemma SentImagesLoad(input: Stream, p: nat, n: Word, kernel: seq<Byte>, m: Word, ramfs: seq<Byte>)
    requires Sendable(n, kernel) && Sendable(m, ramfs)
    requires Carries(input, p, Sent(n, kernel) + Sent(m, ramfs))
    ensures var room := DDR2_SIZE - RAMFS_OFFSET;
      LoadBoth(FIRMWARE, input, p)
        == if |ramfs| <= room then BootOutcome(Booted, |Sent(n, kernel)| + |Sent(m, ramfs)|, kernel, ramfs)
           else BootOutcome(Trapped, |Sent(n, kernel)| + 9 + room, kernel, ramfs[..room])
  {
    FirmwareRoundTrips();
    FirmwareChecksum(kernel);
    FirmwareChecksum(ramfs);
    FramesLoadInTurn(FIRMWARE, input, p, n, kernel, SerialCrc(MessageBits(kernel)),
                     m, ramfs, SerialCrc(MessageBits(ramfs)));
  }

  /** Files that pass every check and boot, but with the kernel damaged by the ramfs. */
  lemma LongKernelBootsDamaged(input: Stream, p: nat, mem: Memory,
                               n: Word, kernel: seq<Byte>, m: Word, ramfs: seq<Byte>)
    requires Sendable(n, kernel) && Sendable(m, ramfs) && 0 < |ramfs| <= DDR2_SIZE - RAMFS_OFFSET
    requires |kernel| > RAMFS_OFFSET && ramfs[0] != kernel[RAMFS_OFFSET]
    requires Carries(input, p, Sent(n, kernel) + Sent(m, ramfs))
    ensures var o := LoadBoth(FIRMWARE, input, p);
      o.ending == Booted && !HoldsAll(WithBoth(mem, o.kernel, o.ramfs), DDR2_BASE_ADDR, kernel)
  {
    SentImagesLoad(input, p, n, kernel, m, ramfs);
    KernelIsWholeIff(mem, kernel, ramfs);
  }

  /** Files that boot with the copied part of the device tree damaged by the ramfs. */
  lemma LongRamfsBootsWithoutDtb(input: Stream, p: nat, mem: Memory, dtb: seq<Byte>,
                                 n: Word, kernel: seq<Byte>, m: Word, ramfs: seq<Byte>)
    requires Sendable(n, kernel) && Sendable(m, ramfs) && Carries(input, p, Sent(n, kernel) + Sent(m, ramfs))
    requires DTB_ADDR - RAMFS_BASE_ADDR < |ramfs| <= DDR2_SIZE - RAMFS_OFFSET
    requires |dtb| >= 8 && ramfs[DTB_ADDR - RAMFS_BASE_ADDR] != dtb[0]
    ensures var o := LoadBoth(FIRMWARE, input, p);
      o.ending == Booted
      && !HoldsAll(WithBoth(Store(mem, DTB_ADDR, Copied(dtb)), o.kernel, o.ramfs), DTB_ADDR, Copied(dtb))
  {
    SentImagesLoad(input, p, n, kernel, m, ramfs);
    RamfsDamagesDtb(mem, Copied(dtb), kernel, ramfs);
  }

  /**
   * A payload that differs from the one its checksum was made for only inside 32 consecutive bits is never accepted:
   * it is taken whole, written and rejected, or faults for want of room.
   */
  lemma BurstIsRejected(input: Stream, p: nat, addr: nat, size: Word, sent: seq<Byte>, got: seq<Byte>,
                        pre: seq<bool>, x: seq<bool>, y: seq<bool>, post: seq<bool>)
    requires Sendable(size, got)
    requires MessageBits(sent) == pre + x + post && MessageBits(got) == pre + y + post
    requires |x| == |y| <= 32 && x != y
    requires Carries(input, p, Frame(FIRMWARE, size, got, SerialCrc(MessageBits(sent))))
    ensures Load(FIRMWARE, input, p, addr)
         == if |got| <= Room(addr) then Outcome(Rejected, 12 + |got|, got)
            else Outcome(Faulted, 9 + Room(addr), got[..Room(addr)])
  {
    FirmwareRoundTrips();
    FrameLoads(FIRMWARE, input, p, addr, size, got, SerialCrc(MessageBits(sent)));
    FirmwareChecksum(got);
    BurstChangesSerialCrc(pre, x, y, post);
  }

  /** The same in bytes: the change lies inside four consecutive bytes. */
  lemma WindowIsRejected(input: Stream, p: nat, addr: nat, size: Word,
                         pre: seq<Byte>, x: seq<Byte>, y: seq<Byte>, post: seq<Byte>)
    requires Sendable(size, pre + y + post) && |x| == |y| <= 4 && x != y
    requires Carries(input, p, Frame(FIRMWARE, size, pre + y + post, SerialCrc(MessageBits(pre + x + post))))
    ensures var got := pre + y + post;
      Load(FIRMWARE, input, p, addr)
        == if |got| <= Room(addr) then Outcome(Rejected, 12 + |got|, got)
           else Outcome(Faulted, 9 + Room(addr), got[..Room(addr)])
  {
    WindowBits(pre, x, y, post);
    BurstIsRejected(input, p, addr, size, pre + x + post, pre + y + post,
                    MessageBits(pre), MessageBits(x), MessageBits(y), MessageBits(post));
  }

  /** The boot form: a kernel image damaged in this way never boots, and nothing is loaded after it. */
  lemma DamagedKernelFails(input: Stream, p: nat, size: Word, sent: seq<Byte>, got: seq<Byte>,
                           pre: seq<bool>, x: seq<bool>, y: seq<bool>, post: seq<bool>)
    requires Sendable(size, got)
    requires MessageBits(sent) == pre + x + post && MessageBits(got) == pre + y + post
    requires |x| == |y| <= 32 && x != y
    requires Carries(input, p, Frame(FIRMWARE, size, got, SerialCrc(MessageBits(sent))))
    ensures LoadBoth(FIRMWARE, input, p) == BootOutcome(KernelFailed, 12 + |got|, got, [])
  {
    BurstIsRejected(input, p, DDR2_BASE_ADDR, size, sent, got, pre, x, y, post);
    BootEndsIff(FIRMWARE, input, p);
  }

  lemma SentKernelThen(input: Stream, p: nat, n: Word, kernel: seq<Byte>, rest: seq<Byte>) returns (q: nat)
    requires Sendable(n, kernel) && Carries(input, p, Sent(n, kernel) + rest)
    ensures q == p + |Sent(n, kernel)| && Carries(input, q, rest)
    ensures LoadBoth(FIRMWARE, input, p).ending == AfterRamfs(Load(FIRMWARE, input, q, RAMFS_BASE_ADDR).status)
  {
    FirmwareRoundTrips();
    FirmwareChecksum(kernel);
    q := p + |Sent(n, kernel)|;
    SoundKernelThen(FIRMWARE, input, p, n, kernel, SerialCrc(MessageBits(kernel)), rest, q);
  }

  /** Nor does a ramfs image damaged in this way, behind whatever good kernel image. */
  lemma DamagedRamfsFails(input: Stream, p: nat, n: Word, kernel: seq<Byte>, size: Word, sent: seq<Byte>,
                          got: seq<Byte>, pre: seq<bool>, x: seq<bool>, y: seq<bool>, post: seq<bool>)
    requires Sendable(n, kernel) && Sendable(size, got)
    requires MessageBits(sent) == pre + x + post && MessageBits(got) == pre + y + post
    requires |x| == |y| <= 32 && x != y
    requires Carries(input, p, Sent(n, kernel) + Frame(FIRMWARE, size, got, SerialCrc(MessageBits(sent))))
    ensures LoadBoth(FIRMWARE, input, p).ending == if |got| <= DDR2_SIZE - RAMFS_OFFSET then RamfsFailed else Trapped
  {
    var rest := Frame(FIRMWARE, size, got, SerialCrc(MessageBits(sent)));
    var q := SentKernelThen(input, p, n, kernel, rest);
    BurstIsRejected(input, q, RAMFS_BASE_ADDR, size, sent, got, pre, x, y, post);
  }
}
