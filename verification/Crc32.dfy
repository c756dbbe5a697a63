/** The nibble-table CRC-32 of firmware/crc32.c and its bit-serial definition (section 8 of RFC 1952). */
module Crc32 {

  import opened Bytes
  import opened Folds

  type Word = bv32

  const POLY: Word := 0xEDB88320

  const TAB: seq<Word> := [
    0x00000000, 0x1DB71064, 0x3B6E20C8, 0x26D930AC,
    0x76DC4190, 0x6B6B51F4, 0x4DB26158, 0x5005713C,
    0xEDB88320, 0xF00F9344, 0xD6D6A3E8, 0xCB61B38C,
    0x9B64C2B0, 0x86D3D2D4, 0xA00AE278, 0xBDBDF21C]

  /** TAB at an index the code has masked to four bits. */
  function Tab(n: Word): Word {
    match n
    case 0 => TAB[0]
    case 1 => TAB[1]
    case 2 => TAB[2]
    case 3 => TAB[3]
    case 4 => TAB[4]
    case 5 => TAB[5]
    case 6 => TAB[6]
    case 7 => TAB[7]
    case 8 => TAB[8]
    case 9 => TAB[9]
    case 10 => TAB[10]
    case 11 => TAB[11]
    case 12 => TAB[12]
    case 13 => TAB[13]
    case 14 => TAB[14]
    case _ => TAB[15]
  }

  // ----- The code -----

  function Init(): Word { 0xFFFFFFFF }

  function Nibble(crc: Word, n: Word): Word {
    (crc >> 4) ^ Tab((crc ^ n) & 0x0F)
  }

  function Update(crc: Word, b: Byte): Word {
    Nibble(Nibble(crc, b as Word), (b >> 4) as Word)
  }

  function Final(crc: Word): Word { crc ^ 0xFFFFFFFF }

  /** crc32_init, crc32_update on every byte, crc32_final. */
  function Checksum(bs: seq<Byte>): Word { Final(Fold(Update, Init(), bs)) }

  // ----- The bit-serial definition -----

  /** One step of the shift register with reflected polynomial. */
  function Shift(c: Word): Word {
    if c & 1 == 1 then (c >> 1) ^ POLY else c >> 1
  }

  /** A message bit enters at the low end, then the register shifts. */
  function Enter(c: Word, bit: bool): Word { Shift(Mix(c, bit)) }

  function Mix(c: Word, bit: bool): Word { if bit then c ^ 1 else c }

  /** A byte's bits, least significant first. */
  function BitsOf(b: Byte): (r: seq<bool>)
    ensures |r| == 8
  {
    [b & 1 == 1, (b >> 1) & 1 == 1, (b >> 2) & 1 == 1, (b >> 3) & 1 == 1,
     (b >> 4) & 1 == 1, (b >> 5) & 1 == 1, (b >> 6) & 1 == 1, (b >> 7) & 1 == 1]
  }

  function MessageBits(bs: seq<Byte>): seq<bool> { Flatten(BitsOf, bs) }

  /** The register starts with all ones, takes the message bits, and is read out inverted. */
  function SerialCrc(bits: seq<bool>): Word {
    Fold(Enter, 0xFFFFFFFF, bits) ^ 0xFFFFFFFF
  }

  // ----- Two table lookups are eight shifts -----

  function Shift4(c: Word): Word { Shift(Shift(Shift(Shift(c)))) }

  lemma TableEntry(n: Word)
    requires n < 16
    ensures Shift4(n) == Tab(n)
  {}

  lemma HighPartJustMoves(c: Word, n: Word)
    requires n == c & 0x0F
    ensures n < 16 && Shift4(c) == (c >> 4) ^ Shift4(n)
  {}

  lemma LowNibble(c: Word, n: Word)
    ensures (c ^ (n & 0x0F)) >> 4 == c >> 4
    ensures (c ^ (n & 0x0F)) & 0x0F == (c ^ n) & 0x0F
  {}

  lemma TableIsFourShifts(c: Word, n: Word)
    requires n == c & 0x0F
    ensures Shift4(c) == (c >> 4) ^ Tab(n)
  {
    HighPartJustMoves(c, n);
    TableEntry(n);
  }

  lemma LookupIsFourShifts(c: Word, n: Word)
    ensures Nibble(c, n) == Shift4(c ^ (n & 0x0F))
  {
    LowNibble(c, n);
    TableIsFourShifts(c ^ (n & 0x0F), (c ^ n) & 0x0F);
  }

  function Xor(a: Word, b: Word): Word { a ^ b }

  /** A message bit at one of the four low places of the register. */
  function Place(bit: bool, k: nat): Word {
    if !bit then 0 else match k case 0 => 1 case 1 => 2 case 2 => 4 case _ => 8
  }

  lemma XorShifts(a: Word, b: Word, p: Word)
    ensures (a ^ b) >> 1 == (a >> 1) ^ (b >> 1) && (a ^ b) & 1 == (a & 1) ^ (b & 1)
    ensures (a ^ p) ^ (b ^ p) == a ^ b && (a ^ p) ^ b == (a ^ b) ^ p && a ^ (b ^ p) == (a ^ b) ^ p
    ensures a & 1 == 0 || a & 1 == 1
  {}

  lemma ShiftMoves(c: Word, p: Word, q: Word)
    requires q & 1 == 0 && q >> 1 == p
    ensures Xor(Shift(c), p) == Shift(Xor(c, q))
  {
    XorShifts(c, q, POLY);
    XorShifts(c >> 1, p, POLY);
    XorZero(c & 1);
  }

  lemma XorZero(c: Word)
    ensures c ^ 0 == c
  {}

  lemma PlaceMoves(bit: bool, j: nat, k: nat)
    requires k + 1 == j < 4
    ensures Place(bit, j) & 1 == 0 && Place(bit, j) >> 1 == Place(bit, k)
  {}

  lemma MixAdds(c: Word, bit: bool)
    ensures Mix(c, bit) == Xor(c, Place(bit, 0))
  {
    XorZero(c);
  }

  lemma PlacesShift(c: Word, bit: bool, j: nat, k: nat)
    requires k + 1 == j < 4
    ensures Xor(Shift(c), Place(bit, k)) == Shift(Xor(c, Place(bit, j)))
  {
    PlaceMoves(bit, j, k);
    ShiftMoves(c, Place(bit, k), Place(bit, j));
  }

  lemma EnterShiftsPlaces()
    ensures ShiftsPlaces(Enter, Shift, Xor, Place, 4)
  {
    forall c: Word, bit: bool ensures Enter(c, bit) == Shift(Xor(c, Place(bit, 0))) {
      MixAdds(c, bit);
    }
    forall c: Word, bit: bool, j: nat, k: nat | k + 1 == j < 4
      ensures Xor(Shift(c), Place(bit, k)) == Shift(Xor(c, Place(bit, j)))
    {
      PlacesShift(c, bit, j, k);
    }
  }

  predicate IsNibble(n: Word, b: seq<bool>) {
    && |b| == 4
    && (b[0] <==> n & 1 == 1)
    && (b[1] <==> (n >> 1) & 1 == 1)
    && (b[2] <==> (n >> 2) & 1 == 1)
    && (b[3] <==> (n >> 3) & 1 == 1)
  }

  lemma NibblePlaces(n: Word, b: seq<bool>)
    requires IsNibble(n, b)
    ensures Place(b[0], 0) == n & 1 && Place(b[1], 1) == n & 2
    ensures Place(b[2], 2) == n & 4 && Place(b[3], 3) == n & 8
  {}

  lemma SpreadNibble(c: Word, n: Word, b: seq<bool>)
    requires IsNibble(n, b)
    ensures Spread(Xor, Place, 0, c, b) == c ^ (n & 0x0F)
  {
    NibblePlaces(n, b);
    SpreadFour(Xor, Place, c, b);
    XorNibble(c, n, Place(b[0], 0), Place(b[1], 1), Place(b[2], 2), Place(b[3], 3));
  }

  lemma XorNibble(c: Word, n: Word, p0: Word, p1: Word, p2: Word, p3: Word)
    requires p0 == n & 1 && p1 == n & 2 && p2 == n & 4 && p3 == n & 8
    ensures Xor(Xor(Xor(Xor(c, p0), p1), p2), p3) == c ^ (n & 0x0F)
  {}

  lemma NibbleEnters(c: Word, n: Word, b: seq<bool>)
    requires IsNibble(n, b)
    ensures Fold(Enter, c, b) == Iterate(Shift, 4, c ^ (n & 0x0F))
  {
    EnterShiftsPlaces();
    AllAtOnce(Enter, Shift, Xor, Place, 4, 0, c, b);
    SpreadNibble(c, n, b);
  }

  lemma LookupEnters(c: Word, n: Word, b: seq<bool>)
    requires IsNibble(n, b)
    ensures Nibble(c, n) == Fold(Enter, c, b)
  {
    LookupIsFourShifts(c, n);
    NibbleEnters(c, n, b);
    IterateFour(Shift, c ^ (n & 0x0F));
  }

  lemma ByteNibbles(b: Byte)
    ensures IsNibble(b as Word, BitsOf(b)[..4]) && IsNibble((b >> 4) as Word, BitsOf(b)[4..])
  {}

  /** The table update of one byte is the byte's eight bits entering one by one. */
  lemma UpdateIsEightBits(c: Word, b: Byte)
    ensures Update(c, b) == Fold(Enter, c, BitsOf(b))
  {
    ByteNibbles(b);
    LookupEnters(c, b as Word, BitsOf(b)[..4]);
    LookupEnters(Nibble(c, b as Word), (b >> 4) as Word, BitsOf(b)[4..]);
    FoldConcat(Enter, c, BitsOf(b)[..4], BitsOf(b)[4..]);
    assert BitsOf(b) == BitsOf(b)[..4] + BitsOf(b)[4..];
  }

  /** The code computes the CRC-32 of the message's bits, for every message. */
  lemma ChecksumIsSerialCrc(bs: seq<Byte>)
    ensures Checksum(bs) == SerialCrc(MessageBits(bs))
  {
    forall c: Word, b: Byte ensures Update(c, b) == Fold(Enter, c, BitsOf(b)) {
      UpdateIsEightBits(c, b);
    }
    FoldParts(Update, Enter, BitsOf, Init(), bs);
  }

  const CHECK: seq<Byte> := [0x31, 0x32, 0x33, 0x34, 0x35, 0x36, 0x37, 0x38, 0x39]

  /** The register before, between and after these characters. */
  const CHECK_STATES: seq<Word> := [
    0xFFFFFFFF, 0x7C231048, 0xB0ACBB32, 0x77B79C2D, 0x641C1F5C,
    0x340AC5E3, 0xF68D2C9E, 0xAFFC9660, 0x651F2550, 0x340BC6D9]

  lemma CheckStep(k: nat)
    requires k < 9
    ensures Update(CHECK_STATES[k], CHECK[k]) == CHECK_STATES[k + 1]
  {
    if k == 0 {} else if k == 1 {} else if k == 2 {} else if k == 3 {}
    else if k == 4 {} else if k == 5 {} else if k == 6 {} else if k == 7 {} else {}
  }

  lemma {:induction false} FoldPasses(k: nat)
    requires k <= 9
    ensures Fold(Update, CHECK_STATES[k], CHECK[k..]) == CHECK_STATES[9]
    decreases 9 - k
  {
    if k < 9 {
      CheckStep(k);
      assert CHECK[k..][1..] == CHECK[k + 1..];
      FoldPasses(k + 1);
    }
  }

  /** The customary check value of this CRC, that of the characters "123456789". */
  lemma CheckValue()
    ensures Checksum(CHECK) == 0xCBF43926
  {
    FoldPasses(0);
    assert CHECK[0..] == CHECK;
  }

  // ----- Error detection -----

  function Half(c: Word): Word { c >> 1 }

  /** A single one, k places below the top. */
  function Top(k: nat): Word { Iterate(Half, k, 0x8000_0000) }

  /** Two states whose highest differing bit is at most k places below the top. */
  predicate Apart(c: Word, d: Word, k: nat) { c ^ d >= Top(k) }

  lemma {:induction false} TopOnlyFalls(j: nat, k: nat)
    requires j <= k
    ensures Top(j) >= Top(k)
    decreases k
  {
    if j < k { TopOnlyFalls(j, k - 1); }
  }

  lemma TopFour(k: nat)
    ensures Top(k + 4) == Top(k) >> 4
  {
    IterateAdds(Half, 4, k, 0x8000_0000);
    IterateFour(Half, Top(k));
    FourHalves(Top(k));
  }

  lemma FourHalves(c: Word)
    ensures Half(Half(Half(Half(c)))) == c >> 4
  {}

  lemma TopIsPositive(k: nat)
    requires k < 32
    ensures Top(k) > 0
  {
    TopFour(0);
    TopFour(4);
    TopFour(8);
    TopFour(12);
    TopFour(16);
    TopFour(20);
    TopFour(24);
    assert Top(28) == 8;
    assert Top(29) == 4 && Top(30) == 2 && Top(31) == 1;
    TopOnlyFalls(k, 31);
  }

  lemma ShiftIsLinear(a: Word, b: Word)
    ensures Shift(a ^ b) == Shift(a) ^ Shift(b)
  {
    XorShifts(a, b, POLY);
    XorShifts(b, a, POLY);
    XorShifts(a >> 1, b >> 1, POLY);
  }

  lemma HalvesCompare(a: Word, m: Word)
    requires a >= m
    ensures a >> 1 >= m >> 1 && m >> 1 < 0x8000_0000 <= (a >> 1) ^ POLY
  {}

  lemma LowBitAside(c: Word, d: Word)
    ensures c | 1 >= c && (c | 1) >> 1 == c >> 1
    ensures (c ^ d) | 1 == ((c | 1) ^ (d | 1)) | 1
  {}

  /** Equal but for the lowest bit. */
  predicate Near(p: Word, c: Word) { p | 1 == c | 1 }

  lemma FlipIsNear(c: Word)
    ensures Near(c ^ 1, c)
  {}

  lemma MixIsNear(c: Word, bit: bool)
    ensures Near(Mix(c, bit), c)
  {
    if bit { FlipIsNear(c); }
  }

  lemma ShiftLowers(z: Word, m: Word)
    requires z | 1 >= m
    ensures Shift(z) >= m >> 1
  {
    HalvesCompare(z | 1, m);
    LowBitAside(z, 0);
  }

  /** As Apart, but the lowest bit is no help. */
  predicate AlmostApart(p: Word, q: Word, k: nat) { (p ^ q) | 1 >= Top(k) }

  lemma LowBitOnlyAdds(z: Word, w: Word, m: Word)
    requires w | 1 == z | 1 && z >= m
    ensures w | 1 >= m
  {}

  lemma NearStatesStayApart(c: Word, d: Word, p: Word, q: Word, m: Word)
    requires c ^ d >= m && p | 1 == c | 1 && q | 1 == d | 1
    ensures (p ^ q) | 1 >= m
  {
    LowBitAside(c, d);
    LowBitAside(p, q);
    LowBitOnlyAdds(c ^ d, p ^ q, m);
  }

  lemma ShiftsStayApart(p: Word, q: Word, m: Word)
    requires (p ^ q) | 1 >= m
    ensures Shift(p) ^ Shift(q) >= m >> 1
  {
    ShiftIsLinear(p, q);
    ShiftLowers(p ^ q, m);
  }

  lemma ShiftsApart(p: Word, q: Word, k: nat)
    requires AlmostApart(p, q, k)
    ensures Apart(Shift(p), Shift(q), k + 1)
  {
    ShiftsStayApart(p, q, Top(k));
  }

  /** One step lowers the highest difference by at most one place, whatever bits enter. */
  lemma ApartLowers(c: Word, d: Word, k: nat, x: bool, y: bool)
    requires Apart(c, d, k)
    ensures Apart(Enter(c, x), Enter(d, y), k + 1)
  {
    MixIsNear(c, x);
    MixIsNear(d, y);
    ApartThroughMix(c, d, Mix(c, x), Mix(d, y), k);
  }

  lemma ApartThroughMix(c: Word, d: Word, p: Word, q: Word, k: nat)
    requires Apart(c, d, k) && Near(p, c) && Near(q, d)
    ensures Apart(Shift(p), Shift(q), k + 1)
  {
    NearStatesStayApart(c, d, p, q, Top(k));
    ShiftsApart(p, q, k);
  }

  lemma NotApart(c: Word, k: nat)
    requires k < 32
    ensures !Apart(c, c, k)
  {
    TopIsPositive(k);
  }

  lemma DifferentBitsReachTheTop(c: Word, x: bool, y: bool)
    requires x != y
    ensures Apart(Enter(c, x), Enter(c, y), 0)
  {}

  lemma EnterIsInjective(c: Word, d: Word, bit: bool)
    requires Enter(c, bit) == Enter(d, bit)
    ensures c == d
  {}

  /** A difference that has entered cannot leave the register again within 31 more shifts. */
  lemma EnterKeepsApart()
    ensures KeepsApart(Enter, Apart, 32)
  {
    forall c, d, k: nat, x, y | k + 1 < 32 && Apart(c, d, k) ensures Apart(Enter(c, x), Enter(d, y), k + 1) {
      ApartLowers(c, d, k, x, y);
    }
    forall c, x, y | x != y ensures Apart(Enter(c, x), Enter(c, y), 0) {
      DifferentBitsReachTheTop(c, x, y);
    }
    forall c, k: nat | k < 32 ensures !Apart(c, c, k) {
      NotApart(c, k);
    }
  }

  lemma EnterHasInverse()
    ensures Injective(Enter)
  {
    forall c, d, bit | Enter(c, bit) == Enter(d, bit) ensures c == d {
      EnterIsInjective(c, d, bit);
    }
  }

  lemma BurstChangesSerialCrc(pre: seq<bool>, x: seq<bool>, y: seq<bool>, post: seq<bool>)
    requires |x| == |y| <= 32 && x != y
    ensures SerialCrc(pre + x + post) != SerialCrc(pre + y + post)
  {
    EnterKeepsApart();
    EnterHasInverse();
    BurstReachesTheEnd(Enter, Apart, 32, 0xFFFFFFFF, pre, x, y, post);
  }

  /** Messages that differ only inside 32 consecutive bits, wherever these lie, never share a checksum. */
  lemma BurstChangesChecksum(
    a: seq<Byte>, b: seq<Byte>, pre: seq<bool>, x: seq<bool>, y: seq<bool>, post: seq<bool>)
    requires MessageBits(a) == pre + x + post && MessageBits(b) == pre + y + post
    requires |x| == |y| <= 32 && x != y
    ensures Checksum(a) != Checksum(b)
  {
    ChecksumIsSerialCrc(a);
    ChecksumIsSerialCrc(b);
    BurstChangesSerialCrc(pre, x, y, post);
  }

  lemma ByteFromBits(a: Byte, b: Byte)
    requires BitsOf(a) == BitsOf(b)
    ensures a == b
  {
    var s, t := BitsOf(a), BitsOf(b);
    assert s[0] == t[0] && s[1] == t[1] && s[2] == t[2] && s[3] == t[3];
    assert s[4] == t[4] && s[5] == t[5] && s[6] == t[6] && s[7] == t[7];
  }

  lemma {:induction false} MessageBitsLength(bs: seq<Byte>)
    ensures |MessageBits(bs)| == 8 * |bs|
  {
    if |bs| > 0 { MessageBitsLength(bs[1..]); }
  }

  lemma {:induction false} MessageFromBits(a: seq<Byte>, b: seq<Byte>)
    requires |a| == |b| && MessageBits(a) == MessageBits(b)
    ensures a == b
  {
    if |a| > 0 {
      var s, t := BitsOf(a[0]), BitsOf(b[0]);
      assert s == MessageBits(a)[..8] && t == MessageBits(b)[..8];
      ByteFromBits(a[0], b[0]);
      assert MessageBits(a[1..]) == MessageBits(a)[8..] && MessageBits(b[1..]) == MessageBits(b)[8..];
      MessageFromBits(a[1..], b[1..]);
      assert a == [a[0]] + a[1..] && b == [b[0]] + b[1..];
    }
  }

  /** Four consecutive bytes are at most 32 consecutive bits. */
  lemma WindowBits(pre: seq<Byte>, x: seq<Byte>, y: seq<Byte>, post: seq<Byte>)
    requires |x| == |y| <= 4 && x != y
    ensures MessageBits(pre + x + post) == MessageBits(pre) + MessageBits(x) + MessageBits(post)
    ensures MessageBits(pre + y + post) == MessageBits(pre) + MessageBits(y) + MessageBits(post)
    ensures |MessageBits(x)| == |MessageBits(y)| <= 32 && MessageBits(x) != MessageBits(y)
  {
    FlattenConcat(BitsOf, pre + x, post);
    FlattenConcat(BitsOf, pre + y, post);
    FlattenConcat(BitsOf, pre, x);
    FlattenConcat(BitsOf, pre, y);
    MessageBitsLength(x);
    MessageBitsLength(y);
    if MessageBits(x) == MessageBits(y) {
      MessageFromBits(x, y);
    }
  }

  /** In bytes: a change inside four consecutive bytes changes the checksum. */
  lemma FourByteWindow(pre: seq<Byte>, x: seq<Byte>, y: seq<Byte>, post: seq<Byte>)
    requires |x| == |y| <= 4 && x != y
    ensures Checksum(pre + x + post) != Checksum(pre + y + post)
  {
    WindowBits(pre, x, y, post);
    BurstChangesChecksum(pre + x + post, pre + y + post,
                         MessageBits(pre), MessageBits(x), MessageBits(y), MessageBits(post));
  }
}
