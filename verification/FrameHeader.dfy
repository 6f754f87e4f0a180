/**
  The frame header of drivers/TBPipe/TBinParse.cpp. The 64-bit word is kept as its four 16-bit lanes, lowest
  first: the two halves of the payload size, the command and the check word. The code's shifts, masks and ors
  only move these lanes; exclusive or works on each lane by itself.
 */
module FrameHeader {
  import opened Bytes
  import opened Bits

  const LANE := 0x1_0000

  type uint16 = x: nat | x < 0x1_0000

  datatype Header = Header(sizeLow: uint16, sizeHigh: uint16, packetId: uint16, crc: uint16)

  lemma LaneIsPow2()
    ensures Pow2(16) == LANE
  {
    assert Pow2(4) == 16 && Pow2(8) == 256 && Pow2(12) == 4096;
  }

  function Xor16(a: uint16, b: uint16): uint16 {
    LaneIsPow2();
    XorBound(a, b, 16);
    Xor(a, b)
  }

  /** 0xFFFF ^ (data_size & 0xFFFF) ^ ((data_size >> 16) & 0xFFFF) ^ packet_id. */
  function Check(sizeLow: uint16, sizeHigh: uint16, packetId: uint16): uint16 {
    Xor16(Xor16(Xor16(0xFFFF, sizeLow), sizeHigh), packetId)
  }

  /** What TBinFillHeader builds. */
  function FillHeader(packetId: uint16, dataSize: nat): Header
    requires dataSize < 0x1_0000_0000
  {
    Header(dataSize % LANE, dataSize / LANE, packetId, Check(dataSize % LANE, dataSize / LANE, packetId))
  }

  function SizeOf(header: Header): (r: nat)
    ensures r < 0x1_0000_0000
  {
    header.sizeLow + LANE * header.sizeHigh
  }

  /** The test of ParseHeader. */
  predicate HeaderOk(header: Header) {
    Check(header.sizeLow, header.sizeHigh, header.packetId) == header.crc
  }

  /** A header is accepted exactly when it is the one built for the command and size read from it. */
  lemma AcceptedIsFilled(header: Header)
    ensures HeaderOk(header) <==> header == FillHeader(header.packetId, SizeOf(header))
  {
    var size := SizeOf(header);
    assert size % LANE == header.sizeLow && size / LANE == header.sizeHigh;
  }

  lemma FilledIsAccepted(packetId: uint16, dataSize: nat)
    requires dataSize < 0x1_0000_0000
    ensures var header := FillHeader(packetId, dataSize);
            HeaderOk(header) && header.packetId == packetId && SizeOf(header) == dataSize
  {
  }

  // --- errors -----------------------------------------------------------------------------------------------

  /** The word with the bits of error flipped. */
  function Corrupt(header: Header, error: Header): Header {
    Header(Xor16(header.sizeLow, error.sizeLow), Xor16(header.sizeHigh, error.sizeHigh),
           Xor16(header.packetId, error.packetId), Xor16(header.crc, error.crc))
  }

  /** error << (16 * lane + shift), for an error of at most 16 bits. */
  function Burst(error: uint16, lane: nat, shift: nat): Header
    requires lane <= 3 && shift < 16 && 16 * lane + shift <= 48
  {
    var moved := error * Pow2(shift);
    MovedIsTwoLanes(error, shift);
    var stays, spills := moved % LANE, moved / LANE;
    if lane == 0 then Header(stays, spills, 0, 0)
    else if lane == 1 then Header(0, stays, spills, 0)
    else if lane == 2 then Header(0, 0, stays, spills)
    else Header(0, 0, 0, stays)
  }

  lemma MovedIsTwoLanes(error: uint16, shift: nat)
    requires shift < 16
    ensures error * Pow2(shift) / LANE < LANE
  {
    LaneIsPow2();
    PowGrows(shift, 16);
    ProductBelow(error, Pow2(shift));
  }

  lemma ProductBelow(a: uint16, b: nat)
    requires b <= LANE
    ensures a * b < LANE * LANE
  {
    assert a * b <= a * LANE;
  }

  /** The 64-bit word. */
  function WordOf(header: Header): nat {
    header.sizeLow + LANE * (header.sizeHigh + LANE * (header.packetId + LANE * header.crc))
  }

  lemma {:induction false} PowLane(n: nat)
    ensures Pow2(16 + n) == LANE * Pow2(n)
    decreases n
  {
    if n == 0 {
      LaneIsPow2();
    } else {
      PowLane(n - 1);
    }
  }

  /** A burst is the error shifted left by 16 * lane + shift in the 64-bit word. */
  lemma BurstIsShifted(error: uint16, lane: nat, shift: nat)
    requires lane <= 3 && shift < 16 && 16 * lane + shift <= 48
    ensures WordOf(Burst(error, lane, shift)) == error * Pow2(16 * lane + shift)
  {
    var p, moved := Pow2(shift), error * Pow2(shift);
    MovedIsTwoLanes(error, shift);
    PowLanes(shift);
    hide Pow2;
    Factors(error, p);
    BurstWord(error, lane, shift, moved);
  }

  lemma BurstWord(error: uint16, lane: nat, shift: nat, moved: nat)
    requires lane <= 3 && shift < 16 && 16 * lane + shift <= 48 && moved == error * Pow2(shift)
    ensures WordOf(Burst(error, lane, shift))
         == if lane == 0 then moved else if lane == 1 then LANE * moved
            else if lane == 2 then LANE * LANE * moved else LANE * LANE * LANE * moved
  {
    MovedIsTwoLanes(error, shift);
    LanesOf(moved);
    if lane == 3 {
      assert shift == 0 && Pow2(0) == 1;
    }
  }

  lemma PowLanes(n: nat)
    ensures Pow2(16 + n) == LANE * Pow2(n)
    ensures Pow2(32 + n) == LANE * LANE * Pow2(n)
    ensures Pow2(48 + n) == LANE * LANE * LANE * Pow2(n)
  {
    PowLane(n);
    PowLane(16 + n);
    PowLane(32 + n);
  }

  lemma Factors(error: nat, p: nat)
    ensures error * (LANE * p) == LANE * (error * p)
    ensures error * (LANE * LANE * p) == LANE * LANE * (error * p)
    ensures error * (LANE * LANE * LANE * p) == LANE * LANE * LANE * (error * p)
  {
    var q := error * p;
    Factor(error, LANE, p);
    Factor(error, LANE * LANE, p);
    Factor(error, LANE * LANE * LANE, p);
  }

  lemma LanesOf(x: nat)
    ensures x == x % LANE + LANE * (x / LANE)
  {
  }

  lemma Factor(a: nat, b: nat, c: nat)
    ensures a * (b * c) == b * (a * c)
  {
  }

  /** The exclusive or of the four lanes. */
  function Syndrome(header: Header): uint16 {
    Xor16(Xor16(Xor16(header.sizeLow, header.sizeHigh), header.packetId), header.crc)
  }

  lemma OkIsSyndrome(header: Header)
    ensures HeaderOk(header) <==> Syndrome(header) == 0xFFFF
  {
    var Header(a, b, c, d) := header;
    XorAssociative(0xFFFF, a, b);
    XorAssociative(0xFFFF, Xor(a, b), c);
    var abc := Xor(Xor(a, b), c);
    assert Check(a, b, c) == Xor(0xFFFF, abc);
    XorSame(Xor(0xFFFF, abc), d);
    XorAssociative(0xFFFF, abc, d);
    XorSame(0xFFFF, Xor(abc, d));
  }

  lemma Interchange(a: nat, b: nat, c: nat, d: nat)
    ensures Xor(Xor(a, b), Xor(c, d)) == Xor(Xor(a, c), Xor(b, d))
  {
    XorAssociative(a, b, Xor(c, d));
    XorAssociative(b, c, d);
    XorSymmetric(b, c);
    XorAssociative(c, b, d);
    XorAssociative(a, c, Xor(b, d));
  }

  lemma SyndromeOfError(header: Header, error: Header)
    ensures Syndrome(Corrupt(header, error)) == Xor(Syndrome(header), Syndrome(error))
  {
    var Header(h0, h1, h2, h3) := header;
    var Header(e0, e1, e2, e3) := error;
    Interchange(h0, e0, h1, e1);
    Interchange(Xor(h0, h1), Xor(e0, e1), h2, e2);
    Interchange(Xor(Xor(h0, h1), h2), Xor(Xor(e0, e1), e2), h3, e3);
  }

  /** Sixteen bits moved by less than a lane: what falls into the next lane differs from what stays. */
  lemma {:induction false} SpilledDiffers(error: nat, shift: nat, lane: nat)
    requires 0 < error < LANE
    ensures error * Pow2(shift) != (LANE + 1) * lane
    decreases shift
  {
    if shift > 0 {
      var p := error * Pow2(shift - 1);
      assert error * Pow2(shift) == 2 * p by { Double(error, Pow2(shift - 1)); }
      SpilledDiffers(error, shift - 1, lane / 2);
    }
  }

  lemma Double(x: nat, p: nat)
    ensures x * (2 * p) == 2 * (x * p)
  {
  }

  lemma BurstHasSyndrome(error: uint16, lane: nat, shift: nat)
    requires 0 < error && lane <= 3 && shift < 16 && 16 * lane + shift <= 48
    ensures Syndrome(Burst(error, lane, shift)) != 0
  {
    var moved := error * Pow2(shift);
    MovedIsTwoLanes(error, shift);
    SpilledDiffers(error, shift, moved / LANE);
    assert moved % LANE != moved / LANE;
    XorSame(moved % LANE, moved / LANE);
  }

  /** Exactly which errors go unnoticed: those whose four lanes cancel out. */
  lemma UnnoticedExactly(header: Header, error: Header)
    requires HeaderOk(header)
    ensures HeaderOk(Corrupt(header, error)) <==> Syndrome(error) == 0
  {
    hide HeaderOk, Syndrome;
    OkIsSyndrome(header);
    OkIsSyndrome(Corrupt(header, error));
    SyndromeOfError(header, error);
    XorAssociative(0xFFFF, 0xFFFF, Syndrome(error));
    XorSame(0xFFFF, 0xFFFF);
    XorSame(Xor(0xFFFF, Syndrome(error)), 0xFFFF);
    XorSymmetric(0xFFFF, Syndrome(error));
    XorAssociative(Syndrome(error), 0xFFFF, 0xFFFF);
    XorZero(Syndrome(error));
  }

  lemma XorZero(a: nat)
    ensures Xor(a, 0) == a && Xor(0, a) == a
  {
  }

  /** An error confined to 16 consecutive bits, wherever they are, never goes unnoticed. */
  lemma BurstIsRejected(header: Header, error: uint16, lane: nat, shift: nat)
    requires HeaderOk(header) && 0 < error && lane <= 3 && shift < 16 && 16 * lane + shift <= 48
    ensures !HeaderOk(Corrupt(header, Burst(error, lane, shift)))
  {
    UnnoticedExactly(header, Burst(error, lane, shift));
    BurstHasSyndrome(error, lane, shift);
  }

  // --- memory -----------------------------------------------------------------------------------------------

  /** The bytes of a header in memory, low byte first, and the header that memcpy finds in 8 bytes. */
  function HeaderBytes(header: Header): (r: seq<byte>)
    ensures |r| == 8
  {
    LittleEndian(header.sizeLow, 2) + LittleEndian(header.sizeHigh, 2)
    + LittleEndian(header.packetId, 2) + LittleEndian(header.crc, 2)
  }

  function LaneIn(low: byte, high: byte): uint16 {
    low as nat + 256 * high as nat
  }

  function HeaderIn(bytes: seq<byte>): Header
    requires |bytes| == 8
  {
    Header(LaneIn(bytes[0], bytes[1]), LaneIn(bytes[2], bytes[3]),
           LaneIn(bytes[4], bytes[5]), LaneIn(bytes[6], bytes[7]))
  }

  lemma LaneSurvivesMemory(lane: uint16)
    ensures LittleEndian(lane, 2) == [(lane % 256) as byte, (lane / 256) as byte]
    ensures LaneIn(LittleEndian(lane, 2)[0], LittleEndian(lane, 2)[1]) == lane
  {
  }

  lemma HeaderSurvivesMemory(header: Header)
    ensures HeaderIn(HeaderBytes(header)) == header
  {
    LaneSurvivesMemory(header.sizeLow);
    LaneSurvivesMemory(header.sizeHigh);
    LaneSurvivesMemory(header.packetId);
    LaneSurvivesMemory(header.crc);
  }

  // --- the 64-bit word ------------------------------------------------------------------------------------------

  /** The word that is built: the size in the lowest 32 bits, the command from bit 32, the check from bit 48. */
  lemma FilledWord(packetId: uint16, dataSize: nat)
    requires dataSize < 0x1_0000_0000
    ensures WordOf(FillHeader(packetId, dataSize))
         == dataSize + packetId * 0x1_0000_0000 + Check(dataSize % LANE, dataSize / LANE, packetId) * 0x1_0000_0000_0000
  {
  }

  /** What is read from a word: its 32 bits from 0, and 16 bits each from 32 and 48. */
  lemma FieldsOfWord(header: Header)
    ensures SizeOf(header) == WordOf(header) % 0x1_0000_0000
    ensures header.packetId == WordOf(header) / 0x1_0000_0000 % 0x1_0000
    ensures header.crc == WordOf(header) / 0x1_0000_0000_0000
  {
  }

  /** Each bit of the check word is set exactly if an even number of the three bits it covers is. */
  lemma CheckBits(sizeLow: uint16, sizeHigh: uint16, packetId: uint16, i: nat)
    requires i < 16
    ensures BitOf(Check(sizeLow, sizeHigh, packetId), i) <==>
            (BitOf(sizeLow, i) == (BitOf(sizeHigh, i) == !BitOf(packetId, i)))
  {
    LaneIsPow2();
    AllOnes(16, i);
    hide BitOf, Pow2, Xor;
    XorBitwise(0xFFFF, sizeLow, i);
    XorBitwise(Xor(0xFFFF, sizeLow), sizeHigh, i);
    XorBitwise(Xor(Xor(0xFFFF, sizeLow), sizeHigh), packetId, i);
  }

  lemma LittleEndianStep(x: nat, n: nat)
    requires n > 0
    ensures LittleEndian(x, n) == [(x % 256) as byte] + LittleEndian(x / 256, n - 1)
  {
  }

  lemma LittleEndianLane(lane: uint16, rest: nat, n: nat)
    ensures LittleEndian(lane + LANE * rest, n + 2) == LittleEndian(lane, 2) + LittleEndian(rest, n)
  {
    var x := lane + LANE * rest;
    LittleEndianStep(x, n + 2);
    LittleEndianStep(x / 256, n + 1);
    LaneSurvivesMemory(lane);
    hide LittleEndian;
    BytesOfLane(lane, rest);
  }

  lemma BytesOfLane(lane: uint16, rest: nat)
    ensures var x := lane + LANE * rest;
            x % 256 == lane % 256 && x / 256 % 256 == lane / 256 && x / 256 / 256 == rest
  {
    var x := lane + LANE * rest;
    assert x / 256 == lane / 256 + 256 * rest;
  }

  /** A header lies in memory as its 64-bit word does, low byte first. */
  lemma HeaderInMemory(header: Header)
    ensures HeaderBytes(header) == LittleEndian(WordOf(header), 8)
    ensures WordOf(HeaderIn(LittleEndian(WordOf(header), 8))) == WordOf(header)
  {
    hide LittleEndian, HeaderIn;
    var Header(a, b, c, d) := header;
    HeaderSurvivesMemory(header);
    LittleEndianLane(a, b + LANE * (c + LANE * d), 6);
    LittleEndianLane(b, c + LANE * d, 4);
    LittleEndianLane(c, d, 2);
  }

  lemma HelloHeader()
    ensures HeaderBytes(FillHeader(1, 5)) == [5, 0, 0, 0, 1, 0, 0xFB, 0xFF]
  {
    HelloCheck();
    hide Check;
    LaneSurvivesMemory(5);
    LaneSurvivesMemory(0);
    LaneSurvivesMemory(1);
    LaneSurvivesMemory(0xFFFB);
  }

  lemma HelloCheck()
    ensures Check(5, 0, 1) == 0xFFFB
  {
    XorZero(0x3FFF);
    XorZero(0x1FFF);
    XorZero(0x7FFD);
    assert Xor(0x7FFF, 2) == 2 * Xor(0x3FFF, 1) + 1;
    assert Xor(0x3FFF, 1) == 2 * Xor(0x1FFF, 0);
    assert Xor(0xFFFF, 5) == 2 * Xor(0x7FFF, 2) == 0xFFFA;
    XorZero(0xFFFA);
    assert Xor(0xFFFA, 1) == 2 * Xor(0x7FFD, 0) + 1;
  }
}
