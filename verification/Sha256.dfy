/**
  sdk/lib/drivers/sha256.c: the 64-byte blocks that the driver feeds to the SHA-256 hardware. The compression
  itself is hardware; fifo is every byte written to its data register so far.
 */
module Sha256 {
  import opened Bits
  import opened Bytes

  const BLOCK := 64
  const TWO32 := 0x1_0000_0000
  const TWO64 := 0x1_0000_0000_0000_0000

  type uint64 = x: nat | x < TWO64
  type uint32 = x: nat | x < TWO32

  function Zeros(n: nat): (r: seq<byte>)
    ensures |r| == n
  {
    seq(n, _ => 0)
  }

  /** The n lowest bytes of x, high byte first. */
  function BigEndian(x: nat, n: nat): (r: seq<byte>)
    ensures |r| == n
  {
    if n == 0 then [] else BigEndian(x / 256, n - 1) + [(x % 256) as byte]
  }

  // --- the padded message of FIPS 180-4, section 5.1.1 --------------------------------------------------------

  /**
    Is p the padded message of m? A bit 1, then the least k of zero bits with l + 1 + k = 448 modulo 512, then l
    in 64 bits, where l is the length of m in bits. (The bit 1 and seven of the zero bits make the byte 0x80.)
   */
  ghost predicate IsPadded(m: seq<byte>, p: seq<byte>) {
    exists zeros: nat :: Fills(8 * |m|, zeros) && p == Padding(m, zeros)
  }

  function Padding(m: seq<byte>, zeros: nat): (p: seq<byte>)
    ensures |p| == |m| + 9 + zeros
  {
    m + [0x80] + Zeros(zeros) + BigEndian(8 * |m|, 8)
  }

  predicate Fills(l: nat, zeros: nat) {
    (l + 1 + (7 + 8 * zeros)) % 512 == 448 && 7 + 8 * zeros < 512
  }

  lemma FillsOnce(l: nat, zeros: nat, zeros': nat)
    requires Fills(l, zeros) && Fills(l, zeros')
    ensures zeros == zeros'
  {
  }

  /** The padding is unique: the standard leaves no choice. */
  lemma PaddedIsUnique(m: seq<byte>, p: seq<byte>, q: seq<byte>)
    requires IsPadded(m, p) && IsPadded(m, q)
    ensures p == q
  {
    hide Fills, Padding;
    var zeros: nat :| Fills(8 * |m|, zeros) && p == Padding(m, zeros);
    var zeros': nat :| Fills(8 * |m|, zeros') && q == Padding(m, zeros');
    FillsOnce(8 * |m|, zeros, zeros');
  }

  /** The padded message of the text "abc", the example of the standard. */
  lemma AbcIsPadded()
    ensures IsPadded([97, 98, 99], [97, 98, 99, 0x80] + Zeros(52) + [0, 0, 0, 0, 0, 0, 0, 24])
  {
    var m: seq<byte> := [97, 98, 99];
    assert Fills(8 * |m|, 52);
    BigEndianByte(24);
    hide BigEndian, Fills;
    assert m + [0x80] == [97, 98, 99, 0x80];
    assert [97, 98, 99, 0x80] + Zeros(52) + [0, 0, 0, 0, 0, 0, 0, 24] == Padding(m, 52);
  }

  lemma BigEndianByte(x: nat)
    requires x < 256
    ensures BigEndian(x, 8) == [0, 0, 0, 0, 0, 0, 0, x as byte]
  {
    assert BigEndian(0, 3) == [0, 0, 0];
    assert BigEndian(0, 5) == [0, 0, 0, 0, 0];
    assert BigEndian(0, 7) == [0, 0, 0, 0, 0, 0, 0];
  }

  // --- byteswap64 ---------------------------------------------------------------------------------------------

  /** x << 8 | x >> 24, and x >> 8 | x << 24, of a 32-bit word. */
  function RotateLeft8(x: uint32): uint32 {
    x % 0x100_0000 * 256 + x / 0x100_0000
  }

  function RotateRight8(x: uint32): uint32 {
    x / 256 + x % 256 * 0x100_0000
  }

  function ByteAt(x: nat, i: nat): nat {
    if i == 0 then x % 256 else ByteAt(x / 256, i - 1)
  }

  /** x & 0x00ff00ff, and x & 0xff00ff00. */
  function EvenBytes(x: uint32): (r: uint32)
    ensures r <= 0x00ff_00ff
  {
    x % 256 + x / 0x1_0000 % 256 * 0x1_0000
  }

  function OddBytes(x: uint32): (r: uint32)
    ensures r <= 0xff00_ff00
  {
    x / 256 % 256 * 256 + x / 0x100_0000 * 0x100_0000
  }

  /** BYTESWAP: the or of two words without a common bit is their sum. */
  function ByteSwap(x: uint32): uint32 {
    OddBytes(RotateRight8(x)) + EvenBytes(RotateLeft8(x))
  }

  function ByteSwap64(x: uint64): uint64 {
    ByteSwap(x % TWO32) * TWO32 + ByteSwap(x / TWO32)
  }

  function Word(b0: nat, b1: nat, b2: nat, b3: nat): nat {
    b0 + 256 * b1 + 0x1_0000 * b2 + 0x100_0000 * b3
  }

  lemma WordParts(b0: nat, b1: nat, b2: nat, b3: nat)
    requires b0 < 256 && b1 < 256 && b2 < 256 && b3 < 256
    ensures var x := Word(b0, b1, b2, b3);
            && x % 256 == b0 && x / 256 == Word(b1, b2, b3, 0)
            && x / 0x1_0000 == Word(b2, b3, 0, 0) && x / 0x100_0000 == b3
            && x % 0x100_0000 == Word(b0, b1, b2, 0)
            && x < TWO32
  {
  }

  lemma Rotations(b0: nat, b1: nat, b2: nat, b3: nat)
    requires b0 < 256 && b1 < 256 && b2 < 256 && b3 < 256
    ensures Word(b0, b1, b2, b3) < TWO32
    ensures RotateRight8(Word(b0, b1, b2, b3)) == Word(b1, b2, b3, b0)
    ensures RotateLeft8(Word(b0, b1, b2, b3)) == Word(b3, b0, b1, b2)
  {
    WordParts(b0, b1, b2, b3);
  }

  lemma OddMask(b0: nat, b1: nat, b2: nat, b3: nat)
    requires b0 < 256 && b1 < 256 && b2 < 256 && b3 < 256
    ensures Word(b0, b1, b2, b3) < TWO32 && OddBytes(Word(b0, b1, b2, b3)) == b1 * 256 + b3 * 0x100_0000
  {
    hide Word;
    WordParts(b0, b1, b2, b3);
    WordParts(b1, b2, b3, 0);
  }

  lemma EvenMask(b0: nat, b1: nat, b2: nat, b3: nat)
    requires b0 < 256 && b1 < 256 && b2 < 256 && b3 < 256
    ensures Word(b0, b1, b2, b3) < TWO32 && EvenBytes(Word(b0, b1, b2, b3)) == b0 + b2 * 0x1_0000
  {
    hide Word, EvenBytes;
    WordParts(b0, b1, b2, b3);
    WordParts(b2, b3, 0, 0);
    EvenFrom(Word(b0, b1, b2, b3), b0, b2);
  }

  lemma EvenFrom(x: uint32, low: nat, high: nat)
    requires x % 256 == low && x / 0x1_0000 % 256 == high
    ensures EvenBytes(x) == low + high * 0x1_0000
  {
  }

  lemma SwapsBytes(b0: nat, b1: nat, b2: nat, b3: nat)
    requires b0 < 256 && b1 < 256 && b2 < 256 && b3 < 256
    ensures Word(b0, b1, b2, b3) < TWO32 && ByteSwap(Word(b0, b1, b2, b3)) == Word(b3, b2, b1, b0)
  {
    hide RotateRight8, RotateLeft8, OddBytes, EvenBytes;
    Rotations(b0, b1, b2, b3);
    OddMask(b1, b2, b3, b0);
    EvenMask(b3, b0, b1, b2);
  }

  /** One byte off the low end. */
  lemma Step(x: nat, digit: nat, rest: nat, n: nat)
    requires x % 256 == digit && x / 256 == rest
    ensures LittleEndian(x, n + 1) == [digit as byte] + LittleEndian(rest, n)
    ensures BigEndian(x, n + 1) == BigEndian(rest, n) + [digit as byte]
  {
  }

  /** The m low bytes of low, with high above them. */
  function Join(low: nat, high: nat, m: nat): nat {
    if m == 0 then high else low % 256 + 256 * Join(low / 256, high, m - 1)
  }

  lemma {:induction false} EndianJoin(low: nat, high: nat, m: nat, n: nat)
    ensures LittleEndian(Join(low, high, m), m + n) == LittleEndian(low, m) + LittleEndian(high, n)
    ensures BigEndian(Join(low, high, m), m + n) == BigEndian(high, n) + BigEndian(low, m)
    decreases m
  {
    hide LittleEndian, BigEndian, Join;
    NoBytes(low);
    JoinDigits(low, high, m);
    if m == 0 {
      assert [] + LittleEndian(high, n) == LittleEndian(high, n);
    } else {
      EndianJoin(low / 256, high, m - 1, n);
      Step(low, low % 256, low / 256, m - 1);
      Step(Join(low, high, m), low % 256, Join(low / 256, high, m - 1), m - 1 + n);
    }
  }

  lemma JoinDigits(low: nat, high: nat, m: nat)
    ensures m == 0 ==> Join(low, high, m) == high
    ensures m > 0 ==> Join(low, high, m) % 256 == low % 256 && Join(low, high, m) / 256 == Join(low / 256, high, m - 1)
  {
  }

  lemma JoinWord(low: uint32, high: nat)
    ensures Join(low, high, 4) == low + TWO32 * high
  {
    var q := low / 256;
    var r := q / 256;
    assert Join(r / 256, high, 1) == r / 256 + 256 * high;
    assert Join(r, high, 2) == r + 0x1_0000 * high;
    assert Join(q, high, 3) == q + 0x100_0000 * high;
  }

  lemma EndianPair(low: uint32, high: nat)
    ensures LittleEndian(low + TWO32 * high, 8) == LittleEndian(low, 4) + LittleEndian(high, 4)
    ensures BigEndian(low + TWO32 * high, 8) == BigEndian(high, 4) + BigEndian(low, 4)
  {
    hide Join, LittleEndian, BigEndian;
    JoinWord(low, high);
    EndianJoin(low, high, 4, 4);
  }

  lemma EndianWord(b0: nat, b1: nat, b2: nat, b3: nat)
    requires b0 < 256 && b1 < 256 && b2 < 256 && b3 < 256
    ensures LittleEndian(Word(b0, b1, b2, b3), 4) == [b0 as byte, b1 as byte, b2 as byte, b3 as byte]
    ensures BigEndian(Word(b0, b1, b2, b3), 4) == [b3 as byte, b2 as byte, b1 as byte, b0 as byte]
  {
    hide LittleEndian, BigEndian, Word;
    WordParts(b0, b1, b2, b3);
    WordParts(b1, b2, b3, 0);
    WordParts(b2, b3, 0, 0);
    WordParts(b3, 0, 0, 0);
    NoBytes(Word(0, 0, 0, 0));
    Step(Word(b3, 0, 0, 0), b3, Word(0, 0, 0, 0), 0);
    Step(Word(b2, b3, 0, 0), b2, Word(b3, 0, 0, 0), 1);
    Step(Word(b1, b2, b3, 0), b1, Word(b2, b3, 0, 0), 2);
    Step(Word(b0, b1, b2, b3), b0, Word(b1, b2, b3, 0), 3);
  }

  lemma NoBytes(x: nat)
    ensures LittleEndian(x, 0) == [] && BigEndian(x, 0) == []
  {
  }

  /** Every 32-bit number is a word of four bytes. */
  lemma BytesOf(x: uint32) returns (b0: nat, b1: nat, b2: nat, b3: nat)
    ensures b0 < 256 && b1 < 256 && b2 < 256 && b3 < 256 && x == Word(b0, b1, b2, b3)
  {
    var q := x / 256;
    var r := q / 256;
    b0, b1, b2, b3 := x % 256, q % 256, r % 256, r / 256;
    assert x == b0 + 256 * q && q == b1 + 256 * r && r == b2 + 256 * b3;
  }

  lemma SwappedWord(x: uint32)
    ensures LittleEndian(ByteSwap(x), 4) == BigEndian(x, 4)
  {
    hide ByteSwap, Word;
    var b0, b1, b2, b3 := BytesOf(x);
    SwapsBytes(b0, b1, b2, b3);
    EndianWord(b0, b1, b2, b3);
    EndianWord(b3, b2, b1, b0);
  }

  lemma SwappedPair(low: uint32, high: uint32)
    ensures LittleEndian(ByteSwap(high) + TWO32 * ByteSwap(low), 8) == BigEndian(low + TWO32 * high, 8)
  {
    hide ByteSwap, LittleEndian, BigEndian;
    SwappedWord(low);
    SwappedWord(high);
    EndianPair(ByteSwap(high), ByteSwap(low));
    EndianPair(low, high);
  }

  /** A swapped 64-bit number lies in little-endian memory with its high byte first. */
  lemma SwappedInMemory(x: uint64)
    ensures LittleEndian(ByteSwap64(x), 8) == BigEndian(x, 8)
  {
    hide ByteSwap, LittleEndian, BigEndian;
    var low, high := x % TWO32, x / TWO32;
    assert x == low + TWO32 * high;
    SwappedPair(low, high);
  }

  // --- the context ------------------------------------------------------------------------------------------

  /** The block count that sha256_init writes: size_t arithmetic, cut to the 16 bits of sha_data_cnt. */
  function BlockCount(inputLen: uint64): nat {
    (inputLen + BLOCK + 8) % TWO64 / BLOCK % TWO32 % 0x1_0000
  }

  /** bytes_to_pad. */
  function PadLength(bufferLen: nat): nat
    requires bufferLen < BLOCK
  {
    if 120 - bufferLen > 64 then 56 - bufferLen else 120 - bufferLen
  }

  /** The padding array: 0x80 and zeros. */
  function PadBytes(n: nat): (r: seq<byte>)
    requires n <= BLOCK
    ensures |r| == n
  {
    if n == 0 then [] else [0x80] + Zeros(n - 1)
  }

  lemma PadFills(contents: nat, bufferLen: nat)
    requires contents % BLOCK == bufferLen
    ensures (contents + PadLength(bufferLen) + 8) % BLOCK == 0
  {
  }

  lemma WholeBlocks(fifo: nat, bufferLen: nat)
    requires fifo % BLOCK == 0 && bufferLen < BLOCK
    ensures (fifo + bufferLen) % BLOCK == bufferLen
  {
  }

  lemma CountBits(total: uint64, length: nat, n: nat)
    requires total == 8 * length % TWO64
    ensures (total + n * 8) % TWO64 == 8 * (length + n) % TWO64
  {
  }

  class Context {
    const buffer: array<byte>
    var totalLen: uint64
    var bufferLen: nat
    var dataCount: nat
    var fifo: seq<byte>

    /** Everything given to update since init. */
    ghost function Contents(): seq<byte>
      reads this, buffer
      requires bufferLen <= buffer.Length
    {
      fifo + buffer[..bufferLen]
    }

    ghost predicate Valid()
      reads this, buffer
    {
      && buffer.Length == BLOCK && bufferLen < BLOCK && |fifo| % BLOCK == 0
      && totalLen == 8 * |Contents()| % TWO64
    }

    constructor ()
      ensures Valid() && fresh(buffer) && Contents() == []
    {
      buffer := new byte[BLOCK];
      totalLen, bufferLen, dataCount, fifo := 0, 0, 0, [];
    }

    method Init(inputLen: uint64)
      requires buffer.Length == BLOCK
      modifies this
      ensures Valid() && Contents() == [] && dataCount == BlockCount(inputLen)
    {
      dataCount := (inputLen + BLOCK + 8) % TWO64 / BLOCK % TWO32 % 0x1_0000;
      totalLen, bufferLen, fifo := 0, 0, [];
    }

    /** Sixteen words to the data register. */
    method WriteBlock()
      requires buffer.Length == BLOCK && bufferLen == BLOCK && |fifo| % BLOCK == 0
      modifies this`fifo, this`bufferLen
      ensures |fifo| % BLOCK == 0 && bufferLen == 0 && Contents() == old(Contents())
    {
      var i := 0;
      while i < 16
        invariant i <= 16 && |fifo| == |old(fifo)| + 4 * i
        invariant fifo == old(fifo) + buffer[..4 * i]
      {
        fifo := fifo + buffer[4 * i..4 * i + 4];
        i := i + 1;
      }
      bufferLen := 0;
    }

    /** Copies up to a whole block, and writes the block once it is full. */
    method Take(data: seq<byte>) returns (rest: seq<byte>)
      requires Valid() && data != [] && |data| < TWO64
      modifies this, buffer
      ensures Valid() && |rest| < |data| && dataCount == old(dataCount)
      ensures Contents() + rest == old(Contents()) + data
    {
      var n := Min(BLOCK - bufferLen, |data|);
      ghost var before := Contents();
      CopyIn(data[..n]);
      rest := data[n..];
      assert data[..n] + rest == data;
      assert before + data[..n] + rest == before + data;
      if bufferLen == BLOCK {
        WriteBlock();
      }
    }

    /** memcpy behind the buffered bytes, and the two lengths. */
    method CopyIn(data: seq<byte>)
      requires Valid() && bufferLen + |data| <= BLOCK
      modifies this`totalLen, this`bufferLen, buffer
      ensures bufferLen == old(bufferLen) + |data| && Contents() == old(Contents()) + data
      ensures totalLen == 8 * |Contents()| % TWO64
    {
      ghost var before, held := Contents(), buffer[..bufferLen];
      forall i | 0 <= i < |data| {
        buffer[bufferLen + i] := data[i];
      }
      CountBits(totalLen, |before|, |data|);
      totalLen := (totalLen + |data| * 8) % TWO64;
      bufferLen := bufferLen + |data|;
      assert buffer[..bufferLen] == held + data;
      assert fifo + (held + data) == before + data;
    }

    method Update(input: seq<byte>)
      requires Valid() && |input| < TWO64
      modifies this, buffer
      ensures Valid() && Contents() == old(Contents()) + input && dataCount == old(dataCount)
    {
      var data := input;
      while data != []
        invariant Valid() && |data| < TWO64 && Contents() + data == old(Contents()) + input && dataCount == old(dataCount)
        decreases |data|
      {
        data := Take(data);
      }
    }

    /** Pads the message and writes its last block or two. */
    method Final()
      requires Valid()
      modifies this, buffer
      ensures bufferLen == 0 && dataCount == old(dataCount) && |fifo| % BLOCK == 0
      ensures fifo == old(Contents()) + PadBytes(PadLength(old(bufferLen))) + BigEndian(old(totalLen), 8)
    {
      var bytesToPad := 120 - bufferLen;
      if bytesToPad > 64 {
        bytesToPad := bytesToPad - 64;
      }
      var lengthPad := ByteSwap64(totalLen);
      SwappedInMemory(totalLen);
      hide ByteSwap64, BigEndian, LittleEndian, PadBytes;
      WholeBlocks(|fifo|, bufferLen);
      PadFills(|Contents()|, bufferLen);
      Update(PadBytes(bytesToPad));
      Update(LittleEndian(lengthPad, 8));
      WholeBlocks(|fifo|, bufferLen);
      assert buffer[..0] == [];
    }
  }

  // --- whole messages -----------------------------------------------------------------------------------------

  /** What Final writes is the padded message of the standard. */
  lemma FinalPads(m: seq<byte>)
    requires 8 * |m| < TWO64
    ensures IsPadded(m, m + PadBytes(PadLength(|m| % BLOCK)) + BigEndian(8 * |m| % TWO64, 8))
  {
    hide Fills, PadLength, PadBytes, BigEndian, Padding;
    PadIsLeast(|m|);
    PadShort(|m|);
    PadShape(m, PadLength(|m| % BLOCK));
  }

  lemma PadShape(m: seq<byte>, pad: nat)
    requires 0 < pad <= BLOCK && 8 * |m| < TWO64
    ensures m + PadBytes(pad) + BigEndian(8 * |m| % TWO64, 8) == Padding(m, pad - 1)
  {
    hide BigEndian, Zeros;
    Associative(m, [0x80], Zeros(pad - 1));
    Small(8 * |m|);
  }

  lemma Associative(a: seq<byte>, b: seq<byte>, c: seq<byte>)
    ensures a + (b + c) == a + b + c
  {
  }

  lemma Small(x: nat)
    requires x < TWO64
    ensures x % TWO64 == x
  {
  }

  lemma PadShort(length: nat)
    ensures 0 < PadLength(length % BLOCK) <= BLOCK
  {
  }

  lemma PadIsLeast(length: nat)
    ensures PadLength(length % BLOCK) > 0 && Fills(8 * length, PadLength(length % BLOCK) - 1)
  {
  }

  lemma PaddedLength(m: seq<byte>, p: seq<byte>)
    requires IsPadded(m, p)
    ensures |p| == 64 * ((|m| + 72) / 64)
  {
    hide Padding, Fills;
    var zeros: nat :| Fills(8 * |m|, zeros) && p == Padding(m, zeros);
    FillsLength(|m|, zeros);
  }

  lemma FillsLength(length: nat, zeros: nat)
    requires Fills(8 * length, zeros)
    ensures length + 9 + zeros == 64 * ((length + 72) / 64)
  {
    var rest := length % 64;
    assert (rest + 9 + zeros) % 64 == 0;
  }

  /** The programmed count is the number of blocks exactly for messages short of 65536 blocks. */
  lemma CountIsRight(m: seq<byte>, p: seq<byte>)
    requires IsPadded(m, p) && 8 * |m| < TWO64
    ensures BlockCount(|m|) * BLOCK == |p| <==> |m| < 65536 * BLOCK - 72
  {
    hide IsPadded;
    PaddedLength(m, p);
  }

  /** Init, any number of updates and final: whatever the split, the hardware gets the padded message. */
  method Feed(context: Context, chunks: seq<seq<byte>>)
    requires context.buffer.Length == BLOCK && 8 * |Concat(chunks)| < TWO64
    modifies context, context.buffer
    ensures IsPadded(Concat(chunks), context.fifo)
    ensures context.dataCount * BLOCK == |context.fifo| <==> |Concat(chunks)| < 65536 * BLOCK - 72
  {
    hide IsPadded, PadLength, PadBytes, BigEndian, BlockCount;
    ghost var message := Concat(chunks);
    context.Init(|Concat(chunks)|);
    UpdateAll(context, chunks);
    assert context.Contents() == message;
    WholeBlocks(|context.fifo|, context.bufferLen);
    FinalPads(message);
    context.Final();
    CountIsRight(message, context.fifo);
  }

  method UpdateAll(context: Context, chunks: seq<seq<byte>>)
    requires context.Valid() && |Concat(chunks)| < TWO64
    modifies context, context.buffer
    ensures context.Valid() && context.dataCount == old(context.dataCount)
    ensures context.Contents() == old(context.Contents()) + Concat(chunks)
    decreases |chunks|
  {
    if chunks != [] {
      context.Update(chunks[0]);
      UpdateAll(context, chunks[1..]);
      ghost var before := old(context.Contents());
      assert before + chunks[0] + Concat(chunks[1..]) == before + (chunks[0] + Concat(chunks[1..]));
    }
  }
}
