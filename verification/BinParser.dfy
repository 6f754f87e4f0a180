/**
  drivers/TBPipe/TBinParse.cpp: frames of an 8-byte header and a payload, cut out of one compacting buffer.

  As in LineParser, Decode says what a stream means, and the class is proved to
  compute it for any way of cutting the stream into chunks.
 */
module BinParser {
  import Bits
  import opened Bytes
  import opened FrameHeader
  import Streams

  // --- what a stream of bytes means ------------------------------------------------------------------------

  datatype Frame = Frame(command: uint16, data: seq<byte>)

  /**
    Collecting a header or a payload; or given up. Overrun is the state after a size so near 2^32 that the
    32-bit sums in the code wrap, which lets it pass the size check; got is what came after that header.
   */
  datatype Mode =
    | InHeader(got: seq<byte>)
    | InPayload(command: uint16, size: nat, got: seq<byte>)
    | Failed
    | Overrun(command: uint16, size: nat, got: seq<byte>)

  const WRAP := 0x1_0000_0000

  /** The size check: bin_message_size + 8 > buffer_size, in 32 bits. */
  predicate TooBig(size: nat, bufferSize: nat) {
    Wrap32(size + 8) > bufferSize
  }

  /**
    The check is the one the header file promises, "larger than the buffer", exactly for the sizes whose sum
    with 8 does not wrap.
   */
  lemma TooBigExactly(size: nat, bufferSize: nat)
    requires size < 0x1_0000_0000 && 8 <= bufferSize < 0x8000_0000
    ensures (TooBig(size, bufferSize) <==> size + 8 > bufferSize) <==> size < 0xFFFF_FFF8
  {
  }

  function Opened(bufferSize: nat, header: Header): (Mode, seq<Frame>) {
    var size := SizeOf(header);
    if !HeaderOk(header) || TooBig(size, bufferSize) then (Failed, [])
    else if size + 8 > bufferSize then (Overrun(header.packetId, size, []), [])
    else if size == 0 then (InHeader([]), [Frame(header.packetId, [])])
    else (InPayload(header.packetId, size, []), [])
  }

  function Feed(bufferSize: nat, mode: Mode, c: byte): (Mode, seq<Frame>) {
    match mode
    case InHeader(got) =>
      if |got| + 1 == 8 then Opened(bufferSize, HeaderIn(got + [c])) else (InHeader(got + [c]), [])
    case InPayload(command, size, got) =>
      if |got| + 1 == size then (InHeader([]), [Frame(command, got + [c])])
      else (InPayload(command, size, got + [c]), [])
    case Overrun(command, size, got) => (Overrun(command, size, got + [c]), [])
    case Failed => (Failed, [])
  }

  function Machine(bufferSize: nat): Streams.Machine<Mode, byte, Frame> {
    (mode: Mode, c: byte) => Feed(bufferSize, mode, c)
  }

  function After(bufferSize: nat, mode: Mode, stream: seq<byte>): Mode {
    Streams.After(Machine(bufferSize), mode, stream)
  }

  function Decode(bufferSize: nat, mode: Mode, stream: seq<byte>): seq<Frame> {
    Streams.Output(Machine(bufferSize), mode, stream)
  }

  lemma DecodeConcat(bufferSize: nat, mode: Mode, a: seq<byte>, b: seq<byte>)
    ensures After(bufferSize, mode, a + b) == After(bufferSize, After(bufferSize, mode, a), b)
    ensures Decode(bufferSize, mode, a + b)
         == Decode(bufferSize, mode, a) + Decode(bufferSize, After(bufferSize, mode, a), b)
  {
    Streams.CutAnywhere(Machine(bufferSize), mode, a, b);
  }

  lemma DecodeNothing(bufferSize: nat, mode: Mode)
    ensures After(bufferSize, mode, []) == mode && Decode(bufferSize, mode, []) == []
  {
  }

  lemma {:induction false} FailedStays(bufferSize: nat, stream: seq<byte>)
    ensures After(bufferSize, Failed, stream) == Failed && Decode(bufferSize, Failed, stream) == []
    decreases |stream|
  {
    if stream != [] {
      FailedStays(bufferSize, stream[1..]);
    }
  }

  lemma {:induction false} OverrunStays(bufferSize: nat, command: uint16, size: nat, got: seq<byte>, stream: seq<byte>)
    ensures After(bufferSize, Overrun(command, size, got), stream) == Overrun(command, size, got + stream)
    ensures Decode(bufferSize, Overrun(command, size, got), stream) == []
    decreases |stream|
  {
    if stream == [] {
      assert got + stream == got;
    } else {
      assert got + [stream[0]] + stream[1..] == got + stream;
      OverrunStays(bufferSize, command, size, got + [stream[0]], stream[1..]);
    }
  }

  lemma {:induction false} HeaderWaits(bufferSize: nat, got: seq<byte>, stream: seq<byte>)
    requires |got| + |stream| < 8
    ensures After(bufferSize, InHeader(got), stream) == InHeader(got + stream)
    ensures Decode(bufferSize, InHeader(got), stream) == []
    decreases |stream|
  {
    if stream == [] {
      assert got + stream == got;
    } else {
      assert got + [stream[0]] + stream[1..] == got + stream;
      HeaderWaits(bufferSize, got + [stream[0]], stream[1..]);
    }
  }

  /** The byte that completes a header opens what the header says. */
  lemma HeaderByte(bufferSize: nat, got: seq<byte>, c: byte)
    requires |got| == 7
    ensures var (next, given) := Opened(bufferSize, HeaderIn(got + [c]));
            After(bufferSize, InHeader(got), [c]) == next && Decode(bufferSize, InHeader(got), [c]) == given
  {
    hide Opened, HeaderIn;
    Streams.OneByte(Machine(bufferSize), InHeader(got), c);
  }

  lemma HeaderEnds(bufferSize: nat, got: seq<byte>, stream: seq<byte>)
    requires |got| < 8 <= |got| + |stream|
    ensures var header, rest := got + stream[..8 - |got|], stream[8 - |got|..];
            var (next, given) := Opened(bufferSize, HeaderIn(header));
            && After(bufferSize, InHeader(got), stream) == After(bufferSize, next, rest)
            && Decode(bufferSize, InHeader(got), stream) == given + Decode(bufferSize, next, rest)
  {
    hide After, Decode, Opened, HeaderIn;
    var n := 7 - |got|;
    var before, c, rest := stream[..n], stream[n], stream[n + 1..];
    assert stream == before + ([c] + rest);
    assert got + stream[..n + 1] == got + before + [c];
    HeaderWaits(bufferSize, got, before);
    DecodeConcat(bufferSize, InHeader(got), before, [c] + rest);
    HeaderByte(bufferSize, got + before, c);
    DecodeConcat(bufferSize, InHeader(got + before), [c], rest);
  }

  lemma {:induction false} PayloadWaits(bufferSize: nat, command: uint16, size: nat, got: seq<byte>, stream: seq<byte>)
    requires |got| + |stream| < size
    ensures After(bufferSize, InPayload(command, size, got), stream) == InPayload(command, size, got + stream)
    ensures Decode(bufferSize, InPayload(command, size, got), stream) == []
    decreases |stream|
  {
    if stream == [] {
      assert got + stream == got;
    } else {
      assert got + [stream[0]] + stream[1..] == got + stream;
      PayloadWaits(bufferSize, command, size, got + [stream[0]], stream[1..]);
    }
  }

  lemma {:induction false} PayloadEnds(bufferSize: nat, command: uint16, size: nat, got: seq<byte>, stream: seq<byte>)
    requires |got| < size <= |got| + |stream|
    ensures var rest := stream[size - |got|..];
            && After(bufferSize, InPayload(command, size, got), stream) == After(bufferSize, InHeader([]), rest)
            && Decode(bufferSize, InPayload(command, size, got), stream)
               == [Frame(command, got + stream[..size - |got|])] + Decode(bufferSize, InHeader([]), rest)
    decreases |stream|
  {
    if |got| + 1 == size {
      assert stream[..1] == [stream[0]];
    } else {
      PayloadEnds(bufferSize, command, size, got + [stream[0]], stream[1..]);
      assert got + [stream[0]] + stream[1..][..size - |got| - 1] == got + stream[..size - |got|];
      assert stream[1..][size - |got| - 1..] == stream[size - |got|..];
    }
  }

  /** The bytes a mode still waits on. */
  function Retained(mode: Mode): seq<byte> {
    match mode
    case InHeader(got) => got
    case InPayload(_, _, got) => got
    case Overrun(_, _, got) => got
    case Failed => []
  }

  // --- the class -------------------------------------------------------------------------------------------

  /** data is an offset into the buffer, null when there is no message; command is then 0. */
  datatype TBinMessage = TBinMessage(data: Option<nat>, size: nat, command: uint16)
  {
    predicate IsBad() {
      command == 0
    }
  }

  const NO_MESSAGE := TBinMessage(None, 0, 0)

  predicate InBuffer(m: TBinMessage, size: nat) {
    m.data.Some? ==> m.data.value + m.size <= size
  }

  function Meaning(m: TBinMessage, buffer: seq<byte>): seq<Frame>
    requires InBuffer(m, |buffer|)
  {
    if m.data.None? then [] else [Frame(m.command, buffer[m.data.value..m.data.value + m.size])]
  }

  /** What is to come: the frames, and the mode after them. */
  datatype Outlook = Outlook(end: Mode, frames: seq<Frame>)

  function OutlookFrom(bufferSize: nat, mode: Mode, stream: seq<byte>): Outlook {
    Outlook(After(bufferSize, mode, stream), Decode(bufferSize, mode, stream))
  }

  ghost predicate Gives(outlook: Outlook, given: seq<Frame>, next: Outlook) {
    outlook.end == next.end && outlook.frames == given + next.frames
  }

  lemma TakePayload(bufferSize: nat, command: uint16, size: nat, rest: seq<byte>)
    requires size > 0
    ensures |rest| < size ==>
              OutlookFrom(bufferSize, InPayload(command, size, []), rest) == Outlook(InPayload(command, size, rest), [])
    ensures |rest| >= size ==>
              Gives(OutlookFrom(bufferSize, InPayload(command, size, []), rest), [Frame(command, rest[..size])],
                    OutlookFrom(bufferSize, InHeader([]), rest[size..]))
  {
    if |rest| < size {
      PayloadWaits(bufferSize, command, size, [], rest);
      assert [] + rest == rest;
    } else {
      PayloadEnds(bufferSize, command, size, [], rest);
      assert [] + rest[..size] == rest[..size];
    }
  }

  lemma TakeHeader(bufferSize: nat, rest: seq<byte>)
    ensures |rest| < 8 ==> OutlookFrom(bufferSize, InHeader([]), rest) == Outlook(InHeader(rest), [])
    ensures |rest| >= 8 ==>
              var (next, given) := Opened(bufferSize, HeaderIn(rest[..8]));
              Gives(OutlookFrom(bufferSize, InHeader([]), rest), given, OutlookFrom(bufferSize, next, rest[8..]))
  {
    if |rest| < 8 {
      HeaderWaits(bufferSize, [], rest);
      assert [] + rest == rest;
    } else {
      HeaderEnds(bufferSize, [], rest);
      assert [] + rest[..8] == rest[..8];
    }
  }

  /** What a header at the front of the unread bytes leads to. */
  lemma TakeFrame(bufferSize: nat, rest: seq<byte>, outlook: Outlook)
    requires |rest| >= 8 && outlook == OutlookFrom(bufferSize, InHeader([]), rest)
    ensures var header := HeaderIn(rest[..8]);
            var size := SizeOf(header);
            if !HeaderOk(header) || TooBig(size, bufferSize) then outlook == Outlook(Failed, [])
            else if size + 8 > bufferSize then outlook == Outlook(Overrun(header.packetId, size, rest[8..]), [])
            else
              && (size > 0 ==> OutlookFrom(bufferSize, InPayload(header.packetId, size, []), rest[8..]) == outlook)
              && (size == 0 ==>
                    Gives(outlook, [Frame(header.packetId, [])], OutlookFrom(bufferSize, InHeader([]), rest[8..])))
  {
    hide After, Decode;
    TakeHeader(bufferSize, rest);
    var header := HeaderIn(rest[..8]);
    FailedStays(bufferSize, rest[8..]);
    OverrunStays(bufferSize, header.packetId, SizeOf(header), [], rest[8..]);
    assert [] + rest[8..] == rest[8..];
  }

  /**
    A command larger than the buffer, with a right check word: the stream fails, unless the size is so near 2^32
    that the sum with 8 wraps.
   */
  lemma OversizedHeader(bufferSize: nat, stream: seq<byte>)
    requires |stream| >= 8 && 8 <= bufferSize < 0x8000_0000
    requires HeaderOk(HeaderIn(stream[..8])) && SizeOf(HeaderIn(stream[..8])) + 8 > bufferSize
    ensures var header := HeaderIn(stream[..8]);
            && Decode(bufferSize, InHeader([]), stream) == []
            && After(bufferSize, InHeader([]), stream)
               == if SizeOf(header) < WRAP - 8 then Failed else Overrun(header.packetId, SizeOf(header), stream[8..])
  {
    hide After, Decode, HeaderIn, HeaderOk;
    TakeFrame(bufferSize, stream, OutlookFrom(bufferSize, InHeader([]), stream));
    TooBigExactly(SizeOf(HeaderIn(stream[..8])), bufferSize);
  }

  class TBinParse {
    const buffer: array<byte>
    var bufferPos: nat
    var bufferAmount: nat
    var binMessageSize: nat
    var binMessageCommand: uint16
    var parseFailed: bool

    ghost function Unread(): seq<byte>
      reads this, buffer
      requires bufferPos <= bufferAmount <= buffer.Length
    {
      buffer[bufferPos..bufferAmount]
    }

    ghost function Mode(): Mode
      reads this
    {
      if parseFailed then Failed
      else if binMessageSize > 0 then InPayload(binMessageCommand, binMessageSize, [])
      else InHeader([])
    }

    ghost function ToCome(): Outlook
      reads this, buffer
      requires bufferPos <= bufferAmount <= buffer.Length
    {
      OutlookFrom(buffer.Length, Mode(), Unread())
    }

    /** The buffer is smaller than 2 GB, and a pending payload fits it. */
    ghost predicate Valid()
      reads this, buffer
    {
      && bufferPos <= bufferAmount <= buffer.Length < 0x8000_0000
      && (!parseFailed ==> binMessageSize == 0 || binMessageSize + 8 <= buffer.Length)
    }

    constructor (bufferSize: nat)
      requires bufferSize < 0x8000_0000
      ensures Valid() && fresh(buffer) && buffer.Length == bufferSize
      ensures !parseFailed && bufferPos == bufferAmount == 0 && Mode() == InHeader([])
    {
      buffer := new byte[bufferSize];
      bufferPos, bufferAmount, binMessageSize, binMessageCommand, parseFailed := 0, 0, 0, 0, false;
    }

    function MaxAppendSize(): nat
      reads this
      requires bufferAmount <= buffer.Length
    {
      buffer.Length - bufferAmount
    }

    /** Appends all of the data, or fails for good and appends nothing when it is more than MaxAppendSize. */
    method Append(data: seq<byte>)
      requires Valid() && |data| < 0x8000_0000
      modifies this`bufferAmount, this`parseFailed, buffer
      ensures Valid() && bufferPos == old(bufferPos)
      ensures |data| <= old(MaxAppendSize()) ==> Mode() == old(Mode()) && Unread() == old(Unread()) + data
      ensures |data| > old(MaxAppendSize()) ==> parseFailed && Unread() == old(Unread())
    {
      if |data| == 0 {
        assert Unread() + data == Unread();
        return;
      }
      if bufferAmount + |data| > buffer.Length {
        parseFailed := true;
        return;
      }
      ghost var before := Unread();
      forall i | 0 <= i < |data| {
        buffer[bufferAmount + i] := data[i];
      }
      bufferAmount := bufferAmount + |data|;
      forall i | 0 <= i < |before| + |data| ensures Unread()[i] == (before + data)[i] {
        assert Unread()[i] == buffer[bufferPos + i];
      }
      assert Unread() == before + data;
    }

    /** The same for bytes that the caller has put behind the others, at BufferInplace, itself. */
    method AppendInplace(size: nat)
      requires Valid() && size < 0x8000_0000
      modifies this`bufferAmount, this`parseFailed
      ensures Valid() && bufferPos == old(bufferPos)
      ensures size <= old(MaxAppendSize()) ==>
                && Mode() == old(Mode())
                && Unread() == old(Unread()) + buffer[old(bufferAmount)..old(bufferAmount) + size]
      ensures size > old(MaxAppendSize()) ==> parseFailed && Unread() == old(Unread())
    {
      if size == 0 {
        assert Unread() + buffer[bufferAmount..bufferAmount] == Unread();
        return;
      }
      if bufferAmount + size > buffer.Length {
        parseFailed := true;
        return;
      }
      assert Unread() + buffer[bufferAmount..bufferAmount + size] == buffer[bufferPos..bufferAmount + size];
      bufferAmount := bufferAmount + size;
    }

    /** Forgets the data, but not a failure: a parser that has failed gives out nothing even after this. */
    method Clear()
      requires buffer.Length < 0x8000_0000
      modifies this`bufferPos, this`bufferAmount, this`binMessageSize, this`binMessageCommand
      ensures Valid() && bufferPos == bufferAmount == 0 && Mode() == if parseFailed then Failed else InHeader([])
    {
      bufferPos, bufferAmount, binMessageSize, binMessageCommand := 0, 0, 0, 0;
    }

    /** memmove of the unread bytes to the front of the buffer. */
    method Compact()
      requires bufferPos <= bufferAmount <= buffer.Length
      modifies this`bufferPos, this`bufferAmount, buffer
      ensures bufferPos == 0 && bufferAmount == old(bufferAmount - bufferPos)
      ensures buffer[..bufferAmount] == old(Unread())
    {
      var restSize := bufferAmount - bufferPos;
      forall i | 0 <= i < restSize {
        buffer[i] := buffer[bufferPos + i];
      }
      bufferAmount := restSize;
      bufferPos := 0;
    }

    /** ParseHeader: size and command, or 0 and 0 when the check word is wrong. */
    method ParseHeader(header: Header) returns (ok: bool)
      modifies this`binMessageSize, this`binMessageCommand
      ensures ok <==> header == FillHeader(header.packetId, SizeOf(header))
      ensures ok ==> binMessageSize == SizeOf(header) && binMessageCommand == header.packetId
      ensures !ok ==> binMessageSize == 0 && binMessageCommand == 0
    {
      AcceptedIsFilled(header);
      ok := Check(header.sizeLow, header.sizeHigh, header.packetId) == header.crc;
      if ok {
        binMessageSize, binMessageCommand := SizeOf(header), header.packetId;
      } else {
        binMessageSize, binMessageCommand := 0, 0;
      }
    }

    // How a search for a message ends, when this outlook was to come before.

    /** The sums have wrapped: the message reaches outside the buffer, and bufferPos moves back. */
    ghost predicate Escaped(end: Mode, message: TBinMessage)
      reads this
      requires end.Overrun?
    {
      && |end.got| <= bufferAmount <= buffer.Length
      && var at := bufferAmount - |end.got|;
         && message == TBinMessage(Some(at), end.size, end.command) && binMessageSize == 0 && !parseFailed
         && bufferPos == at + end.size - WRAP <= bufferAmount
    }

    /** The next frame, or none: then the stream has failed, or the bytes it waits on are kept. */
    ghost predicate Searched(outlook: Outlook, message: TBinMessage)
      reads this, buffer
    {
      && bufferPos <= bufferAmount <= buffer.Length && InBuffer(message, buffer.Length)
      && Gives(outlook, Meaning(message, buffer[..]), ToCome())
      && (message.data.None? <==> outlook.frames == [])
      && (message.data.None? ==>
            && message == NO_MESSAGE && (parseFailed <==> ToCome().end == Failed)
            && (!parseFailed ==> Unread() == Retained(ToCome().end) && (|Unread()| < 8 || |Unread()| < binMessageSize)))
    }

    /** The label MessageHeaderPassed: the payload, if the 32-bit sum says that the buffer holds all of it. */
    method GivePayload() returns (message: TBinMessage)
      requires bufferPos <= bufferAmount <= buffer.Length < 0x8000_0000 && binMessageSize < WRAP
      modifies this`bufferPos, this`binMessageSize
      ensures bufferPos <= bufferAmount
      ensures old(bufferPos) + old(binMessageSize) >= WRAP ==>
                && message == TBinMessage(Some(old(bufferPos)), old(binMessageSize), binMessageCommand)
                && bufferPos == old(bufferPos) + old(binMessageSize) - WRAP && binMessageSize == 0
      ensures old(bufferPos) + old(binMessageSize) < WRAP ==>
                && InBuffer(message, buffer.Length)
                && (message.data.None? <==> old(binMessageSize) > |old(Unread())|)
                && (message.data.None? ==>
                      message == NO_MESSAGE && bufferPos == old(bufferPos) && binMessageSize == old(binMessageSize))
                && (message.data.Some? ==>
                      && binMessageSize == 0
                      && Meaning(message, buffer[..]) == [Frame(binMessageCommand, old(Unread())[..old(binMessageSize)])]
                      && Unread() == old(Unread())[old(binMessageSize)..])
    {
      message := NO_MESSAGE;
      if Wrap32(bufferPos + binMessageSize) <= bufferAmount {
        if binMessageSize <= |Unread()| {
          assert Unread()[..binMessageSize] == buffer[..][bufferPos..bufferPos + binMessageSize];
        }
        message := TBinMessage(Some(bufferPos), binMessageSize, binMessageCommand);
        bufferPos := Wrap32(bufferPos + binMessageSize);
        binMessageSize := 0;
      }
    }

    /** parse_failed = true: nothing is given out any more. */
    method Fail()
      requires bufferPos <= bufferAmount <= buffer.Length < 0x8000_0000
      modifies this`parseFailed
      ensures parseFailed && Valid() && Searched(Outlook(Failed, []), NO_MESSAGE)
    {
      parseFailed := true;
      FailedStays(buffer.Length, Unread());
    }

    /** A payload of binMessageSize bytes is due, and fits the buffer. */
    method PayloadDue(ghost outlook: Outlook) returns (message: TBinMessage)
      requires bufferPos <= bufferAmount <= buffer.Length < 0x8000_0000 && !parseFailed
      requires binMessageSize + 8 <= buffer.Length
      requires binMessageSize > 0 ==>
                 OutlookFrom(buffer.Length, InPayload(binMessageCommand, binMessageSize, []), Unread()) == outlook
      requires binMessageSize == 0 ==>
                 Gives(outlook, [Frame(binMessageCommand, [])], OutlookFrom(buffer.Length, InHeader([]), Unread()))
      modifies this`bufferPos, this`binMessageSize
      ensures Valid() && !parseFailed && Searched(outlook, message) && (outlook.frames == [] ==> outlook.end.InPayload?)
    {
      hide After, Decode;
      if binMessageSize > 0 {
        TakePayload(buffer.Length, binMessageCommand, binMessageSize, Unread());
      } else {
        assert Unread()[..0] == [] && Unread()[0..] == Unread();
      }
      message := GivePayload();
    }

    /** A payload is due whose size makes the sums wrap. */
    method OverrunDue(ghost end: Mode) returns (message: TBinMessage)
      requires 8 <= bufferPos <= bufferAmount <= buffer.Length < 0x8000_0000 && !parseFailed
      requires WRAP - 8 <= binMessageSize < WRAP && end == Overrun(binMessageCommand, binMessageSize, Unread())
      modifies this`bufferPos, this`binMessageSize
      ensures Valid() && Escaped(end, message)
    {
      hide After, Decode;
      message := GivePayload();
    }

    /** The branch that has a header to read. */
    method OpenFrame() returns (message: TBinMessage)
      requires Valid() && !parseFailed && binMessageSize == 0 && bufferAmount - bufferPos >= 8
      modifies this`bufferPos, this`binMessageSize, this`binMessageCommand, this`parseFailed
      ensures Valid()
      ensures if old(ToCome()).end.Overrun? && old(ToCome()).frames == [] then Escaped(old(ToCome()).end, message)
              else Searched(old(ToCome()), message)
    {
      hide After, Decode, Opened, HeaderOk, FillHeader, SizeOf, HeaderIn, TBinParse.Searched, TBinParse.Escaped;
      ghost var rest, outlook := Unread(), ToCome();
      var header := HeaderIn(buffer[bufferPos..bufferPos + 8]);
      assert rest[..8] == buffer[bufferPos..bufferPos + 8];
      TakeFrame(buffer.Length, rest, outlook);
      message := NO_MESSAGE;
      var ok := ParseHeader(header);
      AcceptedIsFilled(header);
      if !ok {
        Fail();
        return;
      }
      bufferPos := bufferPos + 8;
      assert Unread() == rest[8..];
      if TooBig(binMessageSize, buffer.Length) {
        binMessageSize, binMessageCommand := 0, 0;
        Fail();
        return;
      }
      if binMessageSize + 8 > buffer.Length {
        TooBigExactly(binMessageSize, buffer.Length);
        assert outlook == Outlook(Overrun(binMessageCommand, binMessageSize, Unread()), []);
        message := OverrunDue(outlook.end);
      } else {
        message := PayloadDue(outlook);
      }
    }

    /**
      Gives out the next frame, if the buffer holds one whole; otherwise keeps everything. Fails exactly when
      the stream does: at a header with a wrong check word or a size too big for the buffer. Only a size that makes
      the sums of the code wrap is not noticed: the message reaches outside the buffer, and bufferPos moves back.
     */
    method NextMessage() returns (message: TBinMessage)
      requires Valid()
      modifies this, buffer
      ensures Valid()
      ensures if old(ToCome()).end.Overrun? && old(ToCome()).frames == [] then
                Escaped(old(ToCome()).end, message) && bufferAmount == old(bufferAmount) && buffer[..] == old(buffer[..])
              else Searched(old(ToCome()), message)
      ensures message.data.None? && !parseFailed ==> bufferPos == 0 && (buffer.Length >= 8 ==> MaxAppendSize() > 0)
    {
      hide After, Decode;
      message := NO_MESSAGE;
      if parseFailed {
        FailedStays(buffer.Length, Unread());
        return;
      }
      if binMessageSize != 0 {
        message := PayloadDue(ToCome());
      } else if bufferAmount - bufferPos >= 8 {
        message := OpenFrame();
      } else {
        TakeHeader(buffer.Length, Unread());
      }
      if message.data.Some? {
        return;
      }
      KeepRest();
    }

    /** The end of NextMessage: the rest moves to the front. */
    method KeepRest()
      requires Valid()
      modifies this`bufferPos, this`bufferAmount, buffer
      ensures Valid() && Unread() == old(Unread()) && ToCome() == old(ToCome()) && bufferPos == 0
    {
      hide After, Decode;
      Compact();
    }
  }

  // --- sending and receiving ----------------------------------------------------------------------------------

  /** A frame on the wire: TBinFillHeader of its command and size, then the payload. */
  function Encode(frame: Frame): seq<byte>
    requires |frame.data| < 0x1_0000_0000
  {
    HeaderBytes(FillHeader(frame.command, |frame.data|)) + frame.data
  }

  /** On the wire: 64 bits, low byte first, with the size, the command from bit 32 and the check from bit 48. */
  lemma FrameOnTheWire(frame: Frame)
    requires |frame.data| < 0x1_0000_0000
    ensures var size := |frame.data|;
            var check := Check(size % 0x1_0000, size / 0x1_0000, frame.command);
            Encode(frame) == Bits.LittleEndian(size + frame.command * 0x1_0000_0000 + check * 0x1_0000_0000_0000, 8)
                             + frame.data
  {
    hide Check, HeaderBytes, Bits.LittleEndian;
    FilledWord(frame.command, |frame.data|);
    HeaderInMemory(FillHeader(frame.command, |frame.data|));
  }

  /** The payload and its header fit the buffer. */
  predicate FitsBuffer(frame: Frame, bufferSize: nat) {
    |frame.data| + 8 <= bufferSize < 0x8000_0000
  }

  function EncodeAll(frames: seq<Frame>): seq<byte>
    requires forall i :: 0 <= i < |frames| ==> |frames[i].data| < 0x1_0000_0000
  {
    if frames == [] then [] else Encode(frames[0]) + EncodeAll(frames[1..])
  }

  /** The header of a frame that fits opens a payload of the right size and command. */
  lemma HeaderArrives(bufferSize: nat, frame: Frame)
    requires FitsBuffer(frame, bufferSize)
    ensures |Encode(frame)| >= 8 && Encode(frame)[8..] == frame.data
    ensures Opened(bufferSize, HeaderIn(Encode(frame)[..8]))
         == if frame.data == [] then (InHeader([]), [frame]) else (InPayload(frame.command, |frame.data|, []), [])
  {
    hide HeaderIn, HeaderBytes, Check;
    var header := FillHeader(frame.command, |frame.data|);
    FilledIsAccepted(frame.command, |frame.data|);
    HeaderSurvivesMemory(header);
    assert Encode(frame)[..8] == HeaderBytes(header);
  }

  lemma FrameArrives(bufferSize: nat, frame: Frame)
    requires FitsBuffer(frame, bufferSize)
    ensures After(bufferSize, InHeader([]), Encode(frame)) == InHeader([])
    ensures Decode(bufferSize, InHeader([]), Encode(frame)) == [frame]
  {
    hide After, Decode, Opened, Encode;
    HeaderArrives(bufferSize, frame);
    TakeHeader(bufferSize, Encode(frame));
    DecodeNothing(bufferSize, InHeader([]));
    if frame.data != [] {
      TakePayload(bufferSize, frame.command, |frame.data|, frame.data);
      assert frame.data[..|frame.data|] == frame.data && frame.data[|frame.data|..] == [];
    }
  }

  const HELLO: seq<byte> := [104, 101, 108, 108, 111]

  /** The bytes of one frame, written out: command 1 with five bytes of payload. */
  lemma HelloArrives(bufferSize: nat)
    requires 13 <= bufferSize < 0x8000_0000
    ensures Encode(Frame(1, HELLO)) == [5, 0, 0, 0, 1, 0, 0xFB, 0xFF] + HELLO
    ensures Decode(bufferSize, InHeader([]), [5, 0, 0, 0, 1, 0, 0xFB, 0xFF] + HELLO) == [Frame(1, HELLO)]
  {
    hide After, Decode, HeaderBytes, FillHeader;
    HelloHeader();
    FrameArrives(bufferSize, Frame(1, HELLO));
  }

  /** The stream of any frames that fit means exactly those frames, and never fails. */
  lemma {:induction false} FramesArrive(bufferSize: nat, frames: seq<Frame>)
    requires forall i :: 0 <= i < |frames| ==> |frames[i].data| < 0x1_0000_0000 && FitsBuffer(frames[i], bufferSize)
    ensures After(bufferSize, InHeader([]), EncodeAll(frames)) == InHeader([])
    ensures Decode(bufferSize, InHeader([]), EncodeAll(frames)) == frames
    decreases |frames|
  {
    if frames != [] {
      hide After, Decode, Encode;
      FrameArrives(bufferSize, frames[0]);
      FramesArrive(bufferSize, frames[1..]);
      DecodeConcat(bufferSize, InHeader([]), Encode(frames[0]), EncodeAll(frames[1..]));
    }
  }

  /** Nothing more will come out before the next append; unless the stream has failed, there is room for one. */
  ghost predicate Drained(parse: TBinParse)
    reads parse, parse.buffer
  {
    && parse.Valid() && parse.ToCome().frames == [] && (parse.parseFailed <==> parse.ToCome().end == Failed)
    && (!parse.parseFailed ==>
          parse.bufferPos == 0 && parse.Unread() == Retained(parse.ToCome().end) && parse.MaxAppendSize() > 0)
  }

  predicate NoCommandZero(frames: seq<Frame>) {
    forall i :: 0 <= i < |frames| ==> frames[i].command != 0
  }

  lemma NoCommandZeroParts(a: seq<Frame>, b: seq<Frame>)
    requires NoCommandZero(a + b)
    ensures NoCommandZero(a) && NoCommandZero(b)
  {
    forall i | 0 <= i < |a| ensures a[i].command != 0 {
      assert (a + b)[i] == a[i];
    }
    forall i | 0 <= i < |b| ensures b[i].command != 0 {
      assert (a + b)[|a| + i] == b[i];
    }
  }

  /** One message and, if it is not a bad one, its frame. With no command 0 about, bad means drained. */
  method Take(parse: TBinParse) returns (message: TBinMessage, given: seq<Frame>)
    requires parse.Valid() && parse.buffer.Length >= 8 && !parse.ToCome().end.Overrun?
    requires NoCommandZero(parse.ToCome().frames)
    modifies parse, parse.buffer
    ensures parse.Valid() && parse.ToCome().end == old(parse.ToCome().end)
    ensures old(parse.ToCome().frames) == given + parse.ToCome().frames
    ensures NoCommandZero(parse.ToCome().frames)
    ensures if message.IsBad() then given == [] && Drained(parse) else |given| == 1
  {
    hide After, Decode;
    message := parse.NextMessage();
    given := Meaning(message, parse.buffer[..]);
    NoCommandZeroParts(given, parse.ToCome().frames);
    if message.data.Some? {
      assert given[0].command == message.command;
    }
  }

  /** Takes messages until a bad one, as callers do between appends. */
  method Drain(parse: TBinParse) returns (frames: seq<Frame>)
    requires parse.Valid() && parse.buffer.Length >= 8 && !parse.ToCome().end.Overrun?
    requires NoCommandZero(parse.ToCome().frames)
    modifies parse, parse.buffer
    ensures Drained(parse)
    ensures frames == old(parse.ToCome().frames) && parse.ToCome().end == old(parse.ToCome().end)
  {
    hide After, Decode;
    frames := [];
    var message, given := Take(parse);
    while !message.IsBad()
      invariant parse.Valid() && parse.ToCome().end == old(parse.ToCome().end)
      invariant old(parse.ToCome().frames) == frames + given + parse.ToCome().frames
      invariant NoCommandZero(parse.ToCome().frames)
      invariant if message.IsBad() then given == [] && Drained(parse) else |given| == 1
      decreases |given| + |parse.ToCome().frames|
    {
      frames := frames + given;
      message, given := Take(parse);
    }
  }

  method ReceiveChunk(parse: TBinParse, chunk: seq<byte>) returns (frames: seq<Frame>)
    requires Drained(parse) && parse.buffer.Length >= 8 && |chunk| < 0x8000_0000
    requires !parse.parseFailed ==> |chunk| <= parse.MaxAppendSize()
    requires !After(parse.buffer.Length, parse.ToCome().end, chunk).Overrun?
    requires NoCommandZero(Decode(parse.buffer.Length, parse.ToCome().end, chunk))
    modifies parse, parse.buffer
    ensures Drained(parse)
    ensures frames == Decode(parse.buffer.Length, old(parse.ToCome().end), chunk)
    ensures parse.ToCome().end == After(parse.buffer.Length, old(parse.ToCome().end), chunk)
  {
    hide After, Decode;
    DecodeConcat(parse.buffer.Length, parse.Mode(), parse.Unread(), chunk);
    FailedStays(parse.buffer.Length, chunk);
    parse.Append(chunk);
    FailedStays(parse.buffer.Length, parse.Unread());
    frames := Drain(parse);
  }

  /** While the stream has not failed, each chunk is within the MaxAppendSize that the drain before it leaves. */
  predicate WithinMaxAppend(bufferSize: nat, mode: Mode, chunks: seq<seq<byte>>)
    decreases |chunks|
  {
    chunks != [] ==>
      && |chunks[0]| < 0x8000_0000 && (mode != Failed ==> |chunks[0]| <= bufferSize - |Retained(mode)|)
      && WithinMaxAppend(bufferSize, After(bufferSize, mode, chunks[0]), chunks[1..])
  }

  /**
    Independence from chunking, for every stream whose sizes do not make the sums wrap: the frames are those of the
    stream, and the parser has failed exactly if the stream has.
   */
  method Receive(parse: TBinParse, chunks: seq<seq<byte>>) returns (frames: seq<Frame>)
    requires Drained(parse) && parse.buffer.Length >= 8
    requires WithinMaxAppend(parse.buffer.Length, parse.ToCome().end, chunks)
    requires !After(parse.buffer.Length, parse.ToCome().end, Concat(chunks)).Overrun?
    requires NoCommandZero(Decode(parse.buffer.Length, parse.ToCome().end, Concat(chunks)))
    modifies parse, parse.buffer
    ensures Drained(parse)
    ensures frames == Decode(parse.buffer.Length, old(parse.ToCome().end), Concat(chunks))
    ensures parse.ToCome().end == After(parse.buffer.Length, old(parse.ToCome().end), Concat(chunks))
    ensures parse.parseFailed <==> After(parse.buffer.Length, old(parse.ToCome().end), Concat(chunks)) == Failed
    decreases |chunks|
  {
    if chunks == [] {
      return [];
    }
    hide After, Decode;
    ghost var size, end := parse.buffer.Length, parse.ToCome().end;
    ghost var first', rest' := chunks[0], Concat(chunks[1..]);
    DecodeConcat(size, end, first', rest');
    if After(size, end, first').Overrun? {
      var Overrun(command, n, got) := After(size, end, first');
      OverrunStays(size, command, n, got, rest');
    }
    NoCommandZeroParts(Decode(size, end, first'), Decode(size, After(size, end, first'), rest'));
    var first := ReceiveChunk(parse, chunks[0]);
    var rest := Receive(parse, chunks[1..]);
    frames := first + rest;
  }

  /**
    End to end: frames that fit the buffer, sent in any chunks within MaxAppendSize, come back exactly,
    without a failure, and after every drain there is room for another append.
   */
  method ReceiveSent(parse: TBinParse, frames: seq<Frame>, chunks: seq<seq<byte>>) returns (received: seq<Frame>)
    requires Drained(parse) && parse.buffer.Length >= 8 && parse.ToCome().end == InHeader([])
    requires forall i :: 0 <= i < |frames| ==> |frames[i].data| < 0x1_0000_0000 && FitsBuffer(frames[i], parse.buffer.Length)
    requires NoCommandZero(frames) && Concat(chunks) == EncodeAll(frames)
    requires WithinMaxAppend(parse.buffer.Length, InHeader([]), chunks)
    modifies parse, parse.buffer
    ensures Drained(parse) && !parse.parseFailed && parse.ToCome().end == InHeader([])
    ensures received == frames
  {
    FramesArrive(parse.buffer.Length, frames);
    received := Receive(parse, chunks);
  }

  // --- corrupted and oversized headers ------------------------------------------------------------------------

  /** A wrong header fails the stream, whatever follows. */
  lemma WrongHeaderFails(bufferSize: nat, header: Header, rest: seq<byte>)
    requires !HeaderOk(header)
    ensures After(bufferSize, InHeader([]), HeaderBytes(header) + rest) == Failed
    ensures Decode(bufferSize, InHeader([]), HeaderBytes(header) + rest) == []
  {
    hide After, Decode, HeaderOk, HeaderIn, HeaderBytes;
    var stream := HeaderBytes(header) + rest;
    HeaderSurvivesMemory(header);
    assert stream[..8] == HeaderBytes(header);
    TakeFrame(bufferSize, stream, OutlookFrom(bufferSize, InHeader([]), stream));
  }

  /**
    Frames, then a header with a burst of errors in it, then anything: exactly the frames before it arrive, and the
    stream fails. With Receive: whatever the chunks.
   */
  lemma BurstEndsStream(bufferSize: nat, frames: seq<Frame>, header: Header, error: uint16, lane: nat, shift: nat,
        rest: seq<byte>)
    requires forall i :: 0 <= i < |frames| ==> |frames[i].data| < 0x1_0000_0000 && FitsBuffer(frames[i], bufferSize)
    requires HeaderOk(header) && 0 < error && lane <= 3 && shift < 16 && 16 * lane + shift <= 48
    ensures var stream := EncodeAll(frames) + (HeaderBytes(Corrupt(header, Burst(error, lane, shift))) + rest);
            After(bufferSize, InHeader([]), stream) == Failed && Decode(bufferSize, InHeader([]), stream) == frames
  {
    hide After, Decode, HeaderOk, Corrupt, Burst, EncodeAll;
    var wrong := Corrupt(header, Burst(error, lane, shift));
    BurstIsRejected(header, error, lane, shift);
    FramesArrive(bufferSize, frames);
    WrongHeaderFails(bufferSize, wrong, rest);
    DecodeConcat(bufferSize, InHeader([]), EncodeAll(frames), HeaderBytes(wrong) + rest);
  }

  /** A header that any sender could build, and that no buffer could hold the payload of. */
  const NEAR_TOP := 0xFFFF_FFF8

  function NearTop(): seq<byte> {
    HeaderBytes(FillHeader(1, NEAR_TOP))
  }

  /** An input at which the sums wrap: it passes the check word and the size check. */
  lemma NearTopOverruns(bufferSize: nat)
    requires 8 <= bufferSize < 0x8000_0000
    ensures After(bufferSize, InHeader([]), NearTop()) == Overrun(1, NEAR_TOP, [])
    ensures Decode(bufferSize, InHeader([]), NearTop()) == []
  {
    hide After, Decode, HeaderOk, HeaderIn, HeaderBytes;
    FilledIsAccepted(1, NEAR_TOP);
    HeaderSurvivesMemory(FillHeader(1, NEAR_TOP));
    assert NearTop()[..8] == NearTop() && NearTop()[8..] == [];
    OversizedHeader(bufferSize, NearTop());
  }

  /**
    There the parser hands out a message of almost 4 GB, which begins where the buffer's bytes end, and is then just
    as it was: taking messages until a bad one would never end.
   */
  method NearTopNeverEnds(parse: TBinParse) returns (message: TBinMessage)
    requires parse.Valid() && parse.buffer.Length >= 8 && !parse.parseFailed && parse.binMessageSize == 0
    requires parse.bufferPos == 0 && parse.Unread() == NearTop()
    modifies parse, parse.buffer
    ensures message == TBinMessage(Some(8), NEAR_TOP, 1)
    ensures parse.Valid() && !parse.parseFailed && parse.binMessageSize == 0
    ensures parse.bufferPos == 0 && parse.Unread() == NearTop()
  {
    hide After, Decode, HeaderBytes;
    NearTopOverruns(parse.buffer.Length);
    message := parse.NextMessage();
  }
}
