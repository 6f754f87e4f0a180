/**
  drivers/TBPipe/TBParse.cpp: text lines mixed with binary packets, cut out of one compacting buffer.

  Decode says what a byte stream means, one byte at a time and without any buffer. The class keeps an
  incomplete line and scans it again from its first byte whenever more bytes have come; that it still
  computes Decode, for any way of cutting the stream into chunks, is what this module proves.
 */
module LineParser {
  import opened Bytes
  import opened PrefixParsers
  import Streams

  datatype Message = Line(text: seq<byte>) | Packet(data: seq<byte>)

  /** Buffers and appended pieces are shorter than 2 GB; so only a packet size can make a 32-bit sum wrap. */
  const HALF := 0x8000_0000
  const WRAP := 0x1_0000_0000

  /**
    How a parser reads: its prefix rule, the state that starts in, and the least packet size for which
    buffer_pos + bin_message_size can wrap in 32 bits: 2^32 less the size of the buffer.
   */
  datatype Framing<!S> = Framing(rule: Rule<S>, initial: S, limit: nat)

  /**
    Inside a line, with the bytes since its beginning; inside a packet, with the bytes it still has; or
    after a packet size of at least the limit was announced, with the bytes after that.
   */
  datatype Mode = InLine(line: seq<byte>) | InPacket(size: nat, got: seq<byte>) | Overlong(size: nat, got: seq<byte>)

  const CR: byte := 13
  const LF: byte := 10

  predicate IsLineEnd(c: byte) {
    c == CR || c == LF
  }

  /** The mode after a packet of this size was announced. */
  function Announced<S>(f: Framing<S>, size: nat): Mode {
    if size >= f.limit then Overlong(size, []) else if size == 0 then InLine([]) else InPacket(size, [])
  }

  function Feed<S>(f: Framing<S>, mode: Mode, c: byte): (Mode, seq<Message>) {
    match mode
    case Overlong(size, got) => (Overlong(size, got + [c]), [])
    case InPacket(size, got) =>
      if |got| + 1 == size then (InLine([]), [Packet(got + [c])]) else (InPacket(size, got + [c]), [])
    case InLine(line) =>
      match VerdictOn(f.rule, f.initial, line + [c])
      case PrefixCompleted(size) => (Announced(f, size), if size == 0 && size < f.limit then [Packet([])] else [])
      case PrefixMatched => (InLine(line + [c]), [])
      case NotMatched =>
        if IsLineEnd(c) then (InLine([]), if line == [] then [] else [Line(line)])
        else (InLine(line + [c]), [])
  }

  function Machine<S>(f: Framing<S>): Streams.Machine<Mode, byte, Message> {
    (mode: Mode, c: byte) => Feed(f, mode, c)
  }

  /** The mode a stream leads to. */
  function After<S>(f: Framing<S>, mode: Mode, stream: seq<byte>): Mode {
    Streams.After(Machine(f), mode, stream)
  }

  /** The messages a stream carries. */
  function Decode<S>(f: Framing<S>, mode: Mode, stream: seq<byte>): seq<Message> {
    Streams.Output(Machine(f), mode, stream)
  }

  /** A stream can be cut anywhere. */
  lemma DecodeConcat<S>(f: Framing<S>, mode: Mode, a: seq<byte>, b: seq<byte>)
    ensures After(f, mode, a + b) == After(f, After(f, mode, a), b)
    ensures Decode(f, mode, a + b) == Decode(f, mode, a) + Decode(f, After(f, mode, a), b)
  {
    Streams.CutAnywhere(Machine(f), mode, a, b);
  }

  lemma DecodeNothing<S>(f: Framing<S>, mode: Mode)
    ensures After(f, mode, []) == mode && Decode(f, mode, []) == []
  {
  }

  lemma DecodeByte<S>(f: Framing<S>, mode: Mode, c: byte)
    ensures After(f, mode, [c]) == Feed(f, mode, c).0
    ensures Decode(f, mode, [c]) == Feed(f, mode, c).1
  {
    Streams.OneByte(Machine(f), mode, c);
  }

  lemma {:induction false} OverlongStays<S>(f: Framing<S>, size: nat, got: seq<byte>, stream: seq<byte>)
    ensures After(f, Overlong(size, got), stream) == Overlong(size, got + stream)
    ensures Decode(f, Overlong(size, got), stream) == []
    decreases |stream|
  {
    if stream == [] {
      assert got + stream == got;
    } else {
      assert got + [stream[0]] + stream[1..] == got + stream;
      OverlongStays(f, size, got + [stream[0]], stream[1..]);
    }
  }

  /** A packet takes the next bytes of the stream whatever they are: here it stays incomplete ... */
  lemma {:induction false} PacketWaits<S>(f: Framing<S>, size: nat, got: seq<byte>, stream: seq<byte>)
    requires |got| + |stream| < size
    ensures After(f, InPacket(size, got), stream) == InPacket(size, got + stream)
    ensures Decode(f, InPacket(size, got), stream) == []
    decreases |stream|
  {
    if stream == [] {
      assert got + stream == got;
    } else {
      assert got + [stream[0]] + stream[1..] == got + stream;
      PacketWaits(f, size, got + [stream[0]], stream[1..]);
    }
  }

  /** ... and here it is complete. */
  lemma {:induction false} PacketEnds<S>(f: Framing<S>, size: nat, got: seq<byte>, stream: seq<byte>)
    requires |got| < size <= |got| + |stream|
    ensures var rest := stream[size - |got|..];
            && After(f, InPacket(size, got), stream) == After(f, InLine([]), rest)
            && Decode(f, InPacket(size, got), stream)
               == [Packet(got + stream[..size - |got|])] + Decode(f, InLine([]), rest)
    decreases |stream|
  {
    if |got| + 1 == size {
      assert stream[..1] == [stream[0]];
    } else {
      PacketEnds(f, size, got + [stream[0]], stream[1..]);
      assert got + [stream[0]] + stream[1..][..size - |got| - 1] == got + stream[..size - |got|];
      assert stream[1..][size - |got| - 1..] == stream[size - |got|..];
      assert Decode(f, InPacket(size, got), stream)
          == [] + Decode(f, InPacket(size, got + [stream[0]]), stream[1..]);
    }
  }

  /** The bytes a mode still waits on. */
  function Retained(mode: Mode): seq<byte> {
    match mode
    case InLine(line) => line
    case InPacket(_, got) => got
    case Overlong(_, got) => got
  }

  /** A whole packet: one message, which ends with its last byte. */
  lemma PacketDone<S>(f: Framing<S>, packet: seq<byte>)
    requires packet != []
    ensures After(f, InPacket(|packet|, []), packet) == InLine([])
    ensures Decode(f, InPacket(|packet|, []), packet) == [Packet(packet)]
    ensures Decode(f, InPacket(|packet|, []), packet[..|packet| - 1]) == []
  {
    PacketEnds(f, |packet|, [], packet);
    PacketWaits(f, |packet|, [], packet[..|packet| - 1]);
    assert [] + packet[..|packet|] == packet && packet[|packet|..] == [];
    DecodeNothing(f, InLine([]));
  }

  /** What is to come: the messages, and the mode after them. */
  datatype Outlook = Outlook(end: Mode, messages: seq<Message>)

  /** The first message of the stream ends with its byte number n. */
  ghost predicate FirstEndsAt<S>(f: Framing<S>, mode: Mode, stream: seq<byte>, n: nat) {
    0 < n <= |stream| && |Decode(f, mode, stream[..n])| == 1 && Decode(f, mode, stream[..n - 1]) == []
  }

  /** So the messages of the stream are that one and those of the rest. */
  lemma FirstAndRest<S>(f: Framing<S>, mode: Mode, stream: seq<byte>, n: nat)
    requires FirstEndsAt(f, mode, stream, n)
    ensures Decode(f, mode, stream) == Decode(f, mode, stream[..n]) + Decode(f, After(f, mode, stream[..n]), stream[n..])
    ensures After(f, mode, stream) == After(f, After(f, mode, stream[..n]), stream[n..])
  {
    assert stream == stream[..n] + stream[n..];
    DecodeConcat(f, mode, stream[..n], stream[n..]);
  }

  /** There is only one such number. */
  lemma FirstEndsOnce<S>(f: Framing<S>, mode: Mode, stream: seq<byte>, n: nat, m: nat)
    requires FirstEndsAt(f, mode, stream, n) && FirstEndsAt(f, mode, stream, m)
    ensures n == m
  {
    hide After, Decode;
    if n < m {
      assert stream[..m - 1] == stream[..n] + stream[n..m - 1];
      DecodeConcat(f, mode, stream[..n], stream[n..m - 1]);
    } else if m < n {
      assert stream[..n - 1] == stream[..m] + stream[m..n - 1];
      DecodeConcat(f, mode, stream[..m], stream[m..n - 1]);
    }
  }

  /** Once a packet is announced, it takes the bytes that follow. */
  lemma PacketFollows<S>(f: Framing<S>, mode: Mode, consumed: seq<byte>, size: nat, rest: seq<byte>)
    requires 0 < size && After(f, mode, consumed) == Announced(f, size) && Decode(f, mode, consumed) == []
    ensures size >= f.limit ==>
              After(f, mode, consumed + rest) == Overlong(size, rest) && Decode(f, mode, consumed + rest) == []
    ensures |rest| < size < f.limit ==>
              After(f, mode, consumed + rest) == InPacket(size, rest) && Decode(f, mode, consumed + rest) == []
    ensures size < f.limit && size <= |rest| ==>
              var all, n := consumed + rest, |consumed| + size;
              && FirstEndsAt(f, mode, all, n) && Decode(f, mode, all[..n]) == [Packet(rest[..size])]
              && After(f, mode, all[..n]) == InLine([]) && all[n..] == rest[size..] && all[..n - size] == consumed
              && Decode(f, mode, all) != []
  {
    hide After, Decode;
    DecodeConcat(f, mode, consumed, rest);
    if size >= f.limit {
      OverlongStays(f, size, [], rest);
      assert [] + rest == rest;
    } else if |rest| < size {
      PacketWaits(f, size, [], rest);
      assert [] + rest == rest;
    } else {
      PacketGiven(f, mode, consumed, rest[..size], rest[size..]);
      assert rest == rest[..size] + rest[size..];
      assert consumed + rest == consumed + rest[..size] + rest[size..];
    }
  }

  lemma PacketGiven<S>(f: Framing<S>, mode: Mode, consumed: seq<byte>, packet: seq<byte>, rest: seq<byte>)
    requires packet != [] && After(f, mode, consumed) == InPacket(|packet|, []) && Decode(f, mode, consumed) == []
    ensures var all, n := consumed + packet + rest, |consumed| + |packet|;
            && FirstEndsAt(f, mode, all, n) && Decode(f, mode, all[..n]) == [Packet(packet)]
            && After(f, mode, all[..n]) == InLine([]) && all[n..] == rest && all[..n - |packet|] == consumed
            && Decode(f, mode, all) != []
  {
    hide After, Decode;
    var all, n, most := consumed + packet + rest, |consumed| + |packet|, packet[..|packet| - 1];
    PacketDone(f, packet);
    DecodeConcat(f, mode, consumed, packet);
    DecodeConcat(f, mode, consumed, most);
    assert all[..n] == consumed + packet && all[..n - 1] == consumed + most;
    FirstAndRest(f, mode, all, n);
  }

  /** Bytes that give one message with the last of them. */
  lemma BytesGive<S>(f: Framing<S>, mode: Mode, taken: seq<byte>, rest: seq<byte>)
    requires taken != [] && |Decode(f, mode, taken)| == 1 && Decode(f, mode, taken[..|taken| - 1]) == []
    ensures var all, n := taken + rest, |taken|;
            FirstEndsAt(f, mode, all, n) && all[..n] == taken && all[n..] == rest && Decode(f, mode, all) != []
  {
    hide After, Decode;
    var all, n := taken + rest, |taken|;
    assert all[..n] == taken && all[..n - 1] == taken[..n - 1];
    FirstAndRest(f, mode, all, n);
  }

  /** The bytes a message holds: an offset into the buffer, null when there is no message. */
  datatype TBMessage = TBMessage(data: Option<nat>, size: nat, isText: bool)

  const NO_MESSAGE := TBMessage(None, 0, false)

  predicate InBuffer(m: TBMessage, size: nat) {
    m.data.Some? ==> m.data.value + m.size <= size
  }

  function Meaning(m: TBMessage, buffer: seq<byte>): (r: seq<Message>)
    requires InBuffer(m, |buffer|)
  {
    if m.data.None? then []
    else
      var bytes := buffer[m.data.value..m.data.value + m.size];
      [if m.isText then Line(bytes) else Packet(bytes)]
  }

  /** A line read so far: from its own beginning it has given no message either. */
  ghost predicate LineSoFar<S>(f: Framing<S>, line: seq<byte>) {
    After(f, InLine([]), line) == InLine(line) && Decode(f, InLine([]), line) == []
  }

  /** One more byte of a line, whatever came before the line. */
  lemma LineByte<S>(f: Framing<S>, mode: Mode, consumed: seq<byte>, line: seq<byte>, c: byte)
    requires After(f, mode, consumed) == InLine(line) && Decode(f, mode, consumed) == []
    ensures After(f, mode, consumed + [c]) == Feed(f, InLine(line), c).0
    ensures Decode(f, mode, consumed + [c]) == Feed(f, InLine(line), c).1
  {
    hide After, Decode, Feed;
    DecodeConcat(f, mode, consumed, [c]);
    DecodeByte(f, InLine(line), c);
  }

  /** Feeding a line byte by byte from any state gives the verdicts that it has from the initial state. */
  lemma FedByte<S(!new)>(rule: Rule<S>, s: S, s': S, line: seq<byte>, c: byte)
    requires Resets(rule)
    ensures rule(StateAfter(rule, s, line), c, |line| == 0)
         == (StateAfter(rule, s, line + [c]), VerdictOn(rule, s', line + [c]))
  {
    assert (line + [c])[..|line|] == line;
    assert ResetBy(rule, line + [c]);
    assert VerdictOn(rule, s, line + [c]) == VerdictOn(rule, s', line + [c]);
  }

  /** Can the sum of buffer_pos and the size wrap, for an announcement that came this long before the end? */
  predicate Wraps(end: Mode, amount: nat) {
    end.Overlong? && amount >= |end.got| && amount - |end.got| + end.size >= WRAP
  }

  /** bin_message_size while the stream is in this mode. */
  function Pending(mode: Mode): nat {
    match mode
    case InLine(_) => 0
    case InPacket(size, _) => size
    case Overlong(size, _) => size
  }

  /** Line ends read over have become zeros; nothing else has changed. */
  predicate OnlyEndsZeroed(before: seq<byte>, after: seq<byte>) {
    |before| == |after| && forall i :: 0 <= i < |after| ==> after[i] == before[i] || (IsLineEnd(before[i]) && after[i] == 0)
  }

  class TBParse<S(!new)> {
    const buffer: array<byte>
    const rule: Rule<S>
    const initial: S
    var bufferPos: nat
    var bufferAmount: nat
    var binMessageSize: nat
    var parser: S

    /** The bytes appended and not yet given out, except those of a packet prefix already read. */
    ghost function Unread(): seq<byte>
      reads this, buffer
      requires bufferPos <= bufferAmount <= buffer.Length
    {
      buffer[bufferPos..bufferAmount]
    }

    ghost function Framed(): Framing<S> {
      Framing(rule, initial, WRAP - Min(buffer.Length, HALF))
    }

    ghost function Mode(): Mode
      reads this
    {
      Announced(Framed(), binMessageSize)
    }

    /** What the bytes in the buffer still mean: the messages to come, and where they leave the stream. */
    ghost function ToCome(): Outlook
      reads this, buffer
      requires bufferPos <= bufferAmount <= buffer.Length
    {
      Outlook(After(Framed(), Mode(), Unread()), Decode(Framed(), Mode(), Unread()))
    }

    /** A pending packet begins at the front of the buffer. */
    ghost predicate Valid()
      reads this, buffer
    {
      && bufferPos <= bufferAmount <= buffer.Length < HALF
      && binMessageSize < WRAP && (binMessageSize > 0 ==> bufferPos == 0)
      && Resets(rule)
    }

    constructor (bufferSize: nat, rule: Rule<S>, parser: S)
      requires bufferSize < HALF && Resets(rule)
      ensures Valid() && fresh(buffer) && buffer.Length == bufferSize
      ensures this.rule == rule && this.initial == parser
      ensures Unread() == [] && Mode() == InLine([])
    {
      buffer := new byte[bufferSize];
      this.rule, this.initial, this.parser := rule, parser, parser;
      bufferPos, bufferAmount, binMessageSize := 0, 0, 0;
    }

    /** Appends what fits and drops the rest. Without a timeout, its default. */
    method Append(data: seq<byte>)
      requires Valid() && |data| < HALF
      modifies this`bufferAmount, buffer
      ensures Valid() && Mode() == old(Mode()) && bufferPos == old(bufferPos)
      ensures Unread() == old(Unread()) + data[..Min(|data|, buffer.Length - old(bufferAmount))]
    {
      ghost var before := Unread();
      var sizeToCopy := |data|;
      if bufferAmount + |data| > buffer.Length {
        sizeToCopy := buffer.Length - bufferAmount;
      }
      forall i | 0 <= i < sizeToCopy {
        buffer[bufferAmount + i] := data[i];
      }
      bufferAmount := bufferAmount + sizeToCopy;
      forall i | 0 <= i < |before| + sizeToCopy ensures Unread()[i] == (before + data[..sizeToCopy])[i] {
        assert Unread()[i] == buffer[bufferPos + i];
      }
      assert Unread() == before + data[..sizeToCopy];
    }

    /** memmove of the bytes from start on to the front of the buffer. */
    method Compact(start: nat)
      requires start <= bufferAmount <= buffer.Length
      modifies this`bufferPos, this`bufferAmount, buffer
      ensures bufferPos == 0 && bufferAmount == old(bufferAmount) - start
      ensures buffer[..bufferAmount] == old(buffer[start..bufferAmount])
    {
      var restSize := bufferAmount - start;
      forall i | 0 <= i < restSize {
        buffer[i] := buffer[start + i];
      }
      bufferAmount := restSize;
      bufferPos := 0;
    }

    // The three ways a search for a message ends, when the stream was in the mode before, and its unread
    // bytes were all, from start on.

    /**
      The first message is given out, exactly up to its last byte. A line has a zero after it; a packet lies where
      its prefix ends.
     */
    ghost predicate Found(mode: Mode, all: seq<byte>, start: nat, message: TBMessage)
      reads this, buffer
    {
      && start < bufferPos <= bufferAmount <= buffer.Length && binMessageSize == 0
      && message.data.Some? && InBuffer(message, buffer.Length)
      && FirstEndsAt(Framed(), mode, all, bufferPos - start)
      && Meaning(message, buffer[..]) == Decode(Framed(), mode, all[..bufferPos - start])
      && After(Framed(), mode, all[..bufferPos - start]) == InLine([])
      && Unread() == all[bufferPos - start..]
      && var end := message.data.value + message.size;
         if message.isText then message.size > 0 && end < buffer.Length && buffer[end] == 0
         else end == bufferPos && PacketBegins(mode, all, bufferPos - start, message.size)
    }

    /** A packet of size bytes that ends with byte number n begins right after its prefix. */
    ghost predicate PacketBegins(mode: Mode, all: seq<byte>, n: nat, size: nat) {
      size > 0 ==> size <= n <= |all| && After(Framed(), mode, all[..n - size]) == InPacket(size, [])
    }

    /** The sum has wrapped: the message reaches outside the buffer, and bufferPos moves back. */
    ghost predicate Escaped(end: Mode, message: TBMessage)
      reads this, buffer
      requires Wraps(end, bufferAmount)
    {
      var at := bufferAmount - |end.got|;
      && message == TBMessage(Some(at), end.size, false) && binMessageSize == 0
      && bufferPos == at + end.size - WRAP <= bufferAmount <= buffer.Length
    }

    /** No message is whole: the bytes from keep on are what the stream waits on. */
    ghost predicate Waiting(end: Mode, message: TBMessage, keep: nat)
      reads this, buffer
    {
      && message == NO_MESSAGE && keep <= bufferAmount <= buffer.Length
      && buffer[keep..bufferAmount] == Retained(end) && binMessageSize == Pending(end)
      && match end
         case InLine(line) => LineSoFar(Framed(), line)
         case InPacket(size, got) => |got| < size < Framed().limit
         case Overlong(size, _) => Framed().limit <= size < WRAP
    }

    ghost predicate Searched(mode: Mode, all: seq<byte>, start: nat, message: TBMessage, keep: nat)
      reads this, buffer
    {
      if Decode(Framed(), mode, all) != [] then Found(mode, all, start, message)
      else if Wraps(After(Framed(), mode, all), bufferAmount) then Escaped(After(Framed(), mode, all), message)
      else Waiting(After(Framed(), mode, all), message, keep)
    }

    /** The packet of binMessageSize bytes that starts at bufferPos. */
    method GivePacket() returns (message: TBMessage)
      requires bufferPos + binMessageSize <= bufferAmount <= buffer.Length
      modifies this`bufferPos, this`binMessageSize
      ensures InBuffer(message, buffer.Length) && message.data == Some(old(bufferPos)) && !message.isText
      ensures message.size == old(binMessageSize)
      ensures bufferPos == old(bufferPos) + old(binMessageSize) && binMessageSize == 0
      ensures Meaning(message, buffer[..]) == [Packet(old(Unread())[..old(binMessageSize)])]
      ensures Unread() == old(Unread())[old(binMessageSize)..]
    {
      assert Unread()[..binMessageSize] == buffer[bufferPos..bufferPos + binMessageSize];
      assert buffer[..][bufferPos..bufferPos + binMessageSize] == buffer[bufferPos..bufferPos + binMessageSize];
      message := TBMessage(Some(bufferPos), binMessageSize, false);
      bufferPos := bufferPos + binMessageSize;
      binMessageSize := 0;
    }

    /** A packet of no bytes: given out at once. */
    method EmptyPacketDue(ghost mode: Mode, ghost consumed: seq<byte>, ghost start: nat) returns (message: TBMessage)
      requires start + |consumed| == bufferPos <= bufferAmount <= buffer.Length < HALF && binMessageSize == 0
      requires After(Framed(), mode, consumed) == InLine([]) && Decode(Framed(), mode, consumed) == [Packet([])]
      requires consumed != [] && Decode(Framed(), mode, consumed[..|consumed| - 1]) == []
      modifies this`bufferPos, this`binMessageSize
      ensures message.data.Some? && Searched(mode, consumed + old(Unread()), start, message, bufferPos)
    {
      hide After, Decode;
      ghost var rest := Unread();
      BytesGive(Framed(), mode, consumed, rest);
      message := GivePacket();
      assert rest[..0] == [] && rest[0..] == rest;
    }

    /**
      A packet of binMessageSize bytes is due, after the consumed bytes: give it out, or leave it pending. The sum
      is the 32-bit one of the code.
     */
    method PacketDue(ghost mode: Mode, ghost consumed: seq<byte>, ghost start: nat) returns (message: TBMessage)
      requires start + |consumed| == bufferPos <= bufferAmount <= buffer.Length < HALF && 0 < binMessageSize < WRAP
      requires After(Framed(), mode, consumed) == Announced(Framed(), binMessageSize) && Decode(Framed(), mode, consumed) == []
      modifies this`bufferPos, this`binMessageSize
      ensures Searched(mode, consumed + old(Unread()), start, message, bufferPos)
      ensures if message.data.None? then bufferPos == old(bufferPos) else message.data.value == old(bufferPos)
    {
      hide After, Decode, FirstEndsAt, Announced;
      PacketFollows(Framed(), mode, consumed, binMessageSize, Unread());
      if Wrap32(bufferPos + binMessageSize) > bufferAmount {
        message := NO_MESSAGE;
      } else if bufferPos + binMessageSize < WRAP {
        message := WholePacketDue(mode, consumed, start);
      } else {
        message := TBMessage(Some(bufferPos), binMessageSize, false);
        bufferPos := Wrap32(bufferPos + binMessageSize);
        binMessageSize := 0;
      }
    }

    /** The packet is in the buffer. */
    method WholePacketDue(ghost mode: Mode, ghost consumed: seq<byte>, ghost start: nat) returns (message: TBMessage)
      requires start + |consumed| == bufferPos <= bufferAmount <= buffer.Length < HALF
      requires 0 < binMessageSize <= |Unread()|
      requires After(Framed(), mode, consumed) == Announced(Framed(), binMessageSize) && Decode(Framed(), mode, consumed) == []
      modifies this`bufferPos, this`binMessageSize
      ensures Decode(Framed(), mode, consumed + old(Unread())) != []
      ensures Found(mode, consumed + old(Unread()), start, message) && message.data == Some(old(bufferPos))
    {
      hide After, Decode, FirstEndsAt;
      PacketFollows(Framed(), mode, consumed, binMessageSize, Unread());
      message := GivePacket();
    }

    /**
      In the middle of the scan: the bytes consumed since its start gave no message, and those since messageStart
      are the line so far; they have been fed to the parser, which was `before` then.
     */
    ghost predicate Reading(messageStart: nat, before: S, consumed: seq<byte>)
      reads this, buffer
    {
      && messageStart <= bufferPos <= bufferAmount <= buffer.Length < HALF && binMessageSize == 0
      && var line := buffer[messageStart..bufferPos];
         && parser == StateAfter(rule, before, line)
         && After(Framed(), InLine([]), consumed) == InLine(line) && Decode(Framed(), InLine([]), consumed) == []
         && LineSoFar(Framed(), line)
    }

    /** The beginning of the loop body: the next byte, and the parser's verdict on it. */
    method ReadByte(messageStart: nat, ghost before: S, ghost consumed: seq<byte>) returns (c: byte, result: Verdict)
      requires Resets(rule) && Reading(messageStart, before, consumed) && bufferPos < bufferAmount
      modifies this`bufferPos, this`parser
      ensures bufferPos == old(bufferPos) + 1 && c == buffer[bufferPos - 1] && messageStart < bufferPos
      ensures var line := buffer[messageStart..bufferPos - 1];
              var (next, given) := Feed(Framed(), InLine(line), c);
              && result == VerdictOn(rule, initial, line + [c])
              && After(Framed(), InLine([]), consumed + [c]) == next && Decode(Framed(), InLine([]), consumed + [c]) == given
              && (next == InLine(line + [c]) && given == [] ==> Reading(messageStart, before, consumed + [c]))
    {
      hide After, Decode, StateAfter, VerdictOn, Resets, Feed;
      c := buffer[bufferPos];
      ghost var line := buffer[messageStart..bufferPos];
      bufferPos := bufferPos + 1;
      var (next, verdict) := rule(parser, c, bufferPos - 1 == messageStart);
      parser, result := next, verdict;
      assert line + [c] == buffer[messageStart..bufferPos];
      FedByte(rule, before, initial, line, c);
      LineByte(Framed(), InLine([]), consumed, line, c);
      LineByte(Framed(), InLine([]), line, line, c);
    }

    /** The branch for a line end: the line, if it is not empty. */
    method EndLine(messageStart: nat) returns (message: TBMessage)
      requires messageStart < bufferPos <= bufferAmount <= buffer.Length
      modifies buffer
      ensures InBuffer(message, buffer.Length) && Unread() == old(Unread())
      ensures Meaning(message, buffer[..])
           == if bufferPos == messageStart + 1 then [] else [Line(old(buffer[messageStart..bufferPos - 1]))]
      ensures message.data.None? ==> message == NO_MESSAGE
      ensures message.data.Some? ==>
                && message.isText && message.size > 0 && message.data.value + message.size == bufferPos - 1
      ensures buffer[..] == old(buffer[..])[bufferPos - 1 := 0]
    {
      ghost var line := buffer[messageStart..bufferPos - 1];
      buffer[bufferPos - 1] := 0;
      message := NO_MESSAGE.(size := bufferPos - messageStart - 1);
      if message.size == 0 {
        return;
      }
      message := message.(isText := true, data := Some(messageStart));
      assert buffer[..][messageStart..messageStart + message.size] == line;
    }

    /** A line has ended with the last of the consumed bytes. */
    method LineDue(messageStart: nat, ghost line: seq<byte>, ghost consumed: seq<byte>, ghost start: nat)
      returns (message: TBMessage)
      requires messageStart < bufferPos <= bufferAmount <= buffer.Length < HALF && binMessageSize == 0
      requires start + |consumed| == bufferPos && consumed != [] && line == buffer[messageStart..bufferPos - 1]
      requires IsLineEnd(buffer[bufferPos - 1]) && Decode(Framed(), InLine([]), consumed[..|consumed| - 1]) == []
      requires After(Framed(), InLine([]), consumed) == InLine([])
      requires Decode(Framed(), InLine([]), consumed) == if line == [] then [] else [Line(line)]
      modifies buffer
      ensures Unread() == old(Unread()) && OnlyEndsZeroed(old(buffer[..]), buffer[..])
      ensures message.data.Some? ==> Found(InLine([]), consumed + Unread(), start, message)
      ensures message.data.Some? ==> Decode(Framed(), InLine([]), consumed + Unread()) != []
      ensures message.data.None? ==> message == NO_MESSAGE && Decode(Framed(), InLine([]), consumed) == []
    {
      hide After, Decode, FirstEndsAt;
      if line != [] {
        BytesGive(Framed(), InLine([]), consumed, Unread());
      }
      message := EndLine(messageStart);
    }

    /** The loop body. A message, or a pending packet, ends the loop. */
    method ScanRound(ghost start: nat, messageStart: nat, ghost before: S, ghost consumed: seq<byte>)
      returns (message: TBMessage, messageStart': nat, ghost before': S, ghost consumed': seq<byte>, ended: bool)
      requires Resets(rule) && Reading(messageStart, before, consumed) && bufferPos < bufferAmount
      requires start + |consumed| == bufferPos
      modifies this`bufferPos, this`binMessageSize, this`parser, buffer
      ensures OnlyEndsZeroed(old(buffer[..]), buffer[..])
      ensures ended ==> Searched(InLine([]), consumed + old(Unread()), start, message, messageStart')
      ensures ended && message.data.None? ==> messageStart' == bufferPos <= bufferAmount
      ensures !ended ==>
                && message == NO_MESSAGE && Reading(messageStart', before', consumed')
                && bufferPos == old(bufferPos) + 1 && start + |consumed'| == bufferPos
                && consumed' + Unread() == consumed + old(Unread())
    {
      hide After, Decode, FirstEndsAt, StateAfter, VerdictOn, Resets;
      ghost var rest := Unread();
      messageStart', before', message, ended := messageStart, before, NO_MESSAGE, false;
      var c, result := ReadByte(messageStart, before, consumed);
      consumed' := consumed + [c];
      assert consumed'[..|consumed'| - 1] == consumed;
      assert rest == [c] + Unread() && consumed' + Unread() == consumed + rest;
      if result.PrefixCompleted? {
        binMessageSize := result.packetSize;
        if binMessageSize == 0 {
          message := EmptyPacketDue(InLine([]), consumed', start);
        } else {
          message := PacketDue(InLine([]), consumed', start);
        }
        messageStart', ended := bufferPos, true;
      } else if result.NotMatched? && IsLineEnd(c) {
        message := LineDue(messageStart, buffer[messageStart..bufferPos - 1], consumed', start);
        messageStart', before', ended := bufferPos, parser, message.data.Some?;
        LineBegins(Framed(), rule, parser);
        assert buffer[bufferPos..bufferPos] == [];
      }
    }

    /** The scan from bufferPos on. */
    method Scan() returns (message: TBMessage, messageStart: nat)
      requires Valid() && binMessageSize == 0
      modifies this`bufferPos, this`binMessageSize, this`parser, buffer
      ensures Searched(InLine([]), old(Unread()), old(bufferPos), message, messageStart)
      ensures OnlyEndsZeroed(old(buffer[..]), buffer[..])
    {
      hide After, Decode, FirstEndsAt, StateAfter, VerdictOn, Resets;
      message, messageStart := NO_MESSAGE, bufferPos;
      ghost var all, start, before := Unread(), bufferPos, parser;
      ghost var consumed: seq<byte> := [];
      LineBegins(Framed(), rule, parser);
      assert buffer[bufferPos..bufferPos] == [] && consumed + Unread() == all;
      while bufferPos < bufferAmount
        invariant Reading(messageStart, before, consumed) && message == NO_MESSAGE
        invariant start + |consumed| == bufferPos && consumed + Unread() == all
        invariant OnlyEndsZeroed(old(buffer[..]), buffer[..])
      {
        var ended;
        message, messageStart, before, consumed, ended := ScanRound(start, messageStart, before, consumed);
        if ended {
          return;
        }
      }
      assert consumed == all;
    }

    /**
      Gives out the next message, if the buffer holds one whole, up to its last byte; otherwise keeps exactly what
      the stream waits on, and no later call will see anything else in it. Only when an announced size makes the sum
      of the code wrap does a message reach outside the buffer; bufferPos then moves back.
     */
    method NextMessage() returns (message: TBMessage)
      requires Valid()
      modifies this, buffer
      ensures Valid()
      ensures if old(ToCome()).messages != [] then Found(old(Mode()), old(Unread()), old(bufferPos), message)
              else if Wraps(old(ToCome()).end, old(bufferAmount)) then
                && bufferAmount == old(bufferAmount) && Escaped(old(ToCome()).end, message)
                && OnlyEndsZeroed(old(buffer[..]), buffer[..])
              else
                && message == NO_MESSAGE && bufferPos == 0
                && ToCome() == Outlook(old(ToCome()).end, []) && Unread() == Retained(ToCome().end)
      ensures old(binMessageSize) > 0 && message.data.Some? ==> message.data == Some(0)
    {
      hide After, Decode, FirstEndsAt, Resets;
      var messageStart := bufferPos;
      if binMessageSize != 0 {
        DecodeNothing(Framed(), Mode());
        assert [] + Unread() == Unread();
        message := PacketDue(Mode(), [], bufferPos);
      } else {
        message, messageStart := Scan();
      }
      if message.data.Some? {
        return;
      }
      ghost var end := old(ToCome()).end;
      WaitingStays(Framed(), end);
      Compact(messageStart);
      assert Unread() == Retained(end);
    }
  }

  lemma LineBegins<S(!new)>(f: Framing<S>, rule: Rule<S>, parser: S)
    ensures After(f, InLine([]), []) == InLine([]) && Decode(f, InLine([]), []) == [] && LineSoFar(f, [])
    ensures parser == StateAfter(rule, parser, [])
  {
  }

  /** What a drained parser still waits on leads to the same mode again. */
  lemma WaitingStays<S>(f: Framing<S>, end: Mode)
    requires match end
             case InLine(line) => f.limit > 0 && LineSoFar(f, line)
             case InPacket(size, got) => |got| < size < f.limit
             case Overlong(size, _) => f.limit <= size
    ensures After(f, Announced(f, Pending(end)), Retained(end)) == end
    ensures Decode(f, Announced(f, Pending(end)), Retained(end)) == []
  {
    hide After, Decode;
    match end
    case InLine(_) =>
    case InPacket(size, got) =>
      PacketWaits(f, size, [], got);
      assert [] + got == got;
    case Overlong(size, got) =>
      OverlongStays(f, size, [], got);
      assert [] + got == got;
  }

  // --- receiving a stream in chunks ------------------------------------------------------------------

  /** Nothing more will come out before the next append. */
  ghost predicate Drained<S(!new)>(parse: TBParse<S>)
    reads parse, parse.buffer
  {
    && parse.Valid() && parse.bufferPos == 0
    && parse.ToCome().messages == [] && parse.Unread() == Retained(parse.ToCome().end)
  }

  /** One message, and what it means. */
  method Take<S(!new)>(parse: TBParse<S>) returns (message: TBMessage, given: seq<Message>)
    requires parse.Valid() && !parse.ToCome().end.Overlong?
    modifies parse, parse.buffer
    ensures parse.Valid() && parse.ToCome().end == old(parse.ToCome().end)
    ensures old(parse.ToCome().messages) == given + parse.ToCome().messages
    ensures if message.data.None? then given == [] && Drained(parse) else |given| == 1
  {
    hide After, Decode, FirstEndsAt, Resets;
    ghost var f, mode, all, start := parse.Framed(), parse.Mode(), parse.Unread(), parse.bufferPos;
    message := parse.NextMessage();
    given := [];
    if message.data.Some? {
      given := Meaning(message, parse.buffer[..]);
      FirstAndRest(f, mode, all, parse.bufferPos - start);
    }
  }

  /** Takes messages until there is none, as the callers do between appends. */
  method Drain<S(!new)>(parse: TBParse<S>) returns (messages: seq<Message>)
    requires parse.Valid() && !parse.ToCome().end.Overlong?
    modifies parse, parse.buffer
    ensures Drained(parse)
    ensures messages == old(parse.ToCome().messages) && parse.ToCome().end == old(parse.ToCome().end)
  {
    hide After, Decode, Resets;
    messages := [];
    var message, given := Take(parse);
    while message.data.Some?
      invariant parse.Valid() && parse.ToCome().end == old(parse.ToCome().end)
      invariant old(parse.ToCome().messages) == messages + given + parse.ToCome().messages
      invariant if message.data.None? then given == [] && Drained(parse) else |given| == 1
      decreases |given| + |parse.ToCome().messages|
    {
      messages := messages + given;
      message, given := Take(parse);
    }
  }

  /** One chunk: append and drain. */
  method ReceiveChunk<S(!new)>(parse: TBParse<S>, chunk: seq<byte>) returns (messages: seq<Message>)
    requires Drained(parse)
    requires |Retained(parse.ToCome().end)| + |chunk| <= parse.buffer.Length
    requires !After(parse.Framed(), parse.ToCome().end, chunk).Overlong?
    modifies parse, parse.buffer
    ensures Drained(parse)
    ensures messages == Decode(parse.Framed(), old(parse.ToCome().end), chunk)
    ensures parse.ToCome().end == After(parse.Framed(), old(parse.ToCome().end), chunk)
  {
    hide After, Decode, Resets;
    ghost var before, mode := parse.Unread(), parse.Mode();
    assert chunk[..|chunk|] == chunk;
    DecodeConcat(parse.Framed(), mode, before, chunk);
    parse.Append(chunk);
    messages := Drain(parse);
  }

  /** Each chunk finds room for all of it beside what the stream before it still waits on. */
  predicate NoTruncation<S>(f: Framing<S>, bufferSize: nat, mode: Mode, chunks: seq<seq<byte>>)
    decreases |chunks|
  {
    chunks != [] ==>
      && |Retained(mode)| + |chunks[0]| <= bufferSize
      && NoTruncation(f, bufferSize, After(f, mode, chunks[0]), chunks[1..])
  }

  /**
    Independence from chunking: whichever chunks a stream is appended in, draining after each gives exactly
    the messages the stream carries, provided no append truncates and no size makes the code's sum wrap.
   */
  method Receive<S(!new)>(parse: TBParse<S>, chunks: seq<seq<byte>>) returns (messages: seq<Message>)
    requires Drained(parse)
    requires NoTruncation(parse.Framed(), parse.buffer.Length, parse.ToCome().end, chunks)
    requires !After(parse.Framed(), parse.ToCome().end, Concat(chunks)).Overlong?
    modifies parse, parse.buffer
    ensures Drained(parse)
    ensures messages == Decode(parse.Framed(), old(parse.ToCome().end), Concat(chunks))
    ensures parse.ToCome().end == After(parse.Framed(), old(parse.ToCome().end), Concat(chunks))
    decreases |chunks|
  {
    if chunks == [] {
      return [];
    }
    hide After, Decode, Resets;
    ghost var f, end, first', rest' := parse.Framed(), parse.ToCome().end, chunks[0], Concat(chunks[1..]);
    DecodeConcat(f, end, first', rest');
    if After(f, end, first').Overlong? {
      OverlongStays(f, After(f, end, first').size, After(f, end, first').got, rest');
    }
    var first := ReceiveChunk(parse, chunks[0]);
    var rest := Receive(parse, chunks[1..]);
    messages := first + rest;
  }

  /** A buffer full of a line or packet that is not whole takes nothing more, whatever is sent: it stays so for ever. */
  method AppendToFull<S(!new)>(parse: TBParse<S>, data: seq<byte>) returns (message: TBMessage)
    requires Drained(parse) && |Retained(parse.ToCome().end)| == parse.buffer.Length && |data| < HALF
    requires !parse.ToCome().end.Overlong?
    modifies parse, parse.buffer
    ensures message == NO_MESSAGE
    ensures Drained(parse) && parse.ToCome() == old(parse.ToCome())
  {
    hide After, Decode, FirstEndsAt, Resets;
    assert data[..0] == [] && parse.Unread() + [] == parse.Unread();
    parse.Append(data);
    message := parse.NextMessage();
  }

  // --- which streams make the sum wrap ------------------------------------------------------------------------

  /** Byte i of the stream completes a prefix that announces a size of at least the limit. */
  predicate AnnouncesLimit<S>(f: Framing<S>, mode: Mode, stream: seq<byte>, i: nat)
    requires i < |stream|
  {
    var before := After(f, mode, stream[..i]);
    && before.InLine?
    && var verdict := VerdictOn(f.rule, f.initial, before.line + [stream[i]]);
       verdict.PrefixCompleted? && verdict.packetSize >= f.limit
  }

  /** A stream becomes overlong exactly at such a byte. */
  lemma {:induction false} OverlongExactly<S>(f: Framing<S>, mode: Mode, stream: seq<byte>)
    requires !mode.Overlong?
    ensures After(f, mode, stream).Overlong? <==> exists i: nat :: i < |stream| && AnnouncesLimit(f, mode, stream, i)
    decreases |stream|
  {
    if stream == [] {
      DecodeNothing(f, mode);
      return;
    }
    hide After, Decode, Feed;
    var most, c := stream[..|stream| - 1], stream[|stream| - 1];
    assert stream == most + [c];
    DecodeConcat(f, mode, most, [c]);
    var before := After(f, mode, most);
    DecodeByte(f, before, c);
    OverlongByByte(f, before, c);
    OverlongExactly(f, mode, most);
    forall i: nat | i < |most| ensures AnnouncesLimit(f, mode, stream, i) == AnnouncesLimit(f, mode, most, i) {
      assert stream[..i] == most[..i];
    }
    if before.Overlong? {
      var i: nat :| i < |most| && AnnouncesLimit(f, mode, most, i);
      assert AnnouncesLimit(f, mode, stream, i);
    } else if After(f, mode, stream).Overlong? {
      assert AnnouncesLimit(f, mode, stream, |most|);
    }
  }

  lemma OverlongByByte<S>(f: Framing<S>, mode: Mode, c: byte)
    ensures Feed(f, mode, c).0.Overlong? <==>
            || mode.Overlong?
            || (mode.InLine? && var v := VerdictOn(f.rule, f.initial, mode.line + [c]);
                                v.PrefixCompleted? && v.packetSize >= f.limit)
  {
  }

  /** The rule announces no packet of 2 GB or more, whatever it is fed. */
  ghost predicate NeverHuge<S(!new)>(rule: Rule<S>) {
    forall s, line {:trigger VerdictOn(rule, s, line)} ::
      line != [] && VerdictOn(rule, s, line).PrefixCompleted? ==> VerdictOn(rule, s, line).packetSize < HALF
  }

  /** So no stream makes the sum wrap. */
  lemma NeverOverlong<S(!new)>(f: Framing<S>, mode: Mode, stream: seq<byte>)
    requires NeverHuge(f.rule) && f.limit >= HALF && !mode.Overlong?
    ensures !After(f, mode, stream).Overlong?
  {
    hide After;
    OverlongExactly(f, mode, stream);
  }

  /** The standard, short and null rules are such; the short one announces 1 to 127 bytes, so never none. */
  lemma RulesAreNeverHuge()
    ensures NeverHuge(StandardRule) && NeverHuge(ShortRule) && NeverHuge(NullRule)
    ensures forall s, line {:trigger VerdictOn(ShortRule, s, line)} ::
              line != [] && VerdictOn(ShortRule, s, line).PrefixCompleted? ==>
                1 <= VerdictOn(ShortRule, s, line).packetSize < 128
  {
    forall s, line | line != [] && VerdictOn(StandardRule, s, line).PrefixCompleted?
      ensures VerdictOn(StandardRule, s, line).packetSize < HALF
    {
      StandardSize(s, line);
    }
  }

  /** The null rule, which never finds a prefix, resets too. */
  lemma NullResets()
    ensures Resets(NullRule)
  {
    forall line ensures ResetBy(NullRule, line) {
    }
  }

  // --- what arrives under each rule ---------------------------------------------------------------------------

  /** The last byte ends neither the line nor a prefix. */
  predicate Continues<S>(f: Framing<S>, line: seq<byte>)
    requires line != []
  {
    var verdict := VerdictOn(f.rule, f.initial, line);
    verdict.PrefixMatched? || (verdict.NotMatched? && !IsLineEnd(line[|line| - 1]))
  }

  lemma {:induction false} LineGoesOn<S(!new)>(f: Framing<S>, line: seq<byte>)
    requires forall k :: 0 < k <= |line| ==> Continues(f, line[..k])
    ensures LineSoFar(f, line)
    decreases |line|
  {
    hide After, Decode, VerdictOn;
    if line == [] {
      DecodeNothing(f, InLine([]));
    } else {
      var before, c := line[..|line| - 1], line[|line| - 1];
      assert line == before + [c] && line[..|line|] == line;
      assert forall k :: 0 < k <= |before| ==> before[..k] == line[..k];
      LineGoesOn(f, before);
      LineByte(f, InLine([]), before, before, c);
    }
  }

  /** Without prefixes, a text arrives with its line end, an empty one excepted. */
  lemma NullLineArrives(f: Framing<()>, text: seq<byte>, c: byte)
    requires f.rule == NullRule && IsLineEnd(c) && forall b :: b in text ==> !IsLineEnd(b)
    ensures After(f, InLine([]), text + [c]) == InLine([])
    ensures Decode(f, InLine([]), text + [c]) == if text == [] then [] else [Line(text)]
  {
    hide After, Decode;
    forall k | 0 < k <= |text|
      ensures Continues(f, text[..k])
    {
      assert text[..k][k - 1] in text;
    }
    LineGoesOn(f, text);
    LineByte(f, InLine([]), text, text, c);
  }

  /** Behind 0xFE and its length, a packet of 1 to 127 bytes arrives. */
  lemma ShortPacketArrives(f: Framing<Short>, data: seq<byte>, rest: seq<byte>)
    requires f.rule == ShortRule && 1 <= |data| <= 127 < f.limit
    ensures var stream := [0xFE, |data| as byte] + data + rest;
            && After(f, InLine([]), stream) == After(f, InLine([]), rest)
            && Decode(f, InLine([]), stream) == [Packet(data)] + Decode(f, InLine([]), rest)
  {
    hide After, Decode, VerdictOn, ShortRule;
    var line := [0xFE, |data| as byte];
    ShortVerdicts(f.initial, |data| as byte);
    var mark: seq<byte> := [0xFE];
    assert forall k :: 0 < k <= |mark| ==> mark[..k] == mark;
    LineGoesOn(f, mark);
    LineByte(f, InLine([]), mark, mark, |data| as byte);
    assert mark + [|data| as byte] == line;
    PacketGiven(f, InLine([]), line, data, []);
    assert line + data + [] == line + data && (line + data)[..2 + |data|] == line + data;
    DecodeConcat(f, InLine([]), line + data, rest);
  }

  lemma ShortVerdicts(s: Short, size: byte)
    requires 1 <= size <= 127
    ensures VerdictOn(ShortRule, s, [0xFE]) == PrefixMatched
    ensures VerdictOn(ShortRule, s, [0xFE, size]) == PrefixCompleted(size as nat)
  {
    var line := [0xFE, size];
    assert line[..1] == [0xFE] && line[..1][..0] == [];
    ShortCompletesExactly(s, line, size as nat);
  }

  // --- the +IPD rule --------------------------------------------------------------------------------------------

  /** Byte i of the stream completes a +IPD prefix whose length is minus a number from 1 to most. */
  predicate AnnouncesMinus(f: Framing<Esp>, mode: Mode, stream: seq<byte>, i: nat, most: nat)
    requires i < |stream|
  {
    var before := After(f, mode, stream[..i]);
    && before.InLine?
    && var line := before.line + [stream[i]];
       VerdictOn(f.rule, f.initial, line).PrefixCompleted? && IsMinus(Cut(LengthField(line)), most)
  }

  /** With this rule a stream makes the sum wrap exactly if it announces minus a number up to the buffer's size. */
  lemma EspOverlongExactly(f: Framing<Esp>, mode: Mode, stream: seq<byte>, bufferSize: nat)
    requires f.rule == EspRule && bufferSize < HALF && f.limit == WRAP - bufferSize && !mode.Overlong?
    ensures After(f, mode, stream).Overlong? <==>
            exists i: nat :: i < |stream| && AnnouncesMinus(f, mode, stream, i, bufferSize)
  {
    hide After;
    OverlongExactly(f, mode, stream);
    forall i: nat | i < |stream|
      ensures AnnouncesLimit(f, mode, stream, i) == AnnouncesMinus(f, mode, stream, i, bufferSize)
    {
      var before := After(f, mode, stream[..i]);
      if before.InLine? && VerdictOn(f.rule, f.initial, before.line + [stream[i]]).PrefixCompleted? {
        EspAnnouncesNearTop(f.initial, before.line + [stream[i]], bufferSize);
      }
    }
  }

  /** Independence from chunking for the +IPD rule, for every stream without such a length. */
  method ReceiveEsp(parse: TBParse<Esp>, chunks: seq<seq<byte>>) returns (messages: seq<Message>)
    requires Drained(parse) && parse.rule == EspRule && !parse.ToCome().end.Overlong?
    requires NoTruncation(parse.Framed(), parse.buffer.Length, parse.ToCome().end, chunks)
    requires forall i: nat :: i < |Concat(chunks)| ==>
               !AnnouncesMinus(parse.Framed(), parse.ToCome().end, Concat(chunks), i, parse.buffer.Length)
    modifies parse, parse.buffer
    ensures Drained(parse)
    ensures messages == Decode(parse.Framed(), old(parse.ToCome().end), Concat(chunks))
    ensures parse.ToCome().end == After(parse.Framed(), old(parse.ToCome().end), Concat(chunks))
  {
    hide After, Decode, AnnouncesMinus;
    EspOverlongExactly(parse.Framed(), parse.ToCome().end, Concat(chunks), parse.buffer.Length);
    messages := Receive(parse, chunks);
  }

  /** While its prefix is not complete, a line that begins with +IPD, goes on, whatever its bytes are. */
  lemma EspLineGoesOn(f: Framing<Esp>, line: seq<byte>)
    requires f.rule == EspRule && NoneComplete(f.initial, line) && (line <= ESP_PREFIX || ESP_PREFIX <= line)
    ensures LineSoFar(f, line)
  {
    hide VerdictOn, EspRule, LineSoFar;
    forall k | 0 < k <= |line|
      ensures Continues(f, line[..k])
    {
      EspMatchedExactly(f.initial, line[..k]);
      if k <= 5 {
        assert line[k - 1] == ESP_PREFIX[k - 1];
      }
    }
    LineGoesOn(f, line);
  }

  /** A line of the +IPD form announces a packet, of the size in its length field, and gives nothing else. */
  lemma EspLineAnnounces(f: Framing<Esp>, line: seq<byte>, link: seq<byte>, field: seq<byte>, tail: seq<byte>)
    requires f.rule == EspRule && EspForm(line, link, field, tail)
    ensures After(f, InLine([]), line) == Announced(f, Atoi(Cut(field)))
    ensures Atoi(Cut(field)) > 0 ==> Decode(f, InLine([]), line) == []
  {
    var before := line[..|line| - 1];
    assert line == before + [COLON] && ESP_PREFIX <= before;
    EspFormCompletes(f.initial, line, link, field, tail);
    hide After, Decode, StateAfter, EspRule, VerdictOn, NoneComplete, Cut, Atoi;
    EspLineGoesOn(f, before);
    LineByte(f, InLine([]), before, before, COLON);
  }

  /** A packet sent behind +IPD,<link ID>,<len>: or with an address before the colon arrives, whatever its bytes are. */
  lemma EspPacketArrives(f: Framing<Esp>, link: seq<byte>, tail: seq<byte>, data: seq<byte>, rest: seq<byte>)
    requires f.rule == EspRule && COMMA !in link && COLON !in tail && (tail != [] ==> tail[0] == COMMA)
    requires 0 < |data| < 10000000 && |data| < f.limit
    ensures var line := ESP_PREFIX + link + [COMMA] + Decimal(|data|) + tail + [COLON];
            && After(f, InLine([]), line + data + rest) == After(f, InLine([]), rest)
            && Decode(f, InLine([]), line + data + rest) == [Packet(data)] + Decode(f, InLine([]), rest)
  {
    hide After, Decode, StateAfter, EspRule, VerdictOn, NoneComplete, Cut, Atoi, Decimal;
    var line := ESP_PREFIX + link + [COMMA] + Decimal(|data|) + tail + [COLON];
    DecimalIsField(link, |data|, tail);
    EspLineAnnounces(f, line, link, Decimal(|data|), tail);
    PacketGiven(f, InLine([]), line, data, []);
    assert line + data + [] == line + data && (line + data)[..|line| + |data|] == line + data;
    DecodeConcat(f, InLine([]), line + data, rest);
  }

  /** +IPD,0,-11: */
  const MINUS_ELEVEN: seq<byte> := [43, 73, 80, 68, 44, 48, 44, 45, 49, 49, 58]

  /** An input at which the sum wraps: the length -11. */
  lemma MinusElevenWraps(f: Framing<Esp>)
    requires f.rule == EspRule && 11 <= WRAP - f.limit
    ensures After(f, InLine([]), MINUS_ELEVEN) == Overlong(WRAP - 11, []) && Decode(f, InLine([]), MINUS_ELEVEN) == []
  {
    hide After, Decode, StateAfter, LineSoFar, Atoi;
    AtoiMinusEleven();
    EspLineAnnounces(f, MINUS_ELEVEN, [48], [45, 49, 49], []);
  }

  lemma AtoiMinusEleven()
    ensures Atoi([45, 49, 49]) == WRAP - 11
  {
    assert Digits([49], 1) == Digits([], 11) == 11;
    assert Digits([49, 49], 0) == 11;
  }

  /**
    There the parser hands out a message of almost 4 GB, which begins where the buffer's bytes end, and is then just
    as it was: taking messages until there is none would never end.
   */
  method MinusElevenNeverEnds(parse: TBParse<Esp>) returns (message: TBMessage)
    requires parse.Valid() && parse.rule == EspRule && parse.binMessageSize == 0
    requires parse.bufferPos == 0 && parse.Unread() == MINUS_ELEVEN
    modifies parse, parse.buffer
    ensures message == TBMessage(Some(11), WRAP - 11, false)
    ensures parse.Valid() && parse.binMessageSize == 0 && parse.bufferPos == 0 && parse.Unread() == MINUS_ELEVEN
  {
    hide After, Decode, Resets;
    MinusElevenWraps(parse.Framed());
    ghost var before := parse.buffer[..];
    message := parse.NextMessage();
    forall i | 0 <= i < 11 ensures parse.Unread()[i] == MINUS_ELEVEN[i] {
      assert before[i] == before[0..11][i] == MINUS_ELEVEN[i];
    }
  }
}
