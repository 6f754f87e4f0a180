/**
  py/balmer_term.py: the sending side, write_text and write_bin, and the round trip through the line parser
  with the standard prefix.
 */
module Terminal {
  import opened Bytes
  import opened PrefixParsers
  import opened LineParser

  /** write_text: the text and a line feed. write_bin: 0x00 0x01, the length with the low byte first, the data. */
  function Encode(message: Message): seq<byte>
    requires Sendable(message)
  {
    match message
    case Line(text) => text + [LF]
    case Packet(data) =>
      if data == [] then [] else [0, 1, (|data| % 256) as byte, (|data| / 256) as byte] + data
  }

  /** Two messages on the wire, written out. */
  lemma OnTheWire()
    ensures Encode(Line([104, 105])) == [104, 105, 10]
    ensures Encode(Packet([7, 8])) == [0, 1, 2, 0, 7, 8]
  {
  }

  lemma EmptyPrefixIndex(s: Standard)
    ensures Index(s, [0]) == 1 && Index(s, [0, 1]) == 2 && Index(s, [0, 1, 0]) == 3
    ensures VerdictOn(StandardRule, s, [0, 1, 0, 0]).PrefixCompleted?
  {
    hide StandardRule, StateAfter;
    IndexStep(s, [], 0);
    IndexStep(s, [0], 1);
    IndexStep(s, [0, 1], 0);
    IndexStep(s, [0, 1, 0], 0);
    assert [] + [0 as byte] == [0] && [0] + [1 as byte] == [0, 1] && [0, 1] + [0] == [0, 1, 0];
    assert [0, 1, 0] + [0] == [0, 1, 0, 0];
  }

  lemma EmptyPrefixGoesOn(f: Framing<Standard>)
    requires IsStandard(f)
    ensures LineSoFar(f, [0, 1, 0])
  {
    hide LineSoFar, StandardRule, StateAfter;
    EmptyPrefixIndex(f.initial);
    var line: seq<byte> := [0, 1, 0];
    forall k | 0 < k <= 3
      ensures Continues(f, line[..k])
    {
      IndexStep(f.initial, line[..k - 1], line[k - 1]);
      assert line[..k - 1] + [line[k - 1]] == line[..k];
      assert line[..1] == [0] && line[..2] == [0, 1] && line[..3] == line;
      hide Index;
    }
    LineGoesOn(f, line);
  }

  /** A binary prefix of length 0 gives an empty packet at once. */
  lemma EmptyPacketArrives(f: Framing<Standard>)
    requires IsStandard(f)
    ensures After(f, InLine([]), [0, 1, 0, 0]) == InLine([]) && Decode(f, InLine([]), [0, 1, 0, 0]) == [Packet([])]
  {
    hide After, Decode, VerdictOn, StandardRule, StateAfter;
    var line: seq<byte> := [0, 1, 0];
    EmptyPrefixGoesOn(f);
    EmptyPrefixIndex(f.initial);
    LineByte(f, InLine([]), line, line, 0);
    assert line + [0] == [0, 1, 0, 0];
    StandardSize(f.initial, [0, 1, 0, 0]);
  }

  /** What write_bin asserts; a text may be anything. */
  predicate Sendable(message: Message) {
    message.Packet? ==> |message.data| <= 0xFFFF
  }

  function EncodeAll(messages: seq<Message>): seq<byte>
    requires forall i :: 0 <= i < |messages| ==> Sendable(messages[i])
  {
    if messages == [] then [] else Encode(messages[0]) + EncodeAll(messages[1..])
  }

  /** Inside the text, a NUL that opens a prefix is followed by the 1 that goes on with it. */
  predicate Marked(text: seq<byte>, inMark: bool) {
    text != [] && (if inMark && text[0] == 1 then true else Marked(text[1..], !inMark && text[0] == 0))
  }

  predicate HasLineEnd(text: seq<byte>) {
    CR in text || LF in text
  }

  /** The texts that arrive as one line: not empty, no line end inside, no binary prefix inside. */
  predicate Plain(text: seq<byte>) {
    text != [] && !HasLineEnd(text) && !Marked(text, false)
  }

  /** A text without NUL, such as UTF-8 gives for a text without U+0000, has no prefix inside. */
  lemma {:induction false} NoNulNoMark(text: seq<byte>)
    requires 0 !in text
    ensures !Marked(text, false)
  {
    if text != [] {
      assert text[0] in text;
      NoNulNoMark(text[1..]);
    }
  }

  /** The standard rule, in a parser whose buffer is below 2 GB. */
  ghost predicate IsStandard(f: Framing<Standard>) {
    f.rule == StandardRule && f.limit > 0xFFFF
  }

  // --- what the standard rule does inside a line ---------------------------------------------------------

  function Index(s: Standard, line: seq<byte>): nat {
    if line == [] then 0 else StateAfter(StandardRule, s, line).foundIdx
  }

  /** One byte on: the index and the verdict follow from the index before it. */
  lemma IndexStep(s: Standard, line: seq<byte>, c: byte)
    ensures var i := Index(s, line);
            && i <= 3
            && Index(s, line + [c]) == (if i == 0 then (if c == 0 then 1 else 0)
                                        else if i == 1 then (if c == 1 then 2 else 0)
                                        else if i == 2 then 3 else 0)
            && (VerdictOn(StandardRule, s, line + [c]).PrefixCompleted? <==> i == 3)
            && (VerdictOn(StandardRule, s, line + [c]).NotMatched? <==> i <= 1 && Index(s, line + [c]) == 0)
  {
    assert (line + [c])[..|line|] == line;
    if line != [] {
      StandardAgrees(s, s, line);
    }
  }

  /** A byte that ends neither the line nor a prefix joins the line. */
  lemma ByteJoinsLine(f: Framing<Standard>, line: seq<byte>, c: byte)
    requires IsStandard(f)
    requires Index(f.initial, line) <= 2 && (Index(f.initial, line + [c]) != 0 || (c != CR && c != LF))
    ensures After(f, InLine(line), [c]) == InLine(line + [c])
    ensures Decode(f, InLine(line), [c]) == []
  {
    IndexStep(f.initial, line, c);
    Streams.OneByte(Machine(f), InLine(line), c);
  }

  lemma EndsLine(f: Framing<Standard>, line: seq<byte>, c: byte)
    requires IsStandard(f)
    requires Index(f.initial, line) <= 1 && (c == CR || c == LF)
    ensures After(f, InLine(line), [c]) == InLine([])
    ensures Decode(f, InLine(line), [c]) == if line == [] then [] else [Line(line)]
  {
    IndexStep(f.initial, line, c);
    Streams.OneByte(Machine(f), InLine(line), c);
  }

  /** The next byte of a plain text joins the line, and the rest goes on being plain. */
  lemma TextByte(f: Framing<Standard>, line: seq<byte>, text: seq<byte>)
    requires IsStandard(f) && text != []
    requires Index(f.initial, line) <= 1 && !HasLineEnd(text) && !Marked(text, Index(f.initial, line) == 1)
    ensures After(f, InLine(line), text[..1]) == InLine(line + text[..1]) && Decode(f, InLine(line), text[..1]) == []
    ensures var i := Index(f.initial, line + text[..1]);
            i <= 1 && !HasLineEnd(text[1..]) && !Marked(text[1..], i == 1)
  {
    hide After, Decode;
    var c := text[0];
    assert text[..1] == [c] && c in text && forall b :: b in text[1..] ==> b in text;
    IndexStep(f.initial, line, c);
    ByteJoinsLine(f, line, c);
  }

  /** The rest of a plain text, with its line feed, ends the line it belongs to. */
  lemma {:induction false} TextEndsLine(f: Framing<Standard>, line: seq<byte>, text: seq<byte>)
    requires IsStandard(f) && line + text != []
    requires Index(f.initial, line) <= 1 && !HasLineEnd(text) && !Marked(text, Index(f.initial, line) == 1)
    ensures After(f, InLine(line), text + [LF]) == InLine([])
    ensures Decode(f, InLine(line), text + [LF]) == [Line(line + text)]
    decreases |text|
  {
    if text == [] {
      assert text + [LF] == [LF] && line + text == line;
      EndsLine(f, line, LF);
    } else {
      hide After, Decode, Index, Marked, HasLineEnd;
      TextByte(f, line, text);
      DecodeConcat(f, InLine(line), text[..1], text[1..] + [LF]);
      assert text[..1] + (text[1..] + [LF]) == text + [LF];
      assert line + text[..1] + text[1..] == line + text;
      TextEndsLine(f, line + text[..1], text[1..]);
    }
  }

  /** Four bytes of header, then the data, whatever it is. */
  lemma PacketArrives(f: Framing<Standard>, data: seq<byte>)
    requires IsStandard(f)
    requires 0 < |data| <= 0xFFFF
    ensures After(f, InLine([]), Encode(Packet(data))) == InLine([])
    ensures Decode(f, InLine([]), Encode(Packet(data))) == [Packet(data)]
  {
    var lo, hi := (|data| % 256) as byte, (|data| / 256) as byte;
    var line := [0, 1, lo, hi];
    HeaderLine(f.initial, lo, hi);
    HeaderOpensPacket(f, lo, hi);
    DecodeConcat(f, InLine([]), line, data);
    PacketEnds(f, |data|, [], data);
    assert [] + data[..|data|] == data && data[|data|..] == [];
  }

  lemma HeaderLine(s: Standard, lo: byte, hi: byte)
    ensures Index(s, [0]) == 1 && Index(s, [0, 1]) == 2 && Index(s, [0, 1, lo]) == 3
    ensures VerdictOn(StandardRule, s, [0, 1, lo, hi]) == PrefixCompleted(lo as nat + 256 * hi as nat)
  {
    IndexStep(s, [], 0);
    IndexStep(s, [0], 1);
    IndexStep(s, [0, 1], lo);
    IndexStep(s, [0, 1, lo], hi);
    assert [] + [0 as byte] == [0] && [0 as byte] + [1] == [0, 1] && [0, 1] + [lo] == [0, 1, lo]
      && [0, 1, lo] + [hi] == [0, 1, lo, hi];
    StandardSize(s, [0, 1, lo, hi]);
  }

  lemma HeaderOpensPacket(f: Framing<Standard>, lo: byte, hi: byte)
    requires IsStandard(f) && lo as nat + 256 * hi as nat > 0
    ensures After(f, InLine([]), [0, 1, lo, hi]) == InPacket(lo as nat + 256 * hi as nat, [])
    ensures Decode(f, InLine([]), [0, 1, lo, hi]) == []
  {
    hide After, Decode, Machine;
    assert [] + [0 as byte] == [0];
    HeaderLine(f.initial, lo, hi);
    ByteJoinsLine(f, [], 0);
    ByteJoinsLine(f, [0], 1);
    ByteJoinsLine(f, [0, 1], lo);
    DecodeConcat(f, InLine([]), [0], [1]);
    DecodeConcat(f, InLine([]), [0, 1], [lo]);
    DecodeConcat(f, InLine([]), [0, 1, lo], [hi]);
    assert [0 as byte] + [1] == [0, 1] && [0, 1] + [lo] == [0, 1, lo] && [0, 1, lo] + [hi] == [0, 1, lo, hi];
    HeaderCompletes(f, lo, hi);
  }

  lemma HeaderCompletes(f: Framing<Standard>, lo: byte, hi: byte)
    requires IsStandard(f) && lo as nat + 256 * hi as nat > 0
    ensures After(f, InLine([0, 1, lo]), [hi]) == InPacket(lo as nat + 256 * hi as nat, [])
    ensures Decode(f, InLine([0, 1, lo]), [hi]) == []
  {
    HeaderLine(f.initial, lo, hi);
    assert [0, 1, lo] + [hi] == [0, 1, lo, hi];
    Streams.OneByte(Machine(f), InLine([0, 1, lo]), hi);
  }

  // --- the round trip -----------------------------------------------------------------------------------

  /** Empty texts and empty packets are not seen by the receiver. */
  function Kept(message: Message): seq<Message> {
    if message == Line([]) || message == Packet([]) then [] else [message]
  }

  function NonEmpty(messages: seq<Message>): seq<Message> {
    if messages == [] then [] else Kept(messages[0]) + NonEmpty(messages[1..])
  }

  predicate Arrives(message: Message) {
    message.Line? ==> message.text == [] || Plain(message.text)
  }

  lemma MessageArrives(f: Framing<Standard>, message: Message)
    requires IsStandard(f)
    requires Sendable(message) && Arrives(message)
    ensures After(f, InLine([]), Encode(message)) == InLine([])
    ensures Decode(f, InLine([]), Encode(message)) == Kept(message)
  {
    match message
    case Packet(data) =>
      if data != [] {
        PacketArrives(f, data);
      }
    case Line(text) =>
      if text == [] {
        assert text + [LF] == [LF];
        EndsLine(f, [], LF);
      } else {
        assert [] + text == text;
        TextEndsLine(f, [], text);
      }
  }

  /** Whatever plain texts and packets are sent, the stream means exactly those messages, kinds and order kept. */
  lemma {:induction false} RoundTrip(f: Framing<Standard>, messages: seq<Message>)
    requires IsStandard(f)
    requires forall i :: 0 <= i < |messages| ==> Sendable(messages[i]) && Arrives(messages[i])
    ensures After(f, InLine([]), EncodeAll(messages)) == InLine([])
    ensures Decode(f, InLine([]), EncodeAll(messages)) == NonEmpty(messages)
    decreases |messages|
  {
    if messages != [] {
      hide After, Decode, Encode;
      MessageArrives(f, messages[0]);
      RoundTrip(f, messages[1..]);
      DecodeConcat(f, InLine([]), Encode(messages[0]), EncodeAll(messages[1..]));
    }
  }

  // --- exactly which texts arrive -------------------------------------------------------------------------

  predicate LinesBelow(messages: seq<Message>, n: nat) {
    forall i :: 0 <= i < |messages| && messages[i].Line? ==> |messages[i].text| < n
  }

  lemma ByteFits(f: Framing<Standard>, mode: Mode, c: byte)
    ensures LinesBelow(Feed(f, mode, c).1, |Retained(mode)| + 1)
    ensures |Retained(Feed(f, mode, c).0)| <= |Retained(mode)| + 1
  {
  }

  /** No line longer than the bytes that come before its line end. */
  lemma {:induction false} LinesFit(f: Framing<Standard>, mode: Mode, stream: seq<byte>)
    ensures LinesBelow(Decode(f, mode, stream), |Retained(mode)| + |stream|)
    decreases |stream|
  {
    if stream == [] {
      DecodeNothing(f, mode);
    } else {
      hide After, Decode, Feed;
      var c := stream[0];
      assert stream == [c] + stream[1..];
      DecodeConcat(f, mode, [c], stream[1..]);
      DecodeByte(f, mode, c);
      ByteFits(f, mode, c);
      LinesFit(f, Feed(f, mode, c).0, stream[1..]);
    }
  }

  /** After a marker, the next message is a packet, and without one the line stays open. */
  lemma {:induction false} MarkerOpensPacket(f: Framing<Standard>, line: seq<byte>, stream: seq<byte>)
    requires IsStandard(f)
    requires 2 <= Index(f.initial, line) <= 3
    ensures var messages := Decode(f, InLine(line), stream);
            if messages == [] then After(f, InLine(line), stream) != InLine([]) else messages[0].Packet?
    decreases |stream|
  {
    if stream != [] {
      var c := stream[0];
      assert stream == [c] + stream[1..];
      DecodeConcat(f, InLine(line), [c], stream[1..]);
      Streams.OneByte(Machine(f), InLine(line), c);
      IndexStep(f.initial, line, c);
      if Index(f.initial, line) == 2 {
        MarkerOpensPacket(f, line + [c], stream[1..]);
      } else {
        var size := VerdictOn(StandardRule, f.initial, line + [c]).packetSize;
        StandardSize(f.initial, line + [c]);
        if size > 0 {
          OpenPacketComesFirst(f, size, stream[1..]);
        }
      }
    }
  }

  lemma OpenPacketComesFirst(f: Framing<Standard>, size: nat, stream: seq<byte>)
    requires IsStandard(f)
    requires size > 0
    ensures var messages := Decode(f, InPacket(size, []), stream);
            if messages == [] then After(f, InPacket(size, []), stream) != InLine([]) else messages[0].Packet?
  {
    if |stream| < size {
      PacketWaits(f, size, [], stream);
    } else {
      PacketEnds(f, size, [], stream);
    }
  }

  /** A text with a line end or a prefix in it does not arrive as the line it is part of. */
  lemma {:induction false} UnplainIsSplit(f: Framing<Standard>, line: seq<byte>, text: seq<byte>)
    requires IsStandard(f)
    requires Index(f.initial, line) <= 1
    requires HasLineEnd(text) || Marked(text, Index(f.initial, line) == 1)
    ensures !(After(f, InLine(line), text + [LF]) == InLine([])
              && Decode(f, InLine(line), text + [LF]) == [Line(line + text)])
    decreases |text|
  {
    hide After, Decode;
    var c, rest := text[0], text[1..] + [LF];
    assert text + [LF] == [c] + rest;
    DecodeConcat(f, InLine(line), [c], rest);
    IndexStep(f.initial, line, c);
    if Index(f.initial, line + [c]) == 2 {
      ByteJoinsLine(f, line, c);
      MarkerOpensPacket(f, line + [c], rest);
      var messages := Decode(f, InLine(line), text + [LF]);
      assert messages == Decode(f, InLine(line + [c]), rest);
      assert messages != [] ==> messages[0].Packet?;
    } else if c == CR || c == LF {
      EndsLine(f, line, c);
      LinesFit(f, InLine([]), rest);
      var messages := Decode(f, InLine(line), text + [LF]);
      assert line != [] ==> messages[0] == Line(line) && |line + text| > |line|;
      assert line == [] ==> messages == Decode(f, InLine([]), rest) && |line + text| == |rest|;
      assert messages != [] && messages[0].Line? ==> |messages[0].text| < |line + text|;
    } else {
      ByteJoinsLine(f, line, c);
      assert line + [c] + text[1..] == line + text;
      UnplainIsSplit(f, line + [c], text[1..]);
    }
  }

  /** A non-empty text sent with write_text arrives as that one line exactly when it is plain. */
  lemma ExactlyPlainTextsArrive(f: Framing<Standard>, text: seq<byte>)
    requires IsStandard(f)
    requires text != []
    ensures Plain(text) <==>
              && After(f, InLine([]), Encode(Line(text))) == InLine([])
              && Decode(f, InLine([]), Encode(Line(text))) == [Line(text)]
  {
    assert [] + text == text;
    if Plain(text) {
      TextEndsLine(f, [], text);
    } else {
      UnplainIsSplit(f, [], text);
    }
  }

  // --- room for the next append -----------------------------------------------------------------------------

  /** A text is shorter than the buffer, a packet no longer than it. */
  predicate Fits(message: Message, bufferSize: nat) {
    match message
    case Line(text) => |text| < bufferSize
    case Packet(data) => |data| <= bufferSize
  }

  /** The first bytes of a plain text wait for the rest. */
  lemma {:induction false} TextWaits(f: Framing<Standard>, line: seq<byte>, text: seq<byte>, n: nat)
    requires IsStandard(f) && n <= |text|
    requires Index(f.initial, line) <= 1 && !HasLineEnd(text) && !Marked(text, Index(f.initial, line) == 1)
    ensures After(f, InLine(line), text[..n]) == InLine(line + text[..n])
    ensures Decode(f, InLine(line), text[..n]) == []
    decreases n
  {
    hide After, Decode, Index, Marked, HasLineEnd;
    if n == 0 {
      DecodeNothing(f, InLine(line));
      assert text[..0] == [] && line + [] == line;
    } else {
      TextByte(f, line, text);
      DecodeConcat(f, InLine(line), text[..1], text[1..][..n - 1]);
      assert text[..1] + text[1..][..n - 1] == text[..n];
      assert line + text[..1] + text[1..][..n - 1] == line + text[..n];
      TextWaits(f, line + text[..1], text[1..], n - 1);
    }
  }

  lemma HeaderWaits(f: Framing<Standard>, lo: byte, hi: byte, n: nat)
    requires IsStandard(f) && n <= 3
    ensures After(f, InLine([]), [0, 1, lo, hi][..n]) == InLine([0, 1, lo, hi][..n])
  {
    hide After, Decode;
    var header := [0, 1, lo, hi];
    assert header[..0] == [] && header[..1] == [0] && header[..2] == [0, 1] && header[..3] == [0, 1, lo];
    assert [] + [0 as byte] == [0] && [0 as byte] + [1] == [0, 1] && [0, 1] + [lo] == [0, 1, lo];
    HeaderLine(f.initial, lo, hi);
    DecodeNothing(f, InLine([]));
    ByteJoinsLine(f, [], 0);
    ByteJoinsLine(f, [0], 1);
    ByteJoinsLine(f, [0, 1], lo);
    DecodeConcat(f, InLine([]), [0], [1]);
    DecodeConcat(f, InLine([]), [0, 1], [lo]);
  }

  /** The first bytes of a packet: part of its header, or the header and part of the data. */
  lemma PacketWaitsFor(f: Framing<Standard>, data: seq<byte>, n: nat)
    requires IsStandard(f) && 0 < |data| <= 0xFFFF && n < 4 + |data|
    ensures After(f, InLine([]), Encode(Packet(data))[..n])
         == if n < 4 then InLine(Encode(Packet(data))[..n]) else InPacket(|data|, data[..n - 4])
  {
    hide After, Decode;
    var lo, hi := (|data| % 256) as byte, (|data| / 256) as byte;
    var header := [0, 1, lo, hi];
    if n < 4 {
      HeaderWaits(f, lo, hi, n);
      assert Encode(Packet(data))[..n] == header[..n];
    } else {
      HeaderOpensPacket(f, lo, hi);
      DecodeConcat(f, InLine([]), header, data[..n - 4]);
      PacketWaits(f, |data|, [], data[..n - 4]);
      assert [] + data[..n - 4] == data[..n - 4];
      assert Encode(Packet(data))[..n] == header + data[..n - 4];
    }
  }

  /** While a message that fits is under way, less than a bufferful waits. */
  lemma MessageLeavesRoom(f: Framing<Standard>, message: Message, n: nat, bufferSize: nat)
    requires IsStandard(f) && Sendable(message) && Arrives(message) && n <= |Encode(message)|
    requires Fits(message, bufferSize) && bufferSize >= 4
    ensures |Retained(After(f, InLine([]), Encode(message)[..n]))| < bufferSize
  {
    hide After, Decode;
    if n == |Encode(message)| {
      MessageArrives(f, message);
      assert Encode(message)[..n] == Encode(message);
    } else {
      match message
      case Line(text) =>
        TextWaits(f, [], text, n);
        assert Encode(message)[..n] == text[..n] && [] + text[..n] == text[..n];
      case Packet(data) =>
        PacketWaitsFor(f, data, n);
    }
  }

  /** A message that does not fit: after some of its bytes a whole bufferful waits. */
  lemma MessageFillsBuffer(f: Framing<Standard>, message: Message, bufferSize: nat) returns (n: nat)
    requires IsStandard(f) && Sendable(message) && Arrives(message)
    requires !Fits(message, bufferSize) && bufferSize >= 4
    ensures n <= |Encode(message)| && |Retained(After(f, InLine([]), Encode(message)[..n]))| == bufferSize
  {
    hide After, Decode;
    match message
    case Line(text) =>
      n := bufferSize;
      TextWaits(f, [], text, n);
      assert Encode(message)[..n] == text[..n] && [] + text[..n] == text[..n];
    case Packet(data) =>
      n := bufferSize + 4;
      PacketWaitsFor(f, data, n);
  }

  /** At every point of the stream of messages that fit, there is room for another byte. */
  lemma {:induction false} MessagesLeaveRoom(f: Framing<Standard>, messages: seq<Message>, n: nat, bufferSize: nat)
    requires IsStandard(f) && bufferSize >= 4
    requires forall i :: 0 <= i < |messages| ==>
               Sendable(messages[i]) && Arrives(messages[i]) && Fits(messages[i], bufferSize)
    requires n <= |EncodeAll(messages)|
    ensures |Retained(After(f, InLine([]), EncodeAll(messages)[..n]))| < bufferSize
    decreases |messages|
  {
    if messages == [] {
      DecodeNothing(f, InLine([]));
      return;
    }
    hide After, Decode, Encode, Retained, Arrives, Fits, IsStandard;
    var first, rest := Encode(messages[0]), EncodeAll(messages[1..]);
    if n <= |first| {
      MessageLeavesRoom(f, messages[0], n, bufferSize);
      assert (first + rest)[..n] == first[..n];
    } else {
      MessageArrives(f, messages[0]);
      DecodeConcat(f, InLine([]), first, rest[..n - |first|]);
      assert (first + rest)[..n] == first + rest[..n - |first|];
      MessagesLeaveRoom(f, messages[1..], n - |first|, bufferSize);
    }
  }

  /** And only then: a message that does not fit leaves no room at some point. */
  lemma {:induction false} SomeMessageFillsBuffer(f: Framing<Standard>, messages: seq<Message>, i: nat, bufferSize: nat)
    returns (n: nat)
    requires IsStandard(f) && bufferSize >= 4
    requires forall i :: 0 <= i < |messages| ==> Sendable(messages[i]) && Arrives(messages[i])
    requires i < |messages| && !Fits(messages[i], bufferSize)
    ensures n <= |EncodeAll(messages)|
    ensures |Retained(After(f, InLine([]), EncodeAll(messages)[..n]))| == bufferSize
    decreases |messages|
  {
    hide After, Decode, Encode;
    var first, rest := Encode(messages[0]), EncodeAll(messages[1..]);
    if i == 0 {
      n := MessageFillsBuffer(f, messages[0], bufferSize);
      assert (first + rest)[..n] == first[..n];
    } else {
      var m := SomeMessageFillsBuffer(f, messages[1..], i - 1, bufferSize);
      n := |first| + m;
      MessageArrives(f, messages[0]);
      DecodeConcat(f, InLine([]), first, rest[..m]);
      assert (first + rest)[..n] == first + rest[..m];
    }
  }

  /** Room for the next append is left at every point of the stream exactly if every message fits. */
  lemma RoomExactly(f: Framing<Standard>, messages: seq<Message>, bufferSize: nat)
    requires IsStandard(f) && bufferSize >= 4
    requires forall i :: 0 <= i < |messages| ==> Sendable(messages[i]) && Arrives(messages[i])
    ensures (forall i :: 0 <= i < |messages| ==> Fits(messages[i], bufferSize)) <==>
            forall n: nat :: n <= |EncodeAll(messages)| ==>
              |Retained(After(f, InLine([]), EncodeAll(messages)[..n]))| < bufferSize
  {
    hide After, Decode, Encode, EncodeAll;
    if i :| 0 <= i < |messages| && !Fits(messages[i], bufferSize) {
      var n := SomeMessageFillsBuffer(f, messages, i, bufferSize);
    } else {
      forall n: nat | n <= |EncodeAll(messages)|
        ensures |Retained(After(f, InLine([]), EncodeAll(messages)[..n]))| < bufferSize
      {
        MessagesLeaveRoom(f, messages, n, bufferSize);
      }
    }
  }

  // --- end to end --------------------------------------------------------------------------------------------

  /** However the bytes of the sent messages are split, a drained parser gives back just them. */
  method ReceiveSent(parse: TBParse<Standard>, messages: seq<Message>, chunks: seq<seq<byte>>)
    returns (received: seq<Message>)
    requires Drained(parse) && parse.rule == StandardRule && parse.ToCome().end == InLine([])
    requires forall i :: 0 <= i < |messages| ==> Sendable(messages[i]) && Arrives(messages[i])
    requires Concat(chunks) == EncodeAll(messages)
    requires NoTruncation(parse.Framed(), parse.buffer.Length, InLine([]), chunks)
    modifies parse, parse.buffer
    ensures Drained(parse) && parse.ToCome().end == InLine([])
    ensures received == NonEmpty(messages)
  {
    RoundTrip(parse.Framed(), messages);
    received := Receive(parse, chunks);
  }

  /**
    Progress: messages that fit get through in pieces of any size within the room that the drain before has left,
    and there always is some. wanted says how long a piece would best be.
   */
  method SendInPieces(parse: TBParse<Standard>, messages: seq<Message>, wanted: nat -> nat)
    returns (received: seq<Message>)
    requires Drained(parse) && parse.rule == StandardRule && parse.ToCome().end == InLine([])
    requires parse.buffer.Length >= 4
    requires forall i :: 0 <= i < |messages| ==>
               Sendable(messages[i]) && Arrives(messages[i]) && Fits(messages[i], parse.buffer.Length)
    modifies parse, parse.buffer
    ensures Drained(parse) && parse.ToCome().end == InLine([])
    ensures received == NonEmpty(messages)
  {
    hide After, Decode, Encode, EncodeAll, NonEmpty, Resets;
    ghost var f := parse.Framed();
    var stream, sent := EncodeAll(messages), 0;
    received := [];
    RoundTrip(f, messages);
    DecodeNothing(f, InLine([]));
    assert stream[..0] == [];
    while sent < |stream|
      invariant sent <= |stream| && Drained(parse)
      invariant parse.ToCome().end == After(f, InLine([]), stream[..sent])
      invariant received == Decode(f, InLine([]), stream[..sent])
    {
      MessagesLeaveRoom(f, messages, sent, parse.buffer.Length);
      var room := parse.buffer.Length - parse.bufferAmount;
      var n := Min(Min(1 + wanted(sent), room), |stream| - sent);
      var piece := stream[sent..sent + n];
      PieceIsShort(f, stream, sent, n);
      var more := ReceiveChunk(parse, piece);
      received := received + more;
      sent := sent + n;
    }
    assert stream[..sent] == stream;
  }

  lemma PieceIsShort(f: Framing<Standard>, stream: seq<byte>, sent: nat, n: nat)
    requires f.rule == StandardRule && f.limit >= HALF && sent + n <= |stream|
    ensures var piece := stream[sent..sent + n];
            && After(f, InLine([]), stream[..sent + n]) == After(f, After(f, InLine([]), stream[..sent]), piece)
            && Decode(f, InLine([]), stream[..sent + n])
               == Decode(f, InLine([]), stream[..sent]) + Decode(f, After(f, InLine([]), stream[..sent]), piece)
            && !After(f, InLine([]), stream[..sent + n]).Overlong?
  {
    hide After, Decode;
    assert stream[..sent + n] == stream[..sent] + stream[sent..sent + n];
    DecodeConcat(f, InLine([]), stream[..sent], stream[sent..sent + n]);
    RulesAreNeverHuge();
    NeverOverlong(f, InLine([]), stream[..sent + n]);
  }

  // --- where packets lie ---------------------------------------------------------------------------------------

  /** The line a, and a packet of one byte x. */
  const LINE_AND_PACKET: seq<byte> := [97, 10, 0, 1, 1, 0, 120]

  lemma LineThenPacket(f: Framing<Standard>)
    requires IsStandard(f)
    ensures FirstEndsAt(f, InLine([]), LINE_AND_PACKET, 2)
    ensures Decode(f, InLine([]), LINE_AND_PACKET) != []
    ensures FirstEndsAt(f, InLine([]), LINE_AND_PACKET[2..], 5)
    ensures Decode(f, InLine([]), LINE_AND_PACKET[2..]) == [Packet([120])]
  {
    hide After, Decode;
    var all, text, data := LINE_AND_PACKET, [97 as byte], [120 as byte];
    assert Plain(text);
    MessageArrives(f, Line(text));
    TextWaits(f, [], text, 1);
    assert all[..2] == text + [LF] == Encode(Line(text)) && all[..1] == text[..1];
    FirstAndRest(f, InLine([]), all, 2);
    PacketArrives(f, data);
    HeaderOpensPacket(f, 1, 0);
    assert all[2..] == Encode(Packet(data)) && all[2..][..5] == all[2..] && all[2..][..4] == [0, 1, 1, 0];
  }

  /**
    Binary data is not aligned: it lies where its prefix ends, and that is anywhere. Here it lies at offset 6.
   */
  method UnalignedPacket(parse: TBParse<Standard>) returns (line: TBMessage, packet: TBMessage)
    requires Drained(parse) && parse.rule == StandardRule && parse.ToCome().end == InLine([])
    requires parse.binMessageSize == 0 && parse.buffer.Length >= 7
    modifies parse, parse.buffer
    ensures line.isText && packet == TBMessage(Some(6), 1, false)
  {
    hide After, Decode, FirstEndsAt, Resets;
    ghost var f := parse.Framed();
    LineThenPacket(f);
    parse.Append(LINE_AND_PACKET);
    assert parse.Unread() == LINE_AND_PACKET;
    line := parse.NextMessage();
    FirstEndsOnce(f, InLine([]), LINE_AND_PACKET, parse.bufferPos, 2);
    OneLine(f);
    packet := PacketNext(parse);
  }

  /** The packet of that stream, once the line has been given out. */
  method PacketNext(parse: TBParse<Standard>) returns (packet: TBMessage)
    requires parse.Valid() && parse.rule == StandardRule && parse.binMessageSize == 0
    requires parse.bufferPos == 2 && parse.Unread() == LINE_AND_PACKET[2..]
    modifies parse, parse.buffer
    ensures packet == TBMessage(Some(6), 1, false)
  {
    hide After, Decode, FirstEndsAt, Resets;
    ghost var f := parse.Framed();
    LineThenPacket(f);
    packet := parse.NextMessage();
    FirstEndsOnce(f, InLine([]), LINE_AND_PACKET[2..], parse.bufferPos - 2, 5);
    assert LINE_AND_PACKET[2..][..5] == LINE_AND_PACKET[2..];
  }

  lemma OneLine(f: Framing<Standard>)
    requires IsStandard(f)
    ensures Decode(f, InLine([]), LINE_AND_PACKET[..2]) == [Line([97])]
  {
    assert LINE_AND_PACKET[..2] == Encode(Line([97]));
    assert Plain([97]);
    MessageArrives(f, Line([97]));
  }
}
