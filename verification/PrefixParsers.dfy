/**
  The binary-prefix parsers: BinPrefixParser and its four kinds, of drivers/TBPipe/TBParse.cpp and .h and
  drivers/stm32_program/stm32_program.cpp.

  A parser is a rule: its state, the next byte and whether that byte is the first of its line give the new
  state and a verdict. The verdict carries PacketSize(), which is valid only when the prefix is complete.
 */
module PrefixParsers {
  import opened Bytes

  type uint32 = x: nat | x < 0x1_0000_0000

  datatype Verdict = NotMatched | PrefixMatched | PrefixCompleted(packetSize: uint32)

  type Rule<!S> = (S, byte, bool) -> (S, Verdict)

  /** The state after the bytes of a line, the first of them announced as such. */
  function StateAfter<S>(rule: Rule<S>, s: S, line: seq<byte>): S {
    if line == [] then s
    else rule(StateAfter(rule, s, line[..|line| - 1]), line[|line| - 1], |line| == 1).0
  }

  /** The verdict on the last byte of a line, from state s before the line. */
  function VerdictOn<S>(rule: Rule<S>, s: S, line: seq<byte>): Verdict
    requires line != []
  {
    rule(StateAfter(rule, s, line[..|line| - 1]), line[|line| - 1], |line| == 1).1
  }

  /** No verdict on this line depends on anything before the line. */
  ghost predicate ResetBy<S(!new)>(rule: Rule<S>, line: seq<byte>) {
    line != [] ==> forall s, s' :: VerdictOn(rule, s, line) == VerdictOn(rule, s', line)
  }

  /** The first byte of a line resets the rule fully. */
  ghost predicate Resets<S(!new)>(rule: Rule<S>) {
    forall line :: ResetBy(rule, line)
  }

  // --- StandartPrefixParser: 0x00 0x01 size_lo size_hi ----------------------------------------------

  datatype Standard = Standard(foundIdx: nat, dataSize: nat)

  function StandardRule(s: Standard, data: byte, isFirst: bool): (r: (Standard, Verdict)) {
    var idx := if isFirst then 0 else s.foundIdx;
    if idx == 3 then
      var size := s.dataSize + (data as nat) * 256;
      (Standard(0, size), PrefixCompleted(Wrap32(size)))
    else
      var s' :=
        if idx == 1 then Standard(if data == 1 then 2 else 0, s.dataSize)
        else if idx == 2 then Standard(3, data as nat)
        else Standard(if data == 0 then 1 else idx, s.dataSize);
      (s', if s'.foundIdx == 0 then NotMatched else PrefixMatched)
  }

  lemma {:induction false} StandardAgrees(s: Standard, s': Standard, line: seq<byte>)
    requires line != []
    ensures VerdictOn(StandardRule, s, line) == VerdictOn(StandardRule, s', line)
    ensures var t, t' := StateAfter(StandardRule, s, line), StateAfter(StandardRule, s', line);
            && t.foundIdx == t'.foundIdx <= 3
            && (t.foundIdx == 3 ==> t.dataSize == t'.dataSize < 256)
    decreases |line|
  {
    if |line| > 1 {
      StandardAgrees(s, s', line[..|line| - 1]);
    }
  }

  lemma StandardResets()
    ensures Resets(StandardRule)
  {
    forall line ensures ResetBy(StandardRule, line) {
      if line != [] {
        forall s, s' ensures VerdictOn(StandardRule, s, line) == VerdictOn(StandardRule, s', line) {
          StandardAgrees(s, s', line);
        }
      }
    }
  }

  /** The size is the two bytes after the marker, low byte first. */
  lemma StandardSize(s: Standard, line: seq<byte>)
    requires line != [] && VerdictOn(StandardRule, s, line).PrefixCompleted?
    ensures |line| >= 4 && line[|line| - 4..|line| - 2] == [0, 1]
    ensures VerdictOn(StandardRule, s, line).packetSize == line[|line| - 2] as nat + 256 * line[|line| - 1] as nat
  {
    var a, b, c := line[..|line| - 1], line[..|line| - 2], line[..|line| - 3];
    assert a[..|a| - 1] == b;
    StandardIndex(s, a);
    StandardIndex(s, b);
    assert b[..|b| - 1] == c;
    StandardIndex(s, c);
  }

  /** What a found index says about the end of the line. */
  lemma StandardIndex(s: Standard, line: seq<byte>)
    requires line != []
    ensures var t := StateAfter(StandardRule, s, line);
            && t.foundIdx <= 3
            && (t.foundIdx == 1 ==> line[|line| - 1] == 0)
            && (t.foundIdx == 2 ==> |line| >= 2 && line[|line| - 1] == 1
                                    && StateAfter(StandardRule, s, line[..|line| - 1]).foundIdx == 1)
            && (t.foundIdx == 3 ==> |line| >= 3 && t.dataSize == line[|line| - 1] as nat
                                    && StateAfter(StandardRule, s, line[..|line| - 1]).foundIdx == 2)
  {
    StandardAgrees(s, s, line);
    if |line| > 1 {
      StandardAgrees(s, s, line[..|line| - 1]);
      if |line| > 2 {
        StandardAgrees(s, s, line[..|line| - 2]);
      }
    }
  }

  // --- PrefixParserShort: 0xFE size ------------------------------------------------------------------

  datatype Short = Short(foundIdx: nat, dataSize: nat)

  function ShortRule(s: Short, data: byte, isFirst: bool): (Short, Verdict) {
    var s := if isFirst then Short(0, 0) else s;
    if s.foundIdx == 1 then
      if 0 < data < 128 then (Short(0, data as nat), PrefixCompleted(data as nat)) else (Short(0, 0), NotMatched)
    else
      var s' := if data == 0xFE then s.(foundIdx := 1) else s;
      (s', if s'.foundIdx == 0 then NotMatched else PrefixMatched)
  }

  lemma {:induction false} ShortAgrees(s: Short, s': Short, line: seq<byte>)
    requires line != []
    ensures VerdictOn(ShortRule, s, line) == VerdictOn(ShortRule, s', line)
    ensures StateAfter(ShortRule, s, line) == StateAfter(ShortRule, s', line)
    decreases |line|
  {
    if |line| > 1 {
      ShortAgrees(s, s', line[..|line| - 1]);
    }
  }

  lemma ShortResets()
    ensures Resets(ShortRule)
  {
    forall line ensures ResetBy(ShortRule, line) {
      if line != [] {
        forall s, s' ensures VerdictOn(ShortRule, s, line) == VerdictOn(ShortRule, s', line) {
          ShortAgrees(s, s', line);
        }
      }
    }
  }

  /** Where the marker of a short prefix stands that is still open: 0xFE, and no open one right before it. */
  predicate ShortOpen(line: seq<byte>) {
    line != [] && line[|line| - 1] == 0xFE && !ShortOpen(line[..|line| - 1])
  }

  lemma {:induction false} ShortState(s: Short, line: seq<byte>)
    requires line != []
    ensures StateAfter(ShortRule, s, line).foundIdx == if ShortOpen(line) then 1 else 0
    decreases |line|
  {
    if |line| > 1 {
      ShortState(s, line[..|line| - 1]);
    }
  }

  /** A short prefix is complete exactly at a byte from 1 to 127 behind an open marker, and that byte is the size. */
  lemma ShortCompletesExactly(s: Short, line: seq<byte>, size: uint32)
    requires line != []
    ensures VerdictOn(ShortRule, s, line) == PrefixCompleted(size) <==>
            ShortOpen(line[..|line| - 1]) && 1 <= size <= 127 && line[|line| - 1] as nat == size
  {
    if |line| > 1 {
      ShortState(s, line[..|line| - 1]);
    }
  }

  // --- NullPrefixParser --------------------------------------------------------------------------------

  function NullRule(s: (), data: byte, isFirst: bool): ((), Verdict) {
    ((), NotMatched)
  }

  // --- Esp8266PrefixParser: +IPD,<link ID>,<len>[,<remoteIP>,<remote port>]: -----------------------------

  datatype EspState = Prefix | LinkID | Len | Ending | NotPassed

  /** num is num_buf up to offset: what lies beyond is never read. */
  datatype Esp = Esp(state: EspState, offset: nat, num: seq<byte>, linkId: nat, packetSize: uint32)

  const ESP_PREFIX: seq<byte> := [43, 73, 80, 68, 44]   // +IPD,
  const COMMA: byte := 44
  const COLON: byte := 58
  const NUM_BUF := 8

  function IsDigit(b: byte): bool {
    48 <= b <= 57
  }

  function Digits(num: seq<byte>, value: nat): nat {
    if num == [] || !IsDigit(num[0]) then value
    else Digits(num[1..], 10 * value + (num[0] - 48) as nat)
  }

  /** atoi, with the white space and sign it accepts, stored into a uint32_t. */
  function Atoi(num: seq<byte>): (r: nat)
    ensures r < 0x1_0000_0000
  {
    if num == [] then 0
    else if num[0] == 32 || 9 <= num[0] <= 13 then Atoi(num[1..])
    else if num[0] == 45 then Wrap32(0 - Digits(num[1..], 0) as int)
    else if num[0] == 43 then Wrap32(Digits(num[1..], 0))
    else Wrap32(Digits(num, 0))
  }

  function Push(num: seq<byte>, data: byte): seq<byte> {
    if |num| + 1 < NUM_BUF then num + [data] else num
  }

  function EspRule(s: Esp, data: byte, isFirst: bool): (Esp, Verdict) {
    var s := if isFirst then s.(offset := 0, state := Prefix) else s;
    match s.state
    case Prefix =>
      if s.offset < |ESP_PREFIX| && ESP_PREFIX[s.offset] == data then
        (if s.offset + 1 == |ESP_PREFIX| then s.(offset := 0, num := [], state := LinkID)
         else s.(offset := s.offset + 1), NotMatched)
      else (s.(state := NotPassed), NotMatched)
    case LinkID =>
      (if data == COMMA then s.(linkId := Atoi(s.num), num := [], state := Len) else s.(num := Push(s.num, data)),
       PrefixMatched)
    case Len =>
      if data == COMMA || data == COLON then
        (s.(packetSize := Atoi(s.num), state := Ending),
         if data == COLON then PrefixCompleted(Atoi(s.num)) else PrefixMatched)
      else (s.(num := Push(s.num, data)), PrefixMatched)
    case Ending => (s, if data == COLON then PrefixCompleted(s.packetSize) else PrefixMatched)
    case NotPassed => (s, NotMatched)
  }

  lemma {:induction false} EspAgrees(s: Esp, s': Esp, line: seq<byte>)
    requires line != []
    ensures VerdictOn(EspRule, s, line) == VerdictOn(EspRule, s', line)
    ensures var t, t' := StateAfter(EspRule, s, line), StateAfter(EspRule, s', line);
            && t.state == t'.state
            && (t.state.Prefix? ==> t.offset == t'.offset)
            && (t.state.LinkID? || t.state.Len? ==> t.num == t'.num)
            && (t.state.Ending? ==> t.packetSize == t'.packetSize)
    decreases |line|
  {
    if |line| > 1 {
      EspAgrees(s, s', line[..|line| - 1]);
    }
  }

  lemma EspResets()
    ensures Resets(EspRule)
  {
    forall line ensures ResetBy(EspRule, line) {
      if line != [] {
        forall s, s' ensures VerdictOn(EspRule, s, line) == VerdictOn(EspRule, s', line) {
          EspAgrees(s, s', line);
        }
      }
    }
  }

  // --- the sizes that +IPD announces ----------------------------------------------------------------------

  predicate IsStop(b: byte) {
    b == COMMA || b == COLON
  }

  /** The bytes before the first comma. */
  function BeforeComma(bytes: seq<byte>): (r: seq<byte>)
    ensures r <= bytes
  {
    if bytes == [] || bytes[0] == COMMA then [] else [bytes[0]] + BeforeComma(bytes[1..])
  }

  /** The bytes before the first comma or colon. */
  function BeforeStop(bytes: seq<byte>): (r: seq<byte>)
    ensures r <= bytes
  {
    if bytes == [] || IsStop(bytes[0]) then [] else [bytes[0]] + BeforeStop(bytes[1..])
  }

  lemma {:induction false} CommaFirst(a: seq<byte>, b: seq<byte>)
    requires COMMA !in a && (b == [] || b[0] == COMMA)
    ensures BeforeComma(a + b) == a
  {
    if a == [] {
      assert a + b == b;
    } else {
      assert (a + b)[1..] == a[1..] + b && a[0] in a;
      CommaFirst(a[1..], b);
    }
  }

  lemma {:induction false} StopFirst(a: seq<byte>, b: seq<byte>)
    requires NoStop(a) && (b == [] || IsStop(b[0]))
    ensures BeforeStop(a + b) == a
  {
    if a == [] {
      assert a + b == b;
    } else {
      assert (a + b)[1..] == a[1..] + b;
      StopFirst(a[1..], b);
    }
  }

  predicate NoStop(bytes: seq<byte>) {
    forall i :: 0 <= i < |bytes| ==> !IsStop(bytes[i])
  }

  /** The text between the second comma of +IPD,<link ID>,<len> and the comma or colon after it. */
  function LengthField(line: seq<byte>): seq<byte> {
    if |line| < 5 then []
    else
      var link := BeforeComma(line[5..]);
      if 5 + |link| == |line| then [] else BeforeStop(line[5 + |link| + 1..])
  }

  /** num_buf keeps the first seven characters. */
  function Cut(field: seq<byte>): seq<byte> {
    if |field| < NUM_BUF then field else field[..NUM_BUF - 1]
  }

  /** What the state of the +IPD rule says about the line read so far. */
  ghost predicate EspReads(t: Esp, line: seq<byte>, link: seq<byte>, field: seq<byte>) {
    match t.state
    case Prefix => t.offset == |line| < 5 && line == ESP_PREFIX[..|line|]
    case NotPassed => true
    case LinkID => line == ESP_PREFIX + link && COMMA !in link
    case Len => line == ESP_PREFIX + link + [COMMA] + field && COMMA !in link && NoStop(field) && t.num == Cut(field)
    case Ending =>
      && ESP_PREFIX + link + [COMMA] + field < line && COMMA !in link && NoStop(field)
      && IsStop(line[5 + |link| + 1 + |field|]) && t.packetSize == Atoi(Cut(field))
  }

  lemma EspStep(t: Esp, before: seq<byte>, link: seq<byte>, field: seq<byte>, c: byte)
    returns (link': seq<byte>, field': seq<byte>)
    requires EspReads(t, before, link, field)
    ensures EspReads(EspRule(t, c, false).0, before + [c], link', field')
  {
    link', field' := link, field;
    match t.state
    case Prefix =>
      link' := [];
      if |before| == 4 && c == COMMA {
        assert before + [c] == ESP_PREFIX + [];
      }
    case LinkID =>
      if c == COMMA {
        field' := [];
        assert before + [c] == ESP_PREFIX + link + [COMMA] + [];
      } else {
        link' := link + [c];
        assert before + [c] == ESP_PREFIX + link';
      }
    case Len =>
      if !IsStop(c) {
        field' := field + [c];
        assert before + [c] == ESP_PREFIX + link + [COMMA] + field';
        CutMore(field, c);
      }
    case _ =>
  }

  lemma CutMore(field: seq<byte>, c: byte)
    ensures Cut(field + [c]) == Push(Cut(field), c)
  {
  }

  lemma {:induction false} EspParts(s: Esp, line: seq<byte>) returns (link: seq<byte>, field: seq<byte>)
    requires line != []
    ensures EspReads(StateAfter(EspRule, s, line), line, link, field)
    decreases |line|
  {
    link, field := [], [];
    var before, c := line[..|line| - 1], line[|line| - 1];
    assert line == before + [c];
    var t := StateAfter(EspRule, s, before);
    assert StateAfter(EspRule, s, line) == EspRule(t, c, before == []).0;
    if before != [] {
      hide EspReads;
      link, field := EspParts(s, before);
      link, field := EspStep(t, before, link, field, c);
    }
  }

  /** The size that a complete +IPD prefix announces is the number in its length field. */
  lemma EspSize(s: Esp, line: seq<byte>)
    requires line != [] && VerdictOn(EspRule, s, line).PrefixCompleted?
    ensures VerdictOn(EspRule, s, line).packetSize == Atoi(Cut(LengthField(line)))
  {
    var before, c := line[..|line| - 1], line[|line| - 1];
    assert line == before + [c];
    if before != [] {
      var link, field := EspParts(s, before);
      var head := ESP_PREFIX + link + [COMMA] + field;
      assert |head| < |line| && line[..|head|] == head && IsStop(line[|head|]);
      FieldFound(line, link, field);
    }
  }

  lemma FieldFound(line: seq<byte>, link: seq<byte>, field: seq<byte>)
    requires COMMA !in link && NoStop(field)
    requires ESP_PREFIX + link + [COMMA] + field < line && IsStop(line[5 + |link| + 1 + |field|])
    ensures LengthField(line) == field
  {
    var head := ESP_PREFIX + link + [COMMA] + field;
    var rest, more := line[5 + |link|..], line[5 + |link| + 1..];
    assert line[5..] == link + rest && rest[0] == head[5 + |link|] == COMMA;
    CommaFirst(link, rest);
    assert more == field + line[|head|..];
    StopFirst(field, line[|head|..]);
  }

  // --- which lines announce a packet, and of what size -------------------------------------------------------

  /** +IPD,<link ID>,<len>: or +IPD,<link ID>,<len>,<remoteIP>,<remote port>: where tail starts at the third comma. */
  ghost predicate EspForm(line: seq<byte>, link: seq<byte>, field: seq<byte>, tail: seq<byte>) {
    && COMMA !in link && NoStop(field) && COLON !in tail && (tail != [] ==> tail[0] == COMMA)
    && line == ESP_PREFIX + link + [COMMA] + field + tail + [COLON]
  }

  /** No prefix of the line is complete. */
  ghost predicate NoneComplete(s: Esp, line: seq<byte>) {
    forall k :: 0 < k <= |line| ==> !VerdictOn(EspRule, s, line[..k]).PrefixCompleted?
  }

  lemma NextByte(s: Esp, line: seq<byte>, c: byte)
    ensures StateAfter(EspRule, s, line + [c]) == EspRule(StateAfter(EspRule, s, line), c, line == []).0
    ensures VerdictOn(EspRule, s, line + [c]) == EspRule(StateAfter(EspRule, s, line), c, line == []).1
    ensures NoneComplete(s, line) && !VerdictOn(EspRule, s, line + [c]).PrefixCompleted? ==> NoneComplete(s, line + [c])
  {
    var more := line + [c];
    assert more[..|more| - 1] == line;
    hide EspRule;
    assert forall k :: 0 < k <= |line| ==> more[..k] == line[..k];
    assert more[..|more|] == more;
  }

  lemma AfterPrefix(s: Esp)
    ensures StateAfter(EspRule, s, ESP_PREFIX).state.LinkID? && NoneComplete(s, ESP_PREFIX)
  {
    NextByte(s, [], 43);
    NextByte(s, [43], 73);
    NextByte(s, [43, 73], 80);
    NextByte(s, [43, 73, 80], 68);
    NextByte(s, [43, 73, 80, 68], 44);
    hide VerdictOn, StateAfter;
    assert [43] + [73] == [43, 73] && [43, 73] + [80] == [43, 73, 80] && [43, 73, 80] + [68] == [43, 73, 80, 68];
    assert [43, 73, 80, 68] + [44] == ESP_PREFIX;
    assert [] + [43 as byte] == [43];
  }

  lemma {:induction false} AfterLink(s: Esp, link: seq<byte>)
    requires COMMA !in link
    ensures StateAfter(EspRule, s, ESP_PREFIX + link).state.LinkID? && NoneComplete(s, ESP_PREFIX + link)
    decreases |link|
  {
    hide NoneComplete, VerdictOn, StateAfter;
    if link == [] {
      AfterPrefix(s);
      assert ESP_PREFIX + link == ESP_PREFIX;
    } else {
      var before, c := link[..|link| - 1], link[|link| - 1];
      AfterLink(s, before);
      NextByte(s, ESP_PREFIX + before, c);
      assert ESP_PREFIX + before + [c] == ESP_PREFIX + link;
    }
  }

  lemma {:induction false} AfterField(s: Esp, link: seq<byte>, field: seq<byte>)
    requires COMMA !in link && NoStop(field)
    ensures var t := StateAfter(EspRule, s, ESP_PREFIX + link + [COMMA] + field); t.state.Len? && t.num == Cut(field)
    ensures NoneComplete(s, ESP_PREFIX + link + [COMMA] + field)
    decreases |field|
  {
    hide NoneComplete, VerdictOn, StateAfter;
    var head := ESP_PREFIX + link + [COMMA];
    if field == [] {
      AfterLink(s, link);
      NextByte(s, ESP_PREFIX + link, COMMA);
      assert head + field == head;
    } else {
      var before, c := field[..|field| - 1], field[|field| - 1];
      AfterField(s, link, before);
      NextByte(s, head + before, c);
      assert head + before + [c] == head + field;
      CutMore(before, c);
      assert before + [c] == field;
    }
  }

  lemma {:induction false} AfterTail(s: Esp, link: seq<byte>, field: seq<byte>, tail: seq<byte>)
    requires COMMA !in link && NoStop(field) && COLON !in tail && tail != [] && tail[0] == COMMA
    ensures var t := StateAfter(EspRule, s, ESP_PREFIX + link + [COMMA] + field + tail);
            t.state.Ending? && t.packetSize == Atoi(Cut(field))
    ensures NoneComplete(s, ESP_PREFIX + link + [COMMA] + field + tail)
    decreases |tail|
  {
    hide NoneComplete, VerdictOn, StateAfter, Cut;
    var head := ESP_PREFIX + link + [COMMA] + field;
    var before, c := tail[..|tail| - 1], tail[|tail| - 1];
    if before == [] {
      AfterField(s, link, field);
      assert head + before == head;
    } else {
      AfterTail(s, link, field, before);
    }
    NextByte(s, head + before, c);
    assert head + before + [c] == head + tail;
  }

  /** A line of this form completes a prefix with its last colon and not before, and announces its length field. */
  lemma EspFormCompletes(s: Esp, line: seq<byte>, link: seq<byte>, field: seq<byte>, tail: seq<byte>)
    requires EspForm(line, link, field, tail)
    ensures VerdictOn(EspRule, s, line) == PrefixCompleted(Atoi(Cut(field)))
    ensures NoneComplete(s, line[..|line| - 1])
  {
    hide NoneComplete, VerdictOn, StateAfter, Cut;
    var head := ESP_PREFIX + link + [COMMA] + field;
    if tail == [] {
      AfterField(s, link, field);
      assert head + tail == head;
    } else {
      AfterTail(s, link, field, tail);
    }
    NextByte(s, head + tail, COLON);
    assert line[..|line| - 1] == head + tail;
  }

  /** The first complete prefix of a line comes with a line of that form, and only with one. */
  lemma EspCompletesExactly(s: Esp, line: seq<byte>, size: uint32)
    requires line != []
    ensures VerdictOn(EspRule, s, line) == PrefixCompleted(size) && NoneComplete(s, line[..|line| - 1]) <==>
            exists link, field, tail :: EspForm(line, link, field, tail) && size == Atoi(Cut(field))
  {
    hide Cut, EspForm, NoneComplete, VerdictOn;
    if VerdictOn(EspRule, s, line) == PrefixCompleted(size) && NoneComplete(s, line[..|line| - 1]) {
      var link, field, tail := FormOf(s, line);
    }
    forall link, field, tail | EspForm(line, link, field, tail)
      ensures VerdictOn(EspRule, s, line) == PrefixCompleted(Atoi(Cut(field))) && NoneComplete(s, line[..|line| - 1])
    {
      EspFormCompletes(s, line, link, field, tail);
    }
  }

  lemma FormOf(s: Esp, line: seq<byte>) returns (link: seq<byte>, field: seq<byte>, tail: seq<byte>)
    requires line != [] && VerdictOn(EspRule, s, line).PrefixCompleted? && NoneComplete(s, line[..|line| - 1])
    ensures EspForm(line, link, field, tail) && VerdictOn(EspRule, s, line).packetSize == Atoi(Cut(field))
  {
    var before, c := line[..|line| - 1], line[|line| - 1];
    assert line == before + [c];
    link, field, tail := [], [], [];
    assert before != [];
    link, field := EspParts(s, before);
    var t := StateAfter(EspRule, s, before);
    if t.state.Ending? {
      var head := ESP_PREFIX + link + [COMMA] + field;
      tail := before[|head|..];
      assert before == head + tail;
      TailHasNoColon(s, before, link, field, tail);
    }
    assert line == ESP_PREFIX + link + [COMMA] + field + tail + [COLON];
  }

  /** A colon after the length field would have completed the prefix before. */
  lemma TailHasNoColon(s: Esp, line: seq<byte>, link: seq<byte>, field: seq<byte>, tail: seq<byte>)
    requires COMMA !in link && NoStop(field) && tail != [] && IsStop(tail[0])
    requires line == ESP_PREFIX + link + [COMMA] + field + tail && NoneComplete(s, line)
    ensures COLON !in tail
  {
    if COLON in tail {
      var k := FirstColon(tail);
      var start := ESP_PREFIX + link + [COMMA] + field + tail[..k] + [COLON];
      assert start == line[..|start|];
      EspFormCompletes(s, start, link, field, tail[..k]);
    }
  }

  lemma {:induction false} FirstColon(tail: seq<byte>) returns (k: nat)
    requires COLON in tail
    ensures k < |tail| && tail[k] == COLON && COLON !in tail[..k]
  {
    if tail[0] == COLON {
      k := 0;
    } else {
      k := FirstColon(tail[1..]);
      k := k + 1;
      assert tail[..k] == [tail[0]] + tail[1..][..k - 1];
    }
  }

  /** Behind +IPD, every byte is matched: until the prefix is complete, line ends count for nothing. */
  lemma EspMatchedExactly(s: Esp, line: seq<byte>)
    requires line != []
    ensures VerdictOn(EspRule, s, line) != NotMatched <==> ESP_PREFIX < line
  {
    var before, c := line[..|line| - 1], line[|line| - 1];
    assert line == before + [c];
    if before != [] {
      PastPrefixExactly(s, before);
      hide StateAfter;
      if Differs(before) {
        var k :| 0 <= k < 5 && k < |before| && before[k] != ESP_PREFIX[k];
        assert line[k] != ESP_PREFIX[k];
      }
    }
  }

  /** The line differs from +IPD, somewhere. */
  ghost predicate Differs(line: seq<byte>) {
    exists k :: 0 <= k < 5 && k < |line| && line[k] != ESP_PREFIX[k]
  }

  lemma {:induction false} PastPrefixExactly(s: Esp, line: seq<byte>)
    requires line != []
    ensures var t := StateAfter(EspRule, s, line);
            if t.state.Prefix? then t.offset == |line| < 5 && line < ESP_PREFIX
            else if t.state.NotPassed? then Differs(line) else ESP_PREFIX <= line
    decreases |line|
  {
    var before, c := line[..|line| - 1], line[|line| - 1];
    assert line == before + [c];
    if before != [] {
      PastPrefixExactly(s, before);
      if Differs(before) {
        var k :| 0 <= k < 5 && k < |before| && before[k] != ESP_PREFIX[k];
        assert line[k] != ESP_PREFIX[k];
      }
    }
    NextByte(s, before, c);
    hide StateAfter, VerdictOn;
    if |line| <= 5 && c != ESP_PREFIX[|line| - 1] {
      assert Differs(line);
    }
  }

  // --- decimal numbers -----------------------------------------------------------------------------------------

  /** The decimal digits of n, as they are written. */
  function Decimal(n: nat): (r: seq<byte>)
    ensures r != [] && forall c :: c in r ==> IsDigit(c)
  {
    var last := [(48 + n % 10) as byte];
    if n < 10 then last else Decimal(n / 10) + last
  }

  lemma {:induction false} DigitsOfMore(num: seq<byte>, c: byte, value: nat)
    requires (forall b :: b in num ==> IsDigit(b)) && IsDigit(c)
    ensures Digits(num + [c], value) == 10 * Digits(num, value) + (c - 48) as nat
    decreases |num|
  {
    if num == [] {
      assert num + [c] == [c];
    } else {
      assert num[0] in num && (num + [c])[1..] == num[1..] + [c];
      DigitsOfMore(num[1..], c, 10 * value + (num[0] - 48) as nat);
    }
  }

  /** Reading digits gives back the number that was written. */
  lemma {:induction false} DigitsOfDecimal(n: nat)
    ensures Digits(Decimal(n), 0) == n
  {
    if n >= 10 {
      DigitsOfDecimal(n / 10);
      DigitsOfMore(Decimal(n / 10), (48 + n % 10) as byte, 0);
    } else {
      DigitsOfMore([], (48 + n % 10) as byte, 0);
      assert [] + Decimal(n) == Decimal(n);
    }
  }

  /** atoi reads a number, and one behind a sign or white space; the negative ones are stored modulo 2^32. */
  lemma AtoiOfDecimal(n: nat)
    requires n < 0x1_0000_0000
    ensures Atoi(Decimal(n)) == n && Atoi([43] + Decimal(n)) == n
    ensures Atoi([45] + Decimal(n)) == if n == 0 then 0 else 0x1_0000_0000 - n
    ensures forall c: byte :: c == 32 || 9 <= c <= 13 ==> Atoi([c] + Decimal(n)) == n
  {
    DigitsOfDecimal(n);
    var num := Decimal(n);
    hide Decimal, Digits;
    assert num[0] in num;
    forall c: byte
      ensures ([c] + num)[1..] == num
    {
    }
  }

  lemma {:induction false} DecimalLength(n: nat, k: nat)
    requires k >= 1 && n < Pow10(k)
    ensures |Decimal(n)| <= k
    decreases k
  {
    if n >= 10 {
      DecimalLength(n / 10, k - 1);
    }
  }

  /** A number of at most seven digits is a length field, and reads as what was written. */
  lemma DecimalIsField(link: seq<byte>, n: nat, tail: seq<byte>)
    requires COMMA !in link && n < 10000000 && COLON !in tail && (tail != [] ==> tail[0] == COMMA)
    ensures EspForm(ESP_PREFIX + link + [COMMA] + Decimal(n) + tail + [COLON], link, Decimal(n), tail)
    ensures Atoi(Cut(Decimal(n))) == n
  {
    assert Pow10(3) == 1000 && Pow10(5) == 100000 && Pow10(7) == 10000000;
    DecimalLength(n, 7);
    AtoiOfDecimal(n);
    hide Decimal;
    forall i | 0 <= i < |Decimal(n)|
      ensures !IsStop(Decimal(n)[i])
    {
      assert Decimal(n)[i] in Decimal(n);
    }
  }

  /** So a fresh +IPD line with such a length announces it, with or without an address behind, and not earlier. */
  lemma EspAnnounces(s: Esp, link: seq<byte>, n: nat, tail: seq<byte>)
    requires COMMA !in link && n < 10000000 && COLON !in tail && (tail != [] ==> tail[0] == COMMA)
    ensures var line := ESP_PREFIX + link + [COMMA] + Decimal(n) + tail + [COLON];
            VerdictOn(EspRule, s, line) == PrefixCompleted(n) && NoneComplete(s, line[..|line| - 1])
  {
    hide Decimal, NoneComplete, VerdictOn, Atoi, Cut;
    DecimalIsField(link, n, tail);
    EspFormCompletes(s, ESP_PREFIX + link + [COMMA] + Decimal(n) + tail + [COLON], link, Decimal(n), tail);
  }

  // --- a negative length -------------------------------------------------------------------------------------

  /** What atoi skips at the front. */
  function Trimmed(num: seq<byte>): seq<byte> {
    if num != [] && (num[0] == 32 || 9 <= num[0] <= 13) then Trimmed(num[1..]) else num
  }

  /** After white space, a minus sign and a number from 1 to most. */
  predicate IsMinus(num: seq<byte>, most: nat) {
    var t := Trimmed(num);
    t != [] && t[0] == 45 && 0 < Digits(t[1..], 0) <= most
  }

  function Pow10(n: nat): (r: nat)
    ensures r > 0
  {
    if n == 0 then 1 else 10 * Pow10(n - 1)
  }

  /** A number of k digits, put behind the digits of v. */
  lemma {:induction false} DigitsBound(num: seq<byte>, value: nat, k: nat)
    requires |num| <= k
    ensures Digits(num, value) < (value + 1) * Pow10(k)
    decreases |num|
  {
    if num == [] || !IsDigit(num[0]) {
      Times(value + 1, 1, Pow10(k));
    } else {
      var next := 10 * value + (num[0] - 48) as nat;
      DigitsBound(num[1..], next, k - 1);
      TenTimes(value, next, Pow10(k - 1));
    }
  }

  lemma TenTimes(value: nat, next: nat, p: nat)
    requires next <= 10 * value + 9
    ensures (next + 1) * p <= (value + 1) * (10 * p)
  {
    Times(p, next + 1, 10 * (value + 1));
  }

  lemma Times(factor: nat, a: nat, b: nat)
    requires a <= b
    ensures factor * a <= factor * b && a * factor <= b * factor
  {
  }

  lemma SevenDigits(num: seq<byte>)
    requires |num| < NUM_BUF
    ensures Digits(num, 0) < 10000000
  {
    DigitsBound(num, 0, 7);
    assert Pow10(3) == 1000 && Pow10(5) == 100000 && Pow10(7) == 10000000;
  }

  /**
    num_buf stands for a number within most of 2^32 exactly when it holds, after white space, a minus sign
    and a number from 1 to most: plain digits never do.
   */
  lemma {:induction false} AtoiNearTop(num: seq<byte>, most: nat)
    requires |num| < NUM_BUF && most < 0x8000_0000
    ensures Atoi(num) >= 0x1_0000_0000 - most <==> IsMinus(num, most)
    decreases |num|
  {
    if num != [] {
      SevenDigits(num);
      SevenDigits(num[1..]);
      if num[0] == 32 || 9 <= num[0] <= 13 {
        AtoiNearTop(num[1..], most);
      }
    }
  }

  /** Which +IPD prefixes announce a size within most of 2^32. */
  lemma EspAnnouncesNearTop(s: Esp, line: seq<byte>, most: nat)
    requires line != [] && VerdictOn(EspRule, s, line).PrefixCompleted? && most < 0x8000_0000
    ensures VerdictOn(EspRule, s, line).packetSize >= 0x1_0000_0000 - most <==> IsMinus(Cut(LengthField(line)), most)
  {
    EspSize(s, line);
    AtoiNearTop(Cut(LengthField(line)), most);
  }
}
