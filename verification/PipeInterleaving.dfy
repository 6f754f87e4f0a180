/**
  The pipe of drivers/TBPipe/TBPipe.cpp with its two sides interleaved: one producer calling Write,
  one consumer calling ReadStart/ReadEnd or ReadExact. Every shared load, every copied byte and every
  published position is a step of its own, and steps of the two sides mix freely.
  Memory is sequentially consistent: the file's builtin-atomic path is switched off.
 */
module PipeInterleaving {
  import opened Bytes
  import opened Pipe

  // --- the machine ---------------------------------------------------------------------------

  /** Where the producer stands inside Write. The seen fields are history: the code does not keep them. */
  datatype Producer =
    | Idle
    | Called(bytes: seq<byte>)
    | SawReadPos(bytes: seq<byte>, readPos: nat, seen: nat)
    | Copying(bytes: seq<byte>, readPos: nat, writePos: nat, copied: nat, seen: nat)

  /** Where the consumer stands. Holding is the time between ReadStart and ReadEnd. */
  datatype Consumer =
    | Ready
    | Starting(readPos: nat)
    | Holding(data: Slice)
    | ExactCalled(count: nat)
    | ExactSawReadPos(count: nat, readPos: nat)
    | ExactCopying(count: nat, readPos: nat, writePos: nat, out: seq<byte>, seen: nat)

  /**
    The shared fields, the two sides, and two histories: every byte a finished Write accepted,
    and every byte the consumer has really read out of the buffer and released.
   */
  datatype State = State(
    buffer: seq<byte>, readPos: nat, writePos: nat, readPosTmp: nat,
    producer: Producer, consumer: Consumer,
    accepted: seq<byte>, consumed: seq<byte>)

  datatype Action =
    | CallWrite(bytes: seq<byte>) | WriteLoadsReadPos | WriteLoadsWritePos | WriteCopiesByte | WritePublishes
    | CallReadStart | ReadStartFinishes | CallReadEnd | Abandon
    | CallReadExact(count: nat) | ExactLoadsReadPos | ExactLoadsWritePos | ExactCopiesByte | ExactPublishes

  function Init(size: nat): (s: State)
    requires 0 < size < 0x8000_0000
  {
    State(seq(size, i => 0), 0, 0, 0, Idle, Ready, [], [])
  }

  // Each step with its guard: where the side has to stand. The bounds in the guards hold in every
  // reachable state; without them the step would leave the buffer.

  predicate CanLoadWritePos(s: State) {
    s.producer.SawReadPos? && Shape(|s.buffer|, s.producer.readPos, s.writePos)
  }

  function LoadWritePos(s: State): State
    requires CanLoadWritePos(s)
  {
    var p := s.producer;
    var count := Acceptable(|s.buffer|, p.readPos, s.writePos, |p.bytes|);
    s.(producer := if count == 0 then Idle else Copying(p.bytes[..count], p.readPos, s.writePos, 0, p.seen))
  }

  predicate CanCopyIn(s: State) {
    var p := s.producer;
    && p.Copying? && p.copied < |p.bytes| && Shape(|s.buffer|, p.readPos, p.writePos)
    && WriteTarget(|s.buffer|, p.readPos, p.writePos, |p.bytes|, p.copied) < |s.buffer|
  }

  function CopyIn(s: State): State
    requires CanCopyIn(s)
  {
    var p := s.producer;
    var target := WriteTarget(|s.buffer|, p.readPos, p.writePos, |p.bytes|, p.copied);
    s.(buffer := s.buffer[target := p.bytes[p.copied]], producer := p.(copied := p.copied + 1))
  }

  predicate CanPublishWrite(s: State) {
    var p := s.producer;
    p.Copying? && p.copied == |p.bytes| && Shape(|s.buffer|, p.readPos, p.writePos)
  }

  function PublishWrite(s: State): State
    requires CanPublishWrite(s)
  {
    var p := s.producer;
    s.(writePos := WriteEnd(|s.buffer|, p.readPos, p.writePos, |p.bytes|),
       producer := Idle, accepted := s.accepted + p.bytes)
  }

  predicate CanHandOut(s: State) {
    s.consumer.Starting? && Shape(|s.buffer|, s.consumer.readPos, s.writePos)
  }

  function HandOut(s: State): State
    requires CanHandOut(s)
  {
    var readPos := s.consumer.readPos;
    if s.writePos == readPos then s.(consumer := Holding(Null), readPosTmp := readPos)
    else if s.writePos < readPos then
      s.(consumer := Holding(At(readPos, |s.buffer| - readPos)), readPosTmp := 0)
    else
      // The code would turn |buffer| into 0 here, but a published write_pos is always below it.
      s.(consumer := Holding(At(readPos, s.writePos - readPos)), readPosTmp := s.writePos)
  }

  predicate CanEndRead(s: State) {
    s.consumer.Holding? && (s.consumer.data.At? ==> s.consumer.data.start + s.consumer.data.size <= |s.buffer|)
  }

  function EndRead(s: State): State
    requires CanEndRead(s)
  {
    s.(readPos := s.readPosTmp, consumer := Ready, consumed := s.consumed + s.consumer.data.Bytes(s.buffer))
  }

  predicate CanLoadExact(s: State) {
    s.consumer.ExactSawReadPos? && Shape(|s.buffer|, s.consumer.readPos, s.writePos)
  }

  function LoadExact(s: State): State
    requires CanLoadExact(s)
  {
    var c := s.consumer;
    if AvailableBytes(|s.buffer|, c.readPos, s.writePos) < c.count then s.(consumer := Ready)
    else s.(consumer := ExactCopying(c.count, c.readPos, s.writePos, [], |s.accepted|))
  }

  predicate CanCopyOut(s: State) {
    var c := s.consumer;
    && c.ExactCopying? && |c.out| < c.count && Shape(|s.buffer|, c.readPos, c.writePos)
    && ExactSource(|s.buffer|, c.readPos, c.writePos, c.count, |c.out|) < |s.buffer|
  }

  function CopyOut(s: State): State
    requires CanCopyOut(s)
  {
    var c := s.consumer;
    var from := ExactSource(|s.buffer|, c.readPos, c.writePos, c.count, |c.out|);
    s.(consumer := c.(out := c.out + [s.buffer[from]]))
  }

  predicate CanPublishRead(s: State) {
    var c := s.consumer;
    c.ExactCopying? && |c.out| == c.count && Shape(|s.buffer|, c.readPos, c.writePos)
  }

  function PublishRead(s: State): State
    requires CanPublishRead(s)
  {
    var c := s.consumer;
    s.(readPos := ExactEnd(|s.buffer|, c.readPos, c.writePos, c.count),
       consumer := Ready, consumed := s.consumed + c.out)
  }

  predicate Enabled(s: State, a: Action) {
    match a
    case CallWrite(_) => s.producer.Idle?
    case WriteLoadsReadPos => s.producer.Called?
    case WriteLoadsWritePos => CanLoadWritePos(s)
    case WriteCopiesByte => CanCopyIn(s)
    case WritePublishes => CanPublishWrite(s)
    case CallReadStart => s.consumer.Ready? || s.consumer.Holding?
    case ReadStartFinishes => CanHandOut(s)
    case CallReadEnd => CanEndRead(s)
    case Abandon => s.consumer.Holding?
    case CallReadExact(_) => s.consumer.Ready?
    case ExactLoadsReadPos => s.consumer.ExactCalled?
    case ExactLoadsWritePos => CanLoadExact(s)
    case ExactCopiesByte => CanCopyOut(s)
    case ExactPublishes => CanPublishRead(s)
  }

  function Step(s: State, a: Action): (s': State)
    requires Enabled(s, a)
  {
    match a
    case CallWrite(bytes) => s.(producer := Called(bytes))
    case WriteLoadsReadPos => s.(producer := SawReadPos(s.producer.bytes, s.readPos, |s.consumed|))
    case WriteLoadsWritePos => LoadWritePos(s)
    case WriteCopiesByte => CopyIn(s)
    case WritePublishes => PublishWrite(s)
    case CallReadStart => s.(consumer := Starting(s.readPos))
    case ReadStartFinishes => HandOut(s)
    case CallReadEnd => EndRead(s)
    case Abandon => s.(consumer := Ready)
    case CallReadExact(count) => s.(consumer := ExactCalled(count))
    case ExactLoadsReadPos => s.(consumer := ExactSawReadPos(s.consumer.count, s.readPos))
    case ExactLoadsWritePos => LoadExact(s)
    case ExactCopiesByte => CopyOut(s)
    case ExactPublishes => PublishRead(s)
  }

  /** A run: the actions in order, each one skipped when its side is not there yet. */
  function Run(s: State, actions: seq<Action>): (r: State)
    decreases actions
  {
    if actions == [] then s
    else Run(if Enabled(s, actions[0]) then Step(s, actions[0]) else s, actions[1..])
  }

  // --- where byte number k of the stream lives ---------------------------------------------------

  /** k modulo size, by subtraction. */
  ghost function Slot(size: nat, k: nat): (r: nat)
    requires 0 < size
    ensures r < size
    decreases k
  {
    if k < size then k else Slot(size, k - size)
  }

  lemma {:induction false} SlotAhead(size: nat, k: nat, d: nat)
    requires 0 < size && d <= size
    ensures Slot(size, k + d) == (if Slot(size, k) + d < size then Slot(size, k) + d else Slot(size, k) + d - size)
    decreases k
  {
    if k >= size {
      SlotAhead(size, k - size, d);
    }
  }

  /** Fewer than size bytes apart, two bytes have different slots. */
  lemma SlotsDiffer(size: nat, j: nat, k: nat)
    requires 0 < size && j < k < j + size
    ensures Slot(size, j) != Slot(size, k)
  {
    SlotAhead(size, j, k - j);
  }

  /** pos is where byte number k lives, or size where that is slot 0. */
  ghost predicate Points(size: nat, pos: nat, k: nat)
    requires 0 < size
  {
    pos == Slot(size, k) || (pos == size && Slot(size, k) == 0)
  }

  /** The buffer holds the bytes of the stream from number `from` on, each in its slot. */
  ghost predicate Window(buffer: seq<byte>, stream: seq<byte>, from: nat)
    requires 0 < |buffer|
  {
    forall k {:trigger stream[k]} :: from <= k < |stream| ==> buffer[Slot(|buffer|, k)] == stream[k]
  }

  /** One more byte in its slot, while less than a bufferful is in use. */
  lemma WindowPush(buffer: seq<byte>, stream: seq<byte>, from: nat, b: byte)
    requires 0 < |buffer| && Window(buffer, stream, from)
    requires from <= |stream| < from + |buffer|
    ensures Window(buffer[Slot(|buffer|, |stream|) := b], stream + [b], from)
  {
    forall k | from <= k < |stream| ensures Slot(|buffer|, k) != Slot(|buffer|, |stream|) {
      SlotsDiffer(|buffer|, k, |stream|);
    }
  }

  // --- the invariant -----------------------------------------------------------------------------

  /** The accepted bytes and those of the Write under way that are already in the buffer. */
  ghost function Stream(s: State): seq<byte> {
    if s.producer.Copying? && s.producer.copied <= |s.producer.bytes|
    then s.accepted + s.producer.bytes[..s.producer.copied] else s.accepted
  }

  ghost predicate SharedInv(s: State) {
    && Shape(|s.buffer|, s.readPos, s.writePos)
    && |s.consumed| <= |s.accepted| < |s.consumed| + |s.buffer|
    && s.consumed == s.accepted[..|s.consumed|]
    && Points(|s.buffer|, s.readPos, |s.consumed|)
    && s.writePos == Slot(|s.buffer|, |s.accepted|)
    && Window(s.buffer, Stream(s), |s.consumed|)
  }

  /** The producer may hold an old read_pos: it then only underestimates the free space. */
  ghost predicate ProducerInv(s: State)
    requires SharedInv(s)
  {
    var size, p := |s.buffer|, s.producer;
    match p
    case Idle => true
    case Called(_) => true
    case SawReadPos(_, readPos, seen) =>
      readPos <= size && seen <= |s.consumed| && |s.accepted| < seen + size && Points(size, readPos, seen)
    case Copying(bytes, readPos, writePos, copied, seen) =>
      && readPos <= size && seen <= |s.consumed| && Points(size, readPos, seen)
      && writePos == s.writePos
      && 0 < |bytes| && |s.accepted| + |bytes| < seen + size
      && copied <= |bytes|
  }

  ghost predicate ConsumerInv(s: State)
    requires SharedInv(s)
  {
    var size, c := |s.buffer|, s.consumer;
    match c
    case Ready => true
    case Starting(readPos) => readPos == s.readPos
    case Holding(data) =>
      && |s.consumed| + data.Size() <= |s.accepted|
      && s.readPosTmp < size && Points(size, s.readPosTmp, |s.consumed| + data.Size())
      && (data.At? ==> data.start == s.readPos && data.start + data.size <= size)
    case ExactCalled(_) => true
    case ExactSawReadPos(_, readPos) => readPos == s.readPos
    case ExactCopying(count, readPos, writePos, out, seen) =>
      && readPos == s.readPos
      && |s.consumed| + count <= seen <= |s.accepted|
      && writePos == Slot(size, seen)
      && |out| <= count
      && out == s.accepted[|s.consumed|..|s.consumed| + |out|]
  }

  ghost predicate Inv(s: State) {
    SharedInv(s) && ProducerInv(s) && ConsumerInv(s)
  }

  /** An unread byte is in its slot. */
  lemma UnreadByte(s: State, k: nat)
    requires SharedInv(s) && |s.consumed| <= k < |s.accepted|
    ensures s.buffer[Slot(|s.buffer|, k)] == s.accepted[k]
  {
    assert Stream(s)[k] == s.accepted[k];
  }

  /** What the two published positions delimit is exactly what was accepted and not yet consumed. */
  lemma StoredIsUnread(s: State)
    requires SharedInv(s)
    ensures Stored(s.buffer, s.readPos, s.writePos) == s.accepted[|s.consumed|..]
  {
    hide Slot, Points, Window;
    var size, from := |s.buffer|, |s.consumed|;
    var stored := Stored(s.buffer, s.readPos, s.writePos);
    UnreadSlots(s.buffer, s.readPos, s.writePos, from, |s.accepted|);
    forall i | 0 <= i < |stored| ensures stored[i] == s.accepted[from + i] {
      UnreadByte(s, from + i);
    }
  }

  /** The stored bytes are as many as the two byte numbers say, and lie in the slots of their numbers. */
  lemma UnreadSlots(buffer: seq<byte>, readPos: nat, writePos: nat, from: nat, to: nat)
    requires Shape(|buffer|, readPos, writePos) && Points(|buffer|, readPos, from) && writePos == Slot(|buffer|, to)
    requires from <= to < from + |buffer|
    ensures var stored := Stored(buffer, readPos, writePos);
            |stored| == to - from && forall i: nat :: i < to - from ==> stored[i] == buffer[Slot(|buffer|, from + i)]
  {
    hide Slot;
    SlotAhead(|buffer|, from, to - from);
    StoredAt(buffer, readPos, writePos);
    var stored := Stored(buffer, readPos, writePos);
    assert |stored| == to - from;
    forall i: nat | i < to - from ensures stored[i] == buffer[Slot(|buffer|, from + i)] {
      SlotAhead(|buffer|, from, i);
    }
  }

  // --- every step keeps it -------------------------------------------------------------------------

  /** Where one step of Write's copy goes, and where the whole copy ends. */
  lemma WriteTargets(size: nat, readPos: nat, writePos: nat, seen: nat, written: nat, count: nat, i: nat)
    requires Shape(size, readPos, writePos) && Points(size, readPos, seen) && writePos == Slot(size, written)
    requires seen <= written && written + count < seen + size && i <= count
    ensures i < count ==> WriteTarget(size, readPos, writePos, count, i) == Slot(size, written + i)
    ensures WriteEnd(size, readPos, writePos, count) == Slot(size, written + count)
  {
    SlotAhead(size, written, i);
    SlotAhead(size, written, count);
    SlotAhead(size, seen, written - seen);
  }

  /** The free space that follows from a possibly old read_pos. */
  lemma FreeFromSeen(size: nat, readPos: nat, writePos: nat, seen: nat, written: nat)
    requires Shape(size, readPos, writePos) && Points(size, readPos, seen) && writePos == Slot(size, written)
    requires seen <= written < seen + size
    ensures FreeBytes(size, readPos, writePos) == size - 1 - (written - seen)
  {
    SlotAhead(size, seen, written - seen);
  }

  lemma WriteLoadKeepsInv(s: State)
    requires Inv(s) && CanLoadWritePos(s)
    ensures Inv(LoadWritePos(s))
  {
    hide Slot;
    FreeFromSeen(|s.buffer|, s.producer.readPos, s.writePos, s.producer.seen, |s.accepted|);
    assert Stream(LoadWritePos(s)) == Stream(s);
  }

  lemma WriteCopyKeepsInv(s: State)
    requires Inv(s) && CanCopyIn(s)
    ensures Inv(CopyIn(s))
  {
    hide Slot, WriteEnd;
    var p, s' := s.producer, CopyIn(s);
    WriteTargets(|s.buffer|, p.readPos, p.writePos, p.seen, |s.accepted|, |p.bytes|, p.copied);
    WindowPush(s.buffer, Stream(s), |s.consumed|, p.bytes[p.copied]);
    assert Stream(s') == Stream(s) + [p.bytes[p.copied]];
    assert s'.buffer == s.buffer[Slot(|s.buffer|, |Stream(s)|) := p.bytes[p.copied]];
    assert s' == s.(buffer := s'.buffer, producer := s'.producer);
  }

  lemma WritePublishKeepsInv(s: State)
    requires Inv(s) && CanPublishWrite(s)
    ensures Inv(PublishWrite(s))
  {
    hide Slot, WriteTarget;
    var p, s' := s.producer, PublishWrite(s);
    WriteTargets(|s.buffer|, p.readPos, p.writePos, p.seen, |s.accepted|, |p.bytes|, 0);
    assert Stream(s') == Stream(s);
  }

  lemma ReadStartKeepsInv(s: State)
    requires Inv(s) && CanHandOut(s)
    ensures Inv(HandOut(s))
  {
    hide Slot, Points;
    HandOutPoints(|s.buffer|, s.readPos, s.writePos, |s.consumed|, |s.accepted|);
    assert Stream(HandOut(s)) == Stream(s);
  }

  /** Where the slice of ReadStart ends. */
  lemma HandOutPoints(size: nat, readPos: nat, writePos: nat, from: nat, to: nat)
    requires Shape(size, readPos, writePos) && Points(size, readPos, from) && writePos == Slot(size, to)
    requires from <= to < from + size
    ensures writePos == readPos ==> from == to
    ensures writePos < readPos ==> from + (size - readPos) <= to && Points(size, 0, from + (size - readPos))
    ensures writePos > readPos ==> from + (writePos - readPos) == to && Points(size, writePos, to)
  {
    hide Slot;
    SlotAhead(size, from, to - from);
    if writePos < readPos {
      SlotAhead(size, from, size - readPos);
    }
  }

  /** A held slice is the next unread bytes. */
  lemma SliceIsNextBytes(s: State)
    requires Inv(s) && s.consumer.Holding?
    ensures var data := s.consumer.data;
            data.Bytes(s.buffer) == s.accepted[|s.consumed|..|s.consumed| + data.Size()]
  {
    hide Slot, Points, Window;
    var size, from, data := |s.buffer|, |s.consumed|, s.consumer.data;
    forall i | 0 <= i < data.Size() ensures data.Bytes(s.buffer)[i] == s.accepted[from + i] {
      SliceSlot(size, data.start, data.size, from, i);
      UnreadByte(s, from + i);
    }
  }

  lemma SliceSlot(size: nat, start: nat, length: nat, from: nat, i: nat)
    requires 0 < size && Points(size, start, from) && start + length <= size && i < length
    ensures Slot(size, from + i) == start + i
  {
    hide Slot;
    SlotAhead(size, from, i);
  }

  lemma ReadEndKeepsInv(s: State)
    requires Inv(s) && CanEndRead(s)
    ensures Inv(EndRead(s))
  {
    hide Slot, Points;
    SliceIsNextBytes(s);
    assert Stream(EndRead(s)) == Stream(s);
  }

  /** The slots ReadExact copies from are those of the next unread bytes. */
  lemma ExactSources(size: nat, readPos: nat, writePos: nat, from: nat, seen: nat, count: nat, i: nat)
    requires Shape(size, readPos, writePos) && Points(size, readPos, from) && writePos == Slot(size, seen)
    requires from + count <= seen < from + size && i <= count
    ensures i < count ==> ExactSource(size, readPos, writePos, count, i) == Slot(size, from + i)
    ensures Points(size, ExactEnd(size, readPos, writePos, count), from + count)
  {
    SlotAhead(size, from, i);
    SlotAhead(size, from, count);
    SlotAhead(size, from, seen - from);
  }

  lemma ExactLoadKeepsInv(s: State)
    requires Inv(s) && CanLoadExact(s)
    ensures Inv(LoadExact(s))
    ensures LoadExact(s).consumer.ExactCopying? <==> s.consumer.count <= |s.accepted| - |s.consumed|
  {
    FreeFromSeen(|s.buffer|, s.readPos, s.writePos, |s.consumed|, |s.accepted|);
    assert Stream(LoadExact(s)) == Stream(s);
  }

  lemma ExactCopyKeepsInv(s: State)
    requires Inv(s) && CanCopyOut(s)
    ensures Inv(CopyOut(s))
  {
    hide Slot, ExactEnd, Window, Points;
    var c, s' := s.consumer, CopyOut(s);
    ExactSources(|s.buffer|, c.readPos, c.writePos, |s.consumed|, c.seen, c.count, |c.out|);
    UnreadByte(s, |s.consumed| + |c.out|);
    assert Stream(s') == Stream(s);
  }

  lemma ExactPublishKeepsInv(s: State)
    requires Inv(s) && CanPublishRead(s)
    ensures Inv(PublishRead(s))
  {
    hide ExactEnd, ExactSource, Slot;
    var c := s.consumer;
    ExactSources(|s.buffer|, c.readPos, c.writePos, |s.consumed|, c.seen, c.count, 0);
    assert Stream(PublishRead(s)) == Stream(s);
  }

  lemma CallKeepsInv(s: State, a: Action)
    requires Inv(s) && Enabled(s, a)
    requires a.CallWrite? || a.WriteLoadsReadPos? || a.CallReadStart? || a.Abandon? || a.CallReadExact? || a.ExactLoadsReadPos?
    ensures Inv(Step(s, a))
  {
    assert Stream(Step(s, a)) == Stream(s);
  }

  lemma StepKeepsInv(s: State, a: Action)
    requires Inv(s) && Enabled(s, a)
    ensures Inv(Step(s, a))
  {
    match a
    case WriteLoadsWritePos => WriteLoadKeepsInv(s);
    case WriteCopiesByte => WriteCopyKeepsInv(s);
    case WritePublishes => WritePublishKeepsInv(s);
    case ReadStartFinishes => ReadStartKeepsInv(s);
    case CallReadEnd => ReadEndKeepsInv(s);
    case ExactLoadsWritePos => ExactLoadKeepsInv(s);
    case ExactCopiesByte => ExactCopyKeepsInv(s);
    case ExactPublishes => ExactPublishKeepsInv(s);
    case _ => CallKeepsInv(s, a);
  }

  lemma {:induction false} RunKeepsInv(s: State, actions: seq<Action>)
    requires Inv(s)
    ensures Inv(Run(s, actions))
    decreases actions
  {
    if actions != [] {
      if Enabled(s, actions[0]) {
        StepKeepsInv(s, actions[0]);
      }
      RunKeepsInv(if Enabled(s, actions[0]) then Step(s, actions[0]) else s, actions[1..]);
    }
  }

  // --- main results --------------------------------------------------------------------------------

  /** In every interleaving: consumed bytes, then stored bytes, are the accepted bytes, in order. */
  lemma NothingLostOrReordered(size: nat, actions: seq<Action>)
    requires 0 < size < 0x8000_0000
    ensures var s := Run(Init(size), actions);
            && Shape(|s.buffer|, s.readPos, s.writePos)
            && s.consumed + Stored(s.buffer, s.readPos, s.writePos) == s.accepted
  {
    RunKeepsInv(Init(size), actions);
    StoredIsUnread(Run(Init(size), actions));
  }

  /** How a step moves the two histories. */
  lemma StepHistories(s: State, a: Action)
    requires Enabled(s, a)
    ensures Step(s, a).accepted == s.accepted + (if a.WritePublishes? then s.producer.bytes else [])
    ensures Step(s, a).consumed ==
            s.consumed + (if a.CallReadEnd? then s.consumer.data.Bytes(s.buffer)
                          else if a.ExactPublishes? then s.consumer.out else [])
  {
  }

  /** No side ever stands where its next copy or publication would leave the buffer. */
  lemma NoSideGetsStuck(s: State)
    requires Inv(s)
    ensures s.producer.SawReadPos? ==> CanLoadWritePos(s)
    ensures s.producer.Copying? ==> CanCopyIn(s) || CanPublishWrite(s)
    ensures s.consumer.Starting? ==> CanHandOut(s)
    ensures s.consumer.Holding? ==> CanEndRead(s)
    ensures s.consumer.ExactSawReadPos? ==> CanLoadExact(s)
    ensures s.consumer.ExactCopying? ==> CanCopyOut(s) || CanPublishRead(s)
  {
    var p, c := s.producer, s.consumer;
    if p.Copying? {
      WriteTargets(|s.buffer|, p.readPos, p.writePos, p.seen, |s.accepted|, |p.bytes|, p.copied);
    }
    if c.ExactCopying? {
      ExactSources(|s.buffer|, c.readPos, c.writePos, |s.consumed|, c.seen, c.count, |c.out|);
    }
  }

  /** What the consumer still has to decide on: nothing that starts a new call or ends this one. */
  predicate LeavesSlice(a: Action) {
    !a.CallReadStart? && !a.CallReadEnd? && !a.Abandon?
  }

  lemma StepLeavesSlice(s: State, a: Action)
    requires Inv(s) && Enabled(s, a) && s.consumer.Holding? && LeavesSlice(a)
    ensures Inv(Step(s, a)) && Step(s, a).consumer == s.consumer
    ensures s.consumer.data.Bytes(Step(s, a).buffer) == s.consumer.data.Bytes(s.buffer)
  {
    hide Slot, Points, Window, WriteEnd, WriteTarget, ExactEnd, ExactSource;
    StepKeepsInv(s, a);
    StepHistories(s, a);
    SliceIsNextBytes(s);
    SliceIsNextBytes(Step(s, a));
  }

  /** Whatever the producer does meanwhile, the slice handed out by ReadStart does not change until ReadEnd. */
  lemma {:induction false} SliceIsStable(s: State, actions: seq<Action>)
    requires Inv(s) && s.consumer.Holding?
    requires forall i :: 0 <= i < |actions| ==> LeavesSlice(actions[i])
    ensures var s' := Run(s, actions);
            && s'.consumer == s.consumer && Inv(s')
            && s'.consumer.data.Bytes(s'.buffer) == s.consumer.data.Bytes(s.buffer)
    decreases actions
  {
    if actions != [] {
      assert LeavesSlice(actions[0]);
      if Enabled(s, actions[0]) {
        StepLeavesSlice(s, actions[0]);
        SliceIsStable(Step(s, actions[0]), actions[1..]);
      } else {
        SliceIsStable(s, actions[1..]);
      }
    }
  }

  /** The abstract pipe is one queue: the bytes between the published positions. */
  ghost function Queue(s: State): seq<byte>
    requires SharedInv(s)
  {
    Stored(s.buffer, s.readPos, s.writePos)
  }

  lemma Dequeue(stream: seq<byte>, before: seq<byte>, taken: seq<byte>)
    requires |before| + |taken| <= |stream| && before + taken == stream[..|before| + |taken|]
    ensures taken + stream[|before + taken|..] == stream[|before|..]
  {
    forall i | 0 <= i < |taken| ensures taken[i] == stream[|before| + i] {
      assert (before + taken)[|before| + i] == taken[i];
    }
  }

  lemma QueuesAreUnread(s: State, s': State)
    requires SharedInv(s) && SharedInv(s')
    ensures Queue(s) == s.accepted[|s.consumed|..]
    ensures Queue(s') == s'.accepted[|s'.consumed|..]
    ensures s'.consumed == s'.accepted[..|s'.consumed|]
  {
    StoredIsUnread(s);
    StoredIsUnread(s');
  }

  lemma WriteEnqueues(s: State)
    requires Inv(s) && CanPublishWrite(s)
    ensures Inv(PublishWrite(s)) && Queue(PublishWrite(s)) == Queue(s) + s.producer.bytes
  {
    hide Slot, Points, Window, WriteEnd, ExactEnd;
    WritePublishKeepsInv(s);
    QueuesAreUnread(s, PublishWrite(s));
  }

  lemma ReadEndDequeues(s: State)
    requires Inv(s) && CanEndRead(s)
    ensures Inv(EndRead(s)) && s.consumer.data.Bytes(s.buffer) + Queue(EndRead(s)) == Queue(s)
  {
    hide Slot, Points, Window, WriteEnd, ExactEnd;
    ReadEndKeepsInv(s);
    QueuesAreUnread(s, EndRead(s));
    Dequeue(s.accepted, s.consumed, s.consumer.data.Bytes(s.buffer));
  }

  lemma ReadExactDequeues(s: State)
    requires Inv(s) && CanPublishRead(s)
    ensures Inv(PublishRead(s)) && s.consumer.out + Queue(PublishRead(s)) == Queue(s)
  {
    hide Slot, Points, Window, WriteEnd, ExactEnd;
    ExactPublishKeepsInv(s);
    QueuesAreUnread(s, PublishRead(s));
    Dequeue(s.accepted, s.consumed, s.consumer.out);
  }

  lemma OtherStepsLeaveQueue(s: State, a: Action)
    requires Inv(s) && Enabled(s, a)
    requires !a.WritePublishes? && !a.CallReadEnd? && !a.ExactPublishes?
    ensures Inv(Step(s, a)) && Queue(Step(s, a)) == Queue(s)
  {
    StepKeepsInv(s, a);
    QueuesAreUnread(s, Step(s, a));
    StepHistories(s, a);
  }

  /**
    Refinement: a step of the machine is invisible to the queue, except that publishing a Write enqueues
    the accepted bytes at once, and ReadEnd and a finished ReadExact dequeue what the reader saw at once.
   */
  lemma StepRefinesQueue(s: State, a: Action)
    requires Inv(s) && Enabled(s, a)
    ensures Inv(Step(s, a))
    ensures if a.WritePublishes? then Queue(Step(s, a)) == Queue(s) + s.producer.bytes
            else if a.CallReadEnd? then s.consumer.data.Bytes(s.buffer) + Queue(Step(s, a)) == Queue(s)
            else if a.ExactPublishes? then
              |s.consumer.out| == s.consumer.count && s.consumer.out + Queue(Step(s, a)) == Queue(s)
            else Queue(Step(s, a)) == Queue(s)
  {
    match a
    case WritePublishes => WriteEnqueues(s);
    case CallReadEnd => ReadEndDequeues(s);
    case ExactPublishes => ReadExactDequeues(s);
    case _ => OtherStepsLeaveQueue(s, a);
  }

  /** ReadExact goes ahead exactly when the queue holds enough at the moment it loads write_pos. */
  lemma ReadExactSeesQueue(s: State)
    requires Inv(s) && CanLoadExact(s)
    ensures LoadExact(s).consumer.ExactCopying? <==> s.consumer.count <= |Queue(s)|
  {
    ExactLoadKeepsInv(s);
    StoredIsUnread(s);
  }

  /**
    ReadStart hands out a prefix of the queue, which is empty exactly when the queue is, or when
    read_pos rests on its alias of 0.
   */
  lemma ReadStartSeesQueue(s: State)
    requires Inv(s) && CanHandOut(s)
    ensures var data := HandOut(s).consumer.data;
            && (data.At? ==> data.start + data.size <= |s.buffer|)
            && data.Bytes(s.buffer) <= Queue(s)
            && (data.Size() == 0 <==> Queue(s) == [] || s.readPos == |s.buffer|)
  {
  }

  /**
    A Write takes a prefix of its argument, as much as the free space seen by its load of read_pos allows,
    cut to a multiple of 8; if the consumer released nothing since, that is the free space of the queue.
   */
  lemma WriteTakesPrefix(s: State)
    requires Inv(s) && CanLoadWritePos(s)
    ensures var p, p', free := s.producer, LoadWritePos(s).producer,
                               |s.buffer| - 1 - (|s.accepted| - s.producer.seen);
            && 0 <= free <= |s.buffer| - 1 - |Queue(s)|
            && (p.seen == |s.consumed| ==> free == |s.buffer| - 1 - |Queue(s)|)
            && (if Min(|p.bytes|, RoundDown8(free)) == 0 then p'.Idle?
                else p'.Copying? && p'.bytes == p.bytes[..Min(|p.bytes|, RoundDown8(free))])
  {
    hide Slot, Points, Window;
    FreeFromSeen(|s.buffer|, s.producer.readPos, s.writePos, s.producer.seen, |s.accepted|);
    StoredIsUnread(s);
  }

  // --- what a return to the caller means -------------------------------------------------------------------

  /** Runs until the producer is back at its caller, or to the end of the actions. */
  function RunWrite(s: State, actions: seq<Action>): State
    decreases actions
  {
    if actions == [] || s.producer.Idle? then s
    else RunWrite(if Enabled(s, actions[0]) then Step(s, actions[0]) else s, actions[1..])
  }

  /** The same for the consumer. */
  function RunRead(s: State, actions: seq<Action>): State
    decreases actions
  {
    if actions == [] || s.consumer.Ready? then s
    else RunRead(if Enabled(s, actions[0]) then Step(s, actions[0]) else s, actions[1..])
  }

  /** n of the bytes are as many as a Write may take, when at least free bytes were free. */
  predicate Takes(n: nat, bytes: seq<byte>, free: nat) {
    Min(|bytes|, RoundDown8(free)) <= n <= |bytes| && (n == |bytes| || n % 8 == 0)
  }

  lemma RoundedGrows(m: nat, n: nat)
    requires m <= n
    ensures RoundDown8(m) <= RoundDown8(n)
  {
  }

  /** A Write of bytes is under way, since accepted was that, and free bytes were free. */
  ghost predicate Writing(s: State, bytes: seq<byte>, accepted: seq<byte>, free: nat) {
    && s.accepted == accepted && |s.buffer| - 1 - (|s.accepted| - |s.consumed|) >= free
    && match s.producer
       case Idle => false
       case Called(b) => b == bytes
       case SawReadPos(b, _, seen) => b == bytes && |s.buffer| - 1 - (|accepted| - seen) >= free
       case Copying(b, _, _, _, _) => |b| <= |bytes| && b == bytes[..|b|] && Takes(|b|, bytes, free)
  }

  ghost predicate Wrote(s: State, bytes: seq<byte>, accepted: seq<byte>, free: nat) {
    exists n :: 0 <= n <= |bytes| && Takes(n, bytes, free) && s.accepted == accepted + bytes[..n]
  }

  lemma LoadWrites(s: State, bytes: seq<byte>, accepted: seq<byte>, free: nat)
    requires Inv(s) && CanLoadWritePos(s) && Writing(s, bytes, accepted, free)
    ensures var t := LoadWritePos(s);
            if t.producer.Idle? then Wrote(t, bytes, accepted, free) else Writing(t, bytes, accepted, free)
  {
    hide Slot, Points, Window;
    var p := s.producer;
    FreeFromSeen(|s.buffer|, p.readPos, s.writePos, p.seen, |s.accepted|);
    RoundedGrows(free, FreeBytes(|s.buffer|, p.readPos, s.writePos));
    var n := Acceptable(|s.buffer|, p.readPos, s.writePos, |p.bytes|);
    assert Takes(n, bytes, free);
    assert accepted + bytes[..0] == accepted;
  }

  lemma PublishWrites(s: State, bytes: seq<byte>, accepted: seq<byte>, free: nat)
    requires CanPublishWrite(s) && Writing(s, bytes, accepted, free)
    ensures PublishWrite(s).producer.Idle? && Wrote(PublishWrite(s), bytes, accepted, free)
  {
    hide WriteEnd;
    assert s.producer.bytes == bytes[..|s.producer.bytes|];
  }

  lemma StepWrites(s: State, bytes: seq<byte>, accepted: seq<byte>, free: nat, a: Action)
    requires Inv(s) && Enabled(s, a) && Writing(s, bytes, accepted, free)
    ensures var t := Step(s, a);
            if t.producer.Idle? then Wrote(t, bytes, accepted, free) else Writing(t, bytes, accepted, free)
  {
    hide Slot, Points, Window, WriteEnd, WriteTarget, ExactEnd, ExactSource, Wrote;
    match a
    case WriteLoadsWritePos => LoadWrites(s, bytes, accepted, free);
    case WritePublishes => PublishWrites(s, bytes, accepted, free);
    case _ =>
  }

  lemma {:induction false} RunWrites(s: State, bytes: seq<byte>, accepted: seq<byte>, free: nat, actions: seq<Action>)
    requires Inv(s) && Writing(s, bytes, accepted, free)
    ensures var t := RunWrite(s, actions); t.producer.Idle? ==> Wrote(t, bytes, accepted, free)
    decreases actions
  {
    if actions != [] {
      hide Inv, Writing, Wrote;
      NotIdle(s, bytes, accepted, free);
      if Enabled(s, actions[0]) {
        StepKeepsInv(s, actions[0]);
        StepWrites(s, bytes, accepted, free, actions[0]);
        if !Step(s, actions[0]).producer.Idle? {
          RunWrites(Step(s, actions[0]), bytes, accepted, free, actions[1..]);
        }
      } else {
        RunWrites(s, bytes, accepted, free, actions[1..]);
      }
    } else {
      NotIdle(s, bytes, accepted, free);
    }
  }

  lemma NotIdle(s: State, bytes: seq<byte>, accepted: seq<byte>, free: nat)
    requires Writing(s, bytes, accepted, free)
    ensures !s.producer.Idle?
  {
  }

  /**
    However the consumer's steps fall: when a Write of bytes returns, the pipe has accepted the first n of them and
    nothing else; n is all of them or a multiple of 8, and no less than what was free at the call allows.
   */
  lemma WriteReturns(s: State, bytes: seq<byte>, actions: seq<Action>)
    requires Inv(s) && s.producer.Idle?
    ensures var t := RunWrite(Step(s, CallWrite(bytes)), actions);
            var free := |s.buffer| - 1 - (|s.accepted| - |s.consumed|);
            t.producer.Idle? ==>
              exists n: nat ::
                && n <= |bytes| && (n == |bytes| || n % 8 == 0) && n + 7 >= Min(|bytes|, free)
                && t.accepted == s.accepted + bytes[..n]
  {
    var s' := Step(s, CallWrite(bytes));
    var free := |s.buffer| - 1 - (|s.accepted| - |s.consumed|);
    CallKeepsInv(s, CallWrite(bytes));
    RunWrites(s', bytes, s.accepted, free, actions);
    var t := RunWrite(s', actions);
    if t.producer.Idle? {
      var n :| 0 <= n <= |bytes| && Takes(n, bytes, free) && t.accepted == s.accepted + bytes[..n];
    }
  }

  /** A ReadExact of count bytes is under way, since consumed was that, and stored bytes were stored. */
  ghost predicate Exacting(s: State, count: nat, consumed: seq<byte>, stored: nat) {
    && s.consumed == consumed && |s.accepted| - |consumed| >= stored
    && match s.consumer
       case ExactCalled(n) => n == count
       case ExactSawReadPos(n, _) => n == count
       case ExactCopying(n, _, _, _, _) => n == count
       case _ => false
  }

  ghost predicate Exacted(s: State, count: nat, consumed: seq<byte>, stored: nat) {
    && consumed <= s.consumed
    && (|s.consumed| == |consumed| + count || (s.consumed == consumed && stored < count))
  }

  lemma StepExacts(s: State, count: nat, consumed: seq<byte>, stored: nat, a: Action)
    requires Inv(s) && Enabled(s, a) && Exacting(s, count, consumed, stored)
    ensures var t := Step(s, a);
            if t.consumer.Ready? then Exacted(t, count, consumed, stored) else Exacting(t, count, consumed, stored)
  {
    hide Slot, Points, Window, WriteEnd, WriteTarget, ExactEnd, ExactSource;
    if a.ExactLoadsWritePos? {
      ExactLoadKeepsInv(s);
    }
  }

  lemma {:induction false} RunExacts(s: State, count: nat, consumed: seq<byte>, stored: nat, actions: seq<Action>)
    requires Inv(s) && Exacting(s, count, consumed, stored)
    ensures var t := RunRead(s, actions); t.consumer.Ready? ==> Exacted(t, count, consumed, stored)
    decreases actions
  {
    NotReady(s, count, consumed, stored);
    if actions != [] {
      hide Inv, Exacting, Exacted;
      if Enabled(s, actions[0]) {
        StepKeepsInv(s, actions[0]);
        StepExacts(s, count, consumed, stored, actions[0]);
        if !Step(s, actions[0]).consumer.Ready? {
          RunExacts(Step(s, actions[0]), count, consumed, stored, actions[1..]);
        }
      } else {
        RunExacts(s, count, consumed, stored, actions[1..]);
      }
    }
  }

  lemma NotReady(s: State, count: nat, consumed: seq<byte>, stored: nat)
    requires Exacting(s, count, consumed, stored)
    ensures !s.consumer.Ready?
  {
  }

  /**
    However the producer's steps fall: when a ReadExact returns, it has consumed exactly the next count bytes, or
    none at all, and that only if fewer were stored at the call.
   */
  lemma ReadExactReturns(s: State, count: nat, actions: seq<Action>)
    requires Inv(s) && s.consumer.Ready?
    ensures var t := RunRead(Step(s, CallReadExact(count)), actions);
            t.consumer.Ready? ==>
              && s.consumed <= t.consumed
              && (|t.consumed| == |s.consumed| + count || (t.consumed == s.consumed && |s.accepted| - |s.consumed| < count))
  {
    CallKeepsInv(s, CallReadExact(count));
    RunExacts(Step(s, CallReadExact(count)), count, s.consumed, |s.accepted| - |s.consumed|, actions);
  }
}
