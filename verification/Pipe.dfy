/**
  drivers/TBPipe/TBPipe.cpp: the ring buffer between the UART interrupt and the main code.

  This module holds the position arithmetic and the class itself, run by one caller at a time.
  PipeInterleaving runs the same arithmetic with the two sides interleaved.
 */
module Pipe {
  import opened Bytes

  /**
    The positions the pipe can be in. One slot always stays empty, so equal positions mean "empty".
    readPos may rest on size itself: ReadExact leaves it there, as an alias of 0.
    The constructor takes a C int, so no sum of two positions reaches 2^32 and nothing wraps.
   */
  predicate Shape(size: nat, readPos: nat, writePos: nat) {
    0 < size < 0x8000_0000 && readPos <= size && writePos < size
  }

  /** The bytes between the two positions, oldest first. */
  function Stored(buffer: seq<byte>, readPos: nat, writePos: nat): (r: seq<byte>)
    requires Shape(|buffer|, readPos, writePos)
  {
    if writePos < readPos then buffer[readPos..] + buffer[..writePos] else buffer[readPos..writePos]
  }

  function FreeBytes(size: nat, readPos: nat, writePos: nat): (r: nat)
    requires Shape(size, readPos, writePos)
    ensures r < size
  {
    if writePos < readPos then readPos - writePos - 1 else size + readPos - writePos - 1
  }

  function AvailableBytes(size: nat, readPos: nat, writePos: nat): (r: nat)
    requires Shape(size, readPos, writePos)
  {
    size - 1 - FreeBytes(size, readPos, writePos)
  }

  /** The two counters measure the contents: every slot but one is either stored or free. */
  lemma CountersMeasureContents(buffer: seq<byte>, readPos: nat, writePos: nat)
    requires Shape(|buffer|, readPos, writePos)
    ensures AvailableBytes(|buffer|, readPos, writePos) == |Stored(buffer, readPos, writePos)|
    ensures FreeBytes(|buffer|, readPos, writePos) == |buffer| - 1 - |Stored(buffer, readPos, writePos)|
  {
  }

  /** free_bytes & ~7: the free space a write may use. */
  function RoundDown8(n: nat): (r: nat)
    ensures r <= n < r + 8 && r % 8 == 0
  {
    n - n % 8
  }

  /** How many of count bytes a Write that saw these positions takes. */
  function Acceptable(size: nat, readPos: nat, writePos: nat, count: nat): (r: nat)
    requires Shape(size, readPos, writePos)
  {
    Min(count, RoundDown8(FreeBytes(size, readPos, writePos)))
  }

  /** The i-th slot after readPos, around the end of the buffer. */
  function Around(size: nat, readPos: nat, i: nat): nat {
    if readPos + i < size then readPos + i else readPos + i - size
  }

  /** Stored read slot by slot: the form the copying code works on. */
  lemma StoredAt(buffer: seq<byte>, readPos: nat, writePos: nat)
    requires Shape(|buffer|, readPos, writePos)
    ensures forall i :: 0 <= i < |Stored(buffer, readPos, writePos)| ==>
              && Around(|buffer|, readPos, i) < |buffer|
              && Stored(buffer, readPos, writePos)[i] == buffer[Around(|buffer|, readPos, i)]
  {
  }

  /** Filling the slots after the stored bytes, and moving writePos past them, appends. */
  lemma StoredAppend(before: seq<byte>, after: seq<byte>, readPos: nat, writePos: nat, bytes: seq<byte>)
    requires Shape(|before|, readPos, writePos) && |after| == |before|
    requires |bytes| <= FreeBytes(|before|, readPos, writePos)
    requires forall i :: 0 <= i < |Stored(before, readPos, writePos)| ==>
               after[Around(|before|, readPos, i)] == before[Around(|before|, readPos, i)]
    requires forall i :: 0 <= i < |bytes| ==> after[Around(|before|, writePos, i)] == bytes[i]
    ensures Stored(after, readPos, Around(|before|, writePos, |bytes|)) == Stored(before, readPos, writePos) + bytes
  {
    var next := Around(|before|, writePos, |bytes|);
    var held, grown := Stored(before, readPos, writePos), Stored(after, readPos, next);
    CountersMeasureContents(before, readPos, writePos);
    StoredAt(before, readPos, writePos);
    StoredAt(after, readPos, next);
    assert |grown| == |held| + |bytes|;
    forall i | 0 <= i < |grown| ensures grown[i] == (held + bytes)[i] {
      if i >= |held| {
        assert Around(|before|, readPos, i) == Around(|before|, writePos, i - |held|);
      }
    }
  }

  // The copying of Write and ReadExact, byte by byte: what the class does at once, PipeInterleaving does in steps.

  /** The slot that the memcpy calls of Write fill with byte i of count. */
  function WriteTarget(size: nat, readPos: nat, writePos: nat, count: nat, i: nat): nat
    requires Shape(size, readPos, writePos)
  {
    if writePos < readPos then writePos + i
    else if size - writePos >= count then writePos + i
    else if i < size - writePos then writePos + i
    else i - (size - writePos)
  }

  /** The position Write publishes. */
  function WriteEnd(size: nat, readPos: nat, writePos: nat, count: nat): nat
    requires Shape(size, readPos, writePos)
  {
    var next :=
      if writePos < readPos then writePos + count
      else if size - writePos >= count then writePos + count
      else count - (size - writePos);
    if next == size then 0 else next
  }

  /** The slot that the memcpy calls of ReadExact take byte i of count from. */
  function ExactSource(size: nat, readPos: nat, writePos: nat, count: nat, i: nat): nat
    requires Shape(size, readPos, writePos)
  {
    if writePos < readPos && size - readPos < count && i >= size - readPos then i - (size - readPos)
    else readPos + i
  }

  /** The position ReadExact publishes: only the second half of the code turns size into 0. */
  function ExactEnd(size: nat, readPos: nat, writePos: nat, count: nat): nat
    requires Shape(size, readPos, writePos)
  {
    if writePos < readPos && size - readPos >= count then readPos + count
    else
      var from := if writePos < readPos then 0 else readPos;
      var left := if writePos < readPos then count - (size - readPos) else count;
      if left > 0 && from + left == size then 0 else from + left
  }

  /** With no more bytes than are free, Write fills the slots after writePos, around the end. */
  lemma TargetIsAround(size: nat, readPos: nat, writePos: nat, count: nat)
    requires Shape(size, readPos, writePos) && 0 < count <= FreeBytes(size, readPos, writePos)
    ensures forall i: nat :: i < count ==>
              WriteTarget(size, readPos, writePos, count, i) == Around(size, writePos, i) < size
    ensures WriteEnd(size, readPos, writePos, count) == Around(size, writePos, count)
  {
  }

  /** The position ReadExact publishes leaves exactly what comes after the bytes it takes. */
  lemma StoredDrop(buffer: seq<byte>, readPos: nat, writePos: nat, count: nat)
    requires Shape(|buffer|, readPos, writePos) && count <= |Stored(buffer, readPos, writePos)|
    ensures var end := ExactEnd(|buffer|, readPos, writePos, count);
            Shape(|buffer|, end, writePos) && Stored(buffer, end, writePos) == Stored(buffer, readPos, writePos)[count..]
  {
  }

  /** Slots that Write leaves alone are all that is stored. */
  lemma UntouchedStored(before: seq<byte>, after: seq<byte>, readPos: nat, writePos: nat, count: nat)
    requires Shape(|before|, readPos, writePos) && |after| == |before|
    requires 0 < count <= FreeBytes(|before|, readPos, writePos)
    requires forall j :: 0 <= j < |before|
                         && (forall i: nat :: i < count ==> j != WriteTarget(|before|, readPos, writePos, count, i))
                         ==> after[j] == before[j]
    ensures forall i :: 0 <= i < |Stored(before, readPos, writePos)| ==>
              after[Around(|before|, readPos, i)] == before[Around(|before|, readPos, i)]
  {
    TargetIsAround(|before|, readPos, writePos, count);
    CountersMeasureContents(before, readPos, writePos);
    forall i | 0 <= i < |Stored(before, readPos, writePos)|
      ensures after[Around(|before|, readPos, i)] == before[Around(|before|, readPos, i)]
    {
      forall k: nat | k < count ensures Around(|before|, readPos, i) != WriteTarget(|before|, readPos, writePos, count, k) {
      }
    }
  }

  /** What ReadStart hands out: no data, or size bytes of the buffer from start. */
  datatype Slice = Null | At(start: nat, size: nat)
  {
    function Size(): nat {
      if Null? then 0 else size
    }

    /** The bytes a reader of the slice sees. */
    function Bytes(buffer: seq<byte>): seq<byte>
      requires At? ==> start + size <= |buffer|
    {
      if Null? then [] else buffer[start..start + size]
    }
  }

  class TBPipe {
    const buffer: array<byte>
    var readPos: nat
    var writePos: nat
    var readPosTmp: nat

    ghost predicate Valid()
      reads this
    {
      Shape(buffer.Length, readPos, writePos)
    }

    ghost function Contents(): seq<byte>
      reads this, buffer
      requires Valid()
    {
      Stored(buffer[..], readPos, writePos)
    }

    constructor (bufferSize: nat)
      requires 0 < bufferSize < 0x8000_0000
      ensures Valid() && fresh(buffer) && buffer.Length == bufferSize
      ensures Contents() == []
    {
      buffer := new byte[bufferSize];
      readPos, writePos, readPosTmp := 0, 0, 0;
    }

    /** memcpy into the buffer. */
    method CopyIn(at: nat, bytes: seq<byte>)
      requires at + |bytes| <= buffer.Length
      modifies buffer
      ensures forall i :: 0 <= i < |bytes| ==> buffer[at + i] == bytes[i]
      ensures forall i :: 0 <= i < at || at + |bytes| <= i < buffer.Length ==> buffer[i] == old(buffer[i])
    {
      forall i | 0 <= i < |bytes| {
        buffer[at + i] := bytes[i];
      }
    }

    /** The copying part of Write: one memcpy, or two around the end. Returns the position to publish. */
    method CopyAround(bytes: seq<byte>) returns (writePos: nat)
      requires Valid()
      requires 0 < |bytes| <= FreeBytes(buffer.Length, readPos, this.writePos)
      modifies buffer
      ensures writePos == WriteEnd(buffer.Length, readPos, this.writePos, |bytes|)
      ensures forall i: nat :: i < |bytes| ==>
                WriteTarget(buffer.Length, readPos, this.writePos, |bytes|, i) < buffer.Length
                && buffer[WriteTarget(buffer.Length, readPos, this.writePos, |bytes|, i)] == bytes[i]
      ensures forall j :: 0 <= j < buffer.Length
                          && (forall i: nat :: i < |bytes| ==>
                                j != WriteTarget(buffer.Length, readPos, this.writePos, |bytes|, i))
                          ==> buffer[j] == old(buffer[j])
    {
      writePos := this.writePos;
      if writePos < readPos {
        CopyIn(writePos, bytes);
        writePos := writePos + |bytes|;
      } else {
        var countToEnd := buffer.Length - writePos;
        if countToEnd >= |bytes| {
          CopyIn(writePos, bytes);
          writePos := writePos + |bytes|;
        } else {
          CopyIn(writePos, bytes[..countToEnd]);
          CopyIn(0, bytes[countToEnd..]);
          writePos := |bytes| - countToEnd;
        }
      }
      if writePos == buffer.Length {
        writePos := 0;
      }
      forall j | 0 <= j < buffer.Length
        && (forall i: nat :: i < |bytes| ==> j != WriteTarget(buffer.Length, readPos, this.writePos, |bytes|, i))
        ensures buffer[j] == old(buffer[j])
      {
        var i := if this.writePos <= j then j - this.writePos else j + buffer.Length - this.writePos;
        assert i < |bytes| ==> WriteTarget(buffer.Length, readPos, this.writePos, |bytes|, i) == j;
      }
    }

    /** Appends a prefix of bytes: all of it, or as much as fits once the free space is cut to a multiple of 8. */
    method Write(bytes: seq<byte>) returns (count: nat)
      requires Valid()
      modifies this`writePos, buffer
      ensures Valid()
      ensures count == Min(|bytes|, RoundDown8(buffer.Length - 1 - |old(Contents())|))
      ensures writePos == if count == 0 then old(writePos) else WriteEnd(buffer.Length, readPos, old(writePos), count)
      ensures Contents() == old(Contents()) + bytes[..count]
    {
      var freeBytes := RoundDown8(FreeBytes(buffer.Length, readPos, writePos));
      CountersMeasureContents(buffer[..], readPos, writePos);
      count := |bytes|;
      if count > freeBytes {
        count := freeBytes;
      }
      if count == 0 {
        return;
      }
      ghost var before := buffer[..];
      var writePos := CopyAround(bytes[..count]);
      TargetIsAround(buffer.Length, readPos, this.writePos, count);
      UntouchedStored(before, buffer[..], readPos, this.writePos, count);
      StoredAppend(before, buffer[..], readPos, this.writePos, bytes[..count]);
      this.writePos := writePos;
    }

    /**
      Hands out a prefix of the contents and notes in readPosTmp where the rest begins.
      The prefix is empty although bytes are stored exactly when readPos rests on its alias of 0.
     */
    method ReadStart() returns (data: Slice)
      requires Valid()
      modifies this`readPosTmp
      ensures data.At? ==> data.start + data.size <= buffer.Length
      ensures readPosTmp < buffer.Length
      ensures data.Bytes(buffer[..]) + Stored(buffer[..], readPosTmp, writePos) == Contents()
      ensures data.Size() == 0 && Contents() != [] <==> readPos == buffer.Length && writePos > 0
      ensures data.Null? <==> readPos == writePos
      ensures readPosTmp == writePos || (readPosTmp == 0 && writePos < readPos)
    {
      var readPos := this.readPos;
      if writePos == readPos {
        readPosTmp := readPos;
        return Null;
      }
      if writePos < readPos {
        data := At(readPos, buffer.Length - readPos);
        readPos := 0;
      } else {
        data := At(readPos, writePos - readPos);
        readPos := readPos + data.size;
        if readPos == buffer.Length {
          readPos := 0;
        }
      }
      readPosTmp := readPos;
    }

    method ReadEnd()
      requires Valid() && readPosTmp <= buffer.Length
      modifies this`readPos
      ensures Valid()
      ensures readPos == readPosTmp && Contents() == old(Stored(buffer[..], readPosTmp, writePos))
    {
      readPos := readPosTmp;
    }

    /** Takes exactly count bytes from the front, or nothing when fewer are stored. */
    method ReadExact(count: nat) returns (ok: bool, data: seq<byte>)
      requires Valid()
      modifies this`readPos
      ensures Valid()
      ensures ok <==> count <= |old(Contents())|
      ensures ok ==> data == old(Contents())[..count] && Contents() == old(Contents())[count..]
      ensures ok ==> readPos == ExactEnd(buffer.Length, old(readPos), writePos, count)
      ensures !ok ==> readPos == old(readPos) && data == []
    {
      data := [];
      var available := AvailableBytes(buffer.Length, readPos, writePos);
      CountersMeasureContents(buffer[..], readPos, writePos);
      if available < count {
        return false, data;
      }
      var readPos;
      data, readPos := CopyOut(count);
      this.readPos := readPos;
      ok := true;
    }

    /** The copying part of ReadExact: one memcpy, or two around the end. */
    method CopyOut(count: nat) returns (data: seq<byte>, readPos: nat)
      requires Valid() && count <= |Contents()|
      ensures Shape(buffer.Length, readPos, writePos) && readPos == ExactEnd(buffer.Length, this.readPos, writePos, count)
      ensures data == Contents()[..count] && Stored(buffer[..], readPos, writePos) == Contents()[count..]
    {
      var from, left := this.readPos, count;
      data := [];
      StoredDrop(buffer[..], this.readPos, writePos, count);
      if writePos < from {
        var size := buffer.Length - from;
        if size >= left {
          data := buffer[from..from + left];
          from := from + left;
          left := 0;
        } else {
          data := buffer[from..from + size];
          from := 0;
          left := left - size;
        }
      }
      if left > 0 {
        data := data + buffer[from..from + left];
        from := from + left;
        if from == buffer.Length {
          from := 0;
        }
      }
      readPos := from;
    }

    /** Two passes empty the pipe, whichever way its contents wrap. */
    method Clear()
      requires Valid()
      modifies this
      ensures Valid() && Contents() == []
    {
      var data := ReadStart();
      ReadEnd();
      data := ReadStart();
      ReadEnd();
      assert readPos == writePos;
    }
  }
}
