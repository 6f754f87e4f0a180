/**
  flash_write_data of drivers/flash/flash.c: a write of any length, split into page programs for a chip whose
  page program wraps around inside its page.
 */
module Flash {
  import opened Bytes

  const PAGE := 256
  const CHUNK := 32

  /** What a cell holds after it is programmed, given what it held and the byte sent: the chip's own affair. */
  type Cell = (byte, byte) -> byte

  // --- the chip -------------------------------------------------------------------------------------------------

  /** The address after a in a's page: after the last, the first. */
  function NextInPage(a: nat): (r: nat)
    ensures r / PAGE == a / PAGE
    ensures a % PAGE < PAGE - 1 ==> r == a + 1
  {
    if a % PAGE == PAGE - 1 then a + 1 - PAGE else a + 1
  }

  function Programmed(burn: Cell, cells: seq<byte>, at: nat, data: seq<byte>): (r: seq<byte>)
    requires at < |cells| && |cells| % PAGE == 0
    ensures |r| == |cells|
    decreases |data|
  {
    if data == [] then cells
    else
      NextIsInChip(|cells|, at);
      Programmed(burn, cells[at := burn(cells[at], data[0])], NextInPage(at), data[1..])
  }

  lemma NextIsInChip(size: nat, at: nat)
    requires at < size && size % PAGE == 0
    ensures NextInPage(at) < size
  {
  }

  /** Every byte of the data goes to its own address from at on. */
  function Written(burn: Cell, cells: seq<byte>, at: nat, data: seq<byte>): (r: seq<byte>)
    requires at + |data| <= |cells|
    ensures |r| == |cells|
  {
    seq(|cells|, i requires 0 <= i < |cells| =>
      if at <= i < at + |data| then burn(cells[i], data[i - at]) else cells[i])
  }

  /** A page program that stays in its page does not wrap. */
  lemma {:induction false} NoWrap(burn: Cell, cells: seq<byte>, at: nat, data: seq<byte>)
    requires at < |cells| && |cells| % PAGE == 0 && at % PAGE + |data| <= PAGE
    ensures at + |data| <= |cells| && Programmed(burn, cells, at, data) == Written(burn, cells, at, data)
    decreases |data|
  {
    InChip(|cells|, at, |data|);
    if data != [] {
      NextIsInChip(|cells|, at);
      var next := cells[at := burn(cells[at], data[0])];
      if |data| > 1 {
        StillInPage(at, |data|);
        NoWrap(burn, next, NextInPage(at), data[1..]);
      }
      assert Written(burn, next, at + 1, data[1..]) == Written(burn, cells, at, data);
    }
  }

  lemma InChip(size: nat, at: nat, n: nat)
    requires at < size && size % PAGE == 0 && at % PAGE + n <= PAGE
    ensures at + n <= size
  {
  }

  lemma StillInPage(at: nat, n: nat)
    requires n > 1 && at % PAGE + n <= PAGE
    ensures NextInPage(at) == at + 1 && (at + 1) % PAGE + (n - 1) <= PAGE
  {
  }

  lemma WrittenInParts(burn: Cell, cells: seq<byte>, at: nat, a: seq<byte>, b: seq<byte>)
    requires at + |a| + |b| <= |cells|
    ensures Written(burn, Written(burn, cells, at, a), at + |a|, b) == Written(burn, cells, at, a + b)
  {
  }

  /** A page program that was sent: where, and how many bytes. */
  datatype Program = Program(at: nat, length: nat)

  /** Short, and inside one page. */
  predicate Fits(p: Program) {
    0 < p.length <= 32 && p.at % 256 + p.length <= 256
  }

  class Chip {
    const burn: Cell
    const cells: array<byte>
    var programs: seq<Program>

    /** Whole pages, and no more than a 24-bit address reaches. */
    predicate Valid() {
      cells.Length % PAGE == 0 && cells.Length <= 0x100_0000
    }

    constructor (burn: Cell, size: nat)
      requires size % PAGE == 0 && size <= 0x100_0000
      ensures Valid() && fresh(cells) && cells.Length == size && this.burn == burn && programs == []
    {
      this.burn := burn;
      cells := new byte[size];
      programs := [];
    }

    /** flash_page_program, down to what the chip does with it. */
    method PageProgram(at: nat, data: seq<byte>)
      requires Valid() && at < cells.Length
      modifies this`programs, cells
      ensures cells[..] == Programmed(burn, old(cells[..]), at, data)
      ensures programs == old(programs) + [Program(at, |data|)]
    {
      var place: nat, i := at, 0;
      while i < |data|
        invariant i <= |data| && place < cells.Length && programs == old(programs)
        invariant Programmed(burn, cells[..], place, data[i..]) == Programmed(burn, old(cells[..]), at, data)
      {
        ghost var before := cells[..];
        NextIsInChip(cells.Length, place);
        cells[place] := burn(cells[place], data[i]);
        assert cells[..] == before[place := burn(before[place], data[i])];
        assert data[i..][1..] == data[i + 1..];
        place := NextInPage(place);
        i := i + 1;
      }
      programs := programs + [Program(at, |data|)];
    }

    /** The inner loop: what belongs to one page, in chunks. */
    method WritePage(at: nat, data: seq<byte>)
      requires Valid() && at < cells.Length && at % PAGE + |data| <= PAGE
      modifies this`programs, cells
      ensures at + |data| <= cells.Length && cells[..] == Written(burn, old(cells[..]), at, data)
      ensures |programs| >= |old(programs)| && programs[..|old(programs)|] == old(programs)
      ensures forall i :: |old(programs)| <= i < |programs| ==> Fits(programs[i])
    {
      hide Written, Programmed;
      InChip(cells.Length, at, |data|);
      ghost var was := cells[..];
      var done := 0;
      NothingWritten(burn, was, at);
      while done < |data|
        invariant done <= |data|
        invariant cells[..] == Written(burn, was, at, data[..done])
        invariant |programs| >= |old(programs)| && programs[..|old(programs)|] == old(programs)
        invariant forall i :: |old(programs)| <= i < |programs| ==> Fits(programs[i])
      {
        var len := if |data| - done > CHUNK then CHUNK else |data| - done;
        ChunkInPage(at, done, len, |data|);
        var chunk := data[done..done + len];
        NoWrap(burn, cells[..], at + done, chunk);
        WrittenInParts(burn, was, at, data[..done], chunk);
        assert data[..done] + chunk == data[..done + len];
        PageProgram(at + done, chunk);
        done := done + len;
      }
      assert data[..done] == data;
    }

    /** Splits at the page borders. */
    method WriteData(at: nat, data: seq<byte>)
      requires Valid() && at + |data| <= cells.Length
      modifies this`programs, cells
      ensures cells[..] == Written(burn, old(cells[..]), at, data)
      ensures forall i :: 0 <= i < |data| ==> cells[at + i] == burn(old(cells[..])[at + i], data[i])
      ensures forall i :: 0 <= i < cells.Length && !(at <= i < at + |data|) ==> cells[i] == old(cells[..])[i]
      ensures |programs| >= |old(programs)| && programs[..|old(programs)|] == old(programs)
      ensures forall i :: |old(programs)| <= i < |programs| ==> Fits(programs[i])
    {
      hide Written, Programmed;
      ghost var was := cells[..];
      var done := 0;
      NothingWritten(burn, was, at);
      while done < |data|
        invariant done <= |data|
        invariant cells[..] == Written(burn, was, at, data[..done])
        invariant |programs| >= |old(programs)| && programs[..|old(programs)|] == old(programs)
        invariant forall i :: |old(programs)| <= i < |programs| ==> Fits(programs[i])
      {
        var pageRemain := PAGE - (at + done) % PAGE;
        var writeLen := if |data| - done < pageRemain then |data| - done else pageRemain;
        var part := data[done..done + writeLen];
        WrittenInParts(burn, was, at, data[..done], part);
        assert data[..done] + part == data[..done + writeLen];
        WritePage(at + done, part);
        done := done + writeLen;
      }
      assert data[..done] == data;
      WrittenAt(burn, was, at, data, cells[..]);
    }
  }

  lemma WrittenAt(burn: Cell, was: seq<byte>, at: nat, data: seq<byte>, cells: seq<byte>)
    requires at + |data| <= |was| && cells == Written(burn, was, at, data)
    ensures forall i :: 0 <= i < |data| ==> cells[at + i] == burn(was[at + i], data[i])
    ensures forall i :: 0 <= i < |cells| && !(at <= i < at + |data|) ==> cells[i] == was[i]
  {
  }

  lemma NothingWritten(burn: Cell, cells: seq<byte>, at: nat)
    requires at <= |cells|
    ensures Written(burn, cells, at, []) == cells
  {
  }

  lemma ChunkInPage(at: nat, done: nat, len: nat, total: nat)
    requires at % PAGE + total <= PAGE && done + len <= total && len > 0
    ensures (at + done) % PAGE + len <= PAGE
  {
  }
}
