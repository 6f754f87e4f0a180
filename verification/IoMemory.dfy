/**
  sdk/lib/drivers/iomem.c, the block allocator of the uncached memory, and sys_brk of
  sdk/lib/bsp/syscalls.c, which grows the cached heap from the other end of the same RAM.

  A run of blocks is written into the table at its first and last block only; the blocks between read as 0,
  like free ones. The downward scan is right because it always meets a run at its last block.
 */
module IoMemory {
  const BLOCK := 256
  const CACHED_OFFSET := 0x4000_0000
  const NONE := 0xFFFF_FFFF
  const ENOMEM := 12

  newtype uint16 = x: int | 0 <= x < 0x1_0000

  /** The runs handed out and not yet freed: first block to number of blocks. */
  type Runs = map<nat, nat>

  /** The runs are non-empty, inside the table and pairwise disjoint. */
  ghost predicate Disjoint(runs: Runs, size: nat) {
    && (forall o :: o in runs ==> runs[o] > 0 && o + runs[o] <= size)
    && (forall o, p :: o in runs && p in runs && o < p ==> o + runs[o] <= p)
  }

  /** The table is exactly the length tags of the runs, at their first and last blocks. */
  ghost predicate Tagged(runs: Runs, tags: seq<uint16>) {
    && Disjoint(runs, |tags|)
    && (forall o :: o in runs ==> tags[o] as nat == runs[o] && tags[o + runs[o] - 1] as nat == runs[o])
    && (forall b {:trigger IsEnd(runs, b)} :: 0 <= b < |tags| && tags[b] != 0 ==> IsEnd(runs, b))
  }

  /** The block is the first or last of a run. */
  ghost predicate IsEnd(runs: Runs, block: int) {
    exists o :: o in runs && (block == o || block + 1 == o + runs[o])
  }

  ghost predicate Covered(runs: Runs, block: int) {
    exists o :: o in runs && o <= block < o + runs[o]
  }

  /** n blocks from o on are in the table and free. */
  ghost predicate Fits(runs: Runs, size: nat, o: nat, n: nat) {
    o + n <= size && forall b :: o <= b < o + n ==> !Covered(runs, b)
  }

  /** No run reaches across the border below block b. */
  ghost predicate Border(runs: Runs, b: int) {
    forall o :: o in runs ==> !(o < b < o + runs[o])
  }

  /** Where the downward scan goes after looking at block b: below it, or below the run it ends. */
  function Next(tags: seq<uint16>, b: nat): int
    requires b < |tags|
  {
    if tags[b] == 0 then b else b + 1 - tags[b] as int
  }

  /** Seen from a border, the block below it is free exactly when its tag is 0, else it ends a run of that length. */
  lemma BelowBorder(runs: Runs, tags: seq<uint16>, b: nat)
    requires Tagged(runs, tags) && b < |tags| && Border(runs, b + 1)
    ensures 0 <= Next(tags, b) && Border(runs, Next(tags, b))
    ensures tags[b] == 0 ==> !Covered(runs, b) && b !in runs
    ensures tags[b] != 0 ==> var o := Next(tags, b); o in runs && runs[o] == tags[b] as nat && o <= b
    ensures forall p :: p in runs && Next(tags, b) < p ==> b < p
  {
    if tags[b] != 0 {
      assert IsEnd(runs, b);
      var o :| o in runs && (b == o || b == o + runs[o] - 1);
      assert !(o < b + 1 < o + runs[o]);
      assert o <= b < o + runs[o];
    }
  }

  /** The table alone determines the runs, although it records only their ends. */
  lemma TagsDetermineRuns(runs: Runs, runs': Runs, tags: seq<uint16>)
    requires Tagged(runs, tags) && Tagged(runs', tags)
    ensures runs == runs'
  {
    RunsAgreeBelow(runs, runs', tags, |tags|);
  }

  ghost predicate SameFrom(runs: Runs, runs': Runs, b: nat) {
    forall o {:trigger o in runs} {:trigger o in runs'} :: b <= o ==>
      (o in runs <==> o in runs') && (o in runs ==> runs[o] == runs'[o])
  }

  /** One step of the scan over both sets of runs. */
  lemma SameFromNext(runs: Runs, runs': Runs, tags: seq<uint16>, b: nat)
    requires Tagged(runs, tags) && Tagged(runs', tags) && b < |tags|
    requires Border(runs, b + 1) && Border(runs', b + 1) && SameFrom(runs, runs', b + 1)
    ensures 0 <= Next(tags, b) <= b && Border(runs, Next(tags, b)) && Border(runs', Next(tags, b))
    ensures SameFrom(runs, runs', Next(tags, b))
  {
    BelowBorder(runs, tags, b);
    BelowBorder(runs', tags, b);
  }

  lemma {:induction false} RunsAgreeBelow(runs: Runs, runs': Runs, tags: seq<uint16>, b: nat)
    requires Tagged(runs, tags) && Tagged(runs', tags) && b <= |tags|
    requires Border(runs, b) && Border(runs', b) && SameFrom(runs, runs', b)
    ensures SameFrom(runs, runs', 0)
    decreases b
  {
    if b > 0 {
      SameFromNext(runs, runs', tags, b - 1);
      RunsAgreeBelow(runs, runs', tags, Next(tags, b - 1));
    }
  }

  // --- the class -----------------------------------------------------------------------------------

  function Ceil(size: nat): (n: nat)
    ensures n * BLOCK < size + BLOCK && size <= n * BLOCK
    ensures n == 0 <==> size == 0
  {
    if size % BLOCK == 0 then size / BLOCK else size / BLOCK + 1
  }

  /** o is the highest block at which n free blocks start. */
  ghost predicate HighestFit(runs: Runs, size: nat, o: nat, n: nat) {
    Fits(runs, size, o, n) && forall p :: p > o ==> !Fits(runs, size, p, n)
  }

  ghost predicate NoFit(runs: Runs, size: nat, n: nat) {
    forall p :: !Fits(runs, size, p, n)
  }

  /** A place that fits is apart from every run. */
  lemma FitIsApart(runs: Runs, size: nat, o: nat, n: nat)
    requires Disjoint(runs, size) && Fits(runs, size, o, n) && n > 0
    ensures o !in runs && forall p :: p in runs ==> p + runs[p] <= o || o + n <= p
  {
    forall p | p in runs ensures p != o && (p + runs[p] <= o || o + n <= p) {
      assert Covered(runs, p);
      assert o < p + runs[p] && p <= o ==> Covered(runs, o);
    }
  }

  lemma TagNewRun(runs: Runs, tags: seq<uint16>, o: nat, n: nat)
    requires Tagged(runs, tags) && n > 0 && n < 0x1_0000 && Fits(runs, |tags|, o, n)
    ensures o !in runs
    ensures Tagged(runs[o := n], tags[o := n as uint16][o + n - 1 := n as uint16])
  {
    var runs', tags' := runs[o := n], tags[o := n as uint16][o + n - 1 := n as uint16];
    FitIsApart(runs, |tags|, o, n);
    hide Fits, Covered;
    NewEnds(runs, tags, o, n);
  }

  lemma NewEnds(runs: Runs, tags: seq<uint16>, o: nat, n: nat)
    requires Tagged(runs, tags) && 0 < n < 0x1_0000 && o + n <= |tags| && o !in runs
    ensures var tags' := tags[o := n as uint16][o + n - 1 := n as uint16];
            forall b {:trigger IsEnd(runs[o := n], b)} :: 0 <= b < |tags'| && tags'[b] != 0 ==> IsEnd(runs[o := n], b)
  {
    var runs', tags' := runs[o := n], tags[o := n as uint16][o + n - 1 := n as uint16];
    forall b {:trigger IsEnd(runs', b)} | 0 <= b < |tags'| && tags'[b] != 0 ensures IsEnd(runs', b) {
      if b == o || b == o + n - 1 {
        assert o in runs' && runs'[o] == n;
      } else {
        assert IsEnd(runs, b);
        var p :| p in runs && (b == p || b == p + runs[p] - 1);
        assert p in runs' && runs'[p] == runs[p];
      }
    }
  }

  lemma FewerBlocks(size: nat, size': nat)
    requires size <= size'
    ensures size / BLOCK <= size' / BLOCK
  {
  }

  lemma NoRunsDisjoint(size: nat)
    ensures Disjoint(map[], size)
  {
  }

  lemma EmptyTable(tags: seq<uint16>)
    requires forall b :: 0 <= b < |tags| ==> tags[b] == 0
    ensures Tagged(map[], tags)
  {
  }

  lemma UntagRun(runs: Runs, tags: seq<uint16>, o: nat)
    requires Tagged(runs, tags) && o in runs
    ensures Tagged(runs - {o}, tags[o := 0][o + runs[o] - 1 := 0])
  {
    UntagEnds(runs, tags, o);
  }

  lemma UntagEnds(runs: Runs, tags: seq<uint16>, o: nat)
    requires Tagged(runs, tags) && o in runs
    ensures var tags' := tags[o := 0][o + runs[o] - 1 := 0];
            forall b {:trigger IsEnd(runs - {o}, b)} :: 0 <= b < |tags'| && tags'[b] != 0 ==> IsEnd(runs - {o}, b)
  {
    var runs', tags' := runs - {o}, tags[o := 0][o + runs[o] - 1 := 0];
    forall b {:trigger IsEnd(runs', b)} | 0 <= b < |tags'| && tags'[b] != 0 ensures IsEnd(runs', b) {
      assert IsEnd(runs, b);
      var p :| p in runs && (b == p || b == p + runs[p] - 1);
      assert p in runs' && runs'[p] == runs[p];
    }
  }

  /** The scan's bookkeeping: after counted free blocks below a border that is covered or the end, no fit lies higher. */
  ghost predicate Scanned(runs: Runs, size: nat, offset: int, counted: nat, n: nat) {
    && -1 <= offset && offset + 1 + counted <= size && counted < n
    && Border(runs, offset + 1)
    && (forall b :: offset < b <= offset + counted ==> !Covered(runs, b))
    && (offset + 1 + counted == size || Covered(runs, offset + 1 + counted))
    && (forall p :: p > offset + counted ==> !Fits(runs, size, p, n))
  }

  /** Nothing counted so far is a place for n blocks. */
  lemma NoHigherFit(runs: Runs, size: nat, offset: int, counted: nat, n: nat)
    requires Scanned(runs, size, offset, counted, n)
    ensures forall p :: p > offset && p >= 0 ==> !Fits(runs, size, p, n)
  {
    forall p | p > offset && p >= 0 ensures !Fits(runs, size, p, n) {
      if p <= offset + counted {
        assert p <= offset + 1 + counted < p + n;
      }
    }
  }

  lemma NothingFits(runs: Runs, size: nat, n: nat)
    ensures NoFit(runs, size, n) ==> forall o: nat :: !HighestFit(runs, size, o, n)
  {
  }

  /** There is only one highest place. */
  lemma HighestOnce(runs: Runs, size: nat, n: nat, o: nat)
    requires HighestFit(runs, size, o, n)
    ensures forall p: nat :: HighestFit(runs, size, p, n) ==> p == o
    ensures !NoFit(runs, size, n)
  {
  }

  lemma ScanStep(runs: Runs, tags: seq<uint16>, offset: nat, counted: nat, n: nat)
    requires Tagged(runs, tags) && offset < |tags| && Scanned(runs, |tags|, offset, counted, n)
    ensures tags[offset] == 0 ==>
              (if counted + 1 == n then HighestFit(runs, |tags|, offset, n)
               else Scanned(runs, |tags|, offset - 1, counted + 1, n))
    ensures tags[offset] != 0 ==>
              0 <= Next(tags, offset) <= offset && Scanned(runs, |tags|, Next(tags, offset) - 1, 0, n)
  {
    BelowBorder(runs, tags, offset);
    NoHigherFit(runs, |tags|, offset, counted, n);
    if tags[offset] != 0 {
      var o := Next(tags, offset);
      forall b | o <= b <= offset ensures Covered(runs, b) {
        assert o in runs && o <= b < o + runs[o];
      }
      forall p | p > o - 1 ensures !Fits(runs, |tags|, p, n) {
        if p <= offset {
          assert Covered(runs, p);
        }
      }
    }
  }

  /**
    What a call of sys_brk, malloc or free comes back with; Hung is the endless loop after "out of memory", and
    NullWrite is the clearing of a table for which the C library had no memory.
   */
  datatype Result = Returned(value: int) | Hung | NullWrite

  /** Both ends of the RAM at a glance. */
  datatype View = View(runs: Runs, size: nat, base: nat, ioLine: nat, heapLine: nat)

  /**
    The joint safety of heap and iomem: the heap's high-water line, seen uncached, is at most the iomem
    low-water line, and that is at most the start of every run.
   */
  ghost predicate Safe(v: View) {
    && Disjoint(v.runs, v.size)
    && v.heapLine - CACHED_OFFSET <= v.ioLine
    && forall o :: o in v.runs ==> v.ioLine <= v.base + BLOCK * o
  }

  /** What freeing the run at block o makes of the view. */
  ghost function AfterFree(v: View, o: nat): View
    requires o in v.runs
  {
    v.(runs := v.runs - {o}, ioLine := if v.ioLine == v.base + BLOCK * o then v.ioLine + BLOCK * v.runs[o] else v.ioLine)
  }

  /** The line may rise over the freed run: whatever is still live starts above it. */
  lemma FreeKeepsSafe(v: View, o: nat)
    requires Safe(v) && o in v.runs
    ensures Safe(AfterFree(v, o))
    ensures AfterFree(v, o).ioLine <= v.ioLine || AfterFree(v, o).ioLine <= v.base + BLOCK * v.size
  {
  }

  /** What placing n blocks at block o makes of the view. */
  ghost function AfterAllocation(v: View, o: nat, n: nat): View {
    v.(runs := v.runs[o := n], ioLine := if v.base + BLOCK * o < v.ioLine then v.base + BLOCK * o else v.ioLine)
  }

  lemma AllocationKeepsSafe(v: View, o: nat, n: nat)
    requires Safe(v) && Fits(v.runs, v.size, o, n) && n > 0
    ensures Disjoint(v.runs[o := n], v.size)
    ensures v.heapLine - CACHED_OFFSET <= v.base + BLOCK * o ==> Safe(AfterAllocation(v, o, n))
    ensures v.heapLine - CACHED_OFFSET > v.base + BLOCK * o ==> v.ioLine > v.base + BLOCK * o
  {
    forall p | p in v.runs ensures p + v.runs[p] <= o || o + n <= p {
      assert Covered(v.runs, p);
      assert o < p + v.runs[p] && p <= o ==> Covered(v.runs, o);
    }
  }

  // --- any mix of calls ----------------------------------------------------------------------------

  /** SetUp is the part of the first malloc that makes the table. */
  datatype Op = Brk(pos: nat) | SetUp | Malloc(size: nat) | Free(block: nat)

  ghost predicate BrkHangs(v: View, pos: nat, heapEnd: nat) {
    v.heapLine < pos <= heapEnd && pos - CACHED_OFFSET > v.ioLine
  }

  ghost function AfterBrk(v: View, pos: nat, heapEnd: nat): View {
    if v.heapLine < pos <= heapEnd then v.(heapLine := pos) else v
  }

  /** The table covers everything between the two lines. */
  ghost function AfterSetUp(v: View): View {
    if CACHED_OFFSET <= v.heapLine <= v.ioLine + CACHED_OFFSET then
      v.(base := v.heapLine - CACHED_OFFSET, size := (v.ioLine - (v.heapLine - CACHED_OFFSET)) / BLOCK)
    else v
  }

  /** The highest place for a run starts below the heap's line. */
  ghost predicate MallocHangs(v: View, size: nat) {
    size > 0 && exists o :: HighestFit(v.runs, v.size, o, Ceil(size)) && v.base + BLOCK * o < v.heapLine - CACHED_OFFSET
  }

  /** A call that comes back to its caller takes view v to view v'. */
  ghost predicate CallStep(v: View, op: Op, v': View, heapEnd: nat) {
    match op
    case Brk(pos) => !BrkHangs(v, pos, heapEnd) && v' == AfterBrk(v, pos, heapEnd)
    case SetUp => v.runs == map[] && CACHED_OFFSET <= v.heapLine <= v.ioLine + CACHED_OFFSET && v' == AfterSetUp(v)
    case Malloc(size) =>
      if size == 0 || NoFit(v.runs, v.size, Ceil(size)) then v' == v
      else exists o :: Allocated(v, o, Ceil(size), v')
    case Free(o) => o in v.runs && v' == AfterFree(v, o)
  }

  lemma FreeIsStep(v: View, o: nat, heapEnd: nat)
    requires o in v.runs
    ensures CallStep(v, Free(o), AfterFree(v, o), heapEnd)
  {
  }

  ghost predicate Allocated(v: View, o: nat, n: nat, v': View) {
    && HighestFit(v.runs, v.size, o, n) && v' == AfterAllocation(v, o, n)
    && v.heapLine - CACHED_OFFSET <= v.base + BLOCK * o
  }

  ghost predicate InRun(runs: Runs, o: nat, block: nat) {
    o in runs && o <= block < o + runs[o]
  }

  /**
    Under any mix of brk, malloc and free, the set-up of the table included: two live runs share no block, and no live
    run starts below the heap's high-water line.
   */
  lemma {:induction false} HistoryIsSafe(views: seq<View>, ops: seq<Op>, heapEnd: nat)
    requires |views| == |ops| + 1 && Safe(views[0])
    requires forall i :: 0 <= i < |ops| ==> CallStep(views[i], ops[i], views[i + 1], heapEnd)
    ensures forall i {:trigger views[i]} :: 0 <= i < |views| ==>
              && Safe(views[i])
              && (forall o :: o in views[i].runs ==> views[i].heapLine - CACHED_OFFSET <= views[i].base + BLOCK * o)
              && (forall o, p, b :: InRun(views[i].runs, o, b) && InRun(views[i].runs, p, b) ==> o == p)
    decreases |views|
  {
    SafeMeansApart(views[0]);
    if ops != [] {
      assert CallStep(views[0], ops[0], views[1], heapEnd);
      CallKeepsSafe(views[0], ops[0], views[1], heapEnd);
      forall i | 0 <= i < |ops[1..]| ensures CallStep(views[1..][i], ops[1..][i], views[1..][i + 1], heapEnd) {
        assert CallStep(views[i + 1], ops[i + 1], views[i + 2], heapEnd);
      }
      HistoryIsSafe(views[1..], ops[1..], heapEnd);
      assert forall i {:trigger views[i]} :: 1 <= i < |views| ==> views[i] == views[1..][i - 1];
    }
  }

  lemma SafeMeansApart(v: View)
    requires Safe(v)
    ensures forall o, p, b :: InRun(v.runs, o, b) && InRun(v.runs, p, b) ==> o == p
  {
  }

  lemma CallKeepsSafe(v: View, op: Op, v': View, heapEnd: nat)
    requires Safe(v) && CallStep(v, op, v', heapEnd)
    ensures Safe(v')
  {
    match op
    case Brk(_) =>
    case SetUp => NoRunsDisjoint(v'.size);
    case Malloc(size) =>
      if v' != v {
        var o :| Allocated(v, o, Ceil(size), v');
        AllocationKeepsSafe(v, o, Ceil(size));
      }
    case Free(o) => FreeKeepsSafe(v, o);
  }

  class IoHeap {
    const heapStart: nat
    const heapEnd: nat
    var heapLine: nat
    var heapCur: nat
    var ioheapLine: nat

    var membase: nat
    var memsize: nat
    var memtblsize: nat
    var memmap: array<uint16>
    var memrdy: bool

    ghost var runs: Runs

    ghost function Seen(): View
      reads this
    {
      View(runs, memtblsize, membase, ioheapLine, heapLine)
    }

    ghost predicate Valid()
      reads this, memmap
    {
      && CACHED_OFFSET < heapStart <= heapLine <= heapEnd && heapEnd - heapStart < 0x1_0000 * BLOCK
      && ioheapLine <= heapEnd - CACHED_OFFSET
      && Safe(Seen())
      && (memrdy ==>
            && membase <= heapLine - CACHED_OFFSET && heapStart - CACHED_OFFSET <= membase
            && membase + memsize <= heapEnd - CACHED_OFFSET
            && memtblsize == memsize / BLOCK <= memmap.Length
            && Tagged(runs, memmap[..memtblsize]))
      && (!memrdy ==> runs == map[] && ioheapLine == heapEnd - CACHED_OFFSET)
    }

    /** The linker's heap, at most 65536 blocks of it. */
    constructor (heapStart: nat, heapEnd: nat)
      requires CACHED_OFFSET < heapStart <= heapEnd && heapEnd - heapStart < 0x1_0000 * BLOCK
      ensures Valid() && runs == map[] && !memrdy
    {
      this.heapStart, this.heapEnd := heapStart, heapEnd;
      heapCur, heapLine := heapStart, heapStart;
      ioheapLine := heapEnd - CACHED_OFFSET;
      membase, memsize, memtblsize, memmap, memrdy := 0, 0, 0, new uint16[0], false;
      runs := map[];
    }

    /**
      Moves the break. The high-water line follows it upwards only; the call hangs exactly when the line
      would pass the iomem one.
     */
    method SysBrk(pos: nat) returns (r: Result)
      requires Valid()
      modifies this`heapLine, this`heapCur
      ensures r.Returned? ==> Valid()
      ensures r.Hung? <==> old(heapLine) < pos <= heapEnd && pos - CACHED_OFFSET > ioheapLine
      ensures pos == 0 ==> r == Returned(heapStart) && heapCur == old(heapCur)
      ensures pos > heapEnd ==> r == Returned(-ENOMEM) && heapCur == old(heapCur)
      ensures r.Returned? && 0 < pos <= heapEnd ==> r == Returned(pos) && heapCur == pos
      ensures r.Returned? ==> CallStep(old(Seen()), Brk(pos), Seen(), heapEnd)
      ensures heapLine == if old(heapLine) < pos <= heapEnd then pos else old(heapLine)
    {
      if pos != 0 {
        if pos > heapEnd {
          return Returned(-ENOMEM);
        }
        if pos > heapLine {
          heapLine := pos;
          if heapLine - CACHED_OFFSET > ioheapLine {
            return Hung;
          }
        }
        heapCur := pos;
        return Returned(heapCur);
      }
      return Returned(heapStart);
    }

    /**
      Sets up the table over everything between the two lines. The malloc of the table may itself move the
      break: brkPos is what the C library then passes to sys_brk, 0 if it does not have to. If that is beyond the
      heap, malloc gives NULL, and the table is cleared all the same.
     */
    method Init(brkPos: nat) returns (r: Result)
      requires Valid() && !memrdy
      modifies this
      ensures r.Hung? <==> BrkHangs(old(Seen()), brkPos, heapEnd)
      ensures r.NullWrite? <==> brkPos > heapEnd && AfterSetUp(old(Seen())).size > 0
      ensures r.NullWrite? <==> brkPos > heapEnd && old(ioheapLine) - (old(heapLine) - 0x4000_0000) >= 256
      ensures r.Returned? ==> Valid() && memrdy && fresh(memmap)
      ensures r.Returned? ==> Seen() == AfterSetUp(AfterBrk(old(Seen()), brkPos, heapEnd))
      ensures r.Returned? ==>
                && heapLine == (if old(heapLine) < brkPos <= heapEnd then brkPos else old(heapLine))
                && ioheapLine == old(ioheapLine) && runs == map[] && membase == heapLine - 0x4000_0000
                && memtblsize * 256 <= ioheapLine - membase < (memtblsize + 1) * 256
    {
      hide Tagged, CallStep, Disjoint, Fits, NoFit, HighestFit, Covered;
      Measure();
      var blocks := memtblsize;
      var brk := SysBrk(brkPos);
      if brk.Hung? {
        return Hung;
      }
      Measure();
      if brk == Returned(-ENOMEM) {
        if memtblsize > 0 {
          return NullWrite;
        }
      }
      FewerBlocks(memsize, ioheapLine - (old(heapLine) - CACHED_OFFSET));
      MakeTable(blocks);
      NoRunsDisjoint(memtblsize);
      return Returned(0);
    }

    method MakeTable(blocks: nat)
      requires memtblsize <= blocks
      modifies this`memmap, this`memrdy
      ensures memrdy && fresh(memmap) && memtblsize <= memmap.Length && Tagged(map[], memmap[..memtblsize])
    {
      hide Tagged;
      memmap := new uint16[blocks];
      ClearTable();
      memrdy := true;
    }

    /** The blocks between the two lines. */
    method Measure()
      requires CACHED_OFFSET < heapLine && heapLine - CACHED_OFFSET <= ioheapLine
      modifies this`membase, this`memsize, this`memtblsize
      ensures membase == heapLine - CACHED_OFFSET && memsize == ioheapLine - membase && memtblsize == memsize / BLOCK
    {
      membase := heapLine - CACHED_OFFSET;
      memsize := ioheapLine - membase;
      memtblsize := memsize / BLOCK;
    }

    /** iomem_set(memmap, 0, memtblsize * 2). */
    method ClearTable()
      requires memtblsize <= memmap.Length
      modifies memmap
      ensures Tagged(map[], memmap[..memtblsize])
    {
      forall b | 0 <= b < memtblsize {
        memmap[b] := 0;
      }
      EmptyTable(memmap[..memtblsize]);
    }

    /** The scan of k_malloc: the highest block at which xmemb free blocks start, -1 if there is none. */
    method Scan(xmemb: nat) returns (block: int)
      requires memtblsize <= memmap.Length && Tagged(runs, memmap[..memtblsize]) && xmemb > 0
      ensures block == -1 <==> NoFit(runs, memtblsize, xmemb)
      ensures block != -1 ==> block >= 0 && HighestFit(runs, memtblsize, block, xmemb)
    {
      var kmemb := 0;
      block := memtblsize - 1;
      while block >= 0
        invariant Scanned(runs, memtblsize, block, kmemb, xmemb)
      {
        ScanStep(runs, memmap[..memtblsize], block, kmemb, xmemb);
        if memmap[block] == 0 {
          kmemb := kmemb + 1;
        } else {
          block := block - memmap[block] as int + 1;
          kmemb := 0;
        }
        if kmemb == xmemb {
          return;
        }
        block := block - 1;
      }
      NoHigherFit(runs, memtblsize, block, kmemb, xmemb);
    }

    /** The two table writes of k_malloc. */
    method Tag(block: nat, xmemb: nat)
      requires memtblsize <= memmap.Length && Tagged(runs, memmap[..memtblsize])
      requires 0 < xmemb < 0x1_0000 && Fits(runs, memtblsize, block, xmemb)
      modifies this`runs, memmap
      ensures block !in old(runs) && runs == old(runs)[block := xmemb]
      ensures memtblsize <= memmap.Length && Tagged(runs, memmap[..memtblsize])
    {
      ghost var tags := memmap[..memtblsize];
      TagNewRun(runs, tags, block, xmemb);
      memmap[block] := xmemb as uint16;
      memmap[block + xmemb - 1] := xmemb as uint16;
      assert memmap[..memtblsize] == tags[block := xmemb as uint16][block + xmemb - 1 := xmemb as uint16];
      runs := runs[block := xmemb];
    }

    /**
      Takes the highest place where enough contiguous blocks are free, and returns its offset in bytes;
      NONE exactly when the size is 0 or there is no such place. Expects the table to be set up.
     */
    method KMalloc(size: nat) returns (offset: nat)
      requires memtblsize < 0x1_0000 && memtblsize <= memmap.Length && Tagged(runs, memmap[..memtblsize])
      modifies this`runs, memmap
      ensures memtblsize <= memmap.Length && Tagged(runs, memmap[..memtblsize])
      ensures offset == NONE <==> size == 0 || NoFit(old(runs), memtblsize, Ceil(size))
      ensures offset == NONE ==> runs == old(runs)
      ensures offset != NONE ==>
                && offset % BLOCK == 0 && HighestFit(old(runs), memtblsize, offset / BLOCK, Ceil(size))
                && offset / BLOCK !in old(runs) && runs == old(runs)[offset / BLOCK := Ceil(size)]
    {
      hide Tagged, NoFit;
      if size == 0 {
        return NONE;
      }
      var xmemb := size / BLOCK;
      if size % BLOCK != 0 {
        xmemb := xmemb + 1;
      }
      var block := Scan(xmemb);
      if block < 0 {
        return NONE;
      }
      Tag(block, xmemb);
      return block * BLOCK;
    }

    /** The view that the allocation itself starts from: the first call sets up the table before. */
    ghost function Ready(brkPos: nat): View
      reads this, memmap
      requires Valid()
    {
      if memrdy then Seen() else AfterSetUp(AfterBrk(Seen(), brkPos, heapEnd))
    }

    /**
      iomem_malloc, setting up the table on the first call; brkPos as for Init. It gives the highest run that fits,
      or 0 when the size is 0 or nothing fits; it hangs exactly when the break or the new run would pass the other line.
     */
    method IomemMalloc(size: nat, brkPos: nat) returns (r: Result)
      requires Valid()
      modifies this, memmap
      ensures r.Hung? <==> if !old(memrdy) && BrkHangs(old(Seen()), brkPos, heapEnd) then true
                           else !r.NullWrite? && MallocHangs(old(Ready(brkPos)), size)
      ensures r.NullWrite? <==> !old(memrdy) && brkPos > heapEnd && AfterSetUp(old(Seen())).size > 0
      ensures r.Returned? ==> Valid() && memrdy
      ensures r.Returned? ==> CallStep(old(Ready(brkPos)), Malloc(size), Seen(), heapEnd)
      ensures r.Returned? && !old(memrdy) ==>
                var v, v1, v2 := old(Seen()), AfterBrk(old(Seen()), brkPos, heapEnd), old(Ready(brkPos));
                CallStep(v, Brk(brkPos), v1, heapEnd) && CallStep(v1, SetUp, v2, heapEnd)
      ensures r.Returned? ==>
                var v := old(Ready(brkPos));
                if size == 0 || NoFit(v.runs, v.size, Ceil(size)) then r.value == 0
                else exists o :: HighestFit(v.runs, v.size, o, Ceil(size)) && r.value == v.base + BLOCK * o
    {
      hide Tagged, Disjoint, NoFit, HighestFit;
      if !memrdy {
        r := Init(brkPos);
        if !r.Returned? {
          return;
        }
      }
      r := Allocate(size);
    }

    /**
      Allocates and lowers the iomem line to the new run if that starts below it. Hangs exactly when the run
      would then start below the heap's line; returns 0 when the size is 0 or nothing fits.
     */
    method Allocate(size: nat) returns (r: Result)
      requires Valid() && memrdy
      modifies this, memmap
      ensures heapLine == old(heapLine) && membase == old(membase) && memtblsize == old(memtblsize) && memmap == old(memmap)
      ensures r.Returned? ==> Valid() && memrdy
      ensures r == Returned(0) <==> size == 0 || NoFit(old(runs), memtblsize, Ceil(size))
      ensures r.Returned? ==> CallStep(old(Seen()), Malloc(size), Seen(), heapEnd)
      ensures !r.NullWrite? && (r.Hung? <==> MallocHangs(old(Seen()), size))
      ensures r == Returned(0) ==> Seen() == old(Seen())
      ensures r != Returned(0) ==>
                exists o :: HighestFit(old(runs), memtblsize, o, Ceil(size)) && o !in old(runs)
                            && runs == old(runs)[o := Ceil(size)]
                            && (r.Hung? <==> membase + BLOCK * o < heapLine - CACHED_OFFSET)
                            && (r.Returned? ==> r.value == membase + BLOCK * o)
                            && ioheapLine == (if membase + BLOCK * o < old(ioheapLine) then membase + BLOCK * o else old(ioheapLine))
    {
      hide Tagged, Disjoint, Fits, NoFit;
      var offset := KMalloc(size);
      if offset == NONE {
        NothingFits(runs, memtblsize, Ceil(size));
        return Returned(0);
      }
      ghost var o := offset / BLOCK;
      HighestOnce(old(runs), memtblsize, Ceil(size), o);
      AllocationKeepsSafe(old(Seen()), o, Ceil(size));
      if ioheapLine > membase + offset {
        ioheapLine := membase + offset;
        if ioheapLine < heapLine - CACHED_OFFSET {
          return Hung;
        }
      }
      assert Seen() == AfterAllocation(old(Seen()), o, Ceil(size));
      assert Allocated(old(Seen()), o, Ceil(size), Seen());
      return Returned(membase + offset);
    }

    /** The table part of k_free. Returns the length of the run. */
    method Untag(index: nat) returns (nmemb: nat)
      requires memtblsize <= memmap.Length && Tagged(runs, memmap[..memtblsize]) && index in runs
      modifies this`runs, memmap
      ensures nmemb == old(runs)[index] && runs == old(runs) - {index}
      ensures memtblsize <= memmap.Length && Tagged(runs, memmap[..memtblsize])
    {
      ghost var tags := memmap[..memtblsize];
      UntagRun(runs, tags, index);
      assert tags[index] as nat == runs[index];
      nmemb := memmap[index] as nat;
      memmap[index] := 0;
      memmap[index + nmemb - 1] := 0;
      assert memmap[..memtblsize] == tags[index := 0][index + nmemb - 1 := 0];
      runs := runs - {index};
    }

    /** Frees a live run; the iomem line rises over it only if the run lies right at the line. */
    method IomemFree(paddr: nat)
      requires Valid()
      requires paddr != 0 ==> memrdy && paddr >= membase && (paddr - membase) % BLOCK == 0 && (paddr - membase) / BLOCK in runs
      modifies this`runs, this`ioheapLine, memmap
      ensures Valid()
      ensures paddr == 0 ==> Seen() == old(Seen())
      ensures paddr != 0 ==>
                var o := (paddr - membase) / BLOCK;
                && CallStep(old(Seen()), Free(o), Seen(), heapEnd)
                && runs == old(runs) - {o}
                && ioheapLine == old(ioheapLine) + (if old(ioheapLine) == paddr then BLOCK * old(runs)[o] else 0)
    {
      hide Tagged, CallStep;
      if paddr == 0 {
        return;
      }
      FreeIsStep(Seen(), (paddr - membase) / BLOCK, heapEnd);
      var offset := paddr - membase;
      if offset < memsize {
        var index := offset / BLOCK;
        ghost var before := Seen();
        var nmemb := Untag(index);
        if ioheapLine == membase + offset {
          ioheapLine := ioheapLine + nmemb * BLOCK;
        }
        FreeKeepsSafe(before, index);
        assert Seen() == AfterFree(before, index);
      }
    }
  }
}
