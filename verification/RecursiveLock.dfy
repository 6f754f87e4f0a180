/**
  sdk/lib/bsp/locks.c: recursive locks for several cores, kept in one table that all locks share.

  A lock is a word that cores swap with -1, plus a table slot that exists while the lock is held. A core
  works on a lock's slot only while it has swapped that lock's word, and fills a free slot only while it has
  also swapped the table's own mutex; but it searches the whole table while other cores change other slots.
  Each swap, each slot looked at and each slot written is one step, and the steps of the cores mix freely.
 */
module RecursiveLock {
  import opened Bytes

  const LOCK_MAX_NUM := 1024

  /** The address of a lock word. Address 0 in a slot is NULL: the slot is free. */
  type Lock = a: nat | a != 0 witness 1

  datatype Slot = Slot(lock: nat, counter: int, core: nat)

  const FREE_SLOT := Slot(0, 0, 0)

  /** Retry is the reculock_trylock inside reculock_lock's wait loop. */
  datatype Op = TryLock | Lock | Retry | Unlock

  datatype Outcome = Acquired | Busy | Released | Stop

  /** Where a core stands in the code. */
  datatype Core =
    | Out
    | Swap(op: Op, lock: Lock)                      // about to swap the lock's word
    | Search(op: Op, lock: Lock, i: nat)            // get_reculock, about to look at slot i
    | WantMutex(op: Op, lock: Lock)                 // reculock_init, about to swap the mutex
    | SearchFree(op: Op, lock: Lock, i: nat, start: seq<Slot>)   // get_free_reculock, about to look at slot i;
                                                    // start is history: the table when the mutex was swapped
    | Fill(op: Op, lock: Lock, i: nat)              // about to write the free slot i
    | DropMutex(op: Op, lock: Lock, filled: Option<nat>) // about to release the mutex
    | Decide(op: Op, lock: Lock, i: nat)            // about to read and update slot i
    | Leave(op: Op, lock: Lock, outcome: Outcome)   // about to release the word and return
    | Waiting(lock: Lock)                           // in the loop that reads the counter of slot 0
    | Stopped                                       // show_error

  /**
    The machine. words maps each lock word that is -1 to the core that swapped it, mutex likewise: the code
    keeps no more than the -1. held is a history: per core, its acquires not yet released.
   */
  datatype State = State(
    table: seq<Slot>, words: map<Lock, nat>, mutex: Option<nat>,
    cores: seq<Core>, held: seq<multiset<Lock>>)

  /** A call of one of the three operations, or the next step of the one under way. */
  datatype Action = Call(op: Op, lock: Lock) | Go

  /** A lock is released only by a core that holds it, as the code demands of its callers. */
  predicate Enabled(s: State, c: nat, a: Action) {
    && c < |s.cores| == |s.held|
    && match a
       case Call(op, lock) => s.cores[c].Out? && !op.Retry? && (op.Unlock? ==> s.held[c][lock] > 0)
       case Go => !s.cores[c].Out? && !s.cores[c].Stopped?
  }

  function At(s: State, c: nat, pc: Core): State
    requires c < |s.cores|
  {
    s.(cores := s.cores[c := pc])
  }

  /** atomic_swap(lock, -1) and the branch on what it returned. */
  function SwapWord(s: State, c: nat): State
    requires c < |s.cores| && s.cores[c].Swap?
  {
    var pc := s.cores[c];
    if pc.lock !in s.words then At(s, c, Search(pc.op, pc.lock, 0)).(words := s.words[pc.lock := c])
    else match pc.op
         case TryLock => At(s, c, Out)
         case Retry => At(s, c, Waiting(pc.lock))
         case _ => s
  }

  /** One round of get_reculock's loop. */
  function SearchSlot(s: State, c: nat): State
    requires c < |s.cores| && s.cores[c].Search?
  {
    var pc := s.cores[c];
    At(s, c, if pc.i < |s.table| then
               if s.table[pc.i].lock == pc.lock then Decide(pc.op, pc.lock, pc.i)
               else Search(pc.op, pc.lock, pc.i + 1)
             else if pc.op.Unlock? then Leave(pc.op, pc.lock, Stop)
             else WantMutex(pc.op, pc.lock))
  }

  function SwapMutex(s: State, c: nat): State
    requires c < |s.cores| && s.cores[c].WantMutex?
  {
    var pc := s.cores[c];
    if s.mutex.None? then At(s, c, SearchFree(pc.op, pc.lock, 0, s.table)).(mutex := Some(c)) else s
  }

  /** One round of get_free_reculock's loop. */
  function SearchFreeSlot(s: State, c: nat): State
    requires c < |s.cores| && s.cores[c].SearchFree?
  {
    var pc := s.cores[c];
    At(s, c, if pc.i < |s.table| then
               if s.table[pc.i].lock == 0 then Fill(pc.op, pc.lock, pc.i)
               else SearchFree(pc.op, pc.lock, pc.i + 1, pc.start)
             else DropMutex(pc.op, pc.lock, None))
  }

  function FillSlot(s: State, c: nat): State
    requires c < |s.cores| && s.cores[c].Fill? && s.cores[c].i < |s.table|
  {
    var pc := s.cores[c];
    At(s, c, DropMutex(pc.op, pc.lock, Some(pc.i))).(table := s.table[pc.i := Slot(pc.lock, 0, 0)])
  }

  function ReleaseMutex(s: State, c: nat): State
    requires c < |s.cores| && s.cores[c].DropMutex?
  {
    var pc := s.cores[c];
    At(s, c, if pc.filled.Some? then Decide(pc.op, pc.lock, pc.filled.value) else Leave(pc.op, pc.lock, Stop)).(mutex := None)
  }

  /**
    The branches on counter and core, and the writes they lead to. Nobody else reads these fields of the
    slot meanwhile, but for the wait loops, which read a counter only; and lock = NULL is the last write. So they
    are one step.
   */
  function DecideSlot(s: State, c: nat): State
    requires c < |s.cores| == |s.held| && s.cores[c].Decide? && s.cores[c].i < |s.table|
  {
    var pc := s.cores[c];
    var slot := s.table[pc.i];
    if pc.op.Unlock? then
      if slot.core != c then At(s, c, Leave(pc.op, pc.lock, Stop))
      else
        var slot' := if slot.counter - 1 <= 0 then FREE_SLOT else slot.(counter := slot.counter - 1);
        At(s, c, Leave(pc.op, pc.lock, Released))
        .(table := s.table[pc.i := slot'], held := s.held[c := s.held[c] - multiset{pc.lock}])
    else if slot.counter == 0 || slot.core == c then
      At(s, c, Leave(pc.op, pc.lock, Acquired))
      .(table := s.table[pc.i := slot.(counter := slot.counter + 1, core := c)],
        held := s.held[c := s.held[c] + multiset{pc.lock}])
    else At(s, c, Leave(pc.op, pc.lock, Busy))
  }

  function ReleaseWord(s: State, c: nat): State
    requires c < |s.cores| && s.cores[c].Leave?
  {
    var pc := s.cores[c];
    At(s, c, if pc.outcome.Stop? then Stopped
             else if pc.outcome.Busy? && !pc.op.TryLock? then Waiting(pc.lock)
             else Out).(words := s.words - {pc.lock})
  }

  /** What the wait loop reads: the array's own counter, which is that of slot 0, whatever the lock. */
  predicate SlotZeroInUse(table: seq<Slot>) {
    table != [] && table[0].counter != 0
  }

  function Advance(s: State, c: nat): State
    requires c < |s.cores| == |s.held|
  {
    match s.cores[c]
    case Swap(_, _) => SwapWord(s, c)
    case Search(_, _, _) => SearchSlot(s, c)
    case WantMutex(_, _) => SwapMutex(s, c)
    case SearchFree(_, _, _, _) => SearchFreeSlot(s, c)
    case Fill(_, _, i) => if i < |s.table| then FillSlot(s, c) else s
    case DropMutex(_, _, _) => ReleaseMutex(s, c)
    case Decide(_, _, i) => if i < |s.table| then DecideSlot(s, c) else s
    case Leave(_, _, _) => ReleaseWord(s, c)
    case Waiting(lock) => if SlotZeroInUse(s.table) then s else At(s, c, Swap(Retry, lock))
    case _ => s
  }

  function Step(s: State, c: nat, a: Action): State
    requires Enabled(s, c, a)
  {
    match a
    case Call(op, lock) => At(s, c, Swap(op, lock))
    case Go => Advance(s, c)
  }

  /** A run: who does what, in order; what cannot be done then is skipped. */
  function Run(s: State, schedule: seq<(nat, Action)>): State
    decreases schedule
  {
    if schedule == [] then s
    else
      var (c, a) := schedule[0];
      Run(if Enabled(s, c, a) then Step(s, c, a) else s, schedule[1..])
  }

  /** Before any core runs: locks may have been given slots by _lock_init_recursive, nothing is held. */
  predicate Initial(s: State) {
    && |s.table| == LOCK_MAX_NUM
    && NoLockTwice(s.table)
    && (forall i :: 0 <= i < |s.table| ==> s.table[i].counter == 0 && s.table[i].core == 0)
    && s.words == map[] && s.mutex == None && |s.cores| == |s.held|
    && (forall c :: 0 <= c < |s.cores| ==> s.cores[c] == Out && s.held[c] == multiset{})
  }

  // --- the invariant -----------------------------------------------------------------------------

  predicate NoLockTwice(table: seq<Slot>) {
    forall i, j :: 0 <= i < j < |table| && table[i].lock != 0 ==> table[i].lock != table[j].lock
  }

  /** The core has swapped its lock's word and not yet put it back. */
  predicate Inside(pc: Core) {
    !pc.Out? && !pc.Swap? && !pc.Waiting? && !pc.Stopped?
  }

  predicate HasMutex(pc: Core) {
    pc.SearchFree? || pc.Fill? || pc.DropMutex?
  }

  ghost predicate WordsInv(s: State) {
    && (forall lock :: lock in s.words ==>
          s.words[lock] < |s.cores| && Inside(s.cores[s.words[lock]]) && s.cores[s.words[lock]].lock == lock)
    && (forall c :: 0 <= c < |s.cores| && Inside(s.cores[c]) ==>
          s.cores[c].lock in s.words && s.words[s.cores[c].lock] == c)
  }

  ghost predicate MutexInv(s: State) {
    && (s.mutex.Some? ==> s.mutex.value < |s.cores| && HasMutex(s.cores[s.mutex.value]))
    && (forall c :: 0 <= c < |s.cores| && HasMutex(s.cores[c]) ==> s.mutex == Some(c))
  }

  /** The slots say exactly who holds what, how often; nobody holds a lock without a slot. */
  ghost predicate TableInv(s: State) {
    && |s.cores| == |s.held|
    && NoLockTwice(s.table)
    && (forall i, c {:trigger s.table[i], s.held[c]} ::
          0 <= i < |s.table| && s.table[i].lock != 0 && 0 <= c < |s.held| ==>
          s.held[c][s.table[i].lock] == (if s.table[i].core == c then s.table[i].counter else 0))
    && (forall i :: 0 <= i < |s.table| && s.table[i].lock != 0 && s.table[i].counter != 0 ==>
          s.table[i].counter > 0 && s.table[i].core < |s.cores|)
    && (forall c, lock :: 0 <= c < |s.held| && s.held[c][lock] > 0 ==> HasSlot(s.table, lock))
  }

  predicate HasSlot(table: seq<Slot>, lock: Lock) {
    exists i :: 0 <= i < |table| && table[i].lock == lock
  }

  /** What a core has learned so far stays true while others run. */
  ghost predicate CoreInv(s: State, c: nat)
    requires c < |s.cores| == |s.held|
  {
    var pc := s.cores[c];
    && (!pc.Out? && !pc.Stopped? && !pc.Waiting? && pc.op.Unlock? && !pc.Leave? ==> s.held[c][pc.lock] > 0)
    && match pc
       case Search(_, lock, i) => forall j :: 0 <= j < |s.table| && j < i ==> s.table[j].lock != lock
       case WantMutex(op, lock) => !op.Unlock? && !HasSlot(s.table, lock)
       case SearchFree(op, lock, _, _) => !op.Unlock? && !HasSlot(s.table, lock)
       case Fill(op, lock, i) => !op.Unlock? && !HasSlot(s.table, lock) && i < |s.table| && s.table[i].lock == 0
       case DropMutex(op, lock, i) => !op.Unlock? && (i.Some? ==> i.value < |s.table| && s.table[i.value].lock == lock)
       case Decide(op, lock, i) => i < |s.table| && s.table[i].lock == lock
       case Leave(op, lock, outcome) =>
         && (outcome.Released? ==> op.Unlock?) && (outcome.Acquired? || outcome.Busy? ==> !op.Unlock?)
         && (outcome.Stop? ==> !op.Unlock?)
       case _ => true
  }

  ghost predicate Inv(s: State) {
    && |s.cores| == |s.held| && WordsInv(s) && MutexInv(s) && TableInv(s)
    && (forall c :: 0 <= c < |s.cores| ==> CoreInv(s, c))
  }

  // --- steps -------------------------------------------------------------------------------------

  /** What core d may count on while another core steps. */
  ghost predicate Untouched(s: State, s': State, d: nat)
    requires d < |s.cores| == |s.held| && |s'.cores| == |s'.held| == |s.cores|
  {
    && s'.cores[d] == s.cores[d] && s'.held[d] == s.held[d] && |s'.table| == |s.table|
    && (Inside(s.cores[d]) ==>
          forall j :: 0 <= j < |s.table| ==>
            (s'.table[j].lock == s.cores[d].lock <==> s.table[j].lock == s.cores[d].lock))
    && (HasMutex(s.cores[d]) ==> forall j :: 0 <= j < |s.table| && s.table[j].lock == 0 ==> s'.table[j].lock == 0)
  }

  lemma UntouchedKeepsCoreInv(s: State, s': State, d: nat)
    requires d < |s.cores| == |s.held| && |s'.cores| == |s'.held| == |s.cores|
    requires Untouched(s, s', d) && CoreInv(s, d)
    ensures CoreInv(s', d)
  {
  }

  /** Two cores inside are inside different locks, and at most one of them has the mutex. */
  lemma InsideApart(s: State, c: nat, d: nat)
    requires WordsInv(s) && MutexInv(s) && c < |s.cores| && d < |s.cores| && c != d
    ensures Inside(s.cores[c]) && Inside(s.cores[d]) ==> s.cores[c].lock != s.cores[d].lock
    ensures !(HasMutex(s.cores[c]) && HasMutex(s.cores[d]))
  {
  }

  /** Only core c moves on. */
  predicate OwnStep(s: State, s': State, c: nat) {
    c < |s.cores| == |s.held| == |s'.cores| == |s'.held| && s'.cores == s.cores[c := s'.cores[c]]
  }

  // How a step moves the words: not at all, or the core swaps its lock's word, or puts it back.

  lemma WordsSame(s: State, s': State, c: nat)
    requires WordsInv(s) && OwnStep(s, s', c) && s'.words == s.words
    requires Inside(s'.cores[c]) == Inside(s.cores[c]) && (Inside(s.cores[c]) ==> s'.cores[c].lock == s.cores[c].lock)
    ensures WordsInv(s')
  {
  }

  lemma WordTaken(s: State, s': State, c: nat)
    requires WordsInv(s) && OwnStep(s, s', c) && !Inside(s.cores[c]) && Inside(s'.cores[c])
    requires s'.cores[c].lock !in s.words && s'.words == s.words[s'.cores[c].lock := c]
    ensures WordsInv(s')
  {
  }

  lemma WordReleased(s: State, s': State, c: nat)
    requires WordsInv(s) && OwnStep(s, s', c) && Inside(s.cores[c]) && !Inside(s'.cores[c])
    requires s'.words == s.words - {s.cores[c].lock}
    ensures WordsInv(s')
  {
  }

  // The same for the mutex.

  lemma MutexSame(s: State, s': State, c: nat)
    requires MutexInv(s) && OwnStep(s, s', c) && s'.mutex == s.mutex && HasMutex(s'.cores[c]) == HasMutex(s.cores[c])
    ensures MutexInv(s')
  {
  }

  lemma MutexTaken(s: State, s': State, c: nat)
    requires MutexInv(s) && OwnStep(s, s', c) && s.mutex == None && s'.mutex == Some(c) && HasMutex(s'.cores[c])
    ensures MutexInv(s')
  {
  }

  lemma MutexReleased(s: State, s': State, c: nat)
    requires MutexInv(s) && OwnStep(s, s', c) && HasMutex(s.cores[c]) && !HasMutex(s'.cores[c]) && s'.mutex == None
    ensures MutexInv(s')
  {
  }

  /** What one core has learned stays true if no other core's step touches it. */
  lemma OthersKeepCoreInv(s: State, s': State, c: nat)
    requires Inv(s) && OwnStep(s, s', c) && CoreInv(s', c)
    requires forall d :: 0 <= d < |s.cores| && d != c ==> Untouched(s, s', d)
    ensures forall d :: 0 <= d < |s'.cores| ==> CoreInv(s', d)
  {
    forall d | 0 <= d < |s'.cores| ensures CoreInv(s', d) {
      if d != c {
        UntouchedKeepsCoreInv(s, s', d);
      }
    }
  }

  lemma QuietUntouched(s: State, s': State, c: nat)
    requires OwnStep(s, s', c) && s'.table == s.table && s'.held == s.held
    ensures forall d :: 0 <= d < |s.cores| && d != c ==> Untouched(s, s', d)
  {
  }

  /** A step of c that leaves the table and the holdings alone. */
  lemma QuietStepKeepsInv(s: State, s': State, c: nat)
    requires Inv(s) && OwnStep(s, s', c) && s'.table == s.table && s'.held == s.held
    requires WordsInv(s') && MutexInv(s') && CoreInv(s', c)
    ensures Inv(s')
  {
    hide WordsInv, MutexInv, CoreInv, Untouched;
    QuietUntouched(s, s', c);
    OthersKeepCoreInv(s, s', c);
  }

  /** Slot i, which a core has found free under the mutex, or works on with its lock's word, is no other core's. */
  lemma SlotChangeUntouched(s: State, s': State, c: nat, i: nat)
    requires WordsInv(s) && MutexInv(s) && OwnStep(s, s', c) && Inside(s.cores[c]) && i < |s.table|
    requires |s'.table| == |s.table| && forall j :: 0 <= j < |s.table| && j != i ==> s'.table[j] == s.table[j]
    requires s.table[i].lock == s.cores[c].lock || (s.table[i].lock == 0 && HasMutex(s.cores[c]))
    requires s'.table[i].lock == s.cores[c].lock || s'.table[i].lock == 0
    requires forall d :: 0 <= d < |s.held| && d != c ==> s'.held[d] == s.held[d]
    ensures forall d :: 0 <= d < |s.cores| && d != c ==> Untouched(s, s', d)
  {
    forall d | 0 <= d < |s.cores| && d != c ensures Untouched(s, s', d) {
      InsideApart(s, c, d);
    }
  }

  lemma FillKeepsInv(s: State, c: nat)
    requires Inv(s) && c < |s.cores| && CoreInv(s, c) && s.cores[c].Fill?
    ensures Inv(FillSlot(s, c))
  {
    hide WordsInv, MutexInv, TableInv, Untouched;
    var s' := FillSlot(s, c);
    SlotChangeUntouched(s, s', c, s.cores[c].i);
    OthersKeepCoreInv(s, s', c);
    WordsSame(s, s', c);
    MutexSame(s, s', c);
    FillKeepsTable(s, c);
  }

  lemma FillKeepsTable(s: State, c: nat)
    requires TableInv(s) && c < |s.cores| && CoreInv(s, c) && s.cores[c].Fill?
    ensures TableInv(FillSlot(s, c))
  {
    var pc, s' := s.cores[c], FillSlot(s, c);
    forall d, lock | 0 <= d < |s'.held| && s'.held[d][lock] > 0 ensures HasSlot(s'.table, lock) {
      assert s.held[d][lock] > 0 && HasSlot(s.table, lock);
      var j :| 0 <= j < |s.table| && s.table[j].lock == lock;
      assert s'.table[j].lock == lock;
    }
    forall d | 0 <= d < |s.held| ensures s.held[d][pc.lock] == 0 {
      assert !HasSlot(s.table, pc.lock);
    }
  }

  lemma DecideKeepsInv(s: State, c: nat)
    requires Inv(s) && c < |s.cores| && CoreInv(s, c) && s.cores[c].Decide?
    ensures Inv(DecideSlot(s, c))
  {
    DecideKeepsTable(s, c);
    DecideOwn(s, c);
    hide WordsInv, MutexInv, TableInv, Untouched;
    var s' := DecideSlot(s, c);
    SlotChangeUntouched(s, s', c, s.cores[c].i);
    OthersKeepCoreInv(s, s', c);
    WordsSame(s, s', c);
    MutexSame(s, s', c);
  }

  /** A holder's release finds itself in the slot. */
  lemma DecideOwn(s: State, c: nat)
    requires TableInv(s) && c < |s.cores| && CoreInv(s, c) && s.cores[c].Decide?
    ensures CoreInv(DecideSlot(s, c), c)
  {
    var pc := s.cores[c];
    var slot := s.table[pc.i];
    assert s.held[c][pc.lock] == if slot.core == c then slot.counter else 0;
  }

  lemma DecideKeepsTable(s: State, c: nat)
    requires TableInv(s) && c < |s.cores| && CoreInv(s, c) && s.cores[c].Decide?
    ensures TableInv(DecideSlot(s, c))
  {
    var pc, s' := s.cores[c], DecideSlot(s, c);
    DecideKeepsSlots(s, c);
    var slot := s.table[pc.i];
    assert s.held[c][pc.lock] == if slot.core == c then slot.counter else 0;
    forall d, lock | 0 <= d < |s'.held| && s'.held[d][lock] > 0 ensures HasSlot(s'.table, lock) {
      if lock == pc.lock {
        assert s'.table[pc.i].lock == lock;
      } else {
        assert s.held[d][lock] > 0 && HasSlot(s.table, lock);
        var j :| 0 <= j < |s.table| && s.table[j].lock == lock;
        assert s'.table[j].lock == lock;
      }
    }
  }

  /** The slots go on saying who holds what. */
  lemma DecideKeepsSlots(s: State, c: nat)
    requires TableInv(s) && c < |s.cores| && CoreInv(s, c) && s.cores[c].Decide?
    ensures var s' := DecideSlot(s, c);
            forall i, d {:trigger s'.table[i], s'.held[d]} ::
              0 <= i < |s'.table| && s'.table[i].lock != 0 && 0 <= d < |s'.held| ==>
              s'.held[d][s'.table[i].lock] == (if s'.table[i].core == d then s'.table[i].counter else 0)
  {
    var pc, s' := s.cores[c], DecideSlot(s, c);
    forall i, d | 0 <= i < |s'.table| && s'.table[i].lock != 0 && 0 <= d < |s'.held|
      ensures s'.held[d][s'.table[i].lock] == (if s'.table[i].core == d then s'.table[i].counter else 0)
    {
      assert s.table[i].lock != 0;
      assert s.held[d][s.table[i].lock] == (if s.table[i].core == d then s.table[i].counter else 0);
      assert s.held[c][pc.lock] == if s.table[pc.i].core == c then s.table[pc.i].counter else 0;
    }
  }

  lemma SearchKeepsInv(s: State, c: nat)
    requires Inv(s) && c < |s.cores| && CoreInv(s, c) && s.cores[c].Search?
    ensures Inv(SearchSlot(s, c))
  {
    var s' := SearchSlot(s, c);
    if s.cores[c].i >= |s.table| {
      assert !HasSlot(s.table, s.cores[c].lock);   // so an Unlock, by a holder, finds its slot
    }
    assert CoreInv(s', c);
    hide WordsInv, MutexInv, TableInv, CoreInv;
    WordsSame(s, s', c);
    MutexSame(s, s', c);
    QuietStepKeepsInv(s, s', c);
  }

  lemma MutexStepsKeepInv(s: State, c: nat)
    requires Inv(s) && c < |s.cores| && CoreInv(s, c)
    requires s.cores[c].WantMutex? || s.cores[c].SearchFree? || s.cores[c].DropMutex?
    ensures Inv(Advance(s, c))
  {
    var s' := Advance(s, c);
    assert CoreInv(s', c) by {
      hide WordsInv, MutexInv, TableInv;
    }
    hide WordsInv, MutexInv, TableInv, CoreInv;
    WordsSame(s, s', c);
    match s.cores[c] {
      case WantMutex(_, _) =>
        if s.mutex == None {
          MutexTaken(s, s', c);
        }
      case DropMutex(_, _, _) => MutexReleased(s, s', c);
      case _ => MutexSame(s, s', c);
    }
    QuietStepKeepsInv(s, s', c);
  }

  lemma SwapKeepsInv(s: State, c: nat)
    requires Inv(s) && c < |s.cores| && CoreInv(s, c) && s.cores[c].Swap?
    ensures Inv(SwapWord(s, c))
  {
    var s' := SwapWord(s, c);
    assert CoreInv(s', c);
    hide WordsInv, MutexInv, TableInv, CoreInv;
    if s.cores[c].lock !in s.words {
      WordTaken(s, s', c);
    } else {
      WordsSame(s, s', c);
    }
    MutexSame(s, s', c);
    QuietStepKeepsInv(s, s', c);
  }

  lemma LeaveKeepsInv(s: State, c: nat)
    requires Inv(s) && c < |s.cores| && CoreInv(s, c) && s.cores[c].Leave?
    ensures Inv(ReleaseWord(s, c))
  {
    hide WordsInv, MutexInv, TableInv;
    var s' := ReleaseWord(s, c);
    WordReleased(s, s', c);
    MutexSame(s, s', c);
    QuietStepKeepsInv(s, s', c);
  }

  lemma WaitKeepsInv(s: State, c: nat)
    requires Inv(s) && c < |s.cores| && CoreInv(s, c) && s.cores[c].Waiting?
    ensures Inv(Advance(s, c))
  {
    hide WordsInv, MutexInv, TableInv;
    var s' := Advance(s, c);
    WordsSame(s, s', c);
    MutexSame(s, s', c);
    QuietStepKeepsInv(s, s', c);
  }

  lemma CallKeepsInv(s: State, c: nat, a: Action)
    requires Inv(s) && Enabled(s, c, a) && a.Call?
    ensures Inv(Step(s, c, a))
  {
    hide WordsInv, MutexInv, TableInv;
    var s' := Step(s, c, a);
    WordsSame(s, s', c);
    MutexSame(s, s', c);
    QuietStepKeepsInv(s, s', c);
  }

  lemma GoKeepsInv(s: State, c: nat)
    requires Inv(s) && c < |s.cores|
    ensures Inv(Advance(s, c))
  {
    hide WordsInv, MutexInv, TableInv, CoreInv;
    assert CoreInv(s, c);
    match s.cores[c]
    case Search(_, _, _) => SearchKeepsInv(s, c);
    case Fill(_, _, _) => FillKeepsInv(s, c);
    case Decide(_, _, _) => DecideKeepsInv(s, c);
    case Swap(_, _) => SwapKeepsInv(s, c);
    case Leave(_, _, _) => LeaveKeepsInv(s, c);
    case Waiting(_) => WaitKeepsInv(s, c);
    case Out =>
    case Stopped =>
    case _ => MutexStepsKeepInv(s, c);
  }

  lemma StepKeepsInv(s: State, c: nat, a: Action)
    requires Inv(s) && Enabled(s, c, a)
    ensures Inv(Step(s, c, a))
  {
    if a.Call? {
      CallKeepsInv(s, c, a);
    } else {
      GoKeepsInv(s, c);
    }
  }

  lemma InitialHasInv(s: State)
    requires Initial(s)
    ensures Inv(s)
  {
    forall c | 0 <= c < |s.cores| ensures CoreInv(s, c) {
      assert s.cores[c] == Out;
    }
  }

  lemma {:induction false} RunKeepsInv(s: State, schedule: seq<(nat, Action)>)
    requires Inv(s)
    ensures Inv(Run(s, schedule))
    decreases schedule
  {
    if schedule != [] {
      var (c, a) := schedule[0];
      if Enabled(s, c, a) {
        StepKeepsInv(s, c, a);
        RunKeepsInv(Step(s, c, a), schedule[1..]);
      } else {
        RunKeepsInv(s, schedule[1..]);
      }
    }
  }

  // --- main results --------------------------------------------------------------------------------

  /** The map the table stands for: how often core c holds the lock. */
  function Depth(table: seq<Slot>, lock: Lock, c: nat): (r: int) {
    if table == [] then 0
    else if table[0].lock == lock then (if table[0].core == c then table[0].counter else 0)
    else Depth(table[1..], lock, c)
  }

  lemma {:induction false} DepthIsSlot(table: seq<Slot>, lock: Lock, c: nat)
    ensures !HasSlot(table, lock) ==> Depth(table, lock, c) == 0
    ensures HasSlot(table, lock) ==>
              exists i :: 0 <= i < |table| && table[i].lock == lock
                          && Depth(table, lock, c) == (if table[i].core == c then table[i].counter else 0)
  {
    if table != [] {
      if table[0].lock != lock {
        DepthIsSlot(table[1..], lock, c);
        if HasSlot(table, lock) {
          var i :| 0 <= i < |table| && table[i].lock == lock;
          assert table[1..][i - 1].lock == lock;
          var j :| 0 <= j < |table[1..]| && table[1..][j].lock == lock
                   && Depth(table[1..], lock, c) == (if table[1..][j].core == c then table[1..][j].counter else 0);
          assert table[j + 1] == table[1..][j];
        }
      }
    }
  }

  /**
    In every reachable state no lock has two slots, and the table is the map from each lock to its owner
    and nesting depth: for every core, its acquires of the lock less its releases.
   */
  lemma TableRefinesHoldings(s0: State, schedule: seq<(nat, Action)>)
    requires Initial(s0)
    ensures var s := Run(s0, schedule);
            && NoLockTwice(s.table) && |s.held| == |s.cores|
            && forall c, lock :: 0 <= c < |s.held| ==> s.held[c][lock] == Depth(s.table, lock, c)
  {
    var s := Run(s0, schedule);
    InitialHasInv(s0);
    RunKeepsInv(s0, schedule);
    forall c, lock | 0 <= c < |s.held| ensures s.held[c][lock] == Depth(s.table, lock, c) {
      DepthIsSlot(s.table, lock, c);
      if HasSlot(s.table, lock) {
        var i :| 0 <= i < |s.table| && s.table[i].lock == lock
                 && Depth(s.table, lock, c) == (if s.table[i].core == c then s.table[i].counter else 0);
      }
    }
  }

  lemma OneHolder(s: State, lock: Lock, c: nat, d: nat)
    requires Inv(s) && c < |s.held| && d < |s.held| && c != d
    ensures s.held[c][lock] == 0 || s.held[d][lock] == 0
  {
    if s.held[c][lock] > 0 {
      assert HasSlot(s.table, lock);
      var i :| 0 <= i < |s.table| && s.table[i].lock == lock;
      var slot := s.table[i];
      assert s.held[c][lock] == if slot.core == c then slot.counter else 0;
      assert s.held[d][lock] == if slot.core == d then slot.counter else 0;
    }
  }

  /** In every interleaving, no two cores hold the same lock. */
  lemma MutualExclusion(s0: State, schedule: seq<(nat, Action)>)
    requires Initial(s0)
    ensures var s := Run(s0, schedule);
            forall c, d, lock {:trigger s.held[c][lock], s.held[d][lock]} ::
              0 <= c < d < |s.held| ==> s.held[c][lock] == 0 || s.held[d][lock] == 0
  {
    var s := Run(s0, schedule);
    InitialHasInv(s0);
    RunKeepsInv(s0, schedule);
    forall c, d, lock {:trigger s.held[c][lock], s.held[d][lock]} | 0 <= c < d < |s.held|
      ensures s.held[c][lock] == 0 || s.held[d][lock] == 0
    {
      OneHolder(s, lock, c, d);
    }
  }

  /**
    What a core decides at its slot is right: an acquire succeeds exactly when no other core holds the lock,
    and nests; a release by a holder always succeeds, undoes one acquire, and frees the slot with the last one.
   */
  lemma DecisionsAreRight(s: State, c: nat)
    requires Inv(s) && c < |s.cores| && CoreInv(s, c) && s.cores[c].Decide?
    ensures var pc, s' := s.cores[c], DecideSlot(s, c);
            && s'.cores[c].Leave?
            && (s'.cores[c].outcome.Acquired? <==>
                !pc.op.Unlock? && forall d :: 0 <= d < |s.held| && d != c ==> s.held[d][pc.lock] == 0)
            && (s'.cores[c].outcome.Released? <==> pc.op.Unlock?)
            && (pc.op.Unlock? ==> (HasSlot(s'.table, pc.lock) <==> s'.held[c][pc.lock] > 0))
            && (forall d, lock {:trigger s'.held[d][lock]} :: 0 <= d < |s.held| ==>
                  s'.held[d][lock] == s.held[d][lock] +
                  (if d != c || lock != pc.lock then 0
                   else if s'.cores[c].outcome.Acquired? then 1
                   else if s'.cores[c].outcome.Released? then -1 else 0))
  {
    var pc := s.cores[c];
    var slot := s.table[pc.i];
    assert s.held[c][pc.lock] == if slot.core == c then slot.counter else 0;
    assert pc.op.Unlock? && s.held[c][pc.lock] > 1 ==> DecideSlot(s, c).table[pc.i].lock == pc.lock;
    if slot.counter != 0 {
      assert s.held[slot.core][pc.lock] == slot.counter;
    }
    if slot.core == c {
      forall d | 0 <= d < |s.held| && d != c ensures s.held[d][pc.lock] == 0 {
        assert s.held[d][pc.lock] == if slot.core == d then slot.counter else 0;
      }
    }
    if slot.counter == 0 {
      forall d | 0 <= d < |s.held| ensures s.held[d][pc.lock] == 0 {
        assert s.held[d][pc.lock] == if slot.core == d then slot.counter else 0;
      }
    }
  }

  // --- what a return to the caller means -----------------------------------------------------------------------

  /** Runs until core c is back at its caller, or to the end of the schedule. */
  function RunUntilOut(s: State, c: nat, schedule: seq<(nat, Action)>): State
    decreases schedule
  {
    if schedule == [] || c >= |s.cores| || s.cores[c].Out? then s
    else
      var (d, a) := schedule[0];
      RunUntilOut(if Enabled(s, d, a) then Step(s, d, a) else s, c, schedule[1..])
  }

  /** Where a core can stand during a call, and what it then holds, if it held h at the call. */
  predicate UnderWay(s: State, c: nat, op: Op, lock: Lock, h: multiset<Lock>)
    requires c < |s.cores| == |s.held|
  {
    match s.cores[c]
    case Out => false
    case Waiting(l) => l == lock && op.Lock? && s.held[c] == h
    case Stopped => true
    case Leave(o, l, outcome) => l == lock && SameCall(o, op) && Decided(outcome, s.held[c], op, lock, h)
    case _ => s.cores[c].lock == lock && SameCall(s.cores[c].op, op) && s.held[c] == h
  }

  predicate Decided(outcome: Outcome, now: multiset<Lock>, op: Op, lock: Lock, h: multiset<Lock>) {
    match outcome
    case Acquired => !op.Unlock? && now == h + multiset{lock}
    case Busy => !op.Unlock? && now == h
    case Released => op.Unlock? && h[lock] > 0 && now == h - multiset{lock}
    case Stop => true
  }

  /** A Retry belongs to a Lock. */
  predicate SameCall(inside: Op, called: Op) {
    inside == called || (inside.Retry? && called.Lock?)
  }

  /** What the caller has after the call, if it held h before. */
  predicate Returned(after: multiset<Lock>, op: Op, lock: Lock, h: multiset<Lock>) {
    match op
    case TryLock => after == h || after == h + multiset{lock}
    case Unlock => h[lock] > 0 && after == h - multiset{lock}
    case _ => after == h + multiset{lock}
  }

  /** After the step, core c is under way still, or has returned rightly. */
  predicate ReturnsRight(t: State, c: nat, op: Op, lock: Lock, h: multiset<Lock>) {
    && c < |t.cores| == |t.held|
    && if t.cores[c].Out? then Returned(t.held[c], op, lock, h) else UnderWay(t, c, op, lock, h)
  }

  lemma DecideReturns(s: State, c: nat, op: Op, lock: Lock, h: multiset<Lock>)
    requires TableInv(s) && c < |s.cores| == |s.held| && CoreInv(s, c) && s.cores[c].Decide?
    requires UnderWay(s, c, op, lock, h) && !op.Retry?
    ensures ReturnsRight(DecideSlot(s, c), c, op, lock, h)
  {
    hide TableInv;
  }

  lemma LeaveReturns(s: State, c: nat, op: Op, lock: Lock, h: multiset<Lock>)
    requires c < |s.cores| == |s.held| && s.cores[c].Leave? && UnderWay(s, c, op, lock, h) && !op.Retry?
    ensures ReturnsRight(ReleaseWord(s, c), c, op, lock, h)
  {
  }

  lemma OwnStepReturns(s: State, c: nat, op: Op, lock: Lock, h: multiset<Lock>)
    requires Inv(s) && c < |s.cores| && CoreInv(s, c) && UnderWay(s, c, op, lock, h) && !op.Retry?
    ensures ReturnsRight(Advance(s, c), c, op, lock, h)
  {
    hide WordsInv, MutexInv, TableInv, DecideSlot, ReleaseWord, SwapWord, Returned;
    match s.cores[c]
    case Decide(_, _, _) => DecideReturns(s, c, op, lock, h);
    case Leave(_, _, _) => LeaveReturns(s, c, op, lock, h);
    case Swap(_, _) => SwapReturns(s, c, op, lock, h);
    case _ =>
  }

  lemma SwapReturns(s: State, c: nat, op: Op, lock: Lock, h: multiset<Lock>)
    requires c < |s.cores| == |s.held| && s.cores[c].Swap? && UnderWay(s, c, op, lock, h) && !op.Retry?
    ensures ReturnsRight(SwapWord(s, c), c, op, lock, h)
  {
    hide Decided;
  }

  /** The steps of others leave a core where it stands, with what it holds. */
  lemma OthersLeaveCore(s: State, c: nat, d: nat, a: Action)
    requires Inv(s) && c < |s.cores| && d != c && Enabled(s, d, a)
    ensures var t := Step(s, d, a);
            |t.cores| == |t.held| == |s.cores| && t.cores[c] == s.cores[c] && t.held[c] == s.held[c]
  {
    hide WordsInv, MutexInv, TableInv;
  }

  lemma {:induction false} RunReturns(s: State, c: nat, op: Op, lock: Lock, h: multiset<Lock>, schedule: seq<(nat, Action)>)
    requires Inv(s) && c < |s.cores| && UnderWay(s, c, op, lock, h) && !op.Retry?
    ensures ReturnsRight(RunUntilOut(s, c, schedule), c, op, lock, h)
    decreases schedule
  {
    if schedule != [] {
      hide Inv, CoreInv, Advance;
      var (d, a) := schedule[0];
      if Enabled(s, d, a) {
        var t := Step(s, d, a);
        StepKeepsInv(s, d, a);
        if d == c {
          InvOfCore(s, c);
          OwnStepReturns(s, c, op, lock, h);
        } else {
          OthersLeaveCore(s, c, d, a);
        }
        if !t.cores[c].Out? {
          RunReturns(t, c, op, lock, h, schedule[1..]);
        } else {
          RunStaysOut(t, c, schedule[1..]);
        }
      } else {
        RunReturns(s, c, op, lock, h, schedule[1..]);
      }
    }
  }

  lemma RunStaysOut(s: State, c: nat, schedule: seq<(nat, Action)>)
    requires c < |s.cores| && s.cores[c].Out?
    ensures RunUntilOut(s, c, schedule) == s
  {
  }

  lemma InvOfCore(s: State, c: nat)
    requires Inv(s) && c < |s.cores|
    ensures |s.held| == |s.cores| && CoreInv(s, c)
  {
  }

  /**
    In every run: reculock_lock returns only with the lock, held once more than at the call; reculock_unlock with
    one acquire less; and reculock_trylock with one more or with nothing changed, without ever waiting.
   */
  lemma CallsReturnRight(s0: State, before: seq<(nat, Action)>, c: nat, op: Op, lock: Lock, during: seq<(nat, Action)>)
    requires Initial(s0) && Enabled(Run(s0, before), c, Call(op, lock))
    ensures var s := Run(s0, before);
            var t := RunUntilOut(Step(s, c, Call(op, lock)), c, during);
            && c < |t.cores| == |t.held|
            && (t.cores[c].Out? && op.Lock? ==> t.held[c] == s.held[c] + multiset{lock})
            && (t.cores[c].Out? && op.Unlock? ==> s.held[c][lock] > 0 && t.held[c] == s.held[c] - multiset{lock})
            && (t.cores[c].Out? && op.TryLock? ==> t.held[c] == s.held[c] || t.held[c] == s.held[c] + multiset{lock})
            && (t.cores[c].Waiting? ==> op.Lock?)
  {
    var s := Run(s0, before);
    InitialHasInv(s0);
    RunKeepsInv(s0, before);
    StepKeepsInv(s, c, Call(op, lock));
    RunReturns(Step(s, c, Call(op, lock)), c, op, lock, s.held[c], during);
  }

  // --- nobody waits for ever for a core that runs ---------------------------------------------------------------

  /** n steps of core c alone. */
  function Solo(s: State, c: nat, n: nat): State
    decreases n
  {
    if n == 0 || !Enabled(s, c, Go) then s else Solo(Step(s, c, Go), c, n - 1)
  }

  /** How many steps a core takes at most before it returns, with a table of this size, if it need not wait. */
  function StepsLeft(pc: Core, size: nat): nat {
    match pc
    case Leave(_, _, _) => 1
    case Decide(_, _, _) => 2
    case DropMutex(_, _, _) => 3
    case Fill(_, _, _) => 4
    case SearchFree(_, _, i, _) => 5 + Missing(i, size)
    case WantMutex(_, _) => 6 + size
    case Search(_, _, i) => 7 + size + Missing(i, size)
    case Swap(_, _) => 8 + 2 * size
    case Waiting(_) => 9 + 2 * size
    case _ => 0
  }

  function Missing(i: nat, size: nat): nat {
    if i < size then size - i else 0
  }

  /** Does no other core hold the lock? */
  predicate FreeFor(s: State, c: nat, lock: Lock) {
    forall d :: 0 <= d < |s.held| && d != c ==> s.held[d][lock] == 0
  }

  /** There is a free slot from i on. */
  predicate FreeFrom(table: seq<Slot>, i: nat) {
    exists j :: i <= j < |table| && table[j].lock == 0
  }

  /** Core c is under way, and nothing that it would wait or stop for is in its way. */
  ghost predicate Unhindered(s: State, c: nat, op: Op, lock: Lock, h: multiset<Lock>) {
    && c < |s.cores| == |s.held| && UnderWay(s, c, op, lock, h) && !op.Retry?
    && (lock in s.words ==> s.words[lock] == c) && (s.mutex.Some? ==> s.mutex == Some(c))
    && (op.Lock? ==> FreeFor(s, c, lock))
    && Ready(s, c, op, lock)
  }

  ghost predicate Ready(s: State, c: nat, op: Op, lock: Lock)
    requires c < |s.cores|
  {
    match s.cores[c]
    case Stopped => false
    case Leave(_, _, outcome) =>
      && !outcome.Stop? && (outcome.Busy? ==> !FreeFor(s, c, lock)) && (outcome.Acquired? ==> FreeFor(s, c, lock))
    case SearchFree(_, _, i, _) => FreeFrom(s.table, i)
    case DropMutex(_, _, filled) => filled.Some?
    case Swap(_, _) => lock !in s.words && HasRoom(s.table, op, lock)
    case WantMutex(_, _) => FreeFrom(s.table, 0)
    case Search(_, _, _) => HasRoom(s.table, op, lock)
    case Waiting(_) => lock !in s.words && HasRoom(s.table, op, lock) && !SlotZeroInUse(s.table)
    case _ => true
  }

  /** An acquire has a slot, or can get one. */
  predicate HasRoom(table: seq<Slot>, op: Op, lock: Lock) {
    op.Unlock? || HasSlot(table, lock) || FreeFrom(table, 0)
  }

  /** What a call of core c leaves it with if nothing hinders it. */
  function Result(s: State, c: nat, op: Op, lock: Lock, h: multiset<Lock>): multiset<Lock> {
    if op.Unlock? then h - multiset{lock} else if FreeFor(s, c, lock) then h + multiset{lock} else h
  }

  /** Core c goes on, and is then under way still, nearer to its return, or back with the result. */
  ghost predicate GoesOn(s: State, t: State, c: nat, op: Op, lock: Lock, h: multiset<Lock>)
    requires c < |s.cores|
  {
    && |t.cores| == |t.held| == |s.cores| && |t.table| == |s.table| && FreeFor(t, c, lock) == FreeFor(s, c, lock)
    && if t.cores[c].Out? then t.held[c] == Result(s, c, op, lock, h) && lock !in t.words && t.mutex == None
       else Unhindered(t, c, op, lock, h) && StepsLeft(t.cores[c], |t.table|) < StepsLeft(s.cores[c], |s.table|)
  }

  lemma SwapGoesOn(s: State, c: nat, op: Op, lock: Lock, h: multiset<Lock>)
    requires Unhindered(s, c, op, lock, h) && (s.cores[c].Swap? || s.cores[c].Waiting?)
    ensures GoesOn(s, Advance(s, c), c, op, lock, h)
  {
    hide HasRoom, FreeFrom, HasSlot;
  }

  lemma SearchGoesOn(s: State, c: nat, op: Op, lock: Lock, h: multiset<Lock>)
    requires Unhindered(s, c, op, lock, h) && s.cores[c].Search? && TableInv(s) && CoreInv(s, c)
    ensures GoesOn(s, Advance(s, c), c, op, lock, h)
  {
    var i := s.cores[c].i;
    if i >= |s.table| {
      assert !HasSlot(s.table, lock);
    }
    hide FreeFrom, HasSlot, TableInv;
  }

  lemma MutexGoesOn(s: State, c: nat, op: Op, lock: Lock, h: multiset<Lock>)
    requires Unhindered(s, c, op, lock, h) && MutexInv(s)
    requires s.cores[c].WantMutex? || s.cores[c].SearchFree? || s.cores[c].DropMutex?
    ensures GoesOn(s, Advance(s, c), c, op, lock, h)
  {
    hide HasSlot;
  }

  lemma FillGoesOn(s: State, c: nat, op: Op, lock: Lock, h: multiset<Lock>)
    requires Unhindered(s, c, op, lock, h) && s.cores[c].Fill? && CoreInv(s, c)
    ensures GoesOn(s, Advance(s, c), c, op, lock, h)
  {
    hide HasSlot, FreeFrom;
  }

  lemma DecideGoesOn(s: State, c: nat, op: Op, lock: Lock, h: multiset<Lock>)
    requires Unhindered(s, c, op, lock, h) && s.cores[c].Decide? && Inv(s) && CoreInv(s, c)
    ensures GoesOn(s, Advance(s, c), c, op, lock, h)
  {
    DecideReady(s, c);
    DecideReturns(s, c, op, lock, h);
    DecisionGoesOn(s, DecideSlot(s, c), c, op, lock, h);
    hide Inv, CoreInv, DecideSlot, FreeFor, GoesOn, Unhindered;
  }

  /** A decision as it should be. */
  predicate Decision(s: State, t: State, c: nat, lock: Lock) {
    && c < |t.cores| == |t.held| == |s.cores| && |t.table| == |s.table| && t.words == s.words && t.mutex == s.mutex
    && FreeFor(t, c, lock) == FreeFor(s, c, lock)
    && t.cores[c].Leave? && !t.cores[c].outcome.Stop?
    && (t.cores[c].outcome.Busy? ==> !FreeFor(s, c, lock))
    && (t.cores[c].outcome.Acquired? ==> FreeFor(s, c, lock))
  }

  lemma DecisionGoesOn(s: State, t: State, c: nat, op: Op, lock: Lock, h: multiset<Lock>)
    requires Unhindered(s, c, op, lock, h) && s.cores[c].Decide? && Decision(s, t, c, lock)
    requires ReturnsRight(t, c, op, lock, h)
    ensures GoesOn(s, t, c, op, lock, h)
  {
    hide FreeFor, Decided, HasSlot, FreeFrom, HasRoom;
  }

  lemma DecideReady(s: State, c: nat)
    requires c < |s.cores| == |s.held| && s.cores[c].Decide? && Inv(s) && CoreInv(s, c)
    ensures Decision(s, DecideSlot(s, c), c, s.cores[c].lock)
  {
    DecisionsAreRight(s, c);
    hide Inv, CoreInv;
    DecideShape(s, c);
    hide DecideSlot;
  }

  lemma DecideShape(s: State, c: nat)
    requires c < |s.cores| == |s.held| && s.cores[c].Decide? && s.cores[c].i < |s.table|
    ensures var t, unlock := DecideSlot(s, c), s.cores[c].op.Unlock?;
            && |t.cores| == |t.held| == |s.cores| && |t.table| == |s.table| && t.words == s.words && t.mutex == s.mutex
            && (forall d :: 0 <= d < |s.held| && d != c ==> t.held[d] == s.held[d])
            && t.cores[c].Leave? && (t.cores[c].outcome.Stop? ==> unlock) && (t.cores[c].outcome.Busy? ==> !unlock)
  {
  }

  lemma LeaveGoesOn(s: State, c: nat, op: Op, lock: Lock, h: multiset<Lock>)
    requires Unhindered(s, c, op, lock, h) && s.cores[c].Leave? && MutexInv(s)
    ensures GoesOn(s, Advance(s, c), c, op, lock, h)
  {
    hide HasSlot, FreeFrom, HasRoom;
  }

  lemma UnhinderedStep(s: State, c: nat, op: Op, lock: Lock, h: multiset<Lock>)
    requires Inv(s) && Unhindered(s, c, op, lock, h)
    ensures Enabled(s, c, Go) && GoesOn(s, Advance(s, c), c, op, lock, h)
  {
    assert CoreInv(s, c);
    match s.cores[c]
    case Swap(_, _) => SwapGoesOn(s, c, op, lock, h);
    case Waiting(_) => SwapGoesOn(s, c, op, lock, h);
    case Search(_, _, _) => SearchGoesOn(s, c, op, lock, h);
    case Fill(_, _, _) => FillGoesOn(s, c, op, lock, h);
    case Decide(_, _, _) => DecideGoesOn(s, c, op, lock, h);
    case Leave(_, _, _) => LeaveGoesOn(s, c, op, lock, h);
    case Out =>
    case Stopped =>
    case _ => MutexGoesOn(s, c, op, lock, h);
  }

  lemma {:induction false} UnhinderedReturns(s: State, c: nat, op: Op, lock: Lock, h: multiset<Lock>) returns (k: nat)
    requires Inv(s) && Unhindered(s, c, op, lock, h)
    ensures k <= StepsLeft(s.cores[c], |s.table|)
    ensures var t := Solo(s, c, k);
            && c < |t.cores| == |t.held| && t.cores[c].Out? && t.held[c] == Result(s, c, op, lock, h)
            && lock !in t.words && t.mutex == None
    decreases StepsLeft(s.cores[c], |s.table|)
  {
    hide Inv, Advance, Unhindered, UnderWay, FreeFor;
    UnhinderedStep(s, c, op, lock, h);
    StepKeepsInv(s, c, Go);
    var t := Advance(s, c);
    assert Solo(t, c, 0) == t;
    k := 1;
    if t.cores[c].Out? {
      SomeStepsLeft(s, c, op, lock, h);
    } else {
      var m := UnhinderedReturns(t, c, op, lock, h);
      k := m + 1;
    }
  }

  lemma SomeStepsLeft(s: State, c: nat, op: Op, lock: Lock, h: multiset<Lock>)
    requires Unhindered(s, c, op, lock, h)
    ensures StepsLeft(s.cores[c], |s.table|) > 0
  {
  }

  /**
    In every run: a core that then goes on alone, with the words of lock and table free and a slot to be had, returns
    within 2 * LOCK_MAX_NUM + 8 steps: from a lock or an unlock with what it came for, if no other core holds the
    lock, and from a trylock with the lock exactly then.
   */
  lemma AloneReturns(s0: State, before: seq<(nat, Action)>, c: nat, op: Op, lock: Lock) returns (k: nat)
    requires Initial(s0) && Enabled(Run(s0, before), c, Call(op, lock))
    requires var s := Run(s0, before);
             lock !in s.words && s.mutex == None && HasRoom(s.table, op, lock) && (op.Lock? ==> FreeFor(s, c, lock))
    ensures var s := Run(s0, before);
            var t := Solo(Step(s, c, Call(op, lock)), c, k);
            && k <= 2 * |s.table| + 8 && c < |t.cores| == |t.held| && t.cores[c].Out? && lock !in t.words && t.mutex == None
            && t.held[c] == (if op.Unlock? then s.held[c] - multiset{lock}
                             else if FreeFor(s, c, lock) then s.held[c] + multiset{lock} else s.held[c])
  {
    var s := Run(s0, before);
    InitialHasInv(s0);
    RunKeepsInv(s0, before);
    StepKeepsInv(s, c, Call(op, lock));
    hide Inv, HasRoom;
    k := UnhinderedReturns(Step(s, c, Call(op, lock)), c, op, lock, s.held[c]);
  }

  // --- the wait loop ------------------------------------------------------------------------------------------

  lemma {:induction false} SoloStays(s: State, c: nat, lock: Lock, k: nat)
    requires c < |s.cores| && s.cores[c] == Waiting(lock) && SlotZeroInUse(s.table)
    ensures Solo(s, c, k) == s
    decreases k
  {
    if k > 0 {
      SoloStays(s, c, lock, k - 1);
    }
  }

  /** Core c gets the lock by going on alone. */
  ghost predicate GetsAlone(s: State, c: nat, lock: Lock)
    requires c < |s.held|
  {
    exists k: nat ::
      var t := Solo(s, c, k);
      c < |t.cores| == |t.held| && t.cores[c].Out? && t.held[c] == s.held[c] + multiset{lock}
  }

  /**
    In every run: a core that waits for a lock no other core holds any more gets it by going on alone if and only if
    the lock of slot 0, which may be quite another one, is not held.
   */
  lemma WaitsOnSlotZero(s0: State, before: seq<(nat, Action)>, c: nat, lock: Lock)
    requires Initial(s0)
    requires var s := Run(s0, before);
             && c < |s.cores| == |s.held| && s.cores[c] == Waiting(lock) && lock !in s.words && s.mutex == None
             && HasRoom(s.table, Lock, lock) && FreeFor(s, c, lock)
    ensures var s := Run(s0, before); GetsAlone(s, c, lock) <==> !SlotZeroInUse(s.table)
  {
    var s := Run(s0, before);
    InitialHasInv(s0);
    RunKeepsInv(s0, before);
    hide Inv, HasRoom;
    if SlotZeroInUse(s.table) {
      forall k: nat
        ensures Solo(s, c, k) == s
      {
        SoloStays(s, c, lock, k);
      }
    } else {
      var k := UnhinderedReturns(s, c, Lock, lock, s.held[c]);
    }
  }

  /** Core c waits for a lock and holds another one, that of slot 0. */
  ghost predicate WaitsForItself(s: State, c: nat, lock: Lock) {
    && Inv(s) && c < |s.cores| == |s.held| && s.cores[c] == Waiting(lock)
    && s.table != [] && s.table[0].lock != 0 && s.held[c][s.table[0].lock] > 0
  }

  /** The slot of a held lock is its holder's alone. */
  lemma OthersLeaveSlotZero(s: State, c: nat, lock: Lock, d: nat, a: Action)
    requires WaitsForItself(s, c, lock) && Enabled(s, d, a) && d != c
    ensures Step(s, d, a).table != [] && Step(s, d, a).table[0] == s.table[0]
  {
    assert CoreInv(s, d) && TableInv(s);
    var own := s.table[0].lock;
    assert s.held[c][own] == (if s.table[0].core == c then s.table[0].counter else 0);
    OneHolder(s, own, c, d);
    hide WordsInv, MutexInv, TableInv, Inv;
  }

  lemma StepWaitsForItself(s: State, c: nat, lock: Lock, d: nat, a: Action)
    requires WaitsForItself(s, c, lock) && Enabled(s, d, a)
    ensures WaitsForItself(Step(s, d, a), c, lock)
  {
    StepKeepsInv(s, d, a);
    if d == c {
      assert TableInv(s);
      assert s.held[c][s.table[0].lock] == (if s.table[0].core == c then s.table[0].counter else 0);
      hide Inv, TableInv;
    } else {
      OthersLeaveCore(s, c, d, a);
      OthersLeaveSlotZero(s, c, lock, d, a);
      hide Inv, Step;
    }
  }

  /** A core that waits for a lock and holds that of slot 0 waits for ever, whatever the others do. */
  lemma {:induction false} WaitsForEver(s: State, c: nat, lock: Lock, schedule: seq<(nat, Action)>)
    requires WaitsForItself(s, c, lock)
    ensures var t := Run(s, schedule); c < |t.cores| && t.cores[c] == Waiting(lock)
    decreases schedule
  {
    if schedule != [] {
      hide Step, Enabled, WaitsForItself;
      var (d, a) := schedule[0];
      if Enabled(s, d, a) {
        StepWaitsForItself(s, c, lock, d, a);
        WaitsForEver(Step(s, d, a), c, lock, schedule[1..]);
      } else {
        WaitsForEver(s, c, lock, schedule[1..]);
      }
    } else {
      assert Run(s, schedule) == s;
    }
  }

  // Such a state is reached by two cores and two locks.

  lemma {:induction false} RunConcat(s: State, a: seq<(nat, Action)>, b: seq<(nat, Action)>)
    ensures Run(s, a + b) == Run(Run(s, a), b)
    decreases a
  {
    if a == [] {
      assert a + b == b;
    } else {
      assert (a + b)[1..] == a[1..] + b;
      var (c, action) := a[0];
      RunConcat(if Enabled(s, c, action) then Step(s, c, action) else s, a[1..], b);
    }
  }

  lemma {:induction false} SoloIsRun(s: State, c: nat, k: nat) returns (schedule: seq<(nat, Action)>)
    ensures Run(s, schedule) == Solo(s, c, k)
    decreases k
  {
    schedule := [];
    if k > 0 && Enabled(s, c, Go) {
      var rest := SoloIsRun(Step(s, c, Go), c, k - 1);
      schedule := [(c, Go)] + rest;
      assert schedule[1..] == rest;
    }
  }

  lemma SoloOne(s: State, c: nat, k: nat)
    requires k > 0 && Enabled(s, c, Go)
    ensures Solo(s, c, k) == Solo(Advance(s, c), c, k - 1)
  {
  }

  /** Core c at this point, with the word of the lock swapped and no other. */
  function InsideAlone(s: State, c: nat, pc: Core, lock: Lock): (t: State)
    requires c < |s.cores|
    ensures |t.cores| == |s.cores| && t.cores[c] == pc && t.held == s.held
  {
    At(s, c, pc).(words := map[lock := c])
  }

  lemma SwapStep(s: State, c: nat, op: Op, lock: Lock)
    requires c < |s.cores| == |s.held| && s.words == map[]
    ensures Advance(At(s, c, Swap(op, lock)), c) == InsideAlone(s, c, Search(op, lock, 0), lock)
  {
  }

  lemma SearchStep(s: State, c: nat, op: Op, lock: Lock, j: nat)
    requires c < |s.cores| == |s.held| && j < |s.table|
    ensures Advance(InsideAlone(s, c, Search(op, lock, j), lock), c)
         == InsideAlone(s, c, if s.table[j].lock == lock then Decide(op, lock, j) else Search(op, lock, j + 1), lock)
  {
  }

  /** A lock that has slot i, 0 or 1, is found at once. */
  lemma SearchGoesThrough(s: State, c: nat, op: Op, lock: Lock, i: nat)
    requires c < |s.cores| == |s.held| && s.words == map[] && Enabled(s, c, Call(op, lock))
    requires i < 2 <= |s.table| && s.table[i].lock == lock && (i == 1 ==> s.table[0].lock != lock)
    ensures Solo(Step(s, c, Call(op, lock)), c, i + 4) == Solo(InsideAlone(s, c, Decide(op, lock, i), lock), c, 2)
  {
    hide *;
    SwapStep(s, c, op, lock);
    FirstStep(s, c, op, lock, i + 4);
    if i == 1 {
      SearchStep(s, c, op, lock, 0);
      InsideStep(s, c, Search(op, lock, 0), lock, 4);
    }
    SearchStep(s, c, op, lock, i);
    InsideStep(s, c, Search(op, lock, i), lock, 3);
  }

  lemma InsideStep(s: State, c: nat, pc: Core, lock: Lock, k: nat)
    requires c < |s.cores| == |s.held| && k > 0 && pc.Search?
    ensures Solo(InsideAlone(s, c, pc, lock), c, k) == Solo(Advance(InsideAlone(s, c, pc, lock), c), c, k - 1)
  {
  }

  lemma FirstStep(s: State, c: nat, op: Op, lock: Lock, k: nat)
    requires c < |s.cores| == |s.held| && k > 0 && Enabled(s, c, Call(op, lock))
    ensures Solo(Step(s, c, Call(op, lock)), c, k) == Solo(Advance(At(s, c, Swap(op, lock)), c), c, k - 1)
  {
  }

  /** Then its slot is read and updated, and the word put back. */
  lemma DecideGoesThrough(s: State, c: nat, op: Op, lock: Lock, i: nat)
    requires c < |s.cores| == |s.held| && i < |s.table| && s.words == map[] && !op.Retry? && !op.TryLock?
    requires !DecideSlot(At(s, c, Decide(op, lock, i)), c).cores[c].outcome.Stop?
    ensures var d := DecideSlot(At(s, c, Decide(op, lock, i)), c);
            Solo(InsideAlone(s, c, Decide(op, lock, i), lock), c, 2) ==
            d.(cores := s.cores[c := if d.cores[c].outcome.Busy? then Waiting(lock) else Out])
  {
    var d := DecideSlot(At(s, c, Decide(op, lock, i)), c);
    var s4, s5 := InsideAlone(s, c, Decide(op, lock, i), lock), d.(words := map[lock := c]);
    DecideIgnoresWords(s, c, op, lock, i);
    hide DecideSlot;
    SoloOne(s4, c, 2);
    SoloOne(s5, c, 1);
    var end := d.(cores := s.cores[c := if d.cores[c].outcome.Busy? then Waiting(lock) else Out]);
    assert map[lock := c] - {lock} == map[];
    assert Advance(s5, c) == end;
    assert Solo(end, c, 0) == end;
  }

  lemma DecideIgnoresWords(s: State, c: nat, op: Op, lock: Lock, i: nat)
    requires c < |s.cores| == |s.held| && i < |s.table|
    ensures var d := DecideSlot(At(s, c, Decide(op, lock, i)), c);
            && Advance(InsideAlone(s, c, Decide(op, lock, i), lock), c) == d.(words := map[lock := c])
            && d.words == s.words && d.cores == s.cores[c := d.cores[c]] && |d.held| == |s.held| && d.cores[c].Leave?
            && d.cores[c].op == op && d.cores[c].lock == lock
  {
  }

  lemma CallGoesThrough(s: State, c: nat, op: Op, lock: Lock, i: nat) returns (schedule: seq<(nat, Action)>)
    requires c < |s.cores| == |s.held| && s.cores[c].Out? && (op.Lock? || (op.Unlock? && s.held[c][lock] > 0))
    requires i < 2 <= |s.table| && s.table[i].lock == lock && (i == 1 ==> s.table[0].lock != lock) && s.words == map[]
    requires !DecideSlot(At(s, c, Decide(op, lock, i)), c).cores[c].outcome.Stop?
    ensures var d := DecideSlot(At(s, c, Decide(op, lock, i)), c);
            Run(s, schedule) == d.(cores := s.cores[c := if d.cores[c].outcome.Busy? then Waiting(lock) else Out])
  {
    SearchGoesThrough(s, c, op, lock, i);
    DecideGoesThrough(s, c, op, lock, i);
    hide DecideSlot, Solo;
    var rest := SoloIsRun(Step(s, c, Call(op, lock)), c, i + 4);
    schedule := [(c, Call(op, lock))] + rest;
    assert schedule[1..] == rest;
  }

  /** Two cores, core 1 outside, and two locks that have been given slots. */
  predicate Two(s: State, first: Slot, second: Slot, core0: Core, held0: multiset<Lock>, held1: multiset<Lock>) {
    && |s.table| >= 2 && s.table[0] == first && s.table[1] == second && s.words == map[]
    && |s.cores| == |s.held| == 2 && s.cores[0] == core0 && s.cores[1].Out? && s.held[0] == held0 && s.held[1] == held1
  }

  lemma Core0Takes1(s: State) returns (schedule: seq<(nat, Action)>)
    requires Two(s, Slot(1, 0, 0), Slot(2, 0, 0), Out, multiset{}, multiset{})
    ensures Two(Run(s, schedule), Slot(1, 1, 0), Slot(2, 0, 0), Out, multiset{1}, multiset{})
  {
    schedule := CallGoesThrough(s, 0, Lock, 1, 0);
    hide Run;
  }

  lemma Core1Takes2(s: State) returns (schedule: seq<(nat, Action)>)
    requires Two(s, Slot(1, 1, 0), Slot(2, 0, 0), Out, multiset{1}, multiset{})
    ensures Two(Run(s, schedule), Slot(1, 1, 0), Slot(2, 1, 1), Out, multiset{1}, multiset{2})
  {
    schedule := CallGoesThrough(s, 1, Lock, 2, 1);
    hide Run;
  }

  lemma Core0AsksFor2(s: State) returns (schedule: seq<(nat, Action)>)
    requires Two(s, Slot(1, 1, 0), Slot(2, 1, 1), Out, multiset{1}, multiset{2})
    ensures Two(Run(s, schedule), Slot(1, 1, 0), Slot(2, 1, 1), Waiting(2), multiset{1}, multiset{2})
  {
    schedule := CallGoesThrough(s, 0, Lock, 2, 1);
    hide Run;
  }

  lemma Core1Releases2(s: State) returns (schedule: seq<(nat, Action)>)
    requires Two(s, Slot(1, 1, 0), Slot(2, 1, 1), Waiting(2), multiset{1}, multiset{2})
    ensures Two(Run(s, schedule), Slot(1, 1, 0), FREE_SLOT, Waiting(2), multiset{1}, multiset{})
  {
    schedule := CallGoesThrough(s, 1, Unlock, 2, 1);
    hide Run;
  }

  /**
    An input: core 0 takes lock 1, core 1 takes lock 2, core 0 asks for lock 2, core 1 releases it. Now nobody holds
    lock 2, and core 0 waits for it for ever.
   */
  lemma FreeLockNeverTaken() returns (s0: State, schedule: seq<(nat, Action)>)
    ensures Initial(s0)
    ensures var s := Run(s0, schedule);
            && |s.cores| == |s.held| == 2 && s.held[0] == multiset{1} && s.held[1] == multiset{} && s.words == map[]
            && s.cores[0] == Waiting(2) && s.cores[1] == Out
            && forall more :: var t := Run(s, more); |t.cores| > 0 && t.cores[0] == Waiting(2)
  {
    var table := [Slot(1, 0, 0), Slot(2, 0, 0)] + seq(LOCK_MAX_NUM - 2, _ => FREE_SLOT);
    s0 := State(table, map[], None, [Out, Out], [multiset{}, multiset{}]);
    assert Initial(s0);
    InitialHasInv(s0);
    hide Run, Initial;
    var a := Core0Takes1(s0);
    var b := Core1Takes2(Run(s0, a));
    var c := Core0AsksFor2(Run(Run(s0, a), b));
    var d := Core1Releases2(Run(Run(Run(s0, a), b), c));
    RunConcat(s0, a, b);
    RunConcat(s0, a + b, c);
    RunConcat(s0, a + b + c, d);
    schedule := a + b + c + d;
    RunKeepsInv(s0, schedule);
    var s := Run(s0, schedule);
    hide Inv;
    assert WaitsForItself(s, 0, 2);
    forall more
      ensures var t := Run(s, more); |t.cores| > 0 && t.cores[0] == Waiting(2)
    {
      WaitsForEver(s, 0, 2, more);
    }
  }

  // The table has room for LOCK_MAX_NUM locks: a program that uses no more never sees a core stop.

  /** Slots can only have been freed since the mutex was swapped, so the slots passed were full then. */
  ghost predicate RoomCore(s: State, used: set<Lock>, c: nat)
    requires c < |s.cores|
  {
    var pc := s.cores[c];
    && (!pc.Out? && !pc.Stopped? ==> pc.lock in used)
    && match pc
       case SearchFree(_, lock, i, start) =>
         && |start| == |s.table| && NoLockTwice(start) && i <= |s.table|
         && (forall j :: 0 <= j < |start| ==> s.table[j].lock == 0 || s.table[j].lock == start[j].lock)
         && (forall j :: 0 <= j < |start| && start[j].lock != 0 ==> start[j].lock != lock && start[j].lock in used)
         && (forall j :: 0 <= j < i ==> start[j].lock != 0)
       case DropMutex(_, _, filled) => filled == None ==> |used| > |s.table|
       case Leave(_, _, outcome) => outcome.Stop? ==> |used| > |s.table|
       case Stopped => |used| > |s.table|
       case _ => true
  }

  ghost predicate RoomInv(s: State, used: set<Lock>) {
    && (forall i :: 0 <= i < |s.table| && s.table[i].lock != 0 ==> s.table[i].lock in used)
    && (forall c :: 0 <= c < |s.cores| ==> RoomCore(s, used, c))
  }

  /** A full table of different locks, none of them this one, is one lock too many. */
  lemma {:induction false} FullTableMeansTooMany(table: seq<Slot>, used: set<Lock>, lock: Lock)
    requires NoLockTwice(table) && lock in used
    requires forall j :: 0 <= j < |table| ==> table[j].lock != 0 && table[j].lock != lock && table[j].lock in used
    ensures |used| > |table|
    decreases |table|
  {
    if table != [] {
      var last := table[|table| - 1].lock;
      FullTableMeansTooMany(table[..|table| - 1], used - {last}, lock);
      assert |used - {last}| == |used| - 1;
    }
  }

  /** A step of a core only empties slots, unless it fills the one it has found free. */
  lemma AdvanceTable(s: State, c: nat)
    requires Inv(s) && c < |s.cores|
    ensures var s' := Advance(s, c);
            && OwnStep(s, s', c) && |s'.table| == |s.table|
            && (s.cores[c].Fill? || forall j :: 0 <= j < |s.table| ==> s'.table[j].lock == 0 || s'.table[j].lock == s.table[j].lock)
  {
    hide WordsInv, MutexInv, TableInv;
    assert CoreInv(s, c);
  }

  lemma OtherCoresKeepRoom(s: State, used: set<Lock>, c: nat, d: nat)
    requires Inv(s) && c < |s.cores| && d < |s.cores| && c != d && RoomCore(s, used, d)
    ensures |Advance(s, c).cores| == |s.cores| && RoomCore(Advance(s, c), used, d)
  {
    InsideApart(s, c, d);
    hide WordsInv, MutexInv, TableInv, CoreInv, Advance;
    AdvanceTable(s, c);
  }

  lemma SearchFreeKeepsRoom(s: State, used: set<Lock>, c: nat)
    requires RoomCoreBounds(s, used, c) && s.cores[c].SearchFree?
    ensures |SearchFreeSlot(s, c).cores| == |s.cores| && RoomCore(SearchFreeSlot(s, c), used, c)
  {
    var pc := s.cores[c];
    if pc.i == |s.table| {
      FullTableMeansTooMany(pc.start, used, pc.lock);
    }
  }

  ghost predicate RoomCoreBounds(s: State, used: set<Lock>, c: nat) {
    c < |s.cores| == |s.held| && RoomCore(s, used, c)
  }

  /** A holder's release finds its slot. */
  lemma SearchKeepsRoom(s: State, used: set<Lock>, c: nat)
    requires TableInv(s) && RoomCoreBounds(s, used, c) && CoreInv(s, c) && s.cores[c].Search?
    ensures |SearchSlot(s, c).cores| == |s.cores| && RoomCore(SearchSlot(s, c), used, c)
  {
    var pc := s.cores[c];
    if pc.i >= |s.table| {
      assert !HasSlot(s.table, pc.lock);
    }
  }

  lemma DecideKeepsRoom(s: State, used: set<Lock>, c: nat)
    requires TableInv(s) && RoomCoreBounds(s, used, c) && CoreInv(s, c) && s.cores[c].Decide?
    ensures |DecideSlot(s, c).cores| == |s.cores| && RoomCore(DecideSlot(s, c), used, c)
  {
    var i := s.cores[c].i;
    assert s.held[c][s.table[i].lock] == if s.table[i].core == c then s.table[i].counter else 0;
  }

  lemma MutexKeepsRoom(s: State, used: set<Lock>, c: nat)
    requires TableInv(s) && RoomInv(s, used) && RoomCoreBounds(s, used, c) && CoreInv(s, c) && s.cores[c].WantMutex?
    ensures |SwapMutex(s, c).cores| == |s.cores| && RoomCore(SwapMutex(s, c), used, c)
  {
    assert forall j :: 0 <= j < |s.table| && s.table[j].lock == s.cores[c].lock ==> HasSlot(s.table, s.cores[c].lock);
  }

  lemma OwnStepKeepsRoom(s: State, used: set<Lock>, c: nat)
    requires Inv(s) && RoomInv(s, used) && c < |s.cores|
    ensures |Advance(s, c).cores| == |s.cores| && RoomCore(Advance(s, c), used, c)
  {
    assert CoreInv(s, c) && RoomCore(s, used, c);
    hide WordsInv, MutexInv, TableInv, CoreInv, RoomInv;
    match s.cores[c]
    case SearchFree(_, _, _, _) => SearchFreeKeepsRoom(s, used, c);
    case Search(_, _, _) => SearchKeepsRoom(s, used, c);
    case Decide(_, _, _) => DecideKeepsRoom(s, used, c);
    case WantMutex(_, _) => MutexKeepsRoom(s, used, c);
    case _ =>
  }

  lemma AdvanceKeepsLocksUsed(s: State, used: set<Lock>, c: nat)
    requires Inv(s) && RoomInv(s, used) && c < |s.cores|
    ensures var table := Advance(s, c).table; forall i :: 0 <= i < |table| && table[i].lock != 0 ==> table[i].lock in used
  {
    assert RoomCore(s, used, c) && CoreInv(s, c);
    hide WordsInv, MutexInv, TableInv;
  }

  lemma GoKeepsRoom(s: State, used: set<Lock>, c: nat)
    requires Inv(s) && RoomInv(s, used) && c < |s.cores|
    ensures RoomInv(Advance(s, c), used) && |Advance(s, c).table| == |s.table|
  {
    AdvanceTable(s, c);
    AdvanceKeepsLocksUsed(s, used, c);
    hide Advance, RoomCore, WordsInv, MutexInv, TableInv, CoreInv;
    OwnStepKeepsRoom(s, used, c);
    forall d | 0 <= d < |Advance(s, c).cores| ensures RoomCore(Advance(s, c), used, d) {
      if d != c {
        OtherCoresKeepRoom(s, used, c, d);
      }
    }
  }

  lemma StepKeepsRoom(s: State, used: set<Lock>, c: nat, a: Action)
    requires Inv(s) && RoomInv(s, used) && Enabled(s, c, a) && (a.Call? ==> a.lock in used)
    ensures RoomInv(Step(s, c, a), used) && |Step(s, c, a).table| == |s.table|
  {
    hide Advance, WordsInv, MutexInv, TableInv, CoreInv;
    if a.Go? {
      GoKeepsRoom(s, used, c);
    } else {
      var next := Step(s, c, a);
      forall d | 0 <= d < |next.cores| ensures RoomCore(next, used, d) {
        assert RoomCore(s, used, d);
      }
    }
  }

  lemma {:induction false} RunKeepsRoom(s: State, schedule: seq<(nat, Action)>, used: set<Lock>)
    requires Inv(s) && RoomInv(s, used)
    requires forall k :: 0 <= k < |schedule| && schedule[k].1.Call? ==> schedule[k].1.lock in used
    ensures RoomInv(Run(s, schedule), used) && |Run(s, schedule).table| == |s.table|
    decreases schedule
  {
    if schedule != [] {
      hide Step, Enabled, RoomInv, Inv;
      var (c, a) := schedule[0];
      assert schedule[0].1 == a;
      if Enabled(s, c, a) {
        StepKeepsInv(s, c, a);
        StepKeepsRoom(s, used, c, a);
        RunKeepsRoom(Step(s, c, a), schedule[1..], used);
      } else {
        RunKeepsRoom(s, schedule[1..], used);
      }
    }
  }

  /**
    If all the locks of a program, those in the table at the start and those it calls on, are at most
    LOCK_MAX_NUM, then in no interleaving does a core stop: a holder's release always finds its slot, and
    an acquire always finds or makes one, although other cores free and fill slots during its searches.
   */
  lemma NoCoreStops(s0: State, schedule: seq<(nat, Action)>, used: set<Lock>)
    requires Initial(s0) && |used| <= LOCK_MAX_NUM
    requires forall i :: 0 <= i < |s0.table| && s0.table[i].lock != 0 ==> s0.table[i].lock in used
    requires forall k :: 0 <= k < |schedule| && schedule[k].1.Call? ==> schedule[k].1.lock in used
    ensures var s := Run(s0, schedule);
            forall c :: 0 <= c < |s.cores| ==> !s.cores[c].Stopped?
  {
    var s := Run(s0, schedule);
    InitialHasInv(s0);
    forall c | 0 <= c < |s0.cores| ensures RoomCore(s0, used, c) {
      assert s0.cores[c] == Out;
    }
    RunKeepsRoom(s0, schedule, used);
    forall c | 0 <= c < |s.cores| ensures !s.cores[c].Stopped? {
      assert RoomCore(s, used, c);
    }
  }
}
