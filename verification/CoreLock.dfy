/**
  The corelock of sdk/lib/bsp/include/atomic.h: a recursive lock made of a spinlock, a count and a core number.

  Every swap, read and write of the lock's three fields is one step of one core, and the steps of the cores mix
  freely. A core that waits in corelock_lock reads the count without the spinlock, so it can see any value that
  the count has between two steps.
 */
module CoreLock {
  import opened Bytes

  /** Retry is the corelock_trylock inside corelock_lock's wait loop. */
  datatype Op = TryLock | Lock | Retry | Unlock

  datatype Outcome = Acquired | Busy | Released | Stop

  /** Where a core stands in the code. */
  datatype Core =
    | Out
    | Swap(op: Op)                    // about to swap the spinlock
    | Decide(op: Op)                  // has the spinlock; about to look at count and core
    | CountUp(op: Op, first: bool)    // about to do count++
    | SetCore(op: Op)                 // about to do core = own number
    | CountDown                       // about to do count--
    | ClearCore                       // about to do core = -1
    | ClearCount                      // about to do count = 0
    | Leave(op: Op, outcome: Outcome) // about to release the spinlock and return
    | Waiting                         // in the loop that reads count
    | Stopped                         // made the exit call

  /**
    word is the core that swapped the spinlock: the code keeps no more than the -1. held is a history: per core,
    its acquires not yet released.
   */
  datatype State = State(word: Option<nat>, count: int, core: int, cores: seq<Core>, held: seq<nat>)

  /** A call of one of the three operations, or the next step of the one under way. */
  datatype Action = Call(op: Op) | Go

  /** Only a core that holds the lock releases it. */
  predicate Enabled(s: State, c: nat, a: Action) {
    && c < |s.cores| == |s.held|
    && match a
       case Call(op) => s.cores[c].Out? && !op.Retry? && (op.Unlock? ==> s.held[c] > 0)
       case Go => !s.cores[c].Out? && !s.cores[c].Stopped?
  }

  function At(s: State, c: nat, pc: Core): State
    requires c < |s.cores|
  {
    s.(cores := s.cores[c := pc])
  }

  /** spinlock_trylock, or a round of spinlock_lock. */
  function SwapWord(s: State, c: nat): State
    requires c < |s.cores| && s.cores[c].Swap?
  {
    var op := s.cores[c].op;
    if s.word.None? then At(s, c, Decide(op)).(word := Some(c))
    else match op
         case TryLock => At(s, c, Out)
         case Retry => At(s, c, Waiting)
         case _ => s
  }

  /** The branches on count and core. */
  function Branch(s: State, c: nat): State
    requires c < |s.cores| && s.cores[c].Decide?
  {
    var op := s.cores[c].op;
    At(s, c, if op.Unlock? then if s.core == c then CountDown else Leave(op, Stop)
             else if s.count == 0 then CountUp(op, true)
             else if s.core == c then CountUp(op, false)
             else Leave(op, Busy))
  }

  function Increment(s: State, c: nat): State
    requires c < |s.cores| == |s.held| && s.cores[c].CountUp?
  {
    var pc := s.cores[c];
    At(s, c, if pc.first then SetCore(pc.op) else Leave(pc.op, Acquired))
    .(count := s.count + 1, held := s.held[c := s.held[c] + 1])
  }

  function Decrement(s: State, c: nat): State
    requires c < |s.cores| == |s.held| && s.cores[c].CountDown?
  {
    At(s, c, if s.count - 1 <= 0 then ClearCore else Leave(Unlock, Released))
    .(count := s.count - 1, held := if s.held[c] > 0 then s.held[c := s.held[c] - 1] else s.held)
  }

  function ReleaseWord(s: State, c: nat): State
    requires c < |s.cores| && s.cores[c].Leave?
  {
    var pc := s.cores[c];
    At(s, c, if pc.outcome.Stop? then Stopped
             else if pc.outcome.Busy? && !pc.op.TryLock? then Waiting
             else Out).(word := None)
  }

  function Advance(s: State, c: nat): State
    requires c < |s.cores| == |s.held|
  {
    match s.cores[c]
    case Swap(_) => SwapWord(s, c)
    case Decide(_) => Branch(s, c)
    case CountUp(_, _) => Increment(s, c)
    case SetCore(op) => At(s, c, Leave(op, Acquired)).(core := c)
    case CountDown => Decrement(s, c)
    case ClearCore => At(s, c, ClearCount).(core := -1)
    case ClearCount => At(s, c, Leave(Unlock, Released)).(count := 0)
    case Leave(_, _) => ReleaseWord(s, c)
    case Waiting => if s.count != 0 then s else At(s, c, Swap(Retry))
    case _ => s
  }

  function Step(s: State, c: nat, a: Action): State
    requires Enabled(s, c, a)
  {
    match a
    case Call(op) => At(s, c, Swap(op))
    case Go => Advance(s, c)
  }

  /** A run: who does what, in order; what cannot be done then is skipped. */
  function Run(s: State, schedule: seq<(nat, Action)>): State
    decreases schedule
  {
    if schedule == [] then s
    else
      var (c, a) := schedule[0];
      Run(if Enabled(s, c, a) then Step(s, c, a) else s, schedule[1..])
  }

  /** CORELOCK_INIT, and no core has called yet. */
  predicate Initial(s: State) {
    && s.word == None && s.count == 0 && s.core == -1 && |s.cores| == |s.held|
    && (forall c :: 0 <= c < |s.cores| ==> s.cores[c] == Out && s.held[c] == 0)
  }

  // --- the invariant ------------------------------------------------------------------------------------------

  /** Has the core swapped the spinlock? */
  predicate Inside(pc: Core) {
    pc.Decide? || pc.CountUp? || pc.SetCore? || pc.CountDown? || pc.ClearCore? || pc.ClearCount? || pc.Leave?
  }

  predicate OnlyHolder(s: State, c: int, n: nat) {
    && 0 <= c < |s.held| && s.held[c] == n
    && forall d :: 0 <= d < |s.held| && d != c ==> s.held[d] == 0
  }

  predicate NoHolder(s: State) {
    forall d :: 0 <= d < |s.held| ==> s.held[d] == 0
  }

  /** The stored fields say who holds the lock, and how often. */
  predicate Accurate(s: State) {
    if s.core == -1 then s.count == 0 && NoHolder(s)
    else s.count > 0 && OnlyHolder(s, s.core, s.count)
  }

  /** What the core that has the spinlock knows, by where it stands. */
  predicate Knows(s: State, c: nat)
    requires c < |s.cores| == |s.held|
  {
    match s.cores[c]
    case Decide(op) => Accurate(s)
    case CountUp(_, first) => Accurate(s) && (if first then s.core == -1 else s.core == c)
    case SetCore(_) => s.count == 1 && OnlyHolder(s, c, 1)
    case CountDown => Accurate(s) && s.core == c
    case ClearCore => s.count == 0 && s.core == c && NoHolder(s)
    case ClearCount => s.count == 0 && s.core == -1 && NoHolder(s)
    case Leave(op, outcome) => Accurate(s) && !outcome.Stop? && (outcome.Busy? ==> s.core != c && s.core != -1)
    case _ => true
  }

  /** A core on its way to release the lock holds it. */
  predicate MayUnlock(s: State, c: nat)
    requires c < |s.cores| == |s.held|
  {
    var pc := s.cores[c];
    (pc.Swap? || pc.Decide?) && pc.op.Unlock? ==> s.held[c] > 0
  }

  predicate WordTells(s: State, c: nat)
    requires c < |s.cores|
  {
    Inside(s.cores[c]) <==> s.word == Some(c)
  }

  predicate Inv(s: State) {
    && |s.cores| == |s.held|
    && (s.word.Some? ==> s.word.value < |s.cores| && Knows(s, s.word.value))
    && (s.word.None? ==> Accurate(s))
    && (forall c :: 0 <= c < |s.cores| ==> WordTells(s, c))
    && (forall c :: 0 <= c < |s.cores| ==> MayUnlock(s, c) && !s.cores[c].Stopped?)
  }

  /** Nothing of the other cores differs. */
  predicate OwnStep(s: State, t: State, c: nat) {
    && c < |s.cores| == |t.cores| && |t.held| == |s.held|
    && forall d :: 0 <= d < |s.cores| && d != c ==> t.cores[d] == s.cores[d] && (d < |s.held| ==> t.held[d] == s.held[d])
  }

  /** What one core's step has to show: the others follow. */
  lemma OwnStepKeepsInv(s: State, t: State, c: nat)
    requires Inv(s) && OwnStep(s, t, c)
    requires t.word == s.word || (s.word.None? && t.word == Some(c)) || (s.word == Some(c) && t.word.None?)
    requires WordTells(t, c) && MayUnlock(t, c) && !t.cores[c].Stopped?
    requires t.word.Some? ==> t.word.value < |t.cores| && Knows(t, t.word.value)
    requires t.word.None? ==> Accurate(t)
    ensures Inv(t)
  {
    forall d | 0 <= d < |s.cores|
      ensures WordTells(t, d) && MayUnlock(t, d) && !t.cores[d].Stopped?
    {
      assert WordTells(s, d) && MayUnlock(s, d);
    }
  }

  /** A step that touches neither the fields nor the history. */
  lemma QuietStepKeepsInv(s: State, c: nat, pc: Core)
    requires Inv(s) && c < |s.cores| && !Inside(s.cores[c]) && !Inside(pc) && !pc.Stopped?
    requires MayUnlock(At(s, c, pc), c)
    ensures Inv(At(s, c, pc))
  {
    var t := At(s, c, pc);
    assert WordTells(s, c);
    SameFields(s, t);
    if s.word.Some? {
      assert Knows(t, s.word.value);
    }
    OwnStepKeepsInv(s, t, c);
  }

  lemma SameFields(s: State, t: State)
    requires s.core == t.core && s.count == t.count && s.held == t.held
    ensures Accurate(s) <==> Accurate(t)
  {
  }

  lemma SwapKeepsInv(s: State, c: nat)
    requires Inv(s) && c < |s.cores| && s.cores[c].Swap?
    ensures Inv(SwapWord(s, c))
  {
    assert WordTells(s, c) && MayUnlock(s, c);
    if s.word.None? {
      OwnStepKeepsInv(s, SwapWord(s, c), c);
    } else if s.cores[c].op == TryLock {
      QuietStepKeepsInv(s, c, Out);
    } else if s.cores[c].op == Retry {
      QuietStepKeepsInv(s, c, Waiting);
    }
  }

  lemma BranchKeepsInv(s: State, c: nat)
    requires Inv(s) && c < |s.cores| && s.cores[c].Decide?
    ensures Inv(Branch(s, c))
  {
    assert WordTells(s, c) && MayUnlock(s, c);
    OwnStepKeepsInv(s, Branch(s, c), c);
  }

  lemma IncrementKeepsInv(s: State, c: nat)
    requires Inv(s) && c < |s.cores| && s.cores[c].CountUp?
    ensures Inv(Increment(s, c))
  {
    assert WordTells(s, c);
    OwnStepKeepsInv(s, Increment(s, c), c);
  }

  lemma DecrementKeepsInv(s: State, c: nat)
    requires Inv(s) && c < |s.cores| && s.cores[c].CountDown?
    ensures Inv(Decrement(s, c))
  {
    assert WordTells(s, c);
    OwnStepKeepsInv(s, Decrement(s, c), c);
  }

  lemma WriteKeepsInv(s: State, c: nat)
    requires Inv(s) && c < |s.cores| && (s.cores[c].SetCore? || s.cores[c].ClearCore? || s.cores[c].ClearCount?)
    ensures Inv(Advance(s, c))
  {
    assert WordTells(s, c);
    OwnStepKeepsInv(s, Advance(s, c), c);
  }

  lemma ReleaseKeepsInv(s: State, c: nat)
    requires Inv(s) && c < |s.cores| && s.cores[c].Leave?
    ensures Inv(ReleaseWord(s, c))
  {
    assert WordTells(s, c);
    OwnStepKeepsInv(s, ReleaseWord(s, c), c);
  }

  lemma StepKeepsInv(s: State, c: nat, a: Action)
    requires Inv(s) && Enabled(s, c, a)
    ensures Inv(Step(s, c, a))
  {
    hide Accurate, Knows, OnlyHolder, NoHolder, SwapWord, Branch, Increment, Decrement, ReleaseWord;
    match a
    case Call(op) => QuietStepKeepsInv(s, c, Swap(op));
    case Go =>
      match s.cores[c] {
        case Swap(_) => SwapKeepsInv(s, c);
        case Decide(_) => BranchKeepsInv(s, c);
        case CountUp(_, _) => IncrementKeepsInv(s, c);
        case CountDown => DecrementKeepsInv(s, c);
        case Leave(_, _) => ReleaseKeepsInv(s, c);
        case Waiting =>
          if s.count == 0 {
            QuietStepKeepsInv(s, c, Swap(Retry));
          }
        case _ => WriteKeepsInv(s, c);
      }
  }

  lemma {:induction false} RunKeepsInv(s: State, schedule: seq<(nat, Action)>)
    requires Inv(s)
    ensures Inv(Run(s, schedule))
    decreases schedule
  {
    if schedule != [] {
      var (c, a) := schedule[0];
      if Enabled(s, c, a) {
        StepKeepsInv(s, c, a);
        RunKeepsInv(Step(s, c, a), schedule[1..]);
      } else {
        RunKeepsInv(s, schedule[1..]);
      }
    }
  }

  lemma InitialHasInv(s: State)
    requires Initial(s)
    ensures Inv(s)
  {
  }

  // --- what it means -------------------------------------------------------------------------------------------

  lemma OneHolder(s: State, c: nat, d: nat)
    requires Inv(s) && c < |s.held| && d < |s.held| && s.held[c] > 0 && s.held[d] > 0
    ensures c == d
  {
    if s.word.Some? {
      assert WordTells(s, s.word.value);
    }
  }

  /** In every run, at most one core holds the lock. */
  lemma MutualExclusion(s0: State, schedule: seq<(nat, Action)>, c: nat, d: nat)
    requires Initial(s0)
    ensures var s := Run(s0, schedule);
            c < |s.held| && d < |s.held| && s.held[c] > 0 && s.held[d] > 0 ==> c == d
  {
    InitialHasInv(s0);
    RunKeepsInv(s0, schedule);
    var s := Run(s0, schedule);
    if c < |s.held| && d < |s.held| && s.held[c] > 0 && s.held[d] > 0 {
      OneHolder(s, c, d);
    }
  }

  /**
    Whenever the spinlock is free, count is the number of acquires that the named core has not released, every
    other core has none, and core is -1 exactly when count is 0. No core ever makes the exit call.
   */
  lemma FieldsAreAccurate(s0: State, schedule: seq<(nat, Action)>)
    requires Initial(s0)
    ensures var s := Run(s0, schedule);
            && (s.word.None? ==> (s.core == -1 <==> s.count == 0) && (s.count == 0 ==> NoHolder(s))
                                 && s.count >= 0 && (s.count > 0 ==> OnlyHolder(s, s.core, s.count)))
            && forall c :: 0 <= c < |s.cores| ==> !s.cores[c].Stopped?
  {
    InitialHasInv(s0);
    RunKeepsInv(s0, schedule);
  }

  /**
    The code decides as the history says: an acquire succeeds exactly when no other core holds the lock, and a
    release gives the lock up exactly when it is the last one.
   */
  lemma DecisionsAreRight(s: State, c: nat)
    requires Inv(s) && c < |s.cores| && s.cores[c].Decide?
    ensures var next := Branch(s, c).cores[c];
            if s.cores[c].op.Unlock? then
              next == CountDown && (Decrement(Branch(s, c), c).cores[c] == ClearCore <==> s.held[c] == 1)
            else
              && (next.CountUp? || next == Leave(s.cores[c].op, Busy))
              && (next.CountUp? <==> forall d :: 0 <= d < |s.held| && d != c ==> s.held[d] == 0)
  {
    assert WordTells(s, c) && MayUnlock(s, c);
    assert Accurate(s);
    if s.core != -1 && s.core != c {
      assert s.held[s.core] > 0;
    }
  }

  // --- what a return to the caller means -----------------------------------------------------------------------

  /** Runs until core c is back at its caller, or to the end of the schedule. */
  function RunUntilOut(s: State, c: nat, schedule: seq<(nat, Action)>): State
    decreases schedule
  {
    if schedule == [] || c >= |s.cores| || s.cores[c].Out? then s
    else
      var (d, a) := schedule[0];
      RunUntilOut(if Enabled(s, d, a) then Step(s, d, a) else s, c, schedule[1..])
  }

  /** A Retry belongs to a Lock. */
  predicate SameCall(inside: Op, called: Op) {
    inside == called || (inside.Retry? && called.Lock?)
  }

  /** Where a core can stand during a call, and how often it then holds the lock, if it did n times at the call. */
  predicate UnderWay(s: State, c: nat, op: Op, n: nat)
    requires c < |s.cores| == |s.held|
  {
    var now := s.held[c];
    match s.cores[c]
    case Out => false
    case Stopped => false
    case Waiting => op.Lock? && now == n
    case Swap(o) => SameCall(o, op) && now == n
    case Decide(o) => SameCall(o, op) && now == n
    case CountUp(o, _) => SameCall(o, op) && !op.Unlock? && now == n
    case SetCore(o) => SameCall(o, op) && !op.Unlock? && now == n + 1
    case CountDown => op.Unlock? && now == n > 0
    case ClearCore => op.Unlock? && now == n - 1
    case ClearCount => op.Unlock? && now == n - 1
    case Leave(o, outcome) => SameCall(o, op) && Decided(outcome, op, now, n)
  }

  predicate Decided(outcome: Outcome, op: Op, now: nat, n: nat) {
    match outcome
    case Acquired => !op.Unlock? && now == n + 1
    case Busy => !op.Unlock? && now == n
    case Released => op.Unlock? && now == n - 1
    case Stop => false
  }

  /** After the step, core c is under way still, or has returned with what its call promises. */
  predicate ReturnsRight(t: State, c: nat, op: Op, n: nat) {
    && c < |t.cores| == |t.held|
    && if !t.cores[c].Out? then UnderWay(t, c, op, n)
       else match op
            case TryLock => t.held[c] == n || t.held[c] == n + 1
            case Unlock => t.held[c] == n - 1
            case _ => t.held[c] == n + 1
  }

  lemma OwnStepReturns(s: State, c: nat, op: Op, n: nat)
    requires Inv(s) && c < |s.cores| && UnderWay(s, c, op, n) && !op.Retry?
    ensures ReturnsRight(Advance(s, c), c, op, n)
  {
    assert WordTells(s, c) && MayUnlock(s, c);
  }

  /** The steps of others leave a core where it stands, with what it holds. */
  lemma OthersLeaveCore(s: State, c: nat, d: nat, a: Action)
    requires c < |s.cores| == |s.held| && d != c && Enabled(s, d, a)
    ensures var t := Step(s, d, a);
            |t.cores| == |t.held| == |s.cores| && t.cores[c] == s.cores[c] && t.held[c] == s.held[c]
  {
  }

  lemma {:induction false} RunReturns(s: State, c: nat, op: Op, n: nat, schedule: seq<(nat, Action)>)
    requires Inv(s) && c < |s.cores| && UnderWay(s, c, op, n) && !op.Retry?
    ensures ReturnsRight(RunUntilOut(s, c, schedule), c, op, n)
    decreases schedule
  {
    if schedule != [] {
      hide Accurate, Knows, Advance;
      var (d, a) := schedule[0];
      if Enabled(s, d, a) {
        var t := Step(s, d, a);
        StepKeepsInv(s, d, a);
        if d == c {
          OwnStepReturns(s, c, op, n);
        } else {
          OthersLeaveCore(s, c, d, a);
        }
        if !t.cores[c].Out? {
          RunReturns(t, c, op, n, schedule[1..]);
        } else {
          RunStaysOut(t, c, schedule[1..]);
        }
      } else {
        RunReturns(s, c, op, n, schedule[1..]);
      }
    }
  }

  lemma RunStaysOut(s: State, c: nat, schedule: seq<(nat, Action)>)
    requires c < |s.cores| && s.cores[c].Out?
    ensures RunUntilOut(s, c, schedule) == s
  {
  }

  /**
    In every run: corelock_lock returns only with the lock, held once more than at the call; corelock_unlock with
    one acquire less; and corelock_trylock with one more or with none more, without ever waiting.
   */
  lemma CallsReturnRight(s0: State, before: seq<(nat, Action)>, c: nat, op: Op, during: seq<(nat, Action)>)
    requires Initial(s0) && Enabled(Run(s0, before), c, Call(op))
    ensures var s := Run(s0, before);
            var t := RunUntilOut(Step(s, c, Call(op)), c, during);
            && c < |t.cores| == |t.held|
            && (t.cores[c].Out? && op.Lock? ==> t.held[c] == s.held[c] + 1)
            && (t.cores[c].Out? && op.Unlock? ==> t.held[c] == s.held[c] - 1)
            && (t.cores[c].Out? && op.TryLock? ==> t.held[c] == s.held[c] || t.held[c] == s.held[c] + 1)
            && (t.cores[c].Waiting? ==> op.Lock?)
  {
    var s := Run(s0, before);
    InitialHasInv(s0);
    RunKeepsInv(s0, before);
    StepKeepsInv(s, c, Call(op));
    RunReturns(Step(s, c, Call(op)), c, op, s.held[c], during);
  }

  // --- nobody waits for ever for a core that runs ---------------------------------------------------------------

  /** n steps of core c alone. */
  function Solo(s: State, c: nat, n: nat): State
    decreases n
  {
    if n == 0 || !Enabled(s, c, Go) then s else Solo(Step(s, c, Go), c, n - 1)
  }

  /** How many steps a core takes at most before it releases the spinlock, if it need not wait for it. */
  function StepsLeft(pc: Core): nat {
    match pc
    case Decide(_) => 5
    case CountDown => 4
    case CountUp(_, _) => 3
    case ClearCore => 3
    case ClearCount => 2
    case SetCore(_) => 2
    case Leave(_, _) => 1
    case Swap(_) => 6
    case Waiting => 7
    case _ => 0
  }

  /** The core that has the spinlock waits for nobody: after at most five steps of its own the spinlock is free. */
  lemma {:induction false} SpinlockComesFree(s: State, c: nat) returns (n: nat)
    requires Inv(s) && s.word == Some(c)
    ensures n <= StepsLeft(s.cores[c]) <= 5 && Solo(s, c, n).word == None
    decreases StepsLeft(s.cores[c])
  {
    hide Accurate, Knows, OnlyHolder, NoHolder;
    assert WordTells(s, c);
    var t := Step(s, c, Go);
    StepKeepsInv(s, c, Go);
    assert Solo(t, c, 0) == t;
    if s.cores[c].Leave? {
      n := 1;
    } else {
      var m := SpinlockComesFree(t, c);
      n := m + 1;
    }
  }

  /** Does no other core hold the lock? */
  predicate FreeFor(s: State, c: nat) {
    forall d :: 0 <= d < |s.held| && d != c ==> s.held[d] == 0
  }

  /** Core c is under way, and nothing that it would wait for is in its way. */
  predicate Unhindered(s: State, c: nat, op: Op, n: nat) {
    && c < |s.cores| == |s.held| && UnderWay(s, c, op, n) && (s.word == None || s.word == Some(c))
    && (op.Lock? ==> FreeFor(s, c)) && (s.cores[c].Waiting? ==> n == 0)
    && (s.cores[c].Leave? && s.cores[c].outcome.Busy? ==> !FreeFor(s, c))
    && (s.cores[c].Leave? && s.cores[c].outcome.Acquired? ==> FreeFor(s, c))
    && (s.cores[c].CountUp? || s.cores[c].SetCore? ==> FreeFor(s, c))
  }

  /** What a call of core c comes to if nothing hinders it. */
  function Result(s: State, c: nat, op: Op, n: nat): int {
    if op.Unlock? then n - 1 else if FreeFor(s, c) then n + 1 else n
  }

  lemma UnhinderedStep(s: State, c: nat, op: Op, n: nat)
    requires Inv(s) && Unhindered(s, c, op, n) && !op.Retry?
    ensures var t := Advance(s, c);
            && |t.cores| == |t.held| == |s.cores| && FreeFor(t, c) == FreeFor(s, c)
            && if t.cores[c].Out? then t.held[c] == Result(s, c, op, n) && t.word == None
               else Unhindered(t, c, op, n) && StepsLeft(t.cores[c]) < StepsLeft(s.cores[c])
  {
    assert WordTells(s, c) && MayUnlock(s, c);
  }

  lemma {:induction false} UnhinderedReturns(s: State, c: nat, op: Op, n: nat) returns (k: nat)
    requires Inv(s) && Unhindered(s, c, op, n) && !op.Retry?
    ensures k <= StepsLeft(s.cores[c])
    ensures var t := Solo(s, c, k);
            c < |t.cores| == |t.held| && t.cores[c].Out? && t.held[c] == Result(s, c, op, n) && t.word == None
    decreases StepsLeft(s.cores[c])
  {
    hide Inv, Advance, Unhindered, UnderWay;
    UnhinderedStep(s, c, op, n);
    assert Enabled(s, c, Go) by { UnderWayRuns(s, c, op, n); }
    StepKeepsInv(s, c, Go);
    var t := Advance(s, c);
    assert Solo(t, c, 0) == t;
    k := 1;
    if !t.cores[c].Out? {
      var m := UnhinderedReturns(t, c, op, n);
      k := m + 1;
    }
  }

  lemma UnderWayRuns(s: State, c: nat, op: Op, n: nat)
    requires Unhindered(s, c, op, n)
    ensures Enabled(s, c, Go)
  {
  }

  /**
    In every run: a core that then goes on alone, with the spinlock free, returns within six steps: from a lock or an
    unlock with what it came for, if no other core holds the lock, and from a trylock with the lock exactly then.
   */
  lemma AloneReturns(s0: State, before: seq<(nat, Action)>, c: nat, op: Op) returns (k: nat)
    requires Initial(s0) && Enabled(Run(s0, before), c, Call(op))
    requires Run(s0, before).word == None && (op.Lock? ==> FreeFor(Run(s0, before), c))
    ensures var s := Run(s0, before);
            var t := Solo(Step(s, c, Call(op)), c, k);
            && k <= 6 && c < |t.cores| == |t.held| && t.cores[c].Out? && t.word == None
            && t.held[c] == if op.Unlock? then s.held[c] - 1 else if FreeFor(s, c) then s.held[c] + 1 else s.held[c]
  {
    var s := Run(s0, before);
    InitialHasInv(s0);
    RunKeepsInv(s0, before);
    StepKeepsInv(s, c, Call(op));
    k := UnhinderedReturns(Step(s, c, Call(op)), c, op, s.held[c]);
  }
}
