/**
  The counting semaphore of sdk/lib/bsp/include/atomic.h: a spinlock, a count and the number of waiters. Every
  access to one of the three is one step of one core, and the steps of the cores mix freely. Amounts are not
  negative.
 */
module Semaphore {
  import opened Bytes

  /** Where a core stands in the code. */
  datatype Core =
    | Out
    | SignalSwap(amount: nat)  // semaphore_signal: about to swap the spinlock
    | Raise(amount: nat)       // about to add to count
    | SignalLeave              // about to release the spinlock and return
    | Announce(amount: nat)    // semaphore_wait: about to add 1 to waiting
    | WaitSwap(amount: nat)    // about to swap the spinlock
    | Test(amount: nat)        // about to look whether count is enough
    | Lower(amount: nat)       // about to subtract from count
    | Withdraw(amount: nat)    // about to subtract 1 from waiting
    | WaitLeave                // about to release the spinlock and return
    | Again(amount: nat)       // about to release the spinlock and go round

  /**
    word is the core that swapped the spinlock. signalled and taken are histories: per core, what its signals have
    added to the count and its waits have taken from it.
   */
  datatype State = State(
    word: Option<nat>, count: int, waiting: int, cores: seq<Core>, signalled: seq<nat>, taken: seq<nat>)

  datatype Action = Signal(amount: nat) | Wait(amount: nat) | Go

  predicate Enabled(s: State, c: nat, a: Action) {
    c < |s.cores| == |s.signalled| == |s.taken| && (a.Go? <==> !s.cores[c].Out?)
  }

  function At(s: State, c: nat, pc: Core): State
    requires c < |s.cores|
  {
    s.(cores := s.cores[c := pc])
  }

  function SwapWord(s: State, c: nat, pc: Core): State
    requires c < |s.cores|
  {
    if s.word.None? then At(s, c, pc).(word := Some(c)) else s
  }

  /** The histories count what the count itself gains and loses. */
  function Count(s: State, c: nat, count: int): State
    requires c < |s.signalled| == |s.taken|
  {
    var gain := count - s.count;
    s.(count := count,
       signalled := if gain > 0 then s.signalled[c := s.signalled[c] + gain] else s.signalled,
       taken := if gain < 0 then s.taken[c := s.taken[c] - gain] else s.taken)
  }

  function Step(s: State, c: nat, a: Action): State
    requires Enabled(s, c, a)
  {
    match a
    case Signal(amount) => At(s, c, SignalSwap(amount))
    case Wait(amount) => At(s, c, Announce(amount))
    case Go =>
      match s.cores[c]
      case Out => s
      case SignalSwap(amount) => SwapWord(s, c, Raise(amount))
      case Raise(amount) => Count(At(s, c, SignalLeave), c, s.count + amount)
      case SignalLeave => At(s, c, Out).(word := None)
      case Announce(amount) => At(s, c, WaitSwap(amount)).(waiting := s.waiting + 1)
      case WaitSwap(amount) => SwapWord(s, c, Test(amount))
      case Test(amount) => At(s, c, if s.count >= amount then Lower(amount) else Again(amount))
      case Lower(amount) => Count(At(s, c, Withdraw(amount)), c, s.count - amount)
      case Withdraw(amount) => At(s, c, WaitLeave).(waiting := s.waiting - 1)
      case WaitLeave => At(s, c, Out).(word := None)
      case Again(amount) => At(s, c, WaitSwap(amount)).(word := None)
  }

  /** A run: who does what, in order; what cannot be done then is skipped. */
  function Run(s: State, schedule: seq<(nat, Action)>): State
    decreases schedule
  {
    if schedule == [] then s
    else
      var (c, a) := schedule[0];
      Run(if Enabled(s, c, a) then Step(s, c, a) else s, schedule[1..])
  }

  predicate Initial(s: State) {
    && s.word == None && s.count >= 0 && s.waiting == 0 && |s.cores| == |s.signalled| == |s.taken|
    && forall c :: 0 <= c < |s.cores| ==> s.cores[c] == Out && s.signalled[c] == 0 && s.taken[c] == 0
  }

  // --- the invariant -------------------------------------------------------------------------------------------

  predicate Inside(pc: Core) {
    pc.Raise? || pc.SignalLeave? || pc.Test? || pc.Lower? || pc.Withdraw? || pc.WaitLeave? || pc.Again?
  }

  /** Between the increment and the decrement of waiting? */
  predicate Waits(pc: Core) {
    pc.WaitSwap? || pc.Test? || pc.Lower? || pc.Withdraw? || pc.Again?
  }

  function Waiters(cores: seq<Core>): nat {
    if cores == [] then 0 else (if Waits(cores[0]) then 1 else 0) + Waiters(cores[1..])
  }

  function Sum(amounts: seq<nat>): nat {
    if amounts == [] then 0 else amounts[0] + Sum(amounts[1..])
  }

  predicate CoreInv(s: State, c: nat)
    requires c < |s.cores|
  {
    && (Inside(s.cores[c]) <==> s.word == Some(c))
    && (s.cores[c].Lower? ==> s.count >= s.cores[c].amount)
  }

  /** initial is the count at the start. */
  predicate Inv(s: State, initial: nat) {
    && |s.cores| == |s.signalled| == |s.taken|
    && s.count >= 0 && s.count + Sum(s.taken) == initial + Sum(s.signalled)
    && s.waiting == Waiters(s.cores)
    && (s.word.Some? ==> s.word.value < |s.cores|)
    && forall c :: 0 <= c < |s.cores| ==> CoreInv(s, c)
  }

  lemma {:induction false} WaitersChange(cores: seq<Core>, c: nat, pc: Core)
    requires c < |cores|
    ensures Waiters(cores[c := pc])
         == Waiters(cores) - (if Waits(cores[c]) then 1 else 0) + (if Waits(pc) then 1 else 0)
    decreases |cores|
  {
    if c == 0 {
      assert cores[0 := pc][1..] == cores[1..];
    } else {
      WaitersChange(cores[1..], c - 1, pc);
      assert cores[c := pc][1..] == cores[1..][c - 1 := pc];
    }
  }

  lemma {:induction false} SumChange(amounts: seq<nat>, c: nat, amount: nat)
    requires c < |amounts|
    ensures Sum(amounts[c := amount]) == Sum(amounts) - amounts[c] + amount
    decreases |amounts|
  {
    if c == 0 {
      assert amounts[0 := amount][1..] == amounts[1..];
    } else {
      SumChange(amounts[1..], c - 1, amount);
      assert amounts[c := amount][1..] == amounts[1..][c - 1 := amount];
    }
  }

  lemma {:induction false} SumOfZeros(amounts: seq<nat>)
    requires forall c :: 0 <= c < |amounts| ==> amounts[c] == 0
    ensures Sum(amounts) == 0
    decreases |amounts|
  {
    if amounts != [] {
      SumOfZeros(amounts[1..]);
    }
  }

  /** Only Raise and Lower change the count, and the histories with it. */
  lemma CountKeepsSums(s: State, initial: nat, c: nat, count: int)
    requires c < |s.signalled| == |s.taken| && s.count + Sum(s.taken) == initial + Sum(s.signalled)
    ensures var t := Count(s, c, count); t.count + Sum(t.taken) == initial + Sum(t.signalled)
  {
    var gain := count - s.count;
    if gain > 0 {
      SumChange(s.signalled, c, s.signalled[c] + gain);
    } else if gain < 0 {
      SumChange(s.taken, c, s.taken[c] - gain);
    }
  }

  lemma StepKeepsSums(s: State, initial: nat, c: nat, a: Action)
    requires s.count + Sum(s.taken) == initial + Sum(s.signalled) && Enabled(s, c, a)
    ensures var t := Step(s, c, a);
            |t.signalled| == |s.signalled| && |t.taken| == |s.taken| && t.count + Sum(t.taken) == initial + Sum(t.signalled)
  {
    match s.cores[c]
    case Raise(amount) =>
      if a.Go? {
        CountKeepsSums(At(s, c, SignalLeave), initial, c, s.count + amount);
      }
    case Lower(amount) =>
      if a.Go? {
        CountKeepsSums(At(s, c, Withdraw(amount)), initial, c, s.count - amount);
      }
    case _ =>
  }

  lemma StepKeepsWaiting(s: State, c: nat, a: Action)
    requires s.waiting == Waiters(s.cores) && Enabled(s, c, a)
    ensures Step(s, c, a).waiting == Waiters(Step(s, c, a).cores)
  {
    var t := Step(s, c, a);
    WaitersChange(s.cores, c, t.cores[c]);
    assert t.cores == s.cores[c := t.cores[c]];
  }

  lemma StepKeepsInv(s: State, initial: nat, c: nat, a: Action)
    requires Inv(s, initial) && Enabled(s, c, a)
    ensures Inv(Step(s, c, a), initial)
  {
    hide Sum, Waiters;
    var t := Step(s, c, a);
    assert CoreInv(s, c);
    StepKeepsSums(s, initial, c, a);
    StepKeepsWaiting(s, c, a);
    forall d | 0 <= d < |s.cores| ensures CoreInv(t, d) {
      assert CoreInv(s, d);
    }
  }

  lemma {:induction false} RunKeepsInv(s: State, initial: nat, schedule: seq<(nat, Action)>)
    requires Inv(s, initial)
    ensures Inv(Run(s, schedule), initial)
    decreases schedule
  {
    if schedule != [] {
      var (c, a) := schedule[0];
      if Enabled(s, c, a) {
        StepKeepsInv(s, initial, c, a);
        RunKeepsInv(Step(s, c, a), initial, schedule[1..]);
      } else {
        RunKeepsInv(s, initial, schedule[1..]);
      }
    }
  }

  lemma {:induction false} NobodyWaits(cores: seq<Core>)
    requires forall c :: 0 <= c < |cores| ==> cores[c] == Out
    ensures Waiters(cores) == 0
    decreases |cores|
  {
    if cores != [] {
      NobodyWaits(cores[1..]);
    }
  }

  lemma InitialHasInv(s: State)
    requires Initial(s)
    ensures Inv(s, s.count)
  {
    NobodyWaits(s.cores);
    SumOfZeros(s.signalled);
    SumOfZeros(s.taken);
  }

  /**
    In every run of signals and waits the count is never negative, nothing taken is lost or taken twice, and
    waiting is the number of waiters between its increment and its decrement.
   */
  lemma CountIsConserved(s0: State, schedule: seq<(nat, Action)>)
    requires Initial(s0)
    ensures var s := Run(s0, schedule);
            && s.count >= 0
            && s.count + Sum(s.taken) == s0.count + Sum(s.signalled)
            && s.waiting == Waiters(s.cores)
  {
    InitialHasInv(s0);
    RunKeepsInv(s0, s0.count, schedule);
  }

  /** A schedule in which core c does nothing. */
  predicate Without(schedule: seq<(nat, Action)>, c: nat) {
    forall i :: 0 <= i < |schedule| ==> schedule[i].0 != c
  }

  /** While a core has the spinlock, no other changes the count or the amounts taken. */
  lemma {:induction false} HeldStays(s: State, initial: nat, c: nat, schedule: seq<(nat, Action)>)
    requires Inv(s, initial) && c < |s.cores| && Inside(s.cores[c]) && Without(schedule, c)
    ensures var t := Run(s, schedule);
            && Inv(t, initial) && |t.cores| == |s.cores| && t.cores[c] == s.cores[c]
            && t.count == s.count && t.taken == s.taken && t.signalled == s.signalled
    decreases schedule
  {
    if schedule != [] {
      var (d, a) := schedule[0];
      assert schedule[0].0 != c;
      if Enabled(s, d, a) {
        StepKeepsInv(s, initial, d, a);
        OtherStep(s, initial, c, d, a);
        HeldStays(Step(s, d, a), initial, c, schedule[1..]);
      } else {
        HeldStays(s, initial, c, schedule[1..]);
      }
    }
  }

  lemma OtherStep(s: State, initial: nat, c: nat, d: nat, a: Action)
    requires Inv(s, initial) && c < |s.cores| && Inside(s.cores[c]) && Enabled(s, d, a) && d != c
    ensures var t := Step(s, d, a);
            && |t.cores| == |s.cores| && t.cores[c] == s.cores[c]
            && t.count == s.count && t.taken == s.taken && t.signalled == s.signalled
  {
    assert CoreInv(s, c) && CoreInv(s, d);
  }

  /**
    In every run: a waiter that looks at the count takes its amount exactly when the count is enough, whatever
    the others do between its two steps; if not, it goes back to waiting and has changed nothing.
   */
  lemma TakesExactlyWhenEnough(s0: State, before: seq<(nat, Action)>, c: nat, between: seq<(nat, Action)>)
    requires Initial(s0) && Without(between, c)
    requires Enabled(Run(s0, before), c, Go) && Run(s0, before).cores[c].Test?
    ensures var s := Run(s0, before);
            var t := Run(Step(s, c, Go), between);
            var amount := s.cores[c].amount;
            && Enabled(t, c, Go)
            && var u := Step(t, c, Go);
               if s.count >= amount then
                 u.cores[c] == Withdraw(amount) && u.count == s.count - amount && u.taken[c] == s.taken[c] + amount
               else
                 u.cores[c] == WaitSwap(amount) && u.word == None && u.count == s.count && u.taken == s.taken
  {
    var s := Run(s0, before);
    InitialHasInv(s0);
    RunKeepsInv(s0, s0.count, before);
    StepKeepsInv(s, s0.count, c, Go);
    hide Inv, Sum, Waiters;
    HeldStays(Step(s, c, Go), s0.count, c, between);
  }

  // --- what a return to the caller means -----------------------------------------------------------------------

  /** Runs until core c is back at its caller, or to the end of the schedule. */
  function RunUntilOut(s: State, c: nat, schedule: seq<(nat, Action)>): State
    decreases schedule
  {
    if schedule == [] || c >= |s.cores| || s.cores[c].Out? then s
    else
      var (d, a) := schedule[0];
      RunUntilOut(if Enabled(s, d, a) then Step(s, d, a) else s, c, schedule[1..])
  }

  /** Where core c can stand during the call, and what it has added and taken since, by where it stands. */
  predicate UnderWay(s: State, c: nat, call: Action, signalled: nat, taken: nat)
    requires c < |s.cores| == |s.signalled| == |s.taken|
  {
    var added, got := s.signalled[c] - signalled, s.taken[c] - taken;
    match s.cores[c]
    case Out => false
    case SignalSwap(amount) => call == Signal(amount) && added == 0 && got == 0
    case Raise(amount) => call == Signal(amount) && added == 0 && got == 0
    case SignalLeave => call.Signal? && added == call.amount && got == 0
    case Announce(amount) => call == Wait(amount) && added == 0 && got == 0
    case WaitSwap(amount) => call == Wait(amount) && added == 0 && got == 0
    case Test(amount) => call == Wait(amount) && added == 0 && got == 0
    case Lower(amount) => call == Wait(amount) && added == 0 && got == 0
    case Again(amount) => call == Wait(amount) && added == 0 && got == 0
    case Withdraw(amount) => call == Wait(amount) && added == 0 && got == amount
    case WaitLeave => call.Wait? && added == 0 && got == call.amount
  }

  predicate ReturnsRight(t: State, c: nat, call: Action, signalled: nat, taken: nat) {
    && c < |t.cores| == |t.signalled| == |t.taken|
    && if !t.cores[c].Out? then UnderWay(t, c, call, signalled, taken)
       else match call
            case Signal(amount) => t.signalled[c] == signalled + amount && t.taken[c] == taken
            case Wait(amount) => t.taken[c] == taken + amount && t.signalled[c] == signalled
            case Go => false
  }

  lemma OwnStepReturns(s: State, c: nat, call: Action, signalled: nat, taken: nat)
    requires Enabled(s, c, Go) && UnderWay(s, c, call, signalled, taken)
    ensures ReturnsRight(Step(s, c, Go), c, call, signalled, taken)
  {
  }

  lemma OthersLeaveCore(s: State, c: nat, d: nat, a: Action)
    requires Enabled(s, d, a) && c < |s.cores| && c != d
    ensures var t := Step(s, d, a);
            && c < |t.cores| == |t.signalled| == |t.taken|
            && t.cores[c] == s.cores[c] && t.signalled[c] == s.signalled[c] && t.taken[c] == s.taken[c]
  {
  }

  lemma StepReturns(s: State, c: nat, call: Action, signalled: nat, taken: nat, d: nat, a: Action)
    requires Enabled(s, d, a) && c < |s.cores| && UnderWay(s, c, call, signalled, taken)
    ensures ReturnsRight(Step(s, d, a), c, call, signalled, taken)
  {
    hide Step;
    if c == d {
      OwnStepReturns(s, c, call, signalled, taken);
    } else {
      OthersLeaveCore(s, c, d, a);
    }
  }

  lemma {:induction false} RunReturns(s: State, c: nat, call: Action, signalled: nat, taken: nat,
        schedule: seq<(nat, Action)>)
    requires c < |s.cores| == |s.signalled| == |s.taken| && UnderWay(s, c, call, signalled, taken)
    ensures ReturnsRight(RunUntilOut(s, c, schedule), c, call, signalled, taken)
    decreases schedule
  {
    if schedule != [] {
      hide Step, UnderWay;
      var (d, a) := schedule[0];
      if Enabled(s, d, a) {
        StepReturns(s, c, call, signalled, taken, d, a);
        if Step(s, d, a).cores[c].Out? {
          RunStaysOut(Step(s, d, a), c, schedule[1..]);
        } else {
          RunReturns(Step(s, d, a), c, call, signalled, taken, schedule[1..]);
        }
      } else {
        RunReturns(s, c, call, signalled, taken, schedule[1..]);
      }
    }
  }

  lemma RunStaysOut(s: State, c: nat, schedule: seq<(nat, Action)>)
    requires c < |s.cores| && s.cores[c].Out?
    ensures RunUntilOut(s, c, schedule) == s
  {
  }

  /**
    In every run: a signal returns after adding exactly its amount to the count, and a wait after taking exactly its
    amount from it. With CountIsConserved these are the only changes there are.
   */
  lemma CallsReturnRight(s: State, c: nat, call: Action, during: seq<(nat, Action)>)
    requires Enabled(s, c, call) && !call.Go?
    ensures var t := RunUntilOut(Step(s, c, call), c, during);
            && c < |t.cores| == |t.signalled| == |t.taken|
            && (t.cores[c].Out? && call.Signal? ==>
                  t.signalled[c] == s.signalled[c] + call.amount && t.taken[c] == s.taken[c])
            && (t.cores[c].Out? && call.Wait? ==>
                  t.taken[c] == s.taken[c] + call.amount && t.signalled[c] == s.signalled[c])
  {
    RunReturns(Step(s, c, call), c, call, s.signalled[c], s.taken[c], during);
  }

  // --- nobody waits for ever for a core that runs ---------------------------------------------------------------

  /** n steps of core c alone. */
  function Solo(s: State, c: nat, n: nat): State
    decreases n
  {
    if n == 0 || !Enabled(s, c, Go) then s else Solo(Step(s, c, Go), c, n - 1)
  }

  /** How many steps a core takes at most before it returns, if it need not wait. */
  function StepsLeft(pc: Core): nat {
    match pc
    case Out => 0
    case SignalSwap(_) => 3
    case Raise(_) => 2
    case SignalLeave => 1
    case Announce(_) => 6
    case WaitSwap(_) => 5
    case Test(_) => 4
    case Lower(_) => 3
    case Withdraw(_) => 2
    case WaitLeave => 1
    case Again(_) => 7
  }

  /** Core c is under way, has the spinlock or finds it free, and the count is enough for what it waits for. */
  predicate Unhindered(s: State, c: nat) {
    && Enabled(s, c, Go) && !s.cores[c].Again? && (s.word == None || s.word == Some(c))
    && (s.cores[c].Announce? || s.cores[c].WaitSwap? || s.cores[c].Test? ==> s.count >= s.cores[c].amount)
    && (s.word == Some(c) ==> Inside(s.cores[c]))
  }

  lemma UnhinderedStep(s: State, c: nat)
    requires Unhindered(s, c)
    ensures var t := Step(s, c, Go);
            && c < |t.cores| == |t.signalled| == |t.taken|
            && (t.cores[c].Out? ==> t.word == None)
            && (!t.cores[c].Out? ==> Unhindered(t, c) && StepsLeft(t.cores[c]) < StepsLeft(s.cores[c]))
  {
  }

  lemma {:induction false} UnhinderedReturns(s: State, c: nat, call: Action, signalled: nat, taken: nat) returns (k: nat)
    requires Unhindered(s, c) && UnderWay(s, c, call, signalled, taken)
    ensures k <= StepsLeft(s.cores[c])
    ensures var t := Solo(s, c, k);
            && c < |t.cores| && t.cores[c].Out? && t.word == None && ReturnsRight(t, c, call, signalled, taken)
    decreases StepsLeft(s.cores[c])
  {
    hide Step, Unhindered, UnderWay, ReturnsRight;
    IsEnabled(s, c);
    UnhinderedStep(s, c);
    OwnStepReturns(s, c, call, signalled, taken);
    var t := Step(s, c, Go);
    assert Solo(t, c, 0) == t;
    k := 1;
    if !t.cores[c].Out? {
      StillUnderWay(t, c, call, signalled, taken);
      var m := UnhinderedReturns(t, c, call, signalled, taken);
      k := m + 1;
    } else {
      NoSteps(s, c);
    }
  }

  lemma IsEnabled(s: State, c: nat)
    requires Unhindered(s, c)
    ensures Enabled(s, c, Go) && StepsLeft(s.cores[c]) > 0
  {
  }

  lemma NoSteps(s: State, c: nat)
    requires Enabled(s, c, Go)
    ensures Solo(s, c, 1) == Step(s, c, Go)
  {
    assert Solo(Step(s, c, Go), c, 0) == Step(s, c, Go);
  }

  lemma StillUnderWay(t: State, c: nat, call: Action, signalled: nat, taken: nat)
    requires ReturnsRight(t, c, call, signalled, taken) && !t.cores[c].Out?
    ensures c < |t.cores| == |t.signalled| == |t.taken| && UnderWay(t, c, call, signalled, taken)
  {
  }

  /**
    In every run: a core that then goes on alone, with the spinlock free, returns from a signal within three steps, and
    from a wait within six, if the count is enough; and has then added or taken its amount.
   */
  lemma AloneReturns(s0: State, before: seq<(nat, Action)>, c: nat, call: Action) returns (k: nat)
    requires Enabled(Run(s0, before), c, call) && !call.Go? && Run(s0, before).word == None
    requires call.Wait? ==> Run(s0, before).count >= call.amount
    ensures var s := Run(s0, before);
            var t := Solo(Step(s, c, call), c, k);
            && k <= (if call.Signal? then 3 else 6)
            && c < |t.cores| == |t.signalled| == |t.taken| && t.cores[c].Out? && t.word == None
            && t.signalled[c] == s.signalled[c] + (if call.Signal? then call.amount else 0)
            && t.taken[c] == s.taken[c] + (if call.Wait? then call.amount else 0)
  {
    var s := Run(s0, before);
    k := UnhinderedReturns(Step(s, c, call), c, call, s.signalled[c], s.taken[c]);
  }
}
