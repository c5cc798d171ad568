/** The one-shot notification behind a synchronous call of an asynchronous kernel:
    a mutex, a condition variable and an atomic flag on the waiter's stack. The
    model interleaves the waiter, which waits and then destroys the object, with any
    number of notifiers, and lets the condition variable wake up spuriously. */
module Notification {
  import opened Wrappers

  /** The waiter: the unlocked check, the locked wait loop, then the destructor. */
  datatype WaiterPc =
    | CheckFast | Lock | CheckLoop | Asleep | Reacquire | Unlock
    | DtorLock | DtorUnlock | Dying | Destroyed

  /** A notifier inside Notify. */
  datatype NotifierPc = AtLock | AtCheck | AtStore | AtSignal | AtUnlock | Finished

  datatype Owner = Free | ByWaiter | ByNotifier(i: nat)

  datatype State = State(notified: bool, owner: Owner, waiter: WaiterPc, notifiers: seq<NotifierPc>)

  /** One step of the waiter, of a notifier, or a spurious wake-up. */
  datatype Label = Wait | Notify(i: nat) | Spurious

  function Start(n: nat): (s: State)
    ensures |s.notifiers| == n
  {
    State(false, Free, CheckFast, seq(n, _ => AtLock))
  }

  function WaiterStep(s: State): (r: Option<State>) {
    match s.waiter
    case CheckFast => Some(s.(waiter := if s.notified then DtorLock else Lock))
    case Lock => if s.owner == Free then Some(s.(owner := ByWaiter, waiter := CheckLoop)) else None
    case Reacquire => if s.owner == Free then Some(s.(owner := ByWaiter, waiter := CheckLoop)) else None
    case CheckLoop => if s.notified then Some(s.(waiter := Unlock)) else Some(s.(owner := Free, waiter := Asleep))
    case Asleep => None
    case Unlock => Some(s.(owner := Free, waiter := DtorLock))
    case DtorLock => if s.owner == Free then Some(s.(owner := ByWaiter, waiter := DtorUnlock)) else None
    case DtorUnlock => Some(s.(owner := Free, waiter := Dying))
    case Dying => Some(s.(waiter := Destroyed))
    case Destroyed => None
  }

  function NotifierStep(s: State, i: nat): (r: Option<State>)
    requires i < |s.notifiers|
  {
    match s.notifiers[i]
    case AtLock =>
      if s.owner == Free then Some(s.(owner := ByNotifier(i), notifiers := s.notifiers[i := AtCheck])) else None
    case AtCheck => Some(s.(notifiers := s.notifiers[i := if s.notified then AtUnlock else AtStore]))
    case AtStore => Some(s.(notified := true, notifiers := s.notifiers[i := AtSignal]))
    case AtSignal =>
      Some(s.(waiter := if s.waiter == Asleep then Reacquire else s.waiter, notifiers := s.notifiers[i := AtUnlock]))
    case AtUnlock => Some(s.(owner := Free, notifiers := s.notifiers[i := Finished]))
    case Finished => None
  }

  function Step(s: State, l: Label): (r: Option<State>) {
    match l
    case Wait => WaiterStep(s)
    case Notify(i) => if i < |s.notifiers| then NotifierStep(s, i) else None
    case Spurious => if s.waiter == Asleep then Some(s.(waiter := Reacquire)) else None
  }

  /** The state after a schedule, if every step of it was enabled. */
  function Run(n: nat, schedule: seq<Label>): (r: Option<State>) {
    if schedule == [] then Some(Start(n)) else
      match Run(n, schedule[..|schedule| - 1])
      case None => None
      case Some(s) => Step(s, schedule[|schedule| - 1])
  }

  predicate InCritical(pc: NotifierPc) {
    pc != AtLock && pc != Finished
  }

  predicate WaiterHolds(pc: WaiterPc) {
    pc == CheckLoop || pc == Unlock || pc == DtorUnlock
  }

  predicate Returned(pc: WaiterPc) {
    pc == DtorLock || pc == DtorUnlock || pc == Dying || pc == Destroyed
  }

  // ----- safety, for any number of notifiers -----

  /** Mutual exclusion, a flag that is set before anyone acts on it, and no lost
      wake-up. */
  ghost predicate Safe(s: State) {
    && (s.owner == ByWaiter <==> WaiterHolds(s.waiter))
    && (forall i :: 0 <= i < |s.notifiers| ==> (InCritical(s.notifiers[i]) <==> s.owner == ByNotifier(i)))
    && (Returned(s.waiter) || s.waiter == Unlock ==> s.notified)
    && (s.notified <==> exists i :: 0 <= i < |s.notifiers| && PastStore(s, i))
    && (forall i :: 0 <= i < |s.notifiers| && s.notifiers[i] == AtStore ==> !s.notified)
    && (s.waiter == Asleep && s.notified ==> exists i :: 0 <= i < |s.notifiers| && AboutToSignal(s, i))
  }

  ghost predicate AboutToSignal(s: State, i: int)
    requires 0 <= i < |s.notifiers|
  {
    s.notifiers[i] == AtSignal
  }

  /** A notifier that has stored the flag, or found it stored. */
  ghost predicate PastStore(s: State, i: int)
    requires 0 <= i < |s.notifiers|
  {
    s.notifiers[i] == AtSignal || s.notifiers[i] == AtUnlock || s.notifiers[i] == Finished
  }

  lemma SafeWaiterStep(s: State)
    requires Safe(s) && WaiterStep(s).Some?
    ensures Safe(WaiterStep(s).value)
  {
    var t := WaiterStep(s).value;
    assert forall i :: 0 <= i < |s.notifiers| ==> PastStore(t, i) == PastStore(s, i);
    assert forall i :: 0 <= i < |s.notifiers| ==> AboutToSignal(t, i) == AboutToSignal(s, i);
  }

  lemma SafeNotifierStep(s: State, i: nat)
    requires Safe(s) && i < |s.notifiers| && NotifierStep(s, i).Some?
    ensures Safe(NotifierStep(s, i).value)
  {
    var t := NotifierStep(s, i).value;
    assert forall j :: 0 <= j < |s.notifiers| && j != i ==> t.notifiers[j] == s.notifiers[j];
    assert forall j :: 0 <= j < |s.notifiers| && j != i ==> PastStore(t, j) == PastStore(s, j);
    assert PastStore(s, i) ==> PastStore(t, i);
    if t.notified {
      if s.notified {
        var j :| 0 <= j < |s.notifiers| && PastStore(s, j);
        assert PastStore(t, j);
      } else {
        assert PastStore(t, i);
      }
    }
    if s.notifiers[i] == AtStore {
      assert AboutToSignal(t, i);
    }
  }

  lemma SafeStep(s: State, l: Label)
    requires Safe(s) && Step(s, l).Some?
    ensures Safe(Step(s, l).value) && |Step(s, l).value.notifiers| == |s.notifiers|
  {
    match l
    case Wait => SafeWaiterStep(s);
    case Notify(i) => SafeNotifierStep(s, i);
    case Spurious =>
      var t := s.(waiter := Reacquire);
      assert forall i :: 0 <= i < |s.notifiers| ==> PastStore(t, i) == PastStore(s, i);
  }

  lemma SafeStart(n: nat)
    ensures Safe(Start(n))
  {}

  lemma {:induction false} RunSafe(n: nat, schedule: seq<Label>)
    requires Run(n, schedule).Some?
    ensures Safe(Run(n, schedule).value) && |Run(n, schedule).value.notifiers| == n
    decreases |schedule|
  {
    hide Safe, Step;
    if schedule == [] {
      SafeStart(n);
    } else {
      var k := |schedule| - 1;
      RunSafe(n, schedule[..k]);
      SafeStep(Run(n, schedule[..k]).value, schedule[k]);
    }
  }

  /** In every interleaving the waiter returns only once the flag is set, and while it
      sleeps with the flag set a notifier is still about to signal. */
  lemma WaitIsSound(n: nat, schedule: seq<Label>)
    requires Run(n, schedule).Some?
    ensures var s := Run(n, schedule).value;
      && (Returned(s.waiter) ==> s.notified)
      && (s.waiter == Asleep && s.notified ==> exists i :: 0 <= i < |s.notifiers| && s.notifiers[i] == AtSignal)
  {
    RunSafe(n, schedule);
    var s := Run(n, schedule).value;
    if s.waiter == Asleep && s.notified {
      var i :| 0 <= i < |s.notifiers| && AboutToSignal(s, i);
    }
  }

  /** Without a notification the waiter never returns. */
  lemma NeverNotified(schedule: seq<Label>)
    requires Run(0, schedule).Some?
    ensures !Returned(Run(0, schedule).value.waiter)
  {
    RunSafe(0, schedule);
  }

  // ----- lifetime of the object -----

  /** Once the destructor holds the mutex, a single notifier is finished. */
  ghost predicate SingleDone(s: State) {
    |s.notifiers| == 1 &&
    (s.waiter == DtorUnlock || s.waiter == Dying || s.waiter == Destroyed ==> s.notifiers[0] == Finished)
  }

  lemma SingleStep(s: State, l: Label)
    requires Safe(s) && SingleDone(s) && Step(s, l).Some?
    ensures SingleDone(Step(s, l).value)
  {}

  lemma {:induction false} SingleLifetime(schedule: seq<Label>)
    requires Run(1, schedule).Some?
    ensures SingleDone(Run(1, schedule).value)
    decreases |schedule|
  {
    hide Safe, Step;
    if schedule != [] {
      var k := |schedule| - 1;
      SingleLifetime(schedule[..k]);
      RunSafe(1, schedule[..k]);
      SingleStep(Run(1, schedule[..k]).value, schedule[k]);
    }
  }

  /** A schedule whose last step is a notifier's, taken on a destroyed object. */
  predicate TouchesDestroyed(n: nat, schedule: seq<Label>) {
    && schedule != [] && schedule[|schedule| - 1].Notify?
    && Run(n, schedule).Some? && Run(n, schedule[..|schedule| - 1]).value.waiter == Destroyed
  }

  /** The object outlives every step of Notify exactly when Notify is called at most
      once: a second call may still be waiting for the mutex when the object goes. */
  lemma LifetimeSafeIffSingle(n: nat)
    ensures (forall schedule :: !TouchesDestroyed(n, schedule)) <==> n <= 1
  {
    if n <= 1 {
      forall schedule ensures !TouchesDestroyed(n, schedule) {
        if TouchesDestroyed(n, schedule) {
          var before := schedule[..|schedule| - 1];
          if n == 0 {
            NeverNotified(before);
          } else {
            SingleLifetime(before);
          }
        }
      }
    } else {
      SecondNotifyTouches(n);
      assert TouchesDestroyed(n, BadSchedule());
    }
  }

  /** The first notifier completes, the waiter takes the fast path and destroys the
      object, and only then the second notifier asks for the mutex. */
  function BadSchedule(): (schedule: seq<Label>) {
    [Notify(0), Notify(0), Notify(0), Notify(0), Notify(0), Wait, Wait, Wait, Wait, Notify(1)]
  }

  /** The first notifier runs to completion. */
  lemma FirstNotifier(n: nat)
    requires n >= 1
    ensures var s := Start(n);
      Run(n, BadSchedule()[..5]) == Some(s.(notified := true, notifiers := s.notifiers[0 := Finished]))
  {
    var a := BadSchedule();
    var s := Start(n);
    assert a[..0] == [];
    RunNext(n, a, 0);
    RunNext(n, a, 1);
    RunNext(n, a, 2);
    RunNext(n, a, 3);
    RunNext(n, a, 4);
    assert s.notifiers[0 := AtCheck][0 := AtStore][0 := AtSignal][0 := AtUnlock][0 := Finished]
        == s.notifiers[0 := Finished];
  }

  lemma RunNext(n: nat, schedule: seq<Label>, k: nat)
    requires k < |schedule| && Run(n, schedule[..k]).Some?
    ensures Run(n, schedule[..k + 1]) == Step(Run(n, schedule[..k]).value, schedule[k])
  {
    assert schedule[..k + 1][..k] == schedule[..k];
  }

  lemma SecondNotifyTouches(n: nat)
    requires n >= 2
    ensures TouchesDestroyed(n, BadSchedule())
  {
    hide Run;
    var a := BadSchedule();
    FirstNotifier(n);
    RunNext(n, a, 5);
    RunNext(n, a, 6);
    RunNext(n, a, 7);
    RunNext(n, a, 8);
    RunNext(n, a, 9);
    assert a[..10] == a && |a| == 10;
  }

  // ----- progress with a single notifier -----

  function NotifierRank(pc: NotifierPc): (r: nat) {
    match pc
    case AtLock => 5 case AtCheck => 4 case AtStore => 3 case AtSignal => 2 case AtUnlock => 1 case Finished => 0
  }

  function WaiterRank(pc: WaiterPc): (r: nat) {
    match pc
    case CheckFast => 9 case Lock => 8 case Reacquire => 8 case CheckLoop => 7 case Asleep => 6 case Unlock => 5
    case DtorLock => 4 case DtorUnlock => 3 case Dying => 2 case Destroyed => 0
  }

  function Rank(s: State): (r: nat)
    requires |s.notifiers| == 1
  {
    3 * NotifierRank(s.notifiers[0]) + WaiterRank(s.waiter)
  }

  /** In no reachable state is everyone stuck before the object is destroyed. */
  lemma NoDeadlock(schedule: seq<Label>)
    requires Run(1, schedule).Some?
    ensures var s := Run(1, schedule).value;
      |s.notifiers| == 1 &&
      (Step(s, Wait).Some? || Step(s, Notify(0)).Some? || (s.waiter == Destroyed && s.notifiers[0] == Finished))
  {
    RunSafe(1, schedule);
    SingleLifetime(schedule);
    var s := Run(1, schedule).value;
    assert InCritical(s.notifiers[0]) <==> s.owner == ByNotifier(0);
    if s.notifiers[0] == Finished {
      assert PastStore(s, 0);
      if s.waiter == Asleep {
        var i :| 0 <= i < |s.notifiers| && AboutToSignal(s, i);
      }
    }
    if s.owner.ByNotifier? {
      OwnerIsMember(schedule);
    }
  }

  /** Only a notifier of the run ever owns the mutex. */
  lemma {:induction false} OwnerIsMember(schedule: seq<Label>)
    requires Run(1, schedule).Some?
    ensures Run(1, schedule).value.owner.ByNotifier? ==> Run(1, schedule).value.owner.i == 0
    decreases |schedule|
  {
    if schedule != [] {
      OwnerIsMember(schedule[..|schedule| - 1]);
      RunSafe(1, schedule[..|schedule| - 1]);
    }
  }

  /** Every step but a spurious wake-up lowers the rank. */
  lemma RankDrops(s: State, l: Label)
    requires |s.notifiers| == 1 && Step(s, l).Some?
    ensures |Step(s, l).value.notifiers| == 1
    ensures Rank(Step(s, l).value) <= if l == Spurious then Rank(s) + 2 else Rank(s) - 1
  {}

  function CountSpurious(schedule: seq<Label>): (n: nat) {
    if schedule == [] then 0 else
      CountSpurious(schedule[..|schedule| - 1]) + if schedule[|schedule| - 1] == Spurious then 1 else 0
  }

  /** Every run is short: apart from spurious wake-ups, which cost at most three steps
      each, there are at most 24 steps. With no deadlock, a fair run destroys the
      object after a completed notification. */
  lemma {:induction false} RunsAreBounded(schedule: seq<Label>)
    requires Run(1, schedule).Some?
    ensures |Run(1, schedule).value.notifiers| == 1
    ensures |schedule| + Rank(Run(1, schedule).value) <= 24 + 3 * CountSpurious(schedule)
    decreases |schedule|
  {
    RunSafe(1, schedule);
    if schedule != [] {
      var k := |schedule| - 1;
      RunsAreBounded(schedule[..k]);
      RankDrops(Run(1, schedule[..k]).value, schedule[k]);
    }
  }
}
