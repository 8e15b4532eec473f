/**
 timed_mutex (libcxx/src/mutex.cpp, libcxx/include/mutex) as interleaved steps of any
 number of threads.  A step is one access to the internal mutex `__m_`, to the flag or to
 the condition variable.  Waits may end by a notification, by themselves, and, in
 try_lock_until, by a timeout.  Only the thread that has the lock calls unlock.
 */
module TimedMutex {
  import opened Interleaving

  /** How a thread wants the lock: lock, or try_lock_until, whose deadline has not passed or has. */
  datatype Mode = Forever | Until(more: bool)

  datatype Pc =
    | Outside                // has not the lock: lock has not been called, or try_lock returned false
    | Want(mode: Mode)       // about to lock `__m_`
    | Check(mode: Mode, waited: bool)  // holds `__m_`, about to test the flag, first or after a wait
    | Sleeping(mode: Mode)   // in the wait, `__m_` released
    | Woken(mode: Mode)      // out of the wait, about to lock `__m_` again
    | Try                    // try_lock: about to try to lock `__m_`
    | TryBusy                // try_lock: `__m_` was taken, about to return false
    | TryCheck               // try_lock: holds `__m_`, about to test the flag
    | Take(waited: bool)     // found the flag false: about to set it
    | Taken                  // about to unlock `__m_` and return with the lock
    | Refused(mode: Mode)    // about to unlock `__m_` and return false
    | TryRefused             // the same, for try_lock
    | Has                    // has the lock, outside any call
    | WantUnlock             // unlock: about to lock `__m_`
    | Clear                  // about to clear the flag
    | Notify                 // about to notify one waiter
    | Leave                  // about to unlock `__m_`

  /** `holder` records who set the flag; no step looks at it. */
  datatype State = State(locked: bool, holder: int, owner: int, pcs: seq<Pc>)

  const NOBODY := -1

  datatype Action =
    | CallLock | CallTryLock
    | CallTryLockUntil(more: bool)  // whether the deadline lies ahead
    | CallUnlock
    | Go
    | GoNotify(u: nat, late: bool)  // notify_one, the waiter it picks, and whether its deadline has passed
    | Spurious
    | Timeout

  predicate HoldsM(p: Pc) {
    p.Check? || p.TryCheck? || p.Take? || p.Taken? || p.Refused? || p.TryRefused? || p.Clear? || p.Notify? || p.Leave?
  }

  /** The thread has the lock. */
  predicate Holding(p: Pc) { p.Taken? || p.Has? || p.WantUnlock? || p.Clear? }

  predicate WantsM(p: Pc) { p.Want? || p.Woken? || p.WantUnlock? }

  predicate CanStep(s: State, t: nat, a: Action) {
    t < |s.pcs| &&
    var p := s.pcs[t];
    match a
    case CallLock => p.Outside?
    case CallTryLock => p.Outside?
    case CallTryLockUntil(_) => p.Outside?
    case CallUnlock => p.Has?
    case Go => !p.Outside? && !p.Has? && !p.Sleeping? && (WantsM(p) ==> s.owner == NOBODY) &&
               (p.Notify? ==> NoSleeper(s))
    case GoNotify(u, _) => p.Notify? && u < |s.pcs| && s.pcs[u].Sleeping?
    case Spurious => p.Sleeping?
    case Timeout => p.Sleeping? && p.mode.Until?
  }

  predicate NoSleeper(s: State) {
    forall u :: 0 <= u < |s.pcs| ==> !s.pcs[u].Sleeping?
  }

  function Moved(s: State, t: nat, p: Pc): (r: State)
    requires t < |s.pcs|
  {
    s.(pcs := s.pcs[t := p])
  }

  function Locked(s: State, t: nat, p: Pc): (r: State)
    requires t < |s.pcs|
  {
    Moved(s, t, p).(owner := t)
  }

  function Unlocked(s: State, t: nat, p: Pc): (r: State)
    requires t < |s.pcs|
  {
    Moved(s, t, p).(owner := NOBODY)
  }

  /** The test of the flag: in the loop while it is set and there is time, after it otherwise. */
  function Tested(s: State, t: nat, mode: Mode, waited: bool): (r: State)
    requires t < |s.pcs|
  {
    if !s.locked then Moved(s, t, Take(waited))
    else if mode.Forever? || mode.more then Unlocked(s, t, Sleeping(mode))
    else Moved(s, t, Refused(mode))
  }

  /** A wait that was notified may report a timeout all the same, if its deadline has passed. */
  function Notified(mode: Mode, late: bool): (r: Mode) { if mode.Until? && late then Until(false) else mode }

  function Step(s: State, t: nat, a: Action): (r: State)
    requires CanStep(s, t, a)
  {
    var p := s.pcs[t];
    match a
    case CallLock => Moved(s, t, Want(Forever))
    case CallTryLock => Moved(s, t, Try)
    case CallTryLockUntil(more) => Moved(s, t, Want(Until(more)))
    case CallUnlock => Moved(s, t, WantUnlock)
    case Spurious => Moved(s, t, Woken(p.mode))
    case Timeout => Moved(s, t, Woken(Until(false)))
    case GoNotify(u, late) => Moved(Moved(s, u, Woken(Notified(s.pcs[u].mode, late))), t, Leave)
    case Go =>
      match p
      case Want(mode) => Locked(s, t, Check(mode, false))
      case Woken(mode) => Locked(s, t, Check(mode, true))
      case Check(mode, waited) => Tested(s, t, mode, waited)
      case Try => if s.owner == NOBODY then Locked(s, t, TryCheck) else Moved(s, t, TryBusy)
      case TryBusy => Moved(s, t, Outside)
      case TryCheck => Moved(s, t, if s.locked then TryRefused else Take(false))
      case Take(_) => Moved(s, t, Taken).(locked := true, holder := t)
      case Taken => Unlocked(s, t, Has)
      case Refused(_) => Unlocked(s, t, Outside)
      case TryRefused => Unlocked(s, t, Outside)
      case WantUnlock => Locked(s, t, Clear)
      case Clear => Moved(s, t, Notify).(locked := false, holder := NOBODY)
      case Notify => Moved(s, t, Leave)
      case Leave => Unlocked(s, t, Outside)
      case _ => s
  }

  predicate Initial(s: State) {
    !s.locked && s.holder == NOBODY && s.owner == NOBODY && forall t :: 0 <= t < |s.pcs| ==> s.pcs[t] == Outside
  }

  // -- the invariant

  predicate ThreadOk(s: State, t: nat)
    requires t < |s.pcs|
  {
    var p := s.pcs[t];
    && (HoldsM(p) <==> s.owner == t)
    && (Holding(p) <==> s.holder == t)
    && (p.Take? ==> !s.locked)
    // a test only refuses a call while another has the lock, and never refuses lock
    && (p.Refused? || p.TryRefused? ==> s.locked)
    && (p.Refused? ==> p.mode == Until(false))
  }

  /** The thread is about to notify a waiter, or is a waiter that has been woken and not looked yet. */
  predicate WillLook(p: Pc) { p.Notify? || p.Woken? || (p.Check? && p.waited) || (p.Take? && p.waited) }

  ghost predicate SomeoneWillLook(s: State) {
    exists u :: 0 <= u < |s.pcs| && WillLook(s.pcs[u])
  }

  /** No wakeup is lost: a waiter on a free mutex implies a pending notify or a woken waiter. */
  ghost predicate NoneForgotten(s: State) {
    !s.locked && !NoSleeper(s) ==> SomeoneWillLook(s)
  }

  ghost predicate Inv(s: State) {
    && NOBODY <= s.owner < |s.pcs| && NOBODY <= s.holder < |s.pcs|
    && (s.locked <==> s.holder != NOBODY)
    && (forall t :: 0 <= t < |s.pcs| ==> ThreadOk(s, t))
    && NoneForgotten(s)
  }

  lemma InitialInv(s: State)
    requires Initial(s)
    ensures Inv(s)
  {
  }

  lemma StepItself(s: State, t: nat, a: Action)
    requires Inv(s) && CanStep(s, t, a)
    ensures |Step(s, t, a).pcs| == |s.pcs| && ThreadOk(Step(s, t, a), t)
  {
    assert ThreadOk(s, t);
    hide NoneForgotten, NoSleeper;
  }

  lemma StepOthers(s: State, t: nat, a: Action, u: nat)
    requires Inv(s) && CanStep(s, t, a) && u < |s.pcs| && u != t
    ensures |Step(s, t, a).pcs| == |s.pcs| && ThreadOk(Step(s, t, a), u)
  {
    assert ThreadOk(s, u) && ThreadOk(s, t);
    hide NoneForgotten, NoSleeper;
  }

  lemma StepForgetsNobody(s: State, t: nat, a: Action)
    requires Inv(s) && CanStep(s, t, a)
    ensures NoneForgotten(Step(s, t, a))
  {
    var s', p := Step(s, t, a), s.pcs[t];
    assert ThreadOk(s, t);
    if !s'.locked && !NoSleeper(s') {
      if WillLook(s'.pcs[t]) {
      } else if a.GoNotify? {
        assert WillLook(s'.pcs[a.u]);
      } else {
        var v :| 0 <= v < |s'.pcs| && s'.pcs[v].Sleeping?;
        assert !s.locked;
        assert v != t && s.pcs[v].Sleeping?;
        var u :| 0 <= u < |s.pcs| && WillLook(s.pcs[u]);
        assert u != t;
        assert WillLook(s'.pcs[u]);
      }
    }
  }

  lemma StepInv(s: State, t: nat, a: Action)
    requires Inv(s) && CanStep(s, t, a)
    ensures Inv(Step(s, t, a))
  {
    var s' := Step(s, t, a);
    StepForgetsNobody(s, t, a);
    StepFields(s, t, a);
    forall u | 0 <= u < |s'.pcs| ensures ThreadOk(s', u) {
      if u == t {
        StepItself(s, t, a);
      } else {
        StepOthers(s, t, a, u);
      }
    }
    hide Step, CanStep, ThreadOk, NoneForgotten;
  }

  lemma StepFields(s: State, t: nat, a: Action)
    requires Inv(s) && CanStep(s, t, a)
    ensures var s' := Step(s, t, a);
            && |s'.pcs| == |s.pcs| && NOBODY <= s'.owner < |s'.pcs| && NOBODY <= s'.holder < |s'.pcs|
            && (s'.locked <==> s'.holder != NOBODY)
  {
    hide NoneForgotten, ThreadOk;
  }

  // -- runs

  ghost predicate IsStep(s: State, m: Move<Action>, s': State) {
    CanStep(s, m.t, m.a) && s' == Step(s, m.t, m.a)
  }

  lemma RunInv(states: seq<State>, moves: seq<Move<Action>>, i: nat)
    requires IsRun(IsStep, states, moves) && Initial(states[0]) && i < |states|
    ensures Inv(states[i])
  {
    InitialInv(states[0]);
    hide Inv, Step, CanStep;
    forall s, m, s' | IsStep(s, m, s') && Inv(s) ensures Inv(s') {
      StepInv(s, m.t, m.a);
    }
    RunKeeps(IsStep, Inv, states, moves, i);
  }

  /**
   In every state of every run at most one thread has the lock, the flag says whether
   one has, and a waiter on a free mutex implies a pending notify or a woken waiter.
   */
  lemma Promises(states: seq<State>, moves: seq<Move<Action>>, i: nat)
    requires IsRun(IsStep, states, moves) && Initial(states[0]) && i < |states|
    ensures var s := states[i];
            && (forall t, u | 0 <= t < |s.pcs| && 0 <= u < |s.pcs| :: Holding(s.pcs[t]) && Holding(s.pcs[u]) ==> t == u)
            && (s.locked <==> exists t :: 0 <= t < |s.pcs| && Holding(s.pcs[t]))
            && NoneForgotten(s)
  {
    var s := states[i];
    RunInv(states, moves, i);
    hide IsRun, NoneForgotten;
    forall t | 0 <= t < |s.pcs| ensures Holding(s.pcs[t]) <==> s.holder == t {
      assert ThreadOk(s, t);
    }
    assert s.locked ==> 0 <= s.holder < |s.pcs| && Holding(s.pcs[s.holder]);
  }

  /**
   What a thread that has looked at the flag is about to do: it returns from lock only
   with the lock, and is refused after a test only while another thread has the lock, in
   try_lock_until only once its time is up.  (try_lock may also be refused without a
   test: see TryLockFails.)
   */
  lemma Endings(states: seq<State>, moves: seq<Move<Action>>, i: nat, t: nat)
    requires IsRun(IsStep, states, moves) && Initial(states[0]) && i < |states| && t < |states[i].pcs|
    ensures var s, p := states[i], states[i].pcs[t];
            && (p.Taken? ==> s.holder == t)
            && (p.Refused? || p.TryRefused? ==> s.locked && s.holder != t)
            && (p.Refused? ==> p.mode == Until(false))
  {
    RunInv(states, moves, i);
    hide IsRun, NoneForgotten;
    assert ThreadOk(states[i], t);
  }

  /** A wait that ends by itself or by its deadline, and one that is notified, go on to lock `__m_` again. */
  lemma WaitsEnd(s: State, t: nat, a: Action)
    requires CanStep(s, t, a)
    ensures a == Spurious ==> Step(s, t, a) == s.(pcs := s.pcs[t := Woken(s.pcs[t].mode)])
    ensures a == Timeout ==> Step(s, t, a) == s.(pcs := s.pcs[t := Woken(Until(false))])
    ensures a.GoNotify? ==>
              && s.pcs[a.u].Sleeping?
              && Step(s, t, a) == s.(pcs := s.pcs[a.u := Woken(Notified(s.pcs[a.u].mode, a.late))][t := Leave])
  {
    hide NoSleeper;
  }

  // -- the calls

  predicate Between(p: Pc) { p.Outside? || p.Has? }

  /** Where a thread can be in or after the call `a`. */
  predicate InCall(a: Action, p: Pc) {
    match a
    case CallLock =>
      ((p.Want? || p.Check? || p.Sleeping? || p.Woken?) && p.mode == Forever) || p.Take? || p.Taken? || p.Has?
    case CallTryLock =>
      p.Try? || p.TryBusy? || p.TryCheck? || p.TryRefused? || p.Take? || p.Taken? || p.Has? || p.Outside?
    case CallTryLockUntil(more) =>
      || ((p.Want? || p.Check? || p.Refused?) && p.mode.Until? && (p.mode.more ==> more))
      || ((p.Sleeping? || p.Woken?) && p.mode.Until? && more)
      || p.Take? || p.Taken? || p.Has? || p.Outside?
    case CallUnlock => p.WantUnlock? || p.Clear? || p.Notify? || p.Leave? || p.Outside?
    case _ => false
  }

  lemma CallBegins(s: State, t: nat, a: Action)
    requires CanStep(s, t, a) && (a.CallLock? || a.CallTryLock? || a.CallTryLockUntil? || a.CallUnlock?)
    ensures |Step(s, t, a).pcs| == |s.pcs| && InCall(a, Step(s, t, a).pcs[t])
  {
  }

  lemma CallGoesOn(s: State, u: nat, b: Action, t: nat, a: Action)
    requires CanStep(s, u, b) && t < |s.pcs| && InCall(a, s.pcs[t]) && !Between(s.pcs[t])
    ensures |Step(s, u, b).pcs| == |s.pcs| && InCall(a, Step(s, u, b).pcs[t])
  {
    hide NoSleeper;
  }

  /**
   A call that begins with move `b`, up to a state `j` before which it has not ended: lock
   only ends with the lock, unlock without it; try_lock, and try_lock_until when the
   deadline has passed at the start, never wait.
   */
  lemma {:induction false} Calls(states: seq<State>, moves: seq<Move<Action>>, b: nat, j: nat, t: nat)
    requires IsRun(IsStep, states, moves) && b < j < |states| && moves[b].t == t
    requires var a := moves[b].a; a.CallLock? || a.CallTryLock? || a.CallTryLockUntil? || a.CallUnlock?
    requires forall k :: b < k < j ==> t < |states[k].pcs| && !Between(states[k].pcs[t])
    ensures t < |states[j].pcs| && InCall(moves[b].a, states[j].pcs[t])
    ensures var a, p := moves[b].a, states[j].pcs[t];
            && (a == CallLock ==> !p.Outside?) && (a == CallUnlock ==> !p.Has?)
            && (a == CallTryLock || a == CallTryLockUntil(false) ==> !p.Sleeping? && !p.Woken?)
    decreases j
  {
    var s, m := states[j - 1], moves[j - 1];
    assert IsStep(s, m, states[j]);
    if j == b + 1 {
      CallBegins(s, t, m.a);
    } else {
      Calls(states, moves, b, j - 1, t);
      CallGoesOn(s, m.t, m.a, t, moves[b].a);
    }
    hide Step, CanStep;
  }

  /** The deadline of the call has not passed, or it has the lock. */
  predicate InTime(p: Pc) {
    ((p.Want? || p.Check? || p.Sleeping? || p.Woken?) && p.mode == Until(true)) || p.Take? || p.Taken? || p.Has?
  }

  /** The move tells the thread that its deadline has passed. */
  predicate TellsLate(m: Move<Action>, t: nat) { m == Move(t, Timeout) || m.a == GoNotify(t, true) }

  lemma StaysInTime(s: State, m: Move<Action>, t: nat)
    requires CanStep(s, m.t, m.a) && t < |s.pcs| && InTime(s.pcs[t]) && !Between(s.pcs[t]) && !TellsLate(m, t)
    ensures |Step(s, m.t, m.a).pcs| == |s.pcs| && InTime(Step(s, m.t, m.a).pcs[t])
  {
    hide NoSleeper;
  }

  /** A try_lock_until whose deadline lies ahead is not refused before a wait tells it that it has passed. */
  lemma {:induction false} DeadlineHolds(states: seq<State>, moves: seq<Move<Action>>, b: nat, j: nat, t: nat)
    requires IsRun(IsStep, states, moves) && b < j < |states| && moves[b] == Move(t, CallTryLockUntil(true))
    requires forall k :: b < k < j ==> t < |states[k].pcs| && !Between(states[k].pcs[t]) && !TellsLate(moves[k], t)
    ensures t < |states[j].pcs| && InTime(states[j].pcs[t])
    ensures !states[j].pcs[t].Refused? && !states[j].pcs[t].Outside?
    decreases j
  {
    var s, m := states[j - 1], moves[j - 1];
    assert IsStep(s, m, states[j]);
    if j > b + 1 {
      DeadlineHolds(states, moves, b, j - 1, t);
      StaysInTime(s, m, t);
      hide Step, CanStep;
    }
  }

  /** After a timeout the thread is on its way out of the call. */
  predicate TimedOut(p: Pc) {
    ((p.Woken? || p.Check? || p.Refused?) && p.mode == Until(false)) || p.Take? || p.Taken? || Between(p)
  }

  lemma StaysTimedOut(s: State, u: nat, b: Action, t: nat)
    requires CanStep(s, u, b) && t < |s.pcs| && TimedOut(s.pcs[t]) && !Between(s.pcs[t])
    ensures |Step(s, u, b).pcs| == |s.pcs| && TimedOut(Step(s, u, b).pcs[t])
  {
    if u == t {
      OwnStepTimedOut(s, t, b);
    } else {
      OthersLeaveAlone(s, u, b, t);
    }
    hide Step, CanStep;
  }

  lemma OwnStepTimedOut(s: State, t: nat, b: Action)
    requires CanStep(s, t, b) && TimedOut(s.pcs[t]) && !Between(s.pcs[t])
    ensures |Step(s, t, b).pcs| == |s.pcs| && TimedOut(Step(s, t, b).pcs[t])
  {
    hide NoSleeper;
  }

  /** A step of another thread only ever moves a thread that sleeps. */
  lemma OthersLeaveAlone(s: State, u: nat, b: Action, t: nat)
    requires CanStep(s, u, b) && t < |s.pcs| && t != u && !s.pcs[t].Sleeping?
    ensures |Step(s, u, b).pcs| == |s.pcs| && Step(s, u, b).pcs[t] == s.pcs[t]
  {
    hide NoSleeper;
  }

  /** A wait that has timed out is the last of its call. */
  lemma {:induction false} TimeoutEnds(states: seq<State>, moves: seq<Move<Action>>, i: nat, j: nat, t: nat)
    requires IsRun(IsStep, states, moves) && i < j < |states| && moves[i] == Move(t, Timeout)
    requires forall k :: i < k < j ==> t < |states[k].pcs| && !Between(states[k].pcs[t])
    ensures t < |states[j].pcs| && TimedOut(states[j].pcs[t]) && !states[j].pcs[t].Sleeping?
    decreases j
  {
    var s, m := states[j - 1], moves[j - 1];
    assert IsStep(s, m, states[j]);
    if j > i + 1 {
      TimeoutEnds(states, moves, i, j - 1, t);
      StaysTimedOut(s, m.t, m.a, t);
      hide Step, CanStep;
    }
  }

  // -- when try_lock fails

  /**
   Where a thread can be after its try_lock has tried `__m_`, if it `fails`: about to
   return false, or about to see that the flag is set.
   */
  predicate OnItsWay(s: State, t: nat, fails: bool)
    requires t < |s.pcs|
  {
    var p := s.pcs[t];
    if fails then p.TryBusy? || (p.TryCheck? && s.locked) || p.TryRefused? || p.Outside?
    else (p.TryCheck? && !s.locked) || p == Take(false) || p.Taken? || p.Has?
  }

  /** The mutex that try_lock wants is taken, or the flag is set. */
  predicate Unavailable(s: State) { s.owner != NOBODY || s.locked }

  lemma TryStep(s: State, t: nat)
    requires CanStep(s, t, Go) && s.pcs[t].Try?
    ensures |Step(s, t, Go).pcs| == |s.pcs| && OnItsWay(Step(s, t, Go), t, Unavailable(s))
  {
  }

  /** Nobody can change that while the thread is in the call. */
  lemma StaysOnItsWay(s: State, u: nat, a: Action, t: nat, fails: bool)
    requires Inv(s) && CanStep(s, u, a) && t < |s.pcs| && OnItsWay(s, t, fails)
    requires !s.pcs[t].Outside? && !s.pcs[t].Has?
    ensures |Step(s, u, a).pcs| == |s.pcs| && OnItsWay(Step(s, u, a), t, fails)
  {
    assert ThreadOk(s, t) && ThreadOk(s, u);
    hide NoneForgotten, NoSleeper;
  }

  /**
   A call of try_lock, from the step `i` in which it tries `__m_` to the state `j` in
   which it has returned, returns false if and only if at that step some thread was
   holding `__m_` or the flag was set.  So it can fail although no thread has the lock.
   */
  lemma {:induction false} TryLockFails(states: seq<State>, moves: seq<Move<Action>>, i: nat, j: nat, t: nat)
    requires IsRun(IsStep, states, moves) && Initial(states[0]) && i < j < |states|
    requires t < |states[i].pcs| && states[i].pcs[t].Try? && moves[i] == Move(t, Go)
    requires forall k :: i < k < j ==> t < |states[k].pcs| && !states[k].pcs[t].Outside? && !states[k].pcs[t].Has?
    ensures t < |states[j].pcs| && OnItsWay(states[j], t, Unavailable(states[i]))
    ensures states[j].pcs[t].Outside? || states[j].pcs[t].Has? ==>
              (states[j].pcs[t].Outside? <==> Unavailable(states[i]))
    decreases j
  {
    hide Step, CanStep, Unavailable;
    assert IsStep(states[j - 1], moves[j - 1], states[j]);
    if j == i + 1 {
      TryStep(states[i], t);
    } else {
      TryLockFails(states, moves, i, j - 1, t);
      RunInv(states, moves, j - 1);
      StaysOnItsWay(states[j - 1], moves[j - 1].t, moves[j - 1].a, t, Unavailable(states[i]));
    }
  }

  /** A run in which try_lock returns false although no thread ever has the lock. */
  lemma TryLockFailsOnFreeMutex() returns (states: seq<State>, moves: seq<Move<Action>>)
    ensures IsRun(IsStep, states, moves) && Initial(states[0])
    ensures |states| == 6 && forall k :: 0 <= k < 6 ==> |states[k].pcs| == 2 && !states[k].locked
    ensures states[3].pcs[1].Try? && moves[3] == Move(1, Go) && states[4].pcs[1].TryBusy? && states[5].pcs[1].Outside?
  {
    var s0 := State(false, NOBODY, NOBODY, [Outside, Outside]);
    var s1 := State(false, NOBODY, NOBODY, [Want(Forever), Outside]);
    var s2 := State(false, NOBODY, 0, [Check(Forever, false), Outside]);
    var s3 := State(false, NOBODY, 0, [Check(Forever, false), Try]);
    var s4 := State(false, NOBODY, 0, [Check(Forever, false), TryBusy]);
    var s5 := State(false, NOBODY, 0, [Check(Forever, false), Outside]);
    states := [s0, s1, s2, s3, s4, s5];
    moves := [Move(0, CallLock), Move(0, Go), Move(1, CallTryLock), Move(1, Go), Move(1, Go)];
    assert IsStep(s0, moves[0], s1) && IsStep(s1, moves[1], s2) && IsStep(s2, moves[2], s3);
    assert IsStep(s3, moves[3], s4) && IsStep(s4, moves[4], s5);
  }

  // -- progress

  /** A thread's own step: not a new call, nor the end of a wait by itself. */
  predicate IsProgress(a: Action) { a.Go? || a.GoNotify? }

  /** A thread has a step to take, unless all wait for a thread that keeps the lock. */
  lemma NoDeadlock(s: State, u: nat) returns (t: nat, a: Action)
    requires Inv(s) && u < |s.pcs| && !s.pcs[u].Outside? && !s.pcs[u].Has?
    ensures t < |s.pcs| && ((IsProgress(a) && CanStep(s, t, a)) || s.pcs[t].Has?)
  {
    if !s.pcs[u].Sleeping? {
      t, a := OwnStep(s, u);
    } else if s.owner != NOBODY {
      assert ThreadOk(s, s.owner);
      t, a := OwnStep(s, s.owner);
    } else {
      a := Go;
      if s.locked {
        t := s.holder;
      } else {
        t :| 0 <= t < |s.pcs| && WillLook(s.pcs[t]);
      }
      assert ThreadOk(s, t);
    }
  }

  function Weight(p: Pc): (r: nat) {
    match p
    case WantUnlock => 8
    case Clear => 7
    case Notify => 6
    case Want(_) => 5
    case Woken(_) => 5
    case Try => 5
    case Check(_, _) => 4
    case TryCheck => 4
    case Take(_) => 3
    case Taken => 2
    case Refused(_) => 1
    case TryRefused => 1
    case TryBusy => 1
    case Leave => 1
    case Sleeping(_) => 1
    case _ => 0
  }

  function Rank(s: State): (r: nat) { Sum(Weight, s.pcs) }

  lemma OnlyMoves(s: State, t: nat)
    requires CanStep(s, t, Go)
    ensures |Step(s, t, Go).pcs| == |s.pcs| && Step(s, t, Go).pcs == s.pcs[t := Step(s, t, Go).pcs[t]]
  {
    hide NoSleeper;
  }

  lemma LighterPlace(s: State, t: nat)
    requires CanStep(s, t, Go)
    ensures |Step(s, t, Go).pcs| == |s.pcs| && Weight(Step(s, t, Go).pcs[t]) < Weight(s.pcs[t])
  {
    hide NoSleeper;
  }

  lemma NotifierWeighsMore(s: State, t: nat, u: nat, late: bool)
    requires CanStep(s, t, GoNotify(u, late))
    ensures u != t &&
            Weight(Woken(Notified(s.pcs[u].mode, late))) + Weight(Leave) < Weight(s.pcs[u]) + Weight(s.pcs[t])
  {
  }

  lemma ProgressLowersRank(s: State, t: nat, a: Action)
    requires CanStep(s, t, a) && IsProgress(a)
    ensures Rank(Step(s, t, a)) < Rank(s)
  {
    hide Weight;
    if a.GoNotify? {
      var awake := Woken(Notified(s.pcs[a.u].mode, a.late));
      NotifierWeighsMore(s, t, a.u, a.late);
      SumUpdate(Weight, s.pcs, a.u, awake);
      SumUpdate(Weight, s.pcs[a.u := awake], t, Leave);
    } else {
      OnlyMoves(s, t);
      LighterPlace(s, t);
      hide Step;
      SumUpdate(Weight, s.pcs, t, Step(s, t, a).pcs[t]);
    }
  }

  /** With no new calls, and no waits that end by themselves, every run is soon over. */
  lemma RunsEnd(states: seq<State>, moves: seq<Move<Action>>)
    requires IsRun(IsStep, states, moves) && forall i :: 0 <= i < |moves| ==> IsProgress(moves[i].a)
    ensures |moves| + Rank(states[|moves|]) <= Rank(states[0])
  {
    hide Step, CanStep, Rank, IsProgress;
    forall s, m, s' | IsStep(s, m, s') && IsProgress(m.a) ensures Rank(s') < Rank(s) {
      ProgressLowersRank(s, m.t, m.a);
    }
    ProgressEnds(IsStep, IsProgress, Rank, states, moves);
  }

  /** And where it is over, threads still wait only if another has the lock. */
  lemma AtRest(s: State)
    requires Inv(s) && forall t, a :: IsProgress(a) ==> !CanStep(s, t, a)
    ensures forall u :: 0 <= u < |s.pcs| ==> s.pcs[u].Outside? || s.pcs[u].Has? || s.pcs[u].Sleeping?
    ensures (exists u :: 0 <= u < |s.pcs| && s.pcs[u].Sleeping?) ==> exists t :: 0 <= t < |s.pcs| && s.pcs[t].Has?
  {
    forall u | 0 <= u < |s.pcs| ensures s.pcs[u].Outside? || s.pcs[u].Has? || s.pcs[u].Sleeping? {
      RestPlace(s, u);
    }
    hide Inv, CanStep, IsProgress;
    if exists u :: 0 <= u < |s.pcs| && s.pcs[u].Sleeping? {
      var u :| 0 <= u < |s.pcs| && s.pcs[u].Sleeping?;
      var t, a := NoDeadlock(s, u);
    }
  }

  lemma RestPlace(s: State, u: nat)
    requires Inv(s) && u < |s.pcs| && forall t, a :: IsProgress(a) ==> !CanStep(s, t, a)
    ensures s.pcs[u].Outside? || s.pcs[u].Has? || s.pcs[u].Sleeping?
  {
    if !s.pcs[u].Outside? && !s.pcs[u].Has? && !s.pcs[u].Sleeping? {
      var t, a := OwnStep(s, u);
    }
  }

  /** A thread in a call and not waiting has a step to take, or the owner of `__m_` has. */
  lemma OwnStep(s: State, u: nat) returns (t: nat, a: Action)
    requires Inv(s) && u < |s.pcs| && !s.pcs[u].Outside? && !s.pcs[u].Has? && !s.pcs[u].Sleeping?
    ensures IsProgress(a) && CanStep(s, t, a)
  {
    t, a := u, Go;
    if s.owner != NOBODY {
      t := s.owner;
      assert ThreadOk(s, t);
      if s.pcs[t].Notify? && !NoSleeper(s) {
        var v :| 0 <= v < |s.pcs| && s.pcs[v].Sleeping?;
        a := GoNotify(v, false);
      }
    } else {
      assert ThreadOk(s, u);
    }
  }
}
