/**
 recursive_timed_mutex (libcxx/src/mutex.cpp, libcxx/include/mutex) as interleaved steps
 of any number of threads.  A step is one critical section of the internal mutex `__m_`,
 or one use of the condition variable.  Only a thread that has the lock calls unlock.
 */
module RecursiveTimedMutex {
  import opened Interleaving

  /** How a thread wants the lock: lock, try_lock_until, whose deadline has not passed or has, or try_lock. */
  datatype Mode = Forever | Until(more: bool) | Once

  /** What a call is about to return: with the lock, false, or by throwing EAGAIN. */
  datatype Outcome = Got | Refused | Threw

  datatype Pc =
    | Outside                // in no call
    | Want(mode: Mode)       // about to lock `__m_`
    | First(mode: Mode)      // holds `__m_`, about to look for its own id
    | Check(mode: Mode, waited: bool)  // holds `__m_`, about to test the count, first or after a wait
    | Sleeping(mode: Mode)   // in the wait, `__m_` released
    | Woken(mode: Mode)      // out of the wait, about to lock `__m_` again
    | Try                    // try_lock: about to try to lock `__m_`
    | TryBusy                // try_lock: `__m_` was taken, about to return false
    | TryCheck               // try_lock: holds `__m_`, about to test count and id
    | Ending(r: Outcome, mode: Mode)  // about to unlock `__m_` and return
    | WantUnlock             // unlock: about to lock `__m_`
    | Decrement              // about to decrement the count
    | Leaving                // the count is not 0 yet: about to unlock `__m_`
    | Release                // the count is 0: about to unlock `__m_`
    | Notify                 // about to notify one waiter, after unlocking `__m_`

  /**
   `max` is the largest size_t.  `depth` records each thread's acquisitions less its
   releases; no step looks at it but the start of unlock, which needs the lock.
   */
  datatype State = State(max: nat, count: nat, id: int, owner: int, pcs: seq<Pc>, depth: seq<nat>)

  const NOBODY := -1

  datatype Action =
    | CallLock | CallTryLock | CallTryLockUntil(more: bool) | CallUnlock
    | Go
    | GoNotify(u: nat, late: bool)  // notify_one, the waiter it picks, and whether its deadline has passed
    | Spurious
    | Timeout

  predicate HoldsM(p: Pc) {
    p.First? || p.Check? || p.TryCheck? || p.Ending? || p.Decrement? || p.Leaving? || p.Release?
  }

  predicate WantsM(p: Pc) { p.Want? || p.Woken? || p.WantUnlock? }

  predicate NoSleeper(s: State) {
    forall u :: 0 <= u < |s.pcs| ==> !s.pcs[u].Sleeping?
  }

  predicate CanStep(s: State, t: nat, a: Action) {
    t < |s.pcs| && |s.depth| == |s.pcs| &&
    var p := s.pcs[t];
    match a
    case CallLock => p.Outside?
    case CallTryLock => p.Outside?
    case CallTryLockUntil(_) => p.Outside?
    case CallUnlock => p.Outside? && s.depth[t] > 0
    case Go => !p.Outside? && !p.Sleeping? && (WantsM(p) ==> s.owner == NOBODY) && (p.Notify? ==> NoSleeper(s)) &&
               (p.Decrement? ==> s.count > 0 && s.depth[t] > 0)
    case GoNotify(u, _) => p.Notify? && u < |s.pcs| && s.pcs[u].Sleeping?
    case Spurious => p.Sleeping?
    case Timeout => p.Sleeping? && p.mode.Until?
  }

  function Moved(s: State, t: nat, p: Pc): (r: State)
    requires t < |s.pcs|
  {
    s.(pcs := s.pcs[t := p])
  }

  function Locked(s: State, t: nat, p: Pc): (r: State)
    requires t < |s.pcs|
  {
    Moved(s, t, p).(owner := t)
  }

  function Unlocked(s: State, t: nat, p: Pc): (r: State)
    requires t < |s.pcs|
  {
    Moved(s, t, p).(owner := NOBODY)
  }

  /** The count goes up by one, in the name of `t`. */
  function Acquired(s: State, t: nat, mode: Mode): (r: State)
    requires t < |s.pcs| && t < |s.depth|
  {
    Moved(s, t, Ending(Got, mode)).(count := s.count + 1, id := t, depth := s.depth[t := s.depth[t] + 1])
  }

  /** The count goes down by one; at 0 nobody is recorded any more. */
  function Decremented(s: State, t: nat): (r: State)
    requires t < |s.pcs| && t < |s.depth| && s.count > 0 && s.depth[t] > 0
  {
    var s' := s.(count := s.count - 1, depth := s.depth[t := s.depth[t] - 1]);
    if s'.count == 0 then Moved(s', t, Release).(id := NOBODY) else Moved(s', t, Leaving)
  }

  /** The thread has found its own id. */
  function Again(s: State, t: nat, mode: Mode): (r: State)
    requires t < |s.pcs| && t < |s.depth|
  {
    if s.count == s.max then Moved(s, t, Ending(if mode.Forever? then Threw else Refused, mode))
    else Acquired(s, t, mode)
  }

  /** The wait loop: on while the count is not 0 and there is time. */
  function Tested(s: State, t: nat, mode: Mode): (r: State)
    requires t < |s.pcs| && t < |s.depth|
  {
    if s.count == 0 then Acquired(s, t, mode)
    else if mode == Until(false) then Moved(s, t, Ending(Refused, mode))
    else Unlocked(s, t, Sleeping(mode))
  }

  /** A wait that was notified may report a timeout all the same, if its deadline has passed. */
  function Notified(mode: Mode, late: bool): (r: Mode) { if mode.Until? && late then Until(false) else mode }

  function Step(s: State, t: nat, a: Action): (r: State)
    requires CanStep(s, t, a)
  {
    var p := s.pcs[t];
    match a
    case CallLock => Moved(s, t, Want(Forever))
    case CallTryLock => Moved(s, t, Try)
    case CallTryLockUntil(more) => Moved(s, t, Want(Until(more)))
    case CallUnlock => Moved(s, t, WantUnlock)
    case Spurious => Moved(s, t, Woken(p.mode))
    case Timeout => Moved(s, t, Woken(Until(false)))
    case GoNotify(u, late) => Moved(Moved(s, u, Woken(Notified(s.pcs[u].mode, late))), t, Outside)
    case Go =>
      match p
      case Want(mode) => Locked(s, t, First(mode))
      case First(mode) => if s.id == t then Again(s, t, mode) else Moved(s, t, Check(mode, false))
      case Check(mode, _) => Tested(s, t, mode)
      case Woken(mode) => Locked(s, t, Check(mode, true))
      case Try => if s.owner == NOBODY then Locked(s, t, TryCheck) else Moved(s, t, TryBusy)
      case TryBusy => Moved(s, t, Outside)
      case TryCheck =>
        if (s.count == 0 || s.id == t) && s.count != s.max then Acquired(s, t, Once)
        else Moved(s, t, Ending(Refused, Once))
      case Ending(_, _) => Unlocked(s, t, Outside)
      case Leaving => Unlocked(s, t, Outside)
      case WantUnlock => Locked(s, t, Decrement)
      case Decrement => Decremented(s, t)
      case Release => Unlocked(s, t, Notify)
      case Notify => Moved(s, t, Outside)
      case _ => s
  }

  predicate Initial(s: State) {
    && s.max > 0 && s.count == 0 && s.id == NOBODY && s.owner == NOBODY && |s.depth| == |s.pcs|
    && (forall t :: 0 <= t < |s.pcs| ==> s.pcs[t] == Outside)
    && (forall t :: 0 <= t < |s.depth| ==> s.depth[t] == 0)
  }

  // -- the invariant

  predicate ThreadOk(s: State, t: nat)
    requires t < |s.pcs| && |s.depth| == |s.pcs|
  {
    var p := s.pcs[t];
    && (HoldsM(p) <==> s.owner == t)
    && s.depth[t] == (if s.id == t then s.count else 0)
    && (p.WantUnlock? || p.Decrement? ==> s.depth[t] > 0)
    && (p.Check? || p.Sleeping? || p.Woken? ==> s.id != t)
    && (p.Want? || p.First? || p.Check? || p.Sleeping? || p.Woken? ==> p.mode != Once)
    && (p.Ending? ==> EndsWell(s, t, p.r, p.mode))
  }

  /**
   What a call that has looked at the count is about to return is right: it has the lock;
   or another has it, or the count is at its limit, and then lock throws and only the
   others are refused.
   */
  predicate EndsWell(s: State, t: nat, r: Outcome, mode: Mode) {
    match r
    case Got => s.id == t
    case Refused => s.count > 0 && (s.id == t ==> s.count == s.max) && mode != Forever
    case Threw => s.id == t && s.count == s.max && mode == Forever
  }

  /** The thread is about to notify a waiter, or is a waiter that has been woken and not looked yet. */
  predicate WillLook(p: Pc) { p.Release? || p.Notify? || p.Woken? || (p.Check? && p.waited) }

  ghost predicate SomeoneWillLook(s: State) {
    exists u :: 0 <= u < |s.pcs| && WillLook(s.pcs[u])
  }

  /** No wakeup is lost: a waiter on a free mutex implies a pending notify or a woken waiter. */
  ghost predicate NoneForgotten(s: State) {
    s.count == 0 && !NoSleeper(s) ==> SomeoneWillLook(s)
  }

  predicate FieldsOk(s: State) {
    && |s.depth| == |s.pcs| && NOBODY <= s.owner < |s.pcs| && NOBODY <= s.id < |s.pcs|
    && (s.count == 0 <==> s.id == NOBODY) && s.count <= s.max && s.max > 0
  }

  ghost predicate Inv(s: State) {
    && FieldsOk(s)
    && (forall t :: 0 <= t < |s.pcs| ==> ThreadOk(s, t))
    && NoneForgotten(s)
  }

  lemma InitialInv(s: State)
    requires Initial(s)
    ensures Inv(s)
  {
  }

  lemma StepFields(s: State, t: nat, a: Action)
    requires Inv(s) && CanStep(s, t, a)
    ensures FieldsOk(Step(s, t, a)) && |Step(s, t, a).pcs| == |s.pcs|
  {
    assert ThreadOk(s, t);
    hide NoneForgotten;
  }

  lemma StepItself(s: State, t: nat, a: Action)
    requires Inv(s) && CanStep(s, t, a)
    ensures |Step(s, t, a).pcs| == |s.pcs| == |Step(s, t, a).depth| && ThreadOk(Step(s, t, a), t)
  {
    assert ThreadOk(s, t);
    hide NoneForgotten, NoSleeper;
  }

  lemma StepOthers(s: State, t: nat, a: Action, u: nat)
    requires Inv(s) && CanStep(s, t, a) && u < |s.pcs| && u != t
    ensures |Step(s, t, a).pcs| == |s.pcs| == |Step(s, t, a).depth| && ThreadOk(Step(s, t, a), u)
  {
    assert ThreadOk(s, u) && ThreadOk(s, t);
    hide NoneForgotten, NoSleeper;
  }

  lemma StepForgetsNobody(s: State, t: nat, a: Action)
    requires Inv(s) && CanStep(s, t, a)
    ensures NoneForgotten(Step(s, t, a))
  {
    var s', p := Step(s, t, a), s.pcs[t];
    assert ThreadOk(s, t);
    if s'.count == 0 && !NoSleeper(s') {
      if WillLook(s'.pcs[t]) {
      } else if a.GoNotify? {
        assert WillLook(s'.pcs[a.u]);
      } else {
        var v :| 0 <= v < |s'.pcs| && s'.pcs[v].Sleeping?;
        assert s.count == 0;
        assert v != t && s.pcs[v].Sleeping?;
        var u :| 0 <= u < |s.pcs| && WillLook(s.pcs[u]);
        assert u != t;
        assert WillLook(s'.pcs[u]);
      }
    }
  }

  lemma StepInv(s: State, t: nat, a: Action)
    requires Inv(s) && CanStep(s, t, a)
    ensures Inv(Step(s, t, a))
  {
    var s' := Step(s, t, a);
    StepForgetsNobody(s, t, a);
    StepFields(s, t, a);
    forall u | 0 <= u < |s'.pcs| ensures ThreadOk(s', u) {
      if u == t {
        StepItself(s, t, a);
      } else {
        StepOthers(s, t, a, u);
      }
    }
    hide Step, CanStep, ThreadOk, NoneForgotten;
  }

  // -- runs

  ghost predicate IsStep(s: State, m: Move<Action>, s': State) {
    CanStep(s, m.t, m.a) && s' == Step(s, m.t, m.a)
  }

  lemma RunInv(states: seq<State>, moves: seq<Move<Action>>, i: nat)
    requires IsRun(IsStep, states, moves) && Initial(states[0]) && i < |states|
    ensures Inv(states[i])
  {
    InitialInv(states[0]);
    hide Inv, Step, CanStep;
    forall s, m, s' | IsStep(s, m, s') && Inv(s) ensures Inv(s') {
      StepInv(s, m.t, m.a);
    }
    RunKeeps(IsStep, Inv, states, moves, i);
  }

  /** The thread has acquired the lock more often than it has released it. */
  predicate Has(s: State, t: nat)
    requires t < |s.depth|
  {
    s.depth[t] > 0
  }

  /**
   In every state of every run at most one thread has the lock; the count is that
   thread's acquisitions less its releases, and 0 exactly when nobody is recorded; it
   stays within the largest count; and a waiter on a free mutex implies a pending notify
   or a woken waiter.
   */
  lemma Promises(states: seq<State>, moves: seq<Move<Action>>, i: nat)
    requires IsRun(IsStep, states, moves) && Initial(states[0]) && i < |states|
    ensures var s := states[i];
            && |s.depth| == |s.pcs|
            && (forall t, u | 0 <= t < |s.depth| && 0 <= u < |s.depth| :: Has(s, t) && Has(s, u) ==> t == u)
            && (forall t | 0 <= t < |s.depth| :: Has(s, t) ==> s.id == t && s.count == s.depth[t])
            && (s.count == 0 <==> s.id == NOBODY) && s.count <= s.max
            && NoneForgotten(s)
  {
    var s := states[i];
    RunInv(states, moves, i);
    hide IsRun, NoneForgotten;
    forall t | 0 <= t < |s.depth| ensures Has(s, t) ==> s.id == t && s.count == s.depth[t] {
      assert ThreadOk(s, t);
    }
  }

  /**
   In every state of every run, what a call that has looked at the count is about to return
   is right.  (try_lock may also be refused without a look: see TryLockFails.)
   */
  lemma Endings(states: seq<State>, moves: seq<Move<Action>>, i: nat, t: nat)
    requires IsRun(IsStep, states, moves) && Initial(states[0]) && i < |states| && t < |states[i].pcs|
    ensures states[i].pcs[t].Ending? ==> EndsWell(states[i], t, states[i].pcs[t].r, states[i].pcs[t].mode)
  {
    RunInv(states, moves, i);
    hide IsRun, NoneForgotten, EndsWell;
    assert ThreadOk(states[i], t);
  }

  /** A wait that ends by itself or by its deadline, and one that is notified, go on to lock `__m_` again. */
  lemma WaitsEnd(s: State, t: nat, a: Action)
    requires CanStep(s, t, a)
    ensures a == Spurious ==> Step(s, t, a) == s.(pcs := s.pcs[t := Woken(s.pcs[t].mode)])
    ensures a == Timeout ==> Step(s, t, a) == s.(pcs := s.pcs[t := Woken(Until(false))])
    ensures a.GoNotify? ==>
              && s.pcs[a.u].Sleeping?
              && Step(s, t, a) == s.(pcs := s.pcs[a.u := Woken(Notified(s.pcs[a.u].mode, a.late))][t := Outside])
  {
    hide NoSleeper;
  }

  // -- the calls

  predicate Waits(p: Pc) { p.Sleeping? || p.Woken? }

  predicate Looks(p: Pc) { p.Want? || p.First? || p.Check? || Waits(p) }

  /** Where a thread can be in or after the call `a`, that it began with depth `d`, and its depth `now`. */
  predicate InCall(a: Action, p: Pc, d: nat, now: nat) {
    match a
    case CallLock =>
      || (Looks(p) && p.mode == Forever && now == d) || (p == Ending(Got, Forever) && now == d + 1)
      || (p == Ending(Threw, Forever) && now == d) || (p.Outside? && (now == d || now == d + 1))
    case CallTryLock =>
      || ((p.Try? || p.TryBusy? || p.TryCheck?) && now == d) || (p == Ending(Got, Once) && now == d + 1)
      || (p == Ending(Refused, Once) && now == d) || (p.Outside? && (now == d || now == d + 1))
    case CallTryLockUntil(more) =>
      || (Looks(p) && p.mode.Until? && (p.mode.more ==> more) && (Waits(p) ==> more) && now == d)
      || (p.Ending? && p.mode.Until? && p.r == Got && now == d + 1)
      || (p.Ending? && p.mode.Until? && p.r == Refused && now == d) || (p.Outside? && (now == d || now == d + 1))
    case CallUnlock =>
      || ((p.WantUnlock? || p.Decrement?) && now == d)
      || ((p.Leaving? || p.Release? || p.Notify? || p.Outside?) && now + 1 == d)
    case _ => false
  }

  lemma CallBegins(s: State, t: nat, a: Action)
    requires CanStep(s, t, a) && (a.CallLock? || a.CallTryLock? || a.CallTryLockUntil? || a.CallUnlock?)
    ensures var s' := Step(s, t, a);
            |s'.pcs| == |s'.depth| == |s.pcs| && InCall(a, s'.pcs[t], s.depth[t], s'.depth[t])
  {
    hide NoSleeper;
  }

  lemma CallGoesOn(s: State, t: nat, b: Action, a: Action, d: nat)
    requires CanStep(s, t, b) && InCall(a, s.pcs[t], d, s.depth[t]) && !s.pcs[t].Outside?
    ensures CallWentOn(s, Step(s, t, b), t, a, d)
  {
    if HoldsM(s.pcs[t]) {
      GoesOnInside(s, t, b, a, d);
    } else {
      GoesOnOutside(s, t, b, a, d);
    }
  }

  /** One step further in the call; lock comes back without the lock only if it throws. */
  predicate CallWentOn(s: State, s': State, t: nat, a: Action, d: nat)
    requires t < |s.pcs|
  {
    && |s'.pcs| == |s'.depth| == |s.pcs| && InCall(a, s'.pcs[t], d, s'.depth[t])
    && (s'.pcs[t].Outside? && a == CallLock && s'.depth[t] == d ==> s.pcs[t] == Ending(Threw, Forever))
  }

  lemma GoesOnInside(s: State, t: nat, b: Action, a: Action, d: nat)
    requires CanStep(s, t, b) && InCall(a, s.pcs[t], d, s.depth[t]) && HoldsM(s.pcs[t])
    ensures CallWentOn(s, Step(s, t, b), t, a, d)
  {
    hide NoSleeper;
  }

  lemma GoesOnOutside(s: State, t: nat, b: Action, a: Action, d: nat)
    requires CanStep(s, t, b) && InCall(a, s.pcs[t], d, s.depth[t]) && !HoldsM(s.pcs[t]) && !s.pcs[t].Outside?
    ensures CallWentOn(s, Step(s, t, b), t, a, d)
  {
    hide NoSleeper, Acquired, Decremented, Again, Tested;
  }

  lemma OthersGoOn(s: State, u: nat, b: Action, t: nat, a: Action, d: nat)
    requires CanStep(s, u, b) && t < |s.pcs| && t != u && InCall(a, s.pcs[t], d, s.depth[t]) && !s.pcs[t].Outside?
    ensures var s' := Step(s, u, b);
            |s'.pcs| == |s'.depth| == |s.pcs| && InCall(a, s'.pcs[t], d, s'.depth[t]) && !s'.pcs[t].Outside?
  {
    OthersKeepDepth(s, u, b, t);
    if s.pcs[t].Sleeping? {
      OthersWake(s, u, b, t);
    } else {
      OthersLeaveAlone(s, u, b, t);
    }
    hide Step, CanStep;
  }

  lemma OthersKeepDepth(s: State, u: nat, b: Action, t: nat)
    requires CanStep(s, u, b) && t < |s.pcs| && t != u
    ensures |Step(s, u, b).depth| == |s.depth| && Step(s, u, b).depth[t] == s.depth[t]
  {
    hide NoSleeper;
  }

  lemma OthersWake(s: State, u: nat, b: Action, t: nat)
    requires CanStep(s, u, b) && t < |s.pcs| && t != u && s.pcs[t].Sleeping?
    ensures var s' := Step(s, u, b);
            && |s'.pcs| == |s.pcs|
            && (s'.pcs[t] == s.pcs[t] ||
                (b.GoNotify? && b.u == t && s'.pcs[t] == Woken(Notified(s.pcs[t].mode, b.late))))
  {
    hide NoSleeper;
  }

  /**
   A call that begins with move `b`, up to a state `j` before which it has not ended: lock
   is never refused, and ends with the thread having the lock once more unless it throws;
   unlock ends with the thread having it once less; try_lock, and try_lock_until when the
   deadline has passed at the start, never wait.
   */
  lemma {:induction false} Calls(states: seq<State>, moves: seq<Move<Action>>, b: nat, j: nat, t: nat)
    requires IsRun(IsStep, states, moves) && b < j < |states| && moves[b].t == t
    requires var a := moves[b].a; a.CallLock? || a.CallTryLock? || a.CallTryLockUntil? || a.CallUnlock?
    requires forall k :: b < k < j ==> t < |states[k].pcs| && !states[k].pcs[t].Outside?
    ensures t < |states[b].depth| && t < |states[j].pcs| == |states[j].depth|
    ensures InCall(moves[b].a, states[j].pcs[t], states[b].depth[t], states[j].depth[t])
    ensures var a, p, d, now := moves[b].a, states[j].pcs[t], states[b].depth[t], states[j].depth[t];
            && (a == CallLock && p.Ending? ==> p.r != Refused)
            && (a == CallLock && p.Outside? && now != d + 1 ==>
                  t < |states[j - 1].pcs| && states[j - 1].pcs[t] == Ending(Threw, Forever) && now == d)
            && (a == CallUnlock && p.Outside? ==> now == d - 1)
            && (a == CallTryLock || a == CallTryLockUntil(false) ==> !p.Sleeping? && !p.Woken?)
    decreases j
  {
    var s, m := states[j - 1], moves[j - 1];
    assert IsStep(s, m, states[j]);
    assert IsStep(states[b], moves[b], states[b + 1]);
    hide Step;
    if j == b + 1 {
      CallBegins(s, t, m.a);
    } else {
      Calls(states, moves, b, j - 1, t);
      if m.t == t {
        CallGoesOn(s, t, m.a, moves[b].a, states[b].depth[t]);
      } else {
        OthersGoOn(s, m.t, m.a, t, moves[b].a, states[b].depth[t]);
      }
    }
  }

  /** The deadline of the call has not passed, or it has looked, and then only its own count can refuse it. */
  predicate InTime(s: State, t: nat)
    requires t < |s.pcs|
  {
    var p := s.pcs[t];
    || (Looks(p) && p.mode == Until(true))
    || (p.Ending? && p.mode == Until(true) && (p.r == Got || (s.id == t && s.count == s.max)))
    || p.Outside?
  }

  /** The move tells the thread that its deadline has passed. */
  predicate TellsLate(m: Move<Action>, t: nat) { m == Move(t, Timeout) || m.a == GoNotify(t, true) }

  lemma StaysInTime(s: State, m: Move<Action>, t: nat)
    requires Inv(s) && CanStep(s, m.t, m.a) && t < |s.pcs| && InTime(s, t) && !s.pcs[t].Outside? && !TellsLate(m, t)
    ensures |Step(s, m.t, m.a).pcs| == |s.pcs| && InTime(Step(s, m.t, m.a), t)
  {
    assert ThreadOk(s, t) && ThreadOk(s, m.t);
    hide NoSleeper, NoneForgotten;
  }

  /**
   A try_lock_until whose deadline lies ahead is not refused before a wait tells it that it
   has passed, unless the thread has the lock already as often as can be.
   */
  lemma {:induction false} DeadlineHolds(states: seq<State>, moves: seq<Move<Action>>, b: nat, j: nat, t: nat)
    requires IsRun(IsStep, states, moves) && Initial(states[0]) && b < j < |states|
    requires moves[b] == Move(t, CallTryLockUntil(true))
    requires forall k :: b < k < j ==> t < |states[k].pcs| && !states[k].pcs[t].Outside? && !TellsLate(moves[k], t)
    ensures t < |states[j].pcs| && InTime(states[j], t)
    ensures states[j].pcs[t].Ending? && states[j].pcs[t].r == Refused ==>
              states[j].id == t && states[j].count == states[j].max
    decreases j
  {
    hide Step, CanStep, Inv;
    var s, m := states[j - 1], moves[j - 1];
    assert IsStep(s, m, states[j]);
    if j == b + 1 {
      BeginsInTime(s, t);
    } else {
      DeadlineHolds(states, moves, b, j - 1, t);
      RunInv(states, moves, j - 1);
      StaysInTime(s, m, t);
    }
  }

  lemma BeginsInTime(s: State, t: nat)
    requires CanStep(s, t, CallTryLockUntil(true))
    ensures t < |s.pcs| == |Step(s, t, CallTryLockUntil(true)).pcs|
    ensures InTime(Step(s, t, CallTryLockUntil(true)), t) && !Step(s, t, CallTryLockUntil(true)).pcs[t].Ending?
  {
  }

  /** After a timeout the thread is on its way out of the call. */
  predicate TimedOut(p: Pc) {
    ((p.Woken? || p.Check?) && p.mode == Until(false)) || p.Ending? || p.Outside?
  }

  lemma StaysTimedOut(s: State, u: nat, b: Action, t: nat)
    requires CanStep(s, u, b) && t < |s.pcs| && TimedOut(s.pcs[t]) && !s.pcs[t].Outside?
    ensures |Step(s, u, b).pcs| == |s.pcs| && TimedOut(Step(s, u, b).pcs[t])
  {
    if u == t {
      OwnStepTimedOut(s, t, b);
    } else {
      OthersLeaveAlone(s, u, b, t);
    }
    hide Step, CanStep;
  }

  lemma OwnStepTimedOut(s: State, t: nat, b: Action)
    requires CanStep(s, t, b) && TimedOut(s.pcs[t]) && !s.pcs[t].Outside?
    ensures |Step(s, t, b).pcs| == |s.pcs| && TimedOut(Step(s, t, b).pcs[t])
  {
    hide NoSleeper;
  }

  /** A step of another thread only ever moves a thread that sleeps. */
  lemma OthersLeaveAlone(s: State, u: nat, b: Action, t: nat)
    requires CanStep(s, u, b) && t < |s.pcs| && t != u && !s.pcs[t].Sleeping?
    ensures |Step(s, u, b).pcs| == |s.pcs| && Step(s, u, b).pcs[t] == s.pcs[t]
  {
    hide NoSleeper;
  }

  /** A wait that has timed out is the last of its call. */
  lemma {:induction false} TimeoutEnds(states: seq<State>, moves: seq<Move<Action>>, i: nat, j: nat, t: nat)
    requires IsRun(IsStep, states, moves) && i < j < |states| && moves[i] == Move(t, Timeout)
    requires forall k :: i < k < j ==> t < |states[k].pcs| && !states[k].pcs[t].Outside?
    ensures t < |states[j].pcs| && TimedOut(states[j].pcs[t]) && !states[j].pcs[t].Sleeping?
    decreases j
  {
    var s, m := states[j - 1], moves[j - 1];
    assert IsStep(s, m, states[j]);
    if j > i + 1 {
      TimeoutEnds(states, moves, i, j - 1, t);
      StaysTimedOut(s, m.t, m.a, t);
      hide Step, CanStep;
    }
  }

  // -- when try_lock fails

  /** A thread that holds `__m_` would find that it cannot have the lock, or not once more. */
  predicate Full(s: State, t: nat) { (s.count != 0 && s.id != t) || s.count == s.max }

  /** The mutex that try_lock wants is taken, or the look at the count will refuse it. */
  predicate Unavailable(s: State, t: nat) { s.owner != NOBODY || Full(s, t) }

  /**
   Where a thread that came with depth `d` can be after its try_lock has tried `__m_`, if
   it `fails`: about to return false, or about to see that it must, or back with its depth
   unchanged.  Otherwise it comes back with its depth one higher.
   */
  predicate OnItsWay(s: State, t: nat, d: nat, fails: bool)
    requires t < |s.pcs| == |s.depth|
  {
    var p := s.pcs[t];
    if fails then
      s.depth[t] == d && (p.TryBusy? || (p.TryCheck? && Full(s, t)) || p == Ending(Refused, Once) || p.Outside?)
    else if p.TryCheck? then !Full(s, t) && s.depth[t] == d
    else (p == Ending(Got, Once) || p.Outside?) && s.depth[t] == d + 1
  }

  lemma TryStep(s: State, t: nat)
    requires CanStep(s, t, Go) && s.pcs[t].Try?
    ensures |Step(s, t, Go).pcs| == |Step(s, t, Go).depth| == |s.pcs|
    ensures OnItsWay(Step(s, t, Go), t, s.depth[t], Unavailable(s, t))
  {
  }

  /** The thread's own next steps. */
  lemma StepsOnItsWay(s: State, t: nat, a: Action, d: nat, fails: bool)
    requires CanStep(s, t, a) && OnItsWay(s, t, d, fails) && !s.pcs[t].Outside?
    ensures |Step(s, t, a).pcs| == |Step(s, t, a).depth| == |s.pcs| && OnItsWay(Step(s, t, a), t, d, fails)
  {
    hide NoSleeper;
  }

  /** Nobody else can change that while the thread is in the call. */
  lemma StaysOnItsWay(s: State, u: nat, a: Action, t: nat, d: nat, fails: bool)
    requires Inv(s) && CanStep(s, u, a) && t < |s.pcs| && OnItsWay(s, t, d, fails) && !s.pcs[t].Outside? && u != t
    ensures |Step(s, u, a).pcs| == |Step(s, u, a).depth| == |s.pcs| && OnItsWay(Step(s, u, a), t, d, fails)
  {
    assert ThreadOk(s, t) && ThreadOk(s, u);
    hide NoneForgotten, NoSleeper;
  }

  /**
   A call of try_lock, from the step `i` in which it tries `__m_` to the state `j` in
   which it has returned, returns false, with the thread's depth unchanged, if and only if
   at that step some thread was holding `__m_`, or another thread had the lock, or the
   count was at its limit; otherwise the thread has the lock once more.
   */
  lemma {:induction false} TryLockFails(states: seq<State>, moves: seq<Move<Action>>, i: nat, j: nat, t: nat)
    requires IsRun(IsStep, states, moves) && Initial(states[0]) && i < j < |states|
    requires t < |states[i].pcs| == |states[i].depth| && states[i].pcs[t].Try? && moves[i] == Move(t, Go)
    requires forall k :: i < k < j ==> t < |states[k].pcs| && !states[k].pcs[t].Outside?
    ensures t < |states[j].pcs| == |states[j].depth|
    ensures OnItsWay(states[j], t, states[i].depth[t], Unavailable(states[i], t))
    ensures states[j].pcs[t].Outside? ==>
              states[j].depth[t] == states[i].depth[t] + if Unavailable(states[i], t) then 0 else 1
    decreases j
  {
    hide Step, CanStep, Unavailable;
    var s, m := states[j - 1], moves[j - 1];
    assert IsStep(s, m, states[j]);
    if j == i + 1 {
      TryStep(states[i], t);
    } else {
      TryLockFails(states, moves, i, j - 1, t);
      if m.t == t {
        StepsOnItsWay(s, t, m.a, states[i].depth[t], Unavailable(states[i], t));
      } else {
        RunInv(states, moves, j - 1);
        StaysOnItsWay(s, m.t, m.a, t, states[i].depth[t], Unavailable(states[i], t));
      }
    }
  }

  /** Two threads, before the first has the lock, and after. */
  function Before(p: Pc, owner: int): (r: State) { State(2, 0, NOBODY, owner, [p, Outside], [0, 0]) }

  function After(p: Pc, q: Pc, owner: int): (r: State) { State(2, 1, 0, owner, [p, q], [1, 0]) }

  lemma FirstTakesLock()
    ensures IsStep(Before(Outside, NOBODY), Move(0, CallLock), Before(Want(Forever), NOBODY))
    ensures IsStep(Before(Want(Forever), NOBODY), Move(0, Go), Before(First(Forever), 0))
    ensures IsStep(Before(First(Forever), 0), Move(0, Go), Before(Check(Forever, false), 0))
    ensures IsStep(Before(Check(Forever, false), 0), Move(0, Go), After(Ending(Got, Forever), Outside, 0))
    ensures IsStep(After(Ending(Got, Forever), Outside, 0), Move(0, Go), After(Outside, Outside, NOBODY))
  {
    hide NoSleeper, Decremented, Again;
  }

  lemma FirstIsRefused()
    ensures IsStep(After(Outside, Outside, NOBODY), Move(1, CallLock), After(Outside, Want(Forever), NOBODY))
    ensures IsStep(After(Outside, Want(Forever), NOBODY), Move(1, Go), After(Outside, First(Forever), 1))
    ensures IsStep(After(Outside, First(Forever), 1), Move(0, CallTryLock), After(Try, First(Forever), 1))
    ensures IsStep(After(Try, First(Forever), 1), Move(0, Go), After(TryBusy, First(Forever), 1))
    ensures IsStep(After(TryBusy, First(Forever), 1), Move(0, Go), After(Outside, First(Forever), 1))
  {
    hide NoSleeper, Acquired, Decremented, Again, Tested;
  }

  /** A run in which try_lock refuses the very thread that has the lock, its count below the limit. */
  lemma TryLockFailsForOwner() returns (states: seq<State>, moves: seq<Move<Action>>)
    ensures IsRun(IsStep, states, moves) && |states| == 11 && Initial(states[0])
    ensures states[8] == After(Try, First(Forever), 1) && moves[8] == Move(0, Go)
    ensures states[9] == After(TryBusy, First(Forever), 1) && states[10] == After(Outside, First(Forever), 1)
  {
    FirstTakesLock();
    FirstIsRefused();
    hide IsStep, After;
    states := [Before(Outside, NOBODY), Before(Want(Forever), NOBODY), Before(First(Forever), 0),
               Before(Check(Forever, false), 0), After(Ending(Got, Forever), Outside, 0),
               After(Outside, Outside, NOBODY), After(Outside, Want(Forever), NOBODY),
               After(Outside, First(Forever), 1), After(Try, First(Forever), 1),
               After(TryBusy, First(Forever), 1), After(Outside, First(Forever), 1)];
    moves := [Move(0, CallLock), Move(0, Go), Move(0, Go), Move(0, Go), Move(0, Go),
              Move(1, CallLock), Move(1, Go), Move(0, CallTryLock), Move(0, Go), Move(0, Go)];
  }

  // -- progress

  predicate IsProgress(a: Action) { a.Go? || a.GoNotify? }

  /** A thread in a call and not waiting has a step to take, or the owner of `__m_` has. */
  lemma OwnStep(s: State, u: nat) returns (t: nat, a: Action)
    requires Inv(s) && u < |s.pcs| && !s.pcs[u].Outside? && !s.pcs[u].Sleeping?
    ensures IsProgress(a) && CanStep(s, t, a)
  {
    t, a := u, Go;
    assert ThreadOk(s, u);
    if s.pcs[u].Notify? && !NoSleeper(s) {
      var v :| 0 <= v < |s.pcs| && s.pcs[v].Sleeping?;
      a := GoNotify(v, false);
    } else if WantsM(s.pcs[u]) && s.owner != NOBODY {
      t := s.owner;
      assert ThreadOk(s, t);
    }
  }

  /** A thread has a step to take, unless all wait for a thread that keeps the lock. */
  lemma NoDeadlock(s: State, u: nat) returns (t: nat, a: Action)
    requires Inv(s) && u < |s.pcs| && !s.pcs[u].Outside?
    ensures t < |s.pcs| == |s.depth| && ((IsProgress(a) && CanStep(s, t, a)) || (s.pcs[t].Outside? && Has(s, t)))
  {
    a := Go;
    if !s.pcs[u].Sleeping? {
      t, a := OwnStep(s, u);
    } else {
      if s.count == 0 {
        t :| 0 <= t < |s.pcs| && WillLook(s.pcs[t]);
      } else {
        t := s.id;
      }
      assert ThreadOk(s, t);
      if !s.pcs[t].Outside? && !s.pcs[t].Sleeping? {
        t, a := OwnStep(s, t);
      }
    }
  }

  function Weight(p: Pc): (r: nat) {
    match p
    case WantUnlock => 8
    case Decrement => 7
    case Release => 6
    case Want(_) => 6
    case Notify => 5
    case First(_) => 5
    case Woken(_) => 5
    case Try => 5
    case Check(_, _) => 4
    case TryCheck => 4
    case TryBusy => 1
    case Ending(_, _) => 1
    case Leaving => 1
    case Sleeping(_) => 1
    case Outside => 0
  }

  function Rank(s: State): (r: nat) { Sum(Weight, s.pcs) }

  lemma OnlyMoves(s: State, t: nat)
    requires CanStep(s, t, Go)
    ensures |Step(s, t, Go).pcs| == |s.pcs| && Step(s, t, Go).pcs == s.pcs[t := Step(s, t, Go).pcs[t]]
  {
    if HoldsM(s.pcs[t]) {
      OnlyMovesInside(s, t);
    } else {
      OnlyMovesOutside(s, t);
    }
    hide Step, CanStep;
  }

  lemma OnlyMovesInside(s: State, t: nat)
    requires CanStep(s, t, Go) && HoldsM(s.pcs[t])
    ensures |Step(s, t, Go).pcs| == |s.pcs| && Step(s, t, Go).pcs == s.pcs[t := Step(s, t, Go).pcs[t]]
  {
    hide NoSleeper;
  }

  lemma OnlyMovesOutside(s: State, t: nat)
    requires CanStep(s, t, Go) && !HoldsM(s.pcs[t])
    ensures |Step(s, t, Go).pcs| == |s.pcs| && Step(s, t, Go).pcs == s.pcs[t := Step(s, t, Go).pcs[t]]
  {
    hide NoSleeper, Acquired, Decremented, Again, Tested;
  }

  lemma LighterPlace(s: State, t: nat)
    requires CanStep(s, t, Go)
    ensures |Step(s, t, Go).pcs| == |s.pcs| && Weight(Step(s, t, Go).pcs[t]) < Weight(s.pcs[t])
  {
    if HoldsM(s.pcs[t]) {
      LighterInside(s, t);
    } else {
      LighterOutside(s, t);
    }
    hide Step, Weight, CanStep;
  }

  lemma LighterInside(s: State, t: nat)
    requires CanStep(s, t, Go) && HoldsM(s.pcs[t])
    ensures |Step(s, t, Go).pcs| == |s.pcs| && Weight(Step(s, t, Go).pcs[t]) < Weight(s.pcs[t])
  {
    hide NoSleeper;
  }

  lemma LighterOutside(s: State, t: nat)
    requires CanStep(s, t, Go) && !HoldsM(s.pcs[t])
    ensures |Step(s, t, Go).pcs| == |s.pcs| && Weight(Step(s, t, Go).pcs[t]) < Weight(s.pcs[t])
  {
    hide NoSleeper, Acquired, Decremented, Again, Tested;
  }

  lemma NotifierWeighsMore(s: State, t: nat, u: nat, late: bool)
    requires CanStep(s, t, GoNotify(u, late))
    ensures u != t
    ensures Weight(Woken(Notified(s.pcs[u].mode, late))) + Weight(Outside) < Weight(s.pcs[u]) + Weight(s.pcs[t])
  {
  }

  lemma ProgressLowersRank(s: State, t: nat, a: Action)
    requires CanStep(s, t, a) && IsProgress(a)
    ensures Rank(Step(s, t, a)) < Rank(s)
  {
    hide Weight;
    if a.GoNotify? {
      var awake := Woken(Notified(s.pcs[a.u].mode, a.late));
      NotifierWeighsMore(s, t, a.u, a.late);
      SumUpdate(Weight, s.pcs, a.u, awake);
      SumUpdate(Weight, s.pcs[a.u := awake], t, Outside);
    } else {
      OnlyMoves(s, t);
      LighterPlace(s, t);
      hide Step;
      SumUpdate(Weight, s.pcs, t, Step(s, t, a).pcs[t]);
    }
  }

  /** With no new calls, and no waits that end by themselves, every run is soon over. */
  lemma RunsEnd(states: seq<State>, moves: seq<Move<Action>>)
    requires IsRun(IsStep, states, moves) && forall i :: 0 <= i < |moves| ==> IsProgress(moves[i].a)
    ensures |moves| + Rank(states[|moves|]) <= Rank(states[0])
  {
    hide Step, CanStep, Rank, IsProgress;
    forall s, m, s' | IsStep(s, m, s') && IsProgress(m.a) ensures Rank(s') < Rank(s) {
      ProgressLowersRank(s, m.t, m.a);
    }
    ProgressEnds(IsStep, IsProgress, Rank, states, moves);
  }

  /** And where it is over, threads still wait only if another has the lock. */
  lemma AtRest(s: State)
    requires Inv(s) && forall t, a :: IsProgress(a) ==> !CanStep(s, t, a)
    ensures |s.depth| == |s.pcs|
    ensures forall u :: 0 <= u < |s.pcs| ==> s.pcs[u].Outside? || s.pcs[u].Sleeping?
    ensures (exists u :: 0 <= u < |s.pcs| && s.pcs[u].Sleeping?) ==> exists t :: 0 <= t < |s.depth| && Has(s, t)
  {
    forall u | 0 <= u < |s.pcs| ensures s.pcs[u].Outside? || s.pcs[u].Sleeping? {
      RestPlace(s, u);
    }
    if exists u :: 0 <= u < |s.pcs| && s.pcs[u].Sleeping? {
      hide Inv, CanStep, IsProgress;
      var u :| 0 <= u < |s.pcs| && s.pcs[u].Sleeping?;
      var t, a := NoDeadlock(s, u);
    }
  }

  lemma RestPlace(s: State, u: nat)
    requires Inv(s) && u < |s.pcs| && forall t, a :: IsProgress(a) ==> !CanStep(s, t, a)
    ensures s.pcs[u].Outside? || s.pcs[u].Sleeping?
  {
    if !s.pcs[u].Outside? && !s.pcs[u].Sleeping? {
      var t, a := OwnStep(s, u);
    }
  }
}
