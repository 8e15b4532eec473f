/**
 __shared_weak_count (libcxx/src/memory.cpp, libcxx/include/memory): the strong and the
 weak count of one control block, under interleaved steps of any number of threads.  A
 step is one atomic access or one callback.  Each thread uses only references it holds:
 it copies, releases and locks them, and may hand them to another thread.
 */
module SharedCount {
  import opened Interleaving

  /** Where a thread is inside a call. */
  datatype Pc =
    | Idle
    | OnZero             // its release made the strong count -1: about to call __on_zero_shared
    | DropWeak           // about to release the weak reference of all strong ones
    | OnZeroWeak         // its release made the weak count -1: about to call __on_zero_shared_weak
    | Locking(v: int)    // lock: about to compare the strong count with `v` and exchange

  /** A thread, with the strong and the weak references it holds. */
  datatype Thread = Thread(pc: Pc, strong: nat, weak: nat)

  /** The counts are one less than the references they stand for; the others count callbacks. */
  datatype State = State(shared: int, weak: int, threads: seq<Thread>, zeroShared: nat, zeroWeak: nat)

  datatype Action =
    | AddShared | AddWeak | ReleaseShared | ReleaseWeak
    | Lock                 // the load that starts lock
    | Exchange(fails: bool) // the compare-exchange of lock, which may fail for no reason
    | Go                   // the next step of a release
    | GiveStrong(u: nat) | GiveWeak(u: nat)

  predicate CanStep(s: State, t: nat, a: Action) {
    t < |s.threads| &&
    var th := s.threads[t];
    match a
    case AddShared => th.pc.Idle? && th.strong > 0
    case AddWeak => th.pc.Idle? && (th.strong > 0 || th.weak > 0)
    case ReleaseShared => th.pc.Idle? && th.strong > 0
    case ReleaseWeak => th.pc.Idle? && th.weak > 0
    case Lock => th.pc.Idle? && th.weak > 0
    case Exchange(_) => th.pc.Locking?
    case Go => th.pc.OnZero? || th.pc.DropWeak? || th.pc.OnZeroWeak?
    case GiveStrong(u) => th.pc.Idle? && th.strong > 0 && u < |s.threads| && u != t
    case GiveWeak(u) => th.pc.Idle? && th.weak > 0 && u < |s.threads| && u != t
  }

  function Put(s: State, t: nat, th: Thread): (r: State)
    requires t < |s.threads|
  {
    s.(threads := s.threads[t := th])
  }

  /** __release_weak: the decrement, and whether it was the last reference. */
  function WeakDropped(s: State, t: nat, th: Thread): (r: State)
    requires t < |s.threads|
  {
    Put(s, t, th.(pc := if s.weak - 1 == -1 then OnZeroWeak else Idle)).(weak := s.weak - 1)
  }

  /** The loop of lock, once a value has been loaded: it gives up on -1. */
  function Tried(s: State, t: nat, v: int): (r: State)
    requires t < |s.threads|
  {
    Put(s, t, s.threads[t].(pc := if v == -1 then Idle else Locking(v)))
  }

  function Step(s: State, t: nat, a: Action): (r: State)
    requires CanStep(s, t, a)
  {
    var th := s.threads[t];
    match a
    case AddShared => Put(s, t, th.(strong := th.strong + 1)).(shared := s.shared + 1)
    case AddWeak => Put(s, t, th.(weak := th.weak + 1)).(weak := s.weak + 1)
    case ReleaseShared =>
      var next := if s.shared - 1 == -1 then OnZero else Idle;
      Put(s, t, th.(strong := th.strong - 1, pc := next)).(shared := s.shared - 1)
    case ReleaseWeak => WeakDropped(s, t, th.(weak := th.weak - 1))
    case Lock => Tried(s, t, s.shared)
    case Exchange(fails) =>
      if s.shared == th.pc.v && !fails then Put(s, t, th.(pc := Idle, strong := th.strong + 1)).(shared := th.pc.v + 1)
      else Tried(s, t, s.shared)
    case Go =>
      if th.pc.OnZero? then Put(s, t, th.(pc := DropWeak)).(zeroShared := s.zeroShared + 1)
      else if th.pc.DropWeak? then WeakDropped(s, t, th)
      else Put(s, t, th.(pc := Idle)).(zeroWeak := s.zeroWeak + 1)
    case GiveStrong(u) =>
      Put(Put(s, t, th.(strong := th.strong - 1)), u, s.threads[u].(strong := s.threads[u].strong + 1))
    case GiveWeak(u) =>
      Put(Put(s, t, th.(weak := th.weak - 1)), u, s.threads[u].(weak := s.threads[u].weak + 1))
  }

  // -- the invariant, in numbers

  function Strong(th: Thread): (r: nat) { th.strong }

  function Weak(th: Thread): (r: nat) { th.weak }

  function AtZero(th: Thread): (r: nat) { if th.pc.OnZero? then 1 else 0 }

  function AtDrop(th: Thread): (r: nat) { if th.pc.DropWeak? then 1 else 0 }

  function AtZeroWeak(th: Thread): (r: nat) { if th.pc.OnZeroWeak? then 1 else 0 }

  function Positive(b: bool): (r: nat) { if b then 1 else 0 }

  /** A thread in lock keeps the weak reference it locks, and never expects -1. */
  ghost predicate LockersOk(s: State) {
    forall t :: 0 <= t < |s.threads| && s.threads[t].pc.Locking? ==> s.threads[t].weak > 0 && s.threads[t].pc.v != -1
  }

  ghost predicate Inv(s: State) {
    && s.shared >= -1 && s.weak >= -1
    // every strong reference is held by some thread
    && s.shared + 1 == Sum(Strong, s.threads)
    // every weak reference is held by some thread, but the one that stands for the strong ones
    && s.weak + 1 == Sum(Weak, s.threads) + Positive(s.shared >= 0) + Sum(AtZero, s.threads) + Sum(AtDrop, s.threads)
    // the strong references are alive, or being given up, or __on_zero_shared has been called
    && Positive(s.shared >= 0) + Sum(AtZero, s.threads) + s.zeroShared == 1
    && Sum(AtDrop, s.threads) <= s.zeroShared
    // and the same for the weak ones
    && Positive(s.weak >= 0) + Sum(AtZeroWeak, s.threads) + s.zeroWeak == 1
    && LockersOk(s)
  }

  /** A new control block: its creator has the only reference. */
  predicate Initial(s: State) {
    && s.shared == 0 && s.weak == 0 && s.zeroShared == 0 && s.zeroWeak == 0 && |s.threads| > 0
    && s.threads[0] == Thread(Idle, 1, 0)
    && forall t :: 0 < t < |s.threads| ==> s.threads[t] == Thread(Idle, 0, 0)
  }

  lemma {:induction false} SumZero(measure: Thread -> nat, ths: seq<Thread>)
    requires forall t :: 0 <= t < |ths| ==> measure(ths[t]) == 0
    ensures Sum(measure, ths) == 0
    decreases |ths|
  {
    if ths != [] {
      SumZero(measure, ths[1..]);
    }
  }

  lemma InitialInv(s: State)
    requires Initial(s)
    ensures Inv(s)
  {
    var rest := s.threads[1..];
    SumZero(Strong, rest);
    SumZero(Weak, rest);
    SumZero(AtZero, rest);
    SumZero(AtDrop, rest);
    SumZero(AtZeroWeak, rest);
  }

  /** What one thread holds is part of what all hold. */
  lemma {:induction false} SumAtLeast(measure: Thread -> nat, ths: seq<Thread>, t: nat)
    requires t < |ths|
    ensures measure(ths[t]) <= Sum(measure, ths)
    decreases |ths|
  {
    if t > 0 {
      SumAtLeast(measure, ths[1..], t - 1);
    }
  }

  lemma Sums(ths: seq<Thread>, t: nat, th: Thread)
    requires t < |ths|
    ensures Sum(Strong, ths[t := th]) + ths[t].strong == Sum(Strong, ths) + th.strong
    ensures Sum(Weak, ths[t := th]) + ths[t].weak == Sum(Weak, ths) + th.weak
    ensures Sum(AtZero, ths[t := th]) + AtZero(ths[t]) == Sum(AtZero, ths) + AtZero(th)
    ensures Sum(AtDrop, ths[t := th]) + AtDrop(ths[t]) == Sum(AtDrop, ths) + AtDrop(th)
    ensures Sum(AtZeroWeak, ths[t := th]) + AtZeroWeak(ths[t]) == Sum(AtZeroWeak, ths) + AtZeroWeak(th)
  {
    SumUpdate(Strong, ths, t, th);
    SumUpdate(Weak, ths, t, th);
    SumUpdate(AtZero, ths, t, th);
    SumUpdate(AtDrop, ths, t, th);
    SumUpdate(AtZeroWeak, ths, t, th);
  }

  lemma Parts(s: State, t: nat)
    requires t < |s.threads|
    ensures s.threads[t].strong <= Sum(Strong, s.threads) && s.threads[t].weak <= Sum(Weak, s.threads)
    ensures AtZero(s.threads[t]) <= Sum(AtZero, s.threads) && AtDrop(s.threads[t]) <= Sum(AtDrop, s.threads)
    ensures AtZeroWeak(s.threads[t]) <= Sum(AtZeroWeak, s.threads)
  {
    SumAtLeast(Strong, s.threads, t);
    SumAtLeast(Weak, s.threads, t);
    SumAtLeast(AtZero, s.threads, t);
    SumAtLeast(AtDrop, s.threads, t);
    SumAtLeast(AtZeroWeak, s.threads, t);
  }

  predicate Gives(a: Action) { a.GiveStrong? || a.GiveWeak? }

  lemma StepCounts(s: State, t: nat, a: Action)
    requires Inv(s) && CanStep(s, t, a) && !Gives(a)
    ensures Inv(Step(s, t, a))
  {
    var s' := Step(s, t, a);
    Parts(s, t);
    Sums(s.threads, t, s'.threads[t]);
    assert s'.threads == s.threads[t := s'.threads[t]];
    StepLockers(s, t, a);
    hide Sum, LockersOk;
  }

  lemma StepLockers(s: State, t: nat, a: Action)
    requires LockersOk(s) && CanStep(s, t, a)
    ensures LockersOk(Step(s, t, a))
  {
  }

  /** Handing a reference over changes no sum. */
  lemma GiveSums(ths: seq<Thread>, t: nat, th: Thread, u: nat, uh: Thread)
    requires t < |ths| && u < |ths| && t != u && th.pc == ths[t].pc && uh.pc == ths[u].pc
    requires th.strong + uh.strong == ths[t].strong + ths[u].strong && th.weak + uh.weak == ths[t].weak + ths[u].weak
    ensures var ths' := ths[t := th][u := uh];
            && Sum(Strong, ths') == Sum(Strong, ths) && Sum(Weak, ths') == Sum(Weak, ths)
            && Sum(AtZero, ths') == Sum(AtZero, ths) && Sum(AtDrop, ths') == Sum(AtDrop, ths)
            && Sum(AtZeroWeak, ths') == Sum(AtZeroWeak, ths)
  {
    Sums(ths, t, th);
    Sums(ths[t := th], u, uh);
    hide Sum;
  }

  lemma GiveCounts(s: State, t: nat, a: Action)
    requires Inv(s) && CanStep(s, t, a) && Gives(a)
    ensures Inv(Step(s, t, a))
  {
    var s' := Step(s, t, a);
    GiveSums(s.threads, t, s'.threads[t], a.u, s'.threads[a.u]);
    assert s'.threads == s.threads[t := s'.threads[t]][a.u := s'.threads[a.u]];
    StepLockers(s, t, a);
    hide Sum, LockersOk;
  }

  lemma StepInv(s: State, t: nat, a: Action)
    requires Inv(s) && CanStep(s, t, a)
    ensures Inv(Step(s, t, a))
  {
    if Gives(a) {
      GiveCounts(s, t, a);
    } else {
      StepCounts(s, t, a);
    }
  }

  // -- runs

  ghost predicate IsStep(s: State, m: Move<Action>, s': State) {
    CanStep(s, m.t, m.a) && s' == Step(s, m.t, m.a)
  }

  lemma RunInv(states: seq<State>, moves: seq<Move<Action>>, i: nat)
    requires IsRun(IsStep, states, moves) && Initial(states[0]) && i < |states|
    ensures Inv(states[i])
  {
    InitialInv(states[0]);
    hide Inv, Step, CanStep;
    forall s, m, s' | IsStep(s, m, s') && Inv(s) ensures Inv(s') {
      StepInv(s, m.t, m.a);
    }
    RunKeeps(IsStep, Inv, states, moves, i);
  }

  /**
   In every state of every run: each callback has been called at most once;
   __on_zero_shared only when no thread holds a strong reference;
   __on_zero_shared_weak only after it, when none holds any reference; and what
   use_count reports is the number of strong references.
   */
  lemma Promises(states: seq<State>, moves: seq<Move<Action>>, i: nat)
    requires IsRun(IsStep, states, moves) && Initial(states[0]) && i < |states|
    ensures var s := states[i];
            && s.zeroShared <= 1 && s.zeroWeak <= 1
            && (s.zeroShared == 1 ==> forall t :: 0 <= t < |s.threads| ==> s.threads[t].strong == 0)
            && (s.zeroWeak == 1 ==> s.zeroShared == 1 && forall t :: 0 <= t < |s.threads| ==>
                                      s.threads[t].strong == 0 && s.threads[t].weak == 0 && !InUse(s.threads[t].pc))
            && s.shared + 1 == Sum(Strong, s.threads)
  {
    var s := states[i];
    RunInv(states, moves, i);
    hide IsRun;
    forall t | 0 <= t < |s.threads|
      ensures s.zeroShared == 1 ==> s.threads[t].strong == 0
      ensures s.zeroWeak == 1 ==> s.threads[t].strong == 0 && s.threads[t].weak == 0 && !InUse(s.threads[t].pc)
    {
      Parts(s, t);
      hide Sum;
    }
  }

  /** The thread still has to use the control block. */
  predicate InUse(p: Pc) { !p.Idle? }

  /** No step touches a control block that __on_zero_shared_weak has been called for. */
  lemma NeverTouchedAfter(s: State, t: nat, a: Action)
    requires Inv(s) && s.zeroWeak == 1
    ensures !CanStep(s, t, a)
  {
    if t < |s.threads| {
      Parts(s, t);
      hide Sum;
    }
  }

  /** Once the strong count is -1 it stays so: no copy and no lock brings the object back. */
  lemma ZeroStays(s: State, t: nat, a: Action)
    requires Inv(s) && CanStep(s, t, a) && s.shared == -1
    ensures var s' := Step(s, t, a);
            s'.shared == -1 && Sum(Strong, s'.threads) == 0 && (a.Exchange? ==> s'.threads[t].strong == 0)
  {
    StepInv(s, t, a);
    Parts(s, t);
    hide Sum;
  }

  /** When lock succeeds, the object was alive until then and is alive after. */
  lemma LockSucceedsOnlyAlive(s: State, t: nat, fails: bool)
    requires Inv(s) && CanStep(s, t, Exchange(fails))
    requires Step(s, t, Exchange(fails)).threads[t].strong == s.threads[t].strong + 1
    ensures s.shared >= 0 && s.zeroShared == 0 && Step(s, t, Exchange(fails)).zeroShared == 0
  {
    hide Sum;
  }

  /**
   What an exchange does: it takes a reference exactly when the count is as expected and
   it does not fail for no reason; it gives up exactly when the object is gone; and it
   goes round again only if it failed for no reason or another thread has changed the count.
   */
  lemma ExchangeOutcome(s: State, t: nat, fails: bool)
    requires Inv(s) && CanStep(s, t, Exchange(fails))
    ensures var th, th' := s.threads[t], Step(s, t, Exchange(fails)).threads[t];
            && (th'.strong > th.strong <==> !fails && s.shared == th.pc.v)
            && (th'.pc.Idle? && th'.strong == th.strong <==> s.zeroShared == 1 || Sum(AtZero, s.threads) == 1)
            && (th'.pc.Locking? ==> fails || s.shared != th.pc.v)
  {
    hide Sum;
  }

  /** The load that starts lock: it gives up at once on -1, and otherwise expects what it has loaded. */
  lemma LockOutcome(s: State, t: nat)
    requires CanStep(s, t, Lock)
    ensures Step(s, t, Lock) == s.(threads := s.threads[t := Step(s, t, Lock).threads[t]])
    ensures Step(s, t, Lock).threads[t] ==
            Thread(if s.shared == -1 then Idle else Locking(s.shared), s.threads[t].strong, s.threads[t].weak)
  {
  }

  // -- the counts, by the calls of a run

  predicate Copies(s: State, m: Move<Action>) { m.a == AddShared }

  predicate Releases(s: State, m: Move<Action>) { m.a == ReleaseShared }

  /** An exchange that finds what it expects, and does not fail. */
  predicate Locks(s: State, m: Move<Action>) {
    m.a == Exchange(false) && m.t < |s.threads| && s.threads[m.t].pc == Locking(s.shared)
  }

  predicate CopiesWeak(s: State, m: Move<Action>) { m.a == AddWeak }

  predicate ReleasesWeak(s: State, m: Move<Action>) { m.a == ReleaseWeak }

  /** How often something has happened in the first `i` moves of a run. */
  ghost function Times(happens: (State, Move<Action>) -> bool, states: seq<State>, moves: seq<Move<Action>>,
                       i: nat): (n: nat)
    requires i <= |moves| && i <= |states|
  {
    if i == 0 then 0
    else Times(happens, states, moves, i - 1) + if happens(states[i - 1], moves[i - 1]) then 1 else 0
  }

  /** The counts go from one state to another as the move says. */
  ghost predicate Delta(s: State, m: Move<Action>, s': State) {
    && s'.shared == s.shared + Positive(Copies(s, m)) + Positive(Locks(s, m)) - Positive(Releases(s, m))
    && s'.weak + s'.zeroShared - Sum(AtDrop, s'.threads) ==
       s.weak + s.zeroShared - Sum(AtDrop, s.threads) + Positive(CopiesWeak(s, m)) - Positive(ReleasesWeak(s, m))
  }

  /** What a step does to the counts. */
  lemma StepDelta(s: State, m: Move<Action>)
    requires Inv(s) && CanStep(s, m.t, m.a)
    ensures Delta(s, m, Step(s, m.t, m.a))
  {
    hide Step, Inv, Delta;
    if Gives(m.a) {
      GiveDelta(s, m);
    } else {
      CallDelta(s, m);
    }
  }

  lemma GiveDelta(s: State, m: Move<Action>)
    requires CanStep(s, m.t, m.a) && Gives(m.a)
    ensures Delta(s, m, Step(s, m.t, m.a))
  {
    hide Sum;
    var s' := Step(s, m.t, m.a);
    GiveSums(s.threads, m.t, s'.threads[m.t], m.a.u, s'.threads[m.a.u]);
    assert s'.threads == s.threads[m.t := s'.threads[m.t]][m.a.u := s'.threads[m.a.u]];
  }

  lemma CallDelta(s: State, m: Move<Action>)
    requires Inv(s) && CanStep(s, m.t, m.a) && !Gives(m.a)
    ensures Delta(s, m, Step(s, m.t, m.a))
  {
    hide Sum, Inv;
    var s' := Step(s, m.t, m.a);
    SumUpdate(AtDrop, s.threads, m.t, s'.threads[m.t]);
    assert s'.threads == s.threads[m.t := s'.threads[m.t]];
  }

  /** Who holds what: a call changes the references of its thread only, but where it hands one over. */
  lemma StepHolders(s: State, m: Move<Action>, u: nat)
    requires CanStep(s, m.t, m.a) && u < |s.threads|
    ensures var s' := Step(s, m.t, m.a);
            && |s'.threads| == |s.threads|
            && (u == m.t ==>
                  && s'.threads[u].strong == s.threads[u].strong + Positive(Copies(s, m)) + Positive(Locks(s, m))
                                             - Positive(Releases(s, m)) - Positive(m.a.GiveStrong?)
                  && s'.threads[u].weak == s.threads[u].weak + Positive(CopiesWeak(s, m))
                                           - Positive(ReleasesWeak(s, m)) - Positive(m.a.GiveWeak?))
            && (u != m.t ==>
                  && s'.threads[u].pc == s.threads[u].pc
                  && s'.threads[u].strong == s.threads[u].strong + Positive(m.a == GiveStrong(u))
                  && s'.threads[u].weak == s.threads[u].weak + Positive(m.a == GiveWeak(u)))
  {
  }

  /**
   In every state of every run the strong count is the copies and successful locks less
   the releases; and the weak one is the same for weak references, less the one that the
   last strong reference gives up after __on_zero_shared.
   */
  lemma {:induction false} CountsAreCalls(states: seq<State>, moves: seq<Move<Action>>, i: nat)
    requires IsRun(IsStep, states, moves) && Initial(states[0]) && i < |states|
    ensures states[i].shared ==
            Times(Copies, states, moves, i) + Times(Locks, states, moves, i) - Times(Releases, states, moves, i)
    ensures states[i].weak ==
            Times(CopiesWeak, states, moves, i) - Times(ReleasesWeak, states, moves, i)
            - (states[i].zeroShared - Sum(AtDrop, states[i].threads))
    decreases i
  {
    hide Inv, Step, CanStep, Sum, Initial, Copies, Locks, Releases, CopiesWeak, ReleasesWeak;
    if i == 0 {
      StartCounts(states[0]);
    } else {
      CountsAreCalls(states, moves, i - 1);
      RunInv(states, moves, i - 1);
      assert IsStep(states[i - 1], moves[i - 1], states[i]);
      StepDelta(states[i - 1], moves[i - 1]);
    }
  }

  lemma StartCounts(s: State)
    requires Initial(s)
    ensures s.shared == 0 && s.weak == 0 && s.zeroShared == 0 && Sum(AtDrop, s.threads) == 0
  {
    SumZero(AtDrop, s.threads);
  }

  /**
   With no call under way, __on_zero_shared has been called exactly if there have been one
   more releases than copies and successful locks, and __on_zero_shared_weak exactly if
   besides every weak copy has been released.
   */
  lemma AtRestByCalls(states: seq<State>, moves: seq<Move<Action>>, i: nat)
    requires IsRun(IsStep, states, moves) && Initial(states[0]) && i < |states|
    requires forall t :: 0 <= t < |states[i].threads| ==> states[i].threads[t].pc.Idle?
    ensures states[i].zeroShared == 1 <==>
            Times(Releases, states, moves, i) == Times(Copies, states, moves, i) + Times(Locks, states, moves, i) + 1
    ensures states[i].zeroWeak == 1 <==>
            states[i].zeroShared == 1 && Times(ReleasesWeak, states, moves, i) == Times(CopiesWeak, states, moves, i)
  {
    RunInv(states, moves, i);
    CountsAreCalls(states, moves, i);
    SumZero(AtZero, states[i].threads);
    SumZero(AtDrop, states[i].threads);
    SumZero(AtZeroWeak, states[i].threads);
    hide Sum, Times, IsRun, LockersOk;
  }

  /** With no call under way, the callbacks have been called exactly when the references are gone. */
  lemma AtRest(s: State)
    requires Inv(s) && forall t :: 0 <= t < |s.threads| ==> s.threads[t].pc.Idle?
    ensures s.zeroShared == 1 <==> forall t :: 0 <= t < |s.threads| ==> s.threads[t].strong == 0
    ensures s.zeroWeak == 1 <==> forall t :: 0 <= t < |s.threads| ==> s.threads[t].strong == 0 && s.threads[t].weak == 0
  {
    SumZero(AtZero, s.threads);
    SumZero(AtDrop, s.threads);
    SumZero(AtZeroWeak, s.threads);
    forall t | 0 <= t < |s.threads|
      ensures s.threads[t].strong <= Sum(Strong, s.threads) && s.threads[t].weak <= Sum(Weak, s.threads)
    {
      Parts(s, t);
    }
    if forall t :: 0 <= t < |s.threads| ==> s.threads[t].strong == 0 {
      SumZero(Strong, s.threads);
    }
    if forall t :: 0 <= t < |s.threads| ==> s.threads[t].weak == 0 {
      SumZero(Weak, s.threads);
    }
    hide Sum;
  }
}
