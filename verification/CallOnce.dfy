/**
 call_once and __call_once (libcxx/include/mutex, libcxx/src/mutex.cpp) as interleaved
 steps of any number of threads on any number of flags.  All calls share one mutex and
 one condition variable.  A step is one access to a flag, to the mutex or to the
 condition variable; `func` is one step that returns or throws.
 */
module CallOnce {
  import opened Interleaving

  /** A flag: 0, 1 or ~0.  `runner` records who set it to 1; no step looks at it. */
  datatype Flag = Fresh | Busy(runner: nat) | Done

  /** Where a thread is in a call on flag `f`. */
  datatype Pc =
    | Idle
    | Fast(f: nat)                 // call_once: about to load the flag, without the mutex
    | WantLock(f: nat)             // about to lock the mutex
    | Checking(f: nat)             // holds the mutex, about to test the flag against 1
    | Sleeping(f: nat)             // in the wait, the mutex released
    | Woken(f: nat)                // out of the wait, about to lock the mutex again
    | Testing(f: nat)              // the flag was not 1: about to test it against 0
    | Claiming(f: nat)             // about to store 1
    | Claimed(f: nat)              // about to unlock before func
    | Running(f: nat)              // inside func
    | WantStore(f: nat, ok: bool)  // func returned or threw: about to lock
    | Storing(f: nat, ok: bool)    // about to store ~0 or 0
    | Stored(f: nat, ok: bool)     // about to unlock
    | Notifying(f: nat, ok: bool)  // about to broadcast
    | Leaving(f: nat)              // somebody else was done: about to unlock
    | Returned(f: nat)
    | Thrown(f: nat)

  /** `completions` counts, for each flag, the times func returned. */
  datatype State = State(flags: seq<Flag>, owner: int, pcs: seq<Pc>, completions: seq<nat>)

  const NOBODY := -1

  datatype Action =
    | Call(on: nat)   // a thread outside any call starts one
    | Go              // the thread's next step
    | Throw           // func throws
    | Spurious        // a wait ends without a broadcast

  predicate Outside(p: Pc) { p.Idle? || p.Returned? || p.Thrown? }

  predicate Holds(p: Pc) {
    p.Checking? || p.Testing? || p.Claiming? || p.Claimed? || p.Storing? || p.Stored? || p.Leaving?
  }

  /** The thread has stored 1 in the flag and not yet stored what becomes of it. */
  predicate Runs(p: Pc, f: nat) {
    (p.Claimed? || p.Running? || p.WantStore? || p.Storing?) && p.f == f
  }

  /** The thread has stored the outcome and still has to broadcast. */
  predicate WillNotify(p: Pc, f: nat) { (p.Stored? || p.Notifying?) && p.f == f }

  /** The call returned, or will return without running func or throwing. */
  predicate Succeeds(p: Pc) {
    p.Returned? || p.Leaving? || (p.Stored? && p.ok) || (p.Notifying? && p.ok)
  }

  predicate Wants(p: Pc) { p.WantLock? || p.Woken? || p.WantStore? }

  predicate CanStep(s: State, t: nat, a: Action) {
    t < |s.pcs| &&
    var p := s.pcs[t];
    match a
    case Call(on) => Outside(p) && on < |s.flags|
    case Go => !Outside(p) && !p.Sleeping? && (Wants(p) ==> s.owner == NOBODY)
    case Throw => p.Running?
    case Spurious => p.Sleeping?
  }

  function Moved(s: State, t: nat, p: Pc): (r: State)
    requires t < |s.pcs|
  {
    s.(pcs := s.pcs[t := p])
  }

  function Locked(s: State, t: nat, p: Pc): (r: State)
    requires t < |s.pcs|
  {
    Moved(s, t, p).(owner := t)
  }

  function Unlocked(s: State, t: nat, p: Pc): (r: State)
    requires t < |s.pcs|
  {
    Moved(s, t, p).(owner := NOBODY)
  }

  function Wake(p: Pc): (r: Pc) { if p.Sleeping? then Woken(p.f) else p }

  /** pthread_cond_broadcast: every wait ends, whatever flag it is for. */
  function Broadcast(pcs: seq<Pc>): (out: seq<Pc>)
    ensures |out| == |pcs|
  {
    seq(|pcs|, i requires 0 <= i < |pcs| => Wake(pcs[i]))
  }

  predicate WellFormed(s: State) {
    && |s.completions| == |s.flags|
    && forall t :: 0 <= t < |s.pcs| && !s.pcs[t].Idle? ==> s.pcs[t].f < |s.flags|
  }

  function Step(s: State, t: nat, a: Action): (r: State)
    requires WellFormed(s) && CanStep(s, t, a)
  {
    var p := s.pcs[t];
    match a
    case Call(on) => Moved(s, t, Fast(on))
    case Spurious => Moved(s, t, Woken(p.f))
    case Throw => Moved(s, t, WantStore(p.f, false))
    case Go =>
      match p
      case Fast(f) => Moved(s, t, if s.flags[f].Done? then Returned(f) else WantLock(f))
      case WantLock(f) => Locked(s, t, Checking(f))
      case Woken(f) => Locked(s, t, Checking(f))
      case Checking(f) => if s.flags[f].Busy? then Unlocked(s, t, Sleeping(f)) else Moved(s, t, Testing(f))
      case Testing(f) => Moved(s, t, if s.flags[f].Fresh? then Claiming(f) else Leaving(f))
      case Claiming(f) => Moved(s, t, Claimed(f)).(flags := s.flags[f := Busy(t)])
      case Claimed(f) => Unlocked(s, t, Running(f))
      case Running(f) => Moved(s, t, WantStore(f, true)).(completions := s.completions[f := s.completions[f] + 1])
      case WantStore(f, ok) => Locked(s, t, Storing(f, ok))
      case Storing(f, ok) => Moved(s, t, Stored(f, ok)).(flags := s.flags[f := if ok then Done else Fresh])
      case Stored(f, ok) => Unlocked(s, t, Notifying(f, ok))
      case Notifying(f, ok) => s.(pcs := Broadcast(s.pcs)[t := if ok then Returned(f) else Thrown(f)])
      case Leaving(f) => Unlocked(s, t, Returned(f))
      case _ => s
  }

  predicate Initial(s: State) {
    && |s.completions| == |s.flags| && s.owner == NOBODY
    && (forall t :: 0 <= t < |s.pcs| ==> s.pcs[t] == Idle)
    && (forall f :: 0 <= f < |s.flags| ==> s.flags[f] == Fresh && s.completions[f] == 0)
  }

  // -- the invariant

  /** What holds of thread `t`, given the flag its call is on. */
  predicate ThreadOk(s: State, t: nat)
    requires WellFormed(s) && t < |s.pcs|
  {
    var p := s.pcs[t];
    && (Holds(p) <==> s.owner == t)
    && (!p.Idle? ==>
          && (Runs(p, p.f) ==>
                s.flags[p.f] == Busy(t) &&
                s.completions[p.f] == if (p.WantStore? || p.Storing?) && p.ok then 1 else 0)
          && (p.Claiming? ==> s.flags[p.f] == Fresh)
          && (p.Testing? ==> !s.flags[p.f].Busy?)
          && (Succeeds(p) ==> s.flags[p.f] == Done))
  }

  predicate FlagOk(s: State, f: nat)
    requires WellFormed(s) && f < |s.flags|
  {
    match s.flags[f]
    case Fresh => s.completions[f] == 0
    case Busy(t) => t < |s.pcs| && Runs(s.pcs[t], f)
    case Done => s.completions[f] == 1
  }

  ghost predicate SomeoneWillNotify(s: State, f: nat) {
    exists u :: 0 <= u < |s.pcs| && WillNotify(s.pcs[u], f)
  }

  /** A sleeping thread will be woken: its flag is being run, or an outcome is about to be broadcast. */
  ghost predicate SleepOk(s: State, t: nat)
    requires WellFormed(s) && t < |s.pcs|
  {
    s.pcs[t].Sleeping? ==> s.flags[s.pcs[t].f].Busy? || SomeoneWillNotify(s, s.pcs[t].f)
  }

  ghost predicate Inv(s: State) {
    && WellFormed(s)
    && NOBODY <= s.owner < |s.pcs|
    && (forall t :: 0 <= t < |s.pcs| ==> ThreadOk(s, t))
    && (forall f :: 0 <= f < |s.flags| ==> FlagOk(s, f))
    && (forall t :: 0 <= t < |s.pcs| ==> SleepOk(s, t))
  }

  lemma InitialInv(s: State)
    requires Initial(s)
    ensures Inv(s)
  {
  }

  lemma StepWellFormed(s: State, t: nat, a: Action)
    requires WellFormed(s) && CanStep(s, t, a)
    ensures WellFormed(Step(s, t, a))
  {
  }

  lemma StepItself(s: State, t: nat, a: Action)
    requires Inv(s) && CanStep(s, t, a)
    ensures WellFormed(Step(s, t, a)) && |Step(s, t, a).pcs| == |s.pcs| && ThreadOk(Step(s, t, a), t)
  {
    StepWellFormed(s, t, a);
    assert ThreadOk(s, t);
    if !s.pcs[t].Idle? {
      assert FlagOk(s, s.pcs[t].f);
    }
    hide FlagOk, SleepOk, WellFormed;
  }

  lemma StepOthers(s: State, t: nat, a: Action, u: nat)
    requires Inv(s) && CanStep(s, t, a) && u < |s.pcs| && u != t
    ensures WellFormed(Step(s, t, a)) && |Step(s, t, a).pcs| == |s.pcs| && ThreadOk(Step(s, t, a), u)
  {
    StepWellFormed(s, t, a);
    assert ThreadOk(s, u) && ThreadOk(s, t);
    if !s.pcs[t].Idle? {
      assert FlagOk(s, s.pcs[t].f);
    }
    hide FlagOk, SleepOk, WellFormed;
  }

  lemma StepFlags(s: State, t: nat, a: Action, f: nat)
    requires Inv(s) && CanStep(s, t, a) && f < |s.flags|
    ensures WellFormed(Step(s, t, a)) && |Step(s, t, a).flags| == |s.flags| && FlagOk(Step(s, t, a), f)
  {
    StepWellFormed(s, t, a);
    assert FlagOk(s, f) && ThreadOk(s, t);
  }

  lemma StepSleepers(s: State, t: nat, a: Action, u: nat)
    requires Inv(s) && CanStep(s, t, a) && u < |s.pcs|
    ensures WellFormed(Step(s, t, a)) && |Step(s, t, a).pcs| == |s.pcs| && SleepOk(Step(s, t, a), u)
  {
    StepWellFormed(s, t, a);
    assert ThreadOk(s, t) && SleepOk(s, u);
    var s', p := Step(s, t, a), s.pcs[t];
    if s'.pcs[u].Sleeping? {
      var f := s'.pcs[u].f;
      if a.Go? && p.Storing? && p.f == f {
        assert WillNotify(s'.pcs[t], f);
      } else if SomeoneWillNotify(s, f) {
        var v :| 0 <= v < |s.pcs| && WillNotify(s.pcs[v], f);
        assert WillNotify(s'.pcs[v], f);
      }
    }
  }

  lemma StepInv(s: State, t: nat, a: Action)
    requires Inv(s) && CanStep(s, t, a)
    ensures Inv(Step(s, t, a))
  {
    var s' := Step(s, t, a);
    StepWellFormed(s, t, a);
    StepOwner(s, t, a);
    forall u | 0 <= u < |s'.pcs| ensures ThreadOk(s', u) && SleepOk(s', u) {
      if u == t {
        StepItself(s, t, a);
      } else {
        StepOthers(s, t, a, u);
      }
      StepSleepers(s, t, a, u);
    }
    forall f | 0 <= f < |s'.flags| ensures FlagOk(s', f) {
      StepFlags(s, t, a, f);
    }
    hide Step, ThreadOk, SleepOk, FlagOk, WellFormed, CanStep;
  }

  lemma StepOwner(s: State, t: nat, a: Action)
    requires Inv(s) && CanStep(s, t, a)
    ensures NOBODY <= Step(s, t, a).owner < |s.pcs| == |Step(s, t, a).pcs| && |Step(s, t, a).flags| == |s.flags|
  {
    hide ThreadOk, FlagOk, SleepOk;
  }

  // -- runs

  ghost predicate IsStep(s: State, m: Move<Action>, s': State) {
    WellFormed(s) && CanStep(s, m.t, m.a) && s' == Step(s, m.t, m.a)
  }

  /** Every state of every run satisfies the invariant. */
  lemma RunInv(states: seq<State>, moves: seq<Move<Action>>, i: nat)
    requires IsRun(IsStep, states, moves) && Initial(states[0]) && i < |states|
    ensures Inv(states[i])
  {
    InitialInv(states[0]);
    hide Inv, Step, CanStep;
    forall s, m, s' | IsStep(s, m, s') && Inv(s) ensures Inv(s') {
      StepInv(s, m.t, m.a);
    }
    RunKeeps(IsStep, Inv, states, moves, i);
  }

  /**
   What call_once promises, in every state of every run: at most one thread is between
   claiming a flag and storing its outcome; func returned at most once; and whoever
   returned from call_once did so after func returned.
   */
  lemma Promises(states: seq<State>, moves: seq<Move<Action>>, i: nat)
    requires IsRun(IsStep, states, moves) && Initial(states[0]) && i < |states|
    ensures forall t, u, f | 0 <= t < |states[i].pcs| && 0 <= u < |states[i].pcs| ::
              Runs(states[i].pcs[t], f) && Runs(states[i].pcs[u], f) ==> t == u
    ensures forall f :: 0 <= f < |states[i].completions| ==> states[i].completions[f] <= 1
    ensures forall t :: 0 <= t < |states[i].pcs| && states[i].pcs[t].Returned? ==>
              states[i].pcs[t].f < |states[i].completions| && states[i].completions[states[i].pcs[t].f] == 1
  {
    RunInv(states, moves, i);
    AtMostOneRunner(states[i]);
    CompletedBeforeReturn(states[i]);
  }

  lemma AtMostOneRunner(s: State)
    requires Inv(s)
    ensures forall t, u, f :: 0 <= t < |s.pcs| && 0 <= u < |s.pcs| && Runs(s.pcs[t], f) && Runs(s.pcs[u], f) ==> t == u
  {
    hide FlagOk, SleepOk;
    forall t, u, f | 0 <= t < |s.pcs| && 0 <= u < |s.pcs| && Runs(s.pcs[t], f) && Runs(s.pcs[u], f) ensures t == u {
      assert ThreadOk(s, t) && ThreadOk(s, u);
    }
  }

  lemma CompletedBeforeReturn(s: State)
    requires Inv(s)
    ensures forall f :: 0 <= f < |s.completions| ==> s.completions[f] <= 1
    ensures forall t :: 0 <= t < |s.pcs| && s.pcs[t].Returned? ==>
              s.pcs[t].f < |s.completions| && s.completions[s.pcs[t].f] == 1
  {
    hide SleepOk;
    forall f | 0 <= f < |s.completions| ensures s.completions[f] <= 1 {
      assert FlagOk(s, f);
      if s.flags[f].Busy? {
        assert ThreadOk(s, s.flags[f].runner);
      }
    }
    forall t | 0 <= t < |s.pcs| && s.pcs[t].Returned?
      ensures s.pcs[t].f < |s.completions| && s.completions[s.pcs[t].f] == 1
    {
      assert ThreadOk(s, t) && FlagOk(s, s.pcs[t].f);
    }
  }

  /** A throw reopens the flag: once the outcome is stored, the flag is as it was at the start. */
  lemma ThrowReopens(s: State, t: nat)
    requires Inv(s) && CanStep(s, t, Go) && s.pcs[t].Storing? && !s.pcs[t].ok
    ensures var s' := Step(s, t, Go);
            s'.flags[s.pcs[t].f] == Fresh && s'.completions[s.pcs[t].f] == 0
  {
    assert ThreadOk(s, t);
  }

  /** Once func has returned and its outcome is stored, no step opens the flag again. */
  lemma DoneStays(s: State, t: nat, a: Action, f: nat)
    requires Inv(s) && CanStep(s, t, a) && f < |s.flags| && s.flags[f] == Done
    ensures |Step(s, t, a).flags| == |s.flags| && Step(s, t, a).flags[f] == Done
  {
    assert ThreadOk(s, t);
    hide SleepOk, FlagOk;
  }

  /** A wait ends by itself, or by the broadcast that every call ends with that has run func. */
  lemma WaitsEnd(s: State, t: nat, a: Action, u: nat)
    requires WellFormed(s) && CanStep(s, t, a) && u < |s.pcs| && s.pcs[u].Sleeping?
    requires (a == Spurious && u == t) || (a == Go && s.pcs[t].Notifying?)
    ensures |Step(s, t, a).pcs| == |s.pcs| && Step(s, t, a).pcs[u] == Woken(s.pcs[u].f)
  {
  }

  // -- how a call ends

  /** The thread has made `func` throw between two states of a run. */
  ghost predicate Threw(moves: seq<Move<Action>>, t: nat, b: nat, j: nat) {
    exists k :: b < k < j <= |moves| && moves[k] == Move(t, Throw)
  }

  /** And here `func` has returned. */
  ghost predicate Came(states: seq<State>, moves: seq<Move<Action>>, t: nat, b: nat, j: nat) {
    exists k :: b < k < j <= |moves| && RanThrough(states, moves, t, k)
  }

  predicate RanThrough(states: seq<State>, moves: seq<Move<Action>>, t: nat, k: nat) {
    k < |moves| && k < |states| && t < |states[k].pcs| && states[k].pcs[t].Running? && moves[k] == Move(t, Go)
  }

  /** Where a thread can be in or after a call on `f`, by what func has done in that call. */
  predicate AsFunc(p: Pc, f: nat, came: bool, threw: bool) {
    !p.Idle? && p.f == f && !(came && threw) &&
    if came || threw then
      if p.WantStore? || p.Storing? || p.Stored? || p.Notifying? then p.ok == came
      else if came then p.Returned? else p.Thrown?
    else !p.WantStore? && !p.Storing? && !p.Stored? && !p.Notifying? && !p.Thrown?
  }

  /** A step of the thread itself. */
  lemma StepAsFunc(s: State, t: nat, a: Action, f: nat, came: bool, threw: bool)
    requires WellFormed(s) && CanStep(s, t, a) && AsFunc(s.pcs[t], f, came, threw) && !Outside(s.pcs[t])
    ensures var s' := Step(s, t, a);
            && |s'.pcs| == |s.pcs|
            && AsFunc(s'.pcs[t], f, came || (s.pcs[t].Running? && a == Go), threw || a == Throw)
  {
  }

  /** Other threads can only wake it. */
  lemma OthersAsFunc(s: State, u: nat, a: Action, t: nat, f: nat, came: bool, threw: bool)
    requires WellFormed(s) && CanStep(s, u, a) && t < |s.pcs| && u != t && AsFunc(s.pcs[t], f, came, threw)
    ensures |Step(s, u, a).pcs| == |s.pcs| && AsFunc(Step(s, u, a).pcs[t], f, came, threw)
    ensures Outside(s.pcs[t]) ==> Step(s, u, a).pcs[t] == s.pcs[t]
  {
    hide WellFormed;
  }

  /**
   A call on `f` that begins with move `b`, up to a state `j`, before which it has not
   ended: if it has ended, it has thrown if func has thrown in it, and returned otherwise,
   whether func has returned in it or has not been run by it.
   */
  lemma {:induction false} EndsAsFunc(states: seq<State>, moves: seq<Move<Action>>, b: nat, j: nat, t: nat, f: nat)
    requires IsRun(IsStep, states, moves) && b < j < |states| && moves[b] == Move(t, Call(f))
    requires forall k :: b < k < j ==> t < |states[k].pcs| && !Outside(states[k].pcs[t])
    ensures t < |states[j].pcs|
    ensures AsFunc(states[j].pcs[t], f, Came(states, moves, t, b, j), Threw(moves, t, b, j))
    ensures Outside(states[j].pcs[t]) ==> states[j].pcs[t] == if Threw(moves, t, b, j) then Thrown(f) else Returned(f)
    decreases j
  {
    var s, m := states[j - 1], moves[j - 1];
    assert IsStep(s, m, states[j]);
    if j > b + 1 {
      EndsAsFunc(states, moves, b, j - 1, t, f);
      LastMove(states, moves, t, b, j);
      var came, threw := Came(states, moves, t, b, j - 1), Threw(moves, t, b, j - 1);
      hide Step, CanStep, WellFormed, Came, Threw, AsFunc;
      if m.t == t {
        StepAsFunc(s, t, m.a, f, came, threw);
      } else {
        OthersAsFunc(s, m.t, m.a, t, f, came, threw);
      }
    }
    EndPlaces(states[j].pcs[t], f, Came(states, moves, t, b, j), Threw(moves, t, b, j));
  }

  lemma LastMove(states: seq<State>, moves: seq<Move<Action>>, t: nat, b: nat, j: nat)
    requires b + 1 < j <= |moves| && j <= |states|
    ensures Came(states, moves, t, b, j) <==> Came(states, moves, t, b, j - 1) || RanThrough(states, moves, t, j - 1)
    ensures Threw(moves, t, b, j) <==> Threw(moves, t, b, j - 1) || moves[j - 1] == Move(t, Throw)
  {
  }

  lemma EndPlaces(p: Pc, f: nat, came: bool, threw: bool)
    requires AsFunc(p, f, came, threw)
    ensures Outside(p) ==> p == if threw then Thrown(f) else Returned(f)
  {
  }

  /** A call on a flag whose func has returned comes back with its first step, and changes nothing. */
  lemma ReturnsAtOnce(s: State, t: nat)
    requires WellFormed(s) && CanStep(s, t, Go) && s.pcs[t].Fast? && s.flags[s.pcs[t].f] == Done
    ensures Step(s, t, Go) == s.(pcs := s.pcs[t := Returned(s.pcs[t].f)])
  {
  }

  // -- progress

  /** The step is the thread's own, and not the start of a new call. */
  predicate IsProgress(a: Action) { a == Go || a == Throw }

  /** While any call is under way, some thread has a step to take: there is no deadlock. */
  lemma NoDeadlock(s: State) returns (t: nat)
    requires Inv(s) && exists u :: 0 <= u < |s.pcs| && !Outside(s.pcs[u])
    ensures CanStep(s, t, Go)
  {
    if s.owner != NOBODY {
      t := s.owner;
      assert ThreadOk(s, t);
    } else {
      var u :| 0 <= u < |s.pcs| && !Outside(s.pcs[u]);
      t := u;
      if s.pcs[u].Sleeping? {
        assert SleepOk(s, u);
        var f := s.pcs[u].f;
        if s.flags[f].Busy? {
          assert FlagOk(s, f);
          t := s.flags[f].runner;
        } else {
          t :| 0 <= t < |s.pcs| && WillNotify(s.pcs[t], f);
        }
      }
    }
  }

  function Weight(p: Pc): (r: nat) {
    match p
    case Fast(_) => 12
    case WantLock(_) => 11
    case Woken(_) => 11
    case Checking(_) => 10
    case Testing(_) => 9
    case Claiming(_) => 8
    case Claimed(_) => 7
    case Running(_) => 6
    case WantStore(_, _) => 5
    case Storing(_, _) => 4
    case Stored(_, _) => 3
    case Notifying(_, _) => 2
    case Leaving(_) => 2
    case Sleeping(_) => 1
    case _ => 0
  }

  function Active(p: Pc): (r: nat) { if Outside(p) then 0 else 1 }

  lemma {:induction false} BroadcastActive(pcs: seq<Pc>)
    ensures Sum(Active, Broadcast(pcs)) == Sum(Active, pcs)
    decreases |pcs|
  {
    if pcs != [] {
      assert Broadcast(pcs)[1..] == Broadcast(pcs[1..]);
      BroadcastActive(pcs[1..]);
    }
  }

  /** How far a state is from having no call under way. */
  function Rank(s: State): (r: nat) { RankOf(s.pcs) }

  function RankOf(pcs: seq<Pc>): (r: nat) { Sum(Active, pcs) * (12 * |pcs| + 1) + Sum(Weight, pcs) }

  lemma Smaller(a: nat, b: nat, w: nat, v: nat, n: nat)
    requires a < b && w <= 12 * n
    ensures a * (12 * n + 1) + w < b * (12 * n + 1) + v
  {
    var k := 12 * n + 1;
    TimesMore(a, b, k);
  }

  lemma {:induction false} TimesMore(a: nat, b: nat, k: nat)
    requires a < b
    ensures a * k + k <= b * k
    decreases b
  {
    assert (b - 1) * k + k == b * k;
    if a < b - 1 {
      TimesMore(a, b - 1, k);
    }
  }

  /** A move of one thread to a lighter place, or out of its call. */
  lemma LighterPlace(pcs: seq<Pc>, t: nat, p: Pc)
    requires t < |pcs| && (Active(p) < Active(pcs[t]) || (Active(p) == Active(pcs[t]) && Weight(p) < Weight(pcs[t])))
    ensures RankOf(pcs[t := p]) < RankOf(pcs)
  {
    SumUpdate(Active, pcs, t, p);
    SumUpdate(Weight, pcs, t, p);
    SumBound(Weight, pcs[t := p], 12);
    hide Weight, Active;
    if Sum(Active, pcs[t := p]) < Sum(Active, pcs) {
      Smaller(Sum(Active, pcs[t := p]), Sum(Active, pcs), Sum(Weight, pcs[t := p]), Sum(Weight, pcs), |pcs|);
    }
  }

  /** A broadcast wakes others, but its thread leaves its call. */
  lemma LastPlace(pcs: seq<Pc>, t: nat, p: Pc)
    requires t < |pcs| && pcs[t].Notifying? && Outside(p)
    ensures RankOf(Broadcast(pcs)[t := p]) < RankOf(pcs)
  {
    var woken := Broadcast(pcs);
    BroadcastActive(pcs);
    SumUpdate(Active, woken, t, p);
    SumBound(Weight, woken[t := p], 12);
    assert Active(woken[t]) == 1 && Active(p) == 0;
    hide Weight, Active, Broadcast;
    Smaller(Sum(Active, woken[t := p]), Sum(Active, pcs), Sum(Weight, woken[t := p]), Sum(Weight, pcs), |pcs|);
  }

  lemma ProgressLowersRank(s: State, t: nat, a: Action)
    requires WellFormed(s) && CanStep(s, t, a) && IsProgress(a)
    ensures Rank(Step(s, t, a)) < Rank(s)
  {
    var s', p := Step(s, t, a), s.pcs[t];
    hide RankOf;
    if p.Notifying? {
      LastPlace(s.pcs, t, s'.pcs[t]);
    } else {
      hide Broadcast;
      assert s'.pcs == s.pcs[t := s'.pcs[t]];
      LighterPlace(s.pcs, t, s'.pcs[t]);
    }
  }

  /**
   No call waits for ever: once no new calls start and no wait ends by itself, every run
   is over after a bounded number of steps, however the threads are scheduled and
   whichever calls of func throw.
   */
  lemma RunsEnd(states: seq<State>, moves: seq<Move<Action>>)
    requires IsRun(IsStep, states, moves) && forall i :: 0 <= i < |moves| ==> IsProgress(moves[i].a)
    ensures |moves| + Rank(states[|moves|]) <= Rank(states[0])
  {
    hide Step, CanStep, Rank, IsProgress;
    forall s, m, s' | IsStep(s, m, s') && IsProgress(m.a) ensures Rank(s') < Rank(s) {
      ProgressLowersRank(s, m.t, m.a);
    }
    ProgressEnds(IsStep, IsProgress, Rank, states, moves);
  }

  /** And where such a run can go no further, every call has returned or thrown. */
  lemma EveryCallEnds(s: State)
    requires Inv(s) && forall t :: !CanStep(s, t, Go)
    ensures forall t :: 0 <= t < |s.pcs| ==> Outside(s.pcs[t])
  {
    hide Inv, CanStep;
    if exists u :: 0 <= u < |s.pcs| && !Outside(s.pcs[u]) {
      var t := NoDeadlock(s);
    }
  }
}