/**
 Interleaved runs of threads: a run is a sequence of moves, each of which is possible in
 the state it is made in; and sums over the places of all threads, for arguments about
 how long runs can get.
 */
module Interleaving {

  /** A move of thread `t`. */
  datatype Move<A> = Move(t: nat, a: A)

  ghost predicate IsRun<S(!new), M(!new)>(step: (S, M, S) -> bool, states: seq<S>, moves: seq<M>) {
    |states| == |moves| + 1 && forall i :: 0 <= i < |moves| ==> step(states[i], moves[i], states[i + 1])
  }

  /** What every step keeps holds in every state of a run that starts with it. */
  lemma {:induction false} RunKeeps<S(!new), M(!new)>(step: (S, M, S) -> bool, inv: S -> bool, states: seq<S>,
      moves: seq<M>, i: nat)
    requires IsRun(step, states, moves) && i < |states| && inv(states[0])
    requires forall s, m, s' {:trigger step(s, m, s')} :: step(s, m, s') && inv(s) ==> inv(s')
    ensures inv(states[i])
    decreases i
  {
    if i > 0 {
      RunKeeps(step, inv, states, moves, i - 1);
      assert step(states[i - 1], moves[i - 1], states[i]);
    }
  }

  /** A run all of whose steps lower a rank is no longer than the rank it starts with. */
  lemma {:induction false} RunsAreShort<S(!new), M(!new)>(step: (S, M, S) -> bool, rank: S -> nat, states: seq<S>,
      moves: seq<M>, i: nat)
    requires IsRun(step, states, moves) && i <= |moves|
    requires forall k :: 0 <= k < |moves| ==> rank(states[k + 1]) < rank(states[k])
    ensures i + rank(states[i]) <= rank(states[0])
    decreases i
  {
    if i > 0 {
      RunsAreShort(step, rank, states, moves, i - 1);
      assert rank(states[(i - 1) + 1]) < rank(states[i - 1]);
    }
  }

  /** A run of moves that all lower a rank is over soon. */
  lemma ProgressEnds<S(!new), A(!new)>(step: (S, Move<A>, S) -> bool, progress: A -> bool, rank: S -> nat,
                                       states: seq<S>, moves: seq<Move<A>>)
    requires IsRun(step, states, moves) && forall i :: 0 <= i < |moves| ==> progress(moves[i].a)
    requires forall s, m, s' {:trigger step(s, m, s')} :: step(s, m, s') && progress(m.a) ==> rank(s') < rank(s)
    ensures |moves| + rank(states[|moves|]) <= rank(states[0])
  {
    forall k | 0 <= k < |moves| ensures rank(states[k + 1]) < rank(states[k]) {
      assert step(states[k], moves[k], states[k + 1]);
    }
    RunsAreShort(step, rank, states, moves, |moves|);
  }

  function Sum<P>(measure: P -> nat, pcs: seq<P>): (r: nat) {
    if pcs == [] then 0 else measure(pcs[0]) + Sum(measure, pcs[1..])
  }

  /** One thread moves. */
  lemma {:induction false} SumUpdate<P>(measure: P -> nat, pcs: seq<P>, t: nat, p: P)
    requires t < |pcs|
    ensures Sum(measure, pcs[t := p]) + measure(pcs[t]) == Sum(measure, pcs) + measure(p)
    decreases |pcs|
  {
    if t == 0 {
      assert pcs[0 := p][1..] == pcs[1..];
    } else {
      assert pcs[t := p][1..] == pcs[1..][t - 1 := p];
      SumUpdate(measure, pcs[1..], t - 1, p);
    }
  }

  lemma {:induction false} SumBound<P(!new)>(measure: P -> nat, pcs: seq<P>, bound: nat)
    requires forall p :: measure(p) <= bound
    ensures Sum(measure, pcs) <= bound * |pcs|
    decreases |pcs|
  {
    if pcs != [] {
      SumBound(measure, pcs[1..], bound);
      assert bound * |pcs| == bound + bound * |pcs[1..]|;
    }
  }
}
