/**
 The sweep of ClangTidyDiagnosticConsumer::removeIncompatibleErrors over the fixes of one
 file (clang-tools-extra/clang-tidy/ClangTidyDiagnosticConsumer.cpp), and what it means:
 an error keeps its fixes exactly when each of them encloses every fix it overlaps, but for
 ties that are decided by the negation of an offset beyond 2 ^ 31.
 */
module FixSweep {
  import opened Collections

  /**
   A non-empty replacement: what it replaces, the error it belongs to and its place there,
   and the size of the error.
   */
  datatype Interval = Interval(begin: nat, end: nat, id: nat, at: nat, size: nat)

  datatype Priority = Priority(pos: int, kind: int, complement: int, size: int, id: int)

  datatype Event = Event(ending: bool, id: nat, priority: Priority)

  const ET_BEGIN := 1
  const ET_END := -1

  /** `-u` of an unsigned number, converted to int as 32-bit two's complement. */
  function Negated(u: nat): (r: int) {
    var v := (0x1_0000_0000 - u % 0x1_0000_0000) % 0x1_0000_0000;
    if v < 0x8000_0000 then v else v - 0x1_0000_0000
  }

  function Begin(i: Interval): (r: Event) {
    Event(false, i.id, Priority(i.begin, ET_BEGIN, Negated(i.end), Negated(i.size), i.id))
  }

  function End(i: Interval): (r: Event) {
    Event(true, i.id, Priority(i.end, ET_END, Negated(i.begin), i.size, i.id))
  }

  /** The order of std::tuple. */
  predicate Less(p: Priority, q: Priority) {
    p.pos < q.pos || (p.pos == q.pos &&
    (p.kind < q.kind || (p.kind == q.kind &&
    (p.complement < q.complement || (p.complement == q.complement &&
    (p.size < q.size || (p.size == q.size && p.id < q.id)))))))
  }

  ghost predicate Sorted(es: seq<Event>) {
    forall i, j :: 0 <= i < j < |es| ==> !Less(es[j].priority, es[i].priority)
  }

  /** The events of the intervals: the begin of interval j is number 2j, its end number 2j + 1. */
  function EventOf(ivs: seq<Interval>, x: nat): (r: Event)
    requires x < 2 * |ivs|
  {
    if x % 2 == 0 then Begin(ivs[x / 2]) else End(ivs[x / 2])
  }

  /** Offsets fit in an unsigned and sizes in an int. */
  ghost predicate InRange(ivs: seq<Interval>) {
    forall j :: 0 <= j < |ivs| ==> ivs[j].begin < ivs[j].end < 0x1_0000_0000 && ivs[j].size < 0x8000_0000
  }

  // -- sorting

  /** `es` lists events of the intervals, each at most once: `es[k]` is event number `perm[k]`. */
  ghost predicate Lists(ivs: seq<Interval>, es: seq<Event>, perm: seq<nat>) {
    && |perm| == |es| && Distinct(perm)
    && forall k :: 0 <= k < |es| ==> perm[k] < 2 * |ivs| && es[k] == EventOf(ivs, perm[k])
  }

  /** All events, in an order std::sort may leave them in. */
  ghost predicate Arranged(ivs: seq<Interval>, es: seq<Event>, perm: seq<nat>) {
    Lists(ivs, es, perm) && |es| == 2 * |ivs| && Sorted(es)
  }

  function Inserted<T>(s: seq<T>, i: nat, x: T): (r: seq<T>)
    requires i <= |s|
  {
    s[..i] + [x] + s[i..]
  }

  lemma InsertSorted(es: seq<Event>, i: nat, e: Event)
    requires Sorted(es) && i <= |es|
    requires forall k :: 0 <= k < i ==> !Less(e.priority, es[k].priority)
    requires forall k :: i <= k < |es| ==> !Less(es[k].priority, e.priority)
    ensures Sorted(Inserted(es, i, e))
  {
    hide Less;
  }

  lemma InsertListed(ivs: seq<Interval>, es: seq<Event>, perm: seq<nat>, i: nat, x: nat)
    requires Lists(ivs, es, perm) && i <= |es| && x < 2 * |ivs| && x !in perm
    ensures Lists(ivs, Inserted(es, i, EventOf(ivs, x)), Inserted(perm, i, x))
  {
    hide EventOf;
  }

  lemma InsertCounted<T>(s: seq<T>, i: nat, x: T)
    requires i <= |s|
    ensures |Inserted(s, i, x)| == |s| + 1 && multiset(Inserted(s, i, x)) == multiset(s) + multiset{x}
  {
    assert s == s[..i] + s[i..];
  }

  lemma InsertBounded(perm: seq<nat>, i: nat, n: nat)
    requires i <= |perm| && forall k :: 0 <= k < |perm| ==> perm[k] < n
    ensures forall k :: 0 <= k < |Inserted(perm, i, n)| ==> Inserted(perm, i, n)[k] < n + 1
  {
  }

  lemma TakeOneMore<T>(s: seq<T>, n: nat)
    requires n < |s|
    ensures multiset(s[..n + 1]) == multiset(s[..n]) + multiset{s[n]}
  {
    assert s[..n + 1] == s[..n] + [s[n]];
  }

  /** Where a new event goes: after everything that does not come later. */
  method Place(es: seq<Event>, e: Event) returns (i: nat)
    requires Sorted(es)
    ensures i <= |es|
    ensures forall k :: 0 <= k < i ==> !Less(e.priority, es[k].priority)
    ensures forall k :: i <= k < |es| ==> !Less(es[k].priority, e.priority)
  {
    i := |es|;
    while 0 < i && Less(e.priority, es[i - 1].priority)
      invariant i <= |es|
      invariant forall k :: i <= k < |es| ==> !Less(es[k].priority, e.priority)
    {
      i := i - 1;
    }
    Prefix(es, i, e);
  }

  lemma Prefix(es: seq<Event>, i: nat, e: Event)
    requires Sorted(es) && i <= |es|
    requires 0 < i ==> !Less(e.priority, es[i - 1].priority)
    ensures forall k :: 0 <= k < i ==> !Less(e.priority, es[k].priority)
  {
  }

  /** The first `n` events are sorted. */
  ghost predicate SortedSoFar(events: seq<Event>, ivs: seq<Interval>, es: seq<Event>, perm: seq<nat>, n: nat) {
    && n == |es| <= |events| && multiset(es) == multiset(events[..n])
    && Sorted(es) && Lists(ivs, es, perm)
    && forall k :: 0 <= k < |perm| ==> perm[k] < n
  }

  lemma OneMoreSorted(events: seq<Event>, ivs: seq<Interval>, es: seq<Event>, perm: seq<nat>, n: nat, i: nat)
    requires SortedSoFar(events, ivs, es, perm, n) && n < |events| && n < 2 * |ivs| && events[n] == EventOf(ivs, n)
    requires i <= |es| && (forall k :: 0 <= k < i ==> !Less(events[n].priority, es[k].priority))
    requires forall k :: i <= k < |es| ==> !Less(es[k].priority, events[n].priority)
    ensures i <= |perm| && SortedSoFar(events, ivs, Inserted(es, i, events[n]), Inserted(perm, i, n), n + 1)
  {
    hide Less, EventOf;
    InsertSorted(es, i, events[n]);
    InsertListed(ivs, es, perm, i, n);
    InsertCounted(es, i, events[n]);
    InsertBounded(perm, i, n);
    TakeOneMore(events, n);
  }

  /** std::sort, with the numbers of the events it moves. */
  method Sort(events: seq<Event>, ghost ivs: seq<Interval>) returns (es: seq<Event>, ghost perm: seq<nat>)
    requires |events| == 2 * |ivs| && forall x :: 0 <= x < |events| ==> events[x] == EventOf(ivs, x)
    ensures Sorted(es) && multiset(es) == multiset(events)
    ensures Arranged(ivs, es, perm)
  {
    hide Less, EventOf;
    es, perm := [], [];
    var n := 0;
    while n < |events|
      invariant SortedSoFar(events, ivs, es, perm, n)
      decreases |events| - n
    {
      var i := Place(es, events[n]);
      OneMoreSorted(events, ivs, es, perm, n, i);
      hide SortedSoFar, Inserted;
      es, perm := Inserted(es, i, events[n]), Inserted(perm, i, n);
      n := n + 1;
    }
    assert events[..n] == events;
  }

  // -- the intervals that are open

  ghost predicate Seen(perm: seq<nat>, k: nat, x: nat)
    requires k <= |perm|
  {
    exists i :: 0 <= i < k && perm[i] == x
  }

  /** The intervals whose begin is among the first `k` events and whose end is not. */
  ghost function Open(ivs: seq<Interval>, perm: seq<nat>, k: nat): (r: set<nat>)
    requires k <= |perm|
  {
    set j | 0 <= j < |ivs| && Seen(perm, k, 2 * j) && !Seen(perm, k, 2 * j + 1)
  }

  /** A listing of as many different numbers as there are below a bound lists each of them. */
  lemma Hits(perm: seq<nat>, x: nat) returns (k: nat)
    requires Distinct(perm) && (forall i :: 0 <= i < |perm| ==> perm[i] < |perm|) && x < |perm|
    ensures k < |perm| && perm[k] == x
  {
    var numbers := Values(perm, |perm|);
    FullSubset(numbers, Below(|perm|));
    assert x in numbers;
    k :| 0 <= k < |perm| && perm[k] == x;
  }

  /** Every event occurs in the arrangement. */
  lemma Occurs(ivs: seq<Interval>, es: seq<Event>, perm: seq<nat>, x: nat) returns (k: nat)
    requires Arranged(ivs, es, perm) && x < 2 * |ivs|
    ensures k < |perm| && perm[k] == x
  {
    hide EventOf, Sorted;
    k := Hits(perm, x);
  }

  ghost function Values(perm: seq<nat>, n: nat): (s: set<nat>)
    requires Distinct(perm) && n <= |perm|
    ensures |s| == n && forall x :: x in s ==> exists i :: 0 <= i < n && perm[i] == x
  {
    if n == 0 then {} else Values(perm, n - 1) + {perm[n - 1]}
  }

  ghost function Below(n: nat): (s: set<nat>)
    ensures |s| == n && forall y :: y in s <==> 0 <= y < n
  {
    if n == 0 then {} else Below(n - 1) + {n - 1}
  }

  lemma {:induction false} FullSubset(s: set<nat>, t: set<nat>)
    requires s <= t && |s| == |t|
    ensures s == t
    decreases |s|
  {
    if x :| x in t && x !in s {
      FullSubset'(s, t - {x});
    }
  }

  lemma {:induction false} FullSubset'(s: set<nat>, t: set<nat>)
    requires s <= t
    ensures |s| <= |t|
    decreases |s|
  {
    if x :| x in s {
      FullSubset'(s - {x}, t - {x});
    }
  }

  lemma BeginFirst(i: Interval)
    requires i.begin < i.end
    ensures Less(Begin(i).priority, End(i).priority)
  {
  }

  lemma InOrder(ivs: seq<Interval>, es: seq<Event>, perm: seq<nat>, i: nat, k: nat)
    requires Arranged(ivs, es, perm) && i <= k < |es|
    ensures !Less(EventOf(ivs, perm[k]).priority, EventOf(ivs, perm[i]).priority)
  {
    hide EventOf;
    LessIrreflexive(es[k].priority);
    hide Less;
  }

  lemma LessIrreflexive(p: Priority)
    ensures !Less(p, p)
  {
  }

  /** The begin of an interval comes before its end. */
  lemma BeginBeforeEnd(ivs: seq<Interval>, es: seq<Event>, perm: seq<nat>, j: nat, b: nat, e: nat)
    requires Arranged(ivs, es, perm) && InRange(ivs) && j < |ivs|
    requires b < |perm| && perm[b] == 2 * j && e < |perm| && perm[e] == 2 * j + 1
    ensures b < e
  {
    BeginFirst(ivs[j]);
    if e <= b {
      InOrder(ivs, es, perm, e, b);
    }
  }

  lemma SeenStep(perm: seq<nat>, k: nat, x: nat)
    requires k < |perm|
    ensures Seen(perm, k + 1, x) <==> Seen(perm, k, x) || perm[k] == x
  {
    if Seen(perm, k, x) {
      var i :| 0 <= i < k && perm[i] == x;
    }
  }

  lemma NotSeenBefore(perm: seq<nat>, k: nat)
    requires k < |perm| && Distinct(perm)
    ensures !Seen(perm, k, perm[k])
  {
  }

  lemma OpenAtBegin(ivs: seq<Interval>, es: seq<Event>, perm: seq<nat>, k: nat, j: nat)
    requires Arranged(ivs, es, perm) && InRange(ivs) && k < |perm| && perm[k] == 2 * j && j < |ivs|
    ensures j !in Open(ivs, perm, k) && Open(ivs, perm, k + 1) == Open(ivs, perm, k) + {j}
  {
    hide Seen, EventOf, Sorted;
    NotSeenBefore(perm, k);
    var e := Occurs(ivs, es, perm, 2 * j + 1);
    BeginBeforeEnd(ivs, es, perm, j, k, e);
    NotSeenUntil(perm, k, e);
    forall i | 0 <= i < |ivs|
      ensures i in Open(ivs, perm, k + 1) <==> i in Open(ivs, perm, k) || i == j
    {
      SeenStep(perm, k, 2 * i);
      SeenStep(perm, k, 2 * i + 1);
    }
  }

  lemma NotSeenUntil(perm: seq<nat>, k: nat, e: nat)
    requires k <= e < |perm| && Distinct(perm)
    ensures !Seen(perm, k, perm[e])
  {
  }

  lemma SeenAfter(perm: seq<nat>, k: nat, b: nat)
    requires b < k <= |perm|
    ensures Seen(perm, k, perm[b])
  {
  }

  lemma OpenAtEnd(ivs: seq<Interval>, es: seq<Event>, perm: seq<nat>, k: nat, j: nat)
    requires Arranged(ivs, es, perm) && InRange(ivs) && k < |perm| && perm[k] == 2 * j + 1 && j < |ivs|
    ensures j in Open(ivs, perm, k) && Open(ivs, perm, k + 1) == Open(ivs, perm, k) - {j}
  {
    hide Seen, EventOf, Sorted;
    NotSeenBefore(perm, k);
    var b := Occurs(ivs, es, perm, 2 * j);
    BeginBeforeEnd(ivs, es, perm, j, b, k);
    SeenAfter(perm, k, b);
    forall i | 0 <= i < |ivs|
      ensures i in Open(ivs, perm, k + 1) <==> i in Open(ivs, perm, k) && i != j
    {
      SeenStep(perm, k, 2 * i);
      SeenStep(perm, k, 2 * i + 1);
    }
  }

  lemma NoneOpenAtTheEnds(ivs: seq<Interval>, es: seq<Event>, perm: seq<nat>)
    requires Arranged(ivs, es, perm)
    ensures Open(ivs, perm, 0) == {} && Open(ivs, perm, |perm|) == {}
  {
    hide EventOf, Sorted;
    forall j | 0 <= j < |ivs| ensures Seen(perm, |perm|, 2 * j + 1) {
      var e := Occurs(ivs, es, perm, 2 * j + 1);
    }
  }

  /** No interval but the one of event `k` is open there. */
  ghost predicate Quiet(ivs: seq<Interval>, perm: seq<nat>, k: nat)
    requires k < |perm|
  {
    Open(ivs, perm, k) == if perm[k] % 2 == 0 then {} else {perm[k] / 2}
  }

  // -- the sweep

  /** One event: the counter becomes the number of open intervals after it. */
  lemma Counted(ivs: seq<Interval>, es: seq<Event>, perm: seq<nat>, k: nat)
    requires Arranged(ivs, es, perm) && InRange(ivs) && k < |es|
    ensures var before, after := |Open(ivs, perm, k)|, |Open(ivs, perm, k + 1)|;
            if es[k].ending then before == after + 1 && (after == 0 <==> Quiet(ivs, perm, k))
            else after == before + 1 && (before == 0 <==> Quiet(ivs, perm, k))
  {
    hide Sorted, Seen, Open;
    var j := perm[k] / 2;
    if perm[k] % 2 == 0 {
      OpenAtBegin(ivs, es, perm, k, j);
    } else {
      OpenAtEnd(ivs, es, perm, k, j);
      assert Open(ivs, perm, k) == Open(ivs, perm, k + 1) + {j};
    }
  }

  /**
   The sweep over the sorted events of one file.  The counter is always the number of
   open intervals and ends at 0, and an error loses its fixes exactly when another
   interval is open at one of its events.
   */
  method Sweep(es: seq<Event>, apply: array<bool>, ghost ivs: seq<Interval>, ghost perm: seq<nat>)
    returns (ghost counts: seq<int>)
    requires Arranged(ivs, es, perm) && InRange(ivs)
    requires forall k :: 0 <= k < |es| ==> es[k].id < apply.Length
    modifies apply
    // the counter before each event, and at the end
    ensures |counts| == |es| + 1 == |perm| + 1 && counts[|es|] == 0
    ensures forall k :: 0 <= k <= |es| ==> counts[k] == |Open(ivs, perm, k)|
    ensures forall id :: 0 <= id < apply.Length ==>
              (apply[id] <==> old(apply[id]) && forall k :: 0 <= k < |es| && es[k].id == id ==> Quiet(ivs, perm, k))
  {
    var openIntervals := 0;
    var k := 0;
    counts := [0];
    hide Arranged, Open, InRange;
    NoneOpenAtTheEnds(ivs, es, perm);
    assert |perm| == |es| by { Lengths(ivs, es, perm); }
    while k < |es|
      invariant 0 <= k <= |es| == |perm|
      invariant |counts| == k + 1 && counts[k] == openIntervals
      invariant forall i :: 0 <= i <= k ==> counts[i] == |Open(ivs, perm, i)|
      invariant forall id :: 0 <= id < apply.Length ==>
                  (apply[id] <==> old(apply[id]) && forall i :: 0 <= i < k && es[i].id == id ==> Quiet(ivs, perm, i))
    {
      hide Quiet;
      Counted(ivs, es, perm, k);
      var event := es[k];
      if event.ending {
        openIntervals := openIntervals - 1;
      }
      if openIntervals != 0 {
        apply[event.id] := false;
      }
      if !event.ending {
        openIntervals := openIntervals + 1;
      }
      k := k + 1;
      counts := counts + [openIntervals];
    }
  }

  lemma Lengths(ivs: seq<Interval>, es: seq<Event>, perm: seq<nat>)
    requires Arranged(ivs, es, perm)
    ensures |perm| == |es| == 2 * |ivs|
  {
  }

  // -- what the sweep decides

  predicate Overlap(i: Interval, j: Interval) {
    i.begin < j.end && j.begin < i.end
  }

  predicate Inside(i: Interval, k: nat) { i.begin <= k < i.end }

  /** That is, some position is in both. */
  lemma OverlapShares(i: Interval, j: Interval)
    requires i.begin < i.end && j.begin < j.end
    ensures Overlap(i, j) <==> exists k :: Inside(i, k) && Inside(j, k)
  {
    var k := if i.begin < j.begin then j.begin else i.begin;
    if Overlap(i, j) {
      assert Inside(i, k) && Inside(j, k);
    }
  }

  /** `i` contains all of `j`; if they are equal, the error of `i` replaces more than that of `j`. */
  predicate Encloses(i: Interval, j: Interval) {
    i.begin <= j.begin && j.end <= i.end && (i.begin == j.begin && i.end == j.end ==> j.size < i.size)
  }

  /** The complement of an end that ties is on the other side of the wrap-around of the negation. */
  predicate Wraps(i: Interval, j: Interval) {
    || (i.begin == j.begin && (i.end > 0x8000_0000) != (j.end > 0x8000_0000))
    || (i.end == j.end && (i.begin > 0x8000_0000) != (j.begin > 0x8000_0000))
  }

  /** `i` encloses `j`, and the keys show it. */
  predicate Dominates(i: Interval, j: Interval) { Encloses(i, j) && !Wraps(i, j) }

  lemma BelowWrap(i: Interval, j: Interval)
    requires i.begin <= i.end <= 0x8000_0000 && j.begin <= j.end <= 0x8000_0000
    ensures Dominates(i, j) <==> Encloses(i, j)
  {
  }

  /** The keys order the begins and ends of `i` and `j` as if `i` enclosed `j` exactly when it does. */
  predicate KeysTell(i: Interval, j: Interval) {
    Encloses(i, j) <==> Less(Begin(i).priority, Begin(j).priority) && Less(End(j).priority, End(i).priority)
  }

  lemma NegatedOrder(u: nat, v: nat)
    requires u < 0x1_0000_0000 && v < 0x1_0000_0000
    ensures (u > 0x8000_0000) == (v > 0x8000_0000) ==> (Negated(u) < Negated(v) <==> v < u)
    ensures u <= 0x8000_0000 < v ==> Negated(u) < Negated(v)
    ensures Negated(u) == Negated(v) <==> u == v
  {
    NegatedValue(u);
    NegatedValue(v);
    hide Negated;
  }

  lemma NegatedValue(u: nat)
    requires u < 0x1_0000_0000
    ensures Negated(u) == (if u > 0x8000_0000 then 0x1_0000_0000 - u else 0 - u)
  {
  }

  /** With 32-bit offsets the keys tell exactly unless a tie is decided across the wrap-around. */
  lemma KeysTellExactly(i: Interval, j: Interval)
    requires i.begin < i.end < 0x1_0000_0000 && i.size < 0x8000_0000
    requires j.begin < j.end < 0x1_0000_0000 && j.size < 0x8000_0000
    ensures KeysTell(i, j) && KeysTell(j, i) <==> !Wraps(i, j)
  {
    NegatedOrder(i.begin, j.begin);
    NegatedOrder(j.begin, i.begin);
    NegatedOrder(i.end, j.end);
    NegatedOrder(j.end, i.end);
    NegatedOrder(i.size, j.size);
    NegatedOrder(j.size, i.size);
    hide Negated;
  }

  /** Where a tie is decided across the wrap-around, neither encloses the other by the keys. */
  lemma WrappedKeys(i: Interval, j: Interval)
    requires i.begin < i.end < 0x1_0000_0000 && j.begin < j.end < 0x1_0000_0000
    ensures Wraps(i, j) ==>
              && Overlap(i, j)
              && ((Less(Begin(i).priority, Begin(j).priority) && Less(End(i).priority, End(j).priority)) ||
                  (Less(Begin(j).priority, Begin(i).priority) && Less(End(j).priority, End(i).priority)))
  {
    NegatedOrder(i.begin, j.begin);
    NegatedOrder(j.begin, i.begin);
    NegatedOrder(i.end, j.end);
    NegatedOrder(j.end, i.end);
    hide Negated;
  }

  /** Events with the same key belong to intervals that enclose each other or not alike. */
  lemma TiedKeys(i: Interval, j: Interval)
    ensures !Less(Begin(i).priority, Begin(j).priority) && !Less(Begin(j).priority, Begin(i).priority) ==> i.id == j.id
    ensures !Less(End(i).priority, End(j).priority) && !Less(End(j).priority, End(i).priority) ==> i.id == j.id
  {
    hide Negated;
  }

  lemma ApartKeys(i: Interval, j: Interval)
    ensures j.end <= i.begin ==> Less(End(j).priority, Begin(i).priority)
    ensures i.begin < j.end ==> Less(Begin(i).priority, End(j).priority)
  {
    hide Negated;
  }

  lemma EarlierKey(ivs: seq<Interval>, es: seq<Event>, perm: seq<nat>, i: nat, k: nat)
    requires Arranged(ivs, es, perm) && i < |es| && k < |es|
    requires Less(EventOf(ivs, perm[i]).priority, EventOf(ivs, perm[k]).priority)
    ensures i < k
  {
  }

  /** Where the events of an interval are. */
  ghost predicate At(perm: seq<nat>, j: nat, begin: nat, end: nat) {
    begin < |perm| && end < |perm| && perm[begin] == 2 * j && perm[end] == 2 * j + 1
  }

  lemma OpenWhere(ivs: seq<Interval>, perm: seq<nat>, j: nat, begin: nat, end: nat, k: nat)
    requires Distinct(perm) && At(perm, j, begin, end) && k <= |perm| && j < |ivs|
    ensures j in Open(ivs, perm, k) <==> begin < k <= end
  {
    if begin < k {
      SeenAfter(perm, k, begin);
    } else {
      NotSeenUntil(perm, k, begin);
    }
    if end < k {
      SeenAfter(perm, k, end);
    } else {
      NotSeenUntil(perm, k, end);
    }
    hide Seen;
  }

  /** The interval of the second pair of positions is not open at either of the first. */
  predicate Clear(begin: nat, end: nat, begin': nat, end': nat) {
    !(begin' < begin <= end') && !(begin' < end <= end')
  }

  lemma KeysOfPair(ivs: seq<Interval>, es: seq<Event>, perm: seq<nat>, a: nat, ba: nat, ea: nat, b: nat, bb: nat,
      eb: nat)
    requires Arranged(ivs, es, perm) && InRange(ivs) && a < |ivs| && b < |ivs|
    requires At(perm, a, ba, ea) && At(perm, b, bb, eb)
    ensures Less(Begin(ivs[a]).priority, Begin(ivs[b]).priority) ==> ba < bb
    ensures Less(End(ivs[b]).priority, End(ivs[a]).priority) ==> eb < ea
    ensures Less(End(ivs[b]).priority, Begin(ivs[a]).priority) ==> eb < ba
    ensures Less(Begin(ivs[a]).priority, End(ivs[b]).priority) ==> ba < eb
    ensures ba < ea
  {
    BeginBeforeEnd(ivs, es, perm, a, ba, ea);
    hide Less, Sorted, Begin, End;
    EventsAt(ivs, perm, a, ba, ea);
    EventsAt(ivs, perm, b, bb, eb);
    hide EventOf;
    if Less(Begin(ivs[a]).priority, Begin(ivs[b]).priority) { EarlierKey(ivs, es, perm, ba, bb); }
    if Less(End(ivs[b]).priority, End(ivs[a]).priority) { EarlierKey(ivs, es, perm, eb, ea); }
    if Less(End(ivs[b]).priority, Begin(ivs[a]).priority) { EarlierKey(ivs, es, perm, eb, ba); }
    if Less(Begin(ivs[a]).priority, End(ivs[b]).priority) { EarlierKey(ivs, es, perm, ba, eb); }
  }

  lemma EventsAt(ivs: seq<Interval>, perm: seq<nat>, j: nat, begin: nat, end: nat)
    requires j < |ivs| && At(perm, j, begin, end)
    ensures EventOf(ivs, perm[begin]) == Begin(ivs[j]) && EventOf(ivs, perm[end]) == End(ivs[j])
  {
  }

  lemma EnclosingIsClear(ivs: seq<Interval>, es: seq<Event>, perm: seq<nat>, a: nat, ba: nat, ea: nat, b: nat,
      bb: nat, eb: nat)
    requires Arranged(ivs, es, perm) && InRange(ivs) && a < |ivs| && b < |ivs|
    requires At(perm, a, ba, ea) && At(perm, b, bb, eb)
    requires Overlap(ivs[a], ivs[b]) ==> Dominates(ivs[a], ivs[b])
    ensures Clear(ba, ea, bb, eb)
  {
    KeysOfPair(ivs, es, perm, a, ba, ea, b, bb, eb);
    KeysOfPair(ivs, es, perm, b, bb, eb, a, ba, ea);
    ApartKeys(ivs[a], ivs[b]);
    ApartKeys(ivs[b], ivs[a]);
    WrappedKeys(ivs[a], ivs[b]);
    KeysTellExactly(ivs[a], ivs[b]);
    hide Less, Begin, End, Encloses, Wraps, Arranged;
  }

  lemma ClearIsEnclosing(ivs: seq<Interval>, es: seq<Event>, perm: seq<nat>, a: nat, ba: nat, ea: nat, b: nat,
      bb: nat, eb: nat)
    requires Arranged(ivs, es, perm) && InRange(ivs) && a < |ivs| && b < |ivs| && a != b
    requires At(perm, a, ba, ea) && At(perm, b, bb, eb) && Overlap(ivs[a], ivs[b])
    requires Clear(ba, ea, bb, eb) && (ivs[b].id == ivs[a].id ==> Clear(bb, eb, ba, ea))
    ensures Dominates(ivs[a], ivs[b])
  {
    KeysOfPair(ivs, es, perm, a, ba, ea, b, bb, eb);
    KeysOfPair(ivs, es, perm, b, bb, eb, a, ba, ea);
    ApartKeys(ivs[a], ivs[b]);
    ApartKeys(ivs[b], ivs[a]);
    KeysTellExactly(ivs[a], ivs[b]);
    TiedKeys(ivs[a], ivs[b]);
    WrappedKeys(ivs[a], ivs[b]);
    hide Less, Begin, End, Encloses, Wraps, Arranged;
  }

  /** The meaning of keeping the fixes of an error: each encloses every other fix it overlaps, and the keys show it. */
  ghost predicate Keeps(ivs: seq<Interval>, id: nat) {
    forall a, b :: 0 <= a < |ivs| && 0 <= b < |ivs| && a != b && ivs[a].id == id && Overlap(ivs[a], ivs[b]) ==>
      Dominates(ivs[a], ivs[b])
  }

  ghost predicate AllQuiet(ivs: seq<Interval>, es: seq<Event>, perm: seq<nat>, id: nat)
    requires |perm| == |es|
  {
    forall k :: 0 <= k < |es| && es[k].id == id ==> Quiet(ivs, perm, k)
  }

  lemma Where(ivs: seq<Interval>, es: seq<Event>, perm: seq<nat>, j: nat) returns (begin: nat, end: nat)
    requires Arranged(ivs, es, perm) && j < |ivs|
    ensures At(perm, j, begin, end)
  {
    begin := Occurs(ivs, es, perm, 2 * j);
    end := Occurs(ivs, es, perm, 2 * j + 1);
  }

  lemma QuietIsClear(ivs: seq<Interval>, es: seq<Event>, perm: seq<nat>, id: nat, a: nat, ba: nat, ea: nat, b: nat,
      bb: nat, eb: nat)
    requires Arranged(ivs, es, perm) && AllQuiet(ivs, es, perm, id) && a < |ivs| && b < |ivs| && a != b
    requires At(perm, a, ba, ea) && At(perm, b, bb, eb) && ivs[a].id == id
    ensures Clear(ba, ea, bb, eb)
  {
    EventsAt(ivs, perm, a, ba, ea);
    OpenWhere(ivs, perm, b, bb, eb, ba);
    OpenWhere(ivs, perm, b, bb, eb, ea);
    assert es[ba].id == id && es[ea].id == id;
    assert Quiet(ivs, perm, ba) && Quiet(ivs, perm, ea);
    hide Open, EventOf, Sorted;
  }

  lemma QuietKeeps(ivs: seq<Interval>, es: seq<Event>, perm: seq<nat>, id: nat)
    requires Arranged(ivs, es, perm) && InRange(ivs) && AllQuiet(ivs, es, perm, id)
    ensures Keeps(ivs, id)
  {
    forall a, b | 0 <= a < |ivs| && 0 <= b < |ivs| && a != b && ivs[a].id == id && Overlap(ivs[a], ivs[b])
      ensures Dominates(ivs[a], ivs[b])
    {
      hide Arranged, InRange, AllQuiet, Dominates, Overlap, Clear;
      var ba, ea := Where(ivs, es, perm, a);
      var bb, eb := Where(ivs, es, perm, b);
      QuietIsClear(ivs, es, perm, id, a, ba, ea, b, bb, eb);
      if ivs[b].id == id {
        QuietIsClear(ivs, es, perm, id, b, bb, eb, a, ba, ea);
      }
      ClearIsEnclosing(ivs, es, perm, a, ba, ea, b, bb, eb);
    }
  }

  lemma KeepsQuiet(ivs: seq<Interval>, es: seq<Event>, perm: seq<nat>, id: nat, k: nat)
    requires Arranged(ivs, es, perm) && InRange(ivs) && Keeps(ivs, id) && k < |es| && es[k].id == id
    ensures Quiet(ivs, perm, k)
  {
    var a := perm[k] / 2;
    assert ivs[a].id == id && (perm[k] == 2 * a || perm[k] == 2 * a + 1);
    hide Sorted, EventOf;
    var ba, ea := Where(ivs, es, perm, a);
    assert k == if perm[k] == 2 * a then ba else ea;
    OpenWhere(ivs, perm, a, ba, ea, k);
    BeginBeforeEnd(ivs, es, perm, a, ba, ea);
    forall b | 0 <= b < |ivs| && b != a ensures b !in Open(ivs, perm, k) {
      var bb, eb := Where(ivs, es, perm, b);
      EnclosingIsClear(ivs, es, perm, a, ba, ea, b, bb, eb);
      OpenWhere(ivs, perm, b, bb, eb, k);
      hide Open;
    }
  }

  /** What the sweep decides, whatever order std::sort left events with equal keys in. */
  lemma SweepDecides(ivs: seq<Interval>, es: seq<Event>, perm: seq<nat>, id: nat)
    requires Arranged(ivs, es, perm) && InRange(ivs)
    ensures |perm| == |es| && (AllQuiet(ivs, es, perm, id) <==> Keeps(ivs, id))
  {
    hide InRange, Keeps;
    Lengths(ivs, es, perm);
    hide Arranged;
    if AllQuiet(ivs, es, perm, id) {
      QuietKeeps(ivs, es, perm, id);
    }
    if Keeps(ivs, id) {
      forall k | 0 <= k < |es| && es[k].id == id ensures Quiet(ivs, perm, k) {
        hide Quiet;
        KeepsQuiet(ivs, es, perm, id, k);
      }
    }
  }

  lemma EnclosingEachOther(i: Interval, j: Interval)
    ensures Overlap(i, j) <==> Overlap(j, i)
    ensures !(Encloses(i, j) && Encloses(j, i))
  {
  }

  /** Two fixes of kept errors, of one file, never overlap. */
  lemma KeptAreDisjoint(ivs: seq<Interval>, a: nat, b: nat)
    requires a < |ivs| && b < |ivs| && a != b && Keeps(ivs, ivs[a].id) && Keeps(ivs, ivs[b].id)
    ensures !Overlap(ivs[a], ivs[b])
  {
    EnclosingEachOther(ivs[a], ivs[b]);
  }
}
