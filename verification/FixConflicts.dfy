/**
 ClangTidyDiagnosticConsumer::removeIncompatibleErrors
 (clang-tools-extra/clang-tidy/ClangTidyDiagnosticConsumer.cpp): the events of all fixes
 by file, a sweep over each file, and the errors that lose their fixes.
 */
module FixConflicts {
  import opened FixSweep

  datatype Replacement = Replacement(path: string, offset: nat, length: nat, text: string)

  /** What the function reads and changes of a ClangTidyError. */
  datatype Error = Error(message: string, fix: seq<Replacement>, notes: seq<string>)

  const OVERLAPS := "this fix will not be applied because it overlaps with another fix"

  function Size(fix: seq<Replacement>): (r: nat) {
    if fix == [] then 0 else Size(fix[..|fix| - 1]) + fix[|fix| - 1].length
  }

  /** The size is the number of bytes that are replaced: that of one replacement, added up. */
  lemma {:induction false} SizeAdds(a: seq<Replacement>, b: seq<Replacement>)
    ensures Size(a + b) == Size(a) + Size(b)
    ensures |a| == 1 ==> Size(a) == a[0].length
    ensures a == [] ==> Size(a) == 0
    decreases |b|
  {
    if b == [] {
      assert a + b == a;
    } else {
      assert (a + b)[..|a + b| - 1] == a + b[..|b| - 1];
      SizeAdds(a, b[..|b| - 1]);
    }
  }

  /** Offsets fit in an unsigned and sizes in an int, as the source declares them. */
  ghost predicate Representable(errors: seq<Error>) {
    forall i :: 0 <= i < |errors| ==> FixRepresentable(errors[i].fix)
  }

  ghost predicate FixRepresentable(fix: seq<Replacement>) {
    Size(fix) < 0x8000_0000 && forall p :: 0 <= p < |fix| ==> fix[p].offset + fix[p].length < 0x1_0000_0000
  }

  function IntervalOf(r: Replacement, id: nat, at: nat, size: nat): (res: Interval) {
    Interval(r.offset, r.offset + r.length, id, at, size)
  }

  /** The non-empty intervals in a file of the first `n` replacements of error `id`. */
  function FixIntervals(fix: seq<Replacement>, id: nat, size: nat, path: string, n: nat): (r: seq<Interval>)
    requires n <= |fix|
  {
    if n == 0 then []
    else
      var before, r := FixIntervals(fix, id, size, path, n - 1), fix[n - 1];
      if r.path == path && r.length != 0 then before + [IntervalOf(r, id, n - 1, size)] else before
  }

  /** The non-empty intervals in a file of the first `n` errors. */
  function FileIntervals(errors: seq<Error>, path: string, n: nat): (r: seq<Interval>)
    requires n <= |errors|
  {
    if n == 0 then []
    else
      var fix := errors[n - 1].fix;
      FileIntervals(errors, path, n - 1) + FixIntervals(fix, n - 1, Size(fix), path, |fix|)
  }

  function EventsOf(ivs: seq<Interval>): (r: seq<Event>) {
    if ivs == [] then []
    else
      var last := ivs[|ivs| - 1];
      EventsOf(ivs[..|ivs| - 1]) + [Begin(last), End(last)]
  }

  lemma {:induction false} EventNumbers(ivs: seq<Interval>)
    ensures |EventsOf(ivs)| == 2 * |ivs|
    ensures forall x :: 0 <= x < 2 * |ivs| ==> EventsOf(ivs)[x] == EventOf(ivs, x)
    decreases |ivs|
  {
    hide Begin, End;
    if ivs != [] {
      var init := ivs[..|ivs| - 1];
      EventNumbers(init);
      forall x | 0 <= x < 2 * |ivs| ensures EventsOf(ivs)[x] == EventOf(ivs, x) {
        if x < 2 * |init| {
          assert EventOf(init, x) == EventOf(ivs, x);
        }
      }
    }
  }

  lemma EventsOfMore(ivs: seq<Interval>, i: Interval)
    ensures EventsOf(ivs + [i]) == EventsOf(ivs) + [Begin(i), End(i)]
  {
    assert (ivs + [i])[..|ivs|] == ivs;
  }

  // -- the steps of removeIncompatibleErrors

  method Sizes(errors: seq<Error>) returns (sizes: seq<nat>)
    ensures |sizes| == |errors| && forall i :: 0 <= i < |errors| ==> sizes[i] == Size(errors[i].fix)
  {
    sizes := [];
    while |sizes| < |errors|
      invariant |sizes| <= |errors|
      invariant forall i :: 0 <= i < |sizes| ==> sizes[i] == Size(errors[i].fix)
    {
      var fix := errors[|sizes|].fix;
      var size, p := 0, 0;
      while p < |fix|
        invariant 0 <= p <= |fix| && size == Size(fix[..p])
      {
        assert fix[..p + 1][..p] == fix[..p];
        size := size + fix[p].length;
        p := p + 1;
      }
      assert fix[..p] == fix;
      sizes := sizes + [size];
    }
  }

  /** The events of a file: none if the map has no entry. */
  function EventsIn(files: map<string, seq<Event>>, path: string): (r: seq<Event>) {
    if path in files then files[path] else []
  }

  ghost predicate Built(files: map<string, seq<Event>>, errors: seq<Error>, n: nat, p: nat)
    requires n <= |errors| && p <= if n < |errors| then |errors[n].fix| else 0
  {
    forall path :: EventsIn(files, path) == EventsOf(SoFar(errors, path, n, p))
  }

  function SoFar(errors: seq<Error>, path: string, n: nat, p: nat): (r: seq<Interval>)
    requires n <= |errors| && p <= if n < |errors| then |errors[n].fix| else 0
  {
    FileIntervals(errors, path, n) +
    if n < |errors| then FixIntervals(errors[n].fix, n, Size(errors[n].fix), path, p) else []
  }

  lemma SoFarNext(errors: seq<Error>, path: string, n: nat)
    requires n < |errors|
    ensures SoFar(errors, path, n + 1, 0) == SoFar(errors, path, n, |errors[n].fix|)
  {
  }

  lemma SoFarMore(errors: seq<Error>, path: string, n: nat, p: nat)
    requires n < |errors| && p < |errors[n].fix|
    ensures var r := errors[n].fix[p];
            SoFar(errors, path, n, p + 1) ==
            SoFar(errors, path, n, p) +
            if r.path == path && r.length != 0 then [IntervalOf(r, n, p, Size(errors[n].fix))] else []
  {
  }

  /** One replacement: unless it is empty, its two events go to the events of its file. */
  method AddReplacement(files: map<string, seq<Event>>, r: Replacement, id: nat, ghost at: nat, size: nat)
    returns (more: map<string, seq<Event>>)
    ensures forall path :: EventsIn(more, path) == EventsIn(files, path) +
              if path == r.path && r.length != 0 then
                [Begin(IntervalOf(r, id, at, size)), End(IntervalOf(r, id, at, size))]
              else []
  {
    var begin := r.offset;
    var end := begin + r.length;
    if begin == end {
      more := files;
    } else {
      var i := Interval(begin, end, id, 0, size);
      more := files[r.path := EventsIn(files, r.path) + [Begin(i), End(i)]];
    }
  }

  method BuildEvents(errors: seq<Error>, sizes: seq<nat>) returns (files: map<string, seq<Event>>)
    requires |sizes| == |errors| && forall i :: 0 <= i < |errors| ==> sizes[i] == Size(errors[i].fix)
    ensures forall path :: EventsIn(files, path) == EventsOf(FileIntervals(errors, path, |errors|))
  {
    files := map[];
    BuiltNone(errors);
    var n := 0;
    hide Built, EventsIn, EventsOf, FileIntervals, Size, Begin, End;
    while n < |errors|
      invariant 0 <= n <= |errors| && Built(files, errors, n, 0)
    {
      var p := 0;
      while p < |errors[n].fix|
        invariant 0 <= p <= |errors[n].fix| && Built(files, errors, n, p)
      {
        ghost var before := files;
        files := AddReplacement(files, errors[n].fix[p], n, p, sizes[n]);
        BuiltMore(before, files, errors, n, p);
        p := p + 1;
      }
      BuiltNext(files, errors, n);
      n := n + 1;
    }
    BuiltAll(files, errors);
  }

  lemma BuiltNone(errors: seq<Error>)
    ensures Built(map[], errors, 0, 0)
  {
  }

  lemma BuiltMore(before: map<string, seq<Event>>, files: map<string, seq<Event>>, errors: seq<Error>, n: nat, p: nat)
    requires n < |errors| && p < |errors[n].fix| && Built(before, errors, n, p)
    requires var r, size := errors[n].fix[p], Size(errors[n].fix);
             forall path :: EventsIn(files, path) == EventsIn(before, path) +
               if path == r.path && r.length != 0 then
                 [Begin(IntervalOf(r, n, p, size)), End(IntervalOf(r, n, p, size))]
               else []
    ensures Built(files, errors, n, p + 1)
  {
    hide EventsOf, SoFar, Begin, End, IntervalOf, Size;
    var r := errors[n].fix[p];
    forall path ensures EventsIn(files, path) == EventsOf(SoFar(errors, path, n, p + 1)) {
      hide EventsIn;
      SoFarMore(errors, path, n, p);
      assert EventsIn(before, path) == EventsOf(SoFar(errors, path, n, p));
      if r.path == path && r.length != 0 {
        EventsOfMore(SoFar(errors, path, n, p), IntervalOf(r, n, p, Size(errors[n].fix)));
      } else {
        assert SoFar(errors, path, n, p) + [] == SoFar(errors, path, n, p);
      }
    }
  }

  lemma BuiltNext(files: map<string, seq<Event>>, errors: seq<Error>, n: nat)
    requires n < |errors| && Built(files, errors, n, |errors[n].fix|)
    ensures Built(files, errors, n + 1, 0)
  {
    forall path ensures EventsIn(files, path) == EventsOf(SoFar(errors, path, n + 1, 0)) {
      SoFarNext(errors, path, n);
      hide SoFar, EventsOf, EventsIn;
      assert EventsIn(files, path) == EventsOf(SoFar(errors, path, n, |errors[n].fix|));
    }
  }

  lemma BuiltAll(files: map<string, seq<Event>>, errors: seq<Error>)
    requires Built(files, errors, |errors|, 0)
    ensures forall path :: EventsIn(files, path) == EventsOf(FileIntervals(errors, path, |errors|))
  {
  }

  // -- which intervals a file has

  /** Replacement `p` of error `i` is a non-empty one of the file. */
  ghost predicate Has(errors: seq<Error>, path: string, i: nat, p: nat) {
    i < |errors| && p < |errors[i].fix| && errors[i].fix[p].path == path && errors[i].fix[p].length != 0
  }

  ghost function IntervalAt(errors: seq<Error>, i: nat, p: nat): (r: Interval)
    requires i < |errors| && p < |errors[i].fix|
  {
    IntervalOf(errors[i].fix[p], i, p, Size(errors[i].fix))
  }

  ghost predicate IsInterval(errors: seq<Error>, path: string, iv: Interval) {
    Has(errors, path, iv.id, iv.at) && iv == IntervalAt(errors, iv.id, iv.at)
  }

  /** Where two intervals come from, in the order of the lists. */
  predicate Earlier(i: Interval, j: Interval) {
    i.id < j.id || (i.id == j.id && i.at < j.at)
  }

  ghost predicate Ascending(ivs: seq<Interval>) {
    forall a, b :: 0 <= a < b < |ivs| ==> Earlier(ivs[a], ivs[b])
  }

  lemma {:induction false} FixMembers(errors: seq<Error>, path: string, i: nat, n: nat)
    requires i < |errors| && n <= |errors[i].fix|
    ensures var ivs := FixIntervals(errors[i].fix, i, Size(errors[i].fix), path, n);
            && Ascending(ivs)
            && (forall iv :: iv in ivs <==> iv.id == i && iv.at < n && IsInterval(errors, path, iv))
    decreases n
  {
    hide Size;
    if n > 0 {
      FixMembers(errors, path, i, n - 1);
      var before := FixIntervals(errors[i].fix, i, Size(errors[i].fix), path, n - 1);
      var ivs := FixIntervals(errors[i].fix, i, Size(errors[i].fix), path, n);
      assert forall a :: 0 <= a < |before| ==> before[a] in before;
    }
  }

  lemma {:induction false} FileMembers(errors: seq<Error>, path: string, n: nat)
    requires n <= |errors|
    ensures var ivs := FileIntervals(errors, path, n);
            && Ascending(ivs)
            && (forall iv :: iv in ivs <==> iv.id < n && IsInterval(errors, path, iv))
    decreases n
  {
    hide Size, FixIntervals;
    if n > 0 {
      FileMembers(errors, path, n - 1);
      var fix := errors[n - 1].fix;
      FixMembers(errors, path, n - 1, |fix|);
      var before, more := FileIntervals(errors, path, n - 1), FixIntervals(fix, n - 1, Size(fix), path, |fix|);
      hide IsInterval;
      Appended(before, more, n - 1);
      forall iv: Interval | iv.id == n - 1 && IsInterval(errors, path, iv) ensures iv.at < |fix| {
        PlaceInFix(errors, path, iv);
      }
    }
  }

  lemma PlaceInFix(errors: seq<Error>, path: string, iv: Interval)
    requires IsInterval(errors, path, iv)
    ensures iv.id < |errors| && iv.at < |errors[iv.id].fix|
  {
  }

  lemma Appended(before: seq<Interval>, more: seq<Interval>, n: nat)
    requires Ascending(before) && Ascending(more)
    requires forall iv :: iv in before ==> iv.id < n
    requires forall iv :: iv in more ==> iv.id == n
    ensures Ascending(before + more)
  {
    assert forall a :: 0 <= a < |before| ==> before[a] in before;
    assert forall a :: 0 <= a < |more| ==> more[a] in more;
  }

  lemma FileInRange(errors: seq<Error>, path: string)
    requires Representable(errors)
    ensures InRange(FileIntervals(errors, path, |errors|))
    ensures forall a :: 0 <= a < |FileIntervals(errors, path, |errors|)| ==>
              FileIntervals(errors, path, |errors|)[a].id < |errors|
  {
    var ivs := FileIntervals(errors, path, |errors|);
    FileMembers(errors, path, |errors|);
    hide FileIntervals, Size, Ascending;
    forall a | 0 <= a < |ivs|
      ensures ivs[a].begin < ivs[a].end < 0x1_0000_0000 && ivs[a].size < 0x8000_0000 && ivs[a].id < |errors|
    {
      assert ivs[a] in ivs;
      assert FixRepresentable(errors[ivs[a].id].fix);
    }
  }

  // -- the meaning, in terms of the errors

  /** Two different non-empty replacements of one file that overlap. */
  ghost predicate Conflict(errors: seq<Error>, path: string, i: nat, p: nat, j: nat, q: nat) {
    Has(errors, path, i, p) && Has(errors, path, j, q) && (i != j || p != q) &&
    Overlap(IntervalAt(errors, i, p), IntervalAt(errors, j, q))
  }

  /** Each non-empty replacement of error `i` encloses every other it is in conflict with, and the keys show it. */
  ghost predicate KeepsFixes(errors: seq<Error>, i: nat) {
    forall path, p, j, q :: Conflict(errors, path, i, p, j, q) ==>
        Dominates(IntervalAt(errors, i, p), IntervalAt(errors, j, q))
  }

  /** In files that end at 2 ^ 31 or before, the keys always show it. */
  lemma KeepsFixesInShortFiles(errors: seq<Error>, i: nat)
    requires forall path, j, q :: Has(errors, path, j, q) ==> IntervalAt(errors, j, q).end <= 0x8000_0000
    ensures KeepsFixes(errors, i) <==>
            forall path, p, j, q :: Conflict(errors, path, i, p, j, q) ==>
              Encloses(IntervalAt(errors, i, p), IntervalAt(errors, j, q))
  {
    hide Size;
    forall path, p, j, q | Conflict(errors, path, i, p, j, q)
      ensures Dominates(IntervalAt(errors, i, p), IntervalAt(errors, j, q)) <==>
              Encloses(IntervalAt(errors, i, p), IntervalAt(errors, j, q))
    {
      BelowWrap(IntervalAt(errors, i, p), IntervalAt(errors, j, q));
    }
  }

  /** Two errors with one fix each, at the same place, that end before and after 2 ^ 31. */
  function WrapErrors(): (errors: seq<Error>) {
    [Error("", [Replacement("f", 0x7000_0000, 0x2000_0000, "")], []),
     Error("", [Replacement("f", 0x7000_0000, 10, "")], [])]
  }

  /** One fix encloses the other, and yet both errors lose theirs. */
  lemma WrapExample()
    ensures Representable(WrapErrors())
    ensures Encloses(IntervalAt(WrapErrors(), 0, 0), IntervalAt(WrapErrors(), 1, 0))
    ensures !KeepsFixes(WrapErrors(), 0) && !KeepsFixes(WrapErrors(), 1)
  {
    var errors := WrapErrors();
    assert Conflict(errors, "f", 0, 0, 1, 0) && Conflict(errors, "f", 1, 0, 0, 0);
    assert Wraps(IntervalAt(errors, 0, 0), IntervalAt(errors, 1, 0));
    assert Wraps(IntervalAt(errors, 1, 0), IntervalAt(errors, 0, 0));
  }

  /** No sweep finds the error in conflict. */
  ghost predicate KeepsEverywhere(errors: seq<Error>, i: nat) {
    forall path {:trigger FileIntervals(errors, path, |errors|)} :: Keeps(FileIntervals(errors, path, |errors|), i)
  }

  lemma KeepsInEveryFile(errors: seq<Error>, i: nat)
    ensures KeepsFixes(errors, i) <==> KeepsEverywhere(errors, i)
  {
    if KeepsFixes(errors, i) {
      hide KeepsFixes, Keeps;
      forall path ensures Keeps(FileIntervals(errors, path, |errors|), i) {
        KeepsInFile(errors, i, path);
      }
    }
    if KeepsEverywhere(errors, i) {
      hide KeepsFixes, Keeps, KeepsEverywhere;
      KeepsFromFiles(errors, i);
    }
  }

  lemma KeepsInFile(errors: seq<Error>, i: nat, path: string)
    requires KeepsFixes(errors, i)
    ensures Keeps(FileIntervals(errors, path, |errors|), i)
  {
    var ivs := FileIntervals(errors, path, |errors|);
    FileMembers(errors, path, |errors|);
    hide FileIntervals, Size, Dominates, Overlap;
    forall a, b | 0 <= a < |ivs| && 0 <= b < |ivs| && a != b && ivs[a].id == i && Overlap(ivs[a], ivs[b])
      ensures Dominates(ivs[a], ivs[b])
    {
      assert ivs[a] in ivs && ivs[b] in ivs;
      assert Earlier(ivs[a], ivs[b]) || Earlier(ivs[b], ivs[a]);
      assert Conflict(errors, path, i, ivs[a].at, ivs[b].id, ivs[b].at);
    }
  }

  lemma KeepsFromFiles(errors: seq<Error>, i: nat)
    requires KeepsEverywhere(errors, i)
    ensures KeepsFixes(errors, i)
  {
    hide FileIntervals, Size, Dominates, Overlap;
    forall path, p, j, q | Conflict(errors, path, i, p, j, q)
      ensures Dominates(IntervalAt(errors, i, p), IntervalAt(errors, j, q))
    {
      var ivs := FileIntervals(errors, path, |errors|);
      FileMembers(errors, path, |errors|);
      var a := Listed(errors, path, ivs, i, p);
      var b := Listed(errors, path, ivs, j, q);
      assert Keeps(ivs, i);
    }
  }

  lemma Listed(errors: seq<Error>, path: string, ivs: seq<Interval>, i: nat, p: nat) returns (a: nat)
    requires forall iv :: iv in ivs <==> iv.id < |errors| && IsInterval(errors, path, iv)
    requires Has(errors, path, i, p)
    ensures a < |ivs| && ivs[a] == IntervalAt(errors, i, p)
  {
    hide Size;
    var iv := IntervalAt(errors, i, p);
    assert IsInterval(errors, path, iv);
    a :| 0 <= a < |ivs| && ivs[a] == iv;
  }

  /** No two non-empty replacements of kept errors overlap. */
  lemma KeptFixesAreDisjoint(errors: seq<Error>, path: string, i: nat, p: nat, j: nat, q: nat)
    requires KeepsFixes(errors, i) && KeepsFixes(errors, j)
    ensures !Conflict(errors, path, i, p, j, q)
  {
    hide Size, Encloses;
    if Has(errors, path, i, p) && Has(errors, path, j, q) && (i != j || p != q) {
      EnclosingEachOther(IntervalAt(errors, i, p), IntervalAt(errors, j, q));
      hide Overlap;
      ConflictSymmetric(errors, path, i, p, j, q);
    }
  }

  lemma ConflictSymmetric(errors: seq<Error>, path: string, i: nat, p: nat, j: nat, q: nat)
    ensures Conflict(errors, path, i, p, j, q) <==> Conflict(errors, path, j, q, i, p)
  {
    hide Size, Has;
  }

  // -- removeIncompatibleErrors

  /** The sweep of one file. */
  method SweepFile(events: seq<Event>, apply: array<bool>, ghost errors: seq<Error>, ghost path: string)
    requires Representable(errors) && apply.Length == |errors|
    requires events == EventsOf(FileIntervals(errors, path, |errors|))
    modifies apply
    ensures forall id :: 0 <= id < apply.Length ==>
              (apply[id] <==> old(apply[id]) && Keeps(FileIntervals(errors, path, |errors|), id))
  {
    hide Representable, FileIntervals, EventsOf, EventOf, Keeps, Arranged, InRange, Quiet, Less;
    ghost var ivs := FileIntervals(errors, path, |errors|);
    EventNumbers(ivs);
    FileInRange(errors, path);
    ghost var perm;
    var es;
    es, perm := Sort(events, ivs);
    IdsInRange(ivs, es, perm, |errors|);
    ghost var counts := Sweep(es, apply, ivs, perm);
    forall id | 0 <= id < apply.Length ensures apply[id] <==> old(apply[id]) && Keeps(ivs, id) {
      SweepDecides(ivs, es, perm, id);
    }
  }

  lemma IdsInRange(ivs: seq<Interval>, es: seq<Event>, perm: seq<nat>, n: nat)
    requires Arranged(ivs, es, perm) && forall a :: 0 <= a < |ivs| ==> ivs[a].id < n
    ensures forall k :: 0 <= k < |es| ==> es[k].id < n
  {
    hide Sorted;
  }

  /** No sweep finds the error in conflict, but for the sweeps of the files that are `left`. */
  ghost predicate KeepsBut(errors: seq<Error>, files: set<string>, left: set<string>, id: nat) {
    forall path | path in files && path !in left :: Keeps(FileIntervals(errors, path, |errors|), id)
  }

  lemma KeepsButStep(errors: seq<Error>, files: set<string>, left: set<string>, path: string, id: nat)
    requires path in left && left <= files
    ensures KeepsBut(errors, files, left - {path}, id) <==>
              KeepsBut(errors, files, left, id) && Keeps(FileIntervals(errors, path, |errors|), id)
  {
    hide Keeps, FileIntervals;
  }

  /** All sweeps: an error stays applicable exactly when no file takes its fixes away. */
  method SweepAll(files: map<string, seq<Event>>, apply: array<bool>, ghost errors: seq<Error>)
    requires Representable(errors) && apply.Length == |errors|
    requires forall path :: EventsIn(files, path) == EventsOf(FileIntervals(errors, path, |errors|))
    requires forall id :: 0 <= id < apply.Length ==> apply[id]
    modifies apply
    ensures forall id :: 0 <= id < apply.Length ==> (apply[id] <==> KeepsEverywhere(errors, id))
  {
    var left := files.Keys;
    forall id: nat ensures KeepsBut(errors, files.Keys, left, id) {
    }
    hide Representable, Keeps, KeepsBut, KeepsEverywhere, FileIntervals, EventsOf;
    while left != {}
      invariant left <= files.Keys
      invariant forall id :: 0 <= id < apply.Length ==> (apply[id] <==> KeepsBut(errors, files.Keys, left, id))
      decreases |left|
    {
      var path :| path in left;
      assert files[path] == EventsIn(files, path);
      SweepFile(files[path], apply, errors, path);
      forall id: nat {
        KeepsButStep(errors, files.Keys, left, path, id);
      }
      left := left - {path};
    }
    forall id | 0 <= id < apply.Length ensures apply[id] <==> KeepsEverywhere(errors, id) {
      OnlyListedFiles(files, errors, id);
    }
  }

  lemma OnlyListedFiles(files: map<string, seq<Event>>, errors: seq<Error>, id: nat)
    requires forall path :: EventsIn(files, path) == EventsOf(FileIntervals(errors, path, |errors|))
    ensures KeepsEverywhere(errors, id) <==> KeepsBut(errors, files.Keys, {}, id)
  {
  }

  /** The last loop: clears the fixes of the errors that are not applicable. */
  method ClearFixes(errors: array<Error>, apply: array<bool>)
    requires apply.Length == errors.Length
    modifies errors
    ensures forall i :: 0 <= i < errors.Length ==> Cleared(old(errors[i]), errors[i], apply[i])
  {
    var i := 0;
    while i < errors.Length
      invariant 0 <= i <= errors.Length
      invariant forall k :: i <= k < errors.Length ==> errors[k] == old(errors[k])
      invariant forall k :: 0 <= k < i ==> Cleared(old(errors[k]), errors[k], apply[k])
    {
      if !apply[i] {
        errors[i] := errors[i].(fix := [], notes := errors[i].notes + [OVERLAPS]);
      }
      i := i + 1;
    }
  }

  /** An error keeps its fixes or has none and one note more; its message stays. */
  predicate Cleared(before: Error, after: Error, keeps: bool) {
    && after.message == before.message
    && (if keeps then after.fix == before.fix && after.notes == before.notes
        else after.fix == [] && after.notes == before.notes + [OVERLAPS])
  }

  /** No two non-empty replacements of a file overlap. */
  ghost predicate NoConflicts(errors: seq<Error>) {
    forall path, i: nat, p: nat, j: nat, q: nat :: !Conflict(errors, path, i, p, j, q)
  }

  /** Whatever is left of the fixes does not overlap. */
  lemma ClearedHaveNoConflicts(before: seq<Error>, after: seq<Error>)
    requires |after| == |before|
    requires forall i :: 0 <= i < |before| ==> Cleared(before[i], after[i], KeepsFixes(before, i))
    ensures NoConflicts(after)
  {
    hide KeepsFixes, Size, Overlap;
    forall path, i: nat, p: nat, j: nat, q: nat ensures !Conflict(after, path, i, p, j, q) {
      if Conflict(after, path, i, p, j, q) {
        assert Cleared(before[i], after[i], KeepsFixes(before, i));
        assert Cleared(before[j], after[j], KeepsFixes(before, j));
        KeptFixesAreDisjoint(before, path, i, p, j, q);
      }
    }
  }

  /**
   removeIncompatibleErrors: every error keeps its fixes exactly when each of them
   encloses whatever non-empty fix of the same file it overlaps, and ties with none across
   2 ^ 31; the others lose them, and get a note.  No fixes that are left overlap.
   */
  method RemoveIncompatibleErrors(errors: array<Error>)
    requires Representable(errors[..])
    modifies errors
    ensures forall i :: 0 <= i < errors.Length ==>
              errors[i].fix == if KeepsFixes(old(errors[..]), i) then old(errors[i].fix) else []
    ensures forall i :: 0 <= i < errors.Length ==>
              errors[i].notes == old(errors[i].notes) + if KeepsFixes(old(errors[..]), i) then [] else [OVERLAPS]
    ensures forall i :: 0 <= i < errors.Length ==> errors[i].message == old(errors[i].message)
    ensures NoConflicts(errors[..])
  {
    ghost var was := errors[..];
    var sizes := Sizes(errors[..]);
    var files := BuildEvents(errors[..], sizes);
    var apply := new bool[errors.Length](_ => true);
    SweepAll(files, apply, was);
    hide KeepsFixes, KeepsEverywhere, Representable, FileIntervals, EventsOf, NoConflicts;
    forall i | 0 <= i < |was| ensures KeepsFixes(was, i) <==> KeepsEverywhere(was, i) {
      KeepsInEveryFile(was, i);
    }
    ClearFixes(errors, apply);
    assert forall i :: 0 <= i < |was| ==> Cleared(was[i], errors[i], KeepsFixes(was, i));
    ClearedHaveNoConflicts(was, errors[..]);
  }
}
