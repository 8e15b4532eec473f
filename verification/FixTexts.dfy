/**
 Why keeping only fixes that do not overlap is enough: applied to a file in any order,
 they give the same text.
 */
module FixTexts {
  import opened Collections
  import opened FixSweep
  import opened FixConflicts

  predicate Covers(r: Replacement, k: nat) { r.offset <= k < r.offset + r.length }

  /** What a replacement leaves at a position it covers: its text at the first one, nothing at the others. */
  function Leaves(r: Replacement, k: nat): (res: string) { if k == r.offset then r.text else "" }

  /**
   A file is kept as what now stands at each of its original positions, so that offsets
   keep their meaning while replacements are applied.
   */
  function Apply(cells: seq<string>, r: Replacement): (out: seq<string>)
    ensures |out| == |cells|
  {
    seq(|cells|, k requires 0 <= k < |cells| => if Covers(r, k) then Leaves(r, k) else cells[k])
  }

  function ApplyAll(cells: seq<string>, rs: seq<Replacement>): (out: seq<string>)
    ensures |out| == |cells|
  {
    if rs == [] then cells else Apply(ApplyAll(cells, rs[..|rs| - 1]), rs[|rs| - 1])
  }

  ghost predicate Disjoint(rs: seq<Replacement>) {
    forall a, b, k :: 0 <= a < b < |rs| && Covers(rs[a], k) ==> !Covers(rs[b], k)
  }

  lemma {:induction false} Untouched(cells: seq<string>, rs: seq<Replacement>, k: nat)
    requires k < |cells| && forall a :: 0 <= a < |rs| ==> !Covers(rs[a], k)
    ensures ApplyAll(cells, rs)[k] == cells[k]
    decreases |rs|
  {
    if rs != [] {
      Untouched(cells, rs[..|rs| - 1], k);
    }
  }

  lemma {:induction false} Touched(cells: seq<string>, rs: seq<Replacement>, a: nat, k: nat)
    requires k < |cells| && a < |rs| && Covers(rs[a], k) && Disjoint(rs)
    ensures ApplyAll(cells, rs)[k] == Leaves(rs[a], k)
    decreases |rs|
  {
    hide Leaves;
    if a < |rs| - 1 {
      assert !Covers(rs[|rs| - 1], k);
      var init := rs[..|rs| - 1];
      assert init[a] == rs[a];
      Touched(cells, init, a, k);
    }
  }

  ghost predicate Rearranged<T>(s: seq<T>, t: seq<T>, perm: seq<nat>) {
    && |s| == |t| == |perm| && Distinct(perm)
    && forall k :: 0 <= k < |t| ==> perm[k] < |s| && t[k] == s[perm[k]]
  }

  lemma StillDisjoint(rs: seq<Replacement>, rs': seq<Replacement>, perm: seq<nat>)
    requires Disjoint(rs) && Rearranged(rs, rs', perm)
    ensures Disjoint(rs')
  {
  }

  /** Disjoint replacements give the same text in every order. */
  lemma AnyOrder(cells: seq<string>, rs: seq<Replacement>, rs': seq<Replacement>, perm: seq<nat>)
    requires Disjoint(rs) && Rearranged(rs, rs', perm)
    ensures ApplyAll(cells, rs) == ApplyAll(cells, rs')
  {
    StillDisjoint(rs, rs', perm);
    forall k | 0 <= k < |cells| ensures ApplyAll(cells, rs)[k] == ApplyAll(cells, rs')[k] {
      hide ApplyAll, Leaves, Disjoint;
      if a :| 0 <= a < |rs| && Covers(rs[a], k) {
        var a' := Hits(perm, a);
        Touched(cells, rs, a, k);
        Touched(cells, rs', a', k);
      } else {
        Untouched(cells, rs, k);
        Untouched(cells, rs', k);
      }
    }
  }

  /** A place is an error and a replacement of it. */
  datatype Place = Place(i: nat, p: nat)

  /** Different places of non-empty replacements in one file. */
  ghost predicate Chosen(errors: seq<Error>, path: string, places: seq<Place>) {
    && (forall a :: 0 <= a < |places| ==> Has(errors, path, places[a].i, places[a].p))
    && (forall a, b :: 0 <= a < b < |places| ==> places[a] != places[b])
  }

  function ReplacementsAt(errors: seq<Error>, places: seq<Place>): (rs: seq<Replacement>)
    requires forall a :: 0 <= a < |places| ==> places[a].i < |errors| && places[a].p < |errors[places[a].i].fix|
    ensures |rs| == |places|
  {
    seq(|places|, a requires 0 <= a < |places| => errors[places[a].i].fix[places[a].p])
  }

  /** What RemoveIncompatibleErrors leaves covers no position twice. */
  lemma LeftDisjoint(errors: seq<Error>, path: string, places: seq<Place>)
    requires NoConflicts(errors) && Chosen(errors, path, places)
    ensures Disjoint(ReplacementsAt(errors, places))
  {
    var rs := ReplacementsAt(errors, places);
    forall a, b, k | 0 <= a < b < |rs| && Covers(rs[a], k) ensures !Covers(rs[b], k) {
      hide Size;
      assert !Conflict(errors, path, places[a].i, places[a].p, places[b].i, places[b].p);
    }
  }

  /** The fixes of a file that are left give the same text whatever order they are applied in. */
  lemma LeftInAnyOrder(errors: seq<Error>, path: string, places: seq<Place>, places': seq<Place>,
      perm: seq<nat>, cells: seq<string>)
    requires NoConflicts(errors) && Chosen(errors, path, places) && Rearranged(places, places', perm)
    ensures ApplyAll(cells, ReplacementsAt(errors, places)) == ApplyAll(cells, ReplacementsAt(errors, places'))
  {
    LeftDisjoint(errors, path, places);
    hide NoConflicts, Disjoint, ApplyAll;
    AnyOrder(cells, ReplacementsAt(errors, places), ReplacementsAt(errors, places'), perm);
  }
}
