/**
 How fixes are applied to a file (clang/lib/Rewrite/Rewriter.cpp): the text is changed in
 place, and the offset of a fix, which counts in the original text, is corrected by what
 earlier replacements before it have added or removed.  For fixes that do not overlap
 that is right, whatever their order.
 */
module Rewriting {
  import opened FixConflicts
  import opened FixTexts

  /** By how much a replacement at a position has moved what comes after it. */
  datatype SourceDelta = SourceDelta(fileLoc: nat, delta: int)

  /** getDeltaAt: all changes at smaller positions. */
  function DeltaAt(deltas: seq<SourceDelta>, fileIndex: nat): (r: int) {
    if deltas == [] then 0
    else
      var last := deltas[|deltas| - 1];
      DeltaAt(deltas[..|deltas| - 1], fileIndex) + if last.fileLoc < fileIndex then last.delta else 0
  }

  class RewriteBuffer {
    var deltas: seq<SourceDelta>
    var buffer: string

    constructor (input: string)
      ensures buffer == input && deltas == []
    {
      deltas := [];
      buffer := input;
    }

    function GetMappedOffset(origOffset: nat, afterInserts: bool): (r: int)
      reads this
    {
      DeltaAt(deltas, 2 * origOffset + if afterInserts then 1 else 0) + origOffset
    }

    method ReplaceText(origOffset: nat, origLength: nat, newStr: string)
      requires 0 <= GetMappedOffset(origOffset, true) <= |buffer| - origLength
      modifies this
      ensures var at := old(GetMappedOffset(origOffset, true));
              buffer == old(buffer)[..at] + newStr + old(buffer)[at + origLength..]
      ensures forall index :: DeltaAt(deltas, index) ==
                DeltaAt(old(deltas), index) + if 2 * origOffset + 1 < index then |newStr| - origLength else 0
    {
      var realOffset := GetMappedOffset(origOffset, true);
      buffer := buffer[..realOffset] + buffer[realOffset + origLength..];
      buffer := buffer[..realOffset] + newStr + buffer[realOffset..];
      if origLength != |newStr| {
        deltas := deltas + [SourceDelta(2 * origOffset + 1, |newStr| - origLength)];
      }
    }
  }

  // -- the text as the contents of its original positions

  function Cells(text: string): (cells: seq<string>)
    ensures |cells| == |text|
  {
    seq(|text|, k requires 0 <= k < |text| => [text[k]])
  }

  function Concat(cells: seq<string>): (r: string) {
    if cells == [] then "" else cells[0] + Concat(cells[1..])
  }

  /** What the original text becomes: see Touched and Untouched for what is in its cells. */
  function Rewritten(original: string, rs: seq<Replacement>): (r: string) { Concat(ApplyAll(Cells(original), rs)) }

  lemma {:induction false} ConcatAppend(a: seq<string>, b: seq<string>)
    ensures Concat(a + b) == Concat(a) + Concat(b)
    decreases |a|
  {
    if a == [] {
      assert a + b == b;
    } else {
      assert (a + b)[1..] == a[1..] + b;
      ConcatAppend(a[1..], b);
    }
  }

  lemma {:induction false} ConcatEmpty(cells: seq<string>)
    requires forall k :: 0 <= k < |cells| ==> cells[k] == ""
    ensures Concat(cells) == ""
    decreases |cells|
  {
    if cells != [] {
      ConcatEmpty(cells[1..]);
    }
  }

  lemma {:induction false} ConcatSingles(cells: seq<string>)
    requires forall k :: 0 <= k < |cells| ==> |cells[k]| == 1
    ensures |Concat(cells)| == |cells|
    decreases |cells|
  {
    if cells != [] {
      ConcatSingles(cells[1..]);
    }
  }

  lemma {:induction false} ConcatCells(text: string)
    ensures Concat(Cells(text)) == text
    decreases |text|
  {
    if text != [] {
      assert Cells(text)[1..] == Cells(text[1..]);
      ConcatCells(text[1..]);
    }
  }

  // -- one replacement

  predicate Fits(r: Replacement, size: nat) { r.length > 0 && r.offset + r.length <= size }

  /** Its cells still hold one character each. */
  predicate Fresh(cells: seq<string>, r: Replacement)
    requires Fits(r, |cells|)
  {
    forall k :: r.offset <= k < r.offset + r.length ==> |cells[k]| == 1
  }

  /** What stands before position `k`. */
  function Prefix(cells: seq<string>, k: nat): (r: string)
    requires k <= |cells|
  {
    Concat(cells[..k])
  }

  lemma PrefixSplit(cells: seq<string>, i: nat, k: nat)
    requires i <= k <= |cells|
    ensures Prefix(cells, k) == Prefix(cells, i) + Concat(cells[i..k])
  {
    ConcatAppend(cells[..i], cells[i..k]);
    assert cells[..i] + cells[i..k] == cells[..k];
  }

  lemma WholeText(cells: seq<string>, k: nat)
    requires k <= |cells|
    ensures Concat(cells) == Prefix(cells, k) + Concat(cells[k..])
  {
    PrefixSplit(cells, k, |cells|);
    assert cells[..|cells|] == cells && cells[k..|cells|] == cells[k..];
  }

  lemma CutText(cells: seq<string>, r: Replacement)
    requires Fits(r, |cells|) && Fresh(cells, r)
    ensures var end := r.offset + r.length;
            && |Concat(cells[r.offset..end])| == r.length
            && Prefix(cells, end) == Prefix(cells, r.offset) + Concat(cells[r.offset..end])
  {
    ConcatSingles(cells[r.offset..r.offset + r.length]);
    PrefixSplit(cells, r.offset, r.offset + r.length);
  }

  /** The cells of a replacement hold its text, and the others are as they were. */
  lemma PatchedCells(cells: seq<string>, r: Replacement)
    requires Fits(r, |cells|)
    ensures var out, end := Apply(cells, r), r.offset + r.length;
            && out[..r.offset] == cells[..r.offset] && out[end..] == cells[end..]
            && Concat(out[r.offset..end]) == r.text
  {
    var out, a, end := Apply(cells, r), r.offset, r.offset + r.length;
    assert out[a] == r.text;
    assert out[a..end] == [r.text] + out[a + 1..end];
    ConcatEmpty(out[a + 1..end]);
    assert out[a..end][1..] == out[a + 1..end];
  }

  lemma PatchedText(cells: seq<string>, r: Replacement)
    requires Fits(r, |cells|)
    ensures var out, end := Apply(cells, r), r.offset + r.length;
            && Prefix(out, end) == Prefix(cells, r.offset) + r.text && out[end..] == cells[end..]
  {
    PatchedCells(cells, r);
    hide Apply;
    PrefixSplit(Apply(cells, r), r.offset, r.offset + r.length);
  }

  lemma Around(a: string, middle: string, b: string)
    ensures (a + middle + b)[..|a|] == a && (a + middle + b)[|a| + |middle|..] == b
  {
  }

  /** Replacing the cells is replacing that much text, at the place where they stand now. */
  lemma Splice(cells: seq<string>, r: Replacement)
    requires Fits(r, |cells|) && Fresh(cells, r)
    ensures var at, text := |Prefix(cells, r.offset)|, Concat(cells);
            && at + r.length <= |text|
            && Concat(Apply(cells, r)) == text[..at] + r.text + text[at + r.length..]
  {
    var end := r.offset + r.length;
    CutText(cells, r);
    PatchedText(cells, r);
    WholeText(cells, end);
    WholeText(Apply(cells, r), end);
    hide *;
    Around(Prefix(cells, r.offset), Concat(cells[r.offset..end]), Concat(cells[end..]));
  }

  /** A replacement moves what comes after it. */
  lemma PrefixMoves(cells: seq<string>, r: Replacement, k: nat)
    requires Fits(r, |cells|) && Fresh(cells, r) && k <= |cells| && (k <= r.offset || r.offset + r.length <= k)
    ensures |Prefix(Apply(cells, r), k)| ==
            |Prefix(cells, k)| + if r.offset < k then |r.text| - r.length else 0
  {
    var out, end := Apply(cells, r), r.offset + r.length;
    PatchedCells(cells, r);
    hide Apply, Concat;
    if k <= r.offset {
      assert out[..k] == out[..r.offset][..k] == cells[..k];
    } else {
      CutText(cells, r);
      PatchedText(cells, r);
      PrefixSplit(cells, end, k);
      PrefixSplit(out, end, k);
      assert out[end..k] == out[end..][..k - end] == cells[end..k];
    }
  }

  // -- all of them

  /** The changes of the replacements before position `k`. */
  function Shift(rs: seq<Replacement>, k: nat): (r: int) {
    if rs == [] then 0
    else
      var last := rs[|rs| - 1];
      Shift(rs[..|rs| - 1], k) + if last.offset < k then |last.text| - last.length else 0
  }

  predicate AllFit(rs: seq<Replacement>, size: nat) {
    forall a :: 0 <= a < |rs| ==> Fits(rs[a], size)
  }

  /** The cells of a replacement that overlaps none of those applied are untouched. */
  lemma StaysFresh(text: string, rs: seq<Replacement>, r: Replacement)
    requires Fits(r, |text|) && Disjoint(rs + [r])
    ensures Fresh(ApplyAll(Cells(text), rs), r)
  {
    forall k | r.offset <= k < r.offset + r.length ensures |ApplyAll(Cells(text), rs)[k]| == 1 {
      forall a | 0 <= a < |rs| ensures !Covers(rs[a], k) {
        assert (rs + [r])[a] == rs[a] && (rs + [r])[|rs|] == r;
      }
      Untouched(Cells(text), rs, k);
    }
  }

  /** No replacement begins before position `k` and ends after it. */
  predicate Outside(rs: seq<Replacement>, k: nat) {
    forall a :: 0 <= a < |rs| ==> k <= rs[a].offset || rs[a].offset + rs[a].length <= k
  }

  /** Where the character of an original position now stands. */
  lemma {:induction false} PrefixLength(text: string, rs: seq<Replacement>, k: nat)
    requires AllFit(rs, |text|) && Disjoint(rs) && Outside(rs, k) && k <= |text|
    ensures |Prefix(ApplyAll(Cells(text), rs), k)| == k + Shift(rs, k)
    decreases |rs|
  {
    if rs == [] {
      ConcatSingles(Cells(text)[..k]);
    } else {
      var init, last := rs[..|rs| - 1], rs[|rs| - 1];
      assert init + [last] == rs;
      StaysFresh(text, init, last);
      PrefixLength(text, init, k);
      PrefixMoves(ApplyAll(Cells(text), init), last, k);
    }
  }

  lemma StartsOutside(rs: seq<Replacement>, r: Replacement)
    requires r.length > 0 && Disjoint(rs + [r])
    ensures Outside(rs, r.offset)
  {
    forall a | 0 <= a < |rs| ensures r.offset <= rs[a].offset || rs[a].offset + rs[a].length <= r.offset {
      assert (rs + [r])[a] == rs[a] && (rs + [r])[|rs|] == r;
      assert Covers(r, r.offset);
    }
  }

  /** The buffer holds the rewritten text, and its deltas say where things have moved. */
  ghost predicate Holds(b: RewriteBuffer, original: string, rs: seq<Replacement>)
    reads b
  {
    b.buffer == Rewritten(original, rs) && forall k: nat :: DeltaAt(b.deltas, 2 * k + 1) == Shift(rs, k)
  }

  lemma StillDisjointBefore(rs: seq<Replacement>, r: Replacement)
    requires Disjoint(rs + [r])
    ensures Disjoint(rs)
  {
    forall a, b, k | 0 <= a < b < |rs| && Covers(rs[a], k) ensures !Covers(rs[b], k) {
      assert (rs + [r])[a] == rs[a] && (rs + [r])[b] == rs[b];
    }
  }

  /** The offset of the next replacement, corrected, is where its cells stand now. */
  lemma NextOffset(original: string, rs: seq<Replacement>, r: Replacement)
    requires AllFit(rs, |original|) && Fits(r, |original|) && Disjoint(rs + [r])
    ensures var cells := ApplyAll(Cells(original), rs);
            && Fresh(cells, r) && |Prefix(cells, r.offset)| == r.offset + Shift(rs, r.offset)
  {
    StartsOutside(rs, r);
    StaysFresh(original, rs, r);
    StillDisjointBefore(rs, r);
    hide *;
    PrefixLength(original, rs, r.offset);
  }

  lemma NextReplacement(original: string, rs: seq<Replacement>, r: Replacement)
    requires AllFit(rs, |original|) && Fits(r, |original|) && Disjoint(rs + [r])
    ensures var at, text := r.offset + Shift(rs, r.offset), Rewritten(original, rs);
            && 0 <= at <= |text| - r.length
            && Rewritten(original, rs + [r]) == text[..at] + r.text + text[at + r.length..]
  {
    hide *;
    NextOffset(original, rs, r);
    LastApplied(original, rs, r);
    Splice(ApplyAll(Cells(original), rs), r);
  }

  lemma LastApplied(original: string, rs: seq<Replacement>, r: Replacement)
    ensures Rewritten(original, rs) == Concat(ApplyAll(Cells(original), rs))
    ensures Rewritten(original, rs + [r]) == Concat(Apply(ApplyAll(Cells(original), rs), r))
  {
    assert (rs + [r])[..|rs|] == rs;
  }

  /** Apply the fixes one after the other, in the order they come. */
  method ApplyFixes(b: RewriteBuffer, fixes: seq<Replacement>)
    requires b.deltas == [] && AllFit(fixes, |b.buffer|) && Disjoint(fixes)
    modifies b
    ensures b.buffer == Rewritten(old(b.buffer), fixes)
  {
    ghost var original := b.buffer;
    ConcatCells(original);
    var i := 0;
    while i < |fixes|
      invariant i <= |fixes| && Holds(b, original, fixes[..i])
    {
      var r := fixes[i];
      assert fixes[..i + 1] == fixes[..i] + [r];
      NextReplacement(original, fixes[..i], r);
      b.ReplaceText(r.offset, r.length, r.text);
      i := i + 1;
    }
    assert fixes[..i] == fixes;
  }

  /**
   The fixes of a file that are left do not overlap, so ApplyFixes may apply them in any
   order, and the rewritten text is the same for all orders.
   */
  lemma LeftRewrite(errors: seq<Error>, path: string, places: seq<Place>, places': seq<Place>,
                    perm: seq<nat>, original: string)
    requires NoConflicts(errors) && Chosen(errors, path, places) && Rearranged(places, places', perm)
    ensures Disjoint(ReplacementsAt(errors, places)) && Disjoint(ReplacementsAt(errors, places'))
    ensures Rewritten(original, ReplacementsAt(errors, places)) == Rewritten(original, ReplacementsAt(errors, places'))
  {
    LeftDisjoint(errors, path, places);
    hide NoConflicts, Disjoint, ApplyAll;
    StillDisjoint(ReplacementsAt(errors, places), ReplacementsAt(errors, places'), perm);
    LeftInAnyOrder(errors, path, places, places', perm, Cells(original));
  }
}
