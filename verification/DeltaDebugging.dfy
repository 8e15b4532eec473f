/**
 DeltaAlgorithm of clang/utils/token-delta.py: what it computes, as functions of the test
 alone, and what that is worth.  A list of changes stands for the set of its elements.
 */
module DeltaDebugging {
  import opened Collections

  function Elems<T>(s: seq<T>): (r: set<T>) { set x | x in s }

  /** split: one or two pieces. */
  function Split<T>(s: seq<T>): (r: seq<seq<T>>) {
    var mid := |s| / 2;
    if mid == 0 then [s] else [s[..mid], s[mid..]]
  }

  /** A list of two elements or more is split in halves, of which the second may be longer by one. */
  lemma SplitHalves<T>(s: seq<T>)
    requires |s| >= 2
    ensures var pieces := Split(s);
            |pieces| == 2 && pieces[0] + pieces[1] == s && |pieces[0]| <= |pieces[1]| <= |pieces[0]| + 1
  {
  }

  function Flatten<T>(sets: seq<seq<T>>): (r: seq<T>) {
    if sets == [] then [] else sets[0] + Flatten(sets[1..])
  }

  function Refine<T>(sets: seq<seq<T>>): (r: seq<seq<T>>) {
    if sets == [] then [] else Split(sets[0]) + Refine(sets[1..])
  }

  ghost predicate NonEmpty<T>(sets: seq<seq<T>>) {
    forall i :: 0 <= i < |sets| ==> sets[i] != []
  }

  /** The pieces make up the list, none is empty, and a single piece is a single element. */
  ghost predicate Parts<T>(c: seq<T>, sets: seq<seq<T>>) {
    Flatten(sets) == c && NonEmpty(sets) && sets != [] && (|sets| == 1 ==> |c| == 1)
  }

  lemma {:induction false} FlattenConcat<T>(a: seq<seq<T>>, b: seq<seq<T>>)
    ensures Flatten(a + b) == Flatten(a) + Flatten(b)
    decreases |a|
  {
    if a == [] {
      assert a + b == b;
    } else {
      assert (a + b)[1..] == a[1..] + b;
      FlattenConcat(a[1..], b);
      assert a[0] + (Flatten(a[1..]) + Flatten(b)) == (a[0] + Flatten(a[1..])) + Flatten(b);
    }
  }

  lemma {:induction false} FlattenLength<T>(sets: seq<seq<T>>)
    requires NonEmpty(sets)
    ensures |sets| <= |Flatten(sets)|
    decreases |sets|
  {
    if sets != [] {
      assert NonEmpty(sets[1..]) by {
        forall i | 0 <= i < |sets[1..]| ensures sets[1..][i] != [] {
          assert sets[1..][i] == sets[i + 1];
        }
      }
      FlattenLength(sets[1..]);
    }
  }

  lemma FlattenOne<T>(s: seq<T>)
    ensures Flatten([s]) == s
  {
    assert [s][1..] == [];
  }

  lemma FlattenTwo<T>(s: seq<T>, t: seq<T>)
    ensures Flatten([s, t]) == s + t
  {
    assert [s, t][1..] == [t];
    FlattenOne(t);
  }

  /** A piece, with what is before and after it. */
  lemma FlattenAt<T>(sets: seq<seq<T>>, i: nat)
    requires i < |sets|
    ensures Flatten(sets) == Flatten(sets[..i]) + sets[i] + Flatten(sets[i + 1..])
    ensures Flatten(Without(sets, i)) == Flatten(sets[..i]) + Flatten(sets[i + 1..])
  {
    FlattenConcat(sets[..i], sets[i..]);
    FlattenConcat(sets[..i], sets[i + 1..]);
    FlattenHead(sets[i..]);
    Halves(sets, i);
    hide Flatten;
    assert Flatten(sets[..i]) + (sets[i] + Flatten(sets[i + 1..])) ==
           Flatten(sets[..i]) + sets[i] + Flatten(sets[i + 1..]);
  }

  lemma FlattenHead<T>(sets: seq<seq<T>>)
    requires sets != []
    ensures Flatten(sets) == sets[0] + Flatten(sets[1..])
  {
  }

  lemma Halves<T>(s: seq<T>, i: nat)
    requires i < |s|
    ensures s[..i] + s[i..] == s && s[i..][0] == s[i] && s[i..][1..] == s[i + 1..]
  {
  }

  lemma SplitParts<T>(s: seq<T>)
    requires s != []
    ensures Parts(s, Split(s))
  {
    if |s| / 2 == 0 {
      FlattenOne(s);
    } else {
      FlattenTwo(s[..|s| / 2], s[|s| / 2..]);
    }
  }

  /** With at least two pieces, a piece and what is left without it are both smaller than the whole. */
  lemma SmallerPieces<T>(c: seq<T>, sets: seq<seq<T>>, i: nat)
    requires Parts(c, sets) && |sets| >= 2 && i < |sets|
    ensures 0 < |sets[i]| < |c| && |Flatten(Without(sets, i))| < |c|
    ensures |sets| > 2 ==> Parts(Flatten(Without(sets, i)), Without(sets, i))
  {
    FlattenAt(sets, i);
    var rest := Without(sets, i);
    forall j | 0 <= j < |rest| ensures rest[j] != [] {
      assert rest[j] == if j < i then sets[j] else sets[j + 1];
    }
    FlattenLength(rest);
  }

  lemma {:induction false} RefineParts<T>(sets: seq<seq<T>>)
    requires NonEmpty(sets)
    ensures Flatten(Refine(sets)) == Flatten(sets) && NonEmpty(Refine(sets)) && |sets| <= |Refine(sets)|
    ensures |Refine(sets)| == |sets| ==> forall i :: 0 <= i < |sets| ==> |sets[i]| == 1
    decreases |sets|
  {
    if sets != [] {
      var first, rest := sets[0], sets[1..];
      forall i | 0 <= i < |rest| ensures rest[i] != [] {
        assert rest[i] == sets[i + 1];
      }
      RefineParts(rest);
      SplitParts(first);
      FlattenConcat(Split(first), Refine(rest));
      if |Refine(sets)| == |sets| {
        forall i | 0 <= i < |sets| ensures |sets[i]| == 1 {
          assert i > 0 ==> sets[i] == rest[i - 1];
        }
      }
    }
  }

  lemma RefinedParts<T>(c: seq<T>, sets: seq<seq<T>>)
    requires Parts(c, sets) && |sets| >= 2
    ensures Parts(c, Refine(sets)) && |sets| <= |Refine(sets)| <= |c|
  {
    RefineParts(sets);
    FlattenLength(Refine(sets));
  }

  // -- delta and search, as functions of the test

  function Delta<T>(test: set<T> -> bool, c: seq<T>, sets: seq<seq<T>>): (r: seq<T>)
    requires Parts(c, sets)
    decreases |c|, |c| - |sets|, |sets| + 1
  {
    if |sets| <= 1 then c
    else
      match Search(test, c, sets, 0)
      case Some(res) => res
      case None =>
        RefinedParts(c, sets);
        var refined := Refine(sets);
        if |refined| == |sets| then c else Delta(test, c, refined)
  }

  function Search<T>(test: set<T> -> bool, c: seq<T>, sets: seq<seq<T>>, i: nat): (r: Option<seq<T>>)
    requires Parts(c, sets) && |sets| >= 2 && i <= |sets|
    decreases |c|, |c| - |sets|, |sets| - i
  {
    if i == |sets| then None
    else
      SmallerPieces(c, sets, i);
      SplitParts(sets[i]);
      var complement := Flatten(Without(sets, i));
      if test(Elems(sets[i])) then Some(Delta(test, sets[i], Split(sets[i])))
      else if |sets| > 2 && test(Elems(complement)) then Some(Delta(test, complement, Without(sets, i)))
      else Search(test, c, sets, i + 1)
  }

  // -- what the result is worth

  /** No single element can be left out. */
  ghost predicate Minimal<T>(test: set<T> -> bool, c: seq<T>) {
    forall i :: 0 <= i < |c| ==> !test(Elems(Without(c, i)))
  }

  ghost predicate Good<T>(test: set<T> -> bool, c: seq<T>, r: seq<T>) {
    test(Elems(r)) && Elems(r) <= Elems(c) && Minimal(test, r)
  }

  /** Search comes back empty only if each piece, and what is left without it, fails. */
  lemma {:induction false} SearchNone<T>(test: set<T> -> bool, c: seq<T>, sets: seq<seq<T>>, i: nat, j: nat)
    requires Parts(c, sets) && |sets| >= 2 && i <= j < |sets| && Search(test, c, sets, i) == None
    ensures !test(Elems(sets[j])) && (|sets| > 2 ==> !test(Elems(Flatten(Without(sets, j)))))
    decreases |sets| - i
  {
    hide Parts, Delta, Flatten, Elems;
    if i < j {
      SearchNone(test, c, sets, i + 1, j);
    }
  }

  /** Pieces of one element each are the elements. */
  lemma {:induction false} Singles<T>(sets: seq<seq<T>>, i: nat)
    requires (forall j :: 0 <= j < |sets| ==> |sets[j]| == 1) && i < |sets|
    ensures |Flatten(sets)| == |sets| && Flatten(Without(sets, i)) == Without(Flatten(sets), i)
    decreases |sets|
  {
    FlattenAt(sets, i);
    SinglesLength(sets[..i]);
    SinglesLength(sets[i + 1..]);
  }

  lemma {:induction false} SinglesLength<T>(sets: seq<seq<T>>)
    requires forall j :: 0 <= j < |sets| ==> |sets[j]| == 1
    ensures |Flatten(sets)| == |sets|
    decreases |sets|
  {
    if sets != [] {
      SinglesLength(sets[1..]);
    }
  }

  lemma NothingFound<T>(test: set<T> -> bool, c: seq<T>, sets: seq<seq<T>>)
    requires Parts(c, sets) && |sets| >= 2 && Search(test, c, sets, 0) == None && |Refine(sets)| == |sets|
    ensures Minimal(test, c)
  {
    RefineParts(sets);
    SinglesLength(sets);
    forall i | 0 <= i < |c| ensures !test(Elems(Without(c, i))) {
      Singles(sets, i);
      SearchNone(test, c, sets, 0, i);
      if |sets| == 2 {
        SearchNone(test, c, sets, 0, 1 - i);
        OtherPiece(sets, i);
      }
      hide Search, Flatten, Elems, Refine;
    }
  }

  lemma OtherPiece<T>(sets: seq<seq<T>>, i: nat)
    requires |sets| == 2 && i < 2
    ensures Flatten(Without(sets, i)) == sets[1 - i]
  {
    FlattenOne(sets[1 - i]);
    assert Without(sets, i) == [sets[1 - i]];
  }

  lemma SingleMinimal<T>(test: set<T> -> bool, c: seq<T>)
    requires |c| == 1 && !test({})
    ensures Minimal(test, c)
  {
    assert Without(c, 0) == [];
    assert Elems(Without(c, 0)) == {};
  }

  lemma PieceElems<T>(c: seq<T>, sets: seq<seq<T>>, i: nat)
    requires Parts(c, sets) && i < |sets|
    ensures Elems(sets[i]) <= Elems(c) && Elems(Flatten(Without(sets, i))) <= Elems(c)
  {
    FlattenAt(sets, i);
  }

  lemma {:induction false} DeltaGood<T>(test: set<T> -> bool, c: seq<T>, sets: seq<seq<T>>)
    requires Parts(c, sets) && test(Elems(c)) && !test({})
    ensures Good(test, c, Delta(test, c, sets))
    decreases |c|, |c| - |sets|, |sets| + 1
  {
    hide Elems, Minimal, Flatten, Refine;
    if |sets| <= 1 {
      SingleMinimal(test, c);
    } else {
      SearchGood(test, c, sets, 0);
      if Search(test, c, sets, 0) == None {
        RefinedParts(c, sets);
        if |Refine(sets)| == |sets| {
          NothingFound(test, c, sets);
        } else {
          DeltaGood(test, c, Refine(sets));
        }
      }
    }
  }

  lemma {:induction false} SearchGood<T>(test: set<T> -> bool, c: seq<T>, sets: seq<seq<T>>, i: nat)
    requires Parts(c, sets) && |sets| >= 2 && i <= |sets| && !test({})
    ensures Search(test, c, sets, i).Some? ==> Good(test, c, Search(test, c, sets, i).value)
    decreases |c|, |c| - |sets|, |sets| - i
  {
    hide Elems, Minimal, Flatten, Delta, Split;
    if i < |sets| {
      SmallerPieces(c, sets, i);
      SplitParts(sets[i]);
      PieceElems(c, sets, i);
      var complement := Flatten(Without(sets, i));
      if test(Elems(sets[i])) {
        DeltaGood(test, sets[i], Split(sets[i]));
      } else if |sets| > 2 && test(Elems(complement)) {
        DeltaGood(test, complement, Without(sets, i));
      } else {
        SearchGood(test, c, sets, i + 1);
      }
    }
  }

  /** Adding changes to a passing set keeps it passing. */
  ghost predicate Monotone<T(!new)>(test: set<T> -> bool) {
    forall a, b :: a <= b && test(a) ==> test(b)
  }

  /** For a monotone test, no proper subset of a minimal list passes. */
  lemma NoSmallerPasses<T(!new)>(test: set<T> -> bool, r: seq<T>, smaller: set<T>)
    requires Minimal(test, r) && Monotone(test) && smaller < Elems(r)
    ensures !test(smaller)
  {
    var x :| x in Elems(r) && x !in smaller;
    var i :| 0 <= i < |r| && r[i] == x;
    var rest := Elems(Without(r, i));
    forall y | y in smaller ensures y in rest {
      var j :| 0 <= j < |r| && r[j] == y;
      assert Without(r, i)[if j < i then j else j - 1] == y;
    }
    assert smaller <= rest && !test(rest);
  }

  /** A minimal list that passes has no element twice. */
  lemma NoRepeats<T>(test: set<T> -> bool, r: seq<T>, i: nat, j: nat)
    requires Minimal(test, r) && test(Elems(r)) && i < j < |r|
    ensures r[i] != r[j]
  {
    if r[i] == r[j] {
      SameWithout(r, i, j);
    }
  }

  lemma SameWithout<T>(r: seq<T>, i: nat, j: nat)
    requires i < j < |r| && r[i] == r[j]
    ensures Elems(Without(r, i)) == Elems(r)
  {
  }

  // -- run

  /** `Fails` is the ValueError for an initial test that fails. */
  datatype Reduction<T> = Fails | Reduced(changes: seq<T>)

  function Run<T>(test: set<T> -> bool, changes: seq<T>): (r: Reduction<T>) {
    if !test(Elems(changes)) then Fails
    else if test({}) then Reduced([])
    else
      NotEmpty(test, changes);
      SplitParts(changes);
      Reduced(Delta(test, changes, Split(changes)))
  }

  lemma NotEmpty<T>(test: set<T> -> bool, changes: seq<T>)
    requires test(Elems(changes)) && !test({})
    ensures changes != []
  {
    NoElems<T>();
  }

  lemma NoElems<T>()
    ensures Elems<T>([]) == {}
  {
  }

  /**
   What run returns: nothing, exactly when the initial test fails; otherwise a passing
   subset none of whose elements can be left out, and of which, for a monotone test, no
   proper subset passes.
   */
  lemma RunIsMinimal<T(!new)>(test: set<T> -> bool, changes: seq<T>)
    ensures Run(test, changes) == Fails <==> !test(Elems(changes))
    ensures Run(test, changes).Reduced? ==>
              var r := Run(test, changes).changes;
              Good(test, changes, r) && (Monotone(test) ==> forall smaller :: smaller < Elems(r) ==> !test(smaller))
  {
    hide Monotone, Split, Delta;
    if Run(test, changes).Reduced? {
      if test({}) {
        EmptyGood(test, changes);
      } else {
        NotEmpty(test, changes);
        SplitParts(changes);
        DeltaGood(test, changes, Split(changes));
      }
      hide Run;
      var r := Run(test, changes).changes;
      forall smaller | Monotone(test) && smaller < Elems(r) ensures !test(smaller) {
        NoSmallerPasses(test, r, smaller);
      }
    }
  }

  lemma EmptyGood<T>(test: set<T> -> bool, changes: seq<T>)
    requires test({})
    ensures Good(test, changes, [])
  {
    assert Elems<T>([]) == {};
  }
}
