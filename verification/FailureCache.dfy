/**
 The class DeltaAlgorithm of clang/utils/token-delta.py, with its cache of failing sets.
 */
module FailureCache {
  import opened Collections
  import opened DeltaDebugging

  class DeltaAlgorithm<T(==)> {
    const test: set<T> -> bool
    var cache: set<set<T>>
    ghost var tested: seq<set<T>>  // the sets the test was run on, in order

    /** The cache holds exactly the sets found to fail, and no set was found to fail twice. */
    ghost predicate Valid()
      reads this
    {
      && (forall s | s in cache :: s in tested && !test(s))
      && (forall i :: 0 <= i < |tested| && !test(tested[i]) ==> tested[i] in cache)
      && (forall i, j :: 0 <= i < j < |tested| && tested[i] == tested[j] ==> test(tested[i]))
    }

    constructor (test: set<T> -> bool)
      ensures Valid() && this.test == test && cache == {} && tested == []
    {
      this.test := test;
      cache := {};
      tested := [];
    }

    /** getTestResult: the answer of the test, which is run only on a set not known to fail. */
    method GetTestResult(changes: seq<T>) returns (r: bool)
      requires Valid()
      modifies this
      ensures Valid() && old(cache) <= cache
      ensures r == test(Elems(changes))
      ensures tested == old(tested) + if Elems(changes) in old(cache) then [] else [Elems(changes)]
    {
      var changeset := Elems(changes);
      if changeset in cache {
        return false;
      }
      tested := tested + [changeset];
      if !test(changeset) {
        cache := cache + {changeset};
        return false;
      }
      return true;
    }

    method Run(changes: seq<T>) returns (r: Reduction<T>)
      requires Valid()
      modifies this
      ensures Valid() && old(cache) <= cache
      ensures r == DeltaDebugging.Run(test, changes)
    {
      hide Valid;
      var passes := GetTestResult(changes);
      if !passes {
        return Fails;
      }
      assert Elems<T>([]) == {};
      passes := GetTestResult([]);
      if passes {
        return Reduced([]);
      }
      NotEmpty(test, changes);
      SplitParts(changes);
      hide Elems;
      var res := Delta(changes, Split(changes));
      r := Reduced(res);
    }

    method Delta(c: seq<T>, sets: seq<seq<T>>) returns (r: seq<T>)
      requires Valid() && Parts(c, sets)
      modifies this
      ensures Valid() && old(cache) <= cache
      ensures r == DeltaDebugging.Delta(test, c, sets)
      decreases |c|, |c| - |sets|, |sets| + 1
    {
      hide Valid, Elems;
      if |sets| <= 1 {
        return c;
      }
      var res := Search(c, sets);
      if res.Some? {
        return res.value;
      }
      RefinedParts(c, sets);
      var refined := Refine(sets);
      if |refined| == |sets| {
        return c;
      }
      r := Delta(c, refined);
    }

    method Search(c: seq<T>, sets: seq<seq<T>>) returns (r: Option<seq<T>>)
      requires Valid() && Parts(c, sets) && |sets| >= 2
      modifies this
      ensures Valid() && old(cache) <= cache
      ensures r == DeltaDebugging.Search(test, c, sets, 0)
      decreases |c|, |c| - |sets|, |sets|
    {
      hide Valid, Elems, Parts, DeltaDebugging.Delta, Flatten;
      var i := 0;
      while i < |sets|
        invariant 0 <= i <= |sets| && Valid() && old(cache) <= cache
        invariant DeltaDebugging.Search(test, c, sets, 0) == DeltaDebugging.Search(test, c, sets, i)
      {
        SmallerPieces(c, sets, i);
        SplitParts(sets[i]);
        var passes := GetTestResult(sets[i]);
        if passes {
          var res := Delta(sets[i], Split(sets[i]));
          return Some(res);
        }
        if |sets| > 2 {
          var complement := Flatten(Without(sets, i));
          passes := GetTestResult(complement);
          if passes {
            var res := Delta(complement, Without(sets, i));
            return Some(res);
          }
        }
        i := i + 1;
      }
      r := None;
    }
  }
}
