/**
 What several of the models use: an optional value, and sequences without repetitions and
 with an element left out.
 */
module Collections {

  datatype Option<+T> = None | Some(value: T)

  ghost predicate Distinct<T>(s: seq<T>) {
    forall j, k :: 0 <= j < k < |s| ==> s[j] != s[k]
  }

  /** The sequence without its element number `k`. */
  function Without<T>(s: seq<T>, k: nat): (r: seq<T>)
    requires k < |s|
  {
    s[..k] + s[k + 1..]
  }

  /** The others stay in order. */
  lemma WithoutAt<T>(s: seq<T>, k: nat, j: nat)
    requires k < |s| && j < |s| - 1
    ensures |Without(s, k)| == |s| - 1 && Without(s, k)[j] == s[if j < k then j else j + 1]
  {
  }
}
