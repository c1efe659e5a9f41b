/**
 * The part of `itertools` that the chicken-rescue validator relies on:
 * `Itertools::unique`, which yields each distinct element once, in the
 * order of its first occurrence.
 */
module IterUnique {

  /** No two indices hold equal values. */
  predicate Distinct<T(==)>(s: seq<T>) {
    forall i, j :: 0 <= i < j < |s| ==> s[i] != s[j]
  }

  /**
   * The elements `s.iter().unique()` yields. The body keeps element `s[k]`
   * exactly when it does not occur in `s[..k]`, which is how `unique` orders
   * its output; the contract states only the element set, distinctness and
   * the bound on the count, which is all the validator uses.
   */
  function Unique<T(==)>(s: seq<T>): (u: seq<T>)
    ensures forall i :: 0 <= i < |u| ==> u[i] in s
    ensures forall i :: 0 <= i < |s| ==> s[i] in u
    ensures Distinct(u)
    ensures |u| <= |s|
    decreases |s|
  {
    if s == [] then []
    else
      var seen := Unique(s[..|s| - 1]);
      if s[|s| - 1] in seen then seen else seen + [s[|s| - 1]]
  }

  /**
   * `s.iter().unique().count() == s.len()` holds exactly when no two
   * indices of `s` hold equal values.
   */
  lemma {:induction false} UniqueLengthIffDistinct<T>(s: seq<T>)
    ensures |Unique(s)| == |s| <==> Distinct(s)
  {
    if s != [] {
      var prefix, last := s[..|s| - 1], s[|s| - 1];
      UniqueLengthIffDistinct(prefix);
      assert forall i :: 0 <= i < |prefix| ==> prefix[i] == s[i];
      if Distinct(s) {
        assert Distinct(prefix);
        assert last !in prefix by {
          forall i | 0 <= i < |prefix| ensures prefix[i] != last {
            assert s[i] != s[|s| - 1];
          }
        }
      }
      if |Unique(s)| == |s| {
        assert last !in Unique(prefix);
        assert Distinct(prefix);
        forall i, j | 0 <= i < j < |s| ensures s[i] != s[j] {
          if j < |s| - 1 {
            assert prefix[i] != prefix[j];
          } else {
            assert prefix[i] in prefix;
          }
        }
      }
    }
  }
}
