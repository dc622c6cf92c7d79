/** Duplicate-free sequences, and the removal of duplicates the subgraph
    neighbourhood applies to its candidate list. */
module Collections {

  /** No element occurs twice. */
  predicate Distinct<T(==)>(s: seq<T>)
  {
    forall i, j | 0 <= i < j < |s| :: s[i] != s[j]
  }

  /** The elements of `s` without repetitions, each kept at its first
      occurrence. `removeDuplicate` is not part of this model; every contract
      that uses this function depends only on the elements it keeps, not on
      their order. */
  function Dedup<T(==)>(s: seq<T>): (r: seq<T>)
    ensures Distinct(r)
    ensures forall x | x in r :: x in s
    ensures forall x | x in s :: x in r
  {
    if |s| == 0 then []
    else
      var r := Dedup(s[..|s| - 1]);
      assert forall x | x in s :: x in s[..|s| - 1] || x == s[|s| - 1];
      if s[|s| - 1] in r then r else r + [s[|s| - 1]]
  }
}
