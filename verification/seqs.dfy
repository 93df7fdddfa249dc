/** Python's `set(list)` and the order relations used to state the filters. */
module Seqs {

  /** `set(s)`: the distinct elements of a list. */
  function ToSet<T(!new)>(s: seq<T>): (r: set<T>)
    ensures forall x :: x in r <==> x in s
    ensures |r| <= |s|
  {
    if s == [] then {} else {s[0]} + ToSet(s[1..])
  }

  /** No entry of the list occurs twice. */
  predicate NoDuplicates<T(==)>(s: seq<T>) {
    s == [] || (s[0] !in s[1..] && NoDuplicates(s[1..]))
  }

  /** In a list without repeated entries, different positions hold different entries. */
  lemma {:induction false} NoDuplicatesAt<T>(s: seq<T>, i: int, j: int)
    requires NoDuplicates(s)
    requires 0 <= i < j < |s|
    ensures s[i] != s[j]
  {
    if i == 0 {
      assert s[j] == s[1..][j - 1];
    } else {
      NoDuplicatesAt(s[1..], i - 1, j - 1);
    }
  }

  /** A list has as many distinct elements as entries exactly when no entry repeats. */
  lemma {:induction false} ToSetSizeIffNoDuplicates<T(!new)>(s: seq<T>)
    ensures |ToSet(s)| == |s| <==> NoDuplicates(s)
  {
    if s != [] {
      ToSetSizeIffNoDuplicates(s[1..]);
      if s[0] in s[1..] {
        assert ToSet(s) == ToSet(s[1..]);
      } else {
        assert s[0] !in ToSet(s[1..]);
      }
    }
  }

  /** `sub` keeps some of the entries of `s`, in their order in `s`. */
  predicate IsSubsequence<T(==)>(sub: seq<T>, s: seq<T>)
    decreases |s|
  {
    if sub == [] then true
    else if s == [] then false
    else (sub[0] == s[0] && IsSubsequence(sub[1..], s[1..])) || IsSubsequence(sub, s[1..])
  }
}
