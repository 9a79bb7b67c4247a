/** Small facts about finite sequences used by both checkers. */
module Sequences {

  /** Python's `set(s)`: the elements of `s`, forgetting order and repetition. */
  function SetOf<T>(s: seq<T>): set<T>
  {
    set x | x in s
  }

  /** `a` is `b` with some elements dropped, the rest kept in order. */
  predicate IsSubsequence<T(==)>(a: seq<T>, b: seq<T>)
    decreases |b|
  {
    if a == [] then true
    else if b == [] then false
    else (a[0] == b[0] && IsSubsequence(a[1..], b[1..])) || IsSubsequence(a, b[1..])
  }

  /** No element occurs twice in `s`. */
  predicate Distinct<T(==)>(s: seq<T>)
  {
    forall i, j :: 0 <= i < j < |s| ==> s[i] != s[j]
  }

  /** `order` lists every element of `s` exactly once: one iteration of a Python `for x in s`. */
  predicate Enumerates<T(==,!new)>(order: seq<T>, s: set<T>)
  {
    Distinct(order) && (forall x :: x in order ==> x in s) && (forall x :: x in s ==> x in order)
  }
}
