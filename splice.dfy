/** The abstract effect of positional removal and insertion on the live
    elements of a sequence, and the facts that relate the two. */
module Splice {

  /** The sequence `s` with the element at `i` deleted; every later element
      moves down by one place and relative order is kept. */
  function RemoveAt<T>(s: seq<T>, i: nat): (r: seq<T>)
    requires i < |s|
    ensures |r| == |s| - 1
    ensures forall k :: 0 <= k < i ==> r[k] == s[k]
    ensures forall k :: i <= k < |r| ==> r[k] == s[k + 1]
  {
    s[..i] + s[i + 1..]
  }

  /** The sequence `s` with `e` placed at `i`; the element previously at `i`
      and every later one move up by one place, relative order kept. */
  function InsertAt<T>(s: seq<T>, i: nat, e: T): (r: seq<T>)
    requires i <= |s|
    ensures |r| == |s| + 1
    ensures r[i] == e
    ensures forall k :: 0 <= k < i ==> r[k] == s[k]
    ensures forall k :: i < k < |r| ==> r[k] == s[k - 1]
  {
    s[..i] + [e] + s[i..]
  }

  /** Removing what was just inserted at the same place gives back the
      original sequence. */
  lemma InsertThenRemove<T>(s: seq<T>, i: nat, e: T)
    requires i <= |s|
    ensures InsertAt(s, i, e)[i] == e
    ensures RemoveAt(InsertAt(s, i, e), i) == s
  {
  }

  /** Putting a removed element back where it was gives back the original
      sequence. */
  lemma RemoveThenInsert<T>(s: seq<T>, i: nat)
    requires i < |s|
    ensures InsertAt(RemoveAt(s, i), i, s[i]) == s
  {
  }

  /** Removal loses exactly the removed element: nothing is duplicated and
      nothing else is dropped. */
  lemma RemoveAtMultiset<T>(s: seq<T>, i: nat)
    requires i < |s|
    ensures multiset(RemoveAt(s, i)) + multiset{s[i]} == multiset(s)
  {
    assert s == s[..i] + [s[i]] + s[i + 1..];
  }

  /** Insertion adds exactly the inserted element: nothing is duplicated and
      nothing is dropped. */
  lemma InsertAtMultiset<T>(s: seq<T>, i: nat, e: T)
    requires i <= |s|
    ensures multiset(InsertAt(s, i, e)) == multiset(s) + multiset{e}
  {
    assert s == s[..i] + s[i..];
  }
}
