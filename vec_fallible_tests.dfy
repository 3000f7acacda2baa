/** The library's unit tests for `Vec<T>`, restated as client methods whose
    postconditions are the tests' assertions, and two clients that combine
    removal and insertion. */
module VecFallibleTests {
  import opened Outcomes
  import opened Splice
  import opened VecFallible

  /** In `[1, 2, 3]`, index 0 is live and index 3 is not. */
  method HasIndexScenario() returns (at0: bool, at3: bool)
    ensures at0 && !at3
  {
    var v := new Vec.FromSeq([1, 2, 3]);
    at0 := v.HasIndex(0);
    at3 := v.HasIndex(3);
  }

  /** In `[1, 2, 3, 4]`, index 0 reads 1, index 3 reads 4, index 4 reads
      nothing. */
  method TryGetScenario() returns (at0: Option<int>, at3: Option<int>, at4: Option<int>)
    ensures at0 == Some(1) && at3 == Some(4) && at4 == None
  {
    var v := new Vec.FromSeq([1, 2, 3, 4]);
    at0 := v.TryGet(0);
    at3 := v.TryGet(3);
    at4 := v.TryGet(4);
  }

  /** From `[1, 2, 3, 4]`, removing index 0 gives 1, then removing index 2
      gives 4, leaving `[2, 3]`, from which removing index 2 gives nothing. */
  method TryRemoveScenario() returns (first: Option<int>, second: Option<int>, third: Option<int>, rest: seq<int>)
    ensures first == Some(1) && second == Some(4) && third == None
    ensures rest == [2, 3]
  {
    var v := new Vec.FromSeq([1, 2, 3, 4]);
    first := v.TryRemove(0);
    assert v.Contents() == [2, 3, 4];
    second := v.TryRemove(2);
    assert v.Contents() == [2, 3];
    third := v.TryRemove(2);
    rest := v.buffer[..v.len];
  }

  /** Into `[1, 2, 4]`, inserting 3 at index 2 succeeds; inserting 5 at
      index 4 (past the end) then fails, leaving `[1, 2, 3, 4]`. */
  method TryInsertScenario() returns (first: EmptyResult, second: EmptyResult, after: seq<int>)
    ensures first == Ok && second == Err
    ensures after == [1, 2, 3, 4]
  {
    var v := new Vec.FromSeq([1, 2, 4]);
    first := v.TryInsert(2, 3);
    assert v.Contents() == [1, 2, 3, 4];
    second := v.TryInsert(4, 5);
    after := v.buffer[..v.len];
  }

  /** Inserting at a live index and then removing at the same index hands
      back the inserted element and restores the original contents. */
  method InsertThenRemove<T>(v: Vec<T>, idx: nat, element: T) returns (inserted: EmptyResult, removed: Option<T>)
    requires v.Valid()
    modifies v, v.buffer
    ensures v.Valid()
    ensures inserted.Ok? <==> idx < old(v.len)
    ensures inserted.Ok? ==> removed == Some(element)
    ensures inserted.Err? ==> removed == None
    ensures v.Contents() == old(v.Contents())
  {
    ghost var original := v.Contents();
    inserted := v.TryInsert(idx, element);
    removed := v.TryRemove(idx);
    if inserted.Ok? {
      Splice.InsertThenRemove(original, idx, element);
    } else {
      assert removed.None?;
    }
  }

  /** Removing at a live index and inserting the removed element back at
      the same index restores the original contents, except when the index
      was the last one: the shortened vector no longer has that index, so
      the reinsertion is refused and the element stays out. When nothing is
      removed, no reinsertion is attempted (`reinserted` is `None`). */
  method RemoveThenReinsert<T>(v: Vec<T>, idx: nat) returns (removed: Option<T>, reinserted: Option<EmptyResult>)
    requires v.Valid()
    modifies v, v.buffer
    ensures v.Valid()
    ensures removed.Some? <==> idx < old(v.len)
    ensures reinserted.Some? <==> removed.Some?
    ensures idx + 1 < old(v.len) ==> reinserted == Some(Ok) && v.Contents() == old(v.Contents())
    ensures idx + 1 == old(v.len) ==> reinserted == Some(Err) && v.Contents() == old(v.Contents())[..idx]
    ensures old(v.len) <= idx ==> v.Contents() == old(v.Contents())
  {
    ghost var original := v.Contents();
    removed := v.TryRemove(idx);
    if removed.Some? {
      var outcome := v.TryInsert(idx, removed.value);
      reinserted := Some(outcome);
      if outcome.Ok? {
        RemoveThenInsert(original, idx);
      }
    } else {
      reinserted := None;
    }
  }
}
