/** Bounds-checked read, removal and insertion on a contiguous growable
    array, as the library implements them for `Vec<T>`. */
module VecFallible {
  import opened Outcomes
  import opened Splice

  /** A growable array: `buffer` is the backing allocation, `capacity` its
      number of slots, and the first `len` slots are the live elements.
      Slots at `len` and beyond hold no meaningful value. */
  class Vec<T> {
    var buffer: array<T>
    var len: nat
    var capacity: nat

    /** The length never exceeds the capacity, which is the size of the
        backing allocation. */
    ghost predicate Valid()
      reads this
    {
      len <= capacity == buffer.Length
    }

    /** The live elements, in order. */
    ghost function Contents(): seq<T>
      reads this, buffer
      requires Valid()
    {
      buffer[..len]
    }

    /** A vector holding exactly `s`, with no spare capacity, as the `vec!`
        macro builds it. */
    constructor FromSeq(s: seq<T>)
      ensures Valid() && fresh(buffer)
      ensures Contents() == s && capacity == |s|
    {
      buffer := new T[|s|](i requires 0 <= i < |s| => s[i]);
      len := |s|;
      capacity := |s|;
    }

    /** Whether `idx` names a live element. */
    function HasIndex(idx: nat): (b: bool)
      reads this, buffer
      requires Valid()
      ensures b <==> idx < |Contents()|
    {
      idx < len
    }

    /** Checked read: the live element at `idx`, or absence when there is
        none. Reads nothing outside the live prefix. */
    function TryGet(idx: nat): (r: Option<T>)
      reads this, buffer
      requires Valid()
      ensures r.Some? <==> HasIndex(idx)
      ensures r.Some? ==> r.value == Contents()[idx]
    {
      if HasIndex(idx) then Some(buffer[idx]) else None
    }

    /** Makes room for at least `additional` more elements beyond the live
        prefix, reallocating when the spare capacity is too small. The live
        elements are copied to the new allocation; `filler` stands for the
        uninitialised memory of its spare slots. */
    method Reserve(additional: nat, filler: T)
      requires Valid()
      modifies this
      ensures Valid()
      ensures len == old(len) && Contents() == old(Contents())
      ensures capacity >= old(len) + additional && capacity >= old(capacity)
      ensures old(capacity) - old(len) >= additional ==> buffer == old(buffer) && capacity == old(capacity)
      ensures buffer == old(buffer) || fresh(buffer)
    {
      if capacity - len < additional {
        var newCapacity := if 2 * capacity > len + additional then 2 * capacity else len + additional;
        var grown := new T[newCapacity](_ => filler);
        var i := 0;
        while i < len
          invariant 0 <= i <= len
          modifies grown
          invariant forall j :: 0 <= j < i ==> grown[j] == buffer[j]
        {
          grown[i] := buffer[i];
          i := i + 1;
        }
        assert grown[..len] == buffer[..len];
        buffer := grown;
        capacity := newCapacity;
      }
    }

    /** Checked removal. When `idx` is live, the element there is handed
        back and the tail after it moves down one slot, low slot first, so
        that every source slot is read before it is overwritten; the length
        drops by one. Otherwise absence is returned and nothing changes. */
    method TryRemove(idx: nat) returns (r: Option<T>)
      requires Valid()
      modifies this, buffer
      ensures Valid() && buffer == old(buffer) && capacity == old(capacity)
      ensures r.Some? <==> idx < old(len)
      ensures r.Some? ==> r.value == old(Contents())[idx]
      ensures r.Some? ==> len == old(len) - 1 && Contents() == RemoveAt(old(Contents()), idx)
      ensures r.Some? ==> forall j :: 0 <= j < idx || old(len) - 1 <= j < capacity ==> buffer[j] == old(buffer[j])
      ensures r.None? ==> unchanged(this) && unchanged(buffer)
    {
      if HasIndex(idx) {
        var ret := buffer[idx];
        var count: nat := len - idx - 1;
        var k := 0;
        while k < count
          invariant 0 <= k <= count
          modifies buffer
          invariant forall j :: 0 <= j < idx ==> buffer[j] == old(buffer[j])
          invariant forall j :: idx <= j < idx + k ==> buffer[j] == old(buffer[j + 1])
          invariant forall j :: idx + k <= j < buffer.Length ==> buffer[j] == old(buffer[j])
        {
          buffer[idx + k] := buffer[idx + k + 1];
          k := k + 1;
        }
        len := len - 1;
        r := Some(ret);
      } else {
        r := None;
      }
    }

    /** Checked insertion at a live index. When `idx < len`, capacity is
        first made at least `len + 1`, the run from `idx` to the end moves up
        one slot, high slot first, so that every source slot is read before
        it is overwritten, `element` is written at `idx` and the length grows
        by one. Insertion at `len` (appending) is refused like any index that
        is not live; on refusal nothing changes. */
    method TryInsert(idx: nat, element: T) returns (r: EmptyResult)
      requires Valid()
      modifies this, buffer
      ensures Valid()
      ensures r.Ok? <==> idx < old(len)
      ensures r.Ok? ==> len == old(len) + 1 && Contents() == InsertAt(old(Contents()), idx, element)
      ensures r.Ok? ==> capacity >= old(capacity) && (buffer == old(buffer) || fresh(buffer))
      ensures r.Ok? && old(len) < old(capacity) ==> buffer == old(buffer) && capacity == old(capacity)
      ensures r.Err? ==> unchanged(this) && unchanged(buffer)
    {
      if HasIndex(idx) {
        var n := len;
        if n == capacity {
          Reserve(1, element);
        }
        ghost var before := buffer[..];
        assert before[..n] == old(Contents());
        var k := n - idx;
        while k > 0
          invariant 0 <= k <= n - idx
          modifies buffer
          invariant forall j :: 0 <= j <= idx + k ==> buffer[j] == before[j]
          invariant forall j :: idx + k < j <= n ==> buffer[j] == before[j - 1]
        {
          buffer[idx + k] := buffer[idx + k - 1];
          k := k - 1;
        }
        buffer[idx] := element;
        len := n + 1;
        assert Contents() == InsertAt(before[..n], idx, element);
        r := Ok;
      } else {
        r := Err;
      }
    }
  }
}
