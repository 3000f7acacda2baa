# Fallible positional operations on a growable array

This project models the `Vec<T>` implementation of the `FallibleSequence`
trait of the `rust-fallible-collections` library: four bounds-checked
operations on a contiguous growable array that report an invalid index as a
value instead of panicking.

- `has_index(idx)` — whether `idx` is a live index (`idx < len`).
- `try_get(idx)` — the live element at `idx`, or `None`.
- `try_remove(idx)` — on a live index, reads the element out, block-moves the
  tail `[idx+1, len)` one slot down and decrements the length; otherwise
  `None` and no change.
- `try_insert(idx, element)` — on a live index, reserves one more slot when
  the vector is full, block-moves `[idx, len)` one slot up, writes `element`
  at `idx` and increments the length; otherwise `Err(())` and no change.
  Insertion at `idx == len` (an append) is refused, because the operation
  reuses `has_index`; the trait documents it as insertion "at an existing
  index" and the unit test at `src/vec_fallible.rs:92` relies on it. The
  model keeps this behaviour.

Layout:

- `outcomes.dfy` (module `Outcomes`): `Option<T>` and `EmptyResult`, the
  model of `Result<(), ()>`.
- `splice.dfy` (module `Splice`): `RemoveAt` and `InsertAt`, the effect of
  removal and insertion on the sequence of live elements, and lemmas that
  relate them (each undoes the other, and neither duplicates nor drops an
  element).
- `vec_fallible.dfy` (module `VecFallible`): class `Vec<T>` with an `array<T>`
  buffer, a `len` and a `capacity` field, the invariant
  `len <= capacity == buffer.Length` (`Valid`), and the ghost view
  `Contents() == buffer[..len]`. `HasIndex` and `TryGet` are functions.
  `TryRemove` and `TryInsert` are methods. Each `ptr::copy` becomes a shift
  loop in the direction that reads every slot before overwriting it: upward
  through the indices for removal, downward for insertion. Their
  postconditions tie the new contents to `RemoveAt`/`InsertAt` of the old
  contents, or state that nothing changed. `Reserve` models `reserve`.
- `vec_fallible_tests.dfy` (module `VecFallibleTests`): the four unit tests
  restated as methods whose postconditions are the tests' assertions. Two
  clients that combine the operations: insert-then-remove, and
  remove-then-reinsert, which shows where the append quirk bites.

Integer widths: `usize` indices and lengths are modelled as `nat`. The
source has three subtractions, all reached only after the `idx < len` guard:
the shift count `len - idx - 1` of `try_remove`, its new length `len - 1`,
and the shift count `len - idx` of `try_insert`. Each is proved
non-negative under that guard: the first is stored in a `nat` variable, the
second in the `nat` field `len`, and the third is the start value of a loop
counter whose invariant keeps it at or above zero. The shift loops index the array directly, so
every read and write of a shift is proved to lie inside the buffer: below
`len` for removal, and at most `len` for insertion after the reservation.

## Model

| member | source | states |
|---|---|---|
| `Splice.RemoveAt` | src/lib.rs:14-18 | removal result is one shorter, keeps every element before `idx`, and holds at each later position the element one place further in the original (order preserved) |
| `Splice.InsertAt` | src/lib.rs:19-23 | insertion result is one longer, holds `e` at `idx`, keeps every element before `idx`, and holds at each later position the element one place earlier in the original, so the old element at `idx` ends at `idx + 1` |
| `Splice.InsertThenRemove` | src/lib.rs:14-23 | removing at the index just inserted at restores the original sequence, and the element found there is the inserted one |
| `Splice.RemoveThenInsert` | src/lib.rs:14-23 | inserting a removed element back at its old index restores the original sequence |
| `Splice.RemoveAtMultiset` | src/vec_fallible.rs:20-31 | removal drops exactly the removed element: no element is duplicated or lost by the shift |
| `Splice.InsertAtMultiset` | src/vec_fallible.rs:43-56 | insertion adds exactly the new element: no element is duplicated or lost by the shift |
| `VecFallible.Vec.FromSeq` | src/vec_fallible.rs:90 | the `vec!` literal used by the tests: a valid vector whose live elements are exactly the given ones, with capacity equal to length |
| `VecFallible.Vec.HasIndex` | src/vec_fallible.rs:6-8 | true exactly when `idx` is below the number of live elements |
| `VecFallible.Vec.TryGet` | src/vec_fallible.rs:9-15 | `Some` exactly when `has_index(idx)`, and then the live element at `idx`; a function of the state, so it changes nothing |
| `VecFallible.Vec.Reserve` | src/vec_fallible.rs:39-42 | afterwards capacity is at least `len + additional` and never smaller than before; length and live elements are unchanged; the allocation is kept when the spare room already suffices, otherwise it is fresh |
| `VecFallible.Vec.TryRemove` | src/vec_fallible.rs:16-36 | `Some` exactly when `idx < len`; then the returned value is the old element at `idx`, the length drops by 1, the live elements become `RemoveAt(old, idx)`, the allocation and capacity are kept, and the shift writes no slot below `idx` or at or above `old len - 1`; on `None`, the object and the buffer are unchanged |
| `VecFallible.Vec.TryInsert` | src/vec_fallible.rs:37-61 | `Ok` exactly when `idx < len`, so an append at `idx == len` is refused; on `Ok` the length grows by 1, the live elements become `InsertAt(old, idx, element)` and capacity does not shrink, and when there was spare room (`len < capacity`) the allocation and capacity are kept; on `Err` the object and the buffer are unchanged |
| `VecFallibleTests.HasIndexScenario` | src/vec_fallible.rs:64-69 | in `[1,2,3]` index 0 is live and index 3 is not |
| `VecFallibleTests.TryGetScenario` | src/vec_fallible.rs:71-77 | in `[1,2,3,4]` reads give `Some(1)` at 0, `Some(4)` at 3 and `None` at 4 |
| `VecFallibleTests.TryRemoveScenario` | src/vec_fallible.rs:79-86 | from `[1,2,3,4]`, removals at 0, 2, 2 give `Some(1)`, `Some(4)`, `None`, leaving `[2,3]` |
| `VecFallibleTests.TryInsertScenario` | src/vec_fallible.rs:88-94 | into `[1,2,4]`, inserting 3 at 2 succeeds and inserting 5 at 4 fails, leaving `[1,2,3,4]` |
| `VecFallibleTests.InsertThenRemove` | src/vec_fallible.rs:16-61 | insert at a live index followed by remove at the same index returns the inserted element and leaves the contents as they were; at an index that is not live, both fail and nothing changes |
| `VecFallibleTests.RemoveThenReinsert` | src/vec_fallible.rs:16-61 | removing at `idx` and reinserting the removed element at `idx` restores the contents when `idx + 1 < len`; when `idx` was the last index the reinsertion is refused and the element stays removed; when `idx` is not live nothing is removed, no reinsertion is attempted and nothing changes |

## Left out

- Raw-pointer and ownership semantics (`ptr::read`, `ptr::write`, `ptr::copy`, `set_len`, the transient bitwise duplicate of the moved element, drop and double-free reasoning). The buffer is an array of values; the multiset lemmas stand in for "nothing duplicated, nothing lost" on the live elements.
- `ptr::copy` is a single memmove. The model performs it as a loop of slot assignments in the direction that gives the same result. It does not model the copy as one indivisible step.
- VecFallible.Vec.Reserve: the standard library's amortized growth policy is not modelled. The model grows to `max(2 * capacity, len + additional)`, but the contract promises only what `reserve` guarantees: capacity at least `len + additional`. Capacity overflow and allocation failure, which panic or abort in `reserve`, are not modelled. Spare slots of a new allocation hold a caller-supplied filler value in place of uninitialised memory (the insertion passes the element being inserted).
- VecFallible.Vec.TryInsert: the element passed to a refused insertion is dropped in the source and is simply not used in the model. It is not handed back to the caller.
- Fixed-width `usize` arithmetic: indices and lengths are unbounded naturals. The three subtractions (`len - idx - 1`, `len - 1`, `len - idx`) are each proved non-negative under the `idx < len` guard, and `len + 1` cannot overflow in the source because the allocation size bounds the length.
- Borrowing: `try_get` returns a reference in the source; the model returns the element value.
- The trait declaration itself (associated types `TargetRaw`/`TargetRef`) carries no logic. Its `EmptyResult` alias is `Outcomes.EmptyResult`. The `VecDeque` and `String` implementations the trait documentation mentions do not exist in the repository.
