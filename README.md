# Growable array of owned strings

This project models `arrays/arrays.c`, a dynamic array of strings in C. An
`Array` holds a `capacity`, a `count` and a buffer `elements` of `capacity`
string slots; the first `count` slots are the live elements, in order. The
operations create an array, double its buffer (`resize_array`), read by
index, insert at an index shifting the tail right, append (growing first when
full) and remove the first occurrence of a value shifting the tail left.

The Dafny model has two modules:

- `ArraySpec` (`array_spec.dfy`): the live elements as a `seq<string>`, the
  sequence operations the array methods are proved against (`InsertedAt`,
  `FirstIndex`, `RemovedFirst`), the growth policy (`GrownCapacity`,
  `CapacityAfterAppends`), the insert guard as written and as corrected, and
  the lemmas about them.
- `Arrays` (`arrays.dfy`): class `Array` with the fields `capacity`, `count`
  and `elements: array<string>`, an object invariant `Valid()`
  (`0 < capacity == elements.Length` and `count <= capacity`) and the ghost
  view `Contents() == elements[..count]`. Every method keeps `Valid()` and
  states its new `Contents()` in terms of the old one. The copy loop of the
  resize (`Resize`), the downward shift loop of insert (`ShiftRight`), the
  search (`IndexOf`) and the leftward shift of remove (`ShiftLeft`) are
  `while` loops over the array with their invariants.

Decisions:

- Errors that the source reports on stderr are results: `Read` returns
  `None` (the source returns `NULL`), `Insert` and `Remove` return
  `Fail(IndexOutOfRange(index))` or `Fail(ElementNotFound)`, and a failed
  call changes nothing.
- `arr_remove` has only its comment and its step comments, no statements.
  The model gives it the documented behaviour: find the first element equal
  to the value (whole-string equality), close the gap by shifting left,
  decrement the count, report `ElementNotFound` when absent.
- `Insert` accepts every index up to and including `count` (see Findings);
  the source rejects `index == count`.
- `Resize` allocates `2 * capacity` slots, which is what its comment and its
  capacity update say (see Findings).
- The constructor requires a positive capacity. The source does not check
  it. With the intended allocation of `2 * capacity` slots, doubling 0 stays
  0 and the first append writes outside the buffer. As written, the two-slot
  buffer of line 63 puts the overrun off until the third append. Indices are
  `nat`: the source never checks for negative ones.
- `strdup` on insert and append makes the stored string independent of the
  caller's; Dafny strings are values, so storing the value has that effect.
- Creation with a non-positive capacity is a precondition, not an error
  result; removal compares whole strings.

## Model

| member | source | states |
|---|---|---|
| `ArraySpec.InsertedAt` | arrays/arrays.c:126-134 | the result is one longer, holds the value at the index, keeps every element before the index and moves every element from the index on one place right |
| `ArraySpec.InsertedAtMultiset` | arrays/arrays.c:126-134 | inserting adds exactly one copy of the value and loses no element |
| `ArraySpec.FirstIndex` | arrays/arrays.c:164-173 | none exactly when the value does not occur; otherwise a position holding the value with no earlier position holding it |
| `ArraySpec.RemovedFirst` | arrays/arrays.c:164-178 | unchanged when the value is absent; otherwise one shorter with one copy of the value fewer and nothing else lost |
| `ArraySpec.RemovedFirstShifts` | arrays/arrays.c:173-176 | elements before the first occurrence stay in place, later ones move one place left |
| `ArraySpec.RemoveUndoesInsert` | arrays/arrays.c:164-178 | removing a value undoes inserting it at a position before which it does not occur |
| `ArraySpec.InsertAtEndIsAppend` | arrays/arrays.c:113-118 | with the corrected guard, inserting at the end position equals appending |
| `ArraySpec.AsWrittenInsertNeverAppends` | arrays/arrays.c:113-118 | with the guard as written, inserting at the end position is always rejected, so it never equals appending |
| `ArraySpec.AsWrittenRejectsFirstInsert` | arrays/arrays.c:204 | the demo's first call, insert at 0 into an empty array, is rejected as written and accepted when corrected |
| `ArraySpec.AsWrittenResizeTooSmall` | arrays/arrays.c:63 | as written, resizing a full array of any capacity c >= 2 allocates 2 slots whatever the pointer size, fewer than the recorded capacity 2c |
| `ArraySpec.CapacityAfterAppendsBounds` | arrays/arrays.c:148-153 | after n appends from capacity c the capacity is at least n and at least c, and is c or at most 2(n-1) |
| `Arrays.Array.constructor` | arrays/arrays.c:22-35 | a fresh buffer of `capacity` slots, the given capacity, count 0, no live elements |
| `Arrays.Array.Resize` | arrays/arrays.c:60-77 | a fresh buffer of twice the capacity, capacity doubled, count and live elements unchanged in order |
| `Arrays.Array.Read` | arrays/arrays.c:90-105 | the live element at the index when it is below the count, otherwise none; the array is not changed |
| `Arrays.Array.Insert` | arrays/arrays.c:110-138 | pass exactly for index <= count, then contents are the old prefix, the value, the old tail, count + 1, capacity doubled only when full and the buffer replaced only then; otherwise an out-of-range error and nothing changed |
| `Arrays.Array.Append` | arrays/arrays.c:143-162 | contents are the old contents plus the value, count + 1, capacity doubled only when count >= capacity and the buffer replaced only then |
| `Arrays.Array.IndexOf` | arrays/arrays.c:173-174 | the position of the first live element equal to the value, or none exactly when no live element equals it |
| `Arrays.Array.Remove` | arrays/arrays.c:164-179 | pass exactly when the value is live, then contents are the old ones without the first occurrence, count - 1, same buffer and capacity; otherwise element-not-found and nothing changed |
| `Arrays.ShiftRight` | arrays/arrays.c:126-130 | the slots from the index up to the count move one place right, the slot at the index and every slot outside the range keep their values |
| `Arrays.ShiftLeft` | arrays/arrays.c:176 | the slots after the removed position move one place left, every slot before it and from the last live slot on keep their values |
| `Arrays.DemoSteps` | arrays/arrays.c:204-209 | the demo's insert, append, insert, insert and remove, worked out on sequences |
| `Arrays.DemoRun` | arrays/arrays.c:198-216 | with the corrected insert guard and the documented remove, the demo's calls give `[STRING2,STRING3,STRING1,STRING4]` before the removal and `[STRING2,STRING1,STRING4]` after it; as written, line 114 rejects the first insert and `arr_remove` does nothing, and the contents would be `[STRING2,STRING3,STRING4]` while `arr_remove` does nothing; but that last insert writes `elements[2]` at line 129, past the two-slot buffer that line 63 allocated, so from then on the behaviour, and what both prints show, is undefined |

## Findings

| source | as written | input that shows it | evidently intended | confidence | as-written member | corrected member |
|---|---|---|---|---|---|---|
| arrays/arrays.c:114 | `index >= arr->count` rejects inserting at the end position, including 0 into an empty array | insert at 0 into an empty array (the demo's first call, arrays/arrays.c:204) | accept `index <= count`, so inserting at the end appends | not executed | `ArraySpec.CheckedInsertAsWritten`, shown by `ArraySpec.AsWrittenRejectsFirstInsert` and `ArraySpec.AsWrittenInsertNeverAppends` | `ArraySpec.CheckedInsert` with `ArraySpec.InsertAtEndIsAppend`; `Arrays.Array.Insert` |
| arrays/arrays.c:63 | `malloc(2 * sizeof(arr))` allocates room for two pointers whatever the capacity | capacity 2 with 8-byte pointers: 2 slots, capacity set to 4, the next two appends write past the buffer | allocate `2 * capacity` slots, as the comment at line 62 and the update at line 75 say | not executed; assumes `Array *` and `char *` have the same size | `ArraySpec.SlotsAllocatedAsWritten`, shown by `ArraySpec.AsWrittenResizeTooSmall` | `Arrays.Array.Resize` |

## Left out

- `destroy_array` (arrays/arrays.c:40-54): freeing the strings and the buffer has no counterpart under garbage collection; the model simply drops the object.
- `arr_print` (arrays/arrays.c:184-196): console output only; `Contents()` is the sequence it would print.
- `main` (arrays/arrays.c:198-216) is not modelled as a program; `DemoRun` replays its calls against the contracts, with the corrected insert guard.
- Failure of `malloc` or `strdup` is not modelled: allocation always succeeds in Dafny.
- The `fprintf(stderr, ...)` diagnostics are replaced by the error results.
- `capacity` and `count` are C `int`; the model uses unbounded `nat`, so the overflow of `capacity *= 2` past the `int` range is not modelled.
- Arrays.Array.constructor: requires a positive capacity, so `create_array(0)`, which the source accepts, is not modelled; with the intended allocation of `2 * capacity` slots, doubling 0 stays 0 and the first append writes outside the buffer; as written, the two-slot buffer of arrays/arrays.c:63 puts the overrun off until the third append.
- Freeing the removed string and the contents of slots at or past `count` are not modelled: only the live prefix is specified.
