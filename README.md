# Vec<T>: a growable contiguous array, modelled in Dafny

This project models the class template `Vec<T>` of `Vec.h`, a from-scratch
dynamic array. A `Vec` owns one heap buffer of `cap` slots. The first `len`
slots hold constructed elements, and `one_past_last` points just past them.
Every operation is a small in-place change to that state:

- construction (empty, filled with `n` copies, copied from another vector,
  moved from another vector);
- `push_back` with a doubling growth rule;
- `erase` with compaction;
- `clear` / `_destroy`, which release the storage entirely;
- indexed access;
- copy assignment with a self-assignment guard, and move assignment.

The model is the class `Vectors.Vec<T>` (file `Vec.dfy`):

- `data` is an `array?<T>`, with null standing for "no storage".
- `len` and `cap` are the C++ fields.
- `one_past_last` is implied by `len`.
- `Valid()` is the representation invariant: `len <= cap`, storage of exactly
  `cap` slots when there is storage, and `cap == 0` when there is none.
- `Elements()` is the live range `data[..len]`. Most methods state their new
  state in terms of it. Two do not: `Grow` states it as `data[..old(len)]`,
  because the slots past the old length are not yet constructed. The
  no-growth case of `PushBack` also says, slot by slot on `data`, that no
  other slot changes.
- `copies` is a ghost counter of the elements that growth steps have copied.
  Every constructor starts it at 0, and the copy loop of `Grow` advances it
  once per element.

Placement construction and explicit destruction become element writes.
Unconstructed slots hold an arbitrary value of `T`, which is why the type
parameter is `T(0)`. No contract states what those slots hold.

Other files:

- `EraseAsWritten.dfy` models the `erase` loop pass by pass as it is written
  (see Findings). It does not tell apart constructing over a live copy
  without destroying it first from constructing into a destroyed slot. For
  value elements the two look the same.
- `PushBackAsWritten.dfy` models `push_back` as written when its argument is
  a reference to an element of the same vector (see Findings).
- `VectorTest.dfy` models the smoke test in `vector_test.cpp` as client code,
  with what it prints returned as sequences. It also holds push, erase and
  clear scenarios.

The growth rule is the function `NewCapacity`: `max(2 * cap + 1, max(newLen, 8))`.
`CapacityAfterPushes` and `CopiesAfterPushes` replay it over `n` pushes into
an empty vector. `VectorTest.FromPushes` proves that a vector built by `n`
pushes has exactly that capacity, and that its `copies` counter equals
`CopiesAfterPushes(n)`. The lemma `PushesAmortized` proves that the total
copying stays within `2n + 7`, so `push_back` is O(1) amortized.

Notes on the code:

- Storage can be non-null while the capacity is 0. `Vec(0, v)` and a copy of
  an empty vector call `allocate(0)`, which yields a non-null zero-slot
  buffer. The model follows the code: `Fill(0, v)` and `Copy` of an
  empty vector allocate an array of length 0. `Valid()` therefore only states
  `data == null ==> cap == 0`.
- Move assignment (Vec.h:263-266) calls `rhs.swap(*this)`, but the class
  declares no member `swap`, only `_swap`. So the operator cannot be
  instantiated as written. `MoveAssign` models the evidently intended call
  `rhs._swap(*this)`.
- `erase` does not do the compaction its comment describes (Findings).
  `Vec.Erase` models the intended compaction.
- `push_back(a[i])` on a full vector reads its argument after `_grow` has
  destroyed and released the storage it refers to (Findings).
  `Vec.PushBackElement` models the intended behaviour: the copy is taken
  before growing.

## Model

| member | source | states |
|---|---|---|
| Vectors.Max | Vec.h:158 | `std::max` of two values: at least both, and equal to one of them |
| Vectors.NewCapacity | Vec.h:156-159 | the grown capacity is strictly above the old one, at least `2*cap+1`, at least the requested length and at least 8, and it is one of those three candidates |
| Vectors.RemoveAt | Vec.h:207 | removing index `k` keeps the elements before `k` in place, shifts every later one down by one, and shortens the sequence by one |
| Vectors.RemoveAtUndoesInsert | Vec.h:205-218 | removing an element just inserted at `k` gives back the original sequence, which `VectorTest.PushThenEraseLast` uses to show that erasing the last slot after `push_back` restores the old contents |
| Vectors.PushesAmortized | Vec.h:154-196 | after `n` pushes into an empty vector the capacity is at least `n` and at most `max(8, 2n-1)`, and the elements copied by all growth steps number at most the capacity and at most `2n+7` |
| Vectors.Vec.Elements | Vec.h:35-41 | the live range `[begin(), end())` has exactly `len` elements |
| Vectors.Vec.constructor | Vec.h:95-98 | the default-constructed vector has `len == cap == 0`, no storage and no elements |
| Vectors.Vec.Fill | Vec.h:105-108 | `Vec(n, v)` has `len == cap == n` in fresh storage, and every element in `[0, n)` equals `v` |
| Vectors.Vec.Copy | Vec.h:100-103 | the copy has `len == cap == v.len` in fresh storage, with `v`'s elements in index order; `v` is not modified |
| Vectors.Vec.Move | Vec.h:111-119 | the new vector takes the source's storage, length, capacity and elements; the source is left with `len == cap == 0` and no storage |
| Vectors.Vec.Construct | Vec.h:126-130 | the no-argument `_construct` sets `len == cap == 0` and no storage |
| Vectors.Vec.ConstructFill | Vec.h:132-143 | `_construct(n, v)` allocates exactly `n` fresh slots, all constructed, each equal to `v` |
| Vectors.Vec.ConstructRange | Vec.h:145-151 | `_construct(s, e)` allocates exactly `e - s` fresh slots holding the range `[s, e)` of the source buffer in order |
| Vectors.Vec.Grow | Vec.h:153-176 | `_grow(newLen)` needs `cap < (SIZE_MAX-1)/2`; it moves the live elements unchanged into fresh storage of `NewCapacity(cap, newLen)` slots, strictly more than before, sets the length to `newLen`, and counts `len` element copies |
| Vectors.Vec.Swap | Vec.h:178-185 | `_swap` exchanges storage, length, capacity and hence elements of the two vectors, and keeps both valid |
| Vectors.Vec.PushBack | Vec.h:187-196 | the new elements are the old ones followed by `v`; growth happens exactly when `len + 1 > cap`, to `NewCapacity(cap, len+1)` slots; otherwise storage and capacity stay and no slot but the new last one changes; only a growth step adds copies, `len` of them |
| Vectors.Vec.PushBackElement | Vec.h:187-196 | `push_back(a[i])` for a live index `i` appends a copy of old element `i`; as for `push_back`, growth happens exactly when `len + 1 > cap`, into fresh storage of `NewCapacity(cap, len+1)` slots, adding `len` copies; otherwise storage and capacity stay, no slot but the new last one changes and no copies are added |
| Vectors.Vec.Clear | Vec.h:198-201 | from any state, `clear()` leaves `len == cap == 0`, no storage and no elements |
| Vectors.Vec.Erase | Vec.h:204-218 | `erase(pos)` on a live index returns `pos`, keeps storage and capacity, shortens the length by one, and the elements become the old ones with index `pos` removed and the later ones shifted down |
| Vectors.Vec.Destroy | Vec.h:220-235 | from any state, `_destroy()` leaves `len == cap == 0`, no storage and no elements |
| Vectors.Vec.At | Vec.h:237-245 | `operator[](i)` with `i < len` reads live element `i` |
| Vectors.Vec.SetAt | Vec.h:237-240 | writing through the reference that `operator[](i)` returns replaces live element `i` and no other |
| Vectors.Vec.Size | Vec.h:41 | `size()` is the number of live elements |
| Vectors.Vec.IsEmpty | Vec.h:42 | `empty()` holds exactly when there are no live elements |
| Vectors.Vec.CopyAssign | Vec.h:248-259 | `a = a` changes nothing; otherwise `a` gets `b`'s elements in fresh storage with `len == cap == b.len`, and `b` is unchanged |
| Vectors.Vec.MoveAssign | Vec.h:262-266 | the target takes the source's storage, length, capacity and elements, and the source takes the target's old ones |
| EraseAsWritten.EraseAsWritten | Vec.h:205-218 | as written, `erase(pos)` destroys slots `pos` to `len-1` and leaves a copy of the last element constructed in slot `len`, beyond the new end; if `len == cap`, that write falls outside the allocation; the buffer stays well formed only when `pos` is the last index |
| EraseAsWritten.EraseAsWrittenExample | Vec.h:208-216 | erasing index 0 of `[0, 1, 2]` as written leaves `[raw, raw, raw, 2]` in four slots, and writes past the allocation when there are only three slots |
| PushBackAsWritten.PushBackAliasedAsWritten | Vec.h:187-196 | as written, `push_back(a[src])` on a full vector copies the live elements into `NewCapacity` new slots and then builds the new last slot from the destroyed old element, so the new buffer is well formed exactly when no growth ran; otherwise it appends `a[src]` |
| PushBackAsWritten.PushBackAliasedExample | Vec.h:188-196 | `Vec(1, 5)` followed by `push_back(a[0])` as written gives eight slots holding 5 and then nothing in slot 1, not `[5, 5]` |
| VectorTest.FromPushes | vector_test.cpp:20-24 | pushing `vs` one by one into an empty vector yields exactly `vs`, with the capacity the growth rule predicts and exactly `CopiesAfterPushes(|vs|)` element copies made by growth |
| VectorTest.PushThenEraseLast | Vec.h:187-218 | `push_back(x)` followed by `erase` of the last index gives back the old elements |
| VectorTest.Helper | vector_test.cpp:7-16 | the by-value copy, once every element is incremented, prints the original's elements plus one, and the original is not changed |
| VectorTest.TestOne | vector_test.cpp:19-30 | pushing 0 to 9 and calling `helper` prints 1 to 10 from the copy, and then 0 to 9 from the unchanged original |
| VectorTest.PushEraseClear | Vec.h:187-235 | pushing 0 to 9 gives size 10; `erase(3)` returns 3, gives `[0,1,2,4,...,9]` and size 9, and keeps the capacity; `clear()` then gives size 0 and capacity 0 |

## Left out

- Allocation failure: `fatal` (Vec.h:84-92) and the `bad_alloc` handlers (Vec.h:135-140, 162-167) print a message and exit the process. The model treats allocation as always succeeding.
- `std::allocator`, placement `new`, explicit destructor calls, `std::uninitialized_fill` and `std::uninitialized_copy` are raw-memory lifetime machinery. Construction becomes an element write. Destruction leaves nothing observable on a value, so the reverse-order destruction loop of `_destroy` (Vec.h:224-228) is not modelled as a loop.
- The destructor `~Vec` (Vec.h:121-124) runs `_destroy` when an object's lifetime ends. Dafny has no destructors, so `Destroy` models its effect and nothing calls it implicitly.
- Iterators and `one_past_last` (Vec.h:35-39, 51) are modelled as indices, with `one_past_last` standing for index `len`.
- Vectors.Vec.PushBack: takes its argument by value. So it does not capture the case where the `const T&` argument refers into the vector's own storage and growth releases that storage before the copy is made. That case is the second Findings row, with `PushBackAliasedAsWritten` modelling it as written and `PushBackElement` the intended behaviour.
- `size_t` arithmetic and element arithmetic: integers are unbounded. This includes the `int` elements that `helper` in `vector_test.cpp` increments, whose overflow at `INT_MAX` is not modelled. `SIZE_MAX` is taken as that of a 64-bit `size_t`. The only overflow guard, the assertion in `_grow` (Vec.h:156), becomes a precondition of `Grow` and of `PushBack` when it grows.
- Element types without a default value: the model's `Vec<T(0)>` needs one, although Vec.h allocates raw memory and works for any copy-constructible `T`. Dafny arrays must hold a value in every slot, and the slots past `len` hold an arbitrary one, and no contract states what it is.
- The default argument `v = T()` of `Vec(n, v)` is not modelled: `Fill` always takes the value.
- Element types with side effects in copying or destruction are out of scope: elements are values.
- `vector.h`, an earlier near-identical copy of the same class, is not part of this model.
- Output to `cout` in `vector_test.cpp` is returned as sequences instead of printed.

## Findings

| source | as written | input that shows it | evidently intended | confidence | as-written member | corrected member |
|---|---|---|---|---|---|---|
| Vec.h:212 | each pass of the `erase` loop destroys slot `i` and then copy-constructs element `i+1` at `one_past_last` (slot `len`), never at slot `i` | `erase` of index 0 on `[0, 1, 2]` with four slots: slots 0 to 2 end destroyed, though the new live range is slots 0 and 1, and 2 is constructed in slot 3; with three slots the write lands outside the allocation | slot `i` receives element `i+1` for `i` from `pos` to `len-2`, giving `[1, 2]` | high; not executed | EraseAsWritten.EraseAsWritten | Vectors.Vec.Erase |
| Vec.h:194 | after `_grow` (Vec.h:190) has destroyed and released the old storage (Vec.h:170), the new element is copy-constructed from the `const T&` argument, which may refer into that storage | `Vec<int> a(1, 5); a.push_back(a[0]);`: the vector is full, so the argument is read from a destroyed element of the released buffer | the appended element is a copy of `a[0]`, giving `[5, 5]` | high; not executed | PushBackAsWritten.PushBackAliasedAsWritten | Vectors.Vec.PushBackElement |
