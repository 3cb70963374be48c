# A verified model of `Vector<T>` over `RawMemory<T>`

This project models the two layers of `advanced-vector/vector.h`, a resizable
array built on raw, uninitialised storage.

- `RawMemory<T>` owns a block of slots and its capacity. It hands out slot
  addresses and swaps blocks. It never constructs or destroys an element.
- `Vector<T>` owns a `RawMemory<T>` and a count of live elements. It does all
  element-lifetime work: placement construction, destruction, assignment,
  moving, and relocation into a new block when it grows.

The model is imperative, like the source.

- `RawStorage.RawMemory` is a class over an `array<Slot<T>>`. A slot is
  `Uninit`, `Live(value)` or `MovedFrom`. `MovedFrom` is an element that is
  still constructed but whose value was moved away.
- `Lifetime` holds the element primitives the vector uses: placement
  construction, destruction, assignment and moving out of one slot. It also
  holds the range algorithms the vector calls: uninitialised copy, move and value
  construction, destruction of a range, and the two shifting moves used by
  insertion and erasure. Each one requires the slot states it is valid for.
  So the verifier checks at every call that no slot is constructed twice and
  none is destroyed while uninitialised.
- `Vectors.Vector` is a class with the fields `data` and `size` and a ghost
  sequence `Elements`. `Valid()` is the slot invariant: slots `[0, size)`
  hold `Live(Elements[i])`, slots `[size, capacity)` are `Uninit`, and
  `size <= capacity`. Every method except the destructor `Dispose` keeps it;
  `Dispose` leaves every slot uninitialised just before the block is
  released. Every method that builds, grows, shrinks or reallocates a vector
  states its effect as `Model() == VectorSpec.F(old(Model()), ...)`, where
  `Model()` is the pair of elements and capacity. `Set`, `Swap`, `MoveAssign`, `Moved` and `Dispose`
  state their effects directly: the replaced element, the exchanged or taken
  contents and blocks, the uninitialised slots.
- `VectorSpec` gives each operation's effect on that pair as a function. Its
  lemmas state what the effects mean: growth by doubling, insert/erase and
  push/pop round trips, pointwise contents, reserve and resize behaviour,
  and copy-assignment capacity.

Modelling choices:

- Pointers and iterators are slot indices. `operator+` is `Plus` and
  `operator[]` is `Get`. `Plus` allows one-past-the-end; `Get` allows only
  `index < capacity`. Addresses written `data_ + k` in the source go through
  `Plus` where the vector forms them. The element writes written `data_[k]`
  (in copy assignment, unchecked access and insertion) and the range helpers
  `Vectors.RelocateAround` and `Lifetime.*` index the slot array directly. Their
  bound is the array's length, which `RawMemory.Valid()` equates with the
  capacity, so the same `index < capacity` check is made there.
- The `if constexpr` choice between moving and copying old elements during
  relocation is a `Relocation` parameter. `Vectors.Relocate` selects
  `Lifetime.UninitializedMoveN` or `Lifetime.UninitializedCopyN`. Both
  produce the same new block. Copying leaves the old block untouched.
  Moving leaves the old elements moved-from. Either way the old elements are
  then destroyed.
- Running the element constructor with the caller's arguments is a
  `Construction<T>` parameter: `Constructs(value)` or `Throws`. When it throws,
  every inserting method returns `ok == false` with the vector exactly as
  before. In the growing path the new element is constructed in the fresh
  block before anything else is touched, and that fresh block is released
  with no element in it.
- The value-initialised `T()` that `Vector(n)` and `Resize` construct is a
  parameter `zero`.
- Releasing a block (`RawMemory.Dispose`, the model of `~RawMemory`) requires
  that no slot in it is still constructed. Every temporary block the vector
  drops is released through it, so no reallocation leaks an element.
- `data_` is a by-value member in C++, so two distinct vectors never share
  storage. Here `data` is a reference, so `Swap`, `CopyAssign` and
  `MoveAssign` require `this == other || Separate(other)`: distinct vectors
  own distinct `RawMemory` objects and blocks. `Moved` and `MoveAssign`
  state which `RawMemory` object and which block each side owns afterwards,
  so a caller can show that the two vectors are still separate.

Where the code departs from the usual contract of a vector, the model follows the code:

- `Reserve(k)` returns early only when `k <= size`
  (`advanced-vector/vector.h:309`). It does not return early for every
  `k <= capacity`. A request strictly between the size and the capacity
  therefore reallocates to exactly `k` slots and shrinks the block.
  `Resize` to a larger size reserves exactly the new size, so it can shrink
  the block too. `VectorSpec.ReserveCanShrink` exhibits both.
- `Erase` asserts only `pos <= end()` (line 262). Its body needs
  `pos < size`, which `Vectors.Vector.Erase` requires.
- `PushBack` repeats the body of `EmplaceBack` line for line (lines 174-192
  and 194-213). The model's `PushBack` calls `EmplaceBack` and drops the
  returned index.
- The shifting and reallocating halves of `Emplace` (lines 230-250) are the
  two methods `InsertReallocating` and `InsertShifting`. `Emplace` chooses
  between them as the source does. The same split puts the in-place half of
  copy assignment (lines 128-144) in `AssignInPlace`. The element work of the
  reallocating half (lines 233-242) is `Vectors.RelocateAround`.

## Model

| member | source | states |
|---|---|---|
| `RawStorage.RawMemory.Empty` | advanced-vector/vector.h:15 | the default storage has capacity 0 and a fresh empty block |
| `RawStorage.RawMemory.constructor` | advanced-vector/vector.h:19-22 | a fresh block of exactly `capacity` slots, none constructed |
| `RawStorage.RawMemory.Moved` | advanced-vector/vector.h:24-26 | the new storage takes the source's block and capacity; the source is left with capacity 0 |
| `RawStorage.RawMemory.Allocate` | advanced-vector/vector.h:82-84 | a fresh block of `n` slots with no slot constructed |
| `RawStorage.RawMemory.Dispose` | advanced-vector/vector.h:36-38 | releasing a block requires that none of its slots is constructed |
| `RawStorage.RawMemory.Plus` | advanced-vector/vector.h:40-48 | an address is valid up to and including one past the last slot; it is the slot index |
| `RawStorage.RawMemory.Get` | advanced-vector/vector.h:50-57 | slots may be accessed only below the capacity; the result is that slot |
| `RawStorage.RawMemory.Swap` | advanced-vector/vector.h:59-62 | block and capacity are exchanged; no slot is touched |
| `RawStorage.RawMemory.Capacity` | advanced-vector/vector.h:72-74 | the capacity is the block's length |
| `Lifetime.ConstructAt` | advanced-vector/vector.h:189 | placement construction needs an uninitialised slot, makes it live with the value, and changes no other slot |
| `Lifetime.DestroyAt` | advanced-vector/vector.h:257 | destruction needs a constructed slot, leaves it uninitialised, and changes no other slot |
| `Lifetime.AssignAt` | advanced-vector/vector.h:131 | assignment needs a constructed slot, makes it live with the value, and changes no other slot |
| `Lifetime.MoveOut` | advanced-vector/vector.h:247 | moving from a live slot yields its value and leaves it moved-from |
| `Lifetime.DestroyN` | advanced-vector/vector.h:293 | destroying `n` constructed slots leaves exactly those uninitialised |
| `Lifetime.UninitializedValueConstructN` | advanced-vector/vector.h:104 | `n` uninitialised slots become live with the value-initialised value; nothing else changes |
| `Lifetime.UninitializedCopyN` | advanced-vector/vector.h:110-111 | the destination range holds the source's values in order; the source block is not modified |
| `Lifetime.UninitializedMoveN` | advanced-vector/vector.h:180 | the destination range holds the source's values in order; the source range is left moved-from |
| `Lifetime.MoveBackward` | advanced-vector/vector.h:248 | the live range `[first, last)` ends up at `[first+1, last+1)` in order; slot `first` stays constructed |
| `Lifetime.MoveForward` | advanced-vector/vector.h:265 | the live range `[first, last)` ends up at `[first-1, last-1)` in order; slot `last-1` stays constructed |
| `Vectors.Relocate` | advanced-vector/vector.h:179-184 | moving and copying give the same new block; copying leaves the old block unchanged; the old range stays constructed for destruction |
| `Vectors.Vector.constructor` | advanced-vector/vector.h:99 | a default vector is valid and empty with capacity 0 |
| `Vectors.Vector.WithSize` | advanced-vector/vector.h:101-105 | `Vector(n)` holds `n` value-initialised elements with capacity exactly `n` |
| `Vectors.Vector.Copy` | advanced-vector/vector.h:107-112 | the copy has the source's elements, capacity equal to the source's size, and storage of its own |
| `Vectors.Vector.Moved` | advanced-vector/vector.h:114-116 | the new vector takes the source's elements, capacity and block without touching them; the source is left empty; the new vector's `RawMemory` is fresh, the source keeps its own `RawMemory` with a fresh empty block |
| `Vectors.Vector.Dispose` | advanced-vector/vector.h:118-120 | the destructor leaves every slot uninitialised before the block is released |
| `Vectors.Vector.CopyAssign` | advanced-vector/vector.h:122-147 | the result has the source's elements; capacity becomes the source's size only when it exceeded the old capacity, and otherwise the block is kept; self-assignment changes nothing; the source is unchanged |
| `Vectors.Vector.AssignInPlace` | advanced-vector/vector.h:128-144 | when the source fits, the block is kept and the contents become the source's |
| `Vectors.Vector.MoveAssign` | advanced-vector/vector.h:149-154 | the vector takes the source's contents and the source takes the old ones; self-assignment changes nothing; each side keeps its own `RawMemory` and distinct vectors exchange blocks |
| `Vectors.Vector.Size` | advanced-vector/vector.h:156-158 | the size is the number of live elements |
| `Vectors.Vector.Capacity` | advanced-vector/vector.h:160-162 | the capacity is the block length and at least the size |
| `Vectors.Vector.IsEmpty` | advanced-vector/vector.h:276-278 | true exactly when there is no element |
| `Vectors.Vector.Get` | advanced-vector/vector.h:164-171 | unchecked access needs `index < size` and yields the element at that index |
| `Vectors.Vector.Set` | advanced-vector/vector.h:168-171 | writing through unchecked access replaces exactly that element |
| `Vectors.Vector.At` | advanced-vector/vector.h:280-290 | checked access fails with out-of-range ("Invalid vector index") exactly when `index >= size`, and otherwise yields the element |
| `Vectors.Vector.Swap` | advanced-vector/vector.h:271-274 | the two vectors exchange elements, capacities and blocks |
| `Vectors.Vector.EmplaceBack` | advanced-vector/vector.h:194-213 | contents become `s + [v]`; a full vector grows to 1 or `2*size`, any other keeps its block; the new last element (index `old size`) is returned; a throwing construction changes nothing |
| `Vectors.Vector.PushBack` | advanced-vector/vector.h:173-192 | same effect as EmplaceBack, keeping the block when not full |
| `Vectors.Vector.Emplace` | advanced-vector/vector.h:223-253 | contents become `s[..i] + [v] + s[i..]` and `i` is returned; capacity grows only when full, and otherwise the block is kept; a throwing construction changes nothing |
| `Vectors.RelocateAround` | advanced-vector/vector.h:233-242 | the new block holds `s[..i] + [v] + s[i..]` followed by uninitialised slots; every old slot is left uninitialised |
| `Vectors.Vector.InsertReallocating` | advanced-vector/vector.h:230-244 | a full vector builds a block of 1 or `2*size` slots holding `s[..i] + [v] + s[i..]` |
| `Vectors.Vector.InsertShifting` | advanced-vector/vector.h:245-250 | a vector with room inserts in place, keeping its block |
| `Vectors.Vector.Insert` | advanced-vector/vector.h:215-221 | same effect as Emplace, keeping the block when not full |
| `Vectors.Vector.PopBack` | advanced-vector/vector.h:255-259 | the last element is removed; an empty vector is unchanged; the block is kept |
| `Vectors.Vector.Erase` | advanced-vector/vector.h:261-269 | contents become `s[..i] + s[i+1..]`, `i` is returned, the block is kept |
| `Vectors.Vector.Clear` | advanced-vector/vector.h:292-295 | no element is left and the block is kept |
| `Vectors.Vector.Resize` | advanced-vector/vector.h:297-306 | growing appends value-initialised elements in a new block of exactly `n` slots; shrinking truncates to `s[..n]` and keeps the block |
| `Vectors.Vector.Reserve` | advanced-vector/vector.h:308-321 | a no-op, block kept, when `k <= size`; otherwise the same elements in a new block of exactly `k` slots, even when `k` equals the capacity |
| `Vectors.CopyIsIndependent` | advanced-vector/vector.h:107-112 | after copying, appending to the original leaves the copy with the original's former elements |
| `VectorSpec.Filled` | advanced-vector/vector.h:104 | `n` copies of the value-initialised value |
| `VectorSpec.Empty` | advanced-vector/vector.h:99 | the empty value is well-formed and has no elements |
| `VectorSpec.WithSize` | advanced-vector/vector.h:101-105 | size and capacity are both `n` |
| `VectorSpec.Copy` | advanced-vector/vector.h:107-112 | same elements, capacity equal to the size |
| `VectorSpec.GrownCapacity` | advanced-vector/vector.h:176 | the grown capacity exceeds the size, and is twice the size for a non-empty vector |
| `VectorSpec.CapacityForInsert` | advanced-vector/vector.h:175-176 | after one insertion the capacity is above the old size and not below the old capacity |
| `VectorSpec.EmplaceBack` | advanced-vector/vector.h:194-213 | appending keeps size within capacity |
| `VectorSpec.Emplace` | advanced-vector/vector.h:223-253 | inserting keeps size within capacity |
| `VectorSpec.Erase` | advanced-vector/vector.h:261-269 | erasing keeps size within capacity |
| `VectorSpec.PopBack` | advanced-vector/vector.h:255-259 | popping keeps size within capacity |
| `VectorSpec.Clear` | advanced-vector/vector.h:292-295 | clearing leaves no element and the same capacity |
| `VectorSpec.Reserve` | advanced-vector/vector.h:308-321 | reserving keeps size within capacity |
| `VectorSpec.Resize` | advanced-vector/vector.h:297-306 | resizing keeps size within capacity |
| `VectorSpec.CopyAssign` | advanced-vector/vector.h:122-147 | copy assignment yields a well-formed value |
| `VectorSpec.EmplaceBackKeepsDoubling` | advanced-vector/vector.h:175-176 | one append keeps the capacity a power of two in `[size, 2*size)` |
| `VectorSpec.AppendAllKeepsDoubling` | advanced-vector/vector.h:194-213 | a run of appends keeps that invariant and yields the old elements followed by the appended ones |
| `VectorSpec.AppendsFromEmpty` | advanced-vector/vector.h:196-207 | N appends from empty hold the N values in order with a power-of-two capacity in `[N, 2N)` (0 when N is 0) |
| `VectorSpec.PowerOfTwoGap` | advanced-vector/vector.h:176 | of two distinct powers of two, the larger is at least twice the smaller, so doubling from 1 skips no power of two |
| `VectorSpec.AppendsFromEmptySmallest` | advanced-vector/vector.h:196-207 | the capacity after N appends from empty is at most every power of two not below N: it is the smallest one |
| `VectorSpec.EmplaceAt` | advanced-vector/vector.h:229-252 | after inserting at `i`: earlier elements are unchanged, position `i` holds the value, later ones are shifted right by one |
| `VectorSpec.EraseAt` | advanced-vector/vector.h:264-268 | after erasing at `i`: earlier elements are unchanged, later ones are shifted left by one |
| `VectorSpec.EraseUndoesEmplace` | advanced-vector/vector.h:224-269 | erasing at `i` after inserting at `i` restores the original elements |
| `VectorSpec.PopBackUndoesEmplaceBack` | advanced-vector/vector.h:194-259 | popping after appending restores the original elements |
| `VectorSpec.ResizeAt` | advanced-vector/vector.h:297-306 | after resizing to `n`: size `n`, old elements below both sizes kept, value-initialised ones after |
| `VectorSpec.CopyAssignEffect` | advanced-vector/vector.h:124-143 | copy assignment yields the source's elements; capacity never drops and stays the same exactly when the source fits |
| `VectorSpec.SelfCopyAssign` | advanced-vector/vector.h:123 | assigning a vector to itself changes nothing |
| `VectorSpec.ReserveEffect` | advanced-vector/vector.h:308-321 | reserve keeps the elements; it leaves the elements and capacity unchanged exactly when `k <= size` or `k == capacity`, though for `size < k == capacity` the code still reallocates; for `k > size` capacity becomes `k` |
| `VectorSpec.ReserveCanShrink` | advanced-vector/vector.h:309 | reserving 3 with size 2 and capacity 8 gives capacity 3, and so does resizing to 3 |
| `VectorSpec.Scenario` | advanced-vector/vector.h:174-306 | three appends give `[1,2,3]` with capacity 4; inserting 9 at 1, erasing at 0 and resizing to 5 give `[1,9,2,3]`, `[9,2,3]` and `[9,2,3,0,0]` with capacity 5 |
| `VectorSpec.RunSize` | advanced-vector/vector.h:174-259 | any trace of appends and pops keeps size within capacity and never shrinks capacity; the size is the net count (a pop on empty does nothing) |
| `VectorSpec.RunPushesOnly` | advanced-vector/vector.h:174-192 | a trace of appends only leaves the appended values, in order, after the old ones |

## Left out

- `RawMemory::operator=(RawMemory&&)` (lines 28-34) is not modelled. It compares an object with a pointer and calls the deleted copy constructor. No code instantiates it, so the compiler never builds it; it would be ill-formed if it were instantiated.
- Byte-level allocation (`operator new(n * sizeof(T))`, `operator delete`), the null buffer, `GetAddress` and the `const` overloads are not modelled. Fresh arrays and indices stand in for them. The null buffer is an empty array.
- The type traits behind the move-or-copy choice are not modelled. Only the resulting choice is kept, as the `Relocation` parameter.
- Allocation failure (`bad_alloc`) is not modelled.
- An element copy or move that throws partway through a relocation (the rollback inside `std::uninitialized_copy_n`) is not modelled. Only the construction of the single new element can fail.
- `Vectors.Vector.Copy`, `Vectors.Vector.WithSize` and `Vectors.Vector.Resize` do not model construction failures, so their strong guarantee is not stated.
- `Vectors.Vector.CopyAssign` and `Vectors.Vector.AssignInPlace` do not model a throwing copy either: not the copy `Vector rhs_copy(rhs)` (line 125), nor a throwing element assignment `data_[index] = rhs.data_[index]` (lines 131 and 137). Their basic and strong guarantees are not stated.
- `size_t` is modelled as an unbounded `nat`, so the wrap-around of `size_ * 2` in the growth rule (lines 176, 197 and 231) is not modelled. It would need more than half of the address space in elements.
- `Vectors.Vector.InsertShifting`: the moves that shift the tail are taken not to throw.
- Perfect forwarding and variadic argument packs are not modelled. The inserted element is one `T`, given as a `Construction<T>`.
- The value of a moved-from element is not modelled. Its slot is `MovedFrom`: still constructed, with no value.
- `begin`/`end`/`cbegin`/`cend` are not separate members. They are the indices `0` and `size`.
- Debug-build `assert`s are modelled as preconditions.
