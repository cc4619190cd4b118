# Vector and RandomAccess cursor — a verified Dafny model

This project models the from-scratch dynamic array `Vector<T, Alloc>` and the
position-only cursor `RandomAccess<T>` that it hands out as its iterator.

- `cursor.dfy` (module `Cursors`) is the cursor. A cursor is a datatype
  `Null | At(offset)`: a null position, or an element offset into some
  contiguous buffer. The source updates the cursor in place with `++`, `--`
  and `+=`. The model writes these as functions from the old cursor to the new
  one. `+`, `-`, the distance and the six comparisons take their operands by
  value, so they cannot change their argument cursor. The source's `int`
  operands are 32-bit (`Int32`). A cursor distance is truncated to 32 bits
  (`ToInt32`), as the conversion of a pointer difference to `int` does.
- `vector.dfy` (module `Vectors`) is the vector. It is a class with three
  fields: `buf: array<int>` (the owned buffer), `size` (the number of live
  elements) and `capacity` (`_capacity`). `Valid()` says
  `size <= capacity <= buf.Length` and `capacity <= max_size`.
  `Elems()` is `buf[..size]`, the live elements in order. A cursor into a
  vector is an offset from the start of its buffer: `Begin()` is offset 0 and
  `End()` is offset `size`. `max_size()` is the constant `MAX_SIZE = 2^64 - 1`,
  and `size_t` parameters have type `SizeT`. The module also holds the two
  growth rules. `growTo` (1.5×, with an overflow guard) drives
  `reserve`/`reallocate`/`push_back`/`resize`. The doubling loop drives
  `insert`. The `!=` and `<` loops are module methods. They are proved against
  the predicates `Differ` and `PairwiseLess`, and `==`, `>`, `<=` and `>=` are
  derived from those two.
- `scenarios.dfy` (module `VectorScenarios`) holds properties that span
  several calls: `push_back` then `pop_back` restores the contents, and
  `insert` then `erase` of the same range restores them too. It also holds
  worked examples for `at`, element writes, `insert`, `erase`, `resize`, growth by `push_back`
  and the move constructor. All of them are proved from the operations'
  contracts alone.

Elements are `int`: the comparisons need `==` and `<`, and `Vector(n)`
default-constructs its elements to `int()`, which is 0.

Where the code departs from what a reader of `std::vector` would expect, the model follows the code:

- `operator<` is not lexicographic. It holds when the left vector is strictly
  shorter and each of its elements is below the element of the right vector at
  the same index (`PairwiseLess`). So `[1] < [2]` is false. The ordering is
  irreflexive and transitive, but incomparability is not transitive, so it is
  not a strict weak ordering (`PairwiseLessIsNotLexicographic`).
- The move constructor takes over the other vector's buffer. It records the
  other vector's old *size* as its capacity, not the other's capacity.
- Copy assignment gives the target the source's capacity, not its size.
- `clear()` refers to an undefined name `ptr` (Vector.h:225). The model keeps
  the evident intent: the size becomes 0, and the buffer and capacity stay as
  they were.
- Inserting one or more elements into a vector with capacity 0 never
  terminates (see Findings); inserting zero elements returns at once. The
  model uses the corrected doubling rule, `GrowStep`, under which an empty
  buffer grows to one slot.

## Model

| member | source | states |
|---|---|---|
| `Cursors.ToInt32` | Realizations/RandomAccessIterator.h:91-94 | the `int` conversion of a distance is the identity on the 32-bit range and otherwise keeps the value modulo 2^32 |
| `Cursors.Empty` | Realizations/RandomAccessIterator.h:20-22 | `empty()` is true exactly when the position is null |
| `Cursors.Deref` | Realizations/RandomAccessIterator.h:24-31 | `*p` reads the slot at the cursor's offset |
| `Cursors.Index` | Realizations/RandomAccessIterator.h:32-39 | `p[n]` reads the slot n places after the cursor |
| `Cursors.Store` | Realizations/RandomAccessIterator.h:24-27 | `*p = x` replaces the slot at the cursor's offset and leaves every other slot unchanged; `*p` then reads x |
| `Cursors.StoreIndex` | Realizations/RandomAccessIterator.h:32-35 | `p[n] = x` replaces the slot n places after the cursor and leaves every other slot unchanged; `p[n]` then reads x |
| `Cursors.Next` | Realizations/RandomAccessIterator.h:49-53 | `++p` is the cursor one slot further on |
| `Cursors.Prev` | Realizations/RandomAccessIterator.h:59-63 | `--p` is the cursor one slot back |
| `Cursors.PostIncrement` | Realizations/RandomAccessIterator.h:54-58 | `p++` returns the old position and leaves the cursor one slot further on |
| `Cursors.PostDecrement` | Realizations/RandomAccessIterator.h:64-68 | `p--` returns the old position and leaves the cursor one slot back |
| `Cursors.PlusAssign` | Realizations/RandomAccessIterator.h:70-74 | `p += n` moves the cursor n slots (back for negative n) |
| `Cursors.MinusAssignAsWritten` | Realizations/RandomAccessIterator.h:76-79 | `p -= n` as written: the caller's cursor is unchanged, because only a copy moves |
| `Cursors.Plus` | Realizations/RandomAccessIterator.h:80-84 | `p + n` is `+= n` applied to a copy: the cursor n slots on, with `p` untouched |
| `Cursors.Minus` | Realizations/RandomAccessIterator.h:85-89 | `p - n` is `+= -n` applied to a copy: the cursor n slots back |
| `Cursors.Diff` | Realizations/RandomAccessIterator.h:91-94 | `p - q` is the signed element distance, truncated to 32 bits |
| `Cursors.NotEqual` | Realizations/RandomAccessIterator.h:96-99 | `!=` holds exactly between different positions |
| `Cursors.Less` | Realizations/RandomAccessIterator.h:100-103 | `<` orders two positions by offset |
| `Cursors.Equal` | Realizations/RandomAccessIterator.h:105-108 | `==` is the negation of `!=` |
| `Cursors.Greater` | Realizations/RandomAccessIterator.h:109-112 | `p > q` is `q < p` |
| `Cursors.LessEq` | Realizations/RandomAccessIterator.h:113-116 | `p <= q` is the negation of `q < p` |
| `Cursors.GreaterEq` | Realizations/RandomAccessIterator.h:117-120 | `p >= q` is the negation of `p < q` |
| `Cursors.NextPrevRoundTrip` | Realizations/RandomAccessIterator.h:49-53 | pre-increment then pre-decrement restores the position, and so does the reverse order |
| `Cursors.PostStepMovesByOne` | Realizations/RandomAccessIterator.h:54-68 | post-increment and post-decrement return the old position and move the cursor by exactly +1 / -1 |
| `Cursors.PlusThenDiff` | Realizations/RandomAccessIterator.h:80-94 | `(p + n) - p == n` for every `int` n |
| `Cursors.MinusIsPlusNegated` | Realizations/RandomAccessIterator.h:80-89 | `p - n` equals `p + (-n)`, and `(p + n) - n == p` |
| `Cursors.IndexIsDerefOfPlus` | Realizations/RandomAccessIterator.h:24-39 | `p[n]` reads the same slot as `*(p + n)` |
| `Cursors.MinusAssignAsWrittenDoesNotMove` | Realizations/RandomAccessIterator.h:76-79 | `-=` as written leaves the caller's cursor where it was, which differs from the intended `p - n` for every nonzero n |
| `Cursors.MinusAssign` | Realizations/RandomAccessIterator.h:70-79 | the intended `p -= n` gives `p - n`, and `+= n` afterwards restores `p` |
| `Cursors.Trichotomy` | Realizations/RandomAccessIterator.h:96-112 | `==` is the negation of `!=`; exactly one of `p < q`, `p == q`, `p > q` holds |
| `Cursors.NonStrictAreNegations` | Realizations/RandomAccessIterator.h:113-120 | `<=` is the negation of `>` and `>=` the negation of `<`; both order the offsets |
| `Vectors.GrowTo` | Realizations/Vector.h:389-397 | the new capacity is at least `count`; it is at least cap + cap/2 when that fits in `size_t`; it is nothing larger than the bigger of the two, so exactly `count` when 1.5× would overflow |
| `Vectors.DoubleAsWritten` | Realizations/Vector.h:235 | one pass of the doubling loop as written: `_capacity *= 2` |
| `Vectors.DoublingsAsWritten` | Realizations/Vector.h:233-235 | the capacity after k passes of the doubling loop as written |
| `Vectors.AsWrittenLoop` | Realizations/Vector.h:233-238 | the capacity the doubling loop as written ends with, from a nonzero capacity |
| `Vectors.DoublingFromZeroNeverFits` | Realizations/Vector.h:233-238 | from capacity 0, any number of passes of `_capacity *= 2` leaves capacity 0, below any positive requirement |
| `Vectors.GrowStep` | Realizations/Vector.h:235 | the corrected doubling step always grows, and doubles every nonzero capacity as the source does |
| `Vectors.InsertCapacityAsWritten` | Realizations/Vector.h:233-238 | from every nonzero capacity the corrected loop ends at the same capacity as the loop as written (`AsWrittenLoop`), so the correction changes only the start from 0 |
| `Vectors.InsertCapacity` | Realizations/Vector.h:233-238 | the corrected doubling loop ends with room for the requirement; it keeps the capacity when the elements already fit, and otherwise stays below twice the requirement |
| `Vectors.ShiftRight` | Realizations/Vector.h:239-242 | the shift of `insert` moves the elements from `k` up by `count` places, in the same buffer or into the new one, and keeps the first `k` slots |
| `Vectors.ShiftLeft` | Realizations/Vector.h:289-293 | the shift of `erase`: the slots before `end - (last - first)` become the slots before `first` followed by the slots from `last` to `end` |
| `Vectors.CopyPrefix` | Realizations/Vector.h:236-237 | the prefix copy into the new buffer of `insert`: its first `k` slots equal the old buffer's |
| `Vectors.FillBackward` | Realizations/Vector.h:243-244 | the fill of `insert(pos, count, val)`: slots `k..k+count` hold `val`, the slots before `k` and from `k+count` to `n` are unchanged |
| `Vectors.CopyListBackward` | Realizations/Vector.h:281-282 | the copy of `insert(pos, list)`: the list's length of slots from `k` hold the list in order, the slots before `k` and after the gap up to `n` are unchanged |
| `Vectors.CopyRangeBackward` | Realizations/Vector.h:264-265 | the range form of `insert` writes the range's elements, in order, into the gap and touches no other slot |
| `Vectors.Vector.constructor` | Realizations/Vector.h:27-30 | the default vector is empty with capacity 0 |
| `Vectors.Vector.Sized` | Realizations/Vector.h:31-36 | `Vector(n)` holds n default elements (0) with capacity n |
| `Vectors.Vector.Filled` | Realizations/Vector.h:37-42 | `Vector(n, val)` holds n copies of val with capacity n |
| `Vectors.Vector.Copy` | Realizations/Vector.h:43-54 | a copy has the other's elements in order, in a fresh buffer of exactly `other.size` slots |
| `Vectors.Vector.FromList` | Realizations/Vector.h:55-60 | the list's elements in list order, with capacity equal to the list length |
| `Vectors.Vector.FromRange` | Realizations/Vector.h:61-67 | the range's elements in order; size and capacity are `end - beg` |
| `Vectors.Vector.Move` | Realizations/Vector.h:68-73 | the new vector takes over the other's buffer and elements, with capacity set to the other's old size; the other is left with size == capacity == 0 |
| `Vectors.Vector.CopyAssign` | Realizations/Vector.h:94-105 | after `a = b`, a has b's size, capacity and elements; self-assignment changes nothing |
| `Vectors.Vector.MoveAssign` | Realizations/Vector.h:106-109 | move assignment exactly exchanges buffer, size, capacity and contents, as `swap` does |
| `Vectors.Vector.AssignFill` | Realizations/Vector.h:110-113 | `assign(n, val)` leaves n copies of val with capacity n |
| `Vectors.Vector.AssignRange` | Realizations/Vector.h:114-117 | `assign(beg, end)` leaves the range's elements, with capacity equal to the new size |
| `Vectors.Vector.Swap` | Realizations/Vector.h:334-342 | `swap` exchanges size, capacity, buffer and contents |
| `Vectors.Vector.CheckedAt` | Realizations/Vector.h:119-128 | `at(i)` signals out-of-range exactly when i >= size; otherwise it returns element i; it changes no state |
| `Vectors.Vector.Get` | Realizations/Vector.h:129-136 | `operator[]` returns element i of the live elements |
| `Vectors.Vector.SetAt` | Realizations/Vector.h:129-135 | `v[i] = x` replaces element i with x and leaves every other element, the size and the capacity unchanged |
| `Vectors.Vector.CheckedSetAt` | Realizations/Vector.h:119-128 | `v.at(i) = x` signals out-of-range exactly when i >= size and then changes nothing; otherwise it replaces element i with x and nothing else |
| `Vectors.Vector.SetFront` | Realizations/Vector.h:137-144 | `v.front() = x` replaces the first element and nothing else |
| `Vectors.Vector.SetBack` | Realizations/Vector.h:145-152 | `v.back() = x` replaces the last element and nothing else |
| `Vectors.Vector.Front` | Realizations/Vector.h:137-144 | `front()` is the first element |
| `Vectors.Vector.Back` | Realizations/Vector.h:145-152 | `back()` is the last element |
| `Vectors.Vector.Begin` | Realizations/Vector.h:162-173 | `begin()` is the cursor at offset 0 |
| `Vectors.Vector.End` | Realizations/Vector.h:174-185 | `end()` is the cursor at offset size |
| `Vectors.Vector.IsEmpty` | Realizations/Vector.h:187-190 | `empty()` holds exactly when there are no elements |
| `Vectors.Vector.Size` | Realizations/Vector.h:191-194 | `size()` is the number of live elements |
| `Vectors.Vector.Capacity` | Realizations/Vector.h:205-208 | `capacity()` returns the `capacity` field, which is never below the number of live elements |
| `Vectors.Vector.Reallocate` | Realizations/Vector.h:398-408 | when n <= capacity nothing changes; otherwise the capacity becomes `growTo(n)` in a fresh buffer, and size and elements are unchanged and in order |
| `Vectors.Vector.Reserve` | Realizations/Vector.h:199-204 | `reserve(n)` behaves as `reallocate(n)`: no change when n <= capacity, otherwise capacity `growTo(n)` with the elements preserved |
| `Vectors.Vector.ShrinkToFit` | Realizations/Vector.h:209-220 | the capacity becomes the size and the contents stay; a new buffer is allocated only when they differed |
| `Vectors.Vector.Clear` | Realizations/Vector.h:222-227 | no elements remain; buffer and capacity are unchanged |
| `Vectors.Vector.OpenGap` | Realizations/Vector.h:232-242 | the growth and shift of `insert`: the capacity becomes the doubled capacity, size grows by count; the first k elements stay in place and the rest move up by count |
| `Vectors.Vector.InsertFill` | Realizations/Vector.h:228-246 | the new contents are old[0..k) ++ count copies of val ++ old[k..size); the returned cursor has index k; count == 0 changes nothing |
| `Vectors.Vector.InsertOne` | Realizations/Vector.h:247-250 | `insert(pos, val)` puts val at index k and returns index k |
| `Vectors.Vector.InsertRange` | Realizations/Vector.h:251-267 | the range's elements are inserted at k in their original order; the returned cursor has index k |
| `Vectors.Vector.InsertList` | Realizations/Vector.h:268-284 | the list's elements are inserted at k in list order; the returned cursor has index k |
| `Vectors.Vector.EraseRange` | Realizations/Vector.h:289-298 | the new contents are old[0..i) ++ old[j..size); size drops by j - i; buffer and capacity are unchanged; the returned cursor has index i |
| `Vectors.Vector.EraseOne` | Realizations/Vector.h:285-288 | `erase(pos)` removes exactly the element at pos and returns pos |
| `Vectors.Vector.PushBack` | Realizations/Vector.h:319-328 | size grows by 1, v becomes the last element, earlier elements are unchanged, and size <= capacity; capacity follows `growTo(size + 1)` when the buffer was full |
| `Vectors.Vector.EmplaceBack` | Realizations/Vector.h:299-303 | as `push_back`: the new element is appended and nothing else changes |
| `Vectors.Vector.PopBack` | Realizations/Vector.h:329-333 | the last element is removed; on an empty vector nothing happens |
| `Vectors.Vector.Resize` | Realizations/Vector.h:307-318 | for n <= size, the first n elements are kept with buffer and capacity unchanged; for n > size, n - size copies of v are appended and the capacity follows `reallocate(n)`, so it is at least n |
| `Vectors.Vector.ResizeDefault` | Realizations/Vector.h:304-306 | `resize(n)` is `resize(n, int())` |
| `Vectors.NotEqual` | Realizations/Vector.h:344-352 | `!=` is true exactly when the sizes differ or some index holds different elements |
| `Vectors.Less` | Realizations/Vector.h:353-364 | `<` is true exactly when lhs is strictly shorter and lhs[i] < rhs[i] for every i < lhs.size |
| `Vectors.Equal` | Realizations/Vector.h:365-368 | `==` is true exactly when the two contents are equal sequences |
| `Vectors.Greater` | Realizations/Vector.h:369-372 | `>` is `<` with the operands swapped |
| `Vectors.LessEq` | Realizations/Vector.h:373-376 | `<=` is the negation of `rhs < lhs` |
| `Vectors.GreaterEq` | Realizations/Vector.h:377-380 | `>=` is the negation of `lhs < rhs` |
| `Vectors.DifferIffUnequal` | Realizations/Vector.h:344-352 | the `!=` predicate holds exactly between different sequences |
| `Vectors.EqualityReflexiveSymmetric` | Realizations/Vector.h:365-368 | `==` is reflexive and symmetric |
| `Vectors.PairwiseLessStrictOrder` | Realizations/Vector.h:353-364 | `<` is irreflexive, transitive and asymmetric, and never holds between equal vectors |
| `Vectors.PairwiseLessIsNotLexicographic` | Realizations/Vector.h:353-364 | `[1] < [2]` is false, and incomparability is not transitive |
| `VectorScenarios.PushPopRestores` | Realizations/Vector.h:319-333 | `push_back` followed by `pop_back` restores the contents |
| `VectorScenarios.InsertEraseRestores` | Realizations/Vector.h:228-298 | `insert` of count copies followed by `erase` of the same range restores the contents |
| `VectorScenarios.WriteExample` | Realizations/Vector.h:119-135 | on [1,2,3], `v[1] = 9` gives [1,9,3], `at(3) = 5` signals out-of-range and changes nothing, and `*begin() = 4` gives [4,9,3] |
| `VectorScenarios.AtExample` | Realizations/Vector.h:123-128 | on [1,2,3], `at(2)` is 3 while `at(3)` and `at(4)` signal out-of-range |
| `VectorScenarios.InsertExample` | Realizations/Vector.h:228-246 | on [1,2,3], `insert(begin() + 1, 2, 9)` gives [1,9,9,2,3] and returns a cursor at the first 9 |
| `VectorScenarios.EraseExample` | Realizations/Vector.h:289-298 | on [1,2,3,4,5], `erase(begin() + 1, begin() + 3)` gives [1,4,5] and returns a cursor at 4 |
| `VectorScenarios.ResizeExample` | Realizations/Vector.h:304-318 | `resize(5, 7)` on [1,2] gives [1,2,7,7,7]; `resize(1)` then gives [1] and keeps capacity 5 |
| `VectorScenarios.PushBackGrowthExample` | Realizations/Vector.h:389-408 | five `push_back`s on an empty vector give capacities 1, 2, 3, 4, 6 |
| `VectorScenarios.MoveExample` | Realizations/Vector.h:68-73 | after `reserve(4)` on [1,2], moving out gives a vector [1,2] with capacity 2 and leaves the source with size and capacity 0 |

## Left out

- The allocator policy (`Allocator()`, `get_allocator`, `allocate`/`construct`/`destroy`/`deallocate`): object lifetime and raw memory have no Dafny counterpart. Live slots are `buf[..size]`, and the constructors that take an allocator behave like the ones that do not.
- The allocator-mismatch branch of `Vector(Vector&&, const allocator_type&)` (Vector.h:74-88): its observable result is that of the plain move constructor.
- The destructor and the destroy loops in `erase`, `resize`, `pop_back`, `clear` and `deallocate`: destroying an `int` does nothing. Wrong capacity arguments passed to `deallocate` are memory bookkeeping only.
- Raw `new[]` in `insert`: the old buffer is leaked, and every pass of the doubling loop allocates a buffer and copies the prefix into it. The model allocates once, at the final capacity, and copies the prefix once. The observable result is the same.
- `data()`, `operator->`, `get()` and pointer identity. `begin()` of a vector without a buffer is a null pointer in the source; the model gives the cursor at offset 0.
- Cursor invalidation: a cursor is not tied to the buffer it came from, and a stale cursor after a reallocation is not detected.
- Dead checks: `index < 0` on an unsigned index in `at` (Vector.h:125), and `capacity > max_size()` in `reserve` (Vector.h:201), which can never be true for a `size_t`. `SizeT` parameters exclude both cases by type.
- Copy: the allocator-taking copy constructor counts with an `int` loop variable (Vector.h:52), which overflows above 2^31 - 1 elements; the model's counter is unbounded.
- CopyAssign: the loop variable is an `int` (Vector.h:102), with the same overflow above 2^31 - 1 elements; the model's counter is unbounded.
- InsertFill: requires that the doubled capacity stays within `max_size`; near 2^64 the source's `size_t` doubling and `size() + count` would wrap.
- InsertOne: the same doubled-capacity bound as InsertFill.
- InsertList: the same doubled-capacity bound as InsertFill.
- InsertRange: the same doubled-capacity bound as InsertFill; in addition the range must not lie in the vector's own buffer, and it may hold at most 2^31 - 1 elements, because `end - beg` is an `int`.
- FromRange: the range may hold at most 2^31 - 1 elements, because `end - beg` is an `int` that would wrap.
- AssignRange: the same range bound as FromRange.
- EraseRange: the erased range may hold at most 2^31 - 1 elements, because `last - first` is an `int` that would wrap.
- PushBack: requires size < `max_size`, because `size() + 1` would wrap to 0.
- EmplaceBack: the same bound as PushBack; the element is built from one value instead of a constructor argument pack.
- SetAt: requires i < size; the source's unchecked `operator[]` also lets a caller write to slots between size and capacity, or beyond the buffer, which is undefined.
- SetFront: requires a non-empty vector; the source's `front()` on an empty vector is undefined.
- SetBack: requires a non-empty vector; the source's `back()` on an empty vector is undefined.
- Cursor arithmetic (`Next`, `Prev`, `PlusAssign`, `Plus`, `Minus`, `Diff`) requires a non-null cursor, because offsetting a null pointer is undefined. `Minus` excludes `n == INT32_MIN`, whose negation is undefined.
- Trichotomy: states the cursor ordering only for non-null cursors, because ordering a null against a non-null pointer is unspecified; `Less` and the comparisons derived from it require non-null cursors for the same reason.
- Concurrency: there is none in the code. The comment-stripping utility (`Delete comments/main.cpp`) is not part of this model.

## Findings

| source | as written | input that shows it | evidently intended | confidence | as-written member | corrected member |
|---|---|---|---|---|---|---|
| Realizations/Vector.h:233-238 | the loop `while (size() + count > capacity()) _capacity *= 2` never changes a capacity of 0, so `insert` into a vector without a buffer never terminates. The range and list forms (Vector.h:254-259, 271-276) have the same loop | `Vector<int> v; v.insert(v.begin(), 1, 5);` | an empty buffer grows to one slot, and doubling then continues until the new elements fit | high, not executed | `Vectors.DoublingFromZeroNeverFits` (over `Vectors.DoublingsAsWritten`) | `Vectors.InsertCapacity` (over `Vectors.GrowStep`), used by `Vectors.Vector.OpenGap`; `Vectors.InsertCapacityAsWritten` shows it agrees with the loop as written from every nonzero capacity |
| Realizations/RandomAccessIterator.h:76-79 | `operator-=` takes its left operand by value, so the caller's cursor does not move, and the returned reference is to a local | a cursor `p` at offset 3; `p -= 1` leaves `p` at offset 3 | `p` moves to offset 2, as `p += -1` would | high, not executed | `Cursors.MinusAssignAsWrittenDoesNotMove` (over `Cursors.MinusAssignAsWritten`) | `Cursors.MinusAssign` |
