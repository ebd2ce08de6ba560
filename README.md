# RingBuffer — a verified model

This project models `RingBuffer<T>` from `src/utils/ring_buffer.rs`, a
fixed-capacity circular buffer that is always full. The buffer holds a vector
of N slots and a signed rotation offset. Every read and write maps a logical
index `i` to the physical slot `(offset + i).rem_euclid(N)`, so negative and
out-of-range indices wrap. `rotate` moves only the offset. `resize` puts the
contents into logical order, truncates or pads them, and resets the offset to
0. The two iterators walk logical indices `0 .. N`.

Layout:

- `ring_algebra.dfy`, module `RingAlgebra`: pure index arithmetic and the
  sequence-level specification. `RemEuclid` is Rust's `rem_euclid` for a
  positive modulus. `View(elements, offset)` is the contents in logical order.
  `RotateLeft` and `Resized` are the effects of `slice::rotate_left` and
  `Vec::resize`. The lemmas state the rotation, write and resize algebra.
- `ring_buffer.dfy`, module `RingBuffers`: class `RingBuffer<T>` with the
  fields `elements: seq<T>` and `currentIndex: int`, and the two iterator
  classes. Each iterator has a `const` reference to its buffer and a mutable
  `index` counter. `Collect` and `AssignZipped` drain the iterators the way
  the tests do (`iter().eq(..)`, `iter_mut().zip(..).for_each(..)`);
  `IterMutSlots` drains `iter_mut()` to prove which slots it lends.
- `ring_buffer_scenarios.dfy`, module `RingBufferScenarios`: the unit tests at
  the end of the source file, replayed through the model's operations. Every
  value a test asserts on is a result of its scenario, stated as a
  postcondition.

A mutable iterator in the source yields `&mut T`. Here `RingBufferIterMut.Next`
yields the physical slot index that the reference points to. The caller
(`AssignZipped`) writes through that slot. `IterMutSlots` proves that the slots
lent during one traversal are distinct and cover every slot.

`resize` first calls `get_array_index(0)`, which takes a remainder by zero on
an empty buffer and panics (src/utils/ring_buffer.rs:58, 69-70). `Resize`,
like `Get`, `GetArrayIndex` and `Set`, therefore requires a non-empty buffer.

## Model

| member | source | states |
|---|---|---|
| RingAlgebra.RemEuclid | src/utils/ring_buffer.rs:68-71 | for a positive modulus the result is in [0, n), whatever the sign of the argument |
| RingAlgebra.RemEuclidCongruent | src/utils/ring_buffer.rs:68-71 | the result differs from the argument by a multiple of n |
| RingAlgebra.RemEuclidUnique | src/utils/ring_buffer.rs:68-71 | any r in [0, n) with a == n * q + r is the result, so range and congruence determine it |
| RingAlgebra.RemEuclidPeriodic | src/utils/ring_buffer.rs:68-71 | adding any multiple of n to the argument leaves the remainder unchanged |
| RingAlgebra.RemEuclidOfSlot | src/utils/ring_buffer.rs:68-71 | an index already in [0, n) maps to itself |
| RingAlgebra.RemEuclidAdd | src/utils/ring_buffer.rs:68-71 | reducing a summand before adding does not change the remainder of the sum |
| RingAlgebra.SlotDistance | src/utils/ring_buffer.rs:68-71 | the slot of any integer index i lies i positions past the offset, modulo n |
| RingAlgebra.SlotMapInverse | src/utils/ring_buffer.rs:68-71 | logical index to slot and slot back to logical index are inverse maps of [0, n) for any offset |
| RingAlgebra.SlotsDistinct | src/utils/ring_buffer.rs:107-117 | two logical indices in [0, n) share a slot exactly when they are equal |
| RingAlgebra.View | src/utils/ring_buffer.rs:90-101 | the logical order has one entry per slot; its entries are fixed by ViewAt |
| RingAlgebra.RotateLeft | src/utils/ring_buffer.rs:59 | rotate_left(mid): the old suffix from mid comes first, then the old prefix |
| RingAlgebra.RotateLeftAt | src/utils/ring_buffer.rs:59 | after rotate_left(mid), position j holds the old element at (mid + j) mod n |
| RingAlgebra.Resized | src/utils/ring_buffer.rs:28 | Vec::resize(n, d): length n, old elements kept below the old length, d at every new position |
| RingAlgebra.ViewAt | src/utils/ring_buffer.rs:77-79 | the slot an integer index maps to holds the logical element at index mod n, for negative and out-of-range indices too |
| RingAlgebra.ViewUnrotated | src/utils/ring_buffer.rs:30 | with offset 0 the logical order is the storage order |
| RingAlgebra.ViewIsRotateLeft | src/utils/ring_buffer.rs:58-59 | rotating the storage left by get_array_index(0) yields exactly the logical order |
| RingAlgebra.ViewRotate | src/utils/ring_buffer.rs:64-66 | adding delta to the offset rotates the logical order left by delta mod n |
| RingAlgebra.ViewUpdate | src/utils/ring_buffer.rs:84-87 | writing the slot of index i changes logical position i mod n to the new value and no other position |
| RingAlgebra.ResizeKeepsLogicalOrder | src/utils/ring_buffer.rs:57-62 | after the rotate_left and resize, the result has length n, holds the old logical prefix, then padding, and keeps the old front element when n > 0 |
| RingBuffers.RingBuffer.Contents | src/utils/ring_buffer.rs:90-101 | the logical contents have one entry per slot |
| RingBuffers.RingBuffer.constructor | src/utils/ring_buffer.rs:26-33 | size copies of the default value, offset 0, logical order equal to storage order; size 0 gives an empty buffer |
| RingBuffers.RingBuffer.IsEmpty | src/utils/ring_buffer.rs:35-37 | true exactly when the length is 0, that is, when the logical contents are empty |
| RingBuffers.RingBuffer.Len | src/utils/ring_buffer.rs:53-55 | the number of logical elements |
| RingBuffers.RingBuffer.GetArrayIndex | src/utils/ring_buffer.rs:68-71 | on a non-empty buffer, the slot in [0, N) whose distance from the offset is congruent to index mod N, so it holds the logical element at index mod N |
| RingBuffers.RingBuffer.Get | src/utils/ring_buffer.rs:74-81 | buffer[i] is the logical element at i mod N; it requires a non-empty buffer, as the source panics otherwise |
| RingBuffers.RingBuffer.Set | src/utils/ring_buffer.rs:83-88 | buffer[i] = x writes only the slot of i, keeps the offset, changes only logical position i mod N, and a later read of i gives x |
| RingBuffers.RingBuffer.Rotate | src/utils/ring_buffer.rs:64-66 | storage is unchanged, the offset grows by num, the logical order rotates left by num mod N, and the old buffer[num] becomes buffer[0] |
| RingBuffers.RingBuffer.Resize | src/utils/ring_buffer.rs:57-62 | the new storage is the old logical order resized to the new size with default padding, the offset is 0, and buffer[0] is kept when the new size is positive |
| RingBuffers.RingBuffer.Iter | src/utils/ring_buffer.rs:39-44 | a fresh iterator over this buffer at index 0 |
| RingBuffers.RingBuffer.IterMut | src/utils/ring_buffer.rs:46-51 | a fresh mutable iterator over this buffer at index 0 |
| RingBuffers.RingBufferIter.constructor | src/utils/ring_buffer.rs:40-43 | the iterator refers to its buffer and starts at index 0 |
| RingBuffers.RingBufferIter.Next | src/utils/ring_buffer.rs:93-101 | below the length it yields the logical element at index and advances; at or past the length it yields None and stays put |
| RingBuffers.RingBufferIterMut.constructor | src/utils/ring_buffer.rs:47-50 | the iterator refers to its buffer and starts at index 0 |
| RingBuffers.RingBufferIterMut.Next | src/utils/ring_buffer.rs:107-117 | below the length it lends the slot get_array_index(index) and advances; at or past the length it yields None and stays put |
| RingBuffers.IndexWraps | src/utils/ring_buffer.rs:77-79 | buffer[i + N] == buffer[i] == buffer[i - N], and buffer[-1] == buffer[N - 1] |
| RingBuffers.Collect | src/utils/ring_buffer.rs:90-101 | draining iter() yields exactly len() items, the k-th equal to buffer[k], that is, the whole logical order |
| RingBuffers.IterMutSlots | src/utils/ring_buffer.rs:104-117 | draining iter_mut() lends N slots in logical order: the k-th lies in [0, N), is k positions past the offset mod N and holds logical element k; no slot twice and every slot once |
| RingBuffers.AssignZipped | src/utils/ring_buffer.rs:104-117 | assigning a sequence through iter_mut() zipped with it sets the first min(N, count) logical positions in order, keeps the rest and the offset |
| RingBufferScenarios.EmptyBuffer | src/utils/ring_buffer.rs:144-149 | new(0, 5) has length 0 and is empty |
| RingBufferScenarios.SingleElement | src/utils/ring_buffer.rs:151-162 | one slot: reads 5, reads 3 after writing 3, iterates as [3], then as [7] after a zipped assignment |
| RingBufferScenarios.ThreeElements | src/utils/ring_buffer.rs:164-174 | new(3, 0) has length 3 with buffer[0] == 0 and buffer[2] == 0; after assigning [1, 2, 3] it iterates as [1, 2, 3] with buffer[0] == 1 and buffer[2] == 3 |
| RingBufferScenarios.RotateForwards | src/utils/ring_buffer.rs:176-193 | [1..5] rotated by 2 reads 3 at 0, 2 at 4 and 1 at -2, iterates as [3, 4, 5, 1, 2], and a zipped assignment of [5..9] iterates back as [5..9] |
| RingBufferScenarios.ZeroTwoFive | src/utils/ring_buffer.rs:197-201 | new(3, 0) iterates as [0, 0, 0]; writes of 0, 2, 5 at indices 0, 1, 2 then store and iterate as [0, 2, 5] with offset 0 |
| RingBufferScenarios.RotateBackwards | src/utils/ring_buffer.rs:195-207 | new(3, 0) first iterates as [0, 0, 0]; then [0, 2, 5] rotated by -1 iterates as [5, 0, 2] with buffer[-1] == 2, and a zipped assignment of [5, 6, 7] iterates back as [5, 6, 7] |
| RingBufferScenarios.ResizeBigger | src/utils/ring_buffer.rs:209-219 | new(3, 0) first iterates as [0, 0, 0]; then [0, 2, 5] rotated by -1 and resized to 5 with 7 iterates as [5, 0, 2, 7, 7] |
| RingBufferScenarios.ResizeSmaller | src/utils/ring_buffer.rs:221-231 | new(3, 0) first iterates as [0, 0, 0]; then [0, 2, 5] rotated by 1 and resized to 2 with 7 iterates as [2, 5] |

## Left out

- Fixed-width arithmetic: `current_index` is an `isize` in the source, and `rotate` adds to it without an overflow check. The model's offset is an unbounded `int`. Offset overflow after very many or very large rotations is not modelled. The `isize` addition `self.current_index + index` in `get_array_index` (src/utils/ring_buffer.rs:70) is not modelled either: it can overflow even without any rotation overflow, for example `buffer[isize::MAX]` after `rotate(1)`, which panics in debug builds; in release builds the sum wraps, and unless N is a power of two the access lands on a different slot than the unbounded sum would. The cast of the length to `isize` is not modelled either.
- Generic index types: `Index` and `IndexMut` accept any integer type and convert it with `AsPrimitive<isize>`. That conversion can truncate wide unsigned values. The model's index is an unbounded `int`.
- Raw-pointer aliasing in `RingBufferIterMut::next`: the `&mut T` it returns is modelled as the slot index it addresses. Lifetimes and borrow exclusivity are not modelled. The fact that no slot is lent twice is proved by `IterMutSlots`.
- The `IntoIterator` impls for `&RingBuffer` and `&mut RingBuffer` only call `iter` and `iter_mut`, so they have no separate model.
- `Vec::resize` and `slice::rotate_left` are given by their effect on the sequence (`Resized`, `RotateLeft`), not by their in-place algorithms. The `Clone` bound and allocation failure are not modelled.
- RingAlgebra.RemEuclid: its own contract states only the range [0, n). Congruence with the argument is stated by `RingAlgebra.RemEuclidCongruent` and uniqueness by `RingAlgebra.RemEuclidUnique`. Keeping the congruence out of the function's contract keeps every proof that mentions an index small.
- RingAlgebra.View: its own contract states only the length. The meaning of each position is given by `RingAlgebra.ViewAt`.
- RingBuffers.RingBuffer.Contents: its own contract states only the length. It is `View` of the two fields, and every operation's contract is stated through it.
