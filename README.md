# Ringbuffer — a verified model

This project models the fixed-capacity ring buffer of `src/ringbuffer.rs` in Dafny.
`Ringbuffer` wraps a slice that the caller supplies. `push` overwrites the oldest value once
every slot is in use. Iterating a `&Ringbuffer` walks from the most recent value backwards
and stops after `min(inserted, len)` values.

The model keeps the source's imperative form:

- `Ringbuffers.Ringbuffer` is a class with a constant `buf` (an `array<T>`) and the fields
  `writeIdx` and `inserted`. It also has a ghost field `History` that holds every pushed value.
- `Ringbuffers.RingbufferIter` is a class with the fields `idx` and `itemsToYield` and a
  constant reference `ring`. A ghost counter `Yielded` records how many values it has
  yielded.
- `History.Newest(h, cap)` specifies what a reader observes: the last `min(|h|, cap)` values
  of `h`, newest first.
- `Layout.Holds` is the layout invariant on plain values: slots, history and cursor.
- `Modular.Slot` is position modulo capacity, written as repeated subtraction.
- `RingbufferTests` restates the unit tests of the source as client methods. Each method's
  postcondition is what that test observes.

Two facts about the source shape the model:

- The write cursor is wrapped lazily at the start of `push` (src/ringbuffer.rs:20-22), so
  `0 <= write_idx <= len`. That branch is taken on every push that follows a positive
  multiple of `len` pushes (`Layout.CursorAfterPushes`).
- `new` adopts the caller's slice as it is, including a zero-length one. Iterating a
  zero-length buffer yields nothing. `push` on it would index out of bounds, so `Push`
  requires `buf.Length > 0`.

## Model

| member | source | states |
|---|---|---|
| `Ringbuffers.Ringbuffer.constructor` | src/ringbuffer.rs:9-16 | the slice is adopted unchanged; the cursor and counter are 0; nothing is observable |
| `Ringbuffers.Ringbuffer.Push` | src/ringbuffer.rs:18-29 | the value goes into slot `(write_idx == len ? 0 : write_idx)` and every other slot keeps its value; the cursor ends in `[1, len]`; `inserted` grows by 1; the observable sequence gains the value in front and keeps at most `len - 1` older ones |
| `Ringbuffers.RingbufferIter.constructor` | src/ringbuffer.rs:41-53 | the iterator starts at the write cursor with `min(inserted, len)` values to yield |
| `Ringbuffers.RingbufferIter.Next` | src/ringbuffer.rs:58-73 | it returns None, with the state unchanged, exactly when the count is spent; otherwise the cursor steps back from 0 to `len - 1`, the index it reads is below `len`, and the value is the (Yielded + 1)-th most recent push |
| `Ringbuffers.Get` | src/ringbuffer.rs:71 | `slice::get` gives Some exactly for an index inside the slice, and that element |
| `Ringbuffers.Collect` | src/ringbuffer.rs:41-73 | draining a fresh iterator yields exactly `Newest(History, len)` |
| `Ringbuffers.Take` | src/ringbuffer.rs:160 | taking m values from a fresh iterator yields the `min(m, len)` most recent pushes, newest first |
| `History.Min` | src/ringbuffer.rs:46-51 | the count to yield is the smaller of `inserted` and `len` |
| `History.Newest` | src/ringbuffer.rs:58-73 | the walk yields `min(n, len)` values, and its k-th value is push `n - 1 - k` |
| `History.NewestIsReversedSuffix` | src/ringbuffer.rs:41-73 | the walk is the reversal of the last `min(n, len)` pushes |
| `History.NewestWithinCapacity` | src/ringbuffer.rs:138-150 | with `n <= len`, iteration yields `vn, ..., v1` |
| `History.NewestForgetsOldest` | src/ringbuffer.rs:123-136 | once `len` values follow them, earlier pushes no longer affect what is observed |
| `History.NewestPrefix` | src/ringbuffer.rs:152-164 | stopping after m values yields the m most recent pushes |
| `History.NewestPush` | src/ringbuffer.rs:18-29 | a push puts its value first and keeps at most `len - 1` older values |
| `Modular.SlotPredecessor` | src/ringbuffer.rs:64-69 | stepping one position back wraps slot 0 to slot `len - 1` |
| `Modular.SlotDistinct` | src/ringbuffer.rs:24 | a push never overwrites any of the `len - 1` values pushed just before it |
| `Layout.EmptyHolds` | src/ringbuffer.rs:9-16 | any slice contents with cursor 0 and no pushes satisfy the invariant |
| `Layout.CursorAfterPushes` | src/ringbuffer.rs:20-26 | the cursor is 0 before the first push and `(n - 1) mod len + 1` after n pushes, so it equals `len` after every positive multiple of `len` pushes |
| `Layout.PushPreserves` | src/ringbuffer.rs:20-26 | the slot written is `n mod len`, and the invariant holds again after the write and increment |
| `Layout.StepBack` | src/ringbuffer.rs:64-71 | the slot read is inside the buffer and holds the (y + 1)-th most recent push; the cursor stays aligned with the remaining pushes |
| `RingbufferTests.PushCounting` | src/ringbuffer.rs:127-129 | pushing `1..=count` leaves exactly that history |
| `RingbufferTests.Empty` | src/ringbuffer.rs:82-87 | a fresh 17-slot buffer's iterator returns None at once |
| `RingbufferTests.OneItem` | src/ringbuffer.rs:90-97 | after pushing 18, the iterator yields 18 and then None |
| `RingbufferTests.TwoItems` | src/ringbuffer.rs:101-110 | in 2 slots, pushing 18 and 19 yields 19, 18, None |
| `RingbufferTests.TwoItemsOverflow` | src/ringbuffer.rs:112-122 | in 2 slots, pushing 18, 19 and 20 yields 20, 19, None |
| `RingbufferTests.Push20Capacity10` | src/ringbuffer.rs:124-136 | 20 pushes into 10 slots yield 20 down to 11, ten values |
| `RingbufferTests.Push20Capacity50` | src/ringbuffer.rs:138-150 | 20 pushes into 50 slots yield 20 down to 1, twenty values |
| `RingbufferTests.Push20Take10Capacity50` | src/ringbuffer.rs:152-164 | `take(10)` after 20 pushes into 50 slots yields 20 down to 11 |
| `RingbufferTests.StructElements` | src/ringbuffer.rs:174-181 | 21 pushes of pairs into 10 default slots all meet push's precondition; the newest is (20, 20) and the oldest still observable is (11, 11) |

## Left out

- `src/main.rs` (`bumsti`, `main`, `Pair`) is demonstration code. It never uses the ring buffer, so it is not part of this model.
- Lifetimes and borrowing (`'a`, `&'a mut [T]`) are left out. The slice is an `array<T>` that the constructor receives. The iterator's shared borrow becomes a `Next` that modifies only the iterator. Dafny cannot forbid the caller from writing to the array behind the buffer's back. Such a write can break `Valid()`, and then `Push` and iteration can no longer be called.
- `inserted` is a `nat`, so the model does not capture `usize` overflow. The source does not handle overflow either.
- `Iterator` and `IntoIterator` are not modelled as traits. `Next` and `RingbufferIter.constructor` stand for `next` and `into_iter`. `Collect` and `Take` stand for a `for` loop and for `take(m)`.
- `next` returns a reference into the slice. The model returns the element's value.
- `Ringbuffers.Ringbuffer.Push` requires a non-empty buffer. In the source, a push on a zero-length slice panics at line 24, and the model does not represent that panic.
- `Default` is not modelled. The test arrays are filled explicitly with `0` or `Pair(0, 0)`.
- `test_struct` has no assertions in the source. `RingbufferTests.StructElements` states what the model proves about it.
