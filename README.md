# Generic fixed-capacity FIFO buffer

This project models the generic circular FIFO buffer of `FifoBuffer.h`: a
record with a capacity `size`, a read cursor `start`, a write cursor `end`
and two occupancy counters, `write_count` and `read_count`, over a
caller-supplied storage region `elems`. The source instantiates the record
and its operations once per element type with text macros. Here they are
one generic class `FifoBuffer<T>` over an `array<T>`.

The operations:

- **init** binds the storage and zeroes the cursors and counters.
- **write** stores at `end`, counts the write and advances `end` modulo
  `size`.
- **read** is the mirror of write, using `start` and `read_count`.
- **peek** reads slot `start + index`. It does not wrap.
- **flush** zeroes the cursors and counters and leaves the storage alone.
- **count**, **is_full**, **is_empty** and **overflow** are expressions over
  `count = write_count - read_count`.

Write and read check nothing, as in the source. The callers guard them with
`is_full` and `is_empty`.

The project has three modules:

- `FifoModel` (`fifo_model.dfy`) gives the buffer's state as a value
  `Fifo<T>` and each operation as a function on that value. It has two
  invariants:
  - `Valid`: capacity positive, storage at least `size` slots long,
    `start == read_count % size` and `end == write_count % size`. Every
    operation keeps it, however the buffer is used.
  - `Coherent`: `Valid` plus `0 <= count <= size`. Guarded use keeps it.

  In a coherent state `Contents` is the abstract queue: the slots
  `elems[(start + k) % size]` for `k < count`, oldest first. Under the
  guards a write appends to this queue and a read pops its front.
- `FifoTraces` (`fifo_traces.dfy`) composes operations into the sequences
  the unit tests run. These are the FIFO round trip, filling to capacity,
  the guarded overflow loop, fill-and-drain cycles, bursts drained with
  `while !is_empty`, and peeking after writes. It proves what the tests
  assert about each one.
- `FifoBuffers` (`fifo_buffer.dfy`) holds the class. Each of its fields is a
  field of the record. Each mutator's `modifies` clause names exactly the
  fields the macro assigns. Each method is specified as the `FifoModel`
  function applied to `State()`, the object's value. Because the frames are
  exact, two buffers over distinct storage cannot interfere.

## Model

| member | source | states |
|---|---|---|
| `FifoBuffers.FifoBuffer.constructor` | FifoBuffer.h:65-71 | the object holds the supplied array; size is the given capacity; start, end and both counters are zero; with `0 < s <= mem.Length` the buffer is valid and empty |
| `FifoBuffers.FifoBuffer.Write` | FifoBuffer.h:73-76 | the new state is `FifoModel.Write` of the old one; only `end`, `write_count` and one storage slot may change; validity is kept; if the buffer was coherent and not full, the queue gains `v` at its back |
| `FifoBuffers.FifoBuffer.Read` | FifoBuffer.h:78-81 | returns the value and new state of `FifoModel.Read`; only `start` and `read_count` may change; validity is kept; if the buffer was coherent and not empty, it returns the queue's front and the queue loses it |
| `FifoBuffers.FifoBuffer.Peek` | FifoBuffer.h:83-84 | with `start + index` inside the capacity, returns `elems[start + index]` and changes nothing; for a queued position this is the queued element there |
| `FifoBuffers.FifoBuffer.PeekWrapped` | FifoBuffer.h:83-84 | corrected peek: returns the slot `(start + index) % size`, which is the queued element at position `index` for every `index < count`; changes nothing |
| `FifoBuffers.FifoBuffer.Flush` | FifoBuffer.h:86-90 | the new state is `FifoModel.Flush` of the old one; storage and size are untouched; a bound buffer is then coherent and its queue is empty |
| `FifoBuffers.FifoBuffer.Count` | FifoBuffer.h:92 | equals `write_count - read_count`; in a coherent state it is the length of the queue |
| `FifoBuffers.FifoBuffer.IsFull` | FifoBuffer.h:93 | true exactly when count equals size; in a coherent state, exactly when the queue holds `size` elements |
| `FifoBuffers.FifoBuffer.IsEmpty` | FifoBuffer.h:94 | true exactly when count is zero; in a coherent state, exactly when the queue is empty |
| `FifoBuffers.FifoBuffer.Overflow` | FifoBuffer.h:95 | true exactly when count is at least size; in a coherent state, exactly when the buffer is full |
| `FifoBuffers.WriteBoth` | FifoBuffer_test.c:111-124 | writing two buffers over distinct storage, possibly of different element types, gives each exactly its own write; neither disturbs the other |
| `FifoBuffers.ReadBoth` | FifoBuffer_test.c:126-131 | reading two distinct buffers gives each exactly its own read |
| `FifoModel.Write` | FifoBuffer.h:73-76 | an unguarded write keeps `Valid`, the size and the storage length; the new write cursor stays in `[0, size)` |
| `FifoModel.Read` | FifoBuffer.h:78-81 | an unguarded read keeps `Valid`, the size and the storage; the new read cursor stays in `[0, size)` |
| `FifoModel.InitIsEmpty` | FifoBuffer.h:65-71 | init over storage of at least `s > 0` slots gives a coherent buffer with the given size and storage; it is empty, not full and not in overflow, and its queue is empty |
| `FifoModel.StatusMeaning` | FifoBuffer.h:92-95 | in a coherent state: is_empty iff the queue is empty; is_full iff the queue holds `size` elements; overflow iff is_full; count is the queue's length |
| `FifoModel.EndFollowsQueue` | FifoBuffer.h:73-81 | in a coherent state the write cursor lies `count` slots after the read cursor, modulo size |
| `FifoModel.WriteAppends` | FifoBuffer.h:73-76 | a write that passes the `!is_full` guard keeps the buffer coherent and appends the value to the queue |
| `FifoModel.ReadPops` | FifoBuffer.h:78-81 | a read that passes the `!is_empty` guard returns the queue's front, keeps the buffer coherent and drops that front |
| `FifoModel.FullWriteOverwritesOldest` | FifoBuffer.h:73-76 | a write while full stores into the oldest unread slot; count becomes `size + 1`, overflow holds and the buffer is no longer coherent |
| `FifoModel.PeekIsQueued` | FifoBuffer.h:83-84 | peek as written, at a queued position whose unwrapped slot is inside the capacity, returns the queued element at that position |
| `FifoModel.PeekWrappedIsQueued` | FifoBuffer.h:83-84 | the corrected peek returns the queued element at every queued position |
| `FifoModel.FlushEmpties` | FifoBuffer.h:86-90 | after flush a bound buffer is coherent and empty, with the same storage and size |
| `FifoModel.FlushWriteRead` | FifoBuffer_test.c:247-259 | after any flush, one write makes count 1 and the queue exactly that value; the next read returns it and leaves the buffer empty |
| `FifoTraces.Drain` | FifoBuffer_test.c:190-196 | reading while `!is_empty` ends coherent and empty, with the same size |
| `FifoTraces.WriteAllKeepsReadSide` | FifoBuffer.h:73-76 | writes never move the read cursor or the read counter; each write raises count by one |
| `FifoTraces.WriteAllAppends` | FifoBuffer.h:73-76 | guarded writes, as many as there is room for, append all their values to the queue in order |
| `FifoTraces.ReadNPops` | FifoBuffer.h:78-81 | `n` guarded reads return the first `n` queued values in order and leave the rest queued |
| `FifoTraces.DrainReturnsContents` | FifoBuffer_test.c:190-196 | draining with `while !is_empty` returns exactly the queue, oldest first |
| `FifoTraces.RoundTrip` | FifoBuffer_test.c:39-65 | from empty, `N <= size` writes followed by `N` reads return the written values in order and leave the buffer empty |
| `FifoTraces.FullAfterCapacityWrites` | FifoBuffer_test.c:54-60 | from empty, `size` writes make the buffer full, with the written values as its queue |
| `FifoTraces.GuardPassesExactlyCapacity` | FifoBuffer_test.c:79-94 | from empty, writing `size + 1` values: the buffer is not full before each of the first `size` writes and is full before the last; afterwards overflow holds and the oldest slot holds the last value |
| `FifoTraces.BurstsRoundTrip` | FifoBuffer_test.c:182-197 | from empty, for bursts that each fit: writing a burst and draining gives back exactly that burst, every time |
| `FifoTraces.CyclesReturnToEmpty` | FifoBuffer_test.c:147-162 | from empty, each of any number of fill-and-drain cycles reads back the written values, and count is zero at the end |
| `FifoTraces.PeekAfterWrites` | FifoBuffer_test.c:211-224 | right after init and at most `size` writes, peeking at `i` stays inside the capacity and returns the i-th written value |
| `FifoTraces.PeekAsWrittenMissesWrappedSlot` | FifoBuffer.h:83-84 | with capacity `s >= 2`: write `s`, read `s - 1`, write `e`. Two values are queued, `e` is at position 1, and that position's unwrapped slot `start + 1` equals `s`. The wrapped peek returns `e` |

## Left out

- The macro mechanism that stamps out one record type and operation family per element type. It becomes the type parameter `T`. The `(T*)BUFMEM` cast becomes an `array<T>` argument.
- The C `int` width of the counters. `write_count` and `read_count` are unbounded integers; the source's signed overflow after about 2^31 operations is not modelled.
- Init checks nothing, as in the source. The capacity error that a safer design would report does not exist in the code. The buffer is usable (`Valid`) only when `0 < size <= storage length`. Write and read require `Valid` because they divide by `size` and index the storage.
- Underflow: a read from an empty buffer is modelled (`Valid` still holds and count goes negative). No queue property is stated for that regime.
- `FifoBuffers.FifoBuffer.Peek`: it requires `0 <= start + index < size`. The source indexes the storage unchecked, and past that bound the result is whatever lies there or beyond it.
- The status queries `Count`, `IsFull`, `IsEmpty` and `Overflow` declare that they read the storage. Their contracts speak of the queue, which lives there. Their bodies use only the counters and `size`.
- The unit-test harness itself: `main`, the static arrays, `NUMEL`, the element structs, and the `rand`/`srand(time(NULL))` burst lengths. Burst lengths are any sequence of lengths that fit.

## Findings

| source | as written | input that shows it | evidently intended | confidence | as-written member | corrected member |
|---|---|---|---|---|---|---|
| FifoBuffer.h:83-84 | peek reads slot `start + INDEX` with no wrap modulo `size` | capacity 4 over 4 slots: write 4 values, read 3, write `e`; `e` is queued at position 1, but `start + 1 == 4` is past the storage | slot `(start + INDEX) % size`, the wrap that write and read use | medium, not executed | `FifoTraces.PeekAsWrittenMissesWrappedSlot` (about `FifoModel.Peek`) | `FifoBuffers.FifoBuffer.PeekWrapped` (proved by `FifoModel.PeekWrappedIsQueued`) |

`FifoBuffers.FifoBuffer.Peek` keeps the literal unwrapped behaviour.
`PeekWrapped` is a deliberate divergence from the source, given beside it.
