/** The state of one FIFO buffer as a value, and the effect of each buffer
    operation on that value.

    A buffer is a capacity `size`, a read cursor `start`, a write cursor `end`,
    the counters `writeCount` and `readCount`, and the storage it was bound to
    (`elems`, at least `size` slots long). The number of queued elements is
    `writeCount - readCount`; the queued elements are the `Count` slots that
    follow `start`, going round the storage modulo `size`.

    Write and read check neither fullness nor emptiness, exactly as the
    buffer they model: `Valid` is the structural invariant that every
    operation keeps however it is used, and `Coherent` adds the occupancy
    bound `0 <= Count <= size` under which the live slots form a queue.
 */
module FifoModel {

  datatype Fifo<T> = Fifo(size: int, start: int, end: int,
                          writeCount: int, readCount: int, elems: seq<T>)

  /** Holds in every state reached from a successful initialisation, whatever
      the order of writes and reads: the cursors are the counters reduced
      modulo the capacity, so both stay inside the first `size` slots. */
  predicate Valid<T>(f: Fifo<T>)
  {
    0 < f.size <= |f.elems| &&
    0 <= f.readCount && 0 <= f.writeCount &&
    f.start == f.readCount % f.size &&
    f.end == f.writeCount % f.size
  }

  /** Number of queued elements; negative after a read from an empty buffer. */
  function Count<T>(f: Fifo<T>): int
  {
    f.writeCount - f.readCount
  }

  predicate IsFull<T>(f: Fifo<T>)
  {
    Count(f) == f.size
  }

  predicate IsEmpty<T>(f: Fifo<T>)
  {
    Count(f) == 0
  }

  predicate Overflow<T>(f: Fifo<T>)
  {
    Count(f) >= f.size
  }

  /** The buffer has been used as its callers are told to use it: no write
      while full and no read while empty. */
  predicate Coherent<T>(f: Fifo<T>)
  {
    Valid(f) && 0 <= Count(f) <= f.size
  }

  /** The abstract queue: the `Count` live slots, oldest first. */
  function Contents<T>(f: Fifo<T>): seq<T>
    requires Coherent(f)
  {
    seq(Count(f), k requires 0 <= k < Count(f) => f.elems[(f.start + k) % f.size])
  }

  /** Binds storage `mem` as a buffer of capacity `s` with zeroed cursors and
      counters. Nothing is checked, as in the source. */
  function Init<T>(s: int, mem: seq<T>): Fifo<T>
  {
    Fifo(s, 0, 0, 0, 0, mem)
  }

  /** Stores `v` at the write cursor, counts the write and advances the write
      cursor modulo the capacity. */
  function Write<T>(f: Fifo<T>, v: T): (r: Fifo<T>)
    requires Valid(f)
    ensures Valid(r) && r.size == f.size && |r.elems| == |f.elems|
    ensures 0 <= r.end < r.size
  {
    ModOfSum(f.writeCount, 1, f.size);
    f.(elems := f.elems[f.end := v], writeCount := f.writeCount + 1,
       end := (f.end + 1) % f.size)
  }

  /** Returns the element at the read cursor, counts the read and advances
      the read cursor modulo the capacity. */
  function Read<T>(f: Fifo<T>): (r: (T, Fifo<T>))
    requires Valid(f)
    ensures Valid(r.1) && r.1.size == f.size && r.1.elems == f.elems
    ensures 0 <= r.1.start < r.1.size
  {
    ModOfSum(f.readCount, 1, f.size);
    (f.elems[f.start],
     f.(readCount := f.readCount + 1, start := (f.start + 1) % f.size))
  }

  /** Peek exactly as written: the slot `start + index`, without wrapping, so
      only defined while that slot lies inside the capacity. */
  function Peek<T>(f: Fifo<T>, index: int): T
    requires Valid(f) && 0 <= f.start + index < f.size
  {
    f.elems[f.start + index]
  }

  /** Peek with the wrap that write and read apply: the slot
      `(start + index) % size`. A deliberate divergence from the source. */
  function PeekWrapped<T>(f: Fifo<T>, index: int): T
    requires Valid(f)
  {
    f.elems[(f.start + index) % f.size]
  }

  /** Zeroes both cursors and both counters; storage and capacity stay. */
  function Flush<T>(f: Fifo<T>): Fifo<T>
  {
    f.(start := 0, end := 0, readCount := 0, writeCount := 0)
  }

  // ---------------------------------------------------------------------
  // Modular arithmetic used by the proofs below.

  /** Euclidean division is unique: any quotient and remainder in range are
      the ones `/` and `%` give. */
  lemma ModUnique(x: int, n: int, q: int, r: int)
    requires n > 0 && 0 <= r < n && x == n * q + r
    ensures x % n == r && x / n == q
  {
    var q', r' := x / n, x % n;
    assert x == n * q' + r';
    if q' > q {
      MulAtLeast(n, q' - q);
    } else if q' < q {
      MulAtLeast(n, q - q');
    }
  }

  lemma {:induction false} MulAtLeast(n: int, k: int)
    requires n > 0 && k >= 1
    ensures n * k >= n
    decreases k
  {
    if k > 1 {
      MulAtLeast(n, k - 1);
      assert n * k == n * (k - 1) + n;
    }
  }

  lemma ModOfSum(a: int, c: int, n: int)
    requires n > 0
    ensures (a % n + c) % n == (a + c) % n
  {
    var q, q2 := a / n, (a % n + c) / n;
    assert a == n * q + a % n;
    assert a % n + c == n * q2 + (a % n + c) % n;
    assert n * (q + q2) == n * q + n * q2;
    ModUnique(a + c, n, q + q2, (a % n + c) % n);
  }

  lemma ModSmall(x: int, n: int)
    requires n > 0 && 0 <= x < 2 * n
    ensures x % n == if x < n then x else x - n
  {
    if x < n {
      ModUnique(x, n, 0, x);
    } else {
      ModUnique(x, n, 1, x - n);
    }
  }

  /** In a coherent state the write cursor sits `Count` slots after the read
      cursor. */
  lemma EndFollowsQueue<T>(f: Fifo<T>)
    requires Coherent(f)
    ensures f.end == (f.start + Count(f)) % f.size
  {
    ModOfSum(f.readCount, Count(f), f.size);
  }

  /** The slot of the k-th queued element, written without `%`. */
  lemma SlotOf<T>(f: Fifo<T>, k: int)
    requires Valid(f) && 0 <= k <= f.size
    ensures (f.start + k) % f.size ==
            if f.start + k < f.size then f.start + k else f.start + k - f.size
  {
    ModSmall(f.start + k, f.size);
  }

  // ---------------------------------------------------------------------
  // Properties of single operations.

  /** After initialisation over storage of at least `s > 0` slots the buffer
      is coherent and empty, and holds the supplied storage. */
  lemma InitIsEmpty<T>(s: int, mem: seq<T>)
    requires 0 < s <= |mem|
    ensures var f := Init(s, mem);
            Coherent(f) && IsEmpty(f) && !IsFull(f) && !Overflow(f) &&
            Contents(f) == [] && f.size == s && f.elems == mem
  {
  }

  /** The status queries read as statements about the abstract queue. */
  lemma StatusMeaning<T>(f: Fifo<T>)
    requires Coherent(f)
    ensures IsEmpty(f) <==> Contents(f) == []
    ensures IsFull(f) <==> |Contents(f)| == f.size
    ensures Overflow(f) <==> IsFull(f)
    ensures |Contents(f)| == Count(f)
  {
  }

  /** A write that passes the `!IsFull` guard appends to the queue. */
  lemma {:induction false} WriteAppends<T>(f: Fifo<T>, v: T)
    requires Coherent(f) && !IsFull(f)
    ensures Coherent(Write(f, v))
    ensures Contents(Write(f, v)) == Contents(f) + [v]
  {
    var r := Write(f, v);
    var c := Count(f);
    EndFollowsQueue(f);
    SlotOf(f, c);
    forall k | 0 <= k < c + 1
      ensures Contents(r)[k] == (Contents(f) + [v])[k]
    {
      SlotOf(f, k);
      if k < c {
        assert (f.start + k) % f.size != f.end;
      }
    }
  }

  /** A read that passes the `!IsEmpty` guard pops the front of the queue. */
  lemma {:induction false} ReadPops<T>(f: Fifo<T>)
    requires Coherent(f) && !IsEmpty(f)
    ensures Read(f).0 == Contents(f)[0]
    ensures Coherent(Read(f).1)
    ensures Contents(Read(f).1) == Contents(f)[1..]
  {
    var r := Read(f).1;
    SlotOf(f, 0);
    forall k | 0 <= k < Count(f) - 1
      ensures Contents(r)[k] == Contents(f)[1..][k]
    {
      ModOfSum(f.start, 1, f.size);
      ModOfSum(f.start + 1, k, f.size);
      assert f.start + 1 + k == f.start + (k + 1);
    }
  }

  /** A write while full lands on the oldest unread slot and leaves the buffer
      in overflow, no longer coherent. */
  lemma {:induction false} FullWriteOverwritesOldest<T>(f: Fifo<T>, v: T)
    requires Coherent(f) && IsFull(f)
    ensures Write(f, v).elems[f.start] == v
    ensures Overflow(Write(f, v)) && Count(Write(f, v)) == f.size + 1
    ensures !Coherent(Write(f, v))
  {
    EndFollowsQueue(f);
    SlotOf(f, f.size);
  }

  /** Peek as written, at an offset that stays inside the capacity, returns
      the queued element at that position. */
  lemma {:induction false} PeekIsQueued<T>(f: Fifo<T>, i: int)
    requires Coherent(f) && 0 <= i < Count(f) && f.start + i < f.size
    ensures Peek(f, i) == Contents(f)[i]
  {
    SlotOf(f, i);
  }

  /** The wrapped peek returns the queued element at every position. */
  lemma PeekWrappedIsQueued<T>(f: Fifo<T>, i: int)
    requires Coherent(f) && 0 <= i < Count(f)
    ensures PeekWrapped(f, i) == Contents(f)[i]
  {
  }

  /** Flush, on a buffer bound to storage, empties it and leaves storage and
      capacity untouched. */
  lemma FlushEmpties<T>(f: Fifo<T>)
    requires 0 < f.size <= |f.elems|
    ensures Coherent(Flush(f)) && IsEmpty(Flush(f)) && Contents(Flush(f)) == []
    ensures Flush(f).elems == f.elems && Flush(f).size == f.size
  {
  }

  /** After a flush one write makes the count one and the next read returns
      that value, leaving the buffer empty again. */
  lemma {:induction false} FlushWriteRead<T>(f: Fifo<T>, v: T)
    requires 0 < f.size <= |f.elems|
    ensures Count(Write(Flush(f), v)) == 1
    ensures Contents(Write(Flush(f), v)) == [v]
    ensures Read(Write(Flush(f), v)).0 == v
    ensures IsEmpty(Read(Write(Flush(f), v)).1)
  {
    FlushEmpties(f);
    WriteAppends(Flush(f), v);
    ReadPops(Write(Flush(f), v));
  }
}
