/** The buffer record as an object over caller-supplied storage. Each field
    of the record is a field of the class; the storage is an array the
    buffer only borrows. Every method is specified by the matching function
    of `FifoModel` applied to `State()`, the record's current value, and
    the properties proved there carry over to the object. */
module FifoBuffers {
  import opened FifoModel

  class FifoBuffer<T> {
    var size: int
    var start: int
    var end: int
    var writeCount: int
    var readCount: int
    var elems: array<T>

    /** The record and the contents of its storage, as a value. */
    ghost function State(): Fifo<T>
      reads this, elems
    {
      Fifo(size, start, end, writeCount, readCount, elems[..])
    }

    ghost predicate Valid()
      reads this, elems
    {
      FifoModel.Valid(State())
    }

    /** Binds `mem` as storage for a buffer of capacity `s` and zeroes the
        cursors and counters. Like the source it checks nothing; the buffer
        is usable when `0 < s <= mem.Length`. */
    constructor (s: int, mem: array<T>)
      ensures elems == mem
      ensures State() == FifoModel.Init(s, mem[..])
      ensures 0 < s <= mem.Length ==> Valid() && FifoModel.IsEmpty(State())
    {
      size := s;
      start := 0;
      end := 0;
      readCount := 0;
      writeCount := 0;
      elems := mem;
    }

    /** Stores `v` at the write cursor without checking for room. Only the
        write cursor, the write counter and that one storage slot change. */
    method Write(v: T)
      requires Valid()
      modifies this`end, this`writeCount, elems
      ensures State() == FifoModel.Write(old(State()), v)
      ensures Valid()
      ensures FifoModel.Coherent(old(State())) && !FifoModel.IsFull(old(State())) ==>
                FifoModel.Coherent(State()) &&
                Contents(State()) == Contents(old(State())) + [v]
    {
      elems[end] := v;
      writeCount := writeCount + 1;
      end := (end + 1) % size;
      if FifoModel.Coherent(old(State())) && !FifoModel.IsFull(old(State())) {
        WriteAppends(old(State()), v);
      }
    }

    /** Takes the value at the read cursor without checking that one is
        queued. Only the read cursor and the read counter change. */
    method Read() returns (v: T)
      requires Valid()
      modifies this`start, this`readCount
      ensures (v, State()) == FifoModel.Read(old(State()))
      ensures Valid()
      ensures FifoModel.Coherent(old(State())) && !FifoModel.IsEmpty(old(State())) ==>
                v == Contents(old(State()))[0] &&
                FifoModel.Coherent(State()) &&
                Contents(State()) == Contents(old(State()))[1..]
    {
      v := elems[start];
      readCount := readCount + 1;
      start := (start + 1) % size;
      if FifoModel.Coherent(old(State())) && !FifoModel.IsEmpty(old(State())) {
        ReadPops(old(State()));
      }
    }

    /** Peek as written: the slot `start + index`, unwrapped. Changes
        nothing. */
    method Peek(index: int) returns (v: T)
      requires Valid() && 0 <= start + index < size
      ensures v == FifoModel.Peek(State(), index)
      ensures FifoModel.Coherent(State()) && 0 <= index < FifoModel.Count(State()) ==>
                v == Contents(State())[index]
    {
      v := elems[start + index];
      if FifoModel.Coherent(State()) && 0 <= index < FifoModel.Count(State()) {
        PeekIsQueued(State(), index);
      }
    }

    /** Peek with the wrap that write and read apply, reaching every queued
        element. A deliberate divergence from the source. Changes nothing. */
    method PeekWrapped(index: int) returns (v: T)
      requires Valid()
      ensures v == FifoModel.PeekWrapped(State(), index)
      ensures FifoModel.Coherent(State()) && 0 <= index < FifoModel.Count(State()) ==>
                v == Contents(State())[index]
    {
      v := elems[(start + index) % size];
    }

    /** Zeroes the cursors and counters; storage and capacity stay. */
    method Flush()
      modifies this`start, this`end, this`readCount, this`writeCount
      ensures State() == FifoModel.Flush(old(State()))
      ensures 0 < size <= elems.Length ==>
                FifoModel.Coherent(State()) && Contents(State()) == []
    {
      start := 0;
      end := 0;
      readCount := 0;
      writeCount := 0;
    }

    function Count(): (c: int)
      reads this, elems
      ensures c == FifoModel.Count(State())
      ensures FifoModel.Coherent(State()) ==> c == |Contents(State())|
    {
      writeCount - readCount
    }

    function IsFull(): (b: bool)
      reads this, elems
      ensures b == FifoModel.IsFull(State())
      ensures FifoModel.Coherent(State()) ==> (b <==> |Contents(State())| == size)
    {
      Count() == size
    }

    function IsEmpty(): (b: bool)
      reads this, elems
      ensures b == FifoModel.IsEmpty(State())
      ensures FifoModel.Coherent(State()) ==> (b <==> Contents(State()) == [])
    {
      Count() == 0
    }

    function Overflow(): (b: bool)
      reads this, elems
      ensures b == FifoModel.Overflow(State())
      ensures FifoModel.Coherent(State()) ==> (b <==> IsFull())
    {
      Count() >= size
    }
  }

  /** Two buffers over distinct storage, of the same or of different element
      types, do not interfere: writing one alters neither the other's fields
      nor its storage. */
  method WriteBoth<A, B>(a: FifoBuffer<A>, b: FifoBuffer<B>, x: A, y: B)
    requires a.Valid() && b.Valid()
    requires a as object != b as object
    requires a.elems as object != b.elems as object
    modifies a, a.elems, b, b.elems
    ensures a.State() == FifoModel.Write(old(a.State()), x)
    ensures b.State() == FifoModel.Write(old(b.State()), y)
  {
    a.Write(x);
    b.Write(y);
  }

  /** The read half of the same test: reading one buffer does not move the
      other. */
  method ReadBoth<A, B>(a: FifoBuffer<A>, b: FifoBuffer<B>) returns (x: A, y: B)
    requires a.Valid() && b.Valid()
    requires a as object != b as object
    modifies a, b
    ensures (x, a.State()) == FifoModel.Read(old(a.State()))
    ensures (y, b.State()) == FifoModel.Read(old(b.State()))
  {
    x := a.Read();
    y := b.Read();
  }
}
