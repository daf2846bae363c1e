/** Sequences of buffer operations, as the unit tests drive them, and the
    first-in-first-out guarantees they rely on. */
module FifoTraces {
  import opened FifoModel

  /** Writes every value of `vs` in order, unguarded. */
  function WriteAll<T>(f: Fifo<T>, vs: seq<T>): (r: Fifo<T>)
    requires Valid(f)
    ensures Valid(r) && r.size == f.size && |r.elems| == |f.elems|
    decreases |vs|
  {
    if vs == [] then f else WriteAll(Write(f, vs[0]), vs[1..])
  }

  /** Performs `n` unguarded reads; returns the values read, oldest first,
      and the final state. */
  function ReadN<T>(f: Fifo<T>, n: nat): (r: (seq<T>, Fifo<T>))
    requires Valid(f)
    ensures Valid(r.1) && r.1.size == f.size && r.1.elems == f.elems
    decreases n
  {
    if n == 0 then ([], f)
    else
      var (x, g) := Read(f);
      var (xs, h) := ReadN(g, n - 1);
      ([x] + xs, h)
  }

  /** Reads while the buffer is not empty, as a consumer loop guarded by
      `!IsEmpty` does. */
  function Drain<T>(f: Fifo<T>): (r: (seq<T>, Fifo<T>))
    requires Coherent(f)
    ensures Coherent(r.1) && IsEmpty(r.1) && r.1.size == f.size
    decreases Count(f)
  {
    if IsEmpty(f) then ([], f)
    else
      var (x, g) := Read(f);
      var (xs, h) := Drain(g);
      ([x] + xs, h)
  }

  /** Every burst has room in an empty buffer of capacity `size`. */
  ghost predicate FitsEach<T>(bursts: seq<seq<T>>, size: int)
  {
    forall b :: b in bursts ==> |b| <= size
  }

  /** For each burst in turn: write it, then drain the buffer. Returns what
      each drain produced and the final state. */
  function Bursts<T>(f: Fifo<T>, bursts: seq<seq<T>>): (r: (seq<seq<T>>, Fifo<T>))
    requires Coherent(f) && IsEmpty(f) && FitsEach(bursts, f.size)
    ensures Coherent(r.1) && IsEmpty(r.1) && r.1.size == f.size
    ensures |r.0| == |bursts|
    decreases |bursts|
  {
    if bursts == [] then ([], f)
    else
      WriteAllAppends(f, bursts[0]);
      var (out, g) := Drain(WriteAll(f, bursts[0]));
      assert forall b :: b in bursts[1..] ==> b in bursts;
      var (outs, h) := Bursts(g, bursts[1..]);
      ([out] + outs, h)
  }

  /** `j` fill-and-drain cycles: write `vs`, then read `|vs|` values. Returns
      the values read in each cycle and the final state. */
  function Cycles<T>(f: Fifo<T>, vs: seq<T>, j: nat): (r: (seq<seq<T>>, Fifo<T>))
    requires Valid(f)
    ensures Valid(r.1) && |r.0| == j
    decreases j
  {
    if j == 0 then ([], f)
    else
      var (out, g) := ReadN(WriteAll(f, vs), |vs|);
      var (outs, h) := Cycles(g, vs, j - 1);
      ([out] + outs, h)
  }

  // ---------------------------------------------------------------------
  // Frame facts: what a sequence of writes or reads leaves alone.

  lemma {:induction false} WriteAllKeepsReadSide<T>(f: Fifo<T>, vs: seq<T>)
    requires Valid(f)
    ensures WriteAll(f, vs).start == f.start
    ensures WriteAll(f, vs).readCount == f.readCount
    ensures Count(WriteAll(f, vs)) == Count(f) + |vs|
    decreases |vs|
  {
    if vs != [] {
      WriteAllKeepsReadSide(Write(f, vs[0]), vs[1..]);
    }
  }

  // ---------------------------------------------------------------------
  // The queue refinement over many operations.

  /** Guarded writes append their values to the queue, in order. */
  lemma {:induction false} WriteAllAppends<T>(f: Fifo<T>, vs: seq<T>)
    requires Coherent(f) && Count(f) + |vs| <= f.size
    ensures Coherent(WriteAll(f, vs))
    ensures Contents(WriteAll(f, vs)) == Contents(f) + vs
    decreases |vs|
  {
    if vs != [] {
      WriteAppends(f, vs[0]);
      var g := Write(f, vs[0]);
      WriteAllAppends(g, vs[1..]);
      assert Contents(f) + vs == Contents(g) + vs[1..] by {
        assert vs == [vs[0]] + vs[1..];
      }
    }
  }

  /** `n` guarded reads return the first `n` queued values and leave the
      rest queued. */
  lemma {:induction false} ReadNPops<T>(f: Fifo<T>, n: nat)
    requires Coherent(f) && n <= Count(f)
    ensures ReadN(f, n).0 == Contents(f)[..n]
    ensures Coherent(ReadN(f, n).1)
    ensures Contents(ReadN(f, n).1) == Contents(f)[n..]
    decreases n
  {
    if n > 0 {
      ReadPops(f);
      var g := Read(f).1;
      ReadNPops(g, n - 1);
      assert Contents(g) == Contents(f)[1..];
      assert Contents(f)[..n] == [Contents(f)[0]] + Contents(f)[1..][..n - 1];
      assert Contents(f)[n..] == Contents(f)[1..][n - 1..];
    }
  }

  /** A drain guarded by `!IsEmpty` returns exactly the queue. */
  lemma {:induction false} DrainReturnsContents<T>(f: Fifo<T>)
    requires Coherent(f)
    ensures Drain(f).0 == Contents(f)
    decreases Count(f)
  {
    if !IsEmpty(f) {
      ReadPops(f);
      var g := Read(f).1;
      DrainReturnsContents(g);
      assert Contents(f) == [Contents(f)[0]] + Contents(f)[1..];
    } else {
      StatusMeaning(f);
    }
  }

  /** FIFO round trip: from empty, at most `size` writes followed by as many
      reads yield the written values in order and leave the buffer empty. */
  lemma {:induction false} RoundTrip<T>(f: Fifo<T>, vs: seq<T>)
    requires Coherent(f) && IsEmpty(f) && |vs| <= f.size
    ensures ReadN(WriteAll(f, vs), |vs|).0 == vs
    ensures Coherent(ReadN(WriteAll(f, vs), |vs|).1)
    ensures IsEmpty(ReadN(WriteAll(f, vs), |vs|).1)
  {
    StatusMeaning(f);
    WriteAllAppends(f, vs);
    var g := WriteAll(f, vs);
    assert Contents(g) == vs;
    StatusMeaning(g);
    ReadNPops(g, |vs|);
    StatusMeaning(ReadN(g, |vs|).1);
  }

  /** From empty, `size` writes make the buffer full. */
  lemma {:induction false} FullAfterCapacityWrites<T>(f: Fifo<T>, vs: seq<T>)
    requires Coherent(f) && IsEmpty(f) && |vs| == f.size
    ensures IsFull(WriteAll(f, vs))
    ensures Contents(WriteAll(f, vs)) == vs
  {
    WriteAllKeepsReadSide(f, vs);
    WriteAllAppends(f, vs);
    StatusMeaning(f);
  }

  /** From empty, writing `size + 1` values one at a time: the `!IsFull`
      guard passes for exactly the first `size` of them, and the extra write
      leaves the buffer in overflow with its oldest slot overwritten. */
  lemma {:induction false} GuardPassesExactlyCapacity<T>(f: Fifo<T>, vs: seq<T>)
    requires Coherent(f) && IsEmpty(f) && |vs| == f.size + 1
    ensures forall k :: 0 <= k < f.size ==> !IsFull(WriteAll(f, vs[..k]))
    ensures IsFull(WriteAll(f, vs[..f.size]))
    ensures Overflow(WriteAll(f, vs))
    ensures WriteAll(f, vs).elems[f.start] == vs[f.size]
  {
    forall k | 0 <= k < f.size ensures !IsFull(WriteAll(f, vs[..k])) {
      WriteAllKeepsReadSide(f, vs[..k]);
    }
    var full := WriteAll(f, vs[..f.size]);
    WriteAllKeepsReadSide(f, vs[..f.size]);
    WriteAllAppends(f, vs[..f.size]);
    WriteAllSplit(f, vs[..f.size], [vs[f.size]]);
    assert vs[..f.size] + [vs[f.size]] == vs;
    assert WriteAll(full, [vs[f.size]]) == Write(full, vs[f.size]) by {
      assert [vs[f.size]][1..] == [];
    }
    FullWriteOverwritesOldest(full, vs[f.size]);
  }

  lemma {:induction false} WriteAllSplit<T>(f: Fifo<T>, us: seq<T>, vs: seq<T>)
    requires Valid(f)
    ensures WriteAll(f, us + vs) == WriteAll(WriteAll(f, us), vs)
    decreases |us|
  {
    if us != [] {
      assert (us + vs)[0] == us[0] && (us + vs)[1..] == us[1..] + vs;
      WriteAllSplit(Write(f, us[0]), us[1..], vs);
    } else {
      assert us + vs == vs;
    }
  }

  /** Burst test: from empty, writing each burst and draining with
      `while !IsEmpty` gives back every burst exactly and ends empty. */
  lemma {:induction false} BurstsRoundTrip<T>(f: Fifo<T>, bursts: seq<seq<T>>)
    requires Coherent(f) && IsEmpty(f) && FitsEach(bursts, f.size)
    ensures Bursts(f, bursts).0 == bursts
    decreases |bursts|
  {
    if bursts != [] {
      StatusMeaning(f);
      WriteAllAppends(f, bursts[0]);
      var w := WriteAll(f, bursts[0]);
      DrainReturnsContents(w);
      assert Contents(w) == bursts[0] by {
        assert Contents(f) == [];
        assert [] + bursts[0] == bursts[0];
      }
      var g := Drain(w).1;
      assert forall b :: b in bursts[1..] ==> b in bursts;
      BurstsRoundTrip(g, bursts[1..]);
      assert Bursts(f, bursts).0 == [Drain(w).0] + Bursts(g, bursts[1..]).0;
      assert bursts == [bursts[0]] + bursts[1..];
    }
  }

  /** Fill-and-drain test: from empty, any number of cycles of writing `vs`
      (at most `size` values) and reading as many each return `vs`, and the
      count is back to zero after every cycle. */
  lemma {:induction false} CyclesReturnToEmpty<T>(f: Fifo<T>, vs: seq<T>, j: nat)
    requires Coherent(f) && IsEmpty(f) && |vs| <= f.size
    ensures forall i :: 0 <= i < j ==> Cycles(f, vs, j).0[i] == vs
    ensures Coherent(Cycles(f, vs, j).1) && Count(Cycles(f, vs, j).1) == 0
    decreases j
  {
    if j > 0 {
      RoundTrip(f, vs);
      var g := ReadN(WriteAll(f, vs), |vs|).1;
      CyclesReturnToEmpty(g, vs, j - 1);
    }
  }

  // ---------------------------------------------------------------------
  // Peek.

  /** Peek test: right after initialisation and at most `size` writes, peek
      as written returns the i-th written value. */
  lemma {:induction false} PeekAfterWrites<T>(s: int, mem: seq<T>, vs: seq<T>, i: int)
    requires 0 < s <= |mem| && |vs| <= s && 0 <= i < |vs|
    ensures var f := WriteAll(Init(s, mem), vs);
            f.start + i < f.size && Peek(f, i) == vs[i]
  {
    var f0 := Init(s, mem);
    InitIsEmpty(s, mem);
    WriteAllKeepsReadSide(f0, vs);
    WriteAllAppends(f0, vs);
    var f := WriteAll(f0, vs);
    PeekIsQueued(f, i);
  }

  /** Peek as written cannot reach every queued element: initialise with
      capacity `s >= 2`, write `s` values, read `s - 1`, write one more. Then two
      values are queued, the second is the one just written, and it sits at
      queue position 1, whose unwrapped slot `start + 1` equals `s` — past
      the capacity, so outside the storage when the storage is exactly `s`
      slots long. The wrapped peek returns it. */
  lemma {:induction false} PeekAsWrittenMissesWrappedSlot<T>(
    s: int, mem: seq<T>, vs: seq<T>, e: T)
    requires 1 < s <= |mem| && |vs| == s
    ensures var g := Write(ReadN(WriteAll(Init(s, mem), vs), s - 1).1, e);
            Coherent(g) && Count(g) == 2 && g.start + 1 == g.size &&
            Contents(g) == [vs[s - 1], e] && PeekWrapped(g, 1) == e
  {
    var f0 := Init(s, mem);
    InitIsEmpty(s, mem);
    WriteAllKeepsReadSide(f0, vs);
    WriteAllAppends(f0, vs);
    var f := WriteAll(f0, vs);
    assert Contents(f) == vs;
    ReadNPops(f, s - 1);
    ReadNCounts(f, s - 1);
    var h := ReadN(f, s - 1).1;
    assert Contents(h) == vs[s - 1..] == [vs[s - 1]];
    WriteAppends(h, e);
    var g := Write(h, e);
    assert h.readCount == s - 1 && g.readCount == s - 1 && g.writeCount == s + 1;
    ModSmall(s - 1, s);
    PeekWrappedIsQueued(g, 1);
  }

  lemma {:induction false} ReadNCounts<T>(f: Fifo<T>, n: nat)
    requires Valid(f)
    ensures ReadN(f, n).1.readCount == f.readCount + n
    ensures ReadN(f, n).1.writeCount == f.writeCount
    decreases n
  {
    if n > 0 {
      ReadNCounts(Read(f).1, n - 1);
    }
  }
}
