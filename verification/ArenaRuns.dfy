/** The kernel heap with its memory over whole runs: a block that is live and that nobody names keeps its size and its
    bytes. */
module ArenaRuns {
  import opened Prelude
  import opened Bitmaps
  import opened ArenaLayout
  import opened ArenaSafety
  import opened ArenaBytes

  datatype Memory = Memory(heap: Heap, mem: seq<Byte>)

  /** A call of `malloc` or `free`, a write into a live block, or the other users of the page pool. `realloc` is an
      allocation, a write of the copied bytes into the new block, and a release of the old one. */
  datatype Op =
    | DoMalloc(size: nat, result: Option<nat>)
    | DoFree(block: nat)
    | DoWrite(block: nat, offset: nat, bytes: seq<Byte>)
    | DoOthers

  predicate Names(op: Op, b: nat) { (op.DoFree? || op.DoWrite?) && op.block == b }

  function Stored(mem: seq<Byte>, a: nat, bytes: seq<Byte>): (m: seq<Byte>)
    requires a + |bytes| <= |mem|
    ensures |m| == |mem|
  {
    mem[..a] + bytes + mem[a + |bytes|..]
  }

  /** The other users write to pages of their own only. */
  ghost predicate KeepsArenas(h: Heap, mem: seq<Byte>, mem': seq<Byte>) {
    && |mem'| == |mem|
    && forall p, i :: p in h.arenas && p * PGSIZE <= i < (p + Span(h.arenas[p])) * PGSIZE && i < |mem| ==>
         mem'[i] == mem[i]
  }

  ghost predicate MemStep(m: Memory, op: Op, m': Memory)
    requires Inv(m.heap) && Backed(m.heap, m.mem)
  {
    var h, mem, h', mem' := m.heap, m.mem, m'.heap, m'.mem;
    match op
    case DoMalloc(size, r) => Mallocs(h, size, r, h') && mem' == mem
    case DoFree(b) => b in h.live && h' == Freed(h, b) && mem' == FreedMem(h, mem, b)
    case DoWrite(b, offset, bytes) =>
      && b in h.live && offset + |bytes| <= Capacity(h, b) && h' == h
      && (InMemory(h, mem, b); mem' == Stored(mem, b + offset, bytes))
    case DoOthers => OthersUse(h, h') && KeepsArenas(h, mem, mem')
  }

  /** Block `c` is live in both, with the same size and the same bytes. */
  ghost predicate SameBlock(m: Memory, m': Memory, c: nat)
    requires Inv(m.heap) && Backed(m.heap, m.mem) && Inv(m'.heap) && Backed(m'.heap, m'.mem) && c in m.heap.live
  {
    && c in m'.heap.live && Capacity(m'.heap, c) == Capacity(m.heap, c)
    && Bytes(m'.heap, m'.mem, c) == Bytes(m.heap, m.mem, c)
  }

  lemma MallocSame(h: Heap, mem: seq<Byte>, size: nat, r: Option<nat>, h': Heap, c: nat)
    requires Inv(h) && Backed(h, mem) && Mallocs(h, size, r, h') && c in h.live
    ensures Inv(h') && Backed(h', mem) && SameBlock(Memory(h, mem), Memory(h', mem), c)
  {
    hide Inv0, Mallocs, Capacity;
    MallocCapacity(h, size, r, h', c);
    SliceSame(h, h', mem, mem, c);
  }

  lemma WriteSame(h: Heap, mem: seq<Byte>, b: nat, offset: nat, bytes: seq<Byte>, c: nat)
    requires Inv(h) && Backed(h, mem) && b in h.live && offset + |bytes| <= Capacity(h, b) && c in h.live && c != b
    ensures b + offset + |bytes| <= |mem| && Backed(h, Stored(mem, b + offset, bytes))
    ensures Bytes(h, Stored(mem, b + offset, bytes), c) == Bytes(h, mem, c)
  {
    hide Inv0, Capacity;
    InMemory(h, mem, b);
    FillBlockApart(h, mem, b, c);
    SliceSame(h, h, mem, Stored(mem, b + offset, bytes), c);
  }

  lemma OthersSame(h: Heap, mem: seq<Byte>, h': Heap, mem': seq<Byte>, c: nat)
    requires Inv(h) && Backed(h, mem) && OthersUse(h, h') && KeepsArenas(h, mem, mem') && c in h.live
    ensures Inv(h') && Backed(h', mem') && SameBlock(Memory(h, mem), Memory(h', mem'), c)
  {
    hide Inv0, ArenaOk, LiveOk;
    OthersKeepInv(h, h');
    WithinArena(h, c);
    OthersCapacity(h, h', c);
    forall i | c <= i < c + Capacity(h, c) && i < |mem| ensures mem'[i] == mem[i] { InArena(h, c, i); }
    SliceSame(h, h', mem, mem', c);
  }

  lemma OthersCapacity(h: Heap, h': Heap, c: nat)
    requires Inv0(h) && Inv0(h') && h'.arenas == h.arenas && h'.live == h.live && c in h.live
    ensures Capacity(h', c) == Capacity(h, c)
  {
    assert LiveOk(h.arenas, c);
  }

  lemma InArena(h: Heap, c: nat, i: nat)
    requires Inv0(h) && c in h.live && c <= i < c + Capacity(h, c)
    ensures c / PGSIZE in h.arenas && c / PGSIZE * PGSIZE <= i < (c / PGSIZE + Span(h.arenas[c / PGSIZE])) * PGSIZE
  {
    hide Inv0, Capacity, ArenaOk, LiveOk;
    WithinArena(h, c);
  }

  lemma StepKeepsInv(m: Memory, op: Op, m': Memory)
    requires Inv(m.heap) && Backed(m.heap, m.mem) && MemStep(m, op, m')
    ensures Inv(m'.heap) && Backed(m'.heap, m'.mem)
  {
    hide Inv0, Mallocs, Freed, FreedMem, Capacity, KeepsArenas;
    match op
    case DoMalloc(size, r) => MallocKeepsInv(m.heap, size, r, m'.heap); MallocUsed(m.heap, size, r, m'.heap);
    case DoFree(b) => FreeKeepsInv(m.heap, b); FreedBacked(m.heap, b);
    case DoWrite(b, offset, bytes) => InMemory(m.heap, m.mem, b);
    case DoOthers => OthersKeepInv(m.heap, m'.heap); SameLength(m.heap, m.mem, m'.mem);
  }

  lemma SameLength(h: Heap, mem: seq<Byte>, mem': seq<Byte>)
    requires KeepsArenas(h, mem, mem')
    ensures |mem'| == |mem|
  {
  }

  lemma MallocUsed(h: Heap, size: nat, r: Option<nat>, h': Heap)
    requires Inv(h) && Mallocs(h, size, r, h')
    ensures |h'.used| == |h.used|
  {
    hide Inv0;
  }

  /** One step leaves every live block alone that it does not name. */
  lemma StepSame(m: Memory, op: Op, m': Memory, c: nat)
    requires Inv(m.heap) && Backed(m.heap, m.mem) && MemStep(m, op, m') && c in m.heap.live && !Names(op, c)
    ensures Inv(m'.heap) && Backed(m'.heap, m'.mem) && SameBlock(m, m', c)
  {
    hide Inv0, Mallocs, Freed, FreedMem, Capacity, Bytes, OthersUse, KeepsArenas, Stored;
    match op
    case DoMalloc(size, r) => MallocSame(m.heap, m.mem, size, r, m'.heap, c);
    case DoFree(b) => FreedBytes(m.heap, m.mem, b, c); FreedCapacity(m.heap, b, c);
    case DoWrite(b, offset, bytes) => WriteSame(m.heap, m.mem, b, offset, bytes, c);
    case DoOthers => OthersSame(m.heap, m.mem, m'.heap, m'.mem, c);
  }

  ghost predicate StepAt(ms: seq<Memory>, ops: seq<Op>, k: nat)
    requires k < |ops| && |ms| == |ops| + 1
  {
    Inv(ms[k].heap) && Backed(ms[k].heap, ms[k].mem) ==> MemStep(ms[k], ops[k], ms[k + 1])
  }

  ghost predicate Run(ms: seq<Memory>, ops: seq<Op>) {
    && |ms| == |ops| + 1 && Initial(ms[0].heap) && Backed(ms[0].heap, ms[0].mem)
    && forall k :: 0 <= k < |ops| ==> StepAt(ms, ops, k)
  }

  lemma {:induction false} RunInv(ms: seq<Memory>, ops: seq<Op>, n: nat)
    requires Run(ms, ops) && n < |ms|
    ensures Inv(ms[n].heap) && Backed(ms[n].heap, ms[n].mem)
  {
    hide Inv, Initial, MemStep, Backed;
    if n == 0 {
      InitialInv(ms[0].heap);
    } else {
      RunInv(ms, ops, n - 1);
      assert StepAt(ms, ops, n - 1);
      StepKeepsInv(ms[n - 1], ops[n - 1], ms[n]);
    }
  }

  /** In every run, a block that is live at step `k` and is neither freed nor written before step `n` is live at step
      `n`, with the same size and the same bytes. */
  lemma {:induction false} RunSafe(ms: seq<Memory>, ops: seq<Op>, k: nat, n: nat, c: nat)
    requires Run(ms, ops) && k <= n < |ms|
    requires c in ms[k].heap.live && forall j :: k <= j < n ==> !Names(ops[j], c)
    ensures Inv(ms[k].heap) && Backed(ms[k].heap, ms[k].mem) && Inv(ms[n].heap) && Backed(ms[n].heap, ms[n].mem)
    ensures SameBlock(ms[k], ms[n], c)
    decreases n
  {
    hide Inv, Initial, MemStep, Backed, Capacity, Bytes;
    RunInv(ms, ops, k);
    RunInv(ms, ops, n);
    if k < n {
      RunSafe(ms, ops, k, n - 1, c);
      assert StepAt(ms, ops, n - 1);
      StepSame(ms[n - 1], ops[n - 1], ms[n], c);
    }
  }
}
