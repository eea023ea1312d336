/** `malloc` and `free` of PintOS/src/threads/malloc.c over the page pool of PintOS/src/threads/palloc.c, as
    the code runs them: free lists, arena headers and the page bitmap are updated in place. */
module KernelHeap {
  import opened Prelude
  import opened Bitmaps
  import opened ArenaLayout
  import opened ArenaSafety
  import opened ArenaBytes

  datatype Desc = Desc(blockSize: nat, blocksPerArena: nat)

  /** `malloc_init` */
  method MallocInit() returns (descs: seq<Desc>)
    ensures |descs| == DESC_CNT && forall d :: 0 <= d < DESC_CNT ==> descs[d] == Desc(BlockSize(d), BlocksPerArena(d))
  {
    descs := [];
    var blockSize := 16;
    while blockSize < PGSIZE / 2
      invariant |descs| <= DESC_CNT && blockSize == if |descs| < DESC_CNT then BlockSize(|descs|) else PGSIZE / 2
      invariant forall d :: 0 <= d < |descs| ==> descs[d] == Desc(BlockSize(d), BlocksPerArena(d))
      decreases PGSIZE - blockSize
    {
      descs := descs + [Desc(blockSize, (PGSIZE - ARENA_SIZE) / blockSize)];
      blockSize := blockSize * 2;
    }
  }

  class Kernel {
    const pool: Bitmap
    const descs: seq<Desc>
    var arenas: map<nat, Arena>
    var free: seq<seq<nat>>
    var mem: seq<Byte>
    ghost var live: set<nat>

    ghost predicate Wired() {
      && pool.Valid() && |descs| == DESC_CNT
      && forall d :: 0 <= d < DESC_CNT ==> descs[d] == Desc(BlockSize(d), BlocksPerArena(d))
    }

    ghost function State(): Heap
      requires pool.Valid()
      reads this, pool.words
    {
      Heap(pool.Bits(), arenas, free, live)
    }

    ghost predicate Valid()
      reads this, pool.words
    {
      Wired() && Inv(State()) && Backed(State(), mem)
    }

    constructor (pages: nat, memory: seq<Byte>)
      requires |memory| == PGSIZE * pages
      ensures Valid() && Initial(State()) && |State().used| == pages
    {
      var descs := MallocInit();
      var pool := new Bitmap(pages);
      this.pool, this.descs, arenas, free, live := pool, descs, map[], seq(DESC_CNT, _ => []), {};
      mem := memory;
      new;
      InitialInv(State());
    }

    /** `palloc_get_multiple` on the kernel pool. */
    method GetPages(n: nat) returns (p: Option<nat>)
      requires pool.Valid()
      modifies pool.words
      ensures n == 0 ==> p == None && pool.Bits() == old(pool.Bits())
      ensures n > 0 ==> IsFirstRun(old(pool.Bits()), 0, n, false, p)
      ensures pool.Bits() == if p.Some? && p.value + n <= pool.bitCnt then
              Filled(old(pool.Bits()), p.value, n, true) else old(pool.Bits())
    {
      if n == 0 { return None; }
      p := pool.ScanAndFlip(0, n, false);
    }

    /** `palloc_free_multiple`: its assertion, that every page is marked, is a precondition here. */
    method FreePages(p: nat, n: nat)
      requires pool.Valid() && Uniform(pool.Bits(), p, n, true) && PGSIZE * (p + n) <= |mem|
      modifies pool.words, this`mem
      ensures pool.Bits() == Filled(old(pool.Bits()), p, n, false)
      ensures mem == Fill(old(mem), p * PGSIZE, PGSIZE * n, 0xcc)
    {
      mem := Fill(mem, p * PGSIZE, PGSIZE * n, 0xcc);
      pool.SetMultiple(p, n, false);
    }

    /** Lines 102-104 */
    method FindDesc(size: nat) returns (d: nat)
      requires Wired()
      ensures d == DescFor(size)
    {
      d := 0;
      while d < |descs|
        invariant d <= DESC_CNT
        invariant (forall c :: 0 <= c < d ==> BlockSize(c) < size) && DescFor(size) == DescFrom(size, d)
      {
        if descs[d].blockSize >= size { break; }
        d := d + 1;
      }
    }

    /** Lines 137-145 */
    method InitArena(p: nat, d: nat)
      requires Wired() && d < DESC_CNT == |free|
      modifies this`arenas, this`free
      ensures arenas == old(arenas)[p := Small(d, BlocksPerArena(d))]
      ensures free == old(free)[d := old(free)[d] + Blocks(p, d)]
    {
      arenas := arenas[p := Small(d, descs[d].blocksPerArena)];
      ghost var before, whole := free[d], Blocks(p, d);
      assert before + whole[..0] == before;
      for i := 0 to descs[d].blocksPerArena
        invariant arenas == old(arenas)[p := Small(d, BlocksPerArena(d))]
        invariant |free| == DESC_CNT && free == old(free)[d := before + whole[..i]]
      {
        var b := p * PGSIZE + ARENA_SIZE + i * descs[d].blockSize;
        assert whole[..i + 1] == whole[..i] + [b];
        assert before + whole[..i + 1] == free[d] + [b];
        free := free[d := free[d] + [b]];
      }
      assert whole[..BlocksPerArena(d)] == whole;
    }

    /** Lines 148-151 */
    method PopBlock(d: nat) returns (b: nat)
      requires Wired() && Inv0(State()) && d < DESC_CNT && free[d] != []
      modifies this
      ensures b == old(free[d][0])
      ensures (TakeFirstDefined(old(State()), d); State() == TakeFirst(old(State()), d)) && mem == old(mem)
    {
      hide Inv0;
      HasLists(State());
      TakeFirstDefined(State(), d);
      b := free[d][0];
      free := free[d := free[d][1..]];
      var a := b / PGSIZE;
      arenas := arenas[a := arenas[a].(freeCnt := arenas[a].freeCnt - 1)];
      live := live + {b};
    }

    /** `malloc`; `size` is a 32-bit size. */
    method Malloc(size: nat) returns (r: Option<nat>)
      requires Valid() && size < SIZE_LIMIT
      modifies this, pool.words
      ensures Valid() && Mallocs(old(State()), size, r, State()) && mem == old(mem)
      ensures r.Some? && size + ARENA_SIZE <= SIZE_LIMIT ==>
        r.value in State().live && Capacity(State(), r.value) >= size
    {
      ghost var h := State();
      r := MallocRaw(size);
      MallocKeepsInv(h, size, r, State());
      if r.Some? { MallocFitsIff(h, size, r.value, State()); }
    }

    method MallocRaw(size: nat) returns (r: Option<nat>)
      requires Valid() && size < SIZE_LIMIT
      modifies this, pool.words
      ensures Wired() && Mallocs(old(State()), size, r, State()) && mem == old(mem)
    {
      hide Inv0, Uniform;
      if size == 0 { return None; }
      var d := FindDesc(size);
      if d == DESC_CNT {
        r := MallocBig(size);
      } else {
        r := MallocSmall(size, d);
      }
    }

    method MallocBig(size: nat) returns (r: Option<nat>)
      requires Valid() && 0 < size < SIZE_LIMIT && DescFor(size) == DESC_CNT
      modifies this, pool.words
      ensures Wired() && Mallocs(old(State()), size, r, State()) && mem == old(mem)
    {
      hide Inv0, PageCount, DescFor, IsFirstRun, Uniform, Bitmaps.Unpack, Filled, Mallocs;
      ghost var h := State();
      var n := PageCount(size);
      RunFits(h.used, n);
      var p := GetPages(n);
      if p == None {
        NoPages(h, size);
        return None;
      }
      var b := p.value * PGSIZE + ARENA_SIZE;
      arenas := arenas[p.value := Big(n)];
      live := live + {b};
      TookPages(h, size, p.value);
      return Some(b);
    }

    method MallocSmall(size: nat, d: nat) returns (r: Option<nat>)
      requires Valid() && 0 < size < SIZE_LIMIT && DescFor(size) == d < DESC_CNT
      modifies this, pool.words
      ensures Wired() && Mallocs(old(State()), size, r, State()) && mem == old(mem)
    {
      hide Inv0, Blocks, BlocksPerArena;
      ghost var h := State();
      HasLists(h);
      if free[d] == [] {
        var p := GetPages(1);
        if p == None { return None; }
        NewArenaFirst(h, p.value, d);
        NewArenaKeeps(h, p.value, d);
        InitArena(p.value, d);
        assert State() == NewArena(h, p.value, d);
      }
      var b := PopBlock(d);
      return Some(b);
    }

    /** `list_remove` of a block on free list `d`. */
    method ListRemove(d: nat, b: nat)
      requires d < |free| && b in free[d]
      modifies this`free
      ensures free == old(free)[d := Minus(old(free)[d], {b})]
    {
      free := free[d := Minus(free[d], {b})];
    }

    /** Lines 246-251: every block of a wholly free arena is on the list, and leaves it. */
    method RemoveBlocks(p: nat, d: nat)
      requires Wired() && d < DESC_CNT == |free|
      requires forall i :: 0 <= i < BlocksPerArena(d) ==> BlockAt(p, i, d) in free[d]
      modifies this`free
      ensures free == old(free)[d := Minus(old(free)[d], AllBlocks(p, d))]
    {
      hide FirstBlocks, BlocksPerArena, BlockAt, Minus, Distinct;
      ghost var list := free[d];
      NoBlocks(p, d, list);
      for i := 0 to descs[d].blocksPerArena
        invariant |free| == DESC_CNT && free == old(free)[d := Minus(list, FirstBlocks(p, d, i))]
      {
        var b := p * PGSIZE + ARENA_SIZE + i * descs[d].blockSize;
        assert b == BlockAt(p, i, d) by { BlockFormula(p, i, d); }
        MinusMembers(list, FirstBlocks(p, d, i));
        NextBlock(p, d, i);
        MinusTwice(list, FirstBlocks(p, d, i), {b});
        ListRemove(d, b);
      }
    }

    /** Lines 246-252 */
    method ReturnPage(p: nat, d: nat)
      requires Wired() && Inv0(State()) && p in arenas && d < DESC_CNT && arenas[p] == Small(d, BlocksPerArena(d))
      requires Backed(State(), mem)
      modifies this, pool.words
      ensures p < |old(State()).used| && State() == ReturnArena(old(State()), p)
      ensures PGSIZE * (p + 1) <= |old(mem)| && mem == Fill(old(mem), p * PGSIZE, PGSIZE, 0xcc)
    {
      hide Inv0, AllBlocks, BlocksPerArena, FreeIn;
      ghost var h := State();
      HasLists(h);
      WhollyFree(h, p);
      AllFree(h, p, d);
      SpanInMemory(h, p);
      RemoveBlocks(p, d);
      FreePages(p, 1);
      arenas := arenas - {p};
    }

    /** `free` of a live block; freeing a null pointer does nothing. */
    method Free(ptr: Option<nat>)
      requires Valid() && (ptr.Some? ==> ptr.value in live)
      modifies this, pool.words
      ensures Valid() && State() == match ptr case None => old(State()) case Some(b) => Freed(old(State()), b)
      ensures mem == match ptr case None => old(mem) case Some(b) => FreedMem(old(State()), old(mem), b)
    {
      if ptr.Some? { FreeBlock(ptr.value); }
    }

    method FreeBlock(b: nat)
      requires Valid() && b in live
      modifies this, pool.words
      ensures Valid() && State() == Freed(old(State()), b) && mem == FreedMem(old(State()), old(mem), b)
    {
      hide Inv0, BlocksPerArena, ReturnArena, Fill;
      ghost var h := State();
      HasLists(h);
      FreeKeepsInv(h, b);
      WithinArena(h, b);
      InMemory(h, mem, b);
      SpanInMemory(h, b / PGSIZE);
      FreedBacked(h, b);
      var a := b / PGSIZE;
      if arenas[a].Small? {
        var d := arenas[a].desc;
        FreeSmall(h, b);
        mem := Fill(mem, b, descs[d].blockSize, 0xcc);
        free := free[d := [b] + free[d]];
        arenas := arenas[a := arenas[a].(freeCnt := arenas[a].freeCnt + 1)];
        live := live - {b};
        assert State() == PutBack(h, b);
        if arenas[a].freeCnt >= descs[d].blocksPerArena {
          assert arenas[a].freeCnt == descs[d].blocksPerArena;
          ReturnPage(a, d);
        }
      } else {
        OnlyBig(h, a, b);
        FreePages(a, arenas[a].pages);
        arenas, live := arenas - {a}, live - {b};
      }
    }

    /** `block_size` */
    method SizeOfBlock(b: nat) returns (n: nat)
      requires Valid() && b in live
      ensures n == Capacity(State(), b)
    {
      hide Inv0;
      WithinArena(State(), b);
      CapacityPositive(State(), b);
      var a := b / PGSIZE;
      if arenas[a].Small? { n := descs[arenas[a].desc].blockSize; } else { n := PGSIZE * arenas[a].pages - b % PGSIZE; }
    }

    /** `realloc` of a live block, or of a null pointer. A moved block starts with the bytes of the old one, as many
        as both hold, and every other live block keeps its bytes; when no memory is left, nothing changes. Excluded is
        the case in which the copy runs past the new block, by `ReallocOverrunsIff`. */
    method Realloc(ptr: Option<nat>, newSize: nat) returns (r: Option<nat>)
      requires Valid() && newSize < SIZE_LIMIT && (ptr.Some? ==> ptr.value in live)
      requires ptr.Some? && Capacity(State(), ptr.value) > PGSIZE - ARENA_SIZE ==> newSize + ARENA_SIZE <= SIZE_LIMIT
      modifies this, pool.words
      ensures Valid()
      ensures newSize == 0 ==> r == None
      ensures newSize == 0 ==> State() == match ptr case None => old(State()) case Some(a) => Freed(old(State()), a)
      ensures newSize == 0 ==>
        mem == match ptr case None => old(mem) case Some(a) => FreedMem(old(State()), old(mem), a)
      ensures newSize > 0 ==> (r == None <==> !CanServe(old(State()), newSize))
      ensures newSize > 0 && r == None ==> State() == old(State()) && mem == old(mem)
      ensures ptr == None ==> Mallocs(old(State()), newSize, r, State()) && mem == old(mem)
      ensures newSize > 0 && r.Some? && ptr.Some? ==> Moves(old(State()), newSize, r.value, ptr.value, State())
      ensures newSize > 0 && r.Some? ==>
        && r.value !in old(live) && State().live == old(live) - (if ptr.Some? then {ptr.value} else {}) + {r.value}
        && (newSize + ARENA_SIZE <= SIZE_LIMIT ==> Capacity(State(), r.value) >= newSize)
      ensures newSize > 0 && r.Some? && ptr.Some? ==>
        LivesOn(old(State()), old(mem), State(), mem, ptr.value, r.value, newSize)
    {
      hide Inv0, Mallocs, Freed, FreedMem, Bytes;
      if newSize == 0 {
        MallocNothing(State());
        Free(ptr);
        return None;
      }
      ghost var h0, mem0 := State(), mem;
      r := Malloc(newSize);
      ghost var h1 := State();
      MallocKeepsInv(h0, newSize, r, h1);
      MallocSucceedsIff(h0, newSize, r, h1);
      if ptr.Some? && r.Some? {
        MallocCapacity(h0, newSize, r, h1, ptr.value);
        ReallocOverrunsIff(h0, newSize, r.value, h1, ptr.value);
        var oldSize := SizeOfBlock(ptr.value);
        var minSize := if newSize < oldSize then newSize else oldSize;
        InMemory(h1, mem, ptr.value);
        InMemory(h1, mem, r.value);
        mem := Copy(mem, r.value, ptr.value, minSize);
        FreeKeepsInv(h1, ptr.value);
        FreedCapacity(h1, ptr.value, r.value);
        MoveKeeps(h0, mem0, h1, r, newSize, ptr.value, minSize);
        Free(ptr);
        assert Moves(h0, newSize, r.value, ptr.value, State());
      }
    }
  }

  /** `malloc` of `b`, and then `free` of `a`. */
  ghost predicate Moves(h0: Heap, size: nat, b: nat, a: nat, h: Heap)
    requires Inv(h0)
  {
    exists h1 :: Mallocs(h0, size, Some(b), h1) && Inv(h1) && a in h1.live && h == Freed(h1, a)
  }

  /** The block at `a` lives on at `b`. */
  ghost predicate LivesOn(h0: Heap, mem0: seq<Byte>, h: Heap, mem: seq<Byte>, a: nat, b: nat, size: nat)
    requires Inv(h0) && Inv(h) && Backed(h0, mem0) && Backed(h, mem) && a in h0.live && b in h.live
  {
    var n := Min(size, Capacity(h0, a));
    && 0 <= n && b + n <= |mem| && a + n <= |mem0| && mem[b..b + n] == mem0[a..a + n]
    && forall c :: c in h0.live && c != a ==> SameBytes(h0, mem0, h, mem, c)
  }

  ghost predicate SameBytes(h0: Heap, mem0: seq<Byte>, h: Heap, mem: seq<Byte>, c: nat)
    requires Inv(h0) && Inv(h) && Backed(h0, mem0) && Backed(h, mem) && c in h0.live
  {
    c in h.live && Bytes(h, mem, c) == Bytes(h0, mem0, c)
  }

  lemma MoveKeeps(h0: Heap, mem0: seq<Byte>, h1: Heap, r: Option<nat>, size: nat, a: nat, n: nat)
    requires Inv(h0) && Backed(h0, mem0) && a in h0.live && r.Some? && Mallocs(h0, size, r, h1)
    requires Inv(h1) && Backed(h1, mem0) && a in h1.live && r.value in h1.live && r.value != a
    requires n == Min(size, Capacity(h0, a)) && Capacity(h1, a) == Capacity(h0, a) && n <= Capacity(h1, r.value)
    ensures r.value + n <= |mem0| && a + n <= |mem0| && Backed(h1, Copy(mem0, r.value, a, n))
    ensures Inv(Freed(h1, a)) && r.value in Freed(h1, a).live
    ensures var mem2 := FreedMem(h1, Copy(mem0, r.value, a, n), a);
            Backed(Freed(h1, a), mem2) && LivesOn(h0, mem0, Freed(h1, a), mem2, a, r.value, size)
  {
    hide Inv0, Mallocs, Freed, FreedMem, Bytes, Copy;
    var b := r.value;
    CopyBytes(h1, mem0, b, a, n, a);
    var mem1 := Copy(mem0, b, a, n);
    FreedBytes(h1, mem1, a, b);
    FreedCapacity(h1, a, b);
    KeptPrefix(h1, mem1, Freed(h1, a), FreedMem(h1, mem1, a), b, n);
    MallocKeepsInv(h0, size, r, h1);
    forall c | c in h0.live && c != a ensures SameBytes(h0, mem0, Freed(h1, a), FreedMem(h1, mem1, a), c) {
      MallocCapacity(h0, size, r, h1, c);
      SliceSame(h0, h1, mem0, mem0, c);
      CopyBytes(h1, mem0, b, a, n, c);
      FreedBytes(h1, mem1, a, c);
    }
  }

  lemma KeptPrefix(h1: Heap, mem1: seq<Byte>, h: Heap, mem: seq<Byte>, b: nat, n: nat)
    requires Inv(h1) && Inv(h) && Backed(h1, mem1) && Backed(h, mem) && b in h1.live && b in h.live
    requires n <= Capacity(h1, b) == Capacity(h, b)
    requires Bytes(h, mem, b) == Bytes(h1, mem1, b)
    ensures b + n <= |mem| && b + n <= |mem1| && mem[b..b + n] == mem1[b..b + n]
  {
    hide Inv0, Capacity;
    InMemory(h, mem, b);
    InMemory(h1, mem1, b);
    SlicePrefix(mem, b, b + Capacity(h, b), n);
    SlicePrefix(mem1, b, b + Capacity(h1, b), n);
  }

  lemma MallocNothing(h: Heap)
    requires Inv(h)
    ensures Mallocs(h, 0, None, h)
  {
    hide Inv0;
  }

  lemma NoPages(h: Heap, size: nat)
    requires Inv(h) && size > 0 && DescFor(size) == DESC_CNT
    requires PageCount(size) == 0 || IsFirstRun(h.used, 0, PageCount(size), false, None)
    ensures Mallocs(h, size, None, h)
  {
    hide Inv0, PageCount, DescFor, IsFirstRun;
  }

  lemma TookPages(h: Heap, size: nat, p: nat)
    requires Inv(h) && size > 0 && DescFor(size) == DESC_CNT && PageCount(size) > 0
    requires IsFirstRun(h.used, 0, PageCount(size), false, Some(p)) && p + PageCount(size) <= |h.used|
    ensures Mallocs(h, size, Some(p * PGSIZE + ARENA_SIZE), NewBig(h, p, PageCount(size)))
  {
    hide Inv0, PageCount, DescFor, IsFirstRun;
    BigAddress(p);
  }

  lemma RunFits(bits: seq<bool>, n: nat)
    ensures forall p: Option<nat> :: p.Some? && IsFirstRun(bits, 0, n, false, p) ==> p.value + n <= |bits|
  {
  }

  lemma AllFree(h: Heap, p: nat, d: nat)
    requires Inv0(h) && p in h.arenas && d < DESC_CNT && h.arenas[p] == Small(d, BlocksPerArena(d))
    ensures forall i :: 0 <= i < BlocksPerArena(d) ==> BlockAt(p, i, d) in h.free[d]
  {
    assert ArenaOk(h, p) && ListOk(h, d);
    FreeInBound(h, p, d);
    forall i | 0 <= i < BlocksPerArena(d) ensures BlockAt(p, i, d) in h.free[d] {
      assert BlockAt(p, i, d) in AllBlocks(p, d);
    }
  }

  lemma BlockFormula(p: nat, i: nat, d: nat)
    requires d < DESC_CNT
    ensures BlockAt(p, i, d) == p * PGSIZE + ARENA_SIZE + i * BlockSize(d)
  {
  }

  lemma NoBlocks(p: nat, d: nat, s: seq<nat>)
    requires d < DESC_CNT
    ensures Minus(s, FirstBlocks(p, d, 0)) == s
  {
    assert FirstBlocks(p, d, 0) == {};
    MinusNothing(s);
  }

  lemma MinusNothing(s: seq<nat>)
    ensures Minus(s, {}) == s
  {
  }

  lemma MinusTwice(s: seq<nat>, a: set<nat>, b: set<nat>)
    ensures Minus(Minus(s, a), b) == Minus(s, a + b)
  {
    if s != [] {
      MinusTwice(s[1..], a, b);
      var rest := Minus(s[1..], a);
      assert Minus(s, a) == if s[0] in a then rest else [s[0]] + rest;
      assert ([s[0]] + rest)[1..] == rest;
    }
  }

  lemma NextBlock(p: nat, d: nat, i: nat)
    requires d < DESC_CNT && i < BlocksPerArena(d)
    ensures FirstBlocks(p, d, i + 1) == FirstBlocks(p, d, i) + {BlockAt(p, i, d)}
    ensures BlockAt(p, i, d) !in FirstBlocks(p, d, i)
  {
    forall j | 0 <= j < i ensures BlockAt(p, j, d) != BlockAt(p, i, d) {
      BlockAddress(p, j, d);
      BlockAddress(p, i, d);
    }
  }
}
