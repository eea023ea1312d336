/** The bytes of live blocks of the kernel heap: what `free` and `realloc` may touch. */
module ArenaBytes {
  import opened Prelude
  import opened Bitmaps
  import opened ArenaLayout
  import opened ArenaSafety

  /** `memset (&mem[a], v, n)` */
  function Fill(mem: seq<Byte>, a: nat, n: nat, v: Byte): (m: seq<Byte>)
    requires a + n <= |mem|
    ensures |m| == |mem|
  {
    seq(|mem|, i requires 0 <= i < |mem| => if a <= i < a + n then v else mem[i])
  }

  /** `memcpy (&mem[to], &mem[from], n)` */
  function Copy(mem: seq<Byte>, to: nat, from: nat, n: nat): (m: seq<Byte>)
    requires to + n <= |mem| && from + n <= |mem|
    ensures |m| == |mem|
  {
    seq(|mem|, i requires 0 <= i < |mem| => if to <= i < to + n then mem[from + i - to] else mem[i])
  }

  lemma FillFrame(mem: seq<Byte>, a: nat, n: nat, v: Byte, lo: nat, hi: nat)
    requires a + n <= |mem| && lo <= hi <= |mem| && (hi <= a || a + n <= lo)
    ensures Fill(mem, a, n, v)[lo..hi] == mem[lo..hi]
  {
  }

  lemma CopyFrame(mem: seq<Byte>, to: nat, from: nat, n: nat, lo: nat, hi: nat)
    requires to + n <= |mem| && from + n <= |mem| && lo <= hi <= |mem| && (hi <= to || to + n <= lo)
    ensures Copy(mem, to, from, n)[lo..hi] == mem[lo..hi] && Copy(mem, to, from, n)[to..to + n] == mem[from..from + n]
  {
    var m := Copy(mem, to, from, n);
    var x, y := m[to..to + n], mem[from..from + n];
    assert forall i :: 0 <= i < n ==> x[i] == y[i];
  }

  ghost predicate Backed(h: Heap, mem: seq<Byte>) { |mem| == PGSIZE * |h.used| }

  lemma InMemory(h: Heap, mem: seq<Byte>, c: nat)
    requires Inv0(h) && c in h.live && Backed(h, mem)
    ensures c + Capacity(h, c) <= |mem| && 0 <= Capacity(h, c)
  {
    hide Inv0, ArenaOk;
    WithinArena(h, c);
    SpanInMemory(h, c / PGSIZE);
    CapacityPositive(h, c);
  }

  lemma SpanInMemory(h: Heap, p: nat)
    requires Inv0(h) && p in h.arenas
    ensures (p + Span(h.arenas[p])) * PGSIZE <= PGSIZE * |h.used|
  {
    assert ArenaOk(h, p);
  }

  lemma CapacityPositive(h: Heap, c: nat)
    requires Inv0(h) && c in h.live
    ensures Capacity(h, c) >= 0
  {
    assert LiveOk(h.arenas, c) && ArenaOk(h, c / PGSIZE);
  }

  ghost function Bytes(h: Heap, mem: seq<Byte>, c: nat): seq<Byte>
    requires Inv0(h) && c in h.live && Backed(h, mem)
  {
    InMemory(h, mem, c);
    mem[c..c + Capacity(h, c)]
  }

  /** Bytes are a slice of the memory. */
  lemma SliceSame(h: Heap, h': Heap, mem: seq<Byte>, mem': seq<Byte>, c: nat)
    requires Inv0(h) && Inv0(h') && Backed(h, mem) && Backed(h', mem') && c in h.live && c in h'.live
    requires Capacity(h, c) == Capacity(h', c) && |mem| == |mem'|
    requires forall i :: c <= i < c + Capacity(h, c) && i < |mem| ==> mem'[i] == mem[i]
    ensures Bytes(h', mem', c) == Bytes(h, mem, c)
  {
    hide Inv0, Capacity;
    InMemory(h, mem, c);
    InMemory(h', mem', c);
    var hi := c + Capacity(h, c);
    assert mem[c..hi] == mem'[c..hi];
  }

  // ---------- capacities stay ----------

  lemma MallocCapacity(h: Heap, size: nat, r: Option<nat>, h': Heap, c: nat)
    requires Inv(h) && Mallocs(h, size, r, h') && c in h.live
    ensures Inv(h') && c in h'.live && Capacity(h', c) == Capacity(h, c) && |h'.used| == |h.used|
  {
    hide IsBlock, ListOk, BlocksPerArena, FreeIn;
    MallocKeepsInv(h, size, r, h');
    assert LiveOk(h.arenas, c) && ArenaOk(h, c / PGSIZE);
    if r.Some? {
      var d, p := DescFor(size), r.value / PGSIZE;
      if d == DESC_CNT {
        UnusedPage(h, p, PageCount(size));
      } else if h.free[d] != [] {
        TakeFirstDefined(h, d);
      } else {
        UnusedPage(h, p, 1);
        NewArenaFirst(h, p, d);
      }
    }
  }

  lemma FreedCapacity(h: Heap, b: nat, c: nat)
    requires Inv(h) && b in h.live && c in h.live && c != b
    ensures Inv(Freed(h, b)) && c in Freed(h, b).live && Capacity(Freed(h, b), c) == Capacity(h, c)
  {
    hide IsBlock, ListOk, BlocksPerArena, FreeIn, ReturnArena;
    FreeKeepsInv(h, b);
    WithinArena(h, b);
    WithinArena(h, c);
    WithinArena(Freed(h, b), c);
    var p := b / PGSIZE;
    if h.arenas[p].Small? {
      FreeSmall(h, b);
      var h1 := PutBack(h, b);
      if h1.arenas[p].freeCnt >= BlocksPerArena(h.arenas[p].desc) { ReturnedShape(h1, p); }
    }
  }

  // ---------- free ----------

  /** Lines 233 and 252 or 260: the freed block, and every returned page, is overwritten with 0xcc. */
  ghost function FreedMem(h: Heap, mem: seq<Byte>, b: nat): (m: seq<Byte>)
    requires Inv(h) && b in h.live && Backed(h, mem)
    ensures |m| == |mem|
  {
    WithinArena(h, b);
    InMemory(h, mem, b);
    SpanInMemory(h, b / PGSIZE);
    var p := b / PGSIZE;
    if h.arenas[p].Big? then Fill(mem, p * PGSIZE, PGSIZE * h.arenas[p].pages, 0xcc)
    else
      var d := h.arenas[p].desc;
      var m := Fill(mem, b, BlockSize(d), 0xcc);
      if h.arenas[p].freeCnt + 1 >= BlocksPerArena(d) then Fill(m, p * PGSIZE, PGSIZE, 0xcc) else m
  }

  lemma FillBlockApart(h: Heap, mem: seq<Byte>, b: nat, c: nat)
    requires Inv(h) && b in h.live && c in h.live && c != b && Backed(h, mem)
    ensures 0 <= Capacity(h, b) && b + Capacity(h, b) <= |mem|
    ensures c + Capacity(h, c) <= b || b + Capacity(h, b) <= c
  {
    hide Inv0;
    InMemory(h, mem, b);
    if b < c { LiveDisjoint(h, b, c); } else { LiveDisjoint(h, c, b); }
  }

  /** A live block lies apart from the pages of any other arena. */
  lemma ApartFromArena(h: Heap, c: nat, p: nat)
    requires Inv0(h) && c in h.live && p in h.arenas && c / PGSIZE != p
    ensures c + Capacity(h, c) <= p * PGSIZE || (p + Span(h.arenas[p])) * PGSIZE <= c
  {
    hide ArenaOk, LiveOk;
    WithinArena(h, c);
    var q := c / PGSIZE;
    assert Apart(h.arenas, p, q) && Apart(h.arenas, q, p);
  }

  /** Freeing one block leaves the bytes of every other live block alone. */
  lemma FreedBytes(h: Heap, mem: seq<Byte>, b: nat, c: nat)
    requires Inv(h) && b in h.live && c in h.live && c != b && Backed(h, mem)
    ensures Inv(Freed(h, b)) && c in Freed(h, b).live && Backed(Freed(h, b), FreedMem(h, mem, b))
    ensures Bytes(Freed(h, b), FreedMem(h, mem, b), c) == Bytes(h, mem, c)
  {
    hide Inv0, ArenaOk, LiveOk, Fill, BlocksPerArena, Freed;
    FreedCapacity(h, b, c);
    FreedBacked(h, b);
    InMemory(h, mem, b);
    InMemory(h, mem, c);
    WithinArena(h, b);
    SpanInMemory(h, b / PGSIZE);
    FreedRange(h, mem, b, c, c + Capacity(h, c));
  }

  lemma FreedBacked(h: Heap, b: nat)
    requires Inv(h) && b in h.live
    ensures |Freed(h, b).used| == |h.used|
  {
    assert LiveOk(h.arenas, b) && ArenaOk(h, b / PGSIZE);
  }

  lemma FreedRange(h: Heap, mem: seq<Byte>, b: nat, c: nat, hi: nat)
    requires Inv(h) && b in h.live && c in h.live && c != b && Backed(h, mem) && c <= hi <= |mem|
    requires hi == c + Capacity(h, c)
    ensures FreedMem(h, mem, b)[c..hi] == mem[c..hi]
  {
    hide Inv0, LiveOk, Fill, FreeIn, IsBlock;
    WithinArena(h, b);
    InMemory(h, mem, b);
    SpanInMemory(h, b / PGSIZE);
    var p := b / PGSIZE;
    if h.arenas[p].Big? {
      OnlyBig(h, p, b);
      OnlyBig(h, p, c);
      ApartFromArena(h, c, p);
      FillFrame(mem, p * PGSIZE, PGSIZE * h.arenas[p].pages, 0xcc, c, hi);
    } else {
      var d := h.arenas[p].desc;
      var m := Fill(mem, b, BlockSize(d), 0xcc);
      FillBlockApart(h, mem, b, c);
      FillFrame(mem, b, BlockSize(d), 0xcc, c, hi);
      if h.arenas[p].freeCnt + 1 >= BlocksPerArena(d) {
        FreeSmall(h, b);
        ApartFromArena(h, c, p);
        FillFrame(m, p * PGSIZE, PGSIZE, 0xcc, c, hi);
      }
    }
  }

  // ---------- realloc ----------

  /** Copying from one live block into another touches no third one. */
  lemma CopyBytes(h: Heap, mem: seq<Byte>, to: nat, from: nat, n: nat, c: nat)
    requires Inv(h) && to in h.live && from in h.live && c in h.live && to != from && c != to && Backed(h, mem)
    requires n <= Capacity(h, to) && n <= Capacity(h, from)
    ensures to + n <= |mem| && from + n <= |mem| && Backed(h, Copy(mem, to, from, n))
    ensures Bytes(h, Copy(mem, to, from, n), c) == Bytes(h, mem, c)
    ensures Copy(mem, to, from, n)[to..to + n] == mem[from..from + n]
  {
    hide Inv0, Copy;
    InMemory(h, mem, to);
    InMemory(h, mem, from);
    InMemory(h, mem, c);
    FillBlockApart(h, mem, to, c);
    CopyFrame(mem, to, from, n, c, c + Capacity(h, c));
  }

  /** The bytes that `realloc` copies run past the new block if and only if adding the header to the size wraps past
      32 bits and the old block holds more than the one page that then comes back. */
  lemma ReallocOverrunsIff(h: Heap, size: nat, b: nat, h': Heap, a: nat)
    requires Inv(h) && size < SIZE_LIMIT && Mallocs(h, size, Some(b), h') && a in h.live
    ensures Inv(h') && b in h'.live
    ensures Min(size, Capacity(h, a)) > Capacity(h', b) <==>
            size + ARENA_SIZE > SIZE_LIMIT && Capacity(h, a) > PGSIZE - ARENA_SIZE
  {
    hide Inv0, Mallocs, PageCount, Capacity;
    MallocFitsIff(h, size, b, h');
    CapacityIs(h, size, b, h');
    if size + ARENA_SIZE > SIZE_LIMIT { WrappedPages(size); }
  }

  lemma WrappedPages(size: nat)
    requires size < SIZE_LIMIT < size + ARENA_SIZE
    ensures DescFor(size) == DESC_CNT && PageCount(size) == 1
  {
  }

  /** A heap with one free page hands it out for a request of 2^32 - 1 bytes. */
  lemma ShortBlock()
    ensures var h := Heap([false], map[], seq(DESC_CNT, _ => []), {});
            && Inv(h) && Mallocs(h, 0xffff_ffff, Some(ARENA_SIZE), NewBig(h, 0, 1)) && Inv(NewBig(h, 0, 1))
            && ARENA_SIZE in NewBig(h, 0, 1).live && Capacity(NewBig(h, 0, 1), ARENA_SIZE) == PGSIZE - ARENA_SIZE
  {
    hide Inv0;
    var h := Heap([false], map[], seq(DESC_CNT, _ => []), {});
    InitialInv(h);
    WrappedPages(0xffff_ffff);
    assert Uniform(h.used, 0, 1, false);
    NewBigKeeps(h, 0, 1);
    CapacityIs(h, 0xffff_ffff, ARENA_SIZE, NewBig(h, 0, 1));
  }
}
