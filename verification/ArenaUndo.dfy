/** `malloc` and `free` of the kernel heap undo each other. */
module ArenaUndo {
  import opened Prelude
  import opened Bitmaps
  import opened ArenaLayout
  import opened ArenaSafety

  /** Taking a block off its free list and putting it back in front. */
  lemma PutBackTaken(h: Heap, d: nat)
    requires Inv0(h) && d < DESC_CNT && h.free[d] != []
    ensures var b := h.free[d][0];
            && (TakeFirstDefined(h, d); HasFree(h.arenas, b / PGSIZE)) && b !in h.live
            && |TakeFirst(h, d).free| == DESC_CNT && PutBack(TakeFirst(h, d), b) == h
  {
    hide Inv0, ArenaOk, IsBlock;
    HasLists(h);
    TakeFirstDefined(h, d);
    TakeFirstMoves(h, d);
    var b, h1 := h.free[d][0], TakeFirst(h, d);
    assert [b] + h1.free[d] == h.free[d];
    assert h.free[d := h1.free[d]][d := h.free[d]] == h.free;
    assert PutBack(h1, b).arenas == h.arenas;
    assert h1.live - {b} == h.live;
  }

  lemma NoMembers(s: seq<nat>)
    ensures (forall b :: b !in s) <==> s == []
  {
    if s != [] { assert s[0] in s; }
  }

  /** Carving a page into blocks and returning it. */
  lemma ReturnedNew(h: Heap, p: nat, d: nat)
    requires Inv(h) && d < DESC_CNT && h.free[d] == [] && Uniform(h.used, p, 1, false)
    ensures p < |NewArena(h, p, d).used| && ReturnArena(NewArena(h, p, d), p) == h
  {
    hide Inv0, Blocks, BlocksPerArena, AllBlocks, Minus, Filled;
    HasLists(h);
    UnusedPage(h, p, 1);
    FillUndone(h.used, p, 1, false);
    NewArenaFirst(h, p, d);
    Emptied(p, d);
    var h1 := NewArena(h, p, d);
    assert h1.free[d := []] == h.free;
    assert h1.arenas - {p} == h.arenas;
  }

  lemma Emptied(p: nat, d: nat)
    requires d < DESC_CNT
    ensures Minus(Blocks(p, d), AllBlocks(p, d)) == []
  {
    hide Minus, Blocks, AllBlocks;
    BlocksAre(p, d);
    MinusMembers(Blocks(p, d), AllBlocks(p, d));
    NoMembers(Minus(Blocks(p, d), AllBlocks(p, d)));
  }

  /** Freeing what `malloc` has just handed out restores the heap, whatever the size and wherever the block came from:
      a free list, a new arena, or pages of its own. */
  lemma FreeUndoesMalloc(h: Heap, size: nat, b: nat, h': Heap)
    requires Inv(h) && Mallocs(h, size, Some(b), h')
    ensures Inv(h') && b in h'.live && Freed(h', b) == h
  {
    MallocKeepsInv(h, size, Some(b), h');
    var d, p := DescFor(size), b / PGSIZE;
    if d == DESC_CNT {
      BigUndone(h, p, PageCount(size));
    } else if h.free[d] != [] {
      ListUndone(h, d);
    } else {
      ArenaUndone(h, p, d);
    }
  }

  lemma BigUndone(h: Heap, p: nat, n: nat)
    requires Inv(h) && n > 0 && Uniform(h.used, p, n, false) && (p * PGSIZE + ARENA_SIZE) / PGSIZE == p
    ensures var h', b := NewBig(h, p, n), p * PGSIZE + ARENA_SIZE; Inv(h') && b in h'.live && Freed(h', b) == h
  {
    NewBigKeeps(h, p, n);
    UnusedPage(h, p, n);
    FillUndone(h.used, p, n, false);
    var h', b := NewBig(h, p, n), p * PGSIZE + ARENA_SIZE;
    hide Inv0, ReturnArena, PutBack;
    assert h'.arenas - {p} == h.arenas;
    assert h'.live - {b} == h.live;
  }

  lemma ListUndone(h: Heap, d: nat)
    requires Inv(h) && d < DESC_CNT && h.free[d] != []
    ensures (TakeFirstDefined(h, d); Inv(TakeFirst(h, d)))
    ensures (TakeFirstDefined(h, d); Freed(TakeFirst(h, d), h.free[d][0]) == h)
  {
    hide Inv0, ReturnArena, BlocksPerArena, IsBlock, PutBack;
    HasLists(h);
    TakeFirstDefined(h, d);
    TakeFirstKeeps(h, d);
    PutBackTaken(h, d);
    assert Busy(h.arenas[h.free[d][0] / PGSIZE]);
  }

  lemma ArenaUndone(h: Heap, p: nat, d: nat)
    requires Inv(h) && d < DESC_CNT && h.free[d] == [] && Uniform(h.used, p, 1, false)
    ensures (NewArenaFirst(h, p, d); Inv(TakeFirst(NewArena(h, p, d), d)))
    ensures (NewArenaFirst(h, p, d); Freed(TakeFirst(NewArena(h, p, d), d), NewArena(h, p, d).free[d][0]) == h)
  {
    hide Inv0, ReturnArena, BlocksPerArena, IsBlock, PutBack;
    HasLists(h);
    NewArenaFirst(h, p, d);
    NewArenaKeeps(h, p, d);
    TakeFirstKeeps(NewArena(h, p, d), d);
    PutBackTaken(NewArena(h, p, d), d);
    ReturnedNew(h, p, d);
  }

  /** A freed block whose arena stays is the next one of its size class to be handed out, and that restores the heap. */
  lemma MallocUndoesFree(h: Heap, b: nat, size: nat, r: Option<nat>, h': Heap)
    requires Inv(h) && b in h.live && Inv(Freed(h, b)) && Mallocs(Freed(h, b), size, r, h')
    requires size > 0 && b / PGSIZE in h.arenas && b / PGSIZE in Freed(h, b).arenas
    requires h.arenas[b / PGSIZE].Small? && h.arenas[b / PGSIZE].desc == DescFor(size)
    ensures r == Some(b) && h' == h
  {
    hide Inv0, IsBlock, BlocksPerArena, ReturnArena;
    FreeSmall(h, b);
    var h1, d, p := PutBack(h, b), DescFor(size), b / PGSIZE;
    ReturnedGone(h1, p);
    assert Freed(h, b) == h1;
    assert h1.free[d][0] == b && h1.free[d][1..] == h.free[d];
    assert h1.free[d := h.free[d]] == h.free;
    assert h1.arenas[p := h.arenas[p]] == h.arenas;
    assert h1.live + {b} == h.live;
  }

  lemma ReturnedGone(h: Heap, p: nat)
    requires |h.free| == DESC_CNT && p in h.arenas && h.arenas[p].Small? && h.arenas[p].desc < DESC_CNT && p < |h.used|
    ensures p !in ReturnArena(h, p).arenas
  {
  }
}
