/** Safety of the kernel heap over every run of `malloc` and `free`. */
module ArenaSafety {
  import opened Prelude
  import opened Bitmaps
  import opened ArenaLayout

  // ---------- moving one block between free and live ----------

  /** `f` and `l` differ in one block of a descriptor-`d` arena, first on the free list in `f` and live in `l`. */
  ghost predicate Moved(f: Heap, l: Heap, b: nat, d: nat) {
    && |f.free| == DESC_CNT == |l.free| && IsBlock(f.arenas, b, d) && f.used == l.used
    && f.free == l.free[d := [b] + l.free[d]] && b !in l.free[d] && b !in f.live && l.live == f.live + {b}
    && f.arenas[b / PGSIZE].freeCnt > 0
    && l.arenas == f.arenas[b / PGSIZE := Small(d, f.arenas[b / PGSIZE].freeCnt - 1)]
  }

  lemma MovedBlocks(f: Heap, l: Heap, b: nat, d: nat, c: nat, e: nat)
    requires Moved(f, l, b, d)
    ensures IsBlock(f.arenas, c, e) <==> IsBlock(l.arenas, c, e)
    ensures Partitioned(f, c, e) <==> Partitioned(l, c, e)
    ensures LiveOk(f.arenas, c) <==> LiveOk(l.arenas, c)
  {
    hide AllBlocks;
    assert b / PGSIZE in f.arenas && f.arenas[b / PGSIZE].desc == d;
  }

  lemma FreeInCons(b: nat, rest: seq<nat>, p: nat)
    requires b !in rest
    ensures |FreeIn([b] + rest, p)| == |FreeIn(rest, p)| + if b / PGSIZE == p then 1 else 0
  {
    assert FreeIn([b] + rest, p) == FreeIn(rest, p) + if b / PGSIZE == p then {b} else {};
  }

  lemma MovedArena(f: Heap, l: Heap, b: nat, d: nat, p: nat)
    requires Moved(f, l, b, d) && p in f.arenas
    ensures ArenaOk(f, p) <==> ArenaOk(l, p)
  {
    hide AllBlocks, FreeIn;
    FreeInCons(b, l.free[d], p);
  }

  lemma MovedList(f: Heap, l: Heap, b: nat, d: nat, e: nat)
    requires Moved(f, l, b, d) && e < DESC_CNT
    ensures ListOk(f, e) <==> ListOk(l, e)
  {
    hide AllBlocks;
    forall c: nat ensures IsBlock(f.arenas, c, e) <==> IsBlock(l.arenas, c, e) { MovedBlocks(f, l, b, d, c, e); }
    var x, y := f.free[e], l.free[e];
    if e == d {
      assert x[0] == b && x[1..] == y;
      DistinctCons(b, y);
      assert forall c :: c in x <==> c == b || c in y;
    } else {
      assert x == y;
    }
  }

  lemma DistinctCons(b: nat, y: seq<nat>)
    requires b !in y
    ensures Distinct([b] + y) <==> Distinct(y)
  {
    var x := [b] + y;
    assert x[1..] == y;
    if Distinct(x) { assert forall i, j :: 0 <= i < j < |y| ==> y[i] == x[i + 1] && y[j] == x[j + 1]; }
  }

  /** The invariant holds before such a move exactly when it holds after it. */
  lemma MovedInv(f: Heap, l: Heap, b: nat, d: nat)
    requires Moved(f, l, b, d)
    ensures Inv0(f) <==> Inv0(l)
  {
    hide IsBlock, ArenaOk, ListOk, LiveOk, Partitioned;
    MovedKeys(f, l, b, d);
    forall p | p in f.arenas ensures ArenaOk(f, p) <==> ArenaOk(l, p) { MovedArena(f, l, b, d, p); }
    forall e: nat | e < DESC_CNT ensures ListOk(f, e) <==> ListOk(l, e) { MovedList(f, l, b, d, e); }
    forall c: nat, e: nat ensures Partitioned(f, c, e) <==> Partitioned(l, c, e) { MovedBlocks(f, l, b, d, c, e); }
    forall c: nat ensures LiveOk(f.arenas, c) <==> LiveOk(l.arenas, c) { MovedBlocks(f, l, b, d, c, d); }
    assert forall p :: p in f.arenas <==> p in l.arenas;
    assert forall p, q :: p in f.arenas && q in f.arenas ==> (Apart(f.arenas, p, q) <==> Apart(l.arenas, p, q));
  }

  lemma MovedKeys(f: Heap, l: Heap, b: nat, d: nat)
    requires Moved(f, l, b, d)
    ensures f.arenas.Keys == l.arenas.Keys && LiveOk(f.arenas, b) && LiveOk(l.arenas, b)
    ensures forall p :: p in f.arenas ==> Span(f.arenas[p]) == Span(l.arenas[p])
  {
    hide AllBlocks;
  }

  // ---------- counts ----------

  lemma FreeInBound(h: Heap, p: nat, d: nat)
    requires |h.free| == DESC_CNT && d < DESC_CNT && ListOk(h, d)
    ensures FreeIn(h.free[d], p) <= AllBlocks(p, d) && |FreeIn(h.free[d], p)| <= BlocksPerArena(d)
    ensures |FreeIn(h.free[d], p)| == BlocksPerArena(d) ==> FreeIn(h.free[d], p) == AllBlocks(p, d)
  {
    hide AllBlocks;
    AllBlocksCount(p, d);
    forall b | b in FreeIn(h.free[d], p) ensures b in AllBlocks(p, d) { assert IsBlock(h.arenas, b, d); }
    SubsetSize(FreeIn(h.free[d], p), AllBlocks(p, d));
  }

  /** An arena's blocks are all free exactly when it has no live block. */
  lemma WhollyFree(h: Heap, p: nat)
    requires Inv0(h) && p in h.arenas && h.arenas[p].Small?
    ensures ArenaOk(h, p) && h.arenas[p].freeCnt <= BlocksPerArena(h.arenas[p].desc)
    ensures h.arenas[p].freeCnt == BlocksPerArena(h.arenas[p].desc) <==> forall b :: b in h.live ==> b / PGSIZE != p
  {
    hide AllBlocks;
    assert ArenaOk(h, p);
    var d := h.arenas[p].desc;
    assert ListOk(h, d);
    FreeInBound(h, p, d);
    var fr := FreeIn(h.free[d], p);
    if h.arenas[p].freeCnt == BlocksPerArena(d) {
      forall b | b in h.live ensures b / PGSIZE != p {
        assert LiveOk(h.arenas, b);
        assert Partitioned(h, b, d);
      }
    } else {
      AllBlocksCount(p, d);
      assert fr != AllBlocks(p, d);
      var b :| b in AllBlocks(p, d) && b !in fr;
      AllBlocksPage(p, d, b);
      assert IsBlock(h.arenas, b, d) && Partitioned(h, b, d);
    }
  }

  // ---------- new pages ----------

  /** A page that is not used belongs to no arena, so nothing live or free lies in it. */
  lemma UnusedPage(h: Heap, p: nat, n: nat)
    requires Inv0(h) && n > 0 && Uniform(h.used, p, n, false)
    ensures forall q :: q in h.arenas ==> q + Span(h.arenas[q]) <= p || p + n <= q
    ensures forall b :: b in h.live ==> b / PGSIZE != p
    ensures forall b, d :: 0 <= d < DESC_CNT && b in h.free[d] ==> b / PGSIZE != p
    ensures p !in h.arenas
  {
    hide AllBlocks, FreeIn;
    forall q | q in h.arenas ensures q + Span(h.arenas[q]) <= p || p + n <= q {
      assert ArenaOk(h, q);
      var k := if q < p then p else q;
      assert k < |h.used| ==> (k < q + Span(h.arenas[q]) ==> h.used[k]) && (k < p + n ==> !h.used[k]);
    }
    forall q | q in h.arenas ensures q != p { assert ArenaOk(h, q); }
    forall b | b in h.live ensures b / PGSIZE != p { assert LiveOk(h.arenas, b); }
    forall b, d | 0 <= d < DESC_CNT && b in h.free[d] ensures b / PGSIZE != p { assert ListOk(h, d); }
  }

  /** Adding an arena at an unused page changes no other arena. */
  ghost predicate Added(h: Heap, h': Heap, p: nat) {
    && |h.free| == DESC_CNT == |h'.free| && p !in h.arenas && h'.arenas.Keys == h.arenas.Keys + {p}
    && (forall q :: q in h.arenas ==> h'.arenas[q] == h.arenas[q])
    && h.live <= h'.live && (forall b :: b in h'.live && b !in h.live ==> b / PGSIZE == p)
    && (forall b :: b in h.live ==> b / PGSIZE != p)
    && (forall d :: 0 <= d < DESC_CNT ==> AddedList(h.free[d], h'.free[d], p))
  }

  ghost predicate AddedList(s: seq<nat>, s': seq<nat>, p: nat) {
    && (forall b :: b in s ==> b / PGSIZE != p) && (forall b :: b / PGSIZE != p ==> (b in s <==> b in s'))
  }

  lemma AddedBlocks(h: Heap, h': Heap, p: nat, b: nat, d: nat)
    requires Added(h, h', p) && b / PGSIZE != p
    ensures IsBlock(h.arenas, b, d) <==> IsBlock(h'.arenas, b, d)
    ensures Partitioned(h, b, d) <==> Partitioned(h', b, d)
    ensures LiveOk(h.arenas, b) <==> LiveOk(h'.arenas, b)
  {
    hide AllBlocks;
    assert b / PGSIZE in h.arenas <==> b / PGSIZE in h'.arenas;
    if 0 <= d < DESC_CNT { assert AddedList(h.free[d], h'.free[d], p); }
  }

  lemma AddedArena(h: Heap, h': Heap, p: nat, q: nat)
    requires Added(h, h', p) && q in h.arenas && p != q && |h.used| == |h'.used|
    requires q + Span(h.arenas[q]) <= |h.used| ==> forall k :: q <= k < q + Span(h.arenas[q]) ==>
             h.used[k] == h'.used[k]
    ensures ArenaOk(h, q) <==> ArenaOk(h', q)
  {
    hide AllBlocks;
    if h.arenas[q].Small? && h.arenas[q].desc < DESC_CNT {
      var d := h.arenas[q].desc;
      assert AddedList(h.free[d], h'.free[d], p);
      assert FreeIn(h.free[d], q) == FreeIn(h'.free[d], q);
    }
    if h.arenas[q].Big? {
      BigAddress(q); assert (q * PGSIZE + ARENA_SIZE in h.live) <==> (q * PGSIZE + ARENA_SIZE in h'.live);
    }
  }

  lemma BigAddress(q: nat)
    ensures (q * PGSIZE + ARENA_SIZE) / PGSIZE == q && (q * PGSIZE + ARENA_SIZE) % PGSIZE == ARENA_SIZE
  {
  }

  /** The blocks in page `p` are in order. */
  ghost predicate PageOk(h: Heap, p: nat)
    requires |h.free| == DESC_CNT
  {
    && (forall b, d :: 0 <= d < DESC_CNT && b in h.free[d] && b / PGSIZE == p ==> IsBlock(h.arenas, b, d))
    && (forall b :: b in h.live && b / PGSIZE == p ==> LiveOk(h.arenas, b))
    && (forall b, d :: b / PGSIZE == p ==> Partitioned(h, b, d))
  }

  /** The pages of the arenas other than the one at `p` are used as before, and lie apart from it. */
  ghost predicate Around(h: Heap, h': Heap, p: nat) {
    && Added(h, h', p) && |h.used| == |h'.used|
    && (forall q :: q in h.arenas ==> q + Span(h.arenas[q]) <= p || p + Span(h'.arenas[p]) <= q)
    && (forall k :: 0 <= k < |h.used| && (k < p || p + Span(h'.arenas[p]) <= k) ==> h.used[k] == h'.used[k])
  }

  lemma AroundLists(h: Heap, h': Heap, p: nat, d: nat)
    requires Around(h, h', p) && d < DESC_CNT
    ensures ListOk(h, d) && PageOk(h', p) && Distinct(h'.free[d]) ==> ListOk(h', d)
    ensures ListOk(h', d) && Distinct(h.free[d]) ==> ListOk(h, d)
  {
    hide IsBlock, Distinct, LiveOk, Partitioned;
    assert AddedList(h.free[d], h'.free[d], p);
    forall b: nat | b / PGSIZE != p
      ensures IsBlock(h.arenas, b, d) <==> IsBlock(h'.arenas, b, d)
    {
      AddedBlocks(h, h', p, b, d);
    }
  }

  lemma AddArena(h: Heap, h': Heap, p: nat)
    requires Around(h, h', p) && Inv0(h) && ArenaOk(h', p) && PageOk(h', p)
    requires forall d :: 0 <= d < DESC_CNT ==> Distinct(h'.free[d])
    ensures Inv0(h')
  {
    hide IsBlock, Distinct, LiveOk, Partitioned, ArenaOk, ListOk, PageOk, AddedList;
    forall q | q in h'.arenas ensures ArenaOk(h', q) { if q != p { AddedArena(h, h', p, q); } }
    forall d: nat | d < DESC_CNT ensures ListOk(h', d) { AroundLists(h, h', p, d); }
    forall b | b in h'.live ensures LiveOk(h'.arenas, b) { AddedLive(h, h', p, b); }
    forall b: nat, d: nat ensures Partitioned(h', b, d) { AddedPartition(h, h', p, b, d); }
    assert forall q :: q in h.arenas ==> q in h'.arenas;
    forall x, y | x in h'.arenas && y in h'.arenas ensures Apart(h'.arenas, x, y) {
      if x != p && y != p { assert x in h.arenas && y in h.arenas && Apart(h.arenas, x, y); }
    }
  }

  lemma AddedLive(h: Heap, h': Heap, p: nat, b: nat)
    requires Added(h, h', p) && PageOk(h', p) && b in h'.live && (b in h.live ==> LiveOk(h.arenas, b))
    ensures LiveOk(h'.arenas, b)
  {
    hide IsBlock, LiveOk, Partitioned, AddedList;
    if b / PGSIZE != p { AddedBlocks(h, h', p, b, 0); }
  }

  lemma AddedPartition(h: Heap, h': Heap, p: nat, b: nat, d: nat)
    requires Added(h, h', p) && PageOk(h', p) && Partitioned(h, b, d)
    ensures Partitioned(h', b, d)
  {
    hide IsBlock, LiveOk, Partitioned, AddedList;
    if b / PGSIZE != p { AddedBlocks(h, h', p, b, d); }
  }

  /** The converse: taking the arena at `p` away again. */
  lemma RemoveArena(h: Heap, h': Heap, p: nat)
    requires Around(h, h', p) && Inv0(h') && forall d :: 0 <= d < DESC_CNT ==> Distinct(h.free[d])
    ensures Inv0(h)
  {
    hide IsBlock, Distinct, LiveOk, Partitioned, ArenaOk, ListOk, PageOk, AddedList;
    assert forall q :: q in h.arenas ==> q in h'.arenas && q != p;
    forall q | q in h.arenas ensures ArenaOk(h, q) { AddedArena(h, h', p, q); }
    forall d: nat | d < DESC_CNT ensures ListOk(h, d) { AroundLists(h, h', p, d); }
    forall b | b in h.live ensures LiveOk(h.arenas, b) { AddedBlocks(h, h', p, b, 0); }
    forall b: nat, d: nat ensures Partitioned(h, b, d) { RemovedPartition(h, h', p, b, d); }
    forall x, y | x in h.arenas && y in h.arenas ensures Apart(h.arenas, x, y) { assert Apart(h'.arenas, x, y); }
  }

  lemma RemovedPartition(h: Heap, h': Heap, p: nat, b: nat, d: nat)
    requires Added(h, h', p) && Partitioned(h', b, d)
    ensures Partitioned(h, b, d)
  {
    hide AllBlocks;
    if b / PGSIZE != p { AddedBlocks(h, h', p, b, d); }
  }

  // ---------- the steps keep the invariant ----------

  lemma NewBigAround(h: Heap, p: nat, n: nat)
    requires Inv(h) && n > 0 && Uniform(h.used, p, n, false)
    ensures Around(h, NewBig(h, p, n), p) && forall d :: 0 <= d < DESC_CNT ==> Distinct(h.free[d])
  {
    hide AllBlocks, IsBlock, ArenaOk, LiveOk, Partitioned;
    var h' := NewBig(h, p, n);
    UnusedPage(h, p, n);
    BigAddress(p);
    forall d | 0 <= d < DESC_CNT
      ensures AddedList(h.free[d], h'.free[d], p) && Distinct(h'.free[d])
    {
      assert ListOk(h, d);
    }
  }

  lemma NewBigPage(h: Heap, p: nat, n: nat)
    requires Inv(h) && n > 0 && Uniform(h.used, p, n, false)
    ensures ArenaOk(NewBig(h, p, n), p) && PageOk(NewBig(h, p, n), p) && p * PGSIZE + ARENA_SIZE !in h.live
  {
    hide AllBlocks;
    UnusedPage(h, p, n);
    BigAddress(p);
  }

  lemma NewBigKeeps(h: Heap, p: nat, n: nat)
    requires Inv(h) && n > 0 && Uniform(h.used, p, n, false)
    ensures Inv(NewBig(h, p, n)) && p * PGSIZE + ARENA_SIZE !in h.live
  {
    hide Inv0, ArenaOk, PageOk, Around, Distinct;
    NewBigAround(h, p, n);
    NewBigPage(h, p, n);
    AddArena(h, NewBig(h, p, n), p);
  }

  lemma NewArenaKeeps(h: Heap, p: nat, d: nat)
    requires Inv(h) && d < DESC_CNT && h.free[d] == [] && Uniform(h.used, p, 1, false)
    ensures Inv0(NewArena(h, p, d))
  {
    hide AllBlocks, IsBlock, LiveOk, ArenaOk;
    var h' := NewArena(h, p, d);
    UnusedPage(h, p, 1);
    BlocksAre(p, d);
    forall e | 0 <= e < DESC_CNT ensures AddedList(h.free[e], h'.free[e], p) && Distinct(h'.free[e]) {
      assert ListOk(h, e);
      assert h'.free[e] == if e == d then Blocks(p, d) else h.free[e];
    }
    NewArenaPage(h, p, d);
    AddArena(h, h', p);
  }

  lemma BlocksAre(p: nat, d: nat)
    requires d < DESC_CNT
    ensures Distinct(Blocks(p, d)) && (forall b :: b in Blocks(p, d) <==> b in AllBlocks(p, d))
    ensures forall b :: b in Blocks(p, d) ==> b / PGSIZE == p
  {
    var s := Blocks(p, d);
    forall i, j | 0 <= i < j < |s| ensures s[i] != s[j] { BlockAddress(p, i, d); BlockAddress(p, j, d); }
    forall b | b in s ensures b in AllBlocks(p, d) && b / PGSIZE == p {
      var i :| 0 <= i < |s| && s[i] == b;
      BlockAddress(p, i, d);
    }
    forall b | b in AllBlocks(p, d) ensures b in s {
      var i :| 0 <= i < BlocksPerArena(d) && b == BlockAt(p, i, d);
      assert s[i] == b;
    }
  }

  lemma NewArenaPage(h: Heap, p: nat, d: nat)
    requires Inv(h) && d < DESC_CNT && h.free[d] == [] && Uniform(h.used, p, 1, false)
    ensures ArenaOk(NewArena(h, p, d), p) && PageOk(NewArena(h, p, d), p)
  {
    hide AllBlocks;
    var h' := NewArena(h, p, d);
    assert h'.free[d] == Blocks(p, d);
    UnusedPage(h, p, 1);
    BlocksAre(p, d);
    assert FreeIn(Blocks(p, d), p) == AllBlocks(p, d);
    AllBlocksCount(p, d);
  }

  lemma TakeFirstMoves(h: Heap, d: nat)
    requires Inv0(h) && d < DESC_CNT && h.free[d] != []
    ensures (TakeFirstDefined(h, d); Moved(h, TakeFirst(h, d), h.free[d][0], d))
  {
    hide AllBlocks, ArenaOk, LiveOk;
    TakeFirstDefined(h, d);
    var h', b := TakeFirst(h, d), h.free[d][0];
    assert ListOk(h, d) && b in h.free[d] && IsBlock(h.arenas, b, d) && Partitioned(h, b, d);
    assert h.free[d] == [b] + h'.free[d];
  }

  lemma TakeFirstKeeps(h: Heap, d: nat)
    requires Inv0(h) && d < DESC_CNT && h.free[d] != []
    requires forall p :: p in h.arenas && p != h.free[d][0] / PGSIZE ==> Busy(h.arenas[p])
    ensures (TakeFirstDefined(h, d); Inv(TakeFirst(h, d)))
  {
    hide Inv0, IsBlock, BlocksPerArena;
    TakeFirstDefined(h, d);
    TakeFirstMoves(h, d);
    var h', b := TakeFirst(h, d), h.free[d][0];
    MovedInv(h, h', b, d);
    WhollyFree(h', b / PGSIZE);
    assert b in h'.live;
  }

  lemma PutBackKeeps(h: Heap, b: nat)
    requires Inv(h) && b in h.live && b / PGSIZE in h.arenas && h.arenas[b / PGSIZE].Small?
    ensures h.arenas[b / PGSIZE].desc < DESC_CNT == |h.free| && Inv0(PutBack(h, b))
  {
    hide AllBlocks;
    assert ArenaOk(h, b / PGSIZE) && LiveOk(h.arenas, b);
    var h', d := PutBack(h, b), h.arenas[b / PGSIZE].desc;
    assert IsBlock(h.arenas, b, d) && Partitioned(h, b, d);
    assert Moved(h', h, b, d) by {
      assert h'.arenas[b / PGSIZE] == Small(d, h.arenas[b / PGSIZE].freeCnt + 1);
      assert h.arenas == h'.arenas[b / PGSIZE := Small(d, h'.arenas[b / PGSIZE].freeCnt - 1)];
    }
    MovedInv(h', h, b, d);
  }

  lemma MinusMembers(s: seq<nat>, gone: set<nat>)
    ensures forall b :: b in Minus(s, gone) <==> b in s && b !in gone
    ensures Distinct(s) ==> Distinct(Minus(s, gone))
  {
    if s != [] {
      var rest := Minus(s[1..], gone);
      MinusMembers(s[1..], gone);
      assert s == [s[0]] + s[1..];
      if Distinct(s) {
        DistinctTail(s);
        DistinctCons(s[0], rest);
        assert [] + rest == rest;
      }
    }
  }

  /** A wholly free arena goes back with every block of it off the free list. */
  lemma ReturnArenaKeeps(h: Heap, p: nat)
    requires Inv0(h) && p in h.arenas && h.arenas[p].Small? && h.arenas[p].desc < DESC_CNT
    requires h.arenas[p].freeCnt == BlocksPerArena(h.arenas[p].desc)
    ensures p < |h.used| && Inv0(ReturnArena(h, p))
    ensures forall b, d :: 0 <= d < DESC_CNT && b in ReturnArena(h, p).free[d] ==> b / PGSIZE != p
  {
    hide AllBlocks, IsBlock, LiveOk;
    assert ArenaOk(h, p);
    var h', d := ReturnArena(h, p), h.arenas[p].desc;
    WhollyFree(h, p);
    MinusMembers(h.free[d], AllBlocks(p, d));
    forall e: nat | e < DESC_CNT ensures AddedList(h'.free[e], h.free[e], p) && Distinct(h'.free[e]) {
      ReturnedList(h, p, e);
    }
    forall q | q in h'.arenas ensures q + 1 <= p || p + 1 <= q { assert q in h.arenas; }
    forall q | q in h'.arenas ensures q + Span(h'.arenas[q]) <= p || p + 1 <= q { assert Apart(h.arenas, q, p); }
    assert Around(h', h, p);
    RemoveArena(h', h, p);
  }

  lemma ReturnedList(h: Heap, p: nat, e: nat)
    requires Inv0(h) && p in h.arenas && h.arenas[p].Small? && h.arenas[p].desc < DESC_CNT && p < |h.used|
    requires e < DESC_CNT
    ensures AddedList(ReturnArena(h, p).free[e], h.free[e], p) && Distinct(ReturnArena(h, p).free[e])
  {
    hide AllBlocks;
    var h', d := ReturnArena(h, p), h.arenas[p].desc;
    assert ListOk(h, e);
    MinusMembers(h.free[d], AllBlocks(p, d));
    forall b | b in AllBlocks(p, d) ensures b / PGSIZE == p { AllBlocksPage(p, d, b); }
    forall b | b in h'.free[e] ensures b / PGSIZE != p { assert IsBlock(h.arenas, b, e); }
  }

  lemma ReturnBigLists(h: Heap, p: nat, e: nat)
    requires Inv0(h) && p in h.arenas && h.arenas[p].Big? && e < DESC_CNT
    ensures Distinct(h.free[e]) && AddedList(h.free[e], h.free[e], p)
  {
    hide IsBlock, ArenaOk, LiveOk, Partitioned;
    assert ListOk(h, e);
    forall b | b in h.free[e] ensures b / PGSIZE != p { BlockPage(h.arenas, b, e); }
  }

  lemma ReturnBigKeeps(h: Heap, p: nat)
    requires Inv(h) && p in h.arenas && h.arenas[p].Big?
    ensures p + h.arenas[p].pages <= |h.used| && Inv(ReturnBig(h, p))
  {
    hide IsBlock, LiveOk, Partitioned, ListOk, Distinct, AddedList;
    assert ArenaOk(h, p);
    var h' := ReturnBig(h, p);
    BigAddress(p);
    forall b | b in h'.live ensures b / PGSIZE != p { OnlyBig(h, p, b); }
    forall e: nat | e < DESC_CNT
      ensures AddedList(h'.free[e], h.free[e], p) && Distinct(h'.free[e])
    {
      ReturnBigLists(h, p, e);
    }
    forall q | q in h'.arenas ensures q + Span(h'.arenas[q]) <= p || p + Span(h.arenas[p]) <= q {
      assert Apart(h.arenas, q, p) && Apart(h.arenas, p, q);
    }
    assert Around(h', h, p);
    RemoveArena(h', h, p);
  }

  lemma BlockPage(arenas: map<nat, Arena>, b: nat, d: nat)
    requires IsBlock(arenas, b, d)
    ensures b / PGSIZE in arenas && arenas[b / PGSIZE].Small?
  {
  }

  lemma OnlyBig(h: Heap, p: nat, b: nat)
    requires Inv0(h) && p in h.arenas && h.arenas[p].Big? && b in h.live
    ensures b / PGSIZE == p ==> b == p * PGSIZE + ARENA_SIZE
  {
    hide AllBlocks;
    assert LiveOk(h.arenas, b);
  }

  // ---------- the calls ----------

  /** `malloc` keeps the invariant, and what it hands out was not live: nothing else changes hands. */
  lemma MallocKeepsInv(h: Heap, size: nat, r: Option<nat>, h': Heap)
    requires Inv(h) && Mallocs(h, size, r, h')
    ensures Inv(h')
    ensures match r case None => h' == h case Some(b) => b !in h.live && h'.live == h.live + {b}
  {
    hide IsBlock, ArenaOk, LiveOk, ListOk, BlocksPerArena;
    if r.Some? {
      var d, p := DescFor(size), r.value / PGSIZE;
      if d == DESC_CNT {
        NewBigKeeps(h, p, PageCount(size));
      } else if h.free[d] != [] {
        TakeFirstMoves(h, d);
        TakeFirstKeeps(h, d);
      } else {
        var h1 := NewArena(h, p, d);
        NewArenaFirst(h, p, d);
        NewArenaKeeps(h, p, d);
        TakeFirstMoves(h1, d);
        TakeFirstKeeps(h1, d);
      }
    }
  }

  /** `malloc` fails only for size 0, for a page count that wrapped to 0, or for want of free pages. */
  lemma MallocFailsOnlyIf(h: Heap, size: nat, h': Heap)
    requires Inv(h) && Mallocs(h, size, None, h') && size > 0
    ensures var n := if DescFor(size) == DESC_CNT then PageCount(size) else 1;
            n == 0 || forall p :: !Uniform(h.used, p, n, false)
    ensures DescFor(size) < DESC_CNT ==> h.free[DescFor(size)] == []
  {
    var n := if DescFor(size) == DESC_CNT then PageCount(size) else 1;
    assert n == 0 || IsFirstRun(h.used, 0, n, false, None);
  }

  /** There is a free block of the size class or a free page for a new arena; a request above the largest class needs
      a run of free pages, as many as the page count says. */
  ghost predicate CanServe(h: Heap, size: nat)
    requires |h.free| == DESC_CNT
  {
    if DescFor(size) < DESC_CNT then h.free[DescFor(size)] != [] || exists p: nat :: Uniform(h.used, p, 1, false)
    else PageCount(size) > 0 && exists p: nat :: Uniform(h.used, p, PageCount(size), false)
  }

  /** `malloc` serves every request of nonzero size that it can serve. */
  lemma MallocSucceedsIff(h: Heap, size: nat, r: Option<nat>, h': Heap)
    requires Inv(h) && Mallocs(h, size, r, h')
    ensures |h.free| == DESC_CNT && (r.Some? <==> size > 0 && CanServe(h, size))
  {
    hide ArenaOk, LiveOk, ListOk, Partitioned, PageCount, DescFor, Uniform;
    var n := if DescFor(size) == DESC_CNT then PageCount(size) else 1;
    if r.Some? && size > 0 && (DescFor(size) == DESC_CNT || h.free[DescFor(size)] == []) {
      assert Uniform(h.used, r.value / PGSIZE, n, false);
    }
    if r == None && size > 0 { MallocFailsOnlyIf(h, size, h'); }
  }

  /** `free` keeps the invariant and ends the life of one block. */
  lemma FreeKeepsInv(h: Heap, b: nat)
    requires Inv(h) && b in h.live
    ensures Inv(Freed(h, b)) && Freed(h, b).live == h.live - {b}
  {
    hide IsBlock, ArenaOk, ListOk, Partitioned, BlocksPerArena, ReturnArena;
    var p := b / PGSIZE;
    assert LiveOk(h.arenas, b);
    if h.arenas[p].Big? {
      OnlyBig(h, p, b);
      ReturnBigKeeps(h, p);
    } else {
      PutBackKeeps(h, b);
      var h1 := PutBack(h, b);
      WhollyFree(h1, p);
      if h1.arenas[p].freeCnt >= BlocksPerArena(h.arenas[p].desc) {
        ReturnArenaKeeps(h1, p);
        ReturnedShape(h1, p);
      }
    }
  }

  lemma ReturnedShape(h: Heap, p: nat)
    requires |h.free| == DESC_CNT && p in h.arenas && h.arenas[p].Small? && h.arenas[p].desc < DESC_CNT && p < |h.used|
    ensures ReturnArena(h, p).live == h.live && ReturnArena(h, p).arenas == h.arenas - {p}
    ensures ReturnArena(h, p).used == h.used[p := false] && |ReturnArena(h, p).free| == DESC_CNT
  {
  }

  lemma FreeSmall(h: Heap, b: nat)
    requires Inv(h) && b in h.live && b / PGSIZE in h.arenas && h.arenas[b / PGSIZE].Small?
    ensures h.arenas[b / PGSIZE].desc < DESC_CNT == |h.free|
    ensures var h1, p := PutBack(h, b), b / PGSIZE;
            && h1.live == h.live - {b} && Inv0(h1) && ArenaOk(h1, p)
            && h1.arenas[p].freeCnt <= BlocksPerArena(h.arenas[p].desc)
            && (h1.arenas[p].freeCnt == BlocksPerArena(h.arenas[p].desc) <==>
               forall c :: c in h.live && c / PGSIZE == p ==> c == b)
  {
    hide Inv0, ArenaOk, BlocksPerArena;
    PutBackKeeps(h, b);
    WhollyFree(PutBack(h, b), b / PGSIZE);
    assert forall c :: c in PutBack(h, b).live <==> c in h.live && c != b;
  }

  /** A page is given back exactly when the last live block in its arena is freed, and then no free list
      points into it; any other arena stays. */
  lemma FreeReturnsIff(h: Heap, b: nat)
    requires Inv(h) && b in h.live
    ensures var h', p := Freed(h, b), b / PGSIZE;
            && |h'.free| == DESC_CNT
            && (p !in h'.arenas <==> forall c :: c in h.live && c / PGSIZE == p ==> c == b)
            && (p !in h'.arenas ==>
                  && p < |h'.used| && !h'.used[p]
                  && forall c, d :: 0 <= d < DESC_CNT && c in h'.free[d] ==> c / PGSIZE != p)
            && (p in h'.arenas ==> h'.used == h.used)
            && (forall q :: q != p ==> (q in h'.arenas <==> q in h.arenas))
  {
    hide IsBlock, BlocksPerArena, ReturnArena, FreeIn, Inv0;
    var p := b / PGSIZE;
    WithinArena(h, b);
    if h.arenas[p].Big? {
      forall c | c in h.live ensures c / PGSIZE == p ==> c == b { OnlyBig(h, p, c); OnlyBig(h, p, b); }
      ReturnBigFree(h, p);
    } else {
      FreeSmall(h, b);
      var h1 := PutBack(h, b);
      if h1.arenas[p].freeCnt >= BlocksPerArena(h.arenas[p].desc) {
        ReturnArenaKeeps(h1, p);
        ReturnedShape(h1, p);
      }
    }
  }

  lemma ReturnBigFree(h: Heap, p: nat)
    requires Inv0(h) && p in h.arenas && h.arenas[p].Big?
    ensures |h.free| == DESC_CNT && forall c, d :: 0 <= d < DESC_CNT && c in h.free[d] ==> c / PGSIZE != p
  {
    hide IsBlock, ArenaOk, LiveOk, Partitioned;
    forall c, d | 0 <= d < DESC_CNT && c in h.free[d] ensures c / PGSIZE != p {
      assert ListOk(h, d);
      BlockPage(h.arenas, c, d);
    }
  }

  // ---------- extents ----------

  /** The bytes handed out at `b` (`block_size`, lines 178-186). */
  ghost function Capacity(h: Heap, b: nat): int
    requires Inv0(h) && b in h.live
  {
    assert LiveOk(h.arenas, b) && ArenaOk(h, b / PGSIZE);
    match h.arenas[b / PGSIZE]
    case Small(d, _) => BlockSize(d)
    case Big(n) => PGSIZE * n - b % PGSIZE
  }

  lemma WithinArena(h: Heap, b: nat)
    requires Inv0(h) && b in h.live
    ensures var p := b / PGSIZE;
            && p in h.arenas && ArenaOk(h, p) && LiveOk(h.arenas, b)
            && p * PGSIZE + ARENA_SIZE <= b && b + Capacity(h, b) <= (p + Span(h.arenas[p])) * PGSIZE
  {
    hide AllBlocks, FreeIn;
    var p := b / PGSIZE;
    assert LiveOk(h.arenas, b) && ArenaOk(h, p);
    if h.arenas[p].Small? { AllBlocksPage(p, h.arenas[p].desc, b); }
  }

  /** Live blocks never overlap one another, nor any arena header, and lie in used pages. */
  lemma LiveDisjoint(h: Heap, a: nat, b: nat)
    requires Inv0(h) && a in h.live && b in h.live && a < b
    ensures a + Capacity(h, a) <= b
    ensures b / PGSIZE != a / PGSIZE ==> a + Capacity(h, a) <= b / PGSIZE * PGSIZE
  {
    hide ArenaOk, Uniform;
    WithinArena(h, a);
    WithinArena(h, b);
    var p, q := a / PGSIZE, b / PGSIZE;
    if p == q {
      assert ArenaOk(h, p);
      if h.arenas[p].Small? { BlocksApart(p, h.arenas[p].desc, a, b); } else { OnlyBig(h, p, a); OnlyBig(h, p, b); }
    } else {
      assert p < q && Apart(h.arenas, p, q);
    }
  }

  /** What `malloc` returns holds the requested bytes, except when adding the header wraps past 32 bits. */
  lemma MallocFitsIff(h: Heap, size: nat, b: nat, h': Heap)
    requires Inv(h) && size < SIZE_LIMIT && Mallocs(h, size, Some(b), h')
    ensures Inv(h') && b in h'.live
    ensures Capacity(h', b) >= size <==> size + ARENA_SIZE <= SIZE_LIMIT
  {
    hide Inv0, Mallocs, PageCount, Capacity;
    MallocKeepsInv(h, size, Some(b), h');
    CapacityIs(h, size, b, h');
    MallocPages(h, size, b, h');
    if DescFor(size) == DESC_CNT { PagesFit(size); }
  }

  lemma MallocPages(h: Heap, size: nat, b: nat, h': Heap)
    requires Inv(h) && Mallocs(h, size, Some(b), h')
    ensures DescFor(size) == DESC_CNT ==> PageCount(size) > 0
  {
  }

  /** Line 109: the pages hold the request and the header, unless the sum wraps; then one page is all there is. */
  lemma PagesFit(size: nat)
    requires size < SIZE_LIMIT && PageCount(size) > 0 && DescFor(size) == DESC_CNT
    ensures PGSIZE * PageCount(size) - ARENA_SIZE >= size <==> size + ARENA_SIZE <= SIZE_LIMIT
  {
    var total := size + ARENA_SIZE;
    if total < SIZE_LIMIT {
      assert total % SIZE_LIMIT == total;
    } else {
      assert total % SIZE_LIMIT == total - SIZE_LIMIT;
    }
  }

  lemma CapacityIs(h: Heap, size: nat, b: nat, h': Heap)
    requires Inv(h) && Mallocs(h, size, Some(b), h') && Inv(h') && b in h'.live
    ensures Capacity(h', b) ==
            if DescFor(size) == DESC_CNT then PGSIZE * PageCount(size) - ARENA_SIZE else BlockSize(DescFor(size))
  {
    hide IsBlock, ListOk, BlocksPerArena, FreeIn;
    var d, p := DescFor(size), b / PGSIZE;
    assert LiveOk(h'.arenas, b) && ArenaOk(h', p);
    if d < DESC_CNT {
      if h.free[d] != [] { TakeFirstDefined(h, d); } else { NewArenaFirst(h, p, d); }
    }
  }

  /** The wrapped request is not refused: one page comes back for almost 4 GB. */
  lemma WrappedRequest()
    ensures DescFor(0xffff_ffff) == DESC_CNT && PageCount(0xffff_ffff) == 1
  {
  }

  // ---------- runs ----------

  /** The other users of the page allocator may take and return pages outside the arenas. */
  ghost predicate OthersUse(h: Heap, h': Heap) {
    && |h'.used| == |h.used| && h' == h.(used := h'.used)
    && forall p :: p in h.arenas && p + Span(h.arenas[p]) <= |h.used| ==> forall k :: p <= k < p + Span(h.arenas[p]) ==>
       h'.used[k] == h.used[k]
  }

  ghost predicate Step(h: Heap, h': Heap) {
    && Inv(h)
    && (|| (exists size, r :: Mallocs(h, size, r, h'))
        || (exists b :: b in h.live && h' == Freed(h, b))
        || OthersUse(h, h'))
  }

  lemma OthersKeepInv(h: Heap, h': Heap)
    requires Inv(h) && OthersUse(h, h')
    ensures Inv(h')
  {
    hide IsBlock, LiveOk, FreeIn;
    forall p | p in h.arenas ensures ArenaOk(h', p) { assert ArenaOk(h, p); }
    forall d | 0 <= d < DESC_CNT ensures ListOk(h', d) { assert ListOk(h, d); }
    forall b: nat, d: nat ensures Partitioned(h', b, d) { assert Partitioned(h, b, d); }
  }

  ghost predicate Initial(h: Heap) {
    h.arenas == map[] && h.live == {} && h.free == seq(DESC_CNT, _ => [])
  }

  /** Every state of every run satisfies the invariant. */
  lemma {:induction false} RunSafe(run: seq<Heap>, i: nat)
    requires i < |run| && Initial(run[0]) && forall k :: 0 < k < |run| ==> Step(run[k - 1], run[k])
    ensures Inv(run[i])
  {
    hide Inv0;
    if i == 0 {
      InitialInv(run[0]);
    } else {
      RunSafe(run, i - 1);
      var h, h' := run[i - 1], run[i];
      assert Step(h, h');
      if OthersUse(h, h') {
        OthersKeepInv(h, h');
      } else if size, r :| Mallocs(h, size, r, h') {
        MallocKeepsInv(h, size, r, h');
      } else {
        var b :| b in h.live && h' == Freed(h, b);
        FreeKeepsInv(h, b);
      }
    }
  }

  lemma InitialInv(h: Heap)
    requires Initial(h)
    ensures Inv(h)
  {
  }
}
