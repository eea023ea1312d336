/** The kernel heap of PintOS/src/threads/malloc.c on values: power-of-two blocks carved out of one-page
    arenas, big blocks that take whole pages, and the page bitmap of PintOS/src/threads/palloc.c underneath.
    Addresses are byte offsets from the page-aligned base of the kernel pool. */
module ArenaLayout {
  import opened Prelude
  import opened Bitmaps

  const PGSIZE: nat := 4096
  const ARENA_SIZE: nat := 12
  const DESC_CNT: nat := 7
  const SIZE_LIMIT: nat := 0x1_0000_0000

  function BlockSize(d: nat): (r: nat)
    requires d < DESC_CNT
    ensures 16 <= r <= 1024
  {
    [16, 32, 64, 128, 256, 512, 1024][d]
  }

  function BlocksPerArena(d: nat): (r: nat)
    requires d < DESC_CNT
    ensures r >= 3 && r * BlockSize(d) <= PGSIZE - ARENA_SIZE
  {
    (PGSIZE - ARENA_SIZE) / BlockSize(d)
  }

  /** The header at the start of an arena's first page. */
  datatype Arena = Small(desc: nat, freeCnt: nat) | Big(pages: nat)

  function Span(a: Arena): nat { if a.Big? then a.pages else 1 }

  datatype Heap = Heap(used: seq<bool>, arenas: map<nat, Arena>, free: seq<seq<nat>>, live: set<nat>)

  /** `arena_to_block` */
  function BlockAt(p: nat, i: nat, d: nat): nat
    requires d < DESC_CNT
  {
    p * PGSIZE + ARENA_SIZE + i * BlockSize(d)
  }

  function AllBlocks(p: nat, d: nat): set<nat>
    requires d < DESC_CNT
  {
    FirstBlocks(p, d, BlocksPerArena(d))
  }

  function FirstBlocks(p: nat, d: nat, n: nat): set<nat>
    requires d < DESC_CNT
  {
    set i | 0 <= i < n :: BlockAt(p, i, d)
  }

  /** `b` is one of the blocks of a descriptor-`d` arena. */
  ghost predicate IsBlock(arenas: map<nat, Arena>, b: nat, d: nat) {
    && d < DESC_CNT && b / PGSIZE in arenas && arenas[b / PGSIZE].Small? && arenas[b / PGSIZE].desc == d
    && b in AllBlocks(b / PGSIZE, d)
  }

  function FreeIn(list: seq<nat>, p: nat): set<nat> { set b | b in list && b / PGSIZE == p }

  // ---------- the invariant ----------

  ghost predicate ArenaOk(h: Heap, p: nat)
    requires p in h.arenas && |h.free| == DESC_CNT
  {
    && p + Span(h.arenas[p]) <= |h.used| && Uniform(h.used, p, Span(h.arenas[p]), true)
    && match h.arenas[p]
       case Small(d, c) => d < DESC_CNT && c == |FreeIn(h.free[d], p)|
       case Big(n) => n > 0 && p * PGSIZE + ARENA_SIZE in h.live
  }

  ghost predicate ListOk(h: Heap, d: nat)
    requires d < DESC_CNT == |h.free|
  {
    Distinct(h.free[d]) && forall b :: b in h.free[d] ==> IsBlock(h.arenas, b, d)
  }

  ghost predicate LiveOk(arenas: map<nat, Arena>, b: nat) {
    && b / PGSIZE in arenas
    && match arenas[b / PGSIZE]
       case Small(d, _) => IsBlock(arenas, b, d)
       case Big(_) => b % PGSIZE == ARENA_SIZE
  }

  ghost predicate Apart(arenas: map<nat, Arena>, p: nat, q: nat)
    requires p in arenas
  {
    p < q ==> p + Span(arenas[p]) <= q
  }

  ghost predicate Partitioned(h: Heap, b: nat, d: nat)
    requires |h.free| == DESC_CNT
  {
    IsBlock(h.arenas, b, d) ==> (b in h.live <==> b !in h.free[d])
  }

  /** Arenas occupy disjoint used pages; the live and the free blocks partition each arena; `free_cnt` counts the free
      ones. */
  ghost predicate Inv0(h: Heap) {
    && |h.free| == DESC_CNT
    && (forall p :: p in h.arenas ==> ArenaOk(h, p))
    && (forall p, q :: p in h.arenas && q in h.arenas ==> Apart(h.arenas, p, q))
    && (forall d :: 0 <= d < DESC_CNT ==> ListOk(h, d))
    && (forall b :: b in h.live ==> LiveOk(h.arenas, b))
    && (forall b, d :: Partitioned(h, b, d))
  }

  predicate Busy(a: Arena) { a.Small? && a.desc < DESC_CNT ==> a.freeCnt < BlocksPerArena(a.desc) }

  /** Between calls no arena is wholly free. */
  ghost predicate Inv(h: Heap) {
    Inv0(h) && forall p :: p in h.arenas ==> Busy(h.arenas[p])
  }

  lemma HasLists(h: Heap)
    requires Inv0(h)
    ensures |h.free| == DESC_CNT
  {
  }

  // ---------- addresses ----------

  lemma Quotient(i: nat, z: nat, m: nat)
    requires z > 0 && m == i * z
    ensures m / z == i && m % z == 0
  {
    var q, r := m / z, m % z;
    assert m == q * z + r;
    SmallMultiple(i - q, z, r);
  }

  lemma SmallMultiple(k: int, z: int, r: nat)
    requires k * z == r < z
    ensures k == 0
  {
    assert k >= 1 ==> k * z >= z;
    assert k <= -1 ==> k * z <= 0 - z;
  }

  lemma Bounded(i: nat, n: nat, z: nat)
    requires i < n
    ensures i * z + z <= n * z
  {
    assert i * z + z == (i + 1) * z && (i + 1) * z <= n * z;
  }

  /** Every assertion of `block_to_arena` holds of a block address, and rounding down finds its arena. */
  lemma BlockAddress(p: nat, i: nat, d: nat)
    requires d < DESC_CNT && i < BlocksPerArena(d)
    ensures var b := BlockAt(p, i, d);
            && b / PGSIZE == p && b % PGSIZE >= ARENA_SIZE
            && (b % PGSIZE - ARENA_SIZE) % BlockSize(d) == 0 && (b % PGSIZE - ARENA_SIZE) / BlockSize(d) == i
            && b % PGSIZE + BlockSize(d) <= PGSIZE
  {
    var z := BlockSize(d);
    Bounded(i, BlocksPerArena(d), z);
    Quotient(i, z, i * z);
  }

  lemma AllBlocksPage(p: nat, d: nat, b: nat)
    requires d < DESC_CNT && b in AllBlocks(p, d)
    ensures b / PGSIZE == p && (b % PGSIZE - ARENA_SIZE) % BlockSize(d) == 0
    ensures ARENA_SIZE <= b % PGSIZE && b % PGSIZE + BlockSize(d) <= PGSIZE
    ensures b == BlockAt(p, (b % PGSIZE - ARENA_SIZE) / BlockSize(d), d)
  {
    var i :| 0 <= i < BlocksPerArena(d) && b == BlockAt(p, i, d);
    BlockAddress(p, i, d);
  }

  lemma {:induction false} PrefixCount(p: nat, d: nat, n: nat)
    requires d < DESC_CNT && n <= BlocksPerArena(d)
    ensures |FirstBlocks(p, d, n)| == n
  {
    if n == 0 {
      assert FirstBlocks(p, d, n) == {};
    } else {
      PrefixCount(p, d, n - 1);
      forall i | 0 <= i < n - 1 ensures BlockAt(p, i, d) != BlockAt(p, n - 1, d) {
        BlockAddress(p, i, d);
        BlockAddress(p, n - 1, d);
      }
      assert FirstBlocks(p, d, n) == FirstBlocks(p, d, n - 1) + {BlockAt(p, n - 1, d)};
    }
  }

  lemma AllBlocksCount(p: nat, d: nat)
    requires d < DESC_CNT
    ensures |AllBlocks(p, d)| == BlocksPerArena(d)
  {
    PrefixCount(p, d, BlocksPerArena(d));
  }

  /** Blocks of one arena do not overlap. */
  lemma BlocksApart(p: nat, d: nat, a: nat, b: nat)
    requires d < DESC_CNT && a in AllBlocks(p, d) && b in AllBlocks(p, d) && a < b
    ensures a + BlockSize(d) <= b
  {
    var z := BlockSize(d);
    var i :| 0 <= i < BlocksPerArena(d) && a == BlockAt(p, i, d);
    var j :| 0 <= j < BlocksPerArena(d) && b == BlockAt(p, j, d);
    if j <= i { Monotone(j, i, z); } else { Bounded(i, j, z); }
  }

  lemma Monotone(j: nat, i: nat, z: nat)
    requires j <= i
    ensures j * z <= i * z
  {
  }

  // ---------- the steps ----------

  /** Lines 102-104: the smallest descriptor whose blocks hold `size` bytes, or DESC_CNT. */
  function DescFor(size: nat): (r: nat)
    ensures r <= DESC_CNT && (r < DESC_CNT ==> BlockSize(r) >= size) && forall c :: 0 <= c < r ==> BlockSize(c) < size
  {
    DescFrom(size, 0)
  }

  function DescFrom(size: nat, d: nat): (r: nat)
    requires d <= DESC_CNT && forall c :: 0 <= c < d ==> BlockSize(c) < size
    ensures r <= DESC_CNT && (r < DESC_CNT ==> BlockSize(r) >= size) && forall c :: 0 <= c < r ==> BlockSize(c) < size
    decreases DESC_CNT - d
  {
    if d == DESC_CNT || BlockSize(d) >= size then d else DescFrom(size, d + 1)
  }

  /** Line 109, in 32-bit arithmetic. */
  function PageCount(size: nat): nat { (((size + ARENA_SIZE) % SIZE_LIMIT + PGSIZE - 1) % SIZE_LIMIT) / PGSIZE }

  function NewBig(h: Heap, p: nat, n: nat): Heap
    requires p + n <= |h.used|
  {
    h.(used := Filled(h.used, p, n, true), arenas := h.arenas[p := Big(n)], live := h.live + {p * PGSIZE + ARENA_SIZE})
  }

  function Blocks(p: nat, d: nat): seq<nat>
    requires d < DESC_CNT
  {
    seq(BlocksPerArena(d), i requires 0 <= i < BlocksPerArena(d) => BlockAt(p, i, d))
  }

  function NewArena(h: Heap, p: nat, d: nat): Heap
    requires p < |h.used| && d < DESC_CNT == |h.free|
  {
    h.(used := Filled(h.used, p, 1, true), arenas := h.arenas[p := Small(d, BlocksPerArena(d))],
       free := h.free[d := h.free[d] + Blocks(p, d)])
  }

  predicate HasFree(arenas: map<nat, Arena>, p: nat) { p in arenas && arenas[p].Small? && arenas[p].freeCnt > 0 }

  /** Lines 149-151: pop the first free block. */
  function TakeFirst(h: Heap, d: nat): Heap
    requires d < DESC_CNT == |h.free| && h.free[d] != []
    requires HasFree(h.arenas, h.free[d][0] / PGSIZE)
  {
    var b := h.free[d][0];
    var p := b / PGSIZE;
    h.(arenas := h.arenas[p := h.arenas[p].(freeCnt := h.arenas[p].freeCnt - 1)],
       free := h.free[d := h.free[d][1..]], live := h.live + {b})
  }

  /** Lines 239-242: push the block onto its descriptor's free list. */
  function PutBack(h: Heap, b: nat): Heap
    requires |h.free| == DESC_CNT && b / PGSIZE in h.arenas && h.arenas[b / PGSIZE].Small?
    requires h.arenas[b / PGSIZE].desc < DESC_CNT
  {
    var p := b / PGSIZE;
    var a := h.arenas[p];
    h.(arenas := h.arenas[p := a.(freeCnt := a.freeCnt + 1)], free := h.free[a.desc := [b] + h.free[a.desc]],
        live := h.live - {b})
  }

  function Minus(s: seq<nat>, gone: set<nat>): seq<nat> {
    if s == [] then [] else (if s[0] in gone then [] else [s[0]]) + Minus(s[1..], gone)
  }

  /** Lines 246-252: take a wholly free arena's blocks off the free list and return its page. */
  function ReturnArena(h: Heap, p: nat): Heap
    requires |h.free| == DESC_CNT && p in h.arenas && h.arenas[p].Small? && h.arenas[p].desc < DESC_CNT && p < |h.used|
  {
    var d := h.arenas[p].desc;
    h.(used := Filled(h.used, p, 1, false), arenas := h.arenas - {p},
        free := h.free[d := Minus(h.free[d], AllBlocks(p, d))])
  }

  function ReturnBig(h: Heap, p: nat): Heap
    requires p in h.arenas && h.arenas[p].Big? && p + h.arenas[p].pages <= |h.used|
  {
    h.(used := Filled(h.used, p, h.arenas[p].pages, false), arenas := h.arenas - {p},
        live := h.live - {p * PGSIZE + ARENA_SIZE})
  }

  /** What `malloc` may do, the page search being first fit. */
  ghost predicate Mallocs(h: Heap, size: nat, r: Option<nat>, h': Heap)
    requires Inv(h)
  {
    var d := DescFor(size);
    if size == 0 then r == None && h' == h
    else if d == DESC_CNT then
      var n := PageCount(size);
      match r
      case None => h' == h && (n == 0 || IsFirstRun(h.used, 0, n, false, None))
      case Some(b) =>
        var p := b / PGSIZE;
        && n > 0 && b == p * PGSIZE + ARENA_SIZE && IsFirstRun(h.used, 0, n, false, Some(p)) && h' == NewBig(h, p, n)
    else if h.free[d] != [] then
      TakeFirstDefined(h, d);
      r == Some(h.free[d][0]) && h' == TakeFirst(h, d)
    else
      match r
      case None => h' == h && IsFirstRun(h.used, 0, 1, false, None)
      case Some(b) =>
        var p := b / PGSIZE;
        && IsFirstRun(h.used, 0, 1, false, Some(p))
        && (NewArenaFirst(h, p, d); b == NewArena(h, p, d).free[d][0] && h' == TakeFirst(NewArena(h, p, d), d))
  }

  /** What `free` does to a live block. */
  ghost function Freed(h: Heap, b: nat): Heap
    requires Inv(h) && b in h.live
  {
    var p := b / PGSIZE;
    assert LiveOk(h.arenas, b) && ArenaOk(h, p);
    if h.arenas[p].Big? then ReturnBig(h, p)
    else
      var h1 := PutBack(h, b);
      if h1.arenas[p].freeCnt >= BlocksPerArena(h.arenas[p].desc) then ReturnArena(h1, p) else h1
  }

  lemma TakeFirstDefined(h: Heap, d: nat)
    requires Inv0(h) && d < DESC_CNT && h.free[d] != []
    ensures var p := h.free[d][0] / PGSIZE;
            p in h.arenas && h.arenas[p].Small? && h.arenas[p].desc == d && h.arenas[p].freeCnt > 0
  {
    var b := h.free[d][0];
    var p := b / PGSIZE;
    assert ListOk(h, d) && b in h.free[d] && IsBlock(h.arenas, b, d) && ArenaOk(h, p);
    assert b in FreeIn(h.free[d], p);
  }

  lemma NewArenaFirst(h: Heap, p: nat, d: nat)
    requires p < |h.used| && d < DESC_CNT == |h.free| && h.free[d] == []
    ensures var h1 := NewArena(h, p, d);
            && h1.free[d] != [] && h1.free[d] == Blocks(p, d) && h1.free[d][0] == BlockAt(p, 0, d)
            && h1.free[d][0] / PGSIZE == p && h1.arenas[p] == Small(d, BlocksPerArena(d))
  {
    BlockAddress(p, 0, d);
  }
}
