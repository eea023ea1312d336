/** What a request to the sbrk heap of operating-system/hw3/mm_alloc.c achieves: when `mm_malloc` and `mm_realloc`
    succeed, which address they hand out, and what becomes of the space around it. Everything is said of the
    blocks, the break and the limit, not of the branches of the code. */
module HeapRequests {
  import opened Prelude
  import opened HeapLayout

  /** A free block that can hold `size` bytes. */
  predicate Fits(b: Blk, size: nat) { b.free && size <= b.size }

  ghost predicate HasFit(h: Heap, size: nat) { exists b :: b in h.blocks && Fits(b, size) }

  /** `b` is the fitting block with the lowest address. */
  ghost predicate LowestFit(h: Heap, b: Blk, size: nat) {
    b in h.blocks && Fits(b, size) && forall c :: c in h.blocks && Fits(c, size) ==> b.addr <= c.addr
  }

  /** A new block of `size` bytes stays below the limit. On a heap with blocks, the request must also not exceed the
      break, where the test of line 63 wraps around. */
  predicate RoomAbove(h: Heap, size: nat) {
    if h.blocks == [] then h.brk + BLOCK_SIZE + size <= |h.mem|
    else
      && size + BLOCK_SIZE <= h.brk
      && h.blocks[|h.blocks| - 1].End() + BLOCK_SIZE + size <= |h.mem|
  }

  // ---------- malloc ----------

  /** `mm_malloc` succeeds exactly when some free block is large enough or the heap can grow by that much. */
  lemma MallocSucceedsIff(h: Heap, size: nat)
    requires Inv(h)
    ensures Malloc(h, size).0.Payload? <==> size > 0 && (HasFit(h, size) || RoomAbove(h, size))
  {
    var i := FirstFit(h.blocks, size);
    if i < |h.blocks| { assert h.blocks[i] in h.blocks && Fits(h.blocks[i], size); }
  }

  /** The address handed out: the payload of the lowest fitting block, else one header past the last block. */
  lemma MallocAddress(h: Heap, size: nat)
    requires Inv(h) && Malloc(h, size).0.Payload?
    ensures HasFit(h, size) ==> exists b :: LowestFit(h, b, size) && Malloc(h, size).0.ptr == b.Ptr()
    ensures !HasFit(h, size) ==>
              Malloc(h, size).0.ptr
              == BLOCK_SIZE + if h.blocks == [] then h.brk else h.blocks[|h.blocks| - 1].End()
  {
    var i := FirstFit(h.blocks, size);
    if i < |h.blocks| {
      FirstIsLowest(h, size);
      assert LowestFit(h, h.blocks[i], size);
    }
  }

  lemma FirstIsLowest(h: Heap, size: nat)
    requires Ordered(h.blocks) && FirstFit(h.blocks, size) < |h.blocks|
    ensures LowestFit(h, h.blocks[FirstFit(h.blocks, size)], size)
  {
    var i := FirstFit(h.blocks, size);
    forall c | c in h.blocks && Fits(c, size) ensures h.blocks[i].addr <= c.addr {
      var j :| 0 <= j < |h.blocks| && h.blocks[j] == c;
      assert i <= j;
      if i < j { assert h.blocks[i].End() <= h.blocks[j].addr; }
    }
  }

  /** No two blocks start at the same address. */
  lemma SameAddress(bs: seq<Blk>, b: Blk, c: Blk)
    requires Ordered(bs) && b in bs && c in bs && b.addr == c.addr
    ensures b == c
  {
    IndexOfBlock(bs, b);
    IndexOfBlock(bs, c);
  }

  lemma Members(a: seq<Blk>, mid: seq<Blk>, z: seq<Blk>)
    ensures forall d :: d in a + mid + z <==> d in a || d in mid || d in z
  {
  }

  /** The blocks below `lo`, those from `lo` to `hi`, and those above `hi`. */
  lemma Around(bs: seq<Blk>, lo: nat, hi: nat)
    requires Ordered(bs) && lo <= hi < |bs|
    ensures forall d :: d in bs <==> d in bs[..lo] || d in bs[lo..hi + 1] || d in bs[hi + 1..]
    ensures forall d :: d in bs[..lo] ==> d.End() <= bs[lo].addr
    ensures forall d :: d in bs[hi + 1..] ==> bs[hi].End() <= d.addr
  {
    assert bs == bs[..lo] + bs[lo..hi + 1] + bs[hi + 1..];
    forall d | d in bs[hi + 1..] ensures bs[hi].End() <= d.addr {
      var j :| 0 <= j < |bs[hi + 1..]| && bs[hi + 1..][j] == d;
      assert d == bs[hi + 1 + j];
    }
  }

  function BlockSet(h: Heap): set<Blk> { set b | b in h.blocks }

  /** The blocks that `b` is cut into for `size` bytes: a remainder that can hold a header is a free block up to the
      old end, and a smaller one is given up. */
  function Cut(b: Blk, size: nat): set<Blk>
    requires size <= b.size
  {
    {Blk(b.addr, size, false)}
    + if b.addr + BLOCK_SIZE + size + BLOCK_SIZE <= b.End()
      then {Blk(b.addr + BLOCK_SIZE + size, b.size - size - BLOCK_SIZE, true)} else {}
  }

  /** A successful `mm_malloc` cuts up the lowest fitting block and leaves the break, or adds one block at the top and
      raises the break just enough to cover it. No other block is touched. */
  lemma MallocBlocks(h: Heap, size: nat)
    requires Inv(h) && Malloc(h, size).0.Payload?
    ensures HasFit(h, size) ==>
              exists b :: && LowestFit(h, b, size)
                          && BlockSet(Malloc(h, size).1) == BlockSet(h) - {b} + Cut(b, size)
                          && Malloc(h, size).1.brk == h.brk
    ensures !HasFit(h, size) ==>
              && Malloc(h, size).0.ptr >= BLOCK_SIZE
              && BlockSet(Malloc(h, size).1) == BlockSet(h) + {Blk(Malloc(h, size).0.ptr - BLOCK_SIZE, size, false)}
              && Malloc(h, size).1.brk == Max(h.brk, Malloc(h, size).0.ptr + size)
  {
    var i := FirstFit(h.blocks, size);
    if i < |h.blocks| {
      FirstIsLowest(h, size);
      PlaceBlocks(h, i, size, Malloc(h, size).1);
    }
  }

  lemma PlaceBlocks(h: Heap, i: nat, size: nat, h1: Heap)
    requires Ordered(h.blocks) && i < |h.blocks| && size <= h.blocks[i].size
    requires h1.blocks == Place(h.blocks, i, size)
    ensures BlockSet(h1) == BlockSet(h) - {h.blocks[i]} + Cut(h.blocks[i], size)
  {
    var bs, b := h.blocks, h.blocks[i];
    var below, above := bs[..i], bs[i + 1..];
    Around(bs, i, i);
    assert bs[i..i + 1] == [b];
    var mid := PlacedParts(bs, i, size);
    hide Ordered, Place;
    Members(below, mid, above);
  }

  /** `Place` puts the parts of block `i` where it was. */
  lemma PlacedParts(bs: seq<Blk>, i: nat, size: nat) returns (mid: seq<Blk>)
    requires i < |bs| && size <= bs[i].size
    ensures Place(bs, i, size) == bs[..i] + mid + bs[i + 1..]
    ensures forall d :: d in mid <==> d in Cut(bs[i], size)
  {
    var used, rest := Blk(bs[i].addr, size, false), bs[i].size - size - BLOCK_SIZE;
    mid := if rest >= 0 then [used, Blk(used.End(), rest, true)] else [used];
  }

  // ---------- free ----------

  /** Block `i` with the free block before it, if there is one. */
  function Lo(bs: seq<Blk>, i: nat): (lo: nat)
    requires i < |bs|
    ensures lo <= i
  {
    if i > 0 && bs[i - 1].free then i - 1 else i
  }

  /** Block `i` with the free block after it, if there is one. */
  function Hi(bs: seq<Blk>, i: nat): (hi: nat)
    requires i < |bs|
    ensures i <= hi < |bs|
  {
    if i + 1 < |bs| && bs[i + 1].free then i + 1 else i
  }

  /** Blocks `lo` to `hi` as one free block, gaps included. */
  function Joined(bs: seq<Blk>, lo: nat, hi: nat): seq<Blk>
    requires lo <= hi < |bs| && bs[lo].Ptr() <= bs[hi].End()
  {
    bs[..lo] + [Blk(bs[lo].addr, bs[hi].End() - bs[lo].Ptr(), true)] + bs[hi + 1..]
  }

  lemma OrderedEnds(bs: seq<Blk>, lo: nat, hi: nat)
    requires Ordered(bs) && lo <= hi < |bs|
    ensures bs[lo].Ptr() <= bs[hi].End() && (lo < hi ==> bs[lo].End() <= bs[hi].addr)
  {
    if lo < hi { assert bs[lo].End() <= bs[hi].addr; }
  }

  lemma JoinNext(bs: seq<Blk>, lo: nat, i: nat)
    requires lo <= i < |bs| - 1 && bs[lo].Ptr() <= bs[i].End() <= bs[i + 1].addr
    ensures MergeAt(Joined(bs, lo, i), lo) == Joined(bs, lo, i + 1)
  {
    var left := Joined(bs, lo, i);
    assert left[lo + 1..] == bs[i + 1..] && left[..lo] == bs[..lo] && left[lo + 1] == bs[i + 1];
    assert left[lo + 2..] == bs[i + 2..];
  }

  lemma JoinOne(bs: seq<Blk>, i: nat)
    requires i < |bs|
    ensures Joined(bs, i, i) == bs[i := bs[i].(free := true)]
  {
  }

  /** Releasing block `i` puts one free block in the place of it and of its free neighbours, gaps included. */
  lemma ReleaseShape(bs: seq<Blk>, i: nat)
    requires Ordered(bs) && i < |bs|
    ensures bs[Lo(bs, i)].Ptr() <= bs[Hi(bs, i)].End()
    ensures Release(bs, i) == Joined(bs, Lo(bs, i), Hi(bs, i))
  {
    var freed, lo, hi := bs[i := bs[i].(free := true)], Lo(bs, i), Hi(bs, i);
    hide Ordered, MergeAt;
    OrderedEnds(bs, lo, hi);
    OrderedEnds(bs, lo, i);
    OrderedEnds(bs, i, hi);
    JoinOne(bs, i);
    if lo < i {
      MergeFreed(bs, lo);
      if i < hi { JoinNext(bs, lo, i); }
    } else if i < hi {
      JoinNext(bs, i, i);
    }
  }

  lemma MergeFreed(bs: seq<Blk>, lo: nat)
    requires lo + 1 < |bs| && bs[lo].End() <= bs[lo + 1].addr
    ensures MergeAt(bs[lo + 1 := bs[lo + 1].(free := true)], lo) == Joined(bs, lo, lo + 1)
    ensures lo + 2 < |bs| ==> Joined(bs, lo, lo + 1)[lo + 1] == bs[lo + 2]
  {
  }

  /** `c` takes up all of the space of `b`. */
  predicate Covers(c: Blk, b: Blk) { c.addr <= b.addr && b.End() <= c.End() }

  /** One free block `c` covers `b`, and of the other blocks all stay that `c` does not cover, and no live block is
      covered. */
  ghost predicate Replaced(bs: seq<Blk>, r: seq<Blk>, b: Blk, c: Blk) {
    && c in r && c.free && Covers(c, b)
    && (forall d :: d in r && d != c ==> d in bs)
    && (forall d :: d in bs && !Covers(c, d) ==> d in r)
    && (forall d :: d in bs && Covers(c, d) && d != b ==> d.free)
  }

  /** The covering block runs from the start of a block to the end of a block. */
  ghost predicate Recovered(h: Heap, h1: Heap, b: Blk, c: Blk) {
    && Replaced(h.blocks, h1.blocks, b, c)
    && (exists d :: d in h.blocks && d.addr == c.addr)
    && (exists d :: d in h.blocks && d.End() == c.End())
  }

  /** `mm_free` gives all the space of a live block back, and the break stays. */
  lemma FreeRecovers(h: Heap, b: Blk)
    requires Inv(h) && b in Live(h)
    ensures exists c :: Recovered(h, Free(h, b.Ptr()), b, c)
    ensures Free(h, b.Ptr()).brk == h.brk
  {
    hide Release, Coalesced, Within, Replaced, Lo, Hi;
    var bs, i := h.blocks, IndexOf(h.blocks, b.Ptr());
    IndexOfBlock(bs, b);
    ReleaseShape(bs, i);
    var lo, hi, r := Lo(bs, i), Hi(bs, i), Release(bs, i);
    JoinedReplaces(bs, i, r);
    assert bs[lo] in bs && bs[hi] in bs;
    assert r[lo] == Blk(bs[lo].addr, bs[hi].End() - bs[lo].Ptr(), true);
    assert Recovered(h, Free(h, b.Ptr()), b, r[lo]);
  }

  lemma JoinedReplaces(bs: seq<Blk>, i: nat, r: seq<Blk>)
    requires Ordered(bs) && i < |bs| && !bs[i].free
    requires bs[Lo(bs, i)].Ptr() <= bs[Hi(bs, i)].End() && r == Joined(bs, Lo(bs, i), Hi(bs, i))
    ensures Lo(bs, i) < |r| && Replaced(bs, r, bs[i], r[Lo(bs, i)])
  {
    hide Ordered, Lo, Hi, Covers;
    var lo, hi := Lo(bs, i), Hi(bs, i);
    var c := Blk(bs[lo].addr, bs[hi].End() - bs[lo].Ptr(), true);
    var below, here, above := bs[..lo], bs[lo..hi + 1], bs[hi + 1..];
    Around(bs, lo, hi);
    OrderedEnds(bs, lo, i);
    OrderedEnds(bs, i, hi);
    CoveredParts(bs, i, c);
    assert r == below + [c] + above && r[lo] == c;
    Members(below, [c], above);
    Parts(bs, r, below, here, above, bs[i], c);
  }

  lemma CoveredParts(bs: seq<Blk>, i: nat, c: Blk)
    requires i < |bs| && !bs[i].free
    requires var lo, hi := Lo(bs, i), Hi(bs, i);
             && (lo < i ==> bs[lo].End() <= bs[i].addr) && (i < hi ==> bs[i].End() <= bs[hi].addr)
             && c.addr == bs[lo].addr && c.End() == bs[hi].End()
    ensures forall d :: d in bs[Lo(bs, i)..Hi(bs, i) + 1] ==> Covers(c, d) && (d == bs[i] || d.free)
    ensures bs[i] in bs[Lo(bs, i)..Hi(bs, i) + 1]
  {
    var lo, hi := Lo(bs, i), Hi(bs, i);
    var here := bs[lo..hi + 1];
    assert here[i - lo] == bs[i];
    forall d | d in here ensures Covers(c, d) && (d == bs[i] || d.free) {
      var j :| 0 <= j < |here| && here[j] == d;
      assert d == bs[lo + j];
    }
  }

  lemma Parts(bs: seq<Blk>, r: seq<Blk>, below: seq<Blk>, here: seq<Blk>, above: seq<Blk>, b: Blk, c: Blk)
    requires forall d :: d in bs <==> d in below || d in here || d in above
    requires forall d :: d in r <==> d in below || d in [c] || d in above
    requires forall d :: d in below ==> d.End() <= c.addr
    requires forall d :: d in above ==> c.End() <= d.addr
    requires b in here && c.free && forall d :: d in here ==> Covers(c, d) && (d == b || d.free)
    ensures Replaced(bs, r, b, c)
  {
    assert c in [c];
  }

  /** `mm_free` does nothing exactly when no live block has that address. */
  lemma FreeIgnoresIff(h: Heap, ptr: nat)
    requires Inv(h)
    ensures Free(h, ptr) == h <==> forall b :: b in Live(h) ==> b.Ptr() != ptr
  {
    hide Release, Ordered, Coalesced, Within;
    if b :| b in Live(h) && b.Ptr() == ptr {
      FreeEffect(h, b);
    } else {
      var i := IndexOf(h.blocks, ptr);
      assert i < |h.blocks| ==> h.blocks[i] in h.blocks;
    }
  }

  /** Freed space can be had again: a request that fitted the freed block succeeds. */
  lemma FreeThenMalloc(h: Heap, b: Blk, size: nat)
    requires Inv(h) && b in Live(h) && 0 < size <= b.size
    ensures Inv(Free(h, b.Ptr())) && Malloc(Free(h, b.Ptr()), size).0.Payload?
  {
    FreeKeepsInv(h, b.Ptr());
    FreeRecovers(h, b);
    hide Malloc, Free, Inv;
    var h1 := Free(h, b.Ptr());
    var c :| Recovered(h, h1, b, c);
    assert Fits(c, size);
    MallocSucceedsIff(h1, size);
  }

  /** A request followed by its `mm_free` restores the blocks exactly when the fitting block is used up or leaves room
      for a header; a smaller remainder is lost to the block. */
  lemma FreeUndoesMallocIff(h: Heap, b: Blk, size: nat)
    requires Inv(h) && size > 0 && LowestFit(h, b, size)
    ensures Malloc(h, size).0 == Payload(b.Ptr())
    ensures Free(Malloc(h, size).1, b.Ptr()).blocks == h.blocks <==> b.size == size || b.size >= size + BLOCK_SIZE
  {
    FitFound(h, b, size);
    MallocKeepsInv(h, size);
    var i, h1 := FirstFit(h.blocks, size), Malloc(h, size).1;
    assert h1.blocks == Place(h.blocks, i, size);
    hide Malloc, Ordered, Coalesced, Within, FirstFit, Place, Release;
    PlaceReleased(h.blocks, i, size);
    IndexOfBlock(h1.blocks, h1.blocks[i]);
    assert IndexOf(h1.blocks, b.Ptr()) == i;
    var back := h.blocks[i := Blk(b.addr, if b.size >= size + BLOCK_SIZE then b.size else size, true)];
    assert back == h.blocks <==> back[i] == b;
  }

  /** Using free block `i` and releasing it again. */
  lemma PlaceReleased(bs: seq<Blk>, i: nat, size: nat)
    requires Ordered(bs) && Coalesced(bs) && i < |bs| && bs[i].free && size <= bs[i].size
    ensures var p := Place(bs, i, size);
            && i < |p| && p[i] == Blk(bs[i].addr, size, false)
            && Release(p, i)
               == bs[i := Blk(bs[i].addr, if bs[i].size >= size + BLOCK_SIZE then bs[i].size else size, true)]
  {
    var p := Place(bs, i, size);
    PlaceOrdered(bs, i, size);
    assert !FreePair(bs, i - 1) && !FreePair(bs, i);
    hide Ordered, Coalesced, Release;
    assert p[..i] == bs[..i];
    assert Lo(p, i) == i && Hi(p, i) == if bs[i].size >= size + BLOCK_SIZE then i + 1 else i;
    ReleaseShape(p, i);
    assert p[Hi(p, i) + 1..] == bs[i + 1..];
  }

  lemma FitFound(h: Heap, b: Blk, size: nat)
    requires Ordered(h.blocks) && LowestFit(h, b, size)
    ensures var i := FirstFit(h.blocks, size); i < |h.blocks| && h.blocks[i] == b
  {
    var i := FirstFit(h.blocks, size);
    assert i < |h.blocks| by {
      var j :| 0 <= j < |h.blocks| && h.blocks[j] == b;
    }
    FirstIsLowest(h, size);
    SameAddress(h.blocks, b, h.blocks[i]);
  }

  // ---------- realloc ----------

  /** The block at `ptr`, if there is one, is live once `size` bytes have been allocated. */
  ghost predicate LiveAfter(h: Heap, ptr: nat, size: nat) {
    exists b :: b in h.blocks && b.Ptr() == ptr && (b.free ==> LowestFit(h, b, size))
  }

  lemma LiveAfterIff(h: Heap, ptr: nat, size: nat)
    requires Inv(h) && Malloc(h, size).0.Payload? && IndexOf(h.blocks, ptr) < |h.blocks|
    ensures var bs := Malloc(h, size).1.blocks;
            IndexOf(bs, ptr) < |bs| && (!bs[IndexOf(bs, ptr)].free <==> LiveAfter(h, ptr, size))
  {
    hide Malloc, Ordered, Coalesced, Within, IndexOf, RoomAbove, LowestFit, LiveAfter;
    MallocKeepsInv(h, size);
    var b, h1 := h.blocks[IndexOf(h.blocks, ptr)], Malloc(h, size).1;
    var now := if LowestFit(h, b, size) then Blk(b.addr, size, false) else b;
    KeptBlock(h, b, size);
    IndexOfBlock(h1.blocks, now);
    OneBlock(h, b, size);
  }

  lemma OneBlock(h: Heap, b: Blk, size: nat)
    requires Ordered(h.blocks) && b in h.blocks
    ensures LiveAfter(h, b.Ptr(), size) <==> (b.free ==> LowestFit(h, b, size))
  {
    hide Ordered, LowestFit;
    forall d | d in h.blocks && d.Ptr() == b.Ptr() ensures d == b { SameAddress(h.blocks, b, d); }
  }

  /** A block is the same after an allocation, unless the allocation takes it. */
  lemma KeptBlock(h: Heap, b: Blk, size: nat)
    requires Inv(h) && Malloc(h, size).0.Payload? && b in h.blocks
    ensures (if LowestFit(h, b, size) then Blk(b.addr, size, false) else b) in Malloc(h, size).1.blocks
  {
    hide Malloc, Ordered, Coalesced, Within;
    MallocBlocks(h, size);
    var h1 := Malloc(h, size).1;
    if HasFit(h, size) {
      var fit :| && LowestFit(h, fit, size)
                 && BlockSet(h1) == BlockSet(h) - {fit} + Cut(fit, size);
      if LowestFit(h, b, size) { SameAddress(h.blocks, b, fit); }
      assert (if LowestFit(h, b, size) then Blk(b.addr, size, false) else b) in BlockSet(h1);
    } else {
      assert b in BlockSet(h1);
    }
  }

  /** `mm_realloc` succeeds exactly when `mm_malloc` would and `ptr` is NULL or a live block; a freed block passes for
      a live one when the allocation takes that very block. */
  lemma ReallocSucceedsIff(h: Heap, ptr: nat, size: nat)
    requires Inv(h)
    ensures Realloc(h, ptr, size).0.Payload? <==>
            && size > 0 && (HasFit(h, size) || RoomAbove(h, size))
            && (ptr == 0 || LiveAfter(h, ptr, size))
    ensures Realloc(h, ptr, size).0.Payload? ==> Realloc(h, ptr, size).0 == Malloc(h, size).0
  {
    hide Malloc, Free, Inv, HasFit, RoomAbove;
    MallocSucceedsIff(h, size);
    if size > 0 && ptr != 0 && Malloc(h, size).0.Payload? {
      MallocKeepsInv(h, size);
      if IndexOf(h.blocks, ptr) < |h.blocks| { LiveAfterIff(h, ptr, size); }
    }
  }

  /** A failed `mm_realloc` loses a block exactly when there was room for it and no block has the address `ptr`: the new
      block stays allocated and nobody learns its address. */
  lemma ReallocLeaksIff(h: Heap, ptr: nat, size: nat)
    requires Inv(h) && size > 0 && Realloc(h, ptr, size).0.Null?
    ensures Live(Realloc(h, ptr, size).1) != Live(h) <==>
            && ptr != 0 && (HasFit(h, size) || RoomAbove(h, size))
            && forall b :: b in h.blocks ==> b.Ptr() != ptr
  {
    hide Malloc, Free, HasFit, RoomAbove, KeepsLive, Bytes, Ordered, Coalesced, Within;
    MallocSucceedsIff(h, size);
    MallocEffect(h, size);
    var (a, h1) := Malloc(h, size);
    var i := IndexOf(h.blocks, ptr);
    assert i < |h.blocks| ==> h.blocks[i] in h.blocks;
    if a.Payload? && ptr != 0 && i < |h.blocks| {
      var b := Blk(a.ptr - BLOCK_SIZE, size, false);
      MallocKeepsKnown(h, size, ptr);
      FreeEffect(h1, b);
    }
  }
}
