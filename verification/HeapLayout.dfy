/** What the sbrk heap of operating-system/hw3/mm_alloc.c means, as steps on an address-ordered
    sequence of blocks and a byte memory. The pointer-level code in `HeapAllocator` is proved to
    take exactly these steps. */
module HeapLayout {
  import opened Prelude

  const BLOCK_SIZE: nat := 40
  const ADDRESS_SPACE: nat := 0x1_0000_0000_0000_0000

  /** A block: header at `addr`, payload of `size` bytes after it. */
  datatype Blk = Blk(addr: nat, size: nat, free: bool) {
    function Ptr(): nat { addr + BLOCK_SIZE }
    function End(): nat { Ptr() + size }
  }

  datatype Heap = Heap(blocks: seq<Blk>, brk: nat, mem: seq<Byte>)

  /** A call returns NULL, returns a payload address, or writes past the break. */
  datatype Answer = Null | Payload(ptr: nat) | Fault

  /** Blocks are disjoint and in address order, below the break; no two neighbours are both free. */
  ghost predicate Ordered(bs: seq<Blk>) {
    forall i, j :: 0 <= i < j < |bs| ==> bs[i].End() <= bs[j].addr
  }

  ghost predicate Coalesced(bs: seq<Blk>) {
    forall i :: !FreePair(bs, i)
  }

  ghost predicate FreePair(bs: seq<Blk>, i: int) {
    0 <= i < |bs| - 1 && bs[i].free && bs[i + 1].free
  }

  ghost predicate Within(bs: seq<Blk>, brk: nat) {
    forall i :: 0 <= i < |bs| ==> 0 < bs[i].addr && bs[i].End() <= brk
  }

  ghost predicate Inv(h: Heap) {
    && 0 < h.brk <= |h.mem| < ADDRESS_SPACE / 2
    && Ordered(h.blocks) && Coalesced(h.blocks) && Within(h.blocks, h.brk)
  }

  // ---------- the steps ----------

  /** The first free block that can hold `size` bytes, or `|bs|`. */
  function FirstFit(bs: seq<Blk>, size: nat): (i: nat)
    ensures i <= |bs|
    ensures i < |bs| ==> bs[i].free && bs[i].size >= size
    ensures forall j :: 0 <= j < i ==> !(bs[j].free && bs[j].size >= size)
  {
    if bs == [] then 0
    else if bs[0].free && bs[0].size >= size then 0
    else
      var k := FirstFit(bs[1..], size);
      assert forall j :: 1 <= j < |bs| ==> bs[j] == bs[1..][j - 1];
      k + 1
  }

  /** Use free block `i` for `size` bytes, splitting off the rest if a header fits in it. */
  function Place(bs: seq<Blk>, i: nat, size: nat): seq<Blk>
    requires i < |bs| && size <= bs[i].size
  {
    var b := bs[i];
    var used := Blk(b.addr, size, false);
    if b.size - size >= BLOCK_SIZE then
      bs[..i] + [used, Blk(used.End(), b.size - size - BLOCK_SIZE, true)] + bs[i + 1..]
    else
      bs[i := used]
  }

  /** The address just past the last block, or the break of an empty heap. */
  function TopOf(h: Heap): nat {
    if h.blocks == [] then h.brk else h.blocks[|h.blocks| - 1].End()
  }

  /** `mem` with `bytes` stored at `a`. */
  function Store(mem: seq<Byte>, a: nat, bytes: seq<Byte>): (m: seq<Byte>)
    requires a + |bytes| <= |mem|
    ensures |m| == |mem|
  {
    mem[..a] + bytes + mem[a + |bytes|..]
  }

  /** `mm_malloc`. The memory ends at the address limit beyond which `sbrk` fails. */
  function Malloc(h: Heap, size: nat): (r: (Answer, Heap))
    requires Inv(h)
  {
    if size == 0 then (Null, h)
    else
      var i := FirstFit(h.blocks, size);
      if i < |h.blocks| then
        var b := h.blocks[i];
        (Payload(b.Ptr()), Heap(Place(h.blocks, i, size), h.brk, Store(h.mem, b.Ptr(), Zeros(size))))
      else
        var b := Blk(TopOf(h), size, false);
        if h.blocks != [] && size + BLOCK_SIZE > h.brk then (Fault, h)
        else if b.End() > |h.mem| then (Null, h)
        else (Payload(b.Ptr()), Heap(h.blocks + [b], Max(h.brk, b.End()), Store(h.mem, b.Ptr(), Zeros(size))))
  }

  /** Fuse blocks `i` and `i + 1`, recovering any gap between them. */
  function MergeAt(bs: seq<Blk>, i: nat): seq<Blk>
    requires i + 1 < |bs|
  {
    bs[..i] + [Merged(bs[i], bs[i + 1])] + bs[i + 2..]
  }

  function Merged(a: Blk, b: Blk): Blk {
    Blk(a.addr, if a.addr <= b.addr then b.addr - a.addr + b.size else 0, true)
  }

  /** Fuse the free block `i` with a free predecessor and a free successor. */
  function Fused(bs: seq<Blk>, i: nat): seq<Blk>
    requires i < |bs|
  {
    if i > 0 && bs[i - 1].free then
      var left := MergeAt(bs, i - 1);
      if i < |left| && left[i].free then MergeAt(left, i - 1) else left
    else if i + 1 < |bs| && bs[i + 1].free then MergeAt(bs, i)
    else bs
  }

  /** Mark block `i` free and fuse it with its free neighbours. */
  function Release(bs: seq<Blk>, i: nat): seq<Blk>
    requires i < |bs|
  {
    Fused(bs[i := bs[i].(free := true)], i)
  }

  /** The position of the block with payload address `ptr`, or `|bs|`. */
  function IndexOf(bs: seq<Blk>, ptr: nat): (i: nat)
    ensures i <= |bs|
    ensures i < |bs| ==> bs[i].Ptr() == ptr
    ensures i == |bs| ==> forall j :: 0 <= j < |bs| ==> bs[j].Ptr() != ptr
  {
    if bs == [] then 0
    else if bs[0].Ptr() == ptr then 0
    else
      var k := IndexOf(bs[1..], ptr);
      assert forall j :: 1 <= j < |bs| ==> bs[j] == bs[1..][j - 1];
      k + 1
  }

  /** `mm_free`: NULL, an address outside the heap and an already free block are ignored. */
  function Free(h: Heap, ptr: nat): Heap {
    var i := IndexOf(h.blocks, ptr);
    if ptr == 0 || i == |h.blocks| || h.blocks[i].free then h
    else h.(blocks := Release(h.blocks, i))
  }

  /** `mm_realloc`: allocate, copy the common prefix, free the old block. An unknown `ptr` gives NULL,
      with the new block left allocated. */
  function Realloc(h: Heap, ptr: nat, size: nat): (r: (Answer, Heap))
    requires Inv(h)
  {
    if size == 0 then (Null, Free(h, ptr))
    else if ptr == 0 then Malloc(h, size)
    else
      var (a, h1) := Malloc(h, size);
      if !a.Payload? then (a, h1)
      else if IndexOf(h.blocks, ptr) == |h.blocks| then (Null, h1)
      else
        MallocKeepsInv(h, size);
        Move(h1, ptr, a.ptr, size)
  }

  /** The end of `mm_realloc`, once the new payload `target` exists. */
  function Move(h: Heap, ptr: nat, target: nat, size: nat): (Answer, Heap)
    requires Inv(h) && target + size <= |h.mem|
  {
    var i := IndexOf(h.blocks, ptr);
    if i == |h.blocks| || h.blocks[i].free then (Null, Free(h, target))
    else
      var n := Min(h.blocks[i].size, size);
      (Payload(target), Free(h.(mem := Store(h.mem, target, h.mem[ptr..ptr + n])), ptr))
  }

  // ---------- every step keeps the layout ----------

  lemma MallocKeepsInv(h: Heap, size: nat)
    requires Inv(h)
    ensures Inv(Malloc(h, size).1)
    ensures var (a, h1) := Malloc(h, size);
            a.Payload? ==> a.ptr >= BLOCK_SIZE && a.ptr + size <= h1.brk
                           && Blk(a.ptr - BLOCK_SIZE, size, false) in h1.blocks
  {
    var i := FirstFit(h.blocks, size);
    if size != 0 && i < |h.blocks| {
      PlaceKeepsLayout(h.blocks, i, size, h.brk);
      assert Place(h.blocks, i, size)[i] == Blk(h.blocks[i].addr, size, false);
    } else {
      var b := Blk(TopOf(h), size, false);
      if b.End() <= |h.mem| { AppendKeepsLayout(h.blocks, b, Max(h.brk, b.End())); }
    }
  }

  lemma PlaceKeepsLayout(bs: seq<Blk>, i: nat, size: nat, brk: nat)
    requires Ordered(bs) && Coalesced(bs) && Within(bs, brk)
    requires i < |bs| && bs[i].free && size <= bs[i].size
    ensures var p := Place(bs, i, size); Ordered(p) && Coalesced(p) && Within(p, brk)
  {
    PlaceOrdered(bs, i, size);
    PlaceCoalesced(bs, i, size);
    hide Ordered, Coalesced;
  }

  lemma PlaceOrdered(bs: seq<Blk>, i: nat, size: nat)
    requires Ordered(bs) && i < |bs| && size <= bs[i].size
    ensures Ordered(Place(bs, i, size))
  {
    var used := Blk(bs[i].addr, size, false);
    var shrunk := bs[i := used];
    ShrinkKeepsOrder(bs, i, used);
    if bs[i].size - size >= BLOCK_SIZE {
      var rest := Blk(used.End(), bs[i].size - size - BLOCK_SIZE, true);
      InsertKeepsOrder(shrunk, i, rest);
      assert Place(bs, i, size) == shrunk[..i + 1] + [rest] + shrunk[i + 1..];
    }
  }

  lemma ShrinkKeepsOrder(bs: seq<Blk>, i: nat, b: Blk)
    requires Ordered(bs) && i < |bs| && bs[i].addr <= b.addr && b.End() <= bs[i].End()
    ensures Ordered(bs[i := b])
  {
  }

  lemma InsertKeepsOrder(bs: seq<Blk>, i: nat, b: Blk)
    requires Ordered(bs) && i < |bs| && bs[i].End() <= b.addr
    requires forall j :: i < j < |bs| ==> b.End() <= bs[j].addr
    ensures Ordered(bs[..i + 1] + [b] + bs[i + 1..])
  {
    assert forall j :: 0 <= j < i ==> bs[j].End() <= bs[i].addr;
  }

  lemma PlaceCoalesced(bs: seq<Blk>, i: nat, size: nat)
    requires Coalesced(bs) && i < |bs| && bs[i].free && size <= bs[i].size
    ensures Coalesced(Place(bs, i, size))
  {
    var p := Place(bs, i, size);
    forall k ensures !FreePair(p, k) {
      assert !FreePair(bs, k) && !FreePair(bs, k - 1);
    }
  }

  lemma AppendKeepsLayout(bs: seq<Blk>, b: Blk, brk: nat)
    requires Ordered(bs) && Coalesced(bs) && Within(bs, brk) && !b.free && 0 < b.addr && b.End() <= brk
    requires bs != [] ==> bs[|bs| - 1].End() <= b.addr
    ensures Ordered(bs + [b]) && Coalesced(bs + [b]) && Within(bs + [b], brk)
  {
    forall k ensures !FreePair(bs + [b], k) { assert !FreePair(bs, k); }
  }

  lemma MergeKeepsOrder(bs: seq<Blk>, i: nat, brk: nat)
    requires Ordered(bs) && Within(bs, brk) && i + 1 < |bs|
    ensures Ordered(MergeAt(bs, i)) && Within(MergeAt(bs, i), brk)
  {
  }

  /** Two free neighbours occur at most at positions `lo <= k < hi`. */
  ghost predicate CoalescedOutside(bs: seq<Blk>, lo: int, hi: int) {
    forall k :: FreePair(bs, k) ==> lo <= k < hi
  }

  lemma MergeCoalesces(bs: seq<Blk>, i: nat, hi: nat)
    requires i + 1 < |bs| && i < hi && bs[i].free && bs[i + 1].free && CoalescedOutside(bs, i, hi)
    ensures CoalescedOutside(MergeAt(bs, i), i, hi - 1)
  {
    var m := MergeAt(bs, i);
    forall k | FreePair(m, k) ensures i <= k < hi - 1 {
      assert FreePair(bs, if k < i then k else k + 1);
    }
  }

  lemma ReleaseKeepsLayout(bs: seq<Blk>, i: nat, brk: nat)
    requires Ordered(bs) && Coalesced(bs) && Within(bs, brk) && i < |bs|
    ensures var r := Release(bs, i); Ordered(r) && Coalesced(r) && Within(r, brk)
  {
    ReleaseKeepsOrder(bs, i, brk);
    ReleaseCoalesces(bs, i);
    hide Release;
  }

  lemma ReleaseKeepsOrder(bs: seq<Blk>, i: nat, brk: nat)
    requires Ordered(bs) && Within(bs, brk) && i < |bs|
    ensures Ordered(Release(bs, i)) && Within(Release(bs, i), brk)
  {
    var freed := bs[i := bs[i].(free := true)];
    assert Ordered(freed) && Within(freed, brk);
    hide MergeAt, Ordered, Within;
    if i > 0 && bs[i - 1].free {
      MergeKeepsOrder(freed, i - 1, brk);
      MergeShape(freed, i - 1);
      var left := MergeAt(freed, i - 1);
      if i < |left| && left[i].free { MergeKeepsOrder(left, i - 1, brk); }
    } else if i + 1 < |bs| && bs[i + 1].free {
      MergeKeepsOrder(freed, i, brk);
    }
  }

  lemma ReleaseKeepsFirst(bs: seq<Blk>, i: nat)
    requires i < |bs|
    ensures Release(bs, i) != [] && Release(bs, i)[0].addr == bs[0].addr
  {
  }

  lemma ReleaseCoalesces(bs: seq<Blk>, i: nat)
    requires Coalesced(bs) && i < |bs|
    ensures Coalesced(Release(bs, i))
  {
    var freed := bs[i := bs[i].(free := true)];
    assert CoalescedOutside(freed, i - 1, i + 1) by {
      forall k | FreePair(freed, k) ensures i - 1 <= k < i + 1 { assert !FreePair(bs, k); }
    }
    hide MergeAt;
    if i > 0 && bs[i - 1].free {
      MergeCoalesces(freed, i - 1, i + 1);
      MergeShape(freed, i - 1);
      var left := MergeAt(freed, i - 1);
      if i < |left| && left[i].free { MergeCoalesces(left, i - 1, i); }
    } else if i + 1 < |bs| && bs[i + 1].free {
      MergeCoalesces(freed, i, i + 1);
    }
  }

  lemma MergeShape(bs: seq<Blk>, i: nat)
    requires i + 1 < |bs|
    ensures |MergeAt(bs, i)| == |bs| - 1 && MergeAt(bs, i)[i].free && MergeAt(bs, i)[i].addr == bs[i].addr
    ensures i + 2 < |bs| ==> MergeAt(bs, i)[i + 1] == bs[i + 2]
  {
  }

  lemma FreeKeepsInv(h: Heap, ptr: nat)
    requires Inv(h)
    ensures Inv(Free(h, ptr))
  {
    var i := IndexOf(h.blocks, ptr);
    if i < |h.blocks| { ReleaseKeepsLayout(h.blocks, i, h.brk); }
  }

  lemma ReallocKeepsInv(h: Heap, ptr: nat, size: nat)
    requires Inv(h)
    ensures Inv(Realloc(h, ptr, size).1)
  {
    hide Malloc, Free, Ordered, Coalesced;
    FreeKeepsInv(h, ptr);
    MallocKeepsInv(h, size);
    var (a, h1) := Malloc(h, size);
    if a.Payload? {
      FreeKeepsInv(h1, a.ptr);
      var i := IndexOf(h1.blocks, ptr);
      if size != 0 && ptr != 0 && i < |h1.blocks| && !h1.blocks[i].free {
        var n := Min(h1.blocks[i].size, size);
        FreeKeepsInv(h1.(mem := Store(h1.mem, a.ptr, h1.mem[ptr..ptr + n])), ptr);
      }
    }
  }

  // ---------- no step disturbs another live block ----------

  /** The blocks handed out and not yet freed. */
  ghost function Live(h: Heap): set<Blk> { LiveOf(h.blocks) }

  ghost function LiveOf(bs: seq<Blk>): set<Blk> { set b | b in bs && !b.free }

  function Bytes(h: Heap, b: Blk): seq<Byte>
    requires b.End() <= |h.mem|
  {
    h.mem[b.Ptr()..b.End()]
  }

  /** Every live block of `h` other than those in `except` is still live in `h'`, with the same bytes. */
  ghost predicate KeepsLive(h: Heap, h': Heap, except: set<Blk>)
    requires Inv(h) && Inv(h')
  {
    forall b :: b in Live(h) - except ==> b in Live(h') && Bytes(h', b) == Bytes(h, b)
  }

  lemma StoreFrame(mem: seq<Byte>, a: nat, bytes: seq<Byte>, lo: nat, hi: nat)
    requires a + |bytes| <= |mem| && lo <= hi <= |mem|
    requires hi <= a || a + |bytes| <= lo
    ensures Store(mem, a, bytes)[lo..hi] == mem[lo..hi]
  {
  }

  lemma StoreReadsBack(mem: seq<Byte>, a: nat, bytes: seq<Byte>)
    requires a + |bytes| <= |mem|
    ensures Store(mem, a, bytes)[a..a + |bytes|] == bytes
  {
  }

  /** The blocks of `Place(bs, i, size)` are those of `bs` but for block `i`, the new one and its rest. */
  lemma PlaceMembers(bs: seq<Blk>, i: nat, size: nat)
    requires i < |bs| && size <= bs[i].size && bs[i].free
    ensures forall j :: 0 <= j < |bs| && j != i ==> bs[j] in Place(bs, i, size)
    ensures Blk(bs[i].addr, size, false) in Place(bs, i, size)
    ensures forall b :: b in Place(bs, i, size) && !b.free ==> b in bs || b == Blk(bs[i].addr, size, false)
  {
    var p := Place(bs, i, size);
    forall j | 0 <= j < |bs| && j != i ensures bs[j] in p {
      assert bs[j] == p[if j < i || |p| == |bs| then j else j + 1];
    }
    assert p[i] == Blk(bs[i].addr, size, false);
  }

  /** `h'` has the one additional live block `b`, zeroed, and every other live block as before. */
  ghost predicate AddsBlock(h: Heap, h': Heap, b: Blk)
    requires Inv(h) && Inv(h')
  {
    && !b.free && b !in Live(h) && Live(h') == Live(h) + {b}
    && Bytes(h', b) == Zeros(b.size)
    && KeepsLive(h, h', {})
  }

  lemma PlaceEffect(h: Heap, i: nat, size: nat, h1: Heap)
    requires Inv(h) && Inv(h1) && i < |h.blocks| && h.blocks[i].free && 0 < size <= h.blocks[i].size
    requires h1 == Heap(Place(h.blocks, i, size), h.brk, Store(h.mem, h.blocks[i].Ptr(), Zeros(size)))
    ensures AddsBlock(h, h1, Blk(h.blocks[i].addr, size, false))
  {
    PlaceMembers(h.blocks, i, size);
    hide Place;
    var a := h.blocks[i].Ptr();
    StoreReadsBack(h.mem, a, Zeros(size));
    forall b | b in Live(h) ensures b in Live(h1) && Bytes(h1, b) == Bytes(h, b) {
      var j :| 0 <= j < |h.blocks| && h.blocks[j] == b;
      StoreFrame(h.mem, a, Zeros(size), b.Ptr(), b.End());
    }
  }

  lemma AppendEffect(h: Heap, b: Blk, brk: nat, h1: Heap)
    requires Inv(h) && Inv(h1) && !b.free && b.addr == TopOf(h) && b.End() <= |h.mem|
    requires h1 == Heap(h.blocks + [b], brk, Store(h.mem, b.Ptr(), Zeros(b.size)))
    ensures AddsBlock(h, h1, b)
  {
    StoreReadsBack(h.mem, b.Ptr(), Zeros(b.size));
    forall c | c in Live(h) ensures c in Live(h1) && Bytes(h1, c) == Bytes(h, c) {
      var j :| 0 <= j < |h.blocks| && h.blocks[j] == c;
      StoreFrame(h.mem, b.Ptr(), Zeros(b.size), c.Ptr(), c.End());
    }
  }

  /** A successful `mm_malloc` adds exactly one zeroed live block; a failed one changes nothing. */
  lemma MallocEffect(h: Heap, size: nat)
    requires Inv(h)
    ensures Inv(Malloc(h, size).1)
    ensures var (a, h1) := Malloc(h, size);
            if a.Payload? then a.ptr >= BLOCK_SIZE && AddsBlock(h, h1, Blk(a.ptr - BLOCK_SIZE, size, false))
            else h1 == h
  {
    MallocKeepsInv(h, size);
    var (a, h1) := Malloc(h, size);
    if a.Payload? {
      var i := FirstFit(h.blocks, size);
      if i < |h.blocks| {
        PlaceEffect(h, i, size, h1);
      } else {
        AppendEffect(h, Blk(TopOf(h), size, false), h1.brk, h1);
      }
    }
  }

  /** `mm_malloc` never removes a block, so known payload addresses stay known. */
  lemma MallocKeepsKnown(h: Heap, size: nat, ptr: nat)
    requires Inv(h) && IndexOf(h.blocks, ptr) < |h.blocks|
    ensures IndexOf(Malloc(h, size).1.blocks, ptr) < |Malloc(h, size).1.blocks|
  {
    hide Ordered, Coalesced, Within, FirstFit, IndexOf, Store, Zeros;
    var i, j := FirstFit(h.blocks, size), IndexOf(h.blocks, ptr);
    var h1 := Malloc(h, size).1;
    assert exists k :: 0 <= k < |h1.blocks| && h1.blocks[k].Ptr() == ptr by {
      var k := if |h1.blocks| == |h.blocks| + 1 && i < j then j + 1 else j;
      assert h1.blocks[k].Ptr() == h.blocks[j].Ptr();
    }
  }

  /** `mm_malloc` writes past the break exactly when no block fits and the request exceeds the break
      address, so that `sbrk(0) - size - BLOCK_SIZE` wraps around. */
  lemma MallocFaultsIff(h: Heap, size: nat)
    requires Inv(h)
    ensures Malloc(h, size).0.Fault? <==>
            && size != 0 && h.blocks != [] && size + BLOCK_SIZE > h.brk
            && forall b :: b in h.blocks && b.free ==> b.size < size
  {
    var i := FirstFit(h.blocks, size);
    if i < |h.blocks| { assert h.blocks[i] in h.blocks; }
  }

  /** A heap of one 10-byte block, and a request for 200 bytes that runs past the break at 150. */
  lemma FaultingRequest()
    ensures var h := Heap([Blk(100, 10, false)], 150, seq(1000, _ => 0)); Inv(h) && Malloc(h, 200).0.Fault?
  {
    var h := Heap([Blk(100, 10, false)], 150, seq(1000, _ => 0));
    MallocFaultsIff(h, 200);
  }

  // ---------- free ----------

  lemma MergeMembers(bs: seq<Blk>, i: nat)
    requires i + 1 < |bs|
    ensures forall b :: b in MergeAt(bs, i) && !b.free ==> b in bs
    ensures forall j :: 0 <= j < |bs| && j != i && j != i + 1 ==> bs[j] in MergeAt(bs, i)
  {
    var m := MergeAt(bs, i);
    forall j | 0 <= j < |bs| && j != i && j != i + 1 ensures bs[j] in m {
      assert bs[j] == m[if j < i then j else j - 1];
    }
  }

  /** Fusing two free blocks changes no live block. */
  lemma MergeKeepsLive(bs: seq<Blk>, i: nat)
    requires i + 1 < |bs| && bs[i].free && bs[i + 1].free
    ensures LiveOf(MergeAt(bs, i)) == LiveOf(bs)
  {
    MergeMembers(bs, i);
    hide MergeAt;
    forall b | b in bs && !b.free ensures b in MergeAt(bs, i) {
      var j :| 0 <= j < |bs| && bs[j] == b;
    }
  }

  /** Ordered blocks have distinct addresses, so a payload address identifies its block. */
  lemma IndexOfBlock(bs: seq<Blk>, b: Blk)
    requires Ordered(bs) && b in bs
    ensures var i := IndexOf(bs, b.Ptr()); i < |bs| && bs[i] == b
    ensures forall j :: 0 <= j < |bs| && j != IndexOf(bs, b.Ptr()) ==> bs[j] != b
  {
    var i := IndexOf(bs, b.Ptr());
    forall j | 0 <= j < |bs| && j != i ensures bs[j].Ptr() != b.Ptr() {
      if i < j { assert bs[i].End() <= bs[j].addr; } else { assert bs[j].End() <= bs[i].addr; }
    }
  }

  lemma MarkFree(bs: seq<Blk>, i: nat)
    requires i < |bs| && !bs[i].free && forall j :: 0 <= j < |bs| && j != i ==> bs[j] != bs[i]
    ensures LiveOf(bs[i := bs[i].(free := true)]) == LiveOf(bs) - {bs[i]}
  {
    var freed := bs[i := bs[i].(free := true)];
    forall c | c in LiveOf(bs) - {bs[i]} ensures c in freed {
      var j :| 0 <= j < |bs| && bs[j] == c;
      assert freed[j] == c;
    }
  }

  lemma ReleaseLive(bs: seq<Blk>, i: nat)
    requires i < |bs|
    ensures LiveOf(Release(bs, i)) == LiveOf(bs[i := bs[i].(free := true)])
  {
    hide LiveOf, MergeAt;
    var freed := bs[i := bs[i].(free := true)];
    if i > 0 && bs[i - 1].free {
      MergeKeepsLive(freed, i - 1);
      MergeShape(freed, i - 1);
      var left := MergeAt(freed, i - 1);
      if i < |left| && left[i].free { MergeKeepsLive(left, i - 1); }
    } else if i + 1 < |bs| && bs[i + 1].free {
      MergeKeepsLive(freed, i);
    }
  }

  /** Freeing a live block takes that one block, and no other, out of the live set. */
  lemma FreeEffect(h: Heap, b: Blk)
    requires Inv(h) && b in Live(h)
    ensures Inv(Free(h, b.Ptr())) && Free(h, b.Ptr()).mem == h.mem
    ensures Live(Free(h, b.Ptr())) == Live(h) - {b}
  {
    FreeKeepsInv(h, b.Ptr());
    IndexOfBlock(h.blocks, b);
    MarkFree(h.blocks, IndexOf(h.blocks, b.Ptr()));
    hide Release;
    ReleaseLive(h.blocks, IndexOf(h.blocks, b.Ptr()));
  }

  // ---------- realloc ----------

  /** A successful `mm_realloc` of a live block replaces it by a new live block that starts with the
      first min(old, new) bytes of the old one and is otherwise zero; all other live blocks keep
      their bytes. A failed one changes nothing. */
  lemma ReallocEffect(h: Heap, was: Blk, size: nat)
    requires Inv(h) && was in Live(h) && size > 0
    ensures Inv(Realloc(h, was.Ptr(), size).1)
    ensures var (a, h1) := Realloc(h, was.Ptr(), size);
            if a.Payload? then
              && a.ptr >= BLOCK_SIZE
              && var b := Blk(a.ptr - BLOCK_SIZE, size, false);
              && var n := Min(was.size, size);
              && b !in Live(h) && Live(h1) == Live(h) - {was} + {b}
              && Bytes(h1, b) == Bytes(h, was)[..n] + Zeros(size - n)
              && KeepsLive(h, h1, {was})
            else h1 == h
  {
    hide Malloc, Free, AddsBlock, Live, LiveOf, KeepsLive;
    ReallocKeepsInv(h, was.Ptr(), size);
    MallocEffect(h, size);
    var (a, h1) := Malloc(h, size);
    if a.Payload? {
      var b := Blk(a.ptr - BLOCK_SIZE, size, false);
      CopyEffect(h, h1, was, b);
    }
  }

  /** `h1` after copying the common prefix of `was` into `b`. */
  function Copied(h1: Heap, was: Blk, b: Blk): Heap
    requires was.End() <= |h1.mem| && b.End() <= |h1.mem|
  {
    h1.(mem := Store(h1.mem, b.Ptr(), h1.mem[was.Ptr()..was.Ptr() + Min(was.size, b.size)]))
  }

  lemma CopyBytes(h: Heap, h1: Heap, was: Blk, b: Blk)
    requires Inv(h) && Inv(h1) && was in Live(h) && AddsBlock(h, h1, b)
    ensures var n := Min(was.size, b.size);
            Bytes(Copied(h1, was, b), b) == Bytes(h, was)[..n] + Zeros(b.size - n)
  {
    var n := Min(was.size, b.size);
    var src := h1.mem[was.Ptr()..was.Ptr() + n];
    assert Bytes(h1, was) == Bytes(h, was);
    SlicePrefix(h1.mem, was.Ptr(), was.End(), n);
    assert Bytes(Copied(h1, was, b), b) == src + Bytes(h1, b)[n..];
  }

  lemma CopyKeepsOthers(h: Heap, h1: Heap, was: Blk, b: Blk, c: Blk)
    requires Inv(h) && Inv(h1) && was in Live(h) && AddsBlock(h, h1, b) && c in Live(h)
    ensures Bytes(Copied(h1, was, b), c) == Bytes(h, c)
  {
    assert c in Live(h1) && Bytes(h1, c) == Bytes(h, c);
    LiveDisjoint(h1, b, c);
    StoreFrame(h1.mem, b.Ptr(), h1.mem[was.Ptr()..was.Ptr() + Min(was.size, b.size)], c.Ptr(), c.End());
  }

  lemma CopyEffect(h: Heap, h1: Heap, was: Blk, b: Blk)
    requires Inv(h) && Inv(h1) && was in Live(h) && AddsBlock(h, h1, b)
    ensures !was.free && was.Ptr() != 0 && b !in Live(h)
    ensures var i := IndexOf(h.blocks, was.Ptr()); i < |h.blocks| && h.blocks[i] == was
    ensures var i := IndexOf(h1.blocks, was.Ptr()); i < |h1.blocks| && h1.blocks[i] == was
    ensures var n := Min(was.size, b.size);
            var h2 := Free(Copied(h1, was, b), was.Ptr());
            && Inv(h2) && Live(h2) == Live(h) - {was} + {b}
            && Bytes(h2, b) == Bytes(h, was)[..n] + Zeros(b.size - n)
            && KeepsLive(h, h2, {was})
  {
    IndexOfBlock(h.blocks, was);
    IndexOfBlock(h1.blocks, was);
    CopyBytes(h, h1, was, b);
    forall c | c in Live(h) ensures Bytes(Copied(h1, was, b), c) == Bytes(h, c) { CopyKeepsOthers(h, h1, was, b, c); }
    var copied := Copied(h1, was, b);
    assert Inv(copied) && Live(copied) == Live(h) + {b};
    FreeEffect(copied, was);
    hide Free;
  }

  lemma LiveDisjoint(h: Heap, b: Blk, c: Blk)
    requires Inv(h) && b in h.blocks && c in h.blocks && b != c
    ensures b.End() <= c.addr || c.End() <= b.addr
  {
    var i :| 0 <= i < |h.blocks| && h.blocks[i] == b;
    var j :| 0 <= j < |h.blocks| && h.blocks[j] == c;
  }

  // ---------- whole runs ----------

  /** A call by a client that only passes NULL, an address outside the heap, or a live payload address. */
  datatype Op =
    | DoMalloc(size: nat)
    | DoFree(ptr: nat)
    | DoRealloc(ptr: nat, size: nat)
    | DoWrite(ptr: nat, bytes: seq<Byte>)

  /** The calls the allocator is specified for; `DoWrite` is the client filling its own live block. */
  ghost predicate Admissible(h: Heap, op: Op) {
    match op
    case DoMalloc(size) => size + BLOCK_SIZE < ADDRESS_SPACE / 2
    case DoFree(ptr) => ValidPointer(h, ptr)
    case DoRealloc(ptr, size) => ValidPointer(h, ptr) && size + BLOCK_SIZE < ADDRESS_SPACE / 2
    case DoWrite(ptr, bytes) => exists b :: b in Live(h) && b.Ptr() == ptr && |bytes| <= b.size
  }

  ghost predicate ValidPointer(h: Heap, ptr: nat) {
    ptr == 0 || OutsideHeap(h, ptr) || exists b :: b in Live(h) && b.Ptr() == ptr
  }

  predicate OutsideHeap(h: Heap, ptr: nat) {
    h.blocks == [] || ptr < h.blocks[0].Ptr() || ptr > h.brk
  }

  ghost function Apply(h: Heap, op: Op): (Answer, Heap)
    requires Inv(h) && Admissible(h, op)
  {
    match op
    case DoMalloc(size) => Malloc(h, size)
    case DoFree(ptr) => (Null, Free(h, ptr))
    case DoRealloc(ptr, size) => Realloc(h, ptr, size)
    case DoWrite(ptr, bytes) => (Null, h.(mem := Store(h.mem, ptr, bytes)))
  }

  /** The live block an operation is about, if it names one. */
  ghost function Subject(h: Heap, op: Op): set<Blk> {
    if op.DoMalloc? then {} else set b | b in Live(h) && b.Ptr() == op.ptr
  }

  /** One step keeps the invariant and leaves every live block but its own subject alone. */
  lemma StepSafe(h: Heap, op: Op)
    requires Inv(h) && Admissible(h, op)
    ensures Inv(Apply(h, op).1)
    ensures KeepsLive(h, Apply(h, op).1, Subject(h, op))
  {
    match op
    case DoMalloc(size) => MallocEffect(h, size);
    case DoFree(ptr) => FreeSafe(h, ptr);
    case DoRealloc(ptr, size) => ReallocSafe(h, ptr, size);
    case DoWrite(ptr, bytes) =>
      var b :| b in Live(h) && b.Ptr() == ptr && |bytes| <= b.size;
      forall c | c in Live(h) - Subject(h, op) ensures Bytes(Apply(h, op).1, c) == Bytes(h, c) {
        LiveDisjoint(h, b, c);
        StoreFrame(h.mem, ptr, bytes, c.Ptr(), c.End());
      }
  }

  lemma FreeSafe(h: Heap, ptr: nat)
    requires Inv(h)
    ensures Inv(Free(h, ptr))
    ensures KeepsLive(h, Free(h, ptr), set b | b in Live(h) && b.Ptr() == ptr)
  {
    FreeKeepsInv(h, ptr);
    if b :| b in Live(h) && b.Ptr() == ptr {
      FreeEffect(h, b);
    } else {
      var i := IndexOf(h.blocks, ptr);
      assert i < |h.blocks| ==> h.blocks[i] in h.blocks;
    }
  }

  lemma ReallocSafe(h: Heap, ptr: nat, size: nat)
    requires Inv(h) && ValidPointer(h, ptr)
    ensures Inv(Realloc(h, ptr, size).1)
    ensures KeepsLive(h, Realloc(h, ptr, size).1, set b | b in Live(h) && b.Ptr() == ptr)
  {
    hide Malloc, Free, Inv, Live, LiveOf, Bytes;
    ReallocKeepsInv(h, ptr, size);
    FreeSafe(h, ptr);
    MallocEffect(h, size);
    if size > 0 && ptr != 0 {
      if b :| b in Live(h) && b.Ptr() == ptr {
        ReallocEffect(h, b, size);
      } else {
        OutsideUnknown(h, ptr);
      }
    }
  }

  lemma OutsideUnknown(h: Heap, ptr: nat)
    requires Inv(h) && OutsideHeap(h, ptr)
    ensures IndexOf(h.blocks, ptr) == |h.blocks|
  {
    assert forall i :: 0 < i < |h.blocks| ==> h.blocks[0].End() <= h.blocks[i].addr;
  }

  /** A finite run: each step is admissible in the heap it starts from, and none but the last faults. */
  ghost predicate Run(hs: seq<Heap>, ops: seq<Op>) {
    && |hs| == |ops| + 1 && Inv(hs[0])
    && forall k {:trigger ops[k]} :: 0 <= k < |ops| ==>
         Inv(hs[k]) ==>
           && Admissible(hs[k], ops[k]) && hs[k + 1] == Apply(hs[k], ops[k]).1
           && (k + 1 < |ops| ==> !Apply(hs[k], ops[k]).0.Fault?)
  }

  /** In every run, every heap is well laid out, and a block that is live at step `k` and is not
      freed, resized or written before step `n` is live with the same bytes at step `n`. */
  lemma {:induction false} RunSafe(hs: seq<Heap>, ops: seq<Op>, k: nat, n: nat)
    requires Run(hs, ops) && k <= n <= |ops|
    ensures Inv(hs[k]) && Inv(hs[n])
    ensures forall b :: b in Live(hs[k]) && (forall j :: k <= j < n ==> ops[j].DoMalloc? || ops[j].ptr != b.Ptr()) ==>
              b in Live(hs[n]) && Bytes(hs[n], b) == Bytes(hs[k], b)
    decreases n
  {
    if n > 0 {
      RunSafe(hs, ops, if k < n then k else n - 1, n - 1);
      StepSafe(hs[n - 1], ops[n - 1]);
    }
  }
}
