/** The sbrk heap of operating-system/hw3/mm_alloc.c at the level of its pointers: headers are records
    stored by address and linked by address, and each call updates them in place. */
module HeapAllocator {
  import opened Prelude
  import opened HeapLayout

  /** `struct s_block`; a null pointer is address 0. */
  datatype Header = Header(size: nat, next: nat, prev: nat, free: bool, ptr: nat)

  /** The header that position `i` of the block sequence must have, links included. */
  function HeaderOf(bs: seq<Blk>, i: nat): Header
    requires i < |bs|
  {
    Header(bs[i].size,
           if i + 1 < |bs| then bs[i + 1].addr else 0,
           if i > 0 then bs[i - 1].addr else 0,
           bs[i].free,
           bs[i].Ptr())
  }

  /** `next` and `prev` spell out the block sequence in both directions. */
  ghost predicate Linked(hdr: map<nat, Header>, bs: seq<Blk>) {
    forall i {:trigger HeaderOf(bs, i)} :: 0 <= i < |bs| ==> bs[i].addr in hdr && hdr[bs[i].addr] == HeaderOf(bs, i)
  }

  class Allocator {
    var first: nat
    var brk: nat
    var hdr: map<nat, Header>
    var mem: seq<Byte>
    ghost var blocks: seq<Blk>

    ghost predicate Valid()
      reads this
    {
      && Inv(State()) && Linked(hdr, blocks)
      && first == if blocks == [] then 0 else blocks[0].addr
    }

    ghost function State(): Heap
      reads this
    {
      Heap(blocks, brk, mem)
    }

    /** An empty heap whose break may move from `start` up to the end of `memory`. */
    constructor (start: nat, memory: seq<Byte>)
      requires 0 < start <= |memory| < ADDRESS_SPACE / 2
      ensures Valid() && State() == Heap([], start, memory)
    {
      first, brk, hdr, mem, blocks := 0, start, map[], memory, [];
    }

    /** `sbrk(increment)`: move the break unless that would leave the address limit. */
    method Sbrk(increment: nat) returns (ok: bool)
      modifies this`brk
      ensures ok <==> old(brk) + increment <= |mem|
      ensures brk == if ok then old(brk) + increment else old(brk)
    {
      ok := brk + increment <= |mem|;
      if ok { brk := brk + increment; }
    }

    /** The search loop of `mm_malloc`: the first block that fits, or null and the last block. */
    method Search(size: nat) returns (current: nat, last: nat)
      requires Valid() && blocks != []
      ensures var i := FirstFit(blocks, size);
              if i < |blocks| then current == blocks[i].addr
              else current == 0 && last == blocks[|blocks| - 1].addr
    {
      current, last := first, first;
      ghost var i := 0;
      while current != 0
        invariant i <= |blocks|
        invariant current == if i < |blocks| then blocks[i].addr else 0
        invariant i > 0 ==> last == blocks[i - 1].addr
        invariant forall j :: 0 <= j < i ==> !(blocks[j].free && blocks[j].size >= size)
        decreases |blocks| - i
      {
        HeaderAt(hdr, blocks, i);
        if hdr[current].free && hdr[current].size >= size { return; }
        last := current;
        current := hdr[current].next;
        i := i + 1;
      }
    }

    /** Lines 43-57 of `mm_malloc`: use the free block at `current`, splitting it if a header fits. */
    method TakeBlock(current: nat, size: nat, ghost i: nat)
      requires Valid() && i < |blocks| && current == blocks[i].addr
      requires blocks[i].free && size <= blocks[i].size
      modifies this`hdr, this`mem, this`blocks
      ensures Valid()
      ensures State() == Heap(Place(old(blocks), i, size), brk, Store(old(mem), old(blocks[i].Ptr()), Zeros(size)))
    {
      hide Ordered, Coalesced, Store, Linked;
      PlaceKeepsLayout(blocks, i, size, brk);
      TakeLinked(hdr, blocks, i, size);
      hdr := hdr[current := hdr[current].(free := false)];
      if hdr[current].size - size >= BLOCK_SIZE {
        var last, next := hdr[current].ptr + size, hdr[current].next;
        if next != 0 { hdr := hdr[next := hdr[next].(prev := last)]; }
        hdr := hdr[current := hdr[current].(next := last)];
        hdr := hdr[last := Header(hdr[current].size - size - BLOCK_SIZE, next, current, true, last + BLOCK_SIZE)];
      }
      hdr := hdr[current := hdr[current].(size := size)];
      mem := Store(mem, hdr[current].ptr, Zeros(size));
      assert hdr == Taken(old(hdr), current, size);
      blocks := Place(blocks, i, size);
    }

    /** Lines 68-76 of `mm_malloc`: link a new block at `top`, after the last one. */
    method AppendBlock(last: nat, top: nat, size: nat)
      requires Valid() && blocks != [] && last == blocks[|blocks| - 1].addr
      requires top == blocks[|blocks| - 1].End() && top + BLOCK_SIZE + size <= brk
      modifies this`hdr, this`mem, this`blocks
      ensures Valid()
      ensures State() == Heap(old(blocks) + [Blk(top, size, false)], brk,
              Store(old(mem), top + BLOCK_SIZE, Zeros(size)))
    {
      hide Ordered, Coalesced, Store, Linked;
      ghost var b := Blk(top, size, false);
      AppendKeepsLayout(blocks, b, brk);
      Increasing(blocks);
      HeaderAt(hdr, blocks, |blocks| - 1);
      InsertLinked(hdr, blocks, |blocks| - 1, b);
      hdr := hdr[last := hdr[last].(next := top)];
      hdr := hdr[top := Header(size, 0, last, false, top + BLOCK_SIZE)];
      mem := Store(mem, top + BLOCK_SIZE, Zeros(size));
      assert blocks + [b] == InsertAfter(blocks, |blocks| - 1, b);
      blocks := blocks + [b];
    }

    /** Lines 24-37 of `mm_malloc`: the first block of an empty heap, at the break. */
    method FirstBlock(size: nat) returns (r: Answer)
      requires Valid() && blocks == []
      modifies this
      ensures Valid()
      ensures r == if old(brk) + size + BLOCK_SIZE <= |old(mem)| then Payload(old(brk) + BLOCK_SIZE) else Null
      ensures r.Null? ==> State() == old(State())
      ensures r.Payload? ==>
        State() == Heap(old(blocks) + [Blk(old(brk), size, false)], old(brk) + BLOCK_SIZE + size,
            Store(old(mem), r.ptr, Zeros(size)))
    {
      var top := brk;
      var ok := Sbrk(size + BLOCK_SIZE);
      if !ok { return Null; }
      first := top;
      hdr := hdr[top := Header(size, 0, 0, false, top + BLOCK_SIZE)];
      mem := Store(mem, top + BLOCK_SIZE, Zeros(size));
      blocks := blocks + [Blk(top, size, false)];
      return Payload(top + BLOCK_SIZE);
    }

    /** `mm_malloc` */
    method Malloc(size: nat) returns (r: Answer)
      requires Valid() && size + BLOCK_SIZE < ADDRESS_SPACE / 2
      modifies this
      ensures Valid()
      ensures (r, State()) == HeapLayout.Malloc(old(State()), size)
    {
      hide Ordered, Coalesced, Place, Store, Linked;
      if size == 0 { return Null; }
      if first == 0 {
        r := FirstBlock(size);
        return;
      }
      var current, last := Search(size);
      if current != 0 {
        ghost var i := FirstFit(blocks, size);
        TakeBlock(current, size, i);
        return Payload(current + BLOCK_SIZE);
      }
      r := Extend(last, size);
    }

    /** Lines 63-76 of `mm_malloc`: no block fits, so move the break and append. */
    method Extend(last: nat, size: nat) returns (r: Answer)
      requires Valid() && 0 < size && size + BLOCK_SIZE < ADDRESS_SPACE / 2
      requires blocks != [] && last == blocks[|blocks| - 1].addr && FirstFit(blocks, size) == |blocks|
      modifies this
      ensures Valid()
      ensures (r, State()) == HeapLayout.Malloc(old(State()), size)
    {
      hide Ordered, Coalesced, Store, Linked, FirstFit;
      HeaderAt(hdr, blocks, |blocks| - 1);
      ghost var lastBlk := blocks[|blocks| - 1];
      assert lastBlk.End() <= brk;
      var top := hdr[last].ptr + hdr[last].size;
      WrappedTest(brk, size, top);
      if top > (brk - size - BLOCK_SIZE) % ADDRESS_SPACE {
        var ok := Sbrk(size + BLOCK_SIZE - (brk - top));
        if !ok { return Null; }
      }
      if top + BLOCK_SIZE + size > brk { return Fault; }
      AppendBlock(last, top, size);
      return Payload(top + BLOCK_SIZE);
    }

    /** `find_head`: the header of the block with payload address `ptr`, or null. */
    method FindHead(ptr: nat) returns (iter: nat)
      requires Valid() && (OutsideHeap(State(), ptr) || IndexOf(blocks, ptr) < |blocks|)
      ensures var i := IndexOf(blocks, ptr); iter == if i < |blocks| then blocks[i].addr else 0
    {
      ghost var i := IndexOf(blocks, ptr);
      if OutsideHeap(State(), ptr) { OutsideUnknown(State(), ptr); } else { HeaderAt(hdr, blocks, i); }
      iter := 0;
      if first == 0 { return; }
      HeaderAt(hdr, blocks, 0);
      if ptr < hdr[first].ptr || ptr > brk { return; }
      var head := ptr - BLOCK_SIZE;
      if hdr[head].ptr == head + BLOCK_SIZE { iter := head; }
    }

    /** `mm_free` */
    method Free(ptr: nat)
      requires Valid() && (ptr == 0 || OutsideHeap(State(), ptr) || IndexOf(blocks, ptr) < |blocks|)
      modifies this`hdr, this`blocks
      ensures Valid()
      ensures State() == HeapLayout.Free(old(State()), ptr)
    {
      if ptr == 0 { return; }
      var target := FindHead(ptr);
      if target == 0 { return; }
      ghost var i := IndexOf(blocks, ptr);
      HeaderAt(hdr, blocks, i);
      if hdr[target].free { return; }
      ReleaseBlock(target, i);
    }

    /** `mm_realloc` */
    method Realloc(ptr: nat, size: nat) returns (r: Answer)
      requires Valid() && size + BLOCK_SIZE < ADDRESS_SPACE / 2
      requires ptr == 0 || OutsideHeap(State(), ptr) || IndexOf(blocks, ptr) < |blocks|
      modifies this
      ensures Valid()
      ensures (r, State()) == HeapLayout.Realloc(old(State()), ptr, size)
    {
      if size == 0 {
        Free(ptr);
        return Null;
      }
      if ptr == 0 {
        r := Malloc(size);
        return;
      }
      var current := FindHead(ptr);
      if current != 0 { MallocKeepsKnown(State(), size, ptr); }
      MallocKeepsInv(State(), size);
      r := Malloc(size);
      if r.Payload? {
        if current == 0 { return Null; }
        hide HeapLayout.Malloc, HeapLayout.Move;
        r := Move(current, ptr, r.ptr, size);
      }
    }

    /** Lines 90-97 of `mm_realloc`. */
    method Move(current: nat, ptr: nat, target: nat, size: nat) returns (r: Answer)
      requires Valid() && IndexOf(blocks, ptr) < |blocks| && ptr == current + BLOCK_SIZE
      requires target >= BLOCK_SIZE && target + size <= brk && IndexOf(blocks, target) < |blocks|
      modifies this
      ensures Valid()
      ensures (r, State()) == HeapLayout.Move(old(State()), ptr, target, size)
    {
      HeaderAt(hdr, blocks, IndexOf(blocks, ptr));
      if hdr[current].free {
        Free(target);
        return Null;
      }
      mem := Store(mem, target, mem[ptr..ptr + Min(hdr[current].size, size)]);
      Free(ptr);
      return Payload(target);
    }

    /** Lines 111-131 of `mm_free`: mark the block at `target` free and fuse it with free neighbours. */
    method ReleaseBlock(target: nat, ghost i: nat)
      requires Valid() && i < |blocks| && target == blocks[i].addr && !blocks[i].free
      modifies this`hdr, this`blocks
      ensures Valid() && blocks == Release(old(blocks), i)
    {
      hide Ordered, Coalesced, Within, Linked, MergeAt, Fused;
      ReleaseKeepsLayout(blocks, i, brk);
      ReleaseKeepsFirst(blocks, i);
      HeaderAt(hdr, blocks, i);
      UpdateLinked(hdr, blocks, i, blocks[i].size, true);
      ghost var freed := blocks[i := blocks[i].(free := true)];
      FreedLayout(blocks, i, brk);
      hdr := hdr[target := hdr[target].(free := true)];
      FuseNeighbours(target, freed, i);
      assert Release(blocks, i) == Fused(freed, i);
      blocks := Release(blocks, i);
    }

    /** Lines 112-131 of `mm_free`. */
    method FuseNeighbours(target: nat, ghost bs: seq<Blk>, ghost i: nat)
      requires Linked(hdr, bs) && Ordered(bs) && Within(bs, brk)
      requires i < |bs| && target == bs[i].addr && bs[i].free
      modifies this`hdr
      ensures Linked(hdr, Fused(bs, i))
    {
      HeaderAt(hdr, bs, i);
      if i > 0 { HeaderAt(hdr, bs, i - 1); }
      if i + 1 < |bs| { HeaderAt(hdr, bs, i + 1); }
      var prev, next := hdr[target].prev, hdr[target].next;
      assert prev != 0 <==> i > 0;
      assert next != 0 <==> i + 1 < |bs|;
      hide Ordered, Within, Linked, MergeAt;
      if prev != 0 && hdr[prev].free {
        FuseWithPrevious(prev, target, next, bs, i);
      } else if next != 0 && hdr[next].free {
        Absorb(target, next, bs, i);
      }
    }

    method FuseWithPrevious(prev: nat, target: nat, next: nat, ghost bs: seq<Blk>, ghost i: nat)
      requires Linked(hdr, bs) && Ordered(bs) && Within(bs, brk)
      requires 0 < i < |bs| && target == bs[i].addr && bs[i].free && prev == bs[i - 1].addr && bs[i - 1].free
      requires next == if i + 1 < |bs| then bs[i + 1].addr else 0
      modifies this`hdr
      ensures Linked(hdr, Fused(bs, i))
    {
      MergeShape(bs, i - 1);
      MergeKeepsOrder(bs, i - 1, brk);
      assert i + 1 < |bs| ==> 0 < bs[i + 1].addr;
      hide Ordered, Within, Linked, MergeAt;
      Absorb(prev, target, bs, i - 1);
      ghost var left := MergeAt(bs, i - 1);
      if next != 0 {
        HeaderAt(hdr, left, i);
        if hdr[next].free { Absorb(prev, next, left, i - 1); }
      }
    }

    /** The fusing statements that `mm_free` repeats: block `b` becomes part of its predecessor `a`. */
    method Absorb(a: nat, b: nat, ghost bs: seq<Blk>, ghost i: nat)
      requires Linked(hdr, bs) && Ordered(bs) && i + 1 < |bs| && a == bs[i].addr && b == bs[i + 1].addr
      requires bs[i].free && Within(bs, brk)
      modifies this`hdr
      ensures Linked(hdr, MergeAt(bs, i))
    {
      MergeLinked(hdr, bs, i);
      hdr := hdr[a := hdr[a].(next := hdr[b].next)];
      var next := hdr[b].next;
      if next != 0 { hdr := hdr[next := hdr[next].(prev := a)]; }
      hdr := hdr[a := hdr[a].(size := hdr[b].ptr - hdr[a].ptr + hdr[b].size)];
      assert hdr == Absorbed(old(hdr), a, b);
    }
  }

  lemma HeaderAt(hdr: map<nat, Header>, bs: seq<Blk>, i: nat)
    requires Linked(hdr, bs) && i < |bs|
    ensures bs[i].addr in hdr && hdr[bs[i].addr] == HeaderOf(bs, i)
  {
  }

  /** The unsigned comparison on line 63 of `mm_malloc` asks for more memory only if nothing wraps. */
  lemma WrappedTest(brk: nat, size: nat, top: nat)
    requires top <= brk < ADDRESS_SPACE / 2 && size + BLOCK_SIZE < ADDRESS_SPACE / 2
    ensures top > (brk - size - BLOCK_SIZE) % ADDRESS_SPACE <==> size + BLOCK_SIZE <= brk < top + size + BLOCK_SIZE
  {
  }

  lemma Increasing(bs: seq<Blk>)
    requires Ordered(bs)
    ensures forall j, k :: 0 <= j < k < |bs| ==> bs[j].addr < bs[k].addr
  {
  }

  lemma FreedLayout(bs: seq<Blk>, i: nat, brk: nat)
    requires Ordered(bs) && Within(bs, brk) && i < |bs|
    ensures Ordered(bs[i := bs[i].(free := true)]) && Within(bs[i := bs[i].(free := true)], brk)
  {
  }

  /** Give block `i` a new size and status; its links stay as they are. */
  lemma UpdateLinked(hdr: map<nat, Header>, bs: seq<Blk>, i: nat, size: nat, free: bool)
    requires Linked(hdr, bs) && Ordered(bs) && i < |bs|
    ensures bs[i].addr in hdr
    ensures Linked(hdr[bs[i].addr := hdr[bs[i].addr].(free := free, size := size)],
            bs[i := Blk(bs[i].addr, size, free)])
  {
    hide Ordered;
    Increasing(bs);
    HeaderAt(hdr, bs, i);
    var h, p := hdr[bs[i].addr := hdr[bs[i].addr].(free := free, size := size)], bs[i := Blk(bs[i].addr, size, free)];
    forall k | 0 <= k < |p| ensures p[k].addr in h && h[p[k].addr] == HeaderOf(p, k) {
      HeaderAt(hdr, bs, k);
    }
  }

  /** `bs` with `b` inserted after position `i`. */
  function InsertAfter(bs: seq<Blk>, i: nat, b: Blk): seq<Blk>
    requires i < |bs|
  {
    bs[..i + 1] + [b] + bs[i + 1..]
  }

  /** The link updates that insert a header for `b` after the block at `at`. */
  function LinkAfter(hdr: map<nat, Header>, at: nat, b: Blk): map<nat, Header>
    requires at in hdr && (hdr[at].next != 0 ==> hdr[at].next in hdr)
  {
    var next := hdr[at].next;
    var h := if next != 0 then hdr[next := hdr[next].(prev := b.addr)] else hdr;
    h[at := h[at].(next := b.addr)][b.addr := Header(b.size, next, at, b.free, b.Ptr())]
  }

  lemma InsertHeaders(bs: seq<Blk>, i: nat, b: Blk, k: nat)
    requires i < |bs| && k <= |bs|
    ensures var p := InsertAfter(bs, i, b);
            && |p| == |bs| + 1
            && (k < i ==> p[k] == bs[k] && HeaderOf(p, k) == HeaderOf(bs, k))
            && (k == i ==> p[k] == bs[k] && HeaderOf(p, k) == HeaderOf(bs, k).(next := b.addr))
            && (k == i + 1 ==>
                  p[k] == b && HeaderOf(p, k) == Header(b.size, HeaderOf(bs, i).next, bs[i].addr, b.free, b.Ptr()))
            && (k == i + 2 ==> p[k] == bs[k - 1] && HeaderOf(p, k) == HeaderOf(bs, k - 1).(prev := b.addr))
            && (k > i + 2 ==> p[k] == bs[k - 1] && HeaderOf(p, k) == HeaderOf(bs, k - 1))
  {
  }

  lemma InsertLinked(hdr: map<nat, Header>, bs: seq<Blk>, i: nat, b: Blk)
    requires Linked(hdr, bs) && i < |bs|
    requires forall j, k :: 0 <= j < k < |bs| ==> bs[j].addr < bs[k].addr
    requires forall j :: 0 <= j < |bs| ==> 0 < bs[j].addr != b.addr
    ensures bs[i].addr in hdr && (hdr[bs[i].addr].next != 0 ==> hdr[bs[i].addr].next in hdr)
    ensures Linked(LinkAfter(hdr, bs[i].addr, b), InsertAfter(bs, i, b))
  {
    HeaderAt(hdr, bs, i);
    if i + 1 < |bs| { HeaderAt(hdr, bs, i + 1); }
    var p, h := InsertAfter(bs, i, b), LinkAfter(hdr, bs[i].addr, b);
    hide InsertAfter;
    InsertHeaders(bs, i, b, 0);
    forall k | 0 <= k < |p| ensures p[k].addr in h && h[p[k].addr] == HeaderOf(p, k) {
      InsertHeaders(bs, i, b, k);
      if k <= i { HeaderAt(hdr, bs, k); }
      if k > i + 1 { HeaderAt(hdr, bs, k - 1); }
    }
  }

  /** The headers after `TakeBlock`. */
  function Taken(hdr: map<nat, Header>, current: nat, size: nat): map<nat, Header>
    requires current in hdr && hdr[current].size >= size
    requires hdr[current].next != 0 ==> hdr[current].next in hdr
  {
    var h := hdr[current];
    var used := hdr[current := h.(free := false, size := size)];
    if h.size - size >= BLOCK_SIZE then
      LinkAfter(used, current, Blk(h.ptr + size, h.size - size - BLOCK_SIZE, true))
    else used
  }

  lemma TakeLinked(hdr: map<nat, Header>, bs: seq<Blk>, i: nat, size: nat)
    requires Linked(hdr, bs) && Ordered(bs) && i < |bs| && size <= bs[i].size
    requires forall j :: 0 <= j < |bs| ==> bs[j].addr > 0
    ensures bs[i].addr in hdr && hdr[bs[i].addr] == HeaderOf(bs, i)
    ensures hdr[bs[i].addr].next != 0 ==> hdr[bs[i].addr].next in hdr && hdr[bs[i].addr].next != bs[i].addr
    ensures Linked(Taken(hdr, bs[i].addr, size), Place(bs, i, size))
  {
    HeaderAt(hdr, bs, i);
    if i + 1 < |bs| { HeaderAt(hdr, bs, i + 1); }
    UpdateLinked(hdr, bs, i, size, false);
    Increasing(bs);
    if bs[i].size - size >= BLOCK_SIZE { SplitLinked(hdr, bs, i, size); }
  }

  /** The remainder of a split block starts where no other block does. */
  lemma RestApart(bs: seq<Blk>, i: nat, size: nat)
    requires Ordered(bs) && i < |bs| && size + BLOCK_SIZE <= bs[i].size
    ensures forall j, k :: 0 <= j < k < |bs| ==> bs[j].addr < bs[k].addr
    ensures forall j :: 0 <= j < |bs| ==> bs[j].addr != Blk(bs[i].addr, size, false).End()
  {
    Increasing(bs);
    assert forall k :: i < k < |bs| ==> bs[i].End() <= bs[k].addr;
  }

  lemma SplitLinked(hdr: map<nat, Header>, bs: seq<Blk>, i: nat, size: nat)
    requires Linked(hdr, bs) && Ordered(bs) && i < |bs| && size + BLOCK_SIZE <= bs[i].size
    requires forall j :: 0 <= j < |bs| ==> bs[j].addr > 0
    requires bs[i].addr in hdr && hdr[bs[i].addr] == HeaderOf(bs, i)
    requires hdr[bs[i].addr].next != 0 ==> hdr[bs[i].addr].next in hdr && hdr[bs[i].addr].next != bs[i].addr
    ensures Linked(Taken(hdr, bs[i].addr, size), Place(bs, i, size))
  {
    hide Ordered, Linked, HeaderOf, InsertAfter, Place;
    UpdateLinked(hdr, bs, i, size, false);
    RestApart(bs, i, size);
    PlaceInserts(bs, i, size);
    var used := Blk(bs[i].addr, size, false);
    var rest := Blk(used.End(), bs[i].size - size - BLOCK_SIZE, true);
    var bs1 := bs[i := used];
    assert forall k :: 0 <= k < |bs1| ==> bs1[k].addr == bs[k].addr;
    InsertLinked(hdr[bs[i].addr := hdr[bs[i].addr].(free := false, size := size)], bs1, i, rest);
    TakenSplits(hdr, bs, i, size);
  }

  lemma PlaceInserts(bs: seq<Blk>, i: nat, size: nat)
    requires i < |bs| && size + BLOCK_SIZE <= bs[i].size
    ensures var used := Blk(bs[i].addr, size, false);
            Place(bs, i, size) == InsertAfter(bs[i := used], i, Blk(used.End(), bs[i].size - size - BLOCK_SIZE, true))
  {
  }

  lemma TakenSplits(hdr: map<nat, Header>, bs: seq<Blk>, i: nat, size: nat)
    requires i < |bs| && size + BLOCK_SIZE <= bs[i].size && bs[i].addr in hdr && hdr[bs[i].addr] == HeaderOf(bs, i)
    requires hdr[bs[i].addr].next != 0 ==> hdr[bs[i].addr].next in hdr
    ensures var used := Blk(bs[i].addr, size, false);
            Taken(hdr, bs[i].addr, size) ==
            LinkAfter(hdr[bs[i].addr := hdr[bs[i].addr].(free := false, size := size)], bs[i].addr,
                      Blk(used.End(), bs[i].size - size - BLOCK_SIZE, true))
  {
  }

  /** The headers after `Absorb`. */
  function Absorbed(hdr: map<nat, Header>, a: nat, b: nat): map<nat, Header>
    requires a in hdr && b in hdr && hdr[a].ptr <= hdr[b].ptr
    requires hdr[b].next != 0 ==> hdr[b].next in hdr
  {
    var next := hdr[b].next;
    var h := hdr[a := hdr[a].(next := next, size := hdr[b].ptr - hdr[a].ptr + hdr[b].size)];
    if next != 0 then h[next := h[next].(prev := a)] else h
  }

  lemma MergeHeaders(bs: seq<Blk>, i: nat, k: nat)
    requires i + 1 < |bs| && k < |bs| - 1 && bs[i].free && bs[i].addr <= bs[i + 1].addr
    ensures var p := MergeAt(bs, i);
            && |p| == |bs| - 1
            && (k < i ==> p[k] == bs[k] && HeaderOf(p, k) == HeaderOf(bs, k))
            && (k == i ==> p[k].addr == bs[k].addr && HeaderOf(p, k) == HeaderOf(bs, k).(
                             next := HeaderOf(bs, i + 1).next, size := bs[i + 1].addr - bs[i].addr + bs[i + 1].size))
            && (k == i + 1 ==> p[k] == bs[k + 1] && HeaderOf(p, k) == HeaderOf(bs, k + 1).(prev := bs[i].addr))
            && (k > i + 1 ==> p[k] == bs[k + 1] && HeaderOf(p, k) == HeaderOf(bs, k + 1))
  {
  }

  lemma MergeReady(hdr: map<nat, Header>, bs: seq<Blk>, i: nat)
    requires Linked(hdr, bs) && Ordered(bs) && i + 1 < |bs| && bs[i].free
    requires forall j :: 0 <= j < |bs| ==> bs[j].addr > 0
    ensures var a, b := bs[i].addr, bs[i + 1].addr;
            && a in hdr && b in hdr && a < b && hdr[a] == HeaderOf(bs, i) && hdr[b] == HeaderOf(bs, i + 1)
            && (hdr[b].next != 0 ==> hdr[b].next in hdr && hdr[b].next != a && hdr[b].next != b)
    ensures forall j, k :: 0 <= j < k < |bs| ==> bs[j].addr < bs[k].addr
  {
    Increasing(bs);
    hide Ordered;
    HeaderAt(hdr, bs, i);
    HeaderAt(hdr, bs, i + 1);
    if i + 2 < |bs| { HeaderAt(hdr, bs, i + 2); }
  }

  lemma MergeLinked(hdr: map<nat, Header>, bs: seq<Blk>, i: nat)
    requires Linked(hdr, bs) && Ordered(bs) && i + 1 < |bs| && bs[i].free
    requires forall j :: 0 <= j < |bs| ==> bs[j].addr > 0
    ensures var a, b := bs[i].addr, bs[i + 1].addr;
            && a in hdr && b in hdr && a != b && hdr[a].ptr <= hdr[b].ptr
            && (hdr[b].next != 0 ==> hdr[b].next in hdr && hdr[b].next != a && hdr[b].next != b)
            && Linked(Absorbed(hdr, a, b), MergeAt(bs, i))
  {
    hide Ordered, MergeAt;
    MergeReady(hdr, bs, i);
    var p, h := MergeAt(bs, i), Absorbed(hdr, bs[i].addr, bs[i + 1].addr);
    MergeHeaders(bs, i, 0);
    forall k | 0 <= k < |p| ensures p[k].addr in h && h[p[k].addr] == HeaderOf(p, k) {
      MergeHeaders(bs, i, k);
      HeaderAt(hdr, bs, if k <= i then k else k + 1);
    }
  }
}
