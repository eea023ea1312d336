/** Files of PintOS/src/filesys/inode.c over the buffer cache and the free map. Single-threaded, with
    every allocation assumed to succeed (the code ignores failures) and files of at most 1290 sectors. */
module InodeFiles {
  import opened Prelude
  import opened BufferCache
  import opened InodeLayout
  import Bitmaps

  ghost function FreeSet(bits: seq<bool>): set<nat> { set s: nat | 0 <= s < |bits| && !bits[s] }

  ghost function FreeBelow(bits: seq<bool>, s: nat): set<nat> { set t | t in FreeSet(bits) && t < s }

  /** A sector taken by first fit is among the first free ones, as many as were taken. */
  lemma LowAcquired(b0: seq<bool>, b1: seq<bool>, s: nat)
    requires TakesLowest(b0, b1) && s < |b0| && !b0[s] && b1[s]
    ensures |FreeBelow(b0, s)| < |FreeSet(b0)| - |FreeSet(b1)|
  {
    var taken := FreeSet(b0) - FreeSet(b1);
    assert FreeSet(b1) <= FreeSet(b0);
    assert FreeSet(b0) == FreeSet(b1) + taken;
    assert FreeBelow(b0, s) + {s} <= taken;
    SubsetSize(FreeBelow(b0, s) + {s}, taken);
  }

  /** A sector still free has lost exactly the sectors taken from below it. */
  lemma RankShift(b0: seq<bool>, b1: seq<bool>, s: nat)
    requires TakesLowest(b0, b1) && s < |b0| && !b1[s]
    ensures |FreeBelow(b0, s)| == |FreeSet(b0)| - |FreeSet(b1)| + |FreeBelow(b1, s)|
  {
    var taken := FreeSet(b0) - FreeSet(b1);
    assert FreeSet(b0) == FreeSet(b1) + taken && FreeSet(b1) !! taken;
    assert FreeBelow(b0, s) == taken + FreeBelow(b1, s) && taken !! FreeBelow(b1, s);
  }

  lemma LowestRank(b: seq<bool>, s: nat)
    requires s < |b| && !b[s] && TakesLowest(b, b[s := true])
    ensures |FreeBelow(b, s)| == 0
  {
    assert FreeBelow(b, s) == {};
  }

  /** How many free sectors growth from `n` data sectors on takes before data sector `i`. */
  function Rank(n: nat, i: nat): int { i - n + IndexCount(i + 1) - IndexCount(n) }

  /** And before index block `j`, which is taken just before its first data sector. */
  function IndexRank(n: nat, j: nat): int { DIRECT + PTRS * j - n + j - IndexCount(n) }

  /** Sector `s` was free, with `rank` free sectors below it. */
  ghost predicate FreeAt(bits: seq<bool>, s: nat, rank: int) { s < |bits| && !bits[s] && |FreeBelow(bits, s)| == rank }

  /** First fit decides before the growth which free sector becomes which data sector and which index block. */
  ghost predicate FirstFit(f0: FileMap, f1: FileMap, b0: seq<bool>, b1: seq<bool>) {
    && TakesLowest(b0, b1) && f0.data <= f1.data && f0.index <= f1.index
    && |f0.index| == IndexCount(|f0.data|) && |f1.index| == IndexCount(|f1.data|)
    && |FreeSet(b0)| - |FreeSet(b1)| == Needed(|f0.data|, |f1.data|)
    && (forall i :: |f0.data| <= i < |f1.data| ==> FreeAt(b0, f1.data[i], Rank(|f0.data|, i)))
    && (forall j :: |f0.index| <= j < |f1.index| ==> FreeAt(b0, f1.index[j], IndexRank(|f0.data|, j)))
  }

  lemma FirstFitNone(f: FileMap, b: seq<bool>)
    requires |f.index| == IndexCount(|f.data|)
    ensures FirstFit(f, f, b, b)
  {
    TakesNothing(b);
  }

  lemma FreeAtShift(b0: seq<bool>, b1: seq<bool>, s: nat, rank: int)
    requires TakesLowest(b0, b1) && FreeAt(b1, s, rank)
    ensures FreeAt(b0, s, rank + |FreeSet(b0)| - |FreeSet(b1)|)
  {
    RankShift(b0, b1, s);
  }

  lemma FirstFitTrans(f0: FileMap, f1: FileMap, f2: FileMap, b0: seq<bool>, b1: seq<bool>, b2: seq<bool>)
    requires FirstFit(f0, f1, b0, b1) && FirstFit(f1, f2, b1, b2)
    ensures FirstFit(f0, f2, b0, b2)
  {
    hide TakesLowest, FreeSet, FreeAt, IndexCount;
    TakesLowestTrans(b0, b1, b2);
    forall i | |f0.data| <= i < |f2.data| ensures FreeAt(b0, f2.data[i], Rank(|f0.data|, i)) {
      if i < |f1.data| {
        assert f2.data[i] == f1.data[i];
      } else {
        FreeAtShift(b0, b1, f2.data[i], Rank(|f1.data|, i));
      }
    }
    forall j | |f0.index| <= j < |f2.index| ensures FreeAt(b0, f2.index[j], IndexRank(|f0.data|, j)) {
      if j < |f1.index| {
        assert f2.index[j] == f1.index[j];
      } else {
        FreeAtShift(b0, b1, f2.index[j], IndexRank(|f1.data|, j));
      }
    }
  }

  lemma DirectFit(f: FileMap, b: seq<bool>, s: nat)
    requires |f.data| < DIRECT && |f.index| == IndexCount(|f.data|) && s < |b| && !b[s] && TakesLowest(b, b[s := true])
    ensures FirstFit(f, FileMap(f.data + [s], f.index), b, b[s := true])
  {
    LowestRank(b, s);
    TakeOne(b, s);
  }

  /** One index block's worth: the index block first if it is new, then the data sectors in order. */
  lemma IndirectFit(f: FileMap, f': FileMap, more: seq<nat>, ib: nat, b0: seq<bool>, b1: seq<bool>, b2: seq<bool>)
    requires DIRECT <= |f.data| && 0 < |more| && IndirectIdx(|f.data|) + |more| <= PTRS
    requires |f.index| == IndexCount(|f.data|) && f'.data == f.data + more
    requires f'.index == if IndirectIdx(|f.data|) == 0 then f.index + [ib] else f.index
    requires TakesLowest(b0, b1) && TakesLowest(b1, b2) && |FreeSet(b1)| - |FreeSet(b2)| == |more|
    requires ib < |b0| && if IndirectIdx(|f.data|) == 0 then !b0[ib] && b1 == b0[ib := true] else b1 == b0
    requires forall t :: 0 <= t < |more| ==> FreeAt(b1, more[t], t)
    ensures FirstFit(f, f', b0, b2)
  {
    hide TakesLowest, FreeSet, FreeAt;
    var n := |f.data|;
    IndexArithmetic(n, |more|);
    TakesLowestTrans(b0, b1, b2);
    if IndirectIdx(n) == 0 {
      TakeOne(b0, ib);
      IndexFit(b0, ib);
    }
    forall i | n <= i < |f'.data| ensures FreeAt(b0, f'.data[i], Rank(n, i)) {
      IndexArithmetic(n, i - n + 1);
      FreeAtShift(b0, b1, more[i - n], i - n);
    }
  }

  lemma IndexFit(b: seq<bool>, s: nat)
    requires s < |b| && !b[s] && TakesLowest(b, b[s := true])
    ensures FreeAt(b, s, 0)
  {
    LowestRank(b, s);
  }

  lemma TakesNothing(b: seq<bool>)
    ensures TakesLowest(b, b)
  {
  }

  lemma FirstFitTakes(f0: FileMap, f1: FileMap, b0: seq<bool>, b1: seq<bool>)
    requires FirstFit(f0, f1, b0, b1)
    ensures TakesLowest(b0, b1)
  {
  }

  lemma TakesMore(b0: seq<bool>, b1: seq<bool>)
    requires TakesLowest(b0, b1)
    ensures |b0| == |b1| && forall s :: 0 <= s < |b0| && b0[s] ==> b1[s]
  {
  }

  /** Growth into uncached sectors looks to readers as it does to the device. */
  lemma ViewExtends(cells: seq<Cell>, d0: seq<Sector>, d1: seq<Sector>, f0: FileMap, f1: FileMap, b0: seq<bool>,
                    b1: seq<bool>)
    requires Coherent(cells, d0) && Extends(f0, f1, b0, b1, d0, d1)
    requires forall i :: 0 <= i < |f1.index| ==> !Resident(cells, f1.index[i])
    requires forall i :: |f0.data| <= i < |f1.data| ==> !Resident(cells, f1.data[i])
    ensures Coherent(cells, d1) && Extends(f0, f1, b0, b1, Logical(cells, d0), Logical(cells, d1))
  {
    hide NoSharing;
    var l0, l1 := Logical(cells, d0), Logical(cells, d1);
    forall s | 0 <= s < |d0| && Resident(cells, s)
      ensures d1[s] == d0[s]
    {
      ResidentKept(cells, d0, d1, f0, f1, b0, b1, s);
    }
    forall i | 0 <= i < |cells| && cells[i].valid ensures Resident(cells, cells[i].sector) {
      ResidentMeans(cells, cells[i].sector);
      assert Holds(cells[i], cells[i].sector);
    }
    forall i | |f0.data| <= i < |f1.data|
      ensures l1[f1.data[i]] == ZeroSector()
    {
      assert !Resident(cells, f1.data[i]);
    }
  }

  lemma ResidentKept(cells: seq<Cell>, d0: seq<Sector>, d1: seq<Sector>, f0: FileMap, f1: FileMap, b0: seq<bool>,
                     b1: seq<bool>, s: nat)
    requires Extends(f0, f1, b0, b1, d0, d1) && s < |d0| && Resident(cells, s)
    requires forall i :: 0 <= i < |f1.index| ==> !Resident(cells, f1.index[i])
    requires forall i :: |f0.data| <= i < |f1.data| ==> !Resident(cells, f1.data[i])
    ensures d1[s] == d0[s]
  {
    hide NoSharing;
    forall i | |f0.data| <= i < |f1.data| ensures f1.data[i] != s { assert !Resident(cells, f1.data[i]); }
    assert s !in f1.data[|f0.data|..];
  }

  lemma NoneFree(bits: seq<bool>, idx: Option<nat>)
    requires Bitmaps.IsFirstRun(bits, 0, 1, false, idx)
    ensures idx.None? <==> |FreeSet(bits)| == 0
  {
    assert forall s: nat :: s in FreeSet(bits) <==> Bitmaps.Uniform(bits, s, 1, false);
    if idx.Some? { assert idx.value in FreeSet(bits); }
    if FreeSet(bits) != {} {
      var s :| s in FreeSet(bits);
      assert Bitmaps.Uniform(bits, s, 1, false);
    }
  }

  lemma FirstFree(bits: seq<bool>, idx: Option<nat>)
    requires Bitmaps.IsFirstRun(bits, 0, 1, false, idx) && |FreeSet(bits)| > 0
    ensures idx.Some? && idx.value < |bits| && !bits[idx.value]
    ensures Bitmaps.Filled(bits, idx.value, 1, true) == bits[idx.value := true]
    ensures TakesLowest(bits, bits[idx.value := true]) && |FreeSet(bits[idx.value := true])| == |FreeSet(bits)| - 1
  {
    var free :| free in FreeSet(bits);
    assert Bitmaps.Uniform(bits, free, 1, false);
    var s := idx.value;
    forall t | 0 <= t < s ensures bits[t] { assert !Bitmaps.Uniform(bits, t, 1, false); }
    TakeOne(bits, s);
  }

  lemma TakeOne(bits: seq<bool>, s: nat)
    requires s < |bits| && !bits[s]
    ensures |FreeSet(bits[s := true])| == |FreeSet(bits)| - 1
  {
    assert FreeSet(bits[s := true]) == FreeSet(bits) - {s};
  }

  /** The grown file is mapped again once its index block is on the device. */
  lemma RemapGrown(f: FileMap, ptrs: seq<nat>, s0: seq<Sector>, more: seq<nat>, ib: nat, f': FileMap, ptrs': seq<nat>,
                   block: seq<Ptr>, b0: seq<bool>, b1: seq<bool>, b2: seq<bool>, s2: seq<Sector>)
    requires Maps(f, ptrs, s0) && GrowsBy(f, ptrs, more, ib, f', ptrs') && NoSharing(f') && Marked(f, b0)
    requires BlockOf(block, f', (|f.data| - DIRECT) / PTRS) && ib < |s0| == |b0| == |b1|
    requires forall s :: 0 <= s < |b0| && b0[s] ==> b1[s]
    requires TookZeroed(more, b1, b2, s0, s2)
    ensures Maps(f', ptrs', s2[ib := EncodeBlock(block)])
  {
    hide EncodeBlock, PtrAt;
    assert forall i :: 0 <= i < |f.index| ==> f.index[i] < |b0| && f.index[i] !in more;
    MapIndirect(f, ptrs, s0, more, ib, f', ptrs', block, s2[ib := EncodeBlock(block)]);
  }

  /** One index block's worth of growth, on the device: the file is extended, and mapped again. */
  lemma IndirectGrown(f: FileMap, ptrs: seq<nat>, s0: seq<Sector>, more: seq<nat>, ib: nat, f': FileMap,
                      ptrs': seq<nat>, block: seq<Ptr>, b0: seq<bool>, b1: seq<bool>, b2: seq<bool>,
                      s2: seq<Sector>)
    requires Maps(f, ptrs, s0) && GrowsBy(f, ptrs, more, ib, f', ptrs') && NoSharing(f) && Marked(f, b0)
    requires ib < |b0| == |s0| && if IndirectIdx(|f.data|) == 0 then !b0[ib] && b1 == b0[ib := true] else b1 == b0
    requires TookZeroed(more, b1, b2, s0, s2) && |block| == PTRS
    requires forall t :: 0 <= t < |more| ==> block[IndirectIdx(|f.data|) + t] == more[t]
    requires forall t :: 0 <= t < IndirectIdx(|f.data|) ==> block[t] == f.data[|f.data| - IndirectIdx(|f.data|) + t]
    ensures ib < |s2| && Extends(f, f', b0, b2, s0, s2[ib := EncodeBlock(block)]) && NoSharing(f') && Marked(f', b2)
    ensures Maps(f', ptrs', s2[ib := EncodeBlock(block)])
  {
    hide Maps, NoSharing, Marked, Extends, EncodeBlock, BlockOf;
    ExtendIndirect(f, ptrs, more, ib, f', ptrs', b0, b1, b2, s0, s2, EncodeBlock(block));
    BlockFilled(f, more, f', block);
    RemapGrown(f, ptrs, s0, more, ib, f', ptrs', block, b0, b1, b2, s2);
  }

  /** The partly filled index block lists the last data sectors of the file. */
  lemma OpenBlock(f: FileMap, ptrs: seq<nat>, disk: seq<Sector>)
    requires Maps(f, ptrs, disk) && DIRECT <= |f.data| < MAX_SECTORS && IndirectIdx(|f.data|) > 0
    ensures DirectIdx(|f.data|) < |ptrs| && ptrs[DirectIdx(|f.data|)] < |disk|
    ensures forall t :: 0 <= t < IndirectIdx(|f.data|) ==>
              DecodeBlock(disk[ptrs[DirectIdx(|f.data|)]])[t] == f.data[|f.data| - IndirectIdx(|f.data|) + t]
  {
    hide PtrAt;
    var n := |f.data|;
    IndexArithmetic(n, 1);
    var j := (n - DIRECT) / PTRS;
    assert ptrs[DIRECT + j] == f.index[j];
    forall t | 0 <= t < IndirectIdx(n) ensures DecodeBlock(disk[f.index[j]])[t] == f.data[n - IndirectIdx(n) + t] {
      var i := n - IndirectIdx(n) + t;
      assert (i - DIRECT) / PTRS == j && (i - DIRECT) % PTRS == t;
    }
  }

  class Inode {
    const cache: Cache
    const freeMap: Bitmaps.Bitmap
    var length: nat
    var readLength: nat
    var directIdx: nat
    var indirectIdx: nat
    var ptrs: seq<nat>
    var denyWriteCnt: nat
    ghost var file: FileMap

    /** The cache and the free map are in order and cover the same device. */
    ghost predicate Device()
      reads cache, cache.cells
    {
      && cache.Sound() && freeMap.Valid() && freeMap.bitCnt == |cache.disk| <= 0x1_0000_0000
      && (cache.cells as object) != (freeMap.words as object)
    }

    /** No free sector is in the cache, so zeroing it on the device is seen by every reader. */
    ghost predicate NoStale()
      reads cache.cells, freeMap.words
    {
      freeMap.Valid() && forall s :: 0 <= s < freeMap.bitCnt && !freeMap.Bits()[s] ==> !cache.Holding(s)
    }

    /** None of the first `n` free sectors is in the cache: first fit will take these. */
    ghost predicate NoneCached(n: int)
      reads cache.cells, freeMap.words
    {
      && freeMap.Valid()
      && forall s :: 0 <= s < freeMap.bitCnt && !freeMap.Bits()[s] && |FreeBelow(freeMap.Bits(), s)| < n ==>
           !cache.Holding(s)
    }

    /** A file of `end` bytes is in the single-indirect range, and the sectors that it would take are there, uncached.
        */
    ghost predicate RoomFor(end: nat)
      reads this, cache.cells, freeMap.words
    {
      var n := SectorsFor(Max(length, end));
      && freeMap.Valid() && n <= MAX_SECTORS
      && Needed(|file.data|, n) <= |FreeSet(freeMap.Bits())| && NoneCached(Needed(|file.data|, n))
    }

    /** The pointers, the index blocks on the device and the free map agree on `file`. */
    ghost predicate OnDisk()
      reads this, cache, cache.cells, freeMap.words
    {
      && Device()
      && Maps(file, ptrs, cache.disk) && NoSharing(file) && Marked(file, freeMap.Bits())
      && directIdx == DirectIdx(|file.data|) && indirectIdx == IndirectIdx(|file.data|)
    }

    lemma DiskFacts()
      requires OnDisk()
      ensures Device() && Maps(file, ptrs, cache.disk) && NoSharing(file) && Marked(file, freeMap.Bits())
      ensures directIdx == DirectIdx(|file.data|) && indirectIdx == IndirectIdx(|file.data|)
      ensures |ptrs| == INODE_PTRS && |file.data| <= MAX_SECTORS && |file.index| == IndexCount(|file.data|)
    {
    }

    /** And index blocks are never cached. */
    ghost predicate Mapped()
      reads this, cache, cache.cells, freeMap.words
    {
      OnDisk() && cache.Valid() && forall i :: 0 <= i < |file.index| ==> !cache.Holding(file.index[i])
    }

    /** Between calls: as many sectors as the length needs, with zeros past the end. */
    ghost predicate Valid()
      reads this, cache, cache.cells, freeMap.words
    {
      && Mapped() && |file.data| == SectorsFor(length) && readLength == length
      && ZeroTail(file.data, cache.Contents(), length)
    }

    /** The bytes of the file. */
    ghost function Contents(): seq<Byte>
      requires Valid()
      reads this, cache, cache.cells, freeMap.words
    {
      Flat(file.data, cache.Contents(), length)
    }

    /** An empty file. */
    constructor (cache: Cache, freeMap: Bitmaps.Bitmap)
      requires cache.Valid() && freeMap.Valid() && freeMap.bitCnt == |cache.disk| <= 0x1_0000_0000
      requires (cache.cells as object) != (freeMap.words as object)
      ensures this.cache == cache && this.freeMap == freeMap
      ensures Valid() && Contents() == [] && file == FileMap([], []) && denyWriteCnt == 0
    {
      this.cache, this.freeMap := cache, freeMap;
      length, readLength, directIdx, indirectIdx, denyWriteCnt := 0, 0, 0, 0, 0;
      ptrs := seq(INODE_PTRS, _ => 0);
      file := FileMap([], []);
    }

    /** `free_map_allocate (1, ...)`: the first unmarked sector, or none if all are marked. */
    method FreeMapAllocate() returns (idx: Option<nat>)
      requires Device()
      modifies freeMap.words
      ensures idx.None? <==> |FreeSet(old(freeMap.Bits()))| == 0
      ensures idx.None? ==> freeMap.Bits() == old(freeMap.Bits())
      ensures idx.Some? ==>
        && idx.value < freeMap.bitCnt && !old(freeMap.Bits())[idx.value]
        && freeMap.Bits() == old(freeMap.Bits())[idx.value := true]
        && TakesLowest(old(freeMap.Bits()), freeMap.Bits())
        && |FreeSet(freeMap.Bits())| == |FreeSet(old(freeMap.Bits()))| - 1
    {
      hide Bitmaps.Unpack, Bitmaps.IsFirstRun, Bitmaps.Filled, Formed, FreeSet, TakesLowest;
      ghost var bits := freeMap.Bits();
      idx := freeMap.ScanAndFlip(0, 1, false);
      NoneFree(bits, idx);
      if idx.Some? { FirstFree(bits, idx); }
    }

    /** The same where its result is ignored, and a sector is assumed to be free. */
    method Allocate() returns (s: nat)
      requires Device() && |FreeSet(freeMap.Bits())| > 0
      modifies freeMap.words
      ensures s < freeMap.bitCnt && !old(freeMap.Bits())[s] && freeMap.Bits() == old(freeMap.Bits())[s := true]
      ensures TakesLowest(old(freeMap.Bits()), freeMap.Bits())
      ensures |FreeSet(freeMap.Bits())| == |FreeSet(old(freeMap.Bits()))| - 1
    {
      hide Bitmaps.Unpack, Formed, FreeSet, TakesLowest;
      var idx := FreeMapAllocate();
      s := idx.value;
    }

    /** Allocate a sector and zero it on the device. */
    method AllocateZeroed() returns (s: nat)
      requires Device() && |FreeSet(freeMap.Bits())| > 0
      modifies freeMap.words, cache`disk
      ensures Device()
      ensures s < freeMap.bitCnt && !old(freeMap.Bits())[s] && freeMap.Bits() == old(freeMap.Bits())[s := true]
      ensures |FreeSet(freeMap.Bits())| == |FreeSet(old(freeMap.Bits()))| - 1
      ensures cache.disk == old(cache.disk)[s := ZeroSector()] && TakesLowest(old(freeMap.Bits()), freeMap.Bits())
    {
      s := Allocate();
      cache.RawWrite(s, ZeroSector());
    }
  
    /** One round of `map_alloc`: a zeroed sector behind the next direct pointer. */
    method AddDirect()
      requires OnDisk() && directIdx < DIRECT && |FreeSet(freeMap.Bits())| > 0
      modifies this`ptrs, this`directIdx, this`file, freeMap.words, cache`disk
      ensures OnDisk()
      ensures |file.data| == old(|file.data|) + 1 <= DIRECT && file.index == old(file.index)
      ensures |FreeSet(freeMap.Bits())| == |FreeSet(old(freeMap.Bits()))| - 1
      ensures Extends(old(file), file, old(freeMap.Bits()), freeMap.Bits(), old(cache.disk), cache.disk)
      ensures FirstFit(old(file), file, old(freeMap.Bits()), freeMap.Bits())
    {
      hide Extends, Logical, Coherent, Formed, Bitmaps.Unpack, TakesLowest, FirstFit, Lookup;
      ghost var b1, s1 := freeMap.Bits(), cache.disk;
      var s := AllocateZeroed();
      ExtendDirect(file, b1, s1, s);
      MapDirect(file, ptrs, s1, s, cache.disk);
      DirectFit(file, b1, s);
      hide Maps, NoSharing, Marked;
      ptrs := ptrs[directIdx := s];
      directIdx := directIdx + 1;
      file := FileMap(file.data + [s], file.index);
    }

    /** `map_alloc`: fill the remaining direct pointers. */
    method MapAlloc(newSectors: nat) returns (left: nat)
      requires OnDisk() && 0 < newSectors <= |FreeSet(freeMap.Bits())|
      modifies this`ptrs, this`directIdx, this`file, freeMap.words, cache`disk
      ensures OnDisk() && left <= newSectors
      ensures |file.data| == old(|file.data|) + newSectors - left && file.index == old(file.index)
      ensures |FreeSet(freeMap.Bits())| == |FreeSet(old(freeMap.Bits()))| - (newSectors - left)
      ensures left > 0 ==> |file.data| >= DIRECT
      ensures left < newSectors ==> |file.data| <= DIRECT
      ensures Extends(old(file), file, old(freeMap.Bits()), freeMap.Bits(), old(cache.disk), cache.disk)
      ensures FirstFit(old(file), file, old(freeMap.Bits()), freeMap.Bits())
    {
      hide Extends, Maps, NoSharing, Marked, Logical, Coherent, Formed, Bitmaps.Unpack, FreeSet, FirstFit, Lookup;
      DiskFacts();
      ghost var f0, b0, s0 := file, freeMap.Bits(), cache.disk;
      ExtendsRefl(f0, b0, s0);
      FirstFitNone(f0, b0);
      left := newSectors;
      while directIdx < DIRECT && left > 0
        invariant OnDisk() && left <= newSectors <= |FreeSet(b0)|
        invariant |file.data| == |f0.data| + newSectors - left && file.index == f0.index
        invariant |FreeSet(freeMap.Bits())| == |FreeSet(b0)| - (newSectors - left)
        invariant left < newSectors ==> |file.data| <= DIRECT
        invariant Extends(f0, file, b0, freeMap.Bits(), s0, cache.disk) && FirstFit(f0, file, b0, freeMap.Bits())
      {
        ghost var f1, b1, s1 := file, freeMap.Bits(), cache.disk;
        AddDirect();
        left := left - 1;
        ExtendsTrans(f0, f1, file, b0, b1, freeMap.Bits(), s0, s1, cache.disk);
        FirstFitTrans(f0, f1, file, b0, b1, freeMap.Bits());
      }
    }
  
    /** The loop of `inode_grow_indirect_block`: `want` zeroed sectors into `block`, from entry `k` on. */
    method FillBlock(block0: seq<Ptr>, k: nat, want: nat) returns (block: seq<Ptr>, ghost more: seq<nat>)
      requires Device() && |block0| == PTRS && k + want <= PTRS && want <= |FreeSet(freeMap.Bits())|
      modifies freeMap.words, cache`disk
      ensures Device() && |more| == want && |block| == PTRS
      ensures TookZeroed(more, old(freeMap.Bits()), freeMap.Bits(), old(cache.disk), cache.disk)
      ensures TakesLowest(old(freeMap.Bits()), freeMap.Bits())
      ensures forall t :: 0 <= t < want ==> FreeAt(old(freeMap.Bits()), more[t], t)
      ensures forall t :: 0 <= t < want ==> block[k + t] == more[t]
      ensures forall t :: 0 <= t < k ==> block[t] == block0[t]
      ensures |FreeSet(freeMap.Bits())| == |FreeSet(old(freeMap.Bits()))| - want
    {
      hide Logical, Coherent, Formed, Bitmaps.Unpack, FreeSet, FreeAt, TakesLowest, Lookup;
      ghost var b0, s0 := freeMap.Bits(), cache.disk;
      TakesNothing(b0);
      block, more := block0, [];
      var i := k;
      while i < k + want
        invariant k <= i <= k + want && |more| == i - k && |block| == PTRS
        invariant Device()
        invariant TookZeroed(more, b0, freeMap.Bits(), s0, cache.disk) && TakesLowest(b0, freeMap.Bits())
        invariant forall t :: 0 <= t < i - k ==> FreeAt(b0, more[t], t)
        invariant forall t :: 0 <= t < i - k ==> block[k + t] == more[t]
        invariant forall t :: 0 <= t < k ==> block[t] == block0[t]
        invariant |FreeSet(freeMap.Bits())| == |FreeSet(b0)| - (i - k)
      {
        ghost var b1, s1 := freeMap.Bits(), cache.disk;
        var s := AllocateZeroed();
        TookOneMore(more, b0, b1, s0, s1, s);
        TakesLowestTrans(b0, b1, freeMap.Bits());
        IndexFit(b1, s);
        FreeAtShift(b0, b1, s, 0);
        block := block[i := s];
        more := more + [s];
        i := i + 1;
      }
    }

    /** The number of sectors one call of `inode_grow_indirect_block` maps. */
    function Room(newSectors: nat): nat
      reads this
    {
      if newSectors < PTRS - indirectIdx then newSectors else if indirectIdx <= PTRS then PTRS - indirectIdx else 0
    }

    /** `inode_grow_indirect_block`, but for the position of the next sector. */
    method FillIndexBlock(want: nat)
      requires OnDisk() && DIRECT <= |file.data| < MAX_SECTORS && 0 < want && indirectIdx + want <= PTRS
      requires want + (if indirectIdx == 0 then 1 else 0) <= |FreeSet(freeMap.Bits())|
      modifies this`ptrs, this`file, freeMap.words, cache`disk
      ensures Device() && Maps(file, ptrs, cache.disk) && NoSharing(file) && Marked(file, freeMap.Bits())
      ensures |file.data| == old(|file.data|) + want
      ensures |FreeSet(freeMap.Bits())| == |FreeSet(old(freeMap.Bits()))| - want - (if indirectIdx == 0 then 1 else 0)
      ensures Extends(old(file), file, old(freeMap.Bits()), freeMap.Bits(), old(cache.disk), cache.disk)
      ensures FirstFit(old(file), file, old(freeMap.Bits()), freeMap.Bits())
    {
      hide Logical, Coherent, Formed, Bitmaps.Unpack, FreeSet, Extends, Maps, NoSharing, Marked, TookZeroed,
          EncodeBlock;
      hide TakesLowest, FirstFit, FreeAt, Lookup, IndexCount;
      DiskFacts();
      ghost var f0, p0, b0, s0 := file, ptrs, freeMap.Bits(), cache.disk;
      IndexArithmetic(|f0.data|, want);
      var ib, block := OpenIndexBlock();
      ghost var b1 := freeMap.Bits();
      ghost var more;
      block, more := FillBlock(block, indirectIdx, want);
      ghost var b2, s2 := freeMap.Bits(), cache.disk;
      ghost var f' := FileMap(f0.data + more, if indirectIdx == 0 then f0.index + [ib] else f0.index);
      IndirectGrown(f0, p0, s0, more, ib, f', ptrs, block, b0, b1, b2, s2);
      IndirectFit(f0, f', more, ib, b0, b1, b2);
      cache.RawWrite(ib, EncodeBlock(block));
      file := f';
    }

    /** `inode_grow_indirect_block` */
    method GrowIndirectBlock(newSectors: nat) returns (left: nat)
      requires OnDisk() && 0 < newSectors && DIRECT <= |file.data| < MAX_SECTORS
      requires Room(newSectors) + (if indirectIdx == 0 then 1 else 0) <= |FreeSet(freeMap.Bits())|
      modifies this`ptrs, this`directIdx, this`indirectIdx, this`file, freeMap.words, cache`disk
      ensures OnDisk() && left == newSectors - old(Room(newSectors))
      ensures |file.data| == old(|file.data|) + old(Room(newSectors))
      ensures |FreeSet(freeMap.Bits())| ==
              |FreeSet(old(freeMap.Bits()))| - old(Room(newSectors) + (if indirectIdx == 0 then 1 else 0))
      ensures Extends(old(file), file, old(freeMap.Bits()), freeMap.Bits(), old(cache.disk), cache.disk)
      ensures FirstFit(old(file), file, old(freeMap.Bits()), freeMap.Bits())
    {
      hide Logical, Coherent, Formed, Bitmaps.Unpack, FreeSet, Extends, Maps, NoSharing, Marked, FirstFit, Lookup;
      var want := Room(newSectors);
      NextPosition(|file.data|, want);
      FillIndexBlock(want);
      left := newSectors - want;
      indirectIdx := indirectIdx + want;
      if indirectIdx == PTRS {
        indirectIdx := 0;
        directIdx := directIdx + 1;
      }
    }

    /** The start of `inode_grow_indirect_block`: a new index block, or the partly filled one. */
    method OpenIndexBlock() returns (ib: nat, block: seq<Ptr>)
      requires OnDisk() && DIRECT <= |file.data| < MAX_SECTORS && |FreeSet(freeMap.Bits())| > 0
      modifies this`ptrs, freeMap.words
      ensures Device() && |block| == PTRS && ib < freeMap.bitCnt && TakesLowest(old(freeMap.Bits()), freeMap.Bits())
      ensures if indirectIdx == 0 then
                && !old(freeMap.Bits())[ib] && freeMap.Bits() == old(freeMap.Bits())[ib := true]
                && ptrs == old(ptrs)[directIdx := ib]
                && |FreeSet(freeMap.Bits())| == |FreeSet(old(freeMap.Bits()))| - 1
              else
                && freeMap.Bits() == old(freeMap.Bits()) && ptrs == old(ptrs) && ib == ptrs[directIdx]
                && forall t :: 0 <= t < indirectIdx ==> block[t] == file.data[|file.data| - indirectIdx + t]
    {
      hide FreeSet, Bitmaps.Unpack, Coherent, Formed, Maps, NoSharing, Marked, TakesLowest, Lookup, DecodeBlock;
      DiskFacts();
      IndexArithmetic(|file.data|, 1);
      if indirectIdx == 0 {
        ib := Allocate();
        ptrs := ptrs[directIdx := ib];
        block := ArbitraryBlock();
      } else {
        TakesNothing(freeMap.Bits());
        OpenBlock(file, ptrs, cache.disk);
        ib := ptrs[directIdx];
        block := DecodeBlock(cache.disk[ib]);
      }
    }

    /** The local variable of a new index block: its memory holds anything. */
    method ArbitraryBlock() returns (block: seq<Ptr>)
      ensures |block| == PTRS
    {
      assert |DecodeBlock(ZeroSector())| == PTRS;
      block :| |block| == PTRS;
    }

    /** `inode_grow`, within the single-indirect range. */
    method Grow(newLength: nat) returns (r: nat)
      requires OnDisk() && |file.data| == SectorsFor(length)
      requires length <= newLength && SectorsFor(newLength) <= MAX_SECTORS
      requires Needed(|file.data|, SectorsFor(newLength)) <= |FreeSet(freeMap.Bits())|
      modifies this`ptrs, this`directIdx, this`indirectIdx, this`file, freeMap.words, cache`disk
      ensures OnDisk() && r == newLength && |file.data| == SectorsFor(newLength)
      ensures |FreeSet(freeMap.Bits())| == |FreeSet(old(freeMap.Bits()))| - Needed(old(|file.data|), |file.data|)
      ensures Extends(old(file), file, old(freeMap.Bits()), freeMap.Bits(), old(cache.disk), cache.disk)
      ensures FirstFit(old(file), file, old(freeMap.Bits()), freeMap.Bits())
    {
      hide OnDisk, Extends, Maps, NoSharing, Marked, Logical, Coherent, Formed, Bitmaps.Unpack, FreeSet, FirstFit,
          Lookup;
      DiskFacts();
      ghost var f0, b0, s0 := file, freeMap.Bits(), cache.disk;
      ghost var goal := SectorsFor(newLength);
      ExtendsRefl(f0, b0, s0);
      FirstFitNone(f0, b0);
      IndexCountMonotone(|f0.data|, goal);
      var newSectors := SectorsFor(newLength) - SectorsFor(length);
      if newSectors == 0 { return newLength; }
      newSectors := MapAlloc(newSectors);
      DiskFacts();
      while newSectors > 0
        invariant OnDisk() && 0 <= newSectors && |file.data| + newSectors == goal <= MAX_SECTORS
        invariant newSectors > 0 ==> DIRECT <= |file.data|
        invariant |FreeSet(freeMap.Bits())| == |FreeSet(b0)| - Needed(|f0.data|, |file.data|)
        invariant Extends(f0, file, b0, freeMap.Bits(), s0, cache.disk) && FirstFit(f0, file, b0, freeMap.Bits())
        decreases newSectors
      {
        ghost var f1, b1, s1 := file, freeMap.Bits(), cache.disk;
        DiskFacts();
        ghost var want := Room(newSectors);
        IndexArithmetic(|f1.data|, want);
        IndexCountMonotone(|f1.data| + want, goal);
        newSectors := GrowIndirectBlock(newSectors);
        ExtendsTrans(f0, f1, file, b0, b1, freeMap.Bits(), s0, s1, cache.disk);
        FirstFitTrans(f0, f1, file, b0, b1, freeMap.Bits());
      }
      return newLength;
    }
  
    /** `free_map_release (s, 1)`, which insists that the sector is marked. */
    method Release(s: nat)
      requires Device() && s < freeMap.bitCnt && freeMap.Bits()[s]
      modifies freeMap.words
      ensures freeMap.Bits() == old(freeMap.Bits())[s := false]
    {
      ghost var bits := freeMap.Bits();
      var unmarked := freeMap.Contains(s, 1, false);
      assert !unmarked;
      freeMap.SetMultiple(s, 1, false);
      assert Bitmaps.Filled(bits, s, 1, false) == bits[s := false];
    }

    /** Of the marks `b0`, the first `d` data sectors and the first `m` index sectors are gone. */
    ghost predicate Dropped(b0: seq<bool>, d: nat, m: nat)
      requires freeMap.Valid()
      reads this, freeMap.words
    {
      && d <= |file.data| && m <= |file.index| && |b0| == freeMap.bitCnt
      && forall s :: 0 <= s < |b0| ==> (freeMap.Bits()[s] <==> b0[s] && s !in file.data[..d] && s !in file.index[..m])
    }

    /** Everything about the file but its marks; releasing sectors does not disturb it. */
    ghost predicate Readable(b0: seq<bool>)
      reads this, cache, cache.cells
    {
      Device() && Maps(file, ptrs, cache.disk) && NoSharing(file) && Marked(file, b0)
    }

    method ReleaseData(ghost b0: seq<bool>, ghost d: nat, ghost m: nat, s: nat)
      requires Readable(b0) && Dropped(b0, d, m) && d < |file.data| && s == file.data[d]
      modifies freeMap.words
      ensures Readable(b0) && Dropped(b0, d + 1, m)
    {
      hide Maps, Logical, Coherent, Bitmaps.Unpack;
      assert s !in file.data[..d] && s !in file.index[..m];
      Release(s);
      assert file.data[..d + 1] == file.data[..d] + [s];
    }

    method ReleaseIndex(ghost b0: seq<bool>, ghost d: nat, ghost m: nat, s: nat)
      requires Readable(b0) && Dropped(b0, d, m) && m < |file.index| && s == file.index[m]
      modifies freeMap.words
      ensures Readable(b0) && Dropped(b0, d, m + 1)
    {
      hide Maps, Logical, Coherent, Bitmaps.Unpack;
      assert s !in file.data[..d] && s !in file.index[..m];
      Release(s);
      assert file.index[..m + 1] == file.index[..m] + [s];
    }

    /** `block_read` of an index block, past the cache. */
    method ReadIndexBlock(m: nat, ghost b0: seq<bool>) returns (block: seq<Ptr>)
      requires Readable(b0) && m < |file.index|
      ensures file.index[m] < |cache.disk| && block == DecodeBlock(cache.disk[file.index[m]])
    {
      MapsIndex(file, ptrs, cache.disk, m);
      block := DecodeBlock(cache.disk[ptrs[DIRECT + m]]);
    }

    /** `inode_deallocate_indirect_block` */
    method DeallocateIndirectBlock(ghost b0: seq<bool>, m: nat, dataPtrs: nat)
      requires Readable(b0) && m < |file.index| && dataPtrs <= PTRS && DIRECT + PTRS * m + dataPtrs <= |file.data|
      requires Dropped(b0, DIRECT + PTRS * m, m)
      modifies freeMap.words
      ensures Readable(b0) && Dropped(b0, DIRECT + PTRS * m + dataPtrs, m + 1)
    {
      hide Maps, Logical, Coherent, Bitmaps.Unpack, NoSharing, Marked, PtrAt, DecodeBlock, View;
      MapsIndex(file, ptrs, cache.disk, m);
      var block := ReadIndexBlock(m, b0);
      BlockListsData(file, ptrs, cache.disk, m, dataPtrs);
      var i := 0;
      while i < dataPtrs
        invariant i <= dataPtrs && Readable(b0) && Dropped(b0, DIRECT + PTRS * m + i, m)
      {
        ReleaseData(b0, DIRECT + PTRS * m + i, m, block[i]);
        i := i + 1;
      }
      ReleaseIndex(b0, DIRECT + PTRS * m + dataPtrs, m, ptrs[DIRECT + m]);
    }

    /** `inode_deallocate`, within the single-indirect range: every sector of the file is released
        once, while it is marked, and no other sector is. */
    method Deallocate()
      requires OnDisk() && |file.data| == SectorsFor(length)
      modifies freeMap.words
      ensures Device() && Releases(file, old(freeMap.Bits()), freeMap.Bits())
    {
      hide Logical, Coherent, Bitmaps.Unpack, NoSharing, Marked, PtrAt, ByteAt;
      ghost var b0 := freeMap.Bits();
      var dataSectors := SectorsFor(length);
      var indirectSectors := if length <= SECTOR_SIZE * DIRECT then 0
                             else (length - SECTOR_SIZE * DIRECT + SECTOR_SIZE * PTRS - 1) / (SECTOR_SIZE * PTRS);
      IndexCountOfLength(length);
      ghost var n := dataSectors;
      var idx := 0;
      assert file.data[..0] == [] && file.index[..0] == [];
      while dataSectors > 0 && idx < DIRECT
        invariant 0 <= dataSectors && idx <= DIRECT && idx + dataSectors == n == |file.data|
        invariant Readable(b0) && Dropped(b0, idx, 0)
      {
        ReleaseData(b0, idx, 0, ptrs[idx]);
        dataSectors := dataSectors - 1;
        idx := idx + 1;
      }
      assert indirectSectors > 0 ==> idx == DIRECT;
      while indirectSectors > 0 && idx < DIRECT + DIRECT
        invariant 0 <= indirectSectors <= |file.index| && 0 <= dataSectors <= n == |file.data| && Readable(b0)
        invariant |file.index| == 0 ==> indirectSectors == 0 && idx == n
        invariant |file.index| > 0 ==> DIRECT <= idx && idx - DIRECT + indirectSectors == |file.index|
        invariant Dropped(b0, n - dataSectors, |file.index| - indirectSectors)
        invariant indirectSectors > 0 ==> n - dataSectors == DIRECT + PTRS * (idx - DIRECT)
        invariant indirectSectors == 0 ==> dataSectors == 0
      {
        var dataPtrs := if dataSectors < PTRS then dataSectors else PTRS;
        LastBlock(n, idx - DIRECT);
        DeallocateIndirectBlock(b0, idx - DIRECT, dataPtrs);
        dataSectors := dataSectors - dataPtrs;
        indirectSectors := indirectSectors - 1;
        idx := idx + 1;
      }
      MapsSizes(file, ptrs, cache.disk);
      assert file.data[..|file.data|] == file.data && file.index[..|file.index|] == file.index;
    }

    /** `byte_to_sector`, reading index blocks from the device. */
    method ByteToSector(pos: nat) returns (s: nat)
      requires OnDisk() && pos / SECTOR_SIZE < |file.data|
      ensures s == file.data[pos / SECTOR_SIZE]
    {
      SectorOfIsData(file, ptrs, cache.disk, pos);
      var index := pos / SECTOR_SIZE;
      if index < DIRECT { return ptrs[index]; }
      var rest := pos - SECTOR_SIZE * DIRECT;
      var ib := ptrs[DIRECT + rest / (SECTOR_SIZE * PTRS)];
      assert ib == file.index[(index - DIRECT) / PTRS];
      return PtrAt(cache.disk[ib], rest % (SECTOR_SIZE * PTRS) / SECTOR_SIZE);
    }

    /** `inode_read_at` */
    method ReadAt(size: nat, offset: nat) returns (bytes: seq<Byte>)
      requires Valid()
      modifies cache, cache.cells
      ensures Valid() && Contents() == old(Contents()) && cache.Contents() == old(cache.Contents())
      ensures bytes == if offset >= length then [] else Contents()[offset..Min(offset + size, length)]
      ensures forall t: nat :: cache.Holding(t) ==> old(cache.Holding(t)) || t in file.data
    {
      hide Maps, Logical, Coherent, Bitmaps.Unpack, NoSharing, Marked, ByteAt, Flat;
      bytes := [];
      if offset >= readLength { return; }
      ghost var flat := Contents();
      var left, at := size, offset;
      while left > 0
        invariant Valid() && cache.Contents() == old(cache.Contents())
        invariant forall t: nat :: cache.Holding(t) ==> old(cache.Holding(t)) || t in file.data
        invariant offset <= at <= length && at - offset + left == size
        invariant bytes == flat[offset..at]
        decreases left
      {
        if at == length { break; }
        var chunk := Chunk(left, at, length);
        FlatSlice(file.data, cache.Contents(), length, at, chunk);
        var s := ByteToSector(at);
        var part := CachedRead(s, at % SECTOR_SIZE, chunk);
        assert bytes + part == flat[offset..at + chunk];
        bytes := bytes + part;
        left := left - chunk;
        at := at + chunk;
      }
    }

    /** `inode_write_at`: the file becomes its old contents, zero-extended as far as the write reaches,
        with `bytes` spliced in at `offset`; sectors of other files keep their contents. */
    method WriteAt(bytes: seq<Byte>, offset: nat) returns (written: nat)
      requires Valid() && RoomFor(offset + |bytes|)
      modifies this, freeMap.words, cache, cache.cells
      ensures Valid() && (old(NoStale()) ==> NoStale())
      ensures old(denyWriteCnt) > 0 ==> written == 0 && Contents() == old(Contents())
      ensures old(denyWriteCnt) == 0 ==> written == |bytes|
      ensures old(denyWriteCnt) == 0 ==>
        Contents() == Splice(ZeroExtend(old(Contents()), offset + |bytes|), offset, bytes)
      ensures |cache.Contents()| == |old(cache.Contents())|
      ensures forall s :: 0 <= s < |cache.Contents()| && s !in file.data && s !in file.index ==>
                cache.Contents()[s] == old(cache.Contents())[s]
      ensures Acquires(old(file), file, old(freeMap.Bits()), freeMap.Bits())
      ensures FirstFit(old(file), file, old(freeMap.Bits()), freeMap.Bits())
      ensures old(denyWriteCnt) == 0 ==>
        length == Max(old(length), offset + |bytes|) && LastDirty(offset + |bytes|, bytes)
      ensures forall t: nat :: cache.Holding(t) ==> old(cache.Holding(t)) || t in file.data
    {
      hide Maps, Logical, Coherent, Bitmaps.Unpack, NoSharing, Marked, ByteAt, Flat, Extends, Acquires,
          FirstFit;
      if denyWriteCnt > 0 {
        ExtendsRefl(file, freeMap.Bits(), cache.Contents());
        ExtendsFrame(file, file, freeMap.Bits(), freeMap.Bits(), cache.Contents(), cache.Contents());
        DiskFacts();
        FirstFitNone(file, freeMap.Bits());
        return 0;
      }
      ghost var f0, b0, s0 := file, freeMap.Bits(), cache.Contents();
      Lengthen(offset + |bytes|);
      ExtendsFrame(f0, file, b0, freeMap.Bits(), s0, cache.Contents());
      WriteChunks(bytes, offset);
      readLength := length;
      return |bytes|;
    }

    /** The sector of the last byte written, just before `end`, is dirty in the cache. */
    ghost predicate LastDirty(end: nat, bytes: seq<Byte>)
      reads this, cache.cells
    {
      bytes != [] && end > 0 ==>
        (end - 1) / SECTOR_SIZE < |file.data| && cache.Dirty(file.data[(end - 1) / SECTOR_SIZE])
    }

    /** The growing part of `inode_write_at`. */
    method Lengthen(end: nat)
      requires Valid() && RoomFor(end)
      modifies this, freeMap.words, cache`disk
      ensures Valid() && length == Max(old(length), end) && denyWriteCnt == old(denyWriteCnt)
      ensures old(NoStale()) ==> NoStale()
      ensures Contents() == ZeroExtend(old(Contents()), end)
      ensures Extends(old(file), file, old(freeMap.Bits()), freeMap.Bits(), old(cache.Contents()), cache.Contents())
      ensures FirstFit(old(file), file, old(freeMap.Bits()), freeMap.Bits())
    {
      hide Maps, Logical, Coherent, Formed, Bitmaps.Unpack, Extends, ByteAt, Flat, FreeSet, NoSharing, Marked,
          TakesLowest, FirstFit;
      ghost var f0, b0, d0, s0, len0 := file, freeMap.Bits(), cache.disk, cache.Contents(), length;
      if end > length {
        length := Grow(end);
        FirstFitTakes(f0, file, b0, freeMap.Bits());
        TakesMore(b0, freeMap.Bits());
        NewUncached(end, f0, b0, d0);
        ViewExtends(cache.cells[..], d0, cache.disk, f0, file, b0, freeMap.Bits());
        GrownContents(f0, file, b0, freeMap.Bits(), s0, cache.Contents(), len0, length);
      } else {
        ExtendsRefl(f0, b0, s0);
        DiskFacts();
        FirstFitNone(f0, b0);
      }
      readLength := length;
    }

    /** What first fit takes is what `NoneCached` speaks of. */
    lemma NewUncached(end: nat, f0: FileMap, b0: seq<bool>, d0: seq<Sector>)
      requires Device() && |b0| == |freeMap.Bits()| && TakesLowest(b0, freeMap.Bits())
      requires Extends(f0, file, b0, freeMap.Bits(), d0, cache.disk)
      requires forall i :: 0 <= i < |f0.index| ==> !cache.Holding(f0.index[i])
      requires forall s :: 0 <= s < |b0| && !b0[s] && |FreeBelow(b0, s)| < |FreeSet(b0)| - |FreeSet(freeMap.Bits())| ==>
                 !cache.Holding(s)
      ensures forall i :: 0 <= i < |file.index| ==> !cache.Holding(file.index[i])
      ensures forall i :: |f0.data| <= i < |file.data| ==> !cache.Holding(file.data[i])
    {
      hide Bitmaps.Unpack, FreeSet, TakesLowest, Formed, Resident;
      ghost var b1 := freeMap.Bits();
      forall i | |f0.data| <= i < |file.data|
        ensures !cache.Holding(file.data[i])
      {
        LowAcquired(b0, b1, file.data[i]);
      }
      forall i | 0 <= i < |file.index| ensures !cache.Holding(file.index[i]) {
        if i < |f0.index| { assert file.index[i] == f0.index[i]; } else { LowAcquired(b0, b1, file.index[i]); }
      }
    }

    /** One turn of the copying loop of `inode_write_at`. */
    method WriteChunk(part: seq<Byte>, at: nat)
      requires Valid() && at + |part| <= length && at % SECTOR_SIZE + |part| <= SECTOR_SIZE && |part| > 0
      modifies cache, cache.cells
      ensures Valid() && (old(NoStale()) ==> NoStale())
      ensures Contents() == Splice(old(Contents()), at, part) && LastDirty(at + |part|, part)
      ensures forall t: nat :: cache.Holding(t) ==> old(cache.Holding(t)) || t in file.data
      ensures |cache.Contents()| == |old(cache.Contents())|
      ensures forall s :: 0 <= s < |cache.Contents()| && s !in file.data ==>
              cache.Contents()[s] == old(cache.Contents())[s]
    {
      hide Maps, Logical, Coherent, Formed, Bitmaps.Unpack, Marked, ByteAt, Flat, Patch, Splice, Lookup;
      PatchFlat(file.data, cache.Contents(), length, at, part);
      PatchTail(file.data, cache.Contents(), length, at, part);
      var s := ByteToSector(at);
      CachedWrite(s, at % SECTOR_SIZE, part);
      assert (at + |part| - 1) / SECTOR_SIZE == at / SECTOR_SIZE;
    }

    /** The copying loop of `inode_write_at`. */
    method WriteChunks(bytes: seq<Byte>, offset: nat)
      requires Valid() && offset + |bytes| <= length
      modifies cache, cache.cells
      ensures Valid() && (old(NoStale()) ==> NoStale())
      ensures Contents() == Splice(old(Contents()), offset, bytes) && LastDirty(offset + |bytes|, bytes)
      ensures forall t: nat :: cache.Holding(t) ==> old(cache.Holding(t)) || t in file.data
      ensures |cache.Contents()| == |old(cache.Contents())|
      ensures forall s :: 0 <= s < |cache.Contents()| && s !in file.data ==>
              cache.Contents()[s] == old(cache.Contents())[s]
    {
      hide Maps, Mapped, ZeroTail, Logical, Coherent, Formed, Bitmaps.Unpack, Marked, ByteAt, Flat, Patch, Splice,
          Resident;
      ghost var flat := Contents();
      var written := 0;
      SpliceNothing(flat, offset, bytes);
      while written < |bytes|
        invariant written <= |bytes| && Valid() && (old(NoStale()) ==> NoStale())
        invariant Contents() == Splice(flat, offset, bytes[..written])
        invariant LastDirty(offset + written, bytes[..written])
        invariant forall t: nat :: cache.Holding(t) ==> old(cache.Holding(t)) || t in file.data
        invariant |cache.Contents()| == |old(cache.Contents())|
        invariant forall s :: 0 <= s < |cache.Contents()| && s !in file.data ==>
                  cache.Contents()[s] == old(cache.Contents())[s]
      {
        var at := offset + written;
        var chunk := Chunk(|bytes| - written, at, length);
        SpliceMore(flat, offset, bytes, written, chunk);
        WriteChunk(bytes[written..written + chunk], at);
        written := written + chunk;
      }
      assert bytes[..written] == bytes;
    }

    /** How much of a request of `left` bytes at `at` falls into one sector and into the file. */
    static function Chunk(left: nat, at: nat, length: nat): (n: nat)
      requires at <= length
      ensures n <= left && at + n <= length && at % SECTOR_SIZE + n <= SECTOR_SIZE
      ensures left > 0 && at < length ==> n > 0
    {
      var sectorLeft := SECTOR_SIZE - at % SECTOR_SIZE;
      var minLeft := if length - at < sectorLeft then length - at else sectorLeft;
      if left < minLeft then left else minLeft
    }

    /** `cache_read` of a data sector keeps the file as it is. */
    method CachedRead(s: nat, offset: nat, size: nat) returns (part: seq<Byte>)
      requires Mapped() && s in file.data && offset + size <= SECTOR_SIZE
      modifies cache, cache.cells
      ensures Mapped() && cache.Contents() == old(cache.Contents())
      ensures forall t: nat :: cache.Holding(t) ==> old(cache.Holding(t)) || t == s
      ensures part == cache.Contents()[s][offset..offset + size]
    {
      hide Maps, Logical, Coherent, Bitmaps.Unpack;
      ghost var d0 := cache.disk;
      IndexOnDisk();
      part := cache.Read(s, offset, size);
      IndexUnread(d0);
    }

    lemma IndexOnDisk()
      requires Mapped()
      ensures forall i :: 0 <= i < |file.index| ==>
                file.index[i] < |cache.disk| && cache.Contents()[file.index[i]] == cache.disk[file.index[i]]
    {
      hide Coherent, Formed, Bitmaps.Unpack;
    }

    /** Index blocks are as they were on the device: no cell held them, and none does. */
    lemma IndexUnread(d0: seq<Sector>)
      requires cache.Valid() && |cache.disk| == |d0| && Maps(file, ptrs, d0)
      requires forall i :: 0 <= i < |file.index| ==>
               file.index[i] < |d0| && cache.Contents()[file.index[i]] == d0[file.index[i]]
      requires forall i :: 0 <= i < |file.index| ==> !cache.Holding(file.index[i])
      ensures Maps(file, ptrs, cache.disk)
    {
      hide Maps, Coherent, Formed;
      forall j | 0 <= j < |file.index| ensures cache.disk[file.index[j]] == d0[file.index[j]] {
        assert cache.Contents()[file.index[j]] == cache.disk[file.index[j]];
      }
      MapsSame(file, ptrs, d0, cache.disk);
    }

    /** `cache_write` of a data sector changes the file's map in nothing. */
    method CachedWrite(s: nat, offset: nat, bytes: seq<Byte>)
      requires Mapped() && s in file.data && offset + |bytes| <= SECTOR_SIZE
      modifies cache, cache.cells
      ensures Mapped() && (old(NoStale()) ==> NoStale()) && cache.Dirty(s)
      ensures forall t: nat :: cache.Holding(t) ==> old(cache.Holding(t)) || t == s
      ensures cache.Contents() == old(cache.Contents())[s := Patch(old(cache.Contents())[s], offset, bytes)]
    {
      hide Maps, Logical, Coherent, Bitmaps.Unpack, PtrAt;
      ghost var d0 := cache.disk;
      IndexOnDisk();
      cache.Write(s, offset, bytes);
      IndexUnread(d0);
    }
  }

  /** `inode_deallocate` computes the number of index blocks from the length alone. */
  lemma IndexCountOfLength(length: nat)
    ensures IndexCount(SectorsFor(length)) ==
            if length <= SECTOR_SIZE * DIRECT then 0
            else (length - SECTOR_SIZE * DIRECT + SECTOR_SIZE * PTRS - 1) / (SECTOR_SIZE * PTRS)
  {
  }

  /** Index block `m` is full unless it is the last. */
  lemma LastBlock(n: nat, m: nat)
    requires m < IndexCount(n)
    ensures DIRECT + PTRS * m < n && (m + 1 < IndexCount(n) <==> DIRECT + PTRS * (m + 1) < n)
  {
  }

  lemma MapsIndex(f: FileMap, ptrs: seq<nat>, sectors: seq<Sector>, m: nat)
    requires Maps(f, ptrs, sectors) && m < |f.index|
    ensures |ptrs| == INODE_PTRS && m < 10 && ptrs[DIRECT + m] == f.index[m] < |sectors|
  {
  }

  lemma BlockListsData(f: FileMap, ptrs: seq<nat>, sectors: seq<Sector>, m: nat, n: nat)
    requires Maps(f, ptrs, sectors) && m < |f.index| && n <= PTRS && DIRECT + PTRS * m + n <= |f.data|
    ensures f.index[m] < |sectors|
    ensures forall i :: 0 <= i < n ==> DecodeBlock(sectors[f.index[m]])[i] == f.data[DIRECT + PTRS * m + i]
  {
    hide PtrAt;
    forall i | 0 <= i < n ensures DecodeBlock(sectors[f.index[m]])[i] == f.data[DIRECT + PTRS * m + i] {
      assert (PTRS * m + i) / PTRS == m && (PTRS * m + i) % PTRS == i;
    }
  }

  lemma SpliceNothing(s: seq<Byte>, offset: nat, bytes: seq<Byte>)
    requires offset + |bytes| <= |s|
    ensures Splice(s, offset, bytes[..0]) == s
  {
  }

  lemma ExtendsFrame(f0: FileMap, f1: FileMap, b0: seq<bool>, b1: seq<bool>, s0: seq<Sector>, s1: seq<Sector>)
    requires Extends(f0, f1, b0, b1, s0, s1)
    ensures |s0| == |s1| && Acquires(f0, f1, b0, b1) && Exist(f1.data, |s1|)
    ensures forall s :: 0 <= s < |s0| && s !in f1.data && s !in f1.index ==> s1[s] == s0[s]
  {
  }

  lemma FlatSlice(data: seq<nat>, sectors: seq<Sector>, length: nat, at: nat, n: nat)
    requires length <= SECTOR_SIZE * |data| && Exist(data, |sectors|)
    requires at + n <= length && at % SECTOR_SIZE + n <= SECTOR_SIZE && n > 0
    ensures at / SECTOR_SIZE < |data|
    ensures sectors[data[at / SECTOR_SIZE]][at % SECTOR_SIZE..at % SECTOR_SIZE + n] ==
            Flat(data, sectors, length)[at..at + n]
  {
    var k, o := at / SECTOR_SIZE, at % SECTOR_SIZE;
    var a, b := sectors[data[k]][o..o + n], Flat(data, sectors, length)[at..at + n];
    forall i | 0 <= i < n ensures a[i] == b[i] {
      assert (at + i) / SECTOR_SIZE == k && (at + i) % SECTOR_SIZE == o + i;
    }
  }
}
