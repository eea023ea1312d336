/** What happens when a file grows into a sector that the cache still holds: `inode_deallocate` leaves the cells of
    the sectors it releases in place, and growth zeroes and fills sectors on the device, behind the cache. */
module StaleSectors {
  import opened Prelude
  import opened BufferCache
  import opened InodeLayout
  import opened InodeFiles
  import Bitmaps

  /** Sector `s` is cached, with a nonzero byte at offset `o`. */
  predicate HoldsByte(cells: seq<Cell>, s: nat, o: nat)
    requires o < SECTOR_SIZE
  {
    Resident(cells, s) && cells[Lookup(cells, s)].data[o] != 0
  }

  /** The sector that growth from `n` data sectors on will make data sector `i`, known from the free map alone, is
      cached with a nonzero byte at `o`. */
  ghost predicate WillBeStale(cells: seq<Cell>, bits: seq<bool>, n: nat, i: nat, o: nat)
    requires o < SECTOR_SIZE
  {
    exists s: nat :: FreeAt(bits, s, Rank(n, i)) && HoldsByte(cells, s, o)
  }

  /** Free sectors of the same rank are the same sector. */
  lemma RankUnique(bits: seq<bool>, s: nat, t: nat, rank: int)
    requires FreeAt(bits, s, rank) && FreeAt(bits, t, rank)
    ensures s == t
  {
    if s != t { RankGrows(bits, if s < t then s else t, if s < t then t else s); }
  }

  lemma RankGrows(bits: seq<bool>, s: nat, t: nat)
    requires s < t < |bits| && !bits[s]
    ensures |FreeBelow(bits, s)| < |FreeBelow(bits, t)|
  {
    assert FreeBelow(bits, s) + {s} <= FreeBelow(bits, t);
    SubsetSize(FreeBelow(bits, s) + {s}, FreeBelow(bits, t));
  }

  lemma StaleOnly(cells: seq<Cell>, f0: FileMap, f1: FileMap, b0: seq<bool>, b1: seq<bool>, i: nat, o: nat)
    requires FirstFit(f0, f1, b0, b1) && |f0.data| <= i < |f1.data| && o < SECTOR_SIZE
    ensures WillBeStale(cells, b0, |f0.data|, i, o) <==> HoldsByte(cells, f1.data[i], o)
  {
    hide FreeAt, Resident;
    var s, rank := f1.data[i], Rank(|f0.data|, i);
    assert FreeAt(b0, s, rank);
    if t: nat :| FreeAt(b0, t, rank) && HoldsByte(cells, t, o) {
      RankUnique(b0, s, t, rank);
    }
  }

  /** What readers see of a grown file, byte by byte. */
  lemma GrownByteSeen(cells: seq<Cell>, d0: seq<Sector>, d1: seq<Sector>, f0: FileMap, f1: FileMap, b0: seq<bool>,
                      b1: seq<bool>, p: nat)
    requires Extends(f0, f1, b0, b1, d0, d1) && Marked(f0, b0) && p / SECTOR_SIZE < |f1.data|
    ensures p / SECTOR_SIZE < |f0.data| ==>
              ByteAt(f1.data, Logical(cells, d1), p) == ByteAt(f0.data, Logical(cells, d0), p)
    ensures p / SECTOR_SIZE >= |f0.data| ==>
              (ByteAt(f1.data, Logical(cells, d1), p) == 0 <==>
               !HoldsByte(cells, f1.data[p / SECTOR_SIZE], p % SECTOR_SIZE))
  {
    var k := p / SECTOR_SIZE;
    GrownByte(f0, f1, b0, b1, d0, d1, p);
    if k < |f0.data| {
      var s := f0.data[k];
      assert f1.data[k] == s && b0[s] && s !in f1.index && s !in f1.data[|f0.data|..];
    }
  }

  /** The grown file reads as the old one followed by zeros if and only if none of the free sectors that it will take
      below its new end is cached with a nonzero byte there. The condition is about the cache and the free map as they
      are before the call. */
  lemma GrowthSeenIff(cells: seq<Cell>, d0: seq<Sector>, d1: seq<Sector>, f0: FileMap, f1: FileMap, b0: seq<bool>,
                      b1: seq<bool>, len0: nat, len1: nat)
    requires Extends(f0, f1, b0, b1, d0, d1) && FirstFit(f0, f1, b0, b1) && Marked(f0, b0)
    requires len0 <= len1 <= SECTOR_SIZE * |f1.data| && ZeroTail(f0.data, Logical(cells, d0), len0)
    ensures Flat(f1.data, Logical(cells, d1), len1) == ZeroExtend(Flat(f0.data, Logical(cells, d0), len0), len1) <==>
            forall p :: SECTOR_SIZE * |f0.data| <= p < len1 ==>
              !WillBeStale(cells, b0, |f0.data|, p / SECTOR_SIZE, p % SECTOR_SIZE)
  {
    hide Extends, FirstFit, Marked, WillBeStale, Resident;
    var l0, l1 := Logical(cells, d0), Logical(cells, d1);
    ExtendsFrame(f0, f1, b0, b1, d0, d1);
    var a, b := Flat(f1.data, l1, len1), ZeroExtend(Flat(f0.data, l0, len0), len1);
    forall p | 0 <= p < len1
      ensures a[p] == b[p] <==>
              (SECTOR_SIZE * |f0.data| <= p ==> !WillBeStale(cells, b0, |f0.data|, p / SECTOR_SIZE, p % SECTOR_SIZE))
    {
      GrownByteSeen(cells, d0, d1, f0, f1, b0, b1, p);
      if p / SECTOR_SIZE >= |f0.data| {
        StaleOnly(cells, f0, f1, b0, b1, p / SECTOR_SIZE, p % SECTOR_SIZE);
      } else if p >= len0 {
        assert ByteAt(f0.data, l0, p) == 0;
      }
    }
  }

  /** `inode_grow` on any file, whatever is cached: the state before the call decides whether the new part of the file
      reads as zeros. */
  method GrowAndSee(inode: Inode, newLength: nat) returns (r: nat)
    requires inode.Valid() && inode.length <= newLength && SectorsFor(newLength) <= MAX_SECTORS
    requires Needed(|inode.file.data|, SectorsFor(newLength)) <= |FreeSet(inode.freeMap.Bits())|
    modifies inode, inode.freeMap.words, inode.cache`disk
    ensures newLength <= SECTOR_SIZE * |inode.file.data| && Exist(inode.file.data, |inode.cache.Contents()|)
    ensures ReadsZeros(inode.cache.cells[..], old(inode.freeMap.Bits()), old(|inode.file.data|), newLength) <==>
            Flat(inode.file.data, inode.cache.Contents(), newLength) == ZeroExtend(old(inode.Contents()), newLength)
  {
    hide Extends, FirstFit, Maps, NoSharing, Marked, Flat, ZeroTail, Logical, Coherent, Formed, Bitmaps.Unpack, FreeSet;
    hide ReadsZeros, Lookup;
    ghost var f0, b0, d0, len0 := inode.file, inode.freeMap.Bits(), inode.cache.disk, inode.length;
    ghost var cells := inode.cache.cells[..];
    r := inode.Grow(newLength);
    ExtendsFrame(f0, inode.file, b0, inode.freeMap.Bits(), d0, inode.cache.disk);
    ReadsZerosIff(cells, d0, inode.cache.disk, f0, inode.file, b0, inode.freeMap.Bits(), len0, newLength);
  }

  /** No sector that growth from `n` data sectors to `end` bytes will take is cached with a nonzero byte below `end`. */
  ghost predicate ReadsZeros(cells: seq<Cell>, bits: seq<bool>, n: nat, end: nat) {
    forall p :: SECTOR_SIZE * n <= p < end ==> !WillBeStale(cells, bits, n, p / SECTOR_SIZE, p % SECTOR_SIZE)
  }

  lemma ReadsZerosIff(cells: seq<Cell>, d0: seq<Sector>, d1: seq<Sector>, f0: FileMap, f1: FileMap, b0: seq<bool>,
                      b1: seq<bool>, len0: nat, len1: nat)
    requires Extends(f0, f1, b0, b1, d0, d1) && FirstFit(f0, f1, b0, b1) && Marked(f0, b0)
    requires len0 <= len1 <= SECTOR_SIZE * |f1.data| && ZeroTail(f0.data, Logical(cells, d0), len0)
    ensures Exist(f1.data, |d1|)
    ensures Flat(f1.data, Logical(cells, d1), len1) == ZeroExtend(Flat(f0.data, Logical(cells, d0), len0), len1) <==>
            ReadsZeros(cells, b0, |f0.data|, len1)
  {
    hide FirstFit, Marked, ZeroTail, Logical, WillBeStale;
    GrowthSeenIff(cells, d0, d1, f0, f1, b0, b1, len0, len1);
  }

  // ---------- coherence ----------

  /** Sector `s` is cached clean, with other bytes than `data`. */
  predicate CleanButNot(cells: seq<Cell>, s: nat, data: Sector) {
    exists i :: 0 <= i < |cells| && Holds(cells[i], s) && !cells[i].dirty && cells[i].data != data
  }

  /** Growth leaves the cache coherent if and only if no free sector that will be a data sector is cached clean with
      nonzero bytes, and none that will be an index block, nor the index block it goes on filling, is cached clean
      with other bytes than the block gets. */
  lemma GrowthCoherentIff(cells: seq<Cell>, d0: seq<Sector>, d1: seq<Sector>, f0: FileMap, f1: FileMap, b0: seq<bool>,
                          b1: seq<bool>)
    requires Coherent(cells, d0) && Extends(f0, f1, b0, b1, d0, d1) && FirstFit(f0, f1, b0, b1)
    ensures Coherent(cells, d1) <==>
            && (forall i: nat, s: nat :: |f0.data| <= i < |f1.data| && FreeAt(b0, s, Rank(|f0.data|, i)) ==>
                  !CleanButNot(cells, s, ZeroSector()))
            && (forall j: nat, s: nat :: |f0.index| <= j < |f1.index| && FreeAt(b0, s, IndexRank(|f0.data|, j)) ==>
                  !CleanButNot(cells, s, d1[s]))
            && (forall j :: 0 <= j < |f0.index| ==> !CleanButNot(cells, f0.index[j], d1[f0.index[j]]))
  {
    hide Coherent, Extends, FirstFit, CleanButNot, FreeAt;
    CoherentAfterIff(cells, d0, d1, f0, f1, b0, b1);
    FirstFitFacts(f0, f1, b0, b1);
    forall i: nat, s: nat | |f0.data| <= i < |f1.data| && FreeAt(b0, s, Rank(|f0.data|, i)) ensures s == f1.data[i] {
      RankUnique(b0, s, f1.data[i], Rank(|f0.data|, i));
    }
    forall j: nat, s: nat | |f0.index| <= j < |f1.index| && FreeAt(b0, s, IndexRank(|f0.data|, j))
      ensures s == f1.index[j]
    {
      RankUnique(b0, s, f1.index[j], IndexRank(|f0.data|, j));
    }
  }

  lemma FirstFitFacts(f0: FileMap, f1: FileMap, b0: seq<bool>, b1: seq<bool>)
    requires FirstFit(f0, f1, b0, b1)
    ensures |f0.index| <= |f1.index| && (forall j :: 0 <= j < |f0.index| ==> f1.index[j] == f0.index[j])
    ensures forall i :: |f0.data| <= i < |f1.data| ==> FreeAt(b0, f1.data[i], Rank(|f0.data|, i))
    ensures forall j :: |f0.index| <= j < |f1.index| ==> FreeAt(b0, f1.index[j], IndexRank(|f0.data|, j))
  {
  }

  /** Only the sectors that growth writes can fall out of step with their cells. */
  lemma CoherentAfterIff(cells: seq<Cell>, d0: seq<Sector>, d1: seq<Sector>, f0: FileMap, f1: FileMap, b0: seq<bool>,
                         b1: seq<bool>)
    requires Coherent(cells, d0) && Extends(f0, f1, b0, b1, d0, d1)
    ensures |d1| == |d0| && Exist(f1.index, |d1|)
    ensures Coherent(cells, d1) <==>
            && (forall i :: |f0.data| <= i < |f1.data| ==> !CleanButNot(cells, f1.data[i], ZeroSector()))
            && (forall j :: 0 <= j < |f1.index| ==> !CleanButNot(cells, f1.index[j], d1[f1.index[j]]))
  {
    hide NoSharing;
    forall i | 0 <= i < |cells| && cells[i].valid && !cells[i].dirty && cells[i].data != d1[cells[i].sector]
      ensures (exists k :: |f0.data| <= k < |f1.data| && CleanButNot(cells, f1.data[k], ZeroSector()))
           || (exists j :: 0 <= j < |f1.index| && CleanButNot(cells, f1.index[j], d1[f1.index[j]]))
    {
      WrittenSector(cells, d0, d1, f0, f1, b0, b1, i);
    }
    forall k | |f0.data| <= k < |f1.data| && CleanButNot(cells, f1.data[k], ZeroSector())
      ensures !Coherent(cells, d1)
    {
      var i :| 0 <= i < |cells| && Holds(cells[i], f1.data[k]) && !cells[i].dirty && cells[i].data != ZeroSector();
      assert d1[cells[i].sector] == ZeroSector();
    }
  }

  /** A clean cell that no longer agrees with the device holds one of the sectors written. */
  lemma WrittenSector(cells: seq<Cell>, d0: seq<Sector>, d1: seq<Sector>, f0: FileMap, f1: FileMap, b0: seq<bool>,
                      b1: seq<bool>, i: nat)
    requires Coherent(cells, d0) && Extends(f0, f1, b0, b1, d0, d1) && i < |cells|
    requires cells[i].valid && !cells[i].dirty && cells[i].data != d1[cells[i].sector]
    ensures (exists k :: |f0.data| <= k < |f1.data| && CleanButNot(cells, f1.data[k], ZeroSector()))
         || (exists j :: 0 <= j < |f1.index| && CleanButNot(cells, f1.index[j], d1[f1.index[j]]))
  {
    hide NoSharing;
    var s := cells[i].sector;
    assert Holds(cells[i], s) && d1[s] != d0[s];
    if s in f1.index {
      var j :| 0 <= j < |f1.index| && f1.index[j] == s;
      assert CleanButNot(cells, f1.index[j], d1[f1.index[j]]);
    } else {
      assert s in f1.data[|f0.data|..];
      var k :| 0 <= k < |f1.data[|f0.data|..]| && f1.data[|f0.data|..][k] == s;
      assert f1.data[|f0.data| + k] == s;
      assert CleanButNot(cells, f1.data[|f0.data| + k], ZeroSector());
    }
  }

  // ---------- later, when the cell leaves the cache ----------

  /** Writing back a stale dirty cell undoes the device write made behind it: zeroes or an index block are lost. */
  lemma WriteBackUndoes(cells: seq<Cell>, disk: seq<Sector>, i: nat, data: Sector)
    requires Formed(cells, disk) && i < |cells| && cells[i].valid && cells[i].dirty
    ensures var s := cells[i].sector;
            && WrittenBack(cells, disk[s := data], i) == WrittenBack(cells, disk, i)
            && WrittenBack(cells, disk[s := data], i)[s] == cells[i].data
  {
  }

  /** Dropping a stale clean cell brings the device write to light: readers change their view without any write. */
  lemma DropReveals(cells: seq<Cell>, disk: seq<Sector>, i: nat, data: Sector)
    requires Formed(cells, disk) && i < |cells| && cells[i].valid && !cells[i].dirty
    ensures var s := cells[i].sector;
            && View(cells, disk[s := data], s) == cells[i].data
            && View(cells[i := cells[i].(valid := false)], disk[s := data], s) == data
  {
    var s, cells' := cells[i].sector, cells[i := cells[i].(valid := false)];
    LookupUnique(cells, disk, i);
    ResidentMeans(cells', s);
    forall j | 0 <= j < |cells'| ensures !Holds(cells'[j], s) { }
  }

  /** After the write-back of a cell that held index block `j`, the file is still mapped if and only if the stale bytes
      happen to list the same data sectors. */
  lemma IndexKeptIff(f: FileMap, ptrs: seq<nat>, disk: seq<Sector>, j: nat, stale: Sector)
    requires Maps(f, ptrs, disk) && NoSharing(f) && j < |f.index|
    ensures Maps(f, ptrs, disk[f.index[j] := stale]) <==>
            forall i :: DIRECT <= i < |f.data| && (i - DIRECT) / PTRS == j ==>
                PtrAt(stale, (i - DIRECT) % PTRS) == f.data[i]
  {
    hide PtrAt;
    var disk' := disk[f.index[j] := stale];
    forall i | DIRECT <= i < |f.data|
      ensures PtrAt(disk'[f.index[(i - DIRECT) / PTRS]], (i - DIRECT) % PTRS) == f.data[i] <==>
              ((i - DIRECT) / PTRS == j ==> PtrAt(stale, (i - DIRECT) % PTRS) == f.data[i])
    {
      assert (i - DIRECT) / PTRS < |f.index|;
    }
  }

  // ---------- the state is reachable ----------

  lemma NoneFreeCached(cache: Cache, freeMap: Bitmaps.Bitmap, file: Inode)
    requires file.cache == cache && file.freeMap == freeMap && freeMap.Valid() && forall s: nat :: !cache.Holding(s)
    ensures file.NoneCached(1)
  {
  }

  ghost predicate AllClear(bits: seq<bool>) { forall s :: 0 <= s < |bits| ==> !bits[s] }

  /** The only sector that first fit takes from an empty device is the first. */
  lemma TookFirst(f: FileMap, b0: seq<bool>, b1: seq<bool>)
    requires Acquires(FileMap([], []), f, b0, b1) && TakesLowest(b0, b1) && |f.data| == 1 && |f.index| == 0
    requires |b0| > 0 && AllClear(b0)
    ensures f == FileMap([0], [])
  {
    var s := f.data[0];
    assert s in f.data && b1[s];
    assert b1[0] <==> 0 in f.data;
  }

  lemma AllFree(bits: seq<bool>)
    requires |bits| > 0 && AllClear(bits)
    ensures |FreeSet(bits)| > 0
  {
    assert 0 in FreeSet(bits);
  }

  lemma ReleasedAll(f: FileMap, b0: seq<bool>, b1: seq<bool>, b2: seq<bool>)
    requires Acquires(FileMap([], []), f, b0, b1) && Releases(f, b1, b2) && AllClear(b0)
    ensures |b2| == |b0| && AllClear(b2)
  {
  }

  /** A file of one byte has one sector, and this is it. */
  lemma OneByte(contents: seq<Sector>, b: Byte)
    requires |contents| > 0 && ZeroTail([0], contents, 1) && Flat([0], contents, 1) == [b]
    ensures contents[0] == OneByteSector(b)
  {
    var s := contents[0];
    assert s[0] == Flat([0], contents, 1)[0];
    forall i | 1 <= i < SECTOR_SIZE ensures s[i] == 0 { assert ByteAt([0], contents, i) == 0; }
  }

  lemma OneByteFlat(contents: seq<Sector>, b: Byte)
    requires |contents| > 0 && contents[0] == OneByteSector(b)
    ensures ZeroTail([0], contents, 1) && Flat([0], contents, 1) == [b]
  {
  }

  function OneByteSector(b: Byte): Sector { [b] + seq(SECTOR_SIZE - 1, _ => 0) }

  /** The first file writes `b` and is deleted: every sector is free, and the first one still dirty in the cache. */
  method WriteAndDelete(cache: Cache, freeMap: Bitmaps.Bitmap, b: Byte)
    requires cache.Valid() && freeMap.Valid() && 0 < freeMap.bitCnt == |cache.disk| <= 0x1_0000_0000
    requires (cache.cells as object) != (freeMap.words as object)
    requires AllClear(freeMap.Bits()) && forall s: nat :: !cache.Holding(s)
    modifies cache, cache.cells, freeMap.words
    ensures cache.Valid() && freeMap.bitCnt == |cache.disk| && AllClear(freeMap.Bits())
    ensures cache.Dirty(0) && cache.Contents()[0] == OneByteSector(b)
  {
    hide Coherent, Formed, Bitmaps.Unpack, Maps, ZeroTail, Flat, Lookup, Logical, NoSharing, Marked, Acquires,
        TakesLowest, FirstFit;
    hide Resident, AllClear, FreeSet, OneByteSector;
    var first := new Inode(cache, freeMap);
    ghost var b0 := freeMap.Bits();
    AllFree(b0);
    NoneFreeCached(cache, freeMap, first);
    var written := first.WriteAt([b], 0);
    MapsSizes(first.file, first.ptrs, cache.disk);
    ghost var b1 := freeMap.Bits();
    FirstFitTakes(FileMap([], []), first.file, b0, b1);
    TookFirst(first.file, b0, b1);
    SpliceOne(b);
    OneByte(cache.Contents(), b);
    first.Deallocate();
    ReleasedAll(first.file, b0, b1, freeMap.Bits());
  }

  lemma SpliceOne(b: Byte)
    ensures Splice(ZeroExtend([], 1), 0, [b]) == [b]
  {
  }

  /** The second file, created with length 1 (`inode_create` and `inode_open`), and read. */
  method NewFileReads(cache: Cache, freeMap: Bitmaps.Bitmap, b: Byte) returns (read: seq<Byte>)
    requires cache.Valid() && freeMap.Valid() && 0 < freeMap.bitCnt == |cache.disk| <= 0x1_0000_0000
    requires (cache.cells as object) != (freeMap.words as object)
    requires AllClear(freeMap.Bits()) && cache.Dirty(0) && cache.Contents()[0] == OneByteSector(b)
    modifies cache, cache.cells, freeMap.words
    ensures read == [b]
  {
    hide Coherent, Formed, Bitmaps.Unpack, Maps, ZeroTail, Flat, Logical, NoSharing, Marked, Acquires, TakesLowest;
    hide FirstFit;
    hide AllClear, FreeSet, OneByteSector;
    var file := new Inode(cache, freeMap);
    ghost var bits, disk := freeMap.Bits(), cache.disk;
    AllFree(bits);
    var length := file.Grow(1);
    file.length, file.readLength := length, length;
    MapsSizes(file.file, file.ptrs, cache.disk);
    ExtendsFrame(FileMap([], []), file.file, bits, freeMap.Bits(), disk, cache.disk);
    FirstFitTakes(FileMap([], []), file.file, bits, freeMap.Bits());
    TookFirst(file.file, bits, freeMap.Bits());
    StaleView(cache.cells[..], disk, cache.disk, file.file, bits, freeMap.Bits());
    OneByteFlat(cache.Contents(), b);
    read := file.ReadAt(1, 0);
  }

  /** A byte of a deleted file shows up in a new one: the first file writes `b` and is deleted; the second takes the
      same sector, which growth zeroes on the device only, and its first byte, never written, reads as `b`. */
  method DeletedByteReappears(device: seq<Sector>, b: Byte) returns (read: seq<Byte>)
    requires 0 < |device| <= 0x1_0000_0000
    ensures read == [b]
  {
    hide Coherent, Formed, Bitmaps.Unpack, Lookup, Logical;
    var cache := new Cache(device);
    var freeMap := new Bitmaps.Bitmap(|device|);
    WriteAndDelete(cache, freeMap, b);
    read := NewFileReads(cache, freeMap, b);
  }

  /** A dirty cell hides the zeroed sector, and the cache is none the wiser. */
  lemma StaleView(cells: seq<Cell>, d0: seq<Sector>, d1: seq<Sector>, f: FileMap, b0: seq<bool>, b1: seq<bool>)
    requires Coherent(cells, d0) && Extends(FileMap([], []), f, b0, b1, d0, d1) && f == FileMap([0], [])
    requires Resident(cells, 0) && cells[Lookup(cells, 0)].dirty
    ensures Coherent(cells, d1) && Logical(cells, d1) == Logical(cells, d0)
  {
    assert forall s :: 0 < s < |d0| ==> d1[s] == d0[s];
    forall i | 0 <= i < |cells| && cells[i].valid && cells[i].sector == 0
      ensures cells[i].dirty
    {
      LookupUnique(cells, d0, i);
    }
  }
}
