/** Two files on one device: what is done to one leaves the other alone. */
module SharedDevice {
  import opened Prelude
  import opened BufferCache
  import opened InodeLayout
  import opened InodeFiles
  import Bitmaps

  predicate Uses(f: FileMap, s: nat) { s in f.data || s in f.index }

  /** Two files share no sector. */
  ghost predicate Apart(f: FileMap, g: FileMap) { forall s :: Uses(f, s) ==> !Uses(g, s) }

  /** A file grows into free sectors only, so it stays apart from one whose sectors are marked. */
  lemma StaysApart(f0: FileMap, f1: FileMap, g: FileMap, b0: seq<bool>, b1: seq<bool>)
    requires Acquires(f0, f1, b0, b1) && Apart(f0, g) && Marked(g, b0)
    ensures Apart(f1, g) && Marked(g, b1)
  {
    hide NoSharing;
    forall s | Uses(f1, s) ensures !Uses(g, s) {
      if s in f1.data {
        var i :| 0 <= i < |f1.data| && f1.data[i] == s;
        assert i < |f0.data| ==> f0.data[i] == s && Uses(f0, s);
      } else {
        var i :| 0 <= i < |f1.index| && f1.index[i] == s;
        assert i < |f0.index| ==> f0.index[i] == s && Uses(f0, s);
      }
    }
  }

  /** The sectors of a file look as they did, to the device where they are index blocks, and to readers else. */
  lemma SameFile(g: FileMap, ptrs: seq<nat>, length: nat, c0: seq<Cell>, d0: seq<Sector>, c1: seq<Cell>,
                 d1: seq<Sector>)
    requires Maps(g, ptrs, d0) && |d1| == |d0| && ZeroTail(g.data, Logical(c0, d0), length)
    requires forall i :: 0 <= i < |g.index| ==> !Resident(c0, g.index[i]) && !Resident(c1, g.index[i])
    requires forall s :: 0 <= s < |d0| && Uses(g, s) ==> Logical(c1, d1)[s] == Logical(c0, d0)[s]
    ensures Maps(g, ptrs, d1) && ZeroTail(g.data, Logical(c1, d1), length)
    ensures Flat(g.data, Logical(c1, d1), length) == Flat(g.data, Logical(c0, d0), length)
  {
    hide PtrAt, Lookup;
    var l0, l1 := Logical(c0, d0), Logical(c1, d1);
    forall j | 0 <= j < |g.index| ensures d1[g.index[j]] == d0[g.index[j]] {
      assert Uses(g, g.index[j]) && l1[g.index[j]] == l0[g.index[j]];
    }
    MapsSame(g, ptrs, d0, d1);
    forall i | 0 <= i < SECTOR_SIZE * |g.data| ensures ByteAt(g.data, l1, i) == ByteAt(g.data, l0, i) {
      assert Uses(g, g.data[i / SECTOR_SIZE]);
    }
    assert Flat(g.data, l1, length) == Flat(g.data, l0, length);
  }

  /** Both files are in order, on the same device, and share no sector. */
  ghost predicate Beside(a: Inode, other: Inode)
    reads a, other, a.cache, a.cache.cells, a.freeMap.words, other.cache, other.cache.cells, other.freeMap.words
  {
    && a != other && a.cache == other.cache && a.freeMap == other.freeMap
    && a.Valid() && other.Valid() && Apart(a.file, other.file)
  }

  /** `inode_write_at` on one file changes nothing of the other. */
  method WriteBeside(a: Inode, other: Inode, bytes: seq<Byte>, offset: nat) returns (written: nat)
    requires Beside(a, other) && a.RoomFor(offset + |bytes|)
    modifies a, a.cache, a.cache.cells, a.freeMap.words
    ensures Beside(a, other) && other.Contents() == old(other.Contents())
  {
    hide Maps, ZeroTail, Flat, Logical, Coherent, Formed, Bitmaps.Unpack, NoSharing, Apart, Acquires, FirstFit,
        Marked;
    hide FreeSet, Resident, Splice, ZeroExtend;
    ghost var f0, b0, c0, d0 := a.file, a.freeMap.Bits(), a.cache.cells[..], a.cache.disk;
    written := a.WriteAt(bytes, offset);
    StaysApart(f0, a.file, other.file, b0, a.freeMap.Bits());
    Elsewhere(a.file, other.file, c0, d0, a.cache.cells[..], a.cache.disk);
    SameFile(other.file, other.ptrs, other.length, c0, d0, a.cache.cells[..], a.cache.disk);
  }

  /** So does `inode_read_at`, although it moves sectors in and out of the cache. */
  method ReadBeside(a: Inode, other: Inode, size: nat, offset: nat) returns (bytes: seq<Byte>)
    requires Beside(a, other)
    modifies a.cache, a.cache.cells
    ensures Beside(a, other) && other.Contents() == old(other.Contents()) && a.Contents() == old(a.Contents())
  {
    hide Maps, ZeroTail, Flat, Logical, Coherent, Formed, Bitmaps.Unpack, NoSharing, Apart, Marked, Resident;
    ghost var c0, d0 := a.cache.cells[..], a.cache.disk;
    bytes := a.ReadAt(size, offset);
    Elsewhere(a.file, other.file, c0, d0, a.cache.cells[..], a.cache.disk);
    SameFile(other.file, other.ptrs, other.length, c0, d0, a.cache.cells[..], a.cache.disk);
  }

  /** What `ReadAt` and `WriteAt` promise about all sectors but the file's own, for the sectors of another file. */
  lemma Elsewhere(f: FileMap, g: FileMap, c0: seq<Cell>, d0: seq<Sector>, c1: seq<Cell>, d1: seq<Sector>)
    requires Apart(f, g) && |d1| == |d0|
    requires forall i :: 0 <= i < |g.index| ==> !Resident(c0, g.index[i])
    requires forall t: nat :: Resident(c1, t) ==> Resident(c0, t) || t in f.data
    requires forall s :: 0 <= s < |d0| && s !in f.data && s !in f.index ==> Logical(c1, d1)[s] == Logical(c0, d0)[s]
    ensures forall i :: 0 <= i < |g.index| ==> !Resident(c1, g.index[i])
    ensures forall s :: 0 <= s < |d0| && Uses(g, s) ==> Logical(c1, d1)[s] == Logical(c0, d0)[s]
  {
    hide Resident, Logical;
    forall i | 0 <= i < |g.index|
      ensures !Resident(c1, g.index[i])
    {
      assert Uses(g, g.index[i]); assert !Uses(f, g.index[i]);
    }
    forall s | 0 <= s < |d0| && Uses(g, s) ensures Logical(c1, d1)[s] == Logical(c0, d0)[s] { assert !Uses(f, s); }
  }
}
