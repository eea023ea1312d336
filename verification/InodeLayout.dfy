/** How PintOS/src/filesys/inode.c lays a file out on sectors, and what the file's bytes then are.
    The range is ten direct pointers and ten single-indirect blocks of 128 pointers each. */
module InodeLayout {
  import opened Prelude
  import opened BufferCache

  const DIRECT: nat := 10
  const PTRS: nat := 128
  const MAX_SECTORS: nat := 1290
  const INODE_PTRS: nat := 21

  // ---------- sizes ----------

  /** `bytes_to_sectors` */
  function SectorsFor(length: nat): nat { (length + SECTOR_SIZE - 1) / SECTOR_SIZE }

  /** How many index blocks `n` data sectors need. */
  function IndexCount(n: nat): nat { if n <= DIRECT then 0 else (n - DIRECT + PTRS - 1) / PTRS }

  /** `direct_blk_idx` after `n` data sectors have been mapped. */
  function DirectIdx(n: nat): nat { if n < DIRECT then n else DIRECT + (n - DIRECT) / PTRS }

  /** `indirect_blk_idx` after `n` data sectors have been mapped. */
  function IndirectIdx(n: nat): nat { if n < DIRECT then 0 else (n - DIRECT) % PTRS }

  lemma IndexCountMonotone(n: nat, m: nat)
    requires n <= m
    ensures IndexCount(n) <= IndexCount(m)
  {
  }

  /** The sectors, of both kinds, that growing from `n` to `m` data sectors takes. */
  function Needed(n: nat, m: nat): int { m - n + IndexCount(m) - IndexCount(n) }

  // ---------- index blocks ----------

  type Ptr = p: int | 0 <= p < 0x1_0000_0000

  function ByteOf(p: Ptr, k: nat): Byte {
    if k == 0 then p % 256
    else if k == 1 then p / 0x100 % 256
    else if k == 2 then p / 0x1_0000 % 256
    else p / 0x100_0000
  }

  /** `struct indirect_block` as it is stored: 128 little-endian words. */
  function EncodeBlock(ps: seq<Ptr>): Sector
    requires |ps| == PTRS
  {
    seq(SECTOR_SIZE, i requires 0 <= i < SECTOR_SIZE => ByteOf(ps[i / 4], i % 4))
  }

  function PtrAt(s: Sector, k: nat): (p: Ptr)
    requires k < PTRS
  {
    s[4 * k] as int + 0x100 * s[4 * k + 1] as int + 0x1_0000 * s[4 * k + 2] as int + 0x100_0000 * s[4 * k + 3] as int
  }

  function DecodeBlock(s: Sector): (ps: seq<Ptr>)
    ensures |ps| == PTRS
  {
    seq(PTRS, k requires 0 <= k < PTRS => PtrAt(s, k))
  }

  /** Reading back a stored index block gives its pointers. */
  lemma BlockRoundTrip(ps: seq<Ptr>)
    requires |ps| == PTRS
    ensures DecodeBlock(EncodeBlock(ps)) == ps
  {
    hide EncodeBlock, PtrAt;
    forall k | 0 <= k < PTRS ensures DecodeBlock(EncodeBlock(ps))[k] == ps[k] { BlockWord(ps, k); }
  }

  lemma BlockWord(ps: seq<Ptr>, k: nat)
    requires |ps| == PTRS && k < PTRS
    ensures PtrAt(EncodeBlock(ps), k) == ps[k]
  {
    hide ByteOf;
    var s := EncodeBlock(ps);
    assert s[4 * k] == ByteOf(ps[k], 0) && s[4 * k + 1] == ByteOf(ps[k], 1);
    assert s[4 * k + 2] == ByteOf(ps[k], 2) && s[4 * k + 3] == ByteOf(ps[k], 3);
    WordRoundTrip(ps[k]);
  }

  lemma WordRoundTrip(p: Ptr)
    ensures ByteOf(p, 0) as int + 0x100 * ByteOf(p, 1) as int + 0x1_0000 * ByteOf(p, 2) as int +
            0x100_0000 * ByteOf(p, 3) as int == p
  {
    Byte256(p);
    Byte256(p / 0x100);
    Byte256(p / 0x1_0000);
    assert p / 0x100 / 0x100 == p / 0x1_0000 && p / 0x1_0000 / 0x100 == p / 0x100_0000;
  }

  lemma Byte256(x: nat)
    ensures x == 0x100 * (x / 0x100) + x % 0x100
  {
  }

  /** The data sectors of a file in order, and its index sectors in order. */
  datatype FileMap = FileMap(data: seq<nat>, index: seq<nat>)

  /** No sector is used twice by the file. */
  ghost predicate NoSharing(f: FileMap) {
    Distinct(f.data) && Distinct(f.index) && forall i, j :: 0 <= i < |f.data| && 0 <= j < |f.index| ==>
        f.data[i] != f.index[j]
  }

  /** Every listed sector exists. */
  ghost predicate Exist(data: seq<nat>, n: nat) {
    forall i :: 0 <= i < |data| ==> data[i] < n
  }

  /** The inode's pointers and the index blocks in `sectors` spell out the file map. */
  ghost predicate Maps(f: FileMap, ptrs: seq<nat>, sectors: seq<Sector>) {
    && |ptrs| == INODE_PTRS && |f.data| <= MAX_SECTORS && |f.index| == IndexCount(|f.data|)
    && Exist(f.data, |sectors|) && Exist(f.index, |sectors|)
    && (forall i :: 0 <= i < |f.data| && i < DIRECT ==> ptrs[i] == f.data[i])
    && (forall j :: 0 <= j < |f.index| ==> ptrs[DIRECT + j] == f.index[j])
    && (forall i :: DIRECT <= i < |f.data| ==>
          PtrAt(sectors[f.index[(i - DIRECT) / PTRS]], (i - DIRECT) % PTRS) == f.data[i])
  }

  lemma MapsSizes(f: FileMap, ptrs: seq<nat>, sectors: seq<Sector>)
    requires Maps(f, ptrs, sectors)
    ensures |ptrs| == INODE_PTRS && |f.data| <= MAX_SECTORS && |f.index| == IndexCount(|f.data|)
  {
  }

  /** The map depends on the index blocks only. */
  lemma MapsSame(f: FileMap, ptrs: seq<nat>, sectors: seq<Sector>, sectors': seq<Sector>)
    requires Maps(f, ptrs, sectors) && |sectors'| == |sectors|
    requires forall j :: 0 <= j < |f.index| ==> sectors'[f.index[j]] == sectors[f.index[j]]
    ensures Maps(f, ptrs, sectors')
  {
    hide PtrAt;
  }

  /** `byte_to_sector` for a position inside the file. */
  function SectorOf(ptrs: seq<nat>, sectors: seq<Sector>, pos: nat): nat
    requires |ptrs| == INODE_PTRS && pos / SECTOR_SIZE < MAX_SECTORS
    requires pos / SECTOR_SIZE >= DIRECT ==>
             ptrs[DIRECT + (pos - SECTOR_SIZE * DIRECT) / (SECTOR_SIZE * PTRS)] < |sectors|
  {
    var i := pos / SECTOR_SIZE;
    if i < DIRECT then ptrs[i]
    else
      var rest := pos - SECTOR_SIZE * DIRECT;
      PtrAt(sectors[ptrs[DIRECT + rest / (SECTOR_SIZE * PTRS)]], rest % (SECTOR_SIZE * PTRS) / SECTOR_SIZE)
  }

  /** The address arithmetic of `byte_to_sector` finds the right data sector. */
  lemma SectorOfIsData(f: FileMap, ptrs: seq<nat>, sectors: seq<Sector>, pos: nat)
    requires Maps(f, ptrs, sectors) && pos / SECTOR_SIZE < |f.data|
    ensures pos / SECTOR_SIZE >= DIRECT ==>
              (pos - SECTOR_SIZE * DIRECT) / (SECTOR_SIZE * PTRS) == (pos / SECTOR_SIZE - DIRECT) / PTRS
              && ptrs[DIRECT + (pos - SECTOR_SIZE * DIRECT) / (SECTOR_SIZE * PTRS)] < |sectors|
    ensures SectorOf(ptrs, sectors, pos) == f.data[pos / SECTOR_SIZE]
  {
    var i := pos / SECTOR_SIZE;
    if i >= DIRECT {
      assert (pos - SECTOR_SIZE * DIRECT) / (SECTOR_SIZE * PTRS) == (i - DIRECT) / PTRS;
      assert (pos - SECTOR_SIZE * DIRECT) % (SECTOR_SIZE * PTRS) / SECTOR_SIZE == (i - DIRECT) % PTRS;
      assert (i - DIRECT) / PTRS < |f.index|;
      assert PtrAt(sectors[f.index[(i - DIRECT) / PTRS]], (i - DIRECT) % PTRS) == f.data[i];
    }
  }

  // ---------- the bytes of a file ----------

  ghost function ByteAt(data: seq<nat>, sectors: seq<Sector>, i: nat): Byte
    requires i / SECTOR_SIZE < |data| && Exist(data, |sectors|)
  {
    sectors[data[i / SECTOR_SIZE]][i % SECTOR_SIZE]
  }

  ghost function Flat(data: seq<nat>, sectors: seq<Sector>, length: nat): (s: seq<Byte>)
    requires length <= SECTOR_SIZE * |data| && Exist(data, |sectors|)
    ensures |s| == length
  {
    seq(length, i requires 0 <= i < length => ByteAt(data, sectors, i))
  }

  /** `old` zero-extended to at least `n` bytes. */
  function ZeroExtend(s: seq<Byte>, n: nat): (r: seq<Byte>)
    ensures |r| == if n < |s| then |s| else n
  {
    if n <= |s| then s else s + seq(n - |s|, _ => 0)
  }

  function Splice(s: seq<Byte>, offset: nat, bytes: seq<Byte>): (r: seq<Byte>)
    requires offset + |bytes| <= |s|
    ensures |r| == |s|
  {
    s[..offset] + bytes + s[offset + |bytes|..]
  }

  /** Patching one data sector patches the flat file at the corresponding place, and nowhere else. */
  lemma PatchFlat(data: seq<nat>, sectors: seq<Sector>, length: nat, pos: nat, bytes: seq<Byte>)
    requires length <= SECTOR_SIZE * |data| && Exist(data, |sectors|) && Distinct(data)
    requires pos + |bytes| <= length && pos % SECTOR_SIZE + |bytes| <= SECTOR_SIZE && |bytes| > 0
    ensures pos / SECTOR_SIZE < |data|
    ensures var s := data[pos / SECTOR_SIZE];
            var sectors' := sectors[s := Patch(sectors[s], pos % SECTOR_SIZE, bytes)];
            Flat(data, sectors', length) == Splice(Flat(data, sectors, length), pos, bytes)
  {
    var k := pos / SECTOR_SIZE;
    var s := data[k];
    var sectors' := sectors[s := Patch(sectors[s], pos % SECTOR_SIZE, bytes)];
    var a, b := Flat(data, sectors', length), Splice(Flat(data, sectors, length), pos, bytes);
    forall i | 0 <= i < length ensures a[i] == b[i] {
      var j := i / SECTOR_SIZE;
      if j != k { assert data[j] != s; }
    }
  }

  // ---------- growth ----------

  function ZeroSector(): Sector { seq(SECTOR_SIZE, _ => 0) }

  /** The file has only grown, into sectors that were free, and those are now marked. */
  ghost predicate Acquires(f0: FileMap, f1: FileMap, bits0: seq<bool>, bits1: seq<bool>) {
    && f0.data <= f1.data && f0.index <= f1.index && |bits0| == |bits1| && NoSharing(f1)
    && Exist(f1.data, |bits0|) && Exist(f1.index, |bits0|)
    && (forall s :: 0 <= s < |bits0| ==> (bits1[s] <==> bits0[s] || s in f1.data || s in f1.index))
    && (forall i :: |f0.data| <= i < |f1.data| ==> !bits0[f1.data[i]])
    && (forall i :: |f0.index| <= i < |f1.index| ==> !bits0[f1.index[i]])
  }

  /** What growing a file may do to the free map and to the sectors: it acquires sectors, zeroes the
      new data sectors, and touches nothing but those and index blocks. */
  ghost predicate Extends(f0: FileMap, f1: FileMap, bits0: seq<bool>, bits1: seq<bool>, sec0: seq<Sector>,
                          sec1: seq<Sector>) {
    && Acquires(f0, f1, bits0, bits1)
    && |bits0| == |sec0| == |sec1|
    && (forall i :: |f0.data| <= i < |f1.data| ==> sec1[f1.data[i]] == ZeroSector())
    && (forall s :: 0 <= s < |sec0| && s !in f1.data[|f0.data|..] && s !in f1.index ==> sec1[s] == sec0[s])
  }

  lemma AcquiresTrans(f0: FileMap, f1: FileMap, f2: FileMap, b0: seq<bool>, b1: seq<bool>, b2: seq<bool>)
    requires Acquires(f0, f1, b0, b1) && Acquires(f1, f2, b1, b2)
    ensures Acquires(f0, f2, b0, b2)
  {
    assert forall i :: 0 <= i < |f1.data| ==> f2.data[i] == f1.data[i];
    assert forall i :: 0 <= i < |f1.index| ==> f2.index[i] == f1.index[i];
    forall i | |f0.data| <= i < |f2.data| ensures !b0[f2.data[i]] {
      assert b1[f2.data[i]] <==> b0[f2.data[i]] || f2.data[i] in f1.data || f2.data[i] in f1.index;
    }
    forall i | |f0.index| <= i < |f2.index| ensures !b0[f2.index[i]] {
      assert b1[f2.index[i]] <==> b0[f2.index[i]] || f2.index[i] in f1.data || f2.index[i] in f1.index;
    }
  }

  /** First fit: whatever was taken, every lower sector that was free was taken too. */
  ghost predicate TakesLowest(b0: seq<bool>, b1: seq<bool>) {
    && |b0| == |b1| && (forall s :: 0 <= s < |b0| && b0[s] ==> b1[s])
    && forall s, t :: 0 <= s < t < |b0| && !b0[s] && !b0[t] && b1[t] ==> b1[s]
  }

  lemma TakesLowestTrans(b0: seq<bool>, b1: seq<bool>, b2: seq<bool>)
    requires TakesLowest(b0, b1) && TakesLowest(b1, b2)
    ensures TakesLowest(b0, b2)
  {
  }

  /** Exactly the sectors of `f` have been given back. */
  ghost predicate Releases(f: FileMap, bits1: seq<bool>, bits2: seq<bool>) {
    |bits1| == |bits2| && forall s :: 0 <= s < |bits1| ==> (bits2[s] <==> bits1[s] && s !in f.data && s !in f.index)
  }

  /** However a file came to its size, by any number of growths from nothing, releasing it restores
      the free map of the time before it existed. */
  lemma {:induction false} FreeMapRestored(fs: seq<FileMap>, bs: seq<seq<bool>>, after: seq<bool>)
    requires |fs| == |bs| > 0 && fs[0] == FileMap([], [])
    requires forall i, j :: 0 <= i < j == i + 1 < |fs| ==> Acquires(fs[i], fs[j], bs[i], bs[j])
    requires Releases(fs[|fs| - 1], bs[|bs| - 1], after)
    ensures after == bs[0]
  {
    var last := |fs| - 1;
    GrowthsAcquire(fs, bs, last);
    forall s | 0 <= s < |after| ensures after[s] == bs[0][s] {
      if s in fs[last].data {
        var i :| 0 <= i < |fs[last].data| && fs[last].data[i] == s;
      } else if s in fs[last].index {
        var i :| 0 <= i < |fs[last].index| && fs[last].index[i] == s;
      }
    }
  }

  lemma {:induction false} GrowthsAcquire(fs: seq<FileMap>, bs: seq<seq<bool>>, k: nat)
    requires k < |fs| == |bs| && fs[0] == FileMap([], [])
    requires forall i, j :: 0 <= i < j == i + 1 < |fs| ==> Acquires(fs[i], fs[j], bs[i], bs[j])
    ensures Acquires(fs[0], fs[k], bs[0], bs[k])
  {
    if k > 0 {
      GrowthsAcquire(fs, bs, k - 1);
      AcquiresTrans(fs[0], fs[k - 1], fs[k], bs[0], bs[k - 1], bs[k]);
    }
  }

  ghost predicate Marked(f: FileMap, bits: seq<bool>) {
    && (forall i :: 0 <= i < |f.data| ==> f.data[i] < |bits| && bits[f.data[i]])
    && (forall i :: 0 <= i < |f.index| ==> f.index[i] < |bits| && bits[f.index[i]])
  }

  lemma ExtendsRefl(f: FileMap, bits: seq<bool>, sec: seq<Sector>)
    requires Marked(f, bits) && NoSharing(f) && |bits| == |sec|
    ensures Extends(f, f, bits, bits, sec, sec)
  {
  }

  lemma ExtendsTrans(f0: FileMap, f1: FileMap, f2: FileMap, b0: seq<bool>, b1: seq<bool>, b2: seq<bool>,
                     s0: seq<Sector>, s1: seq<Sector>, s2: seq<Sector>)
    requires Extends(f0, f1, b0, b1, s0, s1) && Extends(f1, f2, b1, b2, s1, s2)
    ensures Extends(f0, f2, b0, b2, s0, s2)
  {
    AcquiresTrans(f0, f1, f2, b0, b1, b2);
    assert forall i :: 0 <= i < |f1.data| ==> f2.data[i] == f1.data[i];
    forall i | |f0.data| <= i < |f2.data| ensures s2[f2.data[i]] == ZeroSector() {
    }
    forall s | 0 <= s < |s0| && s !in f2.data[|f0.data|..] && s !in f2.index ensures s2[s] == s0[s] {
      forall j | |f1.data| <= j < |f2.data|
        ensures f2.data[j] != s
      {
        assert f2.data[|f0.data|..][j - |f0.data|] == f2.data[j];
      }
      forall j | |f0.data| <= j < |f1.data|
        ensures f1.data[j] != s
      {
        assert f2.data[|f0.data|..][j - |f0.data|] == f1.data[j];
      }
      forall j | 0 <= j < |f1.index| ensures f1.index[j] != s { assert f2.index[j] == f1.index[j]; }
    }
  }

  /** Map one more data sector through a direct pointer. */
  lemma MapDirect(f: FileMap, ptrs: seq<nat>, sectors: seq<Sector>, s: nat, sectors': seq<Sector>)
    requires Maps(f, ptrs, sectors) && |f.data| < DIRECT && s < |sectors| == |sectors'|
    ensures Maps(FileMap(f.data + [s], f.index), ptrs[|f.data| := s], sectors')
  {
  }

  /** Up to one index block's worth of data sectors fills part of index block `j`. */
  lemma IndexArithmetic(n: nat, m: nat)
    requires DIRECT <= n && 0 < m && IndirectIdx(n) + m <= PTRS
    ensures var j := (n - DIRECT) / PTRS;
            && DirectIdx(n) == DIRECT + j && n == DIRECT + PTRS * j + IndirectIdx(n)
            && IndexCount(n) == (if IndirectIdx(n) == 0 then j else j + 1)
            && IndexCount(n + m) == j + 1
    ensures n < MAX_SECTORS ==> (n - DIRECT) / PTRS < 10 && n + m <= MAX_SECTORS
  {
  }

  /** Where the next data sector goes after `m` more have gone into the current index block. */
  lemma NextPosition(n: nat, m: nat)
    requires DIRECT <= n && IndirectIdx(n) + m <= PTRS
    ensures if IndirectIdx(n) + m == PTRS then DirectIdx(n + m) == DirectIdx(n) + 1 && IndirectIdx(n + m) == 0
            else DirectIdx(n + m) == DirectIdx(n) && IndirectIdx(n + m) == IndirectIdx(n) + m
  {
  }

  /** The files and pointers before and after mapping `more` data sectors through one index block. */
  ghost predicate GrowsBy(f: FileMap, ptrs: seq<nat>, more: seq<nat>, ib: nat, f': FileMap, ptrs': seq<nat>) {
    var n := |f.data|;
    && |ptrs| == INODE_PTRS && DIRECT <= n && 0 < |more| && n + |more| <= MAX_SECTORS && IndirectIdx(n) + |more| <= PTRS
    && f'.data == f.data + more
    && if IndirectIdx(n) == 0 then
         f'.index == f.index + [ib] && ptrs' == ptrs[DirectIdx(n) := ib]
       else
         f'.index == f.index && ptrs' == ptrs && ib == ptrs[DirectIdx(n)]
  }

  /** `block` lists the data sectors of the index block that `f'` ends in. */
  ghost predicate BlockOf(block: seq<Ptr>, f': FileMap, j: nat) {
    && |block| == PTRS
    && forall i :: DIRECT + PTRS * j <= i < |f'.data| && i < DIRECT + PTRS * (j + 1) ==>
       block[i - DIRECT - PTRS * j] == f'.data[i]
  }

  lemma BlockFilled(f: FileMap, more: seq<nat>, f': FileMap, block: seq<Ptr>)
    requires DIRECT <= |f.data| && f'.data == f.data + more && |block| == PTRS && IndirectIdx(|f.data|) + |more| <= PTRS
    requires 0 < |more|
    requires forall t :: 0 <= t < |more| ==> block[IndirectIdx(|f.data|) + t] == more[t]
    requires forall t :: 0 <= t < IndirectIdx(|f.data|) ==> block[t] == f.data[|f.data| - IndirectIdx(|f.data|) + t]
    ensures BlockOf(block, f', (|f.data| - DIRECT) / PTRS)
  {
    var n, k := |f.data|, IndirectIdx(|f.data|);
    var j := (n - DIRECT) / PTRS;
    IndexArithmetic(n, |more|);
    forall i | DIRECT + PTRS * j <= i < |f'.data| && i < DIRECT + PTRS * (j + 1)
      ensures block[i - DIRECT - PTRS * j] == f'.data[i]
    {
      var t := i - DIRECT - PTRS * j;
      if t < k { assert block[t] == f.data[n - k + t]; } else { assert block[k + (t - k)] == more[t - k]; }
    }
  }

  /** Map `more` data sectors through one index block `ib`, stored as `block`. */
  lemma MapIndirect(f: FileMap, ptrs: seq<nat>, sectors: seq<Sector>, more: seq<nat>, ib: nat, f': FileMap,
                    ptrs': seq<nat>, block: seq<Ptr>, sectors': seq<Sector>)
    requires Maps(f, ptrs, sectors) && GrowsBy(f, ptrs, more, ib, f', ptrs') && NoSharing(f')
    requires BlockOf(block, f', (|f.data| - DIRECT) / PTRS)
    requires |sectors'| == |sectors| && Exist(f'.data, |sectors|) && Exist(f'.index, |sectors|)
    requires ib < |sectors| && sectors'[ib] == EncodeBlock(block)
    requires forall s :: s in f.index && s != ib ==> sectors'[s] == sectors[s]
    ensures Maps(f', ptrs', sectors')
  {
    hide PtrAt, EncodeBlock;
    var n, j := |f.data|, (|f.data| - DIRECT) / PTRS;
    IndexArithmetic(n, |more|);
    assert f'.index[j] == ib;
    forall i | DIRECT <= i < |f'.data|
      ensures PtrAt(sectors'[f'.index[(i - DIRECT) / PTRS]], (i - DIRECT) % PTRS) == f'.data[i]
    {
      var t := i - DIRECT;
      if t / PTRS == j {
        BlockWord(block, t % PTRS);
        assert block[i - DIRECT - PTRS * j] == f'.data[i];
      } else {
        assert t / PTRS < j && i < n;
        assert f.index[t / PTRS] in f.index && f'.index[t / PTRS] != f'.index[j];
      }
    }
  }

  lemma ExtendDirect(f: FileMap, bits: seq<bool>, sec: seq<Sector>, s: nat)
    requires Marked(f, bits) && NoSharing(f) && |bits| == |sec| && s < |bits| && !bits[s]
    ensures var f' := FileMap(f.data + [s], f.index);
            && Extends(f, f', bits, bits[s := true], sec, sec[s := ZeroSector()])
            && NoSharing(f') && Marked(f', bits[s := true])
  {
    var f' := FileMap(f.data + [s], f.index);
    assert f'.data[|f.data|..] == [s];
  }

  /** The sectors `more` were free, are now marked and zeroed, and nothing else has changed. */
  ghost predicate TookZeroed(more: seq<nat>, b0: seq<bool>, b1: seq<bool>, s0: seq<Sector>, s1: seq<Sector>) {
    && |b0| == |b1| == |s0| == |s1| && Distinct(more)
    && (forall i :: 0 <= i < |more| ==> more[i] < |b0| && !b0[more[i]] && s1[more[i]] == ZeroSector())
    && (forall s :: 0 <= s < |b0| ==> (b1[s] <==> b0[s] || s in more))
    && (forall s :: 0 <= s < |s0| && s !in more ==> s1[s] == s0[s])
  }

  lemma TookOneMore(more: seq<nat>, b0: seq<bool>, b1: seq<bool>, s0: seq<Sector>, s1: seq<Sector>, s: nat)
    requires TookZeroed(more, b0, b1, s0, s1) && s < |b1| && !b1[s]
    ensures TookZeroed(more + [s], b0, b1[s := true], s0, s1[s := ZeroSector()])
  {
  }

  lemma IndexBlockIn(f: FileMap, ptrs: seq<nat>, sectors: seq<Sector>, more: seq<nat>, ib: nat, f': FileMap,
                     ptrs': seq<nat>)
    requires GrowsBy(f, ptrs, more, ib, f', ptrs') && Maps(f, ptrs, sectors)
    ensures ib in f'.index && (IndirectIdx(|f.data|) != 0 ==> ib in f.index)
  {
    var n := |f.data|;
    IndexArithmetic(n, |more|);
    if IndirectIdx(n) != 0 {
      assert f.index[(n - DIRECT) / PTRS] == ib;
    } else {
      assert f'.index[|f.index|] == ib;
    }
  }

  /** The free map and file map parts of an indirect extension: `f'` is `f` with `more` and `added`. */
  lemma ExtendOwned(f: FileMap, f': FileMap, more: seq<nat>, added: seq<nat>, b0: seq<bool>, b1: seq<bool>,
                    b2: seq<bool>)
    requires f'.data == f.data + more && f'.index == f.index + added && |added| <= 1
    requires NoSharing(f) && Marked(f, b0) && |b0| == |b1| == |b2|
    requires forall i :: 0 <= i < |added| ==> added[i] < |b0| && !b0[added[i]]
    requires forall s :: 0 <= s < |b0| ==> (b1[s] <==> b0[s] || s in added)
    requires Distinct(more) && forall i :: 0 <= i < |more| ==> more[i] < |b0| && !b1[more[i]]
    requires forall s :: 0 <= s < |b0| ==> (b2[s] <==> b1[s] || s in more)
    ensures NoSharing(f') && Marked(f', b2)
    ensures forall s :: 0 <= s < |b0| ==> (b2[s] <==> b0[s] || s in f'.data || s in f'.index)
  {
    assert forall i :: 0 <= i < |more| ==> more[i] in more;
    assert forall i :: 0 <= i < |added| ==> added[i] in added;
  }

  /** Taking an index sector `ib` if a new one is needed, then the data sectors `more`, and writing the
      index block is an extension of the file. */
  lemma ExtendIndirect(f: FileMap, ptrs: seq<nat>, more: seq<nat>, ib: nat, f': FileMap, ptrs': seq<nat>,
                       b0: seq<bool>, b1: seq<bool>, b2: seq<bool>, s0: seq<Sector>, s2: seq<Sector>, block: Sector)
    requires GrowsBy(f, ptrs, more, ib, f', ptrs') && Maps(f, ptrs, s0) && NoSharing(f) && Marked(f, b0) && |b0| == |s0|
    requires ib < |b0| && if IndirectIdx(|f.data|) == 0 then !b0[ib] && b1 == b0[ib := true] else b1 == b0
    requires TookZeroed(more, b1, b2, s0, s2)
    ensures ib in f'.index && NoSharing(f') && Marked(f', b2)
    ensures Extends(f, f', b0, b2, s0, s2[ib := block])
  {
    hide Maps;
    IndexBlockIn(f, ptrs, s0, more, ib, f', ptrs');
    var added := if IndirectIdx(|f.data|) == 0 then [ib] else [];
    assert f'.index == f.index + added;
    ExtendOwned(f, f', more, added, b0, b1, b2);
    assert f'.data[|f.data|..] == more;
    assert forall i :: 0 <= i < |more| ==> more[i] != ib;
  }

  // ---------- growth and the bytes of the file ----------

  /** All the bytes of the file's sectors are those of the file, then zeros. */
  ghost predicate ZeroTail(data: seq<nat>, sectors: seq<Sector>, length: nat) {
    && length <= SECTOR_SIZE * |data| && Exist(data, |sectors|)
    && forall i :: length <= i < SECTOR_SIZE * |data| ==> ByteAt(data, sectors, i) == 0
  }

  lemma GrownByte(f0: FileMap, f1: FileMap, b0: seq<bool>, b1: seq<bool>, s0: seq<Sector>, s1: seq<Sector>, i: nat)
    requires Extends(f0, f1, b0, b1, s0, s1) && NoSharing(f1) && Marked(f0, b0) && i / SECTOR_SIZE < |f1.data|
    ensures i / SECTOR_SIZE < |f0.data| ==> ByteAt(f1.data, s1, i) == ByteAt(f0.data, s0, i)
    ensures i / SECTOR_SIZE >= |f0.data| ==> ByteAt(f1.data, s1, i) == 0
  {
    var k := i / SECTOR_SIZE;
    if k < |f0.data| {
      var s := f0.data[k];
      assert f1.data[k] == s && b0[s];
      assert s !in f1.index;
      assert s !in f1.data[|f0.data|..];
    }
  }

  /** A grown file reads as the old one followed by zeros. */
  lemma GrownContents(f0: FileMap, f1: FileMap, b0: seq<bool>, b1: seq<bool>, s0: seq<Sector>, s1: seq<Sector>,
                      len0: nat, len1: nat)
    requires Extends(f0, f1, b0, b1, s0, s1) && NoSharing(f1) && Marked(f0, b0)
    requires len0 <= len1 <= SECTOR_SIZE * |f1.data| && ZeroTail(f0.data, s0, len0)
    ensures ZeroTail(f1.data, s1, len1)
    ensures Flat(f1.data, s1, len1) == ZeroExtend(Flat(f0.data, s0, len0), len1)
  {
    forall i | 0 <= i < SECTOR_SIZE * |f1.data|
      ensures ByteAt(f1.data, s1, i) == if i < len0 then ByteAt(f0.data, s0, i) else 0
    {
      GrownByte(f0, f1, b0, b1, s0, s1, i);
    }
    hide Extends, NoSharing;
    var a, b := Flat(f1.data, s1, len1), ZeroExtend(Flat(f0.data, s0, len0), len1);
    assert forall i :: 0 <= i < len1 ==> a[i] == b[i];
  }

  /** Writing one chunk keeps the zeros past the end. */
  lemma PatchTail(data: seq<nat>, sectors: seq<Sector>, length: nat, pos: nat, bytes: seq<Byte>)
    requires ZeroTail(data, sectors, length) && Distinct(data)
    requires pos + |bytes| <= length && pos % SECTOR_SIZE + |bytes| <= SECTOR_SIZE && |bytes| > 0
    ensures pos / SECTOR_SIZE < |data|
    ensures var s := data[pos / SECTOR_SIZE];
            ZeroTail(data, sectors[s := Patch(sectors[s], pos % SECTOR_SIZE, bytes)], length)
  {
    var s := data[pos / SECTOR_SIZE];
    var sectors' := sectors[s := Patch(sectors[s], pos % SECTOR_SIZE, bytes)];
    forall i | length <= i < SECTOR_SIZE * |data| ensures ByteAt(data, sectors', i) == 0 {
      assert ByteAt(data, sectors, i) == 0;
      if i / SECTOR_SIZE != pos / SECTOR_SIZE { assert data[i / SECTOR_SIZE] != s; }
    }
  }

  lemma SpliceMore(s: seq<Byte>, offset: nat, bytes: seq<Byte>, w: nat, n: nat)
    requires offset + |bytes| <= |s| && w + n <= |bytes|
    ensures Splice(Splice(s, offset, bytes[..w]), offset + w, bytes[w..w + n]) == Splice(s, offset, bytes[..w + n])
  {
  }
}
