/** The write-back buffer cache of PintOS/src/filesys/buffer-cache.c over a block device. */
module BufferCache {
  import opened Prelude

  const SECTOR_SIZE: nat := 512
  const CACHE_SIZE: nat := 64

  /** The contents of one sector. */
  type Sector = s: seq<Byte> | |s| == SECTOR_SIZE witness seq(SECTOR_SIZE, _ => 0)

  /** `struct cache_cell`, without its lock: calls are taken one at a time. */
  datatype Cell = Cell(data: Sector, sector: nat, dirty: bool, recent: bool, valid: bool, users: int)

  // ---------- what a cache means ----------

  /** No sector is cached twice, and only valid cells are dirty. */
  ghost predicate Formed(cells: seq<Cell>, disk: seq<Sector>) {
    && (forall i :: 0 <= i < |cells| && cells[i].dirty ==> cells[i].valid)
    && (forall i :: 0 <= i < |cells| && cells[i].valid ==> cells[i].sector < |disk|)
    && (forall i, j :: 0 <= i < j < |cells| && cells[i].valid && cells[j].valid ==> cells[i].sector != cells[j].sector)
  }

  /** And clean cells agree with the device. */
  ghost predicate Coherent(cells: seq<Cell>, disk: seq<Sector>) {
    && Formed(cells, disk)
    && (forall i :: 0 <= i < |cells| && cells[i].valid && !cells[i].dirty ==> cells[i].data == disk[cells[i].sector])
  }

  /** The cell holding sector `s`, or `|cells|`. */
  function Lookup(cells: seq<Cell>, s: nat): (i: nat)
    ensures i <= |cells|
    ensures i < |cells| ==> cells[i].valid && cells[i].sector == s
    ensures forall j :: 0 <= j < i ==> !(cells[j].valid && cells[j].sector == s)
  {
    if cells == [] then 0
    else if cells[0].valid && cells[0].sector == s then 0
    else
      var k := Lookup(cells[1..], s);
      assert forall j :: 1 <= j < |cells| ==> cells[j] == cells[1..][j - 1];
      k + 1
  }

  predicate Resident(cells: seq<Cell>, s: nat) { Lookup(cells, s) < |cells| }

  /** What a reader sees in sector `s`: the cached copy if there is one, else the device. */
  function View(cells: seq<Cell>, disk: seq<Sector>, s: nat): Sector
    requires s < |disk|
  {
    var i := Lookup(cells, s);
    if i < |cells| then cells[i].data else disk[s]
  }

  /** The plain sector array that the cache and the device stand for. */
  function Logical(cells: seq<Cell>, disk: seq<Sector>): (l: seq<Sector>)
    ensures |l| == |disk|
  {
    seq(|disk|, s requires 0 <= s < |disk| => View(cells, disk, s))
  }

  function Patch(s: Sector, offset: nat, bytes: seq<Byte>): Sector
    requires offset + |bytes| <= SECTOR_SIZE
  {
    s[..offset] + bytes + s[offset + |bytes|..]
  }

  predicate Holds(c: Cell, s: nat) { c.valid && c.sector == s }

  /** Two caches that hold sector `s` in the same places give the same answer for it. */
  lemma LookupAgrees(cells: seq<Cell>, cells': seq<Cell>, s: nat)
    requires |cells| == |cells'| && forall j :: 0 <= j < |cells| ==> (Holds(cells[j], s) <==> Holds(cells'[j], s))
    ensures Lookup(cells, s) == Lookup(cells', s)
  {
    var i, j := Lookup(cells, s), Lookup(cells', s);
    assert i < |cells| ==> Holds(cells[i], s);
    assert j < |cells'| ==> Holds(cells'[j], s);
  }

  lemma ResidentMeans(cells: seq<Cell>, s: nat)
    ensures Resident(cells, s) <==> exists j :: 0 <= j < |cells| && Holds(cells[j], s)
  {
    var i := Lookup(cells, s);
    if i < |cells| { assert Holds(cells[i], s); }
  }

  lemma LookupUnique(cells: seq<Cell>, disk: seq<Sector>, i: nat)
    requires Formed(cells, disk) && i < |cells| && cells[i].valid
    ensures Lookup(cells, cells[i].sector) == i
  {
  }

  /** Changing one cell in a way that keeps its sector and data changes no view. */
  lemma TouchKeepsLogical(cells: seq<Cell>, disk: seq<Sector>, i: nat, c: Cell)
    requires Coherent(cells, disk) && i < |cells|
    requires c.valid == cells[i].valid && (c.valid ==> c.sector == cells[i].sector && c.data == cells[i].data)
    requires c.dirty == cells[i].dirty
    ensures Coherent(cells[i := c], disk) && Logical(cells[i := c], disk) == Logical(cells, disk)
    ensures forall s :: Resident(cells[i := c], s) <==> Resident(cells, s)
  {
    forall s: nat ensures Lookup(cells[i := c], s) == Lookup(cells, s) { LookupAgrees(cells, cells[i := c], s); }
  }

  /** Writing a dirty cell back to the device changes no view. */
  lemma WriteBackKeepsLogical(cells: seq<Cell>, disk: seq<Sector>, i: nat)
    requires Coherent(cells, disk) && i < |cells| && cells[i].valid
    ensures var disk' := disk[cells[i].sector := cells[i].data];
            Coherent(cells[i := cells[i].(dirty := false)], disk') && Logical(cells, disk') == Logical(cells, disk)
  {
    LookupUnique(cells, disk, i);
  }

  /** Dropping a clean cell changes no view. */
  lemma DropKeepsLogical(cells: seq<Cell>, disk: seq<Sector>, i: nat)
    requires Coherent(cells, disk) && i < |cells| && (cells[i].valid ==> !cells[i].dirty)
    ensures var cells' := cells[i := cells[i].(valid := false, dirty := false)];
            Coherent(cells', disk) && Logical(cells', disk) == Logical(cells, disk)
    ensures forall s: nat :: Resident(cells[i := cells[i].(valid := false, dirty := false)], s) <==>
              Resident(cells, s) && !(cells[i].valid && cells[i].sector == s)
  {
    var cells' := cells[i := cells[i].(valid := false, dirty := false)];
    forall s: nat ensures Resident(cells', s) <==> Resident(cells, s) && !(cells[i].valid && cells[i].sector == s)
                  ensures Resident(cells', s) ==> Lookup(cells', s) == Lookup(cells, s)
    {
      if Holds(cells[i], s) {
        LookupUnique(cells, disk, i);
        ResidentMeans(cells', s);
      } else {
        LookupAgrees(cells, cells', s);
      }
    }
  }

  /** Filling an invalid cell with a sector that is not cached changes no view. */
  lemma LoadKeepsLogical(cells: seq<Cell>, disk: seq<Sector>, i: nat, c: Cell)
    requires Coherent(cells, disk) && i < |cells| && !cells[i].valid
    requires c.valid && !c.dirty && c.sector < |disk| && c.data == disk[c.sector] && !Resident(cells, c.sector)
    ensures Coherent(cells[i := c], disk) && Logical(cells[i := c], disk) == Logical(cells, disk)
    ensures forall s: nat :: Resident(cells[i := c], s) <==> Resident(cells, s) || s == c.sector
  {
    var cells' := cells[i := c];
    forall s: nat ensures Resident(cells', s) <==> Resident(cells, s) || s == c.sector
                  ensures s != c.sector && Resident(cells, s) ==> Lookup(cells', s) == Lookup(cells, s)
                  ensures s == c.sector ==> Lookup(cells', s) == i
    {
      if s == c.sector {
        ResidentMeans(cells, s);
        assert forall j :: 0 <= j < i ==> !Holds(cells'[j], s);
        assert Holds(cells'[i], s);
      } else {
        LookupAgrees(cells, cells', s);
      }
    }
  }

  /** Writing through a valid cell changes exactly that sector's view. */
  lemma StoreChangesOne(cells: seq<Cell>, disk: seq<Sector>, i: nat, data: Sector)
    requires Coherent(cells, disk) && i < |cells| && cells[i].valid
    ensures var cells' := cells[i := cells[i].(data := data, dirty := true)];
            Coherent(cells', disk) && Logical(cells', disk) == Logical(cells, disk)[cells[i].sector := data]
    ensures forall s: nat :: Resident(cells[i := cells[i].(data := data, dirty := true)], s) <==> Resident(cells, s)
  {
    LookupUnique(cells, disk, i);
    var cells' := cells[i := cells[i].(data := data, dirty := true)];
    forall s: nat ensures Lookup(cells', s) == Lookup(cells, s) { LookupAgrees(cells, cells', s); }
  }

  /** Access bits and use counts play no part in what a cache means. */
  lemma BookkeepingIrrelevant(cells: seq<Cell>, cells': seq<Cell>, disk: seq<Sector>)
    requires Coherent(cells, disk) && |cells'| == |cells|
    requires forall k :: 0 <= k < |cells| ==>
             cells'[k] == cells[k].(recent := cells'[k].recent, users := cells'[k].users)
    ensures Coherent(cells', disk) && Logical(cells', disk) == Logical(cells, disk)
    ensures forall s: nat :: Resident(cells', s) <==> Resident(cells, s)
  {
    forall s: nat ensures Lookup(cells', s) == Lookup(cells, s) { LookupAgrees(cells, cells', s); }
  }

  /** The device after writing back cell `i` if it is dirty. */
  function WrittenBack(cells: seq<Cell>, disk: seq<Sector>, i: nat): seq<Sector>
    requires Formed(cells, disk) && i < |cells|
  {
    if cells[i].dirty then disk[cells[i].sector := cells[i].data] else disk
  }

  /** Replacing the contents of cell `i` by a sector that is not cached, after writing it back,
      changes no view. */
  lemma ReplaceKeepsLogical(cells: seq<Cell>, disk: seq<Sector>, i: nat, s: nat, c: Cell)
    requires Coherent(cells, disk) && i < |cells| && s < |disk| && !Resident(cells, s)
    requires c.valid && !c.dirty && c.sector == s && c.data == WrittenBack(cells, disk, i)[s]
    ensures var disk' := WrittenBack(cells, disk, i);
            && |disk'| == |disk|
            && Coherent(cells[i := c], disk') && Logical(cells[i := c], disk') == Logical(cells, disk)
    ensures forall t: nat :: Resident(cells[i := c], t) ==> Resident(cells, t) || t == s
    ensures Resident(cells[i := c], s) && Lookup(cells[i := c], s) == i
  {
    var disk' := WrittenBack(cells, disk, i);
    if cells[i].dirty { WriteBackKeepsLogical(cells, disk, i); }
    var clean := cells[i := cells[i].(dirty := false)];
    CleanView(cells, disk', i);
    DropKeepsLogical(clean, disk', i);
    var empty := clean[i := clean[i].(valid := false, dirty := false)];
    LoadKeepsLogical(empty, disk', i, c);
    assert empty[i := c] == cells[i := c];
    LookupUnique(cells[i := c], disk', i);
  }

  lemma CleanView(cells: seq<Cell>, disk: seq<Sector>, i: nat)
    requires i < |cells|
    ensures Logical(cells[i := cells[i].(dirty := false)], disk) == Logical(cells, disk)
    ensures forall s: nat :: Resident(cells[i := cells[i].(dirty := false)], s) <==> Resident(cells, s)
  {
    forall s: nat ensures Lookup(cells[i := cells[i].(dirty := false)], s) == Lookup(cells, s) {
      LookupAgrees(cells, cells[i := cells[i].(dirty := false)], s);
    }
  }

  lemma RawWriteView(cells: seq<Cell>, disk: seq<Sector>, s: nat, data: Sector)
    requires Formed(cells, disk) && s < |disk|
    ensures Formed(cells, disk[s := data])
    ensures Logical(cells, disk[s := data]) ==
            if Resident(cells, s) then Logical(cells, disk) else Logical(cells, disk)[s := data]
    ensures Coherent(cells, disk) && !Resident(cells, s) ==> Coherent(cells, disk[s := data])
  {
    ResidentMeans(cells, s);
    forall i | 0 <= i < |cells| && cells[i].valid && !Resident(cells, s)
      ensures cells[i].sector != s
    {
      assert !Holds(cells[i], s);
    }
  }

  /** Writing the device behind the cache's back is seen by readers exactly when the sector is not
      cached, or its cached copy happens to hold the same bytes. */
  lemma RawWriteSeenIff(cells: seq<Cell>, disk: seq<Sector>, s: nat, data: Sector)
    requires Coherent(cells, disk) && s < |disk|
    ensures View(cells, disk[s := data], s) == data <==>
            !Resident(cells, s) || cells[Lookup(cells, s)].data == data
    ensures !Resident(cells, s) ==>
              && Coherent(cells, disk[s := data])
              && Logical(cells, disk[s := data]) == Logical(cells, disk)[s := data]
  {
  }

  /** How many cells the clock hand passes, from `start`, before it comes to cell `k`. */
  function Ahead(start: nat, k: nat): (r: nat)
    requires start < CACHE_SIZE && k < CACHE_SIZE
    ensures r < CACHE_SIZE
  {
    if k >= start then k - start else k + CACHE_SIZE - start
  }

  lemma AheadOf(start: nat, steps: nat)
    requires start < CACHE_SIZE && steps < 2 * CACHE_SIZE
    ensures Ahead(start, (start + steps) % CACHE_SIZE) == if steps < CACHE_SIZE then steps else steps - CACHE_SIZE
  {
    Wrapped(start + steps);
  }

  /** A cell that can be taken at once. */
  predicate Victim(c: Cell) { !c.valid || (c.users <= 0 && !c.recent) }

  /** What the hand leaves behind after `steps` cells: an unused cell that it passed has lost its access bit. */
  function Swept(c: Cell, ahead: nat, steps: nat): Cell {
    c.(recent := c.recent && !(ahead < steps && c.users <= 0))
  }

  /** Cell `k` after `steps` steps of the hand: a cell it passed could not be taken at once, and one that it passed
      twice is in use. */
  ghost predicate Passed(was: Cell, now: Cell, ahead: nat, steps: nat) {
    && now == Swept(was, ahead, steps)
    && (ahead < steps ==> !Victim(was)) && (ahead + CACHE_SIZE < steps ==> was.users > 0)
  }

  ghost predicate Sweep(was: seq<Cell>, now: seq<Cell>, start: nat, steps: nat) {
    && |was| == |now| == CACHE_SIZE && start < CACHE_SIZE
    && forall k :: 0 <= k < CACHE_SIZE ==> Passed(was[k], now[k], Ahead(start, k), steps)
  }

  /** The hand goes on from cell `i`, which is in use or recently accessed. */
  lemma SweepOn(was: seq<Cell>, now: seq<Cell>, start: nat, steps: nat, i: nat, c: Cell)
    requires Sweep(was, now, start, steps) && steps < 2 * CACHE_SIZE && i == (start + steps) % CACHE_SIZE < CACHE_SIZE
    requires !Victim(now[i]) && c == now[i].(recent := now[i].recent && now[i].users > 0)
    ensures Sweep(was, now[i := c], start, steps + 1)
  {
    hide Victim;
    AheadOf(start, steps);
    forall k | 0 <= k < CACHE_SIZE ensures Passed(was[k], now[i := c][k], Ahead(start, k), steps + 1) {
      assert Passed(was[k], now[k], Ahead(start, k), steps);
      if k == i {
        PassedNow(was[i], now[i], steps, c);
      } else {
        assert Ahead(start, k) != Ahead(start, i);
        PassedBefore(was[k], now[k], Ahead(start, k), steps);
      }
    }
  }

  lemma PassedNow(was: Cell, now: Cell, steps: nat, c: Cell)
    requires steps < 2 * CACHE_SIZE && !Victim(now) && c == now.(recent := now.recent && now.users > 0)
    requires Passed(was, now, if steps < CACHE_SIZE then steps else steps - CACHE_SIZE, steps)
    ensures Passed(was, c, if steps < CACHE_SIZE then steps else steps - CACHE_SIZE, steps + 1)
  {
  }

  lemma PassedBefore(was: Cell, now: Cell, ahead: nat, steps: nat)
    requires Passed(was, now, ahead, steps) && steps < 2 * CACHE_SIZE && ahead < CACHE_SIZE
    requires ahead != if steps < CACHE_SIZE then steps else steps - CACHE_SIZE
    ensures Passed(was, now, ahead, steps + 1)
  {
  }

  /** It stops before it has gone round twice, if some cell `j` is invalid or unused. */
  lemma SweepStops(was: seq<Cell>, now: seq<Cell>, start: nat, steps: nat, j: nat, i: nat)
    requires Sweep(was, now, start, steps) && i == (start + steps) % CACHE_SIZE < CACHE_SIZE && j < CACHE_SIZE
    requires !was[j].valid || was[j].users <= 0
    requires steps == Ahead(start, j) + CACHE_SIZE
    ensures i == j && Victim(now[i])
  {
    AheadOf(start, steps);
    assert Passed(was[j], now[j], Ahead(start, j), steps);
  }

  lemma SweepResult(was: seq<Cell>, now: seq<Cell>, start: nat, steps: nat, i: nat)
    requires Sweep(was, now, start, steps) && i == (start + steps) % CACHE_SIZE < CACHE_SIZE && steps < 2 * CACHE_SIZE
    requires Victim(now[i])
    ensures Ahead(start, i) == if steps < CACHE_SIZE then steps else steps - CACHE_SIZE
    ensures if steps < CACHE_SIZE then Victim(was[i]) else was[i].users <= 0
  {
    AheadOf(start, steps);
    assert Passed(was[i], now[i], Ahead(start, i), steps);
  }

  /** Cell `i` is the first from `start` on that can be taken at once, or, if there is none, the first unused one. */
  ghost predicate Chosen(was: seq<Cell>, start: nat, i: nat)
    requires |was| == CACHE_SIZE && start < CACHE_SIZE && i < CACHE_SIZE
  {
    if exists k :: 0 <= k < CACHE_SIZE && Victim(was[k]) then
      Victim(was[i]) && forall k :: 0 <= k < CACHE_SIZE && Victim(was[k]) ==> Ahead(start, i) <= Ahead(start, k)
    else
      was[i].users <= 0 && forall k :: 0 <= k < CACHE_SIZE && was[k].users <= 0 ==> Ahead(start, i) <= Ahead(start, k)
  }

  lemma SweepChooses(was: seq<Cell>, now: seq<Cell>, start: nat, steps: nat, i: nat)
    requires Sweep(was, now, start, steps) && i == (start + steps) % CACHE_SIZE < CACHE_SIZE && steps < 2 * CACHE_SIZE
    requires Victim(now[i])
    ensures Chosen(was, start, i)
  {
    hide Victim;
    SweepResult(was, now, start, steps, i);
    forall k | 0 <= k < CACHE_SIZE
      ensures Ahead(start, k) < steps ==> !Victim(was[k])
      ensures Ahead(start, k) + CACHE_SIZE < steps ==> was[k].users > 0
    {
      assert Passed(was[k], now[k], Ahead(start, k), steps);
    }
  }

  lemma SweepStart(was: seq<Cell>, start: nat)
    requires |was| == CACHE_SIZE && start < CACHE_SIZE
    ensures Sweep(was, was, start, 0)
  {
  }

  /** Only access bits change. */
  lemma SweepKeeps(was: seq<Cell>, now: seq<Cell>, start: nat, steps: nat)
    requires Sweep(was, now, start, steps)
    ensures |now| == |was| && forall k :: 0 <= k < |was| ==> now[k] == was[k].(recent := now[k].recent)
  {
    forall k | 0 <= k < |was| ensures now[k] == was[k].(recent := now[k].recent) {
      assert Passed(was[k], now[k], Ahead(start, k), steps);
    }
  }

  lemma NextHand(start: nat, steps: nat)
    requires start < CACHE_SIZE && steps < 2 * CACHE_SIZE
    ensures ((start + steps) % CACHE_SIZE + 1) % CACHE_SIZE == (start + (steps + 1)) % CACHE_SIZE
  {
    Wrapped(start + steps);
    Wrapped(start + steps + 1);
    Wrapped((start + steps) % CACHE_SIZE + 1);
  }

  lemma Wrapped(x: nat)
    requires x < 3 * CACHE_SIZE
    ensures x % CACHE_SIZE ==
            if x < CACHE_SIZE then x else if x < 2 * CACHE_SIZE then x - CACHE_SIZE else x - 2 * CACHE_SIZE
  {
  }

  // ---------- the cache ----------

  class Cache {
    const cells: array<Cell>
    var disk: seq<Sector>
    var clock: nat
    var hits: nat
    var misses: nat

    /** Between calls no cell is in use. */
    ghost predicate Sound()
      reads this, cells
    {
      && cells.Length == CACHE_SIZE && clock < CACHE_SIZE
      && Formed(cells[..], disk)
      && Idle()
    }

    ghost predicate Valid()
      reads this, cells
    {
      Sound() && Coherent(cells[..], disk)
    }

    ghost predicate Idle()
      reads cells
    {
      forall i :: 0 <= i < cells.Length ==> cells[i].users == 0
    }

    ghost function Contents(): seq<Sector>
      reads this, cells
    {
      Logical(cells[..], disk)
    }

    ghost predicate Holding(s: nat)
      reads cells
    {
      Resident(cells[..], s)
    }

    /** The cache holds sector `s`, and owes it to the device. */
    ghost predicate Dirty(s: nat)
      reads cells
    {
      Holding(s) && cells[..][Lookup(cells[..], s)].dirty
    }

    /** `cache_init` */
    constructor (device: seq<Sector>)
      ensures Valid() && fresh(cells) && disk == device && Contents() == device
      ensures forall s: nat :: !Holding(s)
    {
      disk := device;
      clock, hits, misses := 0, 0, 0;
      cells := new Cell[CACHE_SIZE](_ => Cell(seq(SECTOR_SIZE, _ => 0), 0, false, false, false, 0));
      new;
      forall s: nat ensures !Holding(s) { ResidentMeans(cells[..], s); }
    }

    /** `cache_search`: the cell holding sector `s`, or -1. */
    method Search(s: nat) returns (idx: int)
      requires Valid()
      modifies this`hits, this`misses
      ensures Holding(s) ==> idx == Lookup(cells[..], s)
      ensures !Holding(s) ==> idx == -1
      ensures hits == old(hits) + (if Holding(s) then 1 else 0)
      ensures misses == old(misses) + (if Holding(s) then 0 else 1)
    {
      for i := 0 to CACHE_SIZE
        invariant forall j :: 0 <= j < i ==> !Holds(cells[..][j], s)
      {
        if cells[i].sector == s && cells[i].valid {
          hits := hits + 1;
          assert Holds(cells[..][i], s);
          return i;
        }
      }
      misses := misses + 1;
      return -1;
    }

    /** `cache_evict`: the clock hand stops at the first cell ahead that is invalid, or unused and not recently
        accessed; unused cells that it passes lose their access bits. If there is no such cell it goes round once and
        stops at the first unused one. */
    method Evict() returns (idx: nat, ghost steps: nat)
      requires cells.Length == CACHE_SIZE && clock < CACHE_SIZE
      requires exists j :: 0 <= j < CACHE_SIZE && (!cells[j].valid || cells[j].users <= 0)
      modifies this`clock, cells
      ensures idx < CACHE_SIZE && clock == idx && steps < 2 * CACHE_SIZE
      ensures Chosen(old(cells[..]), old(clock), idx) && Victim(cells[idx])
      ensures Ahead(old(clock), idx) == if steps < CACHE_SIZE then steps else steps - CACHE_SIZE
      ensures Sweep(old(cells[..]), cells[..], old(clock), steps)
    {
      hide Sweep, Ahead, Chosen;
      ghost var j :| 0 <= j < CACHE_SIZE && (!cells[j].valid || cells[j].users <= 0);
      ghost var was, start := cells[..], clock;
      SweepStart(was, start);
      steps := 0;
      var i := clock;
      while true
        invariant i == (start + steps) % CACHE_SIZE && i < CACHE_SIZE && cells.Length == CACHE_SIZE
        invariant Sweep(was, cells[..], start, steps) && steps <= Ahead(start, j) + CACHE_SIZE
        decreases Ahead(start, j) + CACHE_SIZE - steps
      {
        ghost var now := cells[..];
        if steps == Ahead(start, j) + CACHE_SIZE { SweepStops(was, now, start, steps, j, i); }
        if !Victim(now[i]) {
          SweepOn(was, now, start, steps, i, now[i].(recent := now[i].recent && now[i].users > 0));
        } else {
          SweepResult(was, now, start, steps, i);
          SweepChooses(was, now, start, steps, i);
        }
        NextHand(start, steps);
        if !cells[i].valid {
          clock := i;
          return i, steps;
        }
        if cells[i].users <= 0 {
          if cells[i].recent {
            cells[i] := cells[i].(recent := false);
          } else {
            clock := i;
            return i, steps;
          }
        }
        clock := i;
        i := (i + 1) % CACHE_SIZE;
        steps := steps + 1;
        assert cells[..] == now[clock := cells[clock]];
      }
    }

    /** An access to a held sector counts as a hit, any other as a miss. */
    ghost predicate Counted(held: bool, hits0: nat, misses0: nat)
      reads this
    {
      hits == hits0 + (if held then 1 else 0) && misses == misses0 + (if held then 0 else 1)
    }

    /** `cache_fetch`: bring sector `s` into a cell and mark the cell in use. */
    method Fetch(s: nat) returns (idx: nat)
      requires Valid() && s < |disk|
      modifies this, cells
      ensures idx < cells.Length == CACHE_SIZE && clock < CACHE_SIZE && |disk| == old(|disk|)
      ensures Coherent(cells[..], disk) && Contents() == old(Contents())
      ensures Holds(cells[idx], s)
      ensures forall k :: 0 <= k < cells.Length ==> cells[k].users == if k == idx then 1 else 0
      ensures forall t: nat :: Holding(t) ==> old(Holding(t)) || t == s
      ensures !old(Holding(s)) ==> clock == idx && Chosen(old(cells[..]), old(clock), idx)
      ensures Counted(old(Holding(s)), old(hits), old(misses))
      ensures old(Holding(s)) ==> disk == old(disk) && clock == old(clock)
      ensures old(Holding(s)) ==> forall t: nat :: Holding(t) <==> old(Holding(t))
    {
      ghost var before := cells[..];
      var found := Search(s);
      if found == -1 {
        idx := Replace(s);
        return idx;
      }
      idx := found;
      cells[idx] := cells[idx].(recent := true, users := cells[idx].users + 1);
      BookkeepingIrrelevant(before, cells[..], disk);
    }

    /** Lines 69-82: a missing sector takes the place of the evicted one, which is written back if it is dirty. */
    method Replace(s: nat) returns (idx: nat)
      requires Valid() && s < |disk| && !Holding(s)
      modifies this`disk, this`clock, cells
      ensures idx < cells.Length == CACHE_SIZE && clock < CACHE_SIZE && |disk| == old(|disk|)
      ensures Coherent(cells[..], disk) && Contents() == old(Contents())
      ensures Holds(cells[idx], s)
      ensures forall k :: 0 <= k < cells.Length ==> cells[k].users == if k == idx then 1 else 0
      ensures forall t: nat :: Holding(t) ==> old(Holding(t)) || t == s
      ensures clock == idx && Chosen(old(cells[..]), old(clock), idx)
    {
      hide Sweep, Victim, Chosen;
      ghost var before, hand := cells[..], clock;
      ghost var steps;
      idx, steps := Evict();
      SweepKeeps(before, cells[..], hand, steps);
      BookkeepingIrrelevant(before, cells[..], disk);
      ghost var swept := cells[..];
      ReplaceKeepsLogical(swept, disk, idx, s, Cell(WrittenBack(swept, disk, idx)[s], s, false, true, true, 1));
      if cells[idx].dirty { disk := disk[cells[idx].sector := cells[idx].data]; }
      cells[idx] := Cell(disk[s], s, false, true, true, 1);
      assert cells[..] == swept[idx := cells[idx]];
    }

    /** `cache_read` */
    method Read(s: nat, offset: nat, size: nat) returns (bytes: seq<Byte>)
      requires Valid() && s < |disk| && offset + size <= SECTOR_SIZE
      modifies this, cells
      ensures Valid() && |disk| == old(|disk|) && Contents() == old(Contents())
      ensures bytes == Contents()[s][offset..offset + size]
      ensures forall t: nat :: Holding(t) ==> old(Holding(t)) || t == s
      ensures Holding(s) && Counted(old(Holding(s)), old(hits), old(misses))
      ensures old(Holding(s)) ==> disk == old(disk)
    {
      var idx := Fetch(s);
      ghost var before := cells[..];
      LookupUnique(before, disk, idx);
      bytes := cells[idx].data[offset..offset + size];
      cells[idx] := cells[idx].(users := cells[idx].users - 1, recent := true);
      BookkeepingIrrelevant(before, cells[..], disk);
    }

    /** `cache_write` */
    method Write(s: nat, offset: nat, bytes: seq<Byte>)
      requires Valid() && s < |disk| && offset + |bytes| <= SECTOR_SIZE
      modifies this, cells
      ensures Valid() && |disk| == old(|disk|)
      ensures Contents() == old(Contents())[s := Patch(old(Contents())[s], offset, bytes)] && Dirty(s)
      ensures forall t: nat :: Holding(t) ==> old(Holding(t)) || t == s
      ensures Holding(s) && Counted(old(Holding(s)), old(hits), old(misses))
      ensures old(Holding(s)) ==> disk == old(disk)
    {
      var idx := Fetch(s);
      ghost var before := cells[..];
      LookupUnique(before, disk, idx);
      StoreChangesOne(before, disk, idx, Patch(cells[idx].data, offset, bytes));
      cells[idx] := cells[idx].(data := Patch(cells[idx].data, offset, bytes), dirty := true);
      ghost var stored := cells[..];
      assert stored == before[idx := cells[idx]];
      cells[idx] := cells[idx].(users := cells[idx].users - 1, recent := true);
      BookkeepingIrrelevant(stored, cells[..], disk);
      LookupUnique(cells[..], disk, idx);
    }

    /** `cache_flush`: afterwards the device alone holds what readers see. */
    method Flush()
      requires Valid()
      modifies this`disk, cells
      ensures Valid() && Contents() == old(Contents()) && disk == Contents()
    {
      for i := 0 to CACHE_SIZE
        invariant Valid() && |disk| == old(|disk|) && Contents() == old(Contents())
        invariant forall k :: 0 <= k < i ==> !cells[k].dirty
      {
        if cells[i].valid && cells[i].dirty {
          ghost var before := cells[..];
          WriteBackKeepsLogical(before, disk, i);
          CleanView(before, disk[cells[i].sector := cells[i].data], i);
          disk := disk[cells[i].sector := cells[i].data];
          ghost var clean := before[i := before[i].(dirty := false)];
          DropKeepsLogical(clean, disk, i);
          cells[i] := cells[i].(dirty := false, valid := false);
          assert cells[..] == clean[i := cells[i]];
        }
      }
      assert forall k :: 0 <= k < |cells[..]| ==> !cells[..][k].dirty;
    }

    /** `block_write` on the device, not going through the cache: it is hidden from readers of a cached sector. */
    method RawWrite(s: nat, data: Sector)
      requires Sound() && s < |disk|
      modifies this`disk
      ensures Sound() && disk == old(disk)[s := data]
      ensures Contents() == if Holding(s) then old(Contents()) else old(Contents())[s := data]
      ensures old(Valid()) && !Holding(s) ==> Valid()
    {
      RawWriteView(cells[..], disk, s, data);
      disk := disk[s := data];
    }
  }
}
