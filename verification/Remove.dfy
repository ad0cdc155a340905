/** rmdir, unlink and rename: taking a slot out of a directory, giving blocks back, moving a slot. */
module Removing {
  import opened Disk
  import opened Storage

  /** Cells between slot k and the last live slot of p hold what was one slot further; all others but one are kept. */
  ghost predicate ShiftedOut(d: Disk, d': Disk, p: nat, k: nat, but: int) {
    var at, n := SLOTS * DataOf(d, p), InodeAt(d, p).dentryCount;
    && |d'.cells| == |d.cells|
    && (forall c :: c != but && !(at + k <= c < at + n - 1) ==> CellAt(d', c) == CellAt(d, c))
    && (forall c :: at + k <= c < at + n - 1 ==> CellAt(d', c) == CellAt(d, c + 1))
  }

  lemma ShiftOutShifts(d: Disk, p: nat, k: nat)
    requires Shape(d) && Stored(d, p) && IsDir(d, p) && k < InodeAt(d, p).dentryCount
    ensures ShiftedOut(d, ShiftOut(d, p, k), p, k, -1)
  {
    var at, n := SLOTS * DataOf(d, p), InodeAt(d, p).dentryCount;
    var cells := Shifted(d.cells, at, k, n);
    assert at + n <= |d.cells|;
    assert cells[..at + k] == d.cells[..at + k];
    assert forall c :: at + k <= c < at + n - 1 ==> cells[c] == d.cells[c + 1];
    assert forall c :: at + n - 1 <= c < |d.cells| ==> cells[c] == d.cells[c];
  }

  /** Neither the shift nor one more write behind the dots of some block reaches the first two slots of a block. */
  lemma BlockHeadKept(d: Disk, d': Disk, p: nat, k: nat, block: int, slot: int, b: int)
    requires ShiftedOut(d, d', p, k, SLOTS * block + slot) && 2 <= slot < SLOTS
    requires 2 <= k && InodeAt(d, p).dentryCount <= SLOTS
    ensures CellAt(d', SLOTS * b) == CellAt(d, SLOTS * b)
    ensures CellAt(d', SLOTS * b + 1) == CellAt(d, SLOTS * b + 1)
  {
    hide CellAt, DataOf;
    OutsideBlock(DataOf(d, p), k, InodeAt(d, p).dentryCount, block, slot, b, SLOTS * b);
    OutsideBlock(DataOf(d, p), k, InodeAt(d, p).dentryCount, block, slot, b, SLOTS * b + 1);
  }

  lemma OutsideBlock(data: int, k: nat, n: int, block: int, slot: int, b: int, c: int)
    requires 2 <= k && n <= SLOTS && 2 <= slot < SLOTS && SLOTS * b <= c <= SLOTS * b + 1
    ensures c != SLOTS * block + slot && !(SLOTS * data + k <= c < SLOTS * data + n - 1)
  {
  }

  /** In-place compaction deletes exactly index k: order and all other entries are kept. */
  lemma EntriesRemoved(d: Disk, d': Disk, p: nat, k: nat, but: int)
    requires Shape(d) && Stored(d, p) && IsDir(d, p) && k < InodeAt(d, p).dentryCount
    requires ShiftedOut(d, d', p, k, but) && DataOf(d', p) == DataOf(d, p)
    requires !(SLOTS * DataOf(d, p) <= but < SLOTS * DataOf(d, p) + SLOTS)
    requires InodeAt(d', p).dentryCount == InodeAt(d, p).dentryCount - 1
    ensures EntriesOf(d', p) == Without(EntriesOf(d, p), k)
  {
    var es, after, at := EntriesOf(d, p), EntriesOf(d', p), SLOTS * DataOf(d, p);
    EntriesAre(d, p, at, InodeAt(d, p).dentryCount);
    EntriesAre(d', p, at, InodeAt(d, p).dentryCount - 1);
    hide Stored, EntriesOf;
    forall j | 0 <= j < |after|
      ensures after[j] == es[if j < k then j else j + 1]
    {
      CellMoved(d, d', p, k, but, j);
    }
    WithoutIs(es, after, k);
  }

  lemma CellMoved(d: Disk, d': Disk, p: nat, k: nat, but: int, j: nat)
    requires ShiftedOut(d, d', p, k, but) && j < InodeAt(d, p).dentryCount - 1 && SLOTS * DataOf(d, p) + j != but
    ensures var at := SLOTS * DataOf(d, p); CellAt(d', at + j) == CellAt(d, at + (if j < k then j else j + 1))
  {
    hide CellAt;
  }

  lemma WithoutIs(es: seq<Cell>, after: seq<Cell>, k: nat)
    requires k < |es| && |after| == |es| - 1
    requires forall j {:trigger after[j]} :: 0 <= j < |after| ==> after[j] == es[if j < k then j else j + 1]
    ensures after == Without(es, k)
  {
  }

  lemma EntriesAre(d: Disk, i: nat, at: nat, n: nat)
    requires at == SLOTS * DataOf(d, i) && n == InodeAt(d, i).dentryCount && at + n <= |d.cells|
    ensures |EntriesOf(d, i)| == n && forall j :: 0 <= j < n ==> EntriesOf(d, i)[j] == CellAt(d, at + j)
  {
  }

  // ---- Freeing ----

  /** A live directory p whose slot k, behind the dots, names another live inode t. */
  ghost predicate Removable(d: Disk, live: set<nat>, p: nat, k: nat, t: nat) {
    && Store(d, live) && p in live && t in live && p != t && IsDir(d, p)
    && 2 <= k < InodeAt(d, p).dentryCount
  }

  ghost predicate Removed(d: Disk, d': Disk, p: nat, k: nat, t: nat) {
    && d'.geo == d.geo && |d'.inodes| == |d.inodes|
    && d'.ibits == PutBit(d.ibits, t, false)
    && d'.dbits == PutBit(PutBit(d.dbits, DataOf(d, t), false), ExtOf(d, t), false)
    && InodeAt(d', p) == AddDentries(InodeAt(d, p), -1)
    && (forall i: nat :: i != p ==> InodeAt(d', i) == InodeAt(d, i))
    && ShiftedOut(d, d', p, k, -1)
  }

  /** The nested freeing loops give back exactly the two blocks of a stored inode. */
  lemma FreeAllOfStored(d: Disk, t: nat)
    requires Stored(d, t)
    ensures FreeAll(d, t) == PutBit(PutBit(d.dbits, DataOf(d, t), false), ExtOf(d, t), false)
    ensures SpanOf(d, ExtOf(d, t), ExtCount(d, t)) == 1
  {
    var e := ExtOf(d, t);
    assert ExtCount(d, t) == 1 && ExtentAt(d, e, 0).count == 1;
    assert FreeExtents(d, e, 0) == d.dbits && SpanOf(d, e, 0) == 0;
    assert FreeRun(d.dbits, DataOf(d, t), 0) == d.dbits;
    assert FreeRun(d.dbits, DataOf(d, t), 1) == PutBit(d.dbits, DataOf(d, t), false);
  }

  lemma RemoveRemoves(d: Disk, live: set<nat>, p: nat, k: nat, t: nat, freed: nat)
    requires Removable(d, live, p, k, t)
    ensures Removed(d, Remove(d, p, k, t, freed), p, k, t)
  {
    assert Stored(d, p) && Stored(d, t);
    FreeAllOfStored(d, t);
    ShiftOutShifts(d, p, k);
    var d' := Remove(d, p, k, t, freed);
    assert d'.cells == ShiftOut(d, p, k).cells;
    forall c
      ensures CellAt(d', c) == CellAt(ShiftOut(d, p, k), c)
    {
    }
  }

  lemma RemovalKeeps(d: Disk, d': Disk, live: set<nat>, p: nat, k: nat, t: nat, i: nat)
    requires Removable(d, live, p, k, t) && Removed(d, d', p, k, t) && i in live && i != p && i != t
    ensures Stored(d', i) && ExtOf(d', i) == ExtOf(d, i) && DataOf(d', i) == DataOf(d, i)
    ensures NodeOf(d', i) == NodeOf(d, i)
  {
    assert Stored(d, i) && Stored(d, p) && Stored(d, t) && Apart(d, i, p) && Apart(d, i, t);
    SameBlocks(d, d', i);
  }

  lemma RemovalParent(d: Disk, d': Disk, live: set<nat>, p: nat, k: nat, t: nat)
    requires Removable(d, live, p, k, t) && Removed(d, d', p, k, t)
    ensures Stored(d', p) && ExtOf(d', p) == ExtOf(d, p) && DataOf(d', p) == DataOf(d, p)
    ensures NodeOf(d', p) == Dir(Without(EntriesOf(d, p), k))
  {
    assert Stored(d, p) && Stored(d, t) && Apart(d, p, t);
    assert DataOf(d', p) == DataOf(d, p) by {
      assert CellAt(d', SLOTS * ExtOf(d, p)) == CellAt(d, SLOTS * ExtOf(d, p));
    }
    EntriesRemoved(d, d', p, k, -1);
  }

  lemma RemovalStore(d: Disk, d': Disk, live: set<nat>, p: nat, k: nat, t: nat)
    requires Removable(d, live, p, k, t) && Removed(d, d', p, k, t)
    ensures Store(d', live - {t})
  {
    var rest := live - {t};
    RemovalParent(d, d', live, p, k, t);
    forall i | i in rest
      ensures Stored(d', i) && ExtOf(d', i) == ExtOf(d, i) && DataOf(d', i) == DataOf(d, i)
    {
      if i != p {
        RemovalKeeps(d, d', live, p, k, t, i);
      }
    }
    LiveIsStored(d, live, t);
    OwnersKept(d, d', live, rest);
  }

  lemma RemovalQuiet(d: Disk, d': Disk, live: set<nat>, p: nat, k: nat, t: nat)
    requires Removable(d, live, p, k, t) && Removed(d, d', p, k, t) && QuietImage(d)
    ensures QuietImage(d')
  {
    LiveIsStored(d, live, p);
    forall b | 0 <= b < d.geo.dblockCount && b % 2 == 1
      ensures QuietBlock(d', b)
    {
      BlockHeadKept(d, d', p, k, -1, SLOTS - 1, b);
      assert QuietBlock(d, b);
    }
  }

  // ---- Moving ----

  ghost predicate Movable(d: Disk, live: set<nat>, p: nat, k: nat, q: nat) {
    && Store(d, live) && p in live && q in live && p != q && IsDir(d, p) && IsDir(d, q)
    && 2 <= k < InodeAt(d, p).dentryCount && InodeAt(d, q).dentryCount < SLOTS
  }

  ghost predicate MovedSlot(d: Disk, d': Disk, p: nat, k: nat, q: nat, y: string) {
    && d'.geo == d.geo && |d'.inodes| == |d.inodes| && d'.ibits == d.ibits && d'.dbits == d.dbits
    && d'.freeInodes == d.freeInodes && d'.freeBlocks == d.freeBlocks
    && InodeAt(d', p) == AddDentries(InodeAt(d, p), -1)
    && InodeAt(d', q) == AddDentries(InodeAt(d, q), 1)
    && (forall i: nat :: i != p && i != q ==> InodeAt(d', i) == InodeAt(d, i))
    && ShiftedOut(d, d', p, k, EntrySlot(d, q))
    && CellAt(d', EntrySlot(d, q)) == Dentry(InoOf(CellAt(d, SLOTS * DataOf(d, p) + k)), y)
  }

  /** The copy of the moved entry lands outside the source directory's block. */
  lemma CopyKeepsSource(d: Disk, live: set<nat>, p: nat, k: nat, q: nat, c: Cell)
    requires Movable(d, live, p, k, q)
    ensures var copied := d.(cells := PutCell(d.cells, EntrySlot(d, q), c));
            && Shape(copied) && Stored(copied, p) && DataOf(copied, p) == DataOf(d, p)
            && InodeAt(copied, p) == InodeAt(d, p) && IsDir(copied, p) && 2 <= InodeAt(d, p).dentryCount <= SLOTS
            && CellAt(copied, EntrySlot(d, q)) == c
            && (forall i :: i != EntrySlot(d, q) ==> CellAt(copied, i) == CellAt(d, i))
    ensures !(SLOTS * DataOf(d, p) <= EntrySlot(d, q) < SLOTS * DataOf(d, p) + SLOTS)
  {
    assert Stored(d, p) && Stored(d, q) && Apart(d, p, q);
    var copied := d.(cells := PutCell(d.cells, EntrySlot(d, q), c));
    assert CellAt(copied, SLOTS * ExtOf(d, p)) == CellAt(d, SLOTS * ExtOf(d, p));
  }

  lemma ShiftAfterCopy(d: Disk, copied: Disk, s: Disk, p: nat, k: nat, but: int)
    requires ShiftedOut(copied, s, p, k, -1) && DataOf(copied, p) == DataOf(d, p) && InodeAt(copied, p) == InodeAt(d, p)
    requires |copied.cells| == |d.cells| && InodeAt(d, p).dentryCount <= SLOTS
    requires forall i :: i != but ==> CellAt(copied, i) == CellAt(d, i)
    requires !(SLOTS * DataOf(d, p) <= but < SLOTS * DataOf(d, p) + SLOTS)
    ensures ShiftedOut(d, s, p, k, but)
    ensures CellAt(s, but) == CellAt(copied, but)
  {
    assert CellAt(copied, -1) == CellAt(s, -1);
  }

  lemma CopyThenShift(d: Disk, d': Disk, live: set<nat>, p: nat, k: nat, q: nat, c: Cell)
    requires Movable(d, live, p, k, q)
    requires d'.cells ==
             Shifted(PutCell(d.cells, EntrySlot(d, q), c), SLOTS * DataOf(d, p), k, InodeAt(d, p).dentryCount)
    ensures ShiftedOut(d, d', p, k, EntrySlot(d, q)) && CellAt(d', EntrySlot(d, q)) == c
  {
    var copied := d.(cells := PutCell(d.cells, EntrySlot(d, q), c));
    CopyKeepsSource(d, live, p, k, q, c);
    ShiftOutShifts(copied, p, k);
    ShiftAfterCopy(d, copied, ShiftOut(copied, p, k), p, k, EntrySlot(d, q));
    SameCells(d, ShiftOut(copied, p, k), d', p, k, EntrySlot(d, q));
  }

  lemma SameCells(d: Disk, s: Disk, d': Disk, p: nat, k: nat, but: int)
    requires ShiftedOut(d, s, p, k, but) && d'.cells == s.cells
    ensures ShiftedOut(d, d', p, k, but) && CellAt(d', but) == CellAt(s, but)
  {
    forall i
      ensures CellAt(d', i) == CellAt(s, i)
    {
    }
  }

  lemma MoveInodes(d: Disk, p: nat, k: nat, q: nat, y: string)
    requires p != q && p < |d.inodes| && q < |d.inodes|
    ensures var d' := Move(d, p, k, q, y);
            && |d'.inodes| == |d.inodes|
            && InodeAt(d', p) == AddDentries(InodeAt(d, p), -1)
            && InodeAt(d', q) == AddDentries(InodeAt(d, q), 1)
            && forall i: nat :: i != p && i != q ==> InodeAt(d', i) == InodeAt(d, i)
  {
  }

  lemma MoveMoves(d: Disk, live: set<nat>, p: nat, k: nat, q: nat, y: string)
    requires Movable(d, live, p, k, q)
    ensures MovedSlot(d, Move(d, p, k, q, y), p, k, q, y)
  {
    LiveIsStored(d, live, p);
    LiveIsStored(d, live, q);
    MoveInodes(d, p, k, q, y);
    var c := Dentry(InoOf(CellAt(d, SLOTS * DataOf(d, p) + k)), y);
    CopyThenShift(d, Move(d, p, k, q, y), live, p, k, q, c);
  }

  lemma MoveKeeps(d: Disk, d': Disk, live: set<nat>, p: nat, k: nat, q: nat, y: string, i: nat)
    requires Movable(d, live, p, k, q) && MovedSlot(d, d', p, k, q, y) && i in live && i != p && i != q
    ensures Stored(d', i) && ExtOf(d', i) == ExtOf(d, i) && DataOf(d', i) == DataOf(d, i)
    ensures NodeOf(d', i) == NodeOf(d, i)
  {
    assert Stored(d, i) && Stored(d, p) && Stored(d, q) && Apart(d, i, p) && Apart(d, i, q);
    SameBlocks(d, d', i);
  }

  /** The source directory loses one entry. */
  lemma MoveSource(d: Disk, d': Disk, live: set<nat>, p: nat, k: nat, q: nat, y: string)
    requires Movable(d, live, p, k, q) && MovedSlot(d, d', p, k, q, y)
    ensures Stored(d', p) && ExtOf(d', p) == ExtOf(d, p) && DataOf(d', p) == DataOf(d, p)
    ensures NodeOf(d', p) == Dir(Without(EntriesOf(d, p), k))
  {
    LiveIsStored(d, live, p);
    LiveIsStored(d, live, q);
    assert Apart(d, q, p);
    assert CellAt(d', SLOTS * ExtOf(d, p)) == CellAt(d, SLOTS * ExtOf(d, p));
    EntriesRemoved(d, d', p, k, EntrySlot(d, q));
  }

  /** The target directory gains the moved inode under its new name. */
  lemma MoveTarget(d: Disk, d': Disk, live: set<nat>, p: nat, k: nat, q: nat, y: string)
    requires Movable(d, live, p, k, q) && MovedSlot(d, d', p, k, q, y)
    ensures Stored(d', q) && ExtOf(d', q) == ExtOf(d, q) && DataOf(d', q) == DataOf(d, q)
    ensures |EntriesOf(d, p)| > k && NodeOf(d', q) == Dir(EntriesOf(d, q) + [Dentry(InoOf(EntriesOf(d, p)[k]), y)])
  {
    LiveIsStored(d, live, p);
    LiveIsStored(d, live, q);
    assert Apart(d, p, q);
    assert CellAt(d', SLOTS * ExtOf(d, q)) == CellAt(d, SLOTS * ExtOf(d, q));
    EntriesAppended(d, d', q, Dentry(InoOf(EntriesOf(d, p)[k]), y));
  }

  lemma MoveStore(d: Disk, d': Disk, live: set<nat>, p: nat, k: nat, q: nat, y: string)
    requires Movable(d, live, p, k, q) && MovedSlot(d, d', p, k, q, y)
    ensures Store(d', live)
  {
    MoveSource(d, d', live, p, k, q, y);
    MoveTarget(d, d', live, p, k, q, y);
    forall i | i in live
      ensures Stored(d', i) && ExtOf(d', i) == ExtOf(d, i) && DataOf(d', i) == DataOf(d, i)
    {
      if i != p && i != q {
        MoveKeeps(d, d', live, p, k, q, y, i);
      }
    }
    OwnersKept(d, d', live, live);
  }

  lemma MoveQuiet(d: Disk, d': Disk, live: set<nat>, p: nat, k: nat, q: nat, y: string)
    requires Movable(d, live, p, k, q) && MovedSlot(d, d', p, k, q, y) && QuietImage(d)
    ensures QuietImage(d')
  {
    LiveIsStored(d, live, p);
    LiveIsStored(d, live, q);
    forall b | 0 <= b < d.geo.dblockCount && b % 2 == 1
      ensures QuietBlock(d', b)
    {
      BlockHeadKept(d, d', p, k, DataOf(d, q), InodeAt(d, q).dentryCount, b);
      assert QuietBlock(d, b);
    }
  }
}
