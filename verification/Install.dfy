/** create and mkdir keep the storage invariant and change the directory graph in one place. */
module Installing {
  import opened Paths
  import opened Disk
  import opened Storage

  /** One creation: name x in directory p gets inode n with extent block e and data block b. */
  datatype Creation = Creation(p: nat, x: string, n: nat, e: nat, b: nat, mode: bv32, now: int, dots: bool)

  /** The inode that the "." entry of directory p names: mkdir takes it for the parent's number. */
  function SelfOf(d: Disk, p: nat): nat {
    InoOf(CellAt(d, SLOTS * DataOf(d, p)))
  }

  /** The state after allocation succeeded: create without the two dot entries, mkdir with them. */
  function Installed(d: Disk, a: Creation): Disk {
    var s := Install(TakeBits(d, a.n, a.e, a.b), a.p, a.x, a.n, a.e, a.b, a.mode, a.now);
    if a.dots then PutDots(s, a.b, a.n, SelfOf(d, a.p)) else s
  }

  /** A directory with room, an unused inode and two unused blocks. */
  ghost predicate Ready(d: Disk, live: set<nat>, a: Creation) {
    && Store(d, live) && a.p in live && IsDir(d, a.p) && InodeAt(d, a.p).dentryCount < SLOTS
    && a.n < d.geo.inodeCount && a.n !in live
    && a.e % 2 == 0 && a.b == a.e + 1 < d.geo.dblockCount
    && (forall i {:trigger i in live} :: i in live ==> !Owns(d, i, a.e) && !Owns(d, i, a.b))
    && a.dots == (a.mode & 0x4000 != 0)
  }

  /** First fit hands out an inode that is not live and two blocks that nobody owns. */
  lemma AllocationIsFresh(d: Disk, live: set<nat>, n: nat, e: nat, b: nat)
    requires Store(d, live) && Allocate(d) == Got(n, e, b)
    ensures n < d.geo.inodeCount && !d.ibits[n] && n !in live
    ensures e % 2 == 0 && b == e + 1 < d.geo.dblockCount && !d.dbits[e] && !d.dbits[b]
    ensures forall i {:trigger i in live} :: i in live ==> !Owns(d, i, e) && !Owns(d, i, b)
  {
    forall i | i in live
      ensures i != n && !Owns(d, i, e) && !Owns(d, i, b)
    {
      LiveIsStored(d, live, i);
    }
    BitsComeInPairs(d, live);
    FirstFitTakesPair(d.dbits, d.geo.dblockCount, e, b);
  }

  /** The taken data bits are pairs of an even bit and the next one; an even bit at the end is never taken. */
  ghost predicate Paired(bits: seq<bool>, size: nat)
    requires size <= |bits|
  {
    forall k {:trigger bits[k]} :: 0 <= k < size && k % 2 == 0 ==> bits[k] == (k + 1 < size && bits[k + 1])
  }

  lemma BitsComeInPairs(d: Disk, live: set<nat>)
    requires Store(d, live)
    ensures Paired(d.dbits, d.geo.dblockCount)
  {
    forall k | 0 <= k < d.geo.dblockCount && k % 2 == 0
      ensures d.dbits[k] == (k + 1 < d.geo.dblockCount && d.dbits[k + 1])
    {
      if d.dbits[k] {
        BitHasTwin(d, live, k);
      } else if k + 1 < d.geo.dblockCount && d.dbits[k + 1] {
        BitHasTwin(d, live, k + 1);
      }
    }
  }

  lemma BitHasTwin(d: Disk, live: set<nat>, k: nat)
    requires Store(d, live) && k < d.geo.dblockCount && d.dbits[k]
    ensures k % 2 == 0 ==> k + 1 < d.geo.dblockCount && d.dbits[k + 1]
    ensures k % 2 == 1 ==> d.dbits[k - 1]
  {
    assert Owned(d, live, k);
    var i :| i in live && Owns(d, i, k);
    LiveIsStored(d, live, i);
  }

  /** On paired bits first fit takes a pair. */
  lemma FirstFitTakesPair(bits: seq<bool>, size: nat, e: nat, b: nat)
    requires size <= |bits| && Paired(bits, size) && FreePair(bits, size) == Some((e, b))
    ensures e % 2 == 0 && b == e + 1
  {
    var taken := bits[e := true];
    OddFollowsEven(bits, size, e);
    assert e + 1 < size ==> taken[e + 1] == bits[e + 1];
  }

  lemma OddFollowsEven(bits: seq<bool>, size: nat, k: nat)
    requires k < size <= |bits| && Paired(bits, size)
    ensures k % 2 == 1 ==> bits[k - 1] == bits[k]
  {
  }

  predicate Written(d: Disk, a: Creation, c: int) {
    || c == EntrySlot(d, a.p) || c == SLOTS * a.e
    || (a.dots && (c == SLOTS * a.b || c == SLOTS * a.b + 1))
  }

  /** Everything a creation does, field by field: at most four cells are written, and they are different cells. */
  ghost predicate Created(d: Disk, d': Disk, a: Creation) {
    && d'.geo == d.geo && |d'.ibits| == |d.ibits| && |d'.inodes| == |d.inodes| && |d'.cells| == |d.cells|
    && d'.ibits == PutBit(d.ibits, a.n, true) && d'.dbits == PutBit(PutBit(d.dbits, a.e, true), a.b, true)
    && InodeAt(d', a.p) == AddDentries(InodeAt(d, a.p), 1)
    && InodeAt(d', a.n) == NewInode(InodeAt(d, a.n), a.mode, a.now, a.e + d.geo.firstData)
    && (forall i: nat :: i != a.p && i != a.n ==> InodeAt(d', i) == InodeAt(d, i))
    && CellAt(d', EntrySlot(d, a.p)) == Dentry(a.n, a.x)
    && CellAt(d', SLOTS * a.e) == WithExtent(CellAt(d, SLOTS * a.e), Extent(a.b + d.geo.firstData, 1))
    && (a.dots ==> CellAt(d', SLOTS * a.b) == Dentry(a.n, "."))
    && (a.dots ==> CellAt(d', SLOTS * a.b + 1) == Dentry(SelfOf(d, a.p), ".."))
    && forall c :: !Written(d, a, c) ==> CellAt(d', c) == CellAt(d, c)
  }

  /** Where the parent's own blocks are, and that the slot for the new entry is none of the other three cells. */
  lemma SlotsApart(d: Disk, live: set<nat>, a: Creation)
    requires Ready(d, live, a)
    ensures 0 <= ExtOf(d, a.p) < d.geo.dblockCount && 0 <= DataOf(d, a.p) < d.geo.dblockCount
    ensures ExtOf(d, a.p) != DataOf(d, a.p) && 2 <= InodeAt(d, a.p).dentryCount < SLOTS
    ensures !Owns(d, a.p, a.e) && !Owns(d, a.p, a.b)
  {
    assert Stored(d, a.p);
  }

  /** The cells that a creation writes lie in the image and are different ones, and so are the two records. */
  predicate Placed(d: Disk, a: Creation) {
    && Shape(d) && a.p != a.n && a.p < |d.inodes| && a.n < |d.inodes| && a.n < |d.ibits|
    && a.b == a.e + 1 < d.geo.dblockCount && 0 <= EntrySlot(d, a.p) < |d.cells|
    && EntrySlot(d, a.p) != SLOTS * a.e && EntrySlot(d, a.p) != SLOTS * a.b && EntrySlot(d, a.p) != SLOTS * a.b + 1
  }

  lemma ReadyIsPlaced(d: Disk, live: set<nat>, a: Creation)
    requires Ready(d, live, a)
    ensures Placed(d, a)
  {
    SlotsApart(d, live, a);
    LiveIsStored(d, live, a.p);
  }

  lemma InstalledCells(d: Disk, a: Creation, c: int)
    requires Placed(d, a)
    ensures var d' := Installed(d, a);
            && |d'.cells| == |d.cells|
            && CellAt(d', EntrySlot(d, a.p)) == Dentry(a.n, a.x)
            && CellAt(d', SLOTS * a.e) == WithExtent(CellAt(d, SLOTS * a.e), Extent(a.b + d.geo.firstData, 1))
            && (a.dots ==> CellAt(d', SLOTS * a.b) == Dentry(a.n, "."))
            && (a.dots ==> CellAt(d', SLOTS * a.b + 1) == Dentry(SelfOf(d, a.p), ".."))
            && (!Written(d, a, c) ==> CellAt(d', c) == CellAt(d, c))
  {
  }

  lemma InstalledCreates(d: Disk, a: Creation)
    requires Placed(d, a)
    ensures Created(d, Installed(d, a), a)
  {
    forall c
      ensures !Written(d, a, c) ==> CellAt(Installed(d, a), c) == CellAt(d, c)
    {
      InstalledCells(d, a, c);
    }
    InstalledCells(d, a, 0);
  }

  /** Every other live inode reads as before. */
  lemma CreationKeeps(d: Disk, d': Disk, live: set<nat>, a: Creation, i: nat)
    requires Ready(d, live, a) && Created(d, d', a) && i in live && i != a.p
    ensures Stored(d', i) && ExtOf(d', i) == ExtOf(d, i) && DataOf(d', i) == DataOf(d, i)
    ensures NodeOf(d', i) == NodeOf(d, i)
  {
    SlotsApart(d, live, a);
    assert Stored(d, i) && Apart(d, i, a.p);
    SameBlocks(d, d', i);
  }

  /** The parent gains one entry at the end. */
  lemma CreationParent(d: Disk, d': Disk, live: set<nat>, a: Creation)
    requires Ready(d, live, a) && Created(d, d', a)
    ensures Stored(d', a.p) && ExtOf(d', a.p) == ExtOf(d, a.p) && DataOf(d', a.p) == DataOf(d, a.p)
    ensures NodeOf(d', a.p) == Dir(EntriesOf(d, a.p) + [Dentry(a.n, a.x)])
  {
    SlotsApart(d, live, a);
    assert Stored(d, a.p);
    assert DataOf(d', a.p) == DataOf(d, a.p);
    EntriesAppended(d, d', a.p, Dentry(a.n, a.x));
  }

  /** The new inode owns e and b; a new directory starts with itself and its parent. */
  lemma CreationNew(d: Disk, d': Disk, live: set<nat>, a: Creation)
    requires Ready(d, live, a) && Created(d, d', a)
    ensures Stored(d', a.n) && ExtOf(d', a.n) == a.e && DataOf(d', a.n) == a.b
    ensures NodeOf(d', a.n) == if a.dots then Dir([Dentry(a.n, "."), Dentry(SelfOf(d, a.p), "..")]) else File
  {
    SlotsApart(d, live, a);
    assert InodeAt(d', a.n).mode == a.mode;
    assert ExtentAt(d', a.e, 0) == Extent(a.b + d.geo.firstData, 1);
    if a.dots {
      assert EntriesOf(d', a.n) == [CellAt(d', SLOTS * a.b), CellAt(d', SLOTS * a.b + 1)];
    }
  }

  /** Dots are no ordinary names, and the blocks that get extents or entries of the parent are none that matter. */
  lemma CreationQuiet(d: Disk, d': Disk, live: set<nat>, a: Creation)
    requires Ready(d, live, a) && Created(d, d', a) && QuietImage(d)
    ensures QuietImage(d')
  {
    forall b | 0 <= b < d.geo.dblockCount && b % 2 == 1
      ensures QuietBlock(d', b)
    {
      assert QuietBlock(d, b);
      CreationQuietBlock(d, d', live, a, b);
    }
  }

  lemma CreationQuietBlock(d: Disk, d': Disk, live: set<nat>, a: Creation, b: int)
    requires Ready(d, live, a) && Created(d, d', a) && QuietBlock(d, b) && b % 2 == 1
    ensures QuietBlock(d', b)
  {
    hide Store;
    SlotsApart(d, live, a);
    if !(a.dots && b == a.b) {
      assert !Written(d, a, SLOTS * b) && !Written(d, a, SLOTS * b + 1);
    }
  }

  /** The storage invariant after create or mkdir, with the new inode live. */
  lemma CreationStore(d: Disk, d': Disk, live: set<nat>, a: Creation)
    requires Ready(d, live, a) && Created(d, d', a)
    ensures Store(d', live + {a.n})
  {
    var all := live + {a.n};
    CreationParent(d, d', live, a);
    CreationNew(d, d', live, a);
    forall i | i in live
      ensures Stored(d', i) && ExtOf(d', i) == ExtOf(d, i) && DataOf(d', i) == DataOf(d, i)
    {
      if i != a.p {
        CreationKeeps(d, d', live, a, i);
      }
    }
    forall i, j | i in all && j in all && i != j
      ensures Apart(d', i, j)
    {
      if i in live && j in live {
        assert Apart(d, i, j);
      }
    }
    forall c | 0 <= c < d.geo.dblockCount && d'.dbits[c]
      ensures Owned(d', all, c)
    {
      if c == a.e || c == a.b {
        assert Owns(d', a.n, c);
      } else {
        assert Owned(d, live, c);
        var i :| i in live && Owns(d, i, c);
        assert Owns(d', i, c);
      }
    }
  }
}
