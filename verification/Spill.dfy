/** What becomes of a seventeenth entry that was written into a free block, when that block is handed out. */
module Spill {
  import opened Disk
  import opened Storage
  import opened Installing
  import opened Tree
  import opened FileSystem
  import Theorems
  import opened Observing
  import opened Overflowing

  /**
   * A creation a in the full directory q, whose block behind is free, and then a creation a2 in another directory,
   * with a free slot, that gets that block for its extent.
   */
  ghost predicate Spilled(d: Disk, m: Names, q: Path, a: Creation, d1: Disk, q2: Path, a2: Creation) {
    && Crowded(d, m, q, a) && QuietImage(d) && q + [a.x] !in m && !d.dbits[Behind(d, a.p)] && a.e != Behind(d, a.p)
    && d1 == Installed(d, a) && Shape(d1)
    && q2 in m && q2 != q && IsDir(d, m[q2]) && InodeAt(d, m[q2]).dentryCount < SLOTS && a2.p == m[q2]
    && Allocate(d1) == Got(a2.n, a2.e, a2.b) && a2.e == Behind(d, a.p)
  }

  /** The first of the two keeps the image in shape, so that the second is defined. */
  lemma FirstKeepsShape(d: Disk, m: Names, q: Path, a: Creation)
    requires Crowded(d, m, q, a)
    ensures Shape(Installed(d, a)) && Installed(d, a).geo == d.geo
    ensures var d1 := Installed(d, a);
            && d1.ibits == PutBit(d.ibits, a.n, true) && d1.dbits == PutBit(PutBit(d.dbits, a.e, true), a.b, true)
            && |d1.inodes| == |d.inodes| && |d1.cells| == |d.cells|
  {
    InstalledGrows(d, m, q, a);
  }

  lemma PairsStay(bits: seq<bool>, size: nat, e: nat, bits': seq<bool>)
    requires size <= |bits| && Paired(bits, size) && e % 2 == 0 && e + 1 < size
    requires bits' == PutBit(PutBit(bits, e, true), e + 1, true)
    ensures Paired(bits', size)
  {
  }

  /** What the second creation gets. */
  lemma SecondGets(d: Disk, m: Names, q: Path, a: Creation, d1: Disk, q2: Path, a2: Creation)
    requires Spilled(d, m, q, a, d1, q2, a2)
    ensures a2.e % 2 == 0 && a2.b == a2.e + 1 < d.geo.dblockCount && a2.n < d.geo.inodeCount
    ensures a2.n !in m.Values && a2.n != a.n
    ensures !d.dbits[a2.e] && !d.dbits[a2.b] && a2.b != a.b && a2.e != a.e
  {
    hide QuietImage, Spells, Installed;
    FirstKeepsShape(d, m, q, a);
    UncheckedFacts(d, m, q, a);
    Theorems.AllocationTakesLeast(d1, a2.n, a2.e, a2.b);
    BitsComeInPairs(d, m.Values);
    PairsStay(d.dbits, d.geo.dblockCount, a.e, d1.dbits);
    FirstFitTakesPair(d1.dbits, d.geo.dblockCount, a2.e, a2.b);
    if a2.n in m.Values {
      LiveIsStored(d, m.Values, a2.n);
      assert false;
    }
  }

  /** Neither block is owned, before or after. */
  lemma SecondIsFresh(d: Disk, m: Names, q: Path, a: Creation, d1: Disk, q2: Path, a2: Creation, i: nat)
    requires Spilled(d, m, q, a, d1, q2, a2) && i in m.Values
    ensures !Owns(d, i, a2.e) && !Owns(d, i, a2.b) && i != a2.n && Stored(d, i) && !Hit(d, a, i)
  {
    SecondGets(d, m, q, a, d1, q2, a2);
    LiveIsStored(d, m.Values, i);
  }

  lemma SecondIsPlaced(d: Disk, m: Names, q: Path, a: Creation, d1: Disk, q2: Path, a2: Creation)
    requires Spilled(d, m, q, a, d1, q2, a2)
    ensures Placed(d1, a2) && EntrySlot(d1, a2.p) == EntrySlot(d, a2.p) && a2.p != a.p
    ensures SLOTS * DataOf(d, a2.p) <= EntrySlot(d, a2.p) < SLOTS * DataOf(d, a2.p) + SLOTS
  {
    FirstKeepsShape(d, m, q, a);
    SecondGets(d, m, q, a, d1, q2, a2);
    CoreIsFramed(d, m);
    assert a2.p in m.Values;
    SecondIsFresh(d, m, q, a, d1, q2, a2, a2.p);
    InstalledGrows(d, m, q, a);
    PointersKept(d, m, q, a, d1, a2.p);
  }

  lemma PointersKept(d: Disk, m: Names, q: Path, a: Creation, d1: Disk, i: nat)
    requires Growth(d, m, q, a, d1) && i in m.Values && i != a.p && !Hit(d, a, i)
    ensures DataOf(d1, i) == DataOf(d, i) && InodeAt(d1, i) == InodeAt(d, i)
  {
    hide LastSlot, Spells;
    UncheckedFacts(d, m, q, a);
    LiveIsStored(d, m.Values, i);
    assert a.p in m.Values && Apart(d, i, a.p);
    assert CellAt(d1, SLOTS * ExtOf(d, i)) == CellAt(d, SLOTS * ExtOf(d, i));
  }

  // ---- Both creations together ----

  /** The cells that one of the two writes. */
  predicate Touched(d: Disk, a: Creation, a2: Creation, c: int) {
    Written(d, a, c) || Written(d, a2, c)
  }

  ghost predicate Twice(d: Disk, a: Creation, d2: Disk, a2: Creation) {
    && d2.geo == d.geo && |d2.cells| == |d.cells|
    && InodeAt(d2, a.p) == AddDentries(InodeAt(d, a.p), 1) && InodeAt(d2, a2.p) == AddDentries(InodeAt(d, a2.p), 1)
    && (forall i: nat :: i != a.p && i != a.n && i != a2.p && i != a2.n ==> InodeAt(d2, i) == InodeAt(d, i))
    && CellAt(d2, EntrySlot(d, a2.p)) == Dentry(a2.n, a2.x)
    && CellAt(d2, SLOTS * a2.e) == WithExtent(Dentry(a.n, a.x), Extent(a2.b + d.geo.firstData, 1))
    && forall c :: !Touched(d, a, a2, c) ==> CellAt(d2, c) == CellAt(d, c)
  }

  lemma BothTouch(d: Disk, m: Names, q: Path, a: Creation, d1: Disk, q2: Path, a2: Creation, d2: Disk)
    requires Spilled(d, m, q, a, d1, q2, a2) && d2 == Installed(d1, a2)
    ensures Twice(d, a, d2, a2) && a2.p != a.p && a2.p != a.n && a.p != a2.n
  {
    hide Core, Installed;
    SecondGets(d, m, q, a, d1, q2, a2);
    SecondIsPlaced(d, m, q, a, d1, q2, a2);
    InstalledGrows(d, m, q, a);
    GrowthIsSited(d, m, q, a, d1);
    assert a2.p in m.Values;
    SecondIsFresh(d, m, q, a, d1, q2, a2, a2.p);
    InstalledCreates(d1, a2);
    Composed(d, a, d1, a2, d2);
  }

  lemma Composed(d: Disk, a: Creation, d1: Disk, a2: Creation, d2: Disk)
    requires Grown(d, d1, a) && Created(d1, d2, a2) && EntrySlot(d1, a2.p) == EntrySlot(d, a2.p)
    requires a.p != a2.p && a.n != a2.n && a.p != a2.n && a2.p != a.n && a.p != a.n && a2.p != a2.n
    requires EntrySlot(d, a.p) == SLOTS * a2.e && LastSlot(d, a) == Dentry(a.n, a.x)
    requires !Written(d1, a2, EntrySlot(d, a.p)) || EntrySlot(d, a.p) == SLOTS * a2.e
    ensures Twice(d, a, d2, a2)
  {
    forall c | !Touched(d, a, a2, c)
      ensures CellAt(d2, c) == CellAt(d, c)
    {
      assert !Written(d1, a2, c);
    }
  }

  // ---- Searches afterwards ----

  lemma OthersAsBefore(d: Disk, m: Names, a: Creation, d2: Disk, a2: Creation, i: nat)
    requires Sited(d, a) && Twice(d, a, d2, a2) && Stored(d, i) && Stored(d, a2.p) && IsDir(d, a2.p)
    requires i != a.p && i != a.n && i != a2.p && i != a2.n && Apart(d, i, a.p) && Apart(d, i, a2.p)
    requires !Owns(d, i, a.e) && !Owns(d, i, a.b) && !Owns(d, i, a2.e) && !Owns(d, i, a2.b)
    requires EntrySlot(d, a.p) == SLOTS * a2.e && InodeAt(d, a2.p).dentryCount < SLOTS
    ensures EntriesOf(d2, i) == EntriesOf(d, i) && IsDir(d2, i) == IsDir(d, i)
  {
    hide EntriesOf, SlotsFrom;
    SameBlocks(d, d2, i);
  }

  lemma SecondParentAppends(d: Disk, a: Creation, d2: Disk, a2: Creation)
    requires Sited(d, a) && Twice(d, a, d2, a2) && Stored(d, a2.p) && IsDir(d, a2.p) && Apart(d, a2.p, a.p)
    requires !Owns(d, a2.p, a.e) && !Owns(d, a2.p, a.b) && !Owns(d, a2.p, a2.e) && !Owns(d, a2.p, a2.b)
    requires EntrySlot(d, a.p) == SLOTS * a2.e && InodeAt(d, a2.p).dentryCount < SLOTS
    ensures EntriesOf(d2, a2.p) == EntriesOf(d, a2.p) + [Dentry(a2.n, a2.x)] && IsDir(d2, a2.p)
  {
    assert CellAt(d2, SLOTS * ExtOf(d, a2.p)) == CellAt(d, SLOTS * ExtOf(d, a2.p));
    EntriesAppended(d, d2, a2.p, Dentry(a2.n, a2.x));
  }

  lemma FirstParentAppends(d: Disk, a: Creation, d2: Disk, a2: Creation)
    requires Sited(d, a) && Twice(d, a, d2, a2) && Stored(d, a2.p) && Apart(d, a.p, a2.p)
    requires !Owns(d, a.p, a2.e) && !Owns(d, a.p, a2.b) && EntrySlot(d, a.p) == SLOTS * a2.e < |d.cells|
    requires IsDir(d, a2.p) && InodeAt(d, a2.p).dentryCount < SLOTS
    ensures EntriesOf(d2, a.p) == EntriesOf(d, a.p) +
                                  [WithExtent(Dentry(a.n, a.x), Extent(a2.b + d.geo.firstData, 1))]
    ensures IsDir(d2, a.p)
  {
    assert CellAt(d2, SLOTS * ExtOf(d, a.p)) == CellAt(d, SLOTS * ExtOf(d, a.p));
    EntriesAppended(d, d2, a.p, WithExtent(Dentry(a.n, a.x), Extent(a2.b + d.geo.firstData, 1)));
  }

  /** What was listed below r is found there. */
  ghost predicate FindsOld(d: Disk, m: Names, r: Path) {
    r in m && IsDir(d, m[r]) &&
    forall z {:trigger Expected(m, r, z)} :: Plain(z) && Expected(m, r, z) != -1 ==>
      Child(EntriesOf(d, m[r]), z) == Expected(m, r, z)
  }

  lemma {:induction false} WalkOld(d: Disk, m: Names, q: Path, rest: Path, more: Path)
    requires q + rest in m && PlainPath(rest)
    requires forall n {:trigger rest[..n]} :: 0 <= n < |rest| ==> FindsOld(d, m, q + rest[..n])
    ensures q in m && Walk(d, m[q], rest + more) == Walk(d, m[q + rest], more)
    decreases |rest|
  {
    if rest == [] {
      assert q + rest == q && rest + more == more;
    } else {
      var x := rest[0];
      assert q + rest[..0] == q && FindsOld(d, m, q + rest[..0]);
      assert q + rest == (q + [x]) + rest[1..] && rest + more == [x] + (rest[1..] + more);
      forall n | 0 <= n < |rest[1..]|
        ensures FindsOld(d, m, (q + [x]) + rest[1..][..n])
      {
        FirstAndRest(q, rest, n);
        assert FindsOld(d, m, q + rest[..n + 1]);
      }
      WalkOld(d, m, q + [x], rest[1..], more);
      assert Child(EntriesOf(d, m[q]), x) == Expected(m, q, x);
      assert ([x] + (rest[1..] + more))[1..] == rest[1..] + more;
    }
  }

  lemma OldFound(d: Disk, m: Names, q: Path, a: Creation, d1: Disk, q2: Path, a2: Creation, d2: Disk, r: Path)
    requires Spilled(d, m, q, a, d1, q2, a2) && Twice(d, a, d2, a2) && r in m && r != q && IsDir(d, m[r])
    ensures FindsOld(d2, m, r)
  {
    hide Walk, Installed;
    CoreIsFramed(d, m);
    CleanReads(d, m, r);
    assert a.p in m.Values && a2.p in m.Values && m[r] in m.Values;
    UncheckedFacts(d, m, q, a);
    SecondGets(d, m, q, a, d1, q2, a2);
    SecondIsFresh(d, m, q, a, d1, q2, a2, a2.p);
    SecondIsFresh(d, m, q, a, d1, q2, a2, m[r]);
    SlotBehind(d, a);
    SitedHere(d, m, q, a);
    assert Apart(d, a2.p, a.p);
    if r == q2 {
      SecondParentAppends(d, a, d2, a2);
      FoundInAppended(d, d2, m, r, Dentry(a2.n, a2.x));
    } else {
      assert Apart(d, m[r], a.p) && Apart(d, m[r], a2.p);
      OthersAsBefore(d, m, a, d2, a2, m[r]);
      FoundInSame(d, d2, m, r);
    }
  }

  lemma SitedHere(d: Disk, m: Names, q: Path, a: Creation)
    requires Crowded(d, m, q, a)
    ensures Sited(d, a)
  {
    InstalledGrows(d, m, q, a);
    GrowthIsSited(d, m, q, a, Installed(d, a));
  }

  lemma SlotBehind(d: Disk, a: Creation)
    requires InodeAt(d, a.p).dentryCount == SLOTS
    ensures EntrySlot(d, a.p) == SLOTS * Behind(d, a.p)
  {
  }

  lemma FoundInAppended(d: Disk, d2: Disk, m: Names, r: Path, c: Cell)
    requires Reads(d, m, r) && EntriesOf(d2, m[r]) == EntriesOf(d, m[r]) + [c] && IsDir(d2, m[r])
    ensures FindsOld(d2, m, r)
  {
    forall z | Plain(z) && Expected(m, r, z) != -1
      ensures Child(EntriesOf(d2, m[r]), z) == Expected(m, r, z)
    {
      assert Child(EntriesOf(d, m[r]), z) == Expected(m, r, z);
      ChildOfAppended(EntriesOf(d, m[r]), c, z);
    }
  }

  lemma FoundInSame(d: Disk, d2: Disk, m: Names, r: Path)
    requires Reads(d, m, r) && EntriesOf(d2, m[r]) == EntriesOf(d, m[r]) && IsDir(d2, m[r])
    ensures FindsOld(d2, m, r)
  {
    forall z | Plain(z) && Expected(m, r, z) != -1
      ensures Child(EntriesOf(d2, m[r]), z) == Expected(m, r, z)
    {
      assert Child(EntriesOf(d, m[r]), z) == Expected(m, r, z);
    }
  }

  /**
   * The next creation whose extent comes into the block behind overwrites the seventeenth entry: its name is not found
   * any more, and in its place there is one called MARK, for the block that the new extent starts at.
   */
  lemma SpilledNameIsLost(d: Disk, m: Names, q: Path, a: Creation, d1: Disk, q2: Path, a2: Creation, d2: Disk)
    requires Spilled(d, m, q, a, d1, q2, a2) && d2 == Installed(d1, a2)
    ensures Walk(d1, 0, q + [a.x]) == At(a.n)
    ensures a.x != MARK ==> Walk(d2, 0, q + [a.x]) == NoEntry
    ensures q + [MARK] !in m ==> Walk(d2, 0, q + [MARK]) == At(a2.b + d.geo.firstData)
  {
    hide Core, Installed, Twice, Walk;
    SpillIntoFreeBlock(d, m, q, a);
    NewPathShown(d, m, q, a);
    BothTouch(d, m, q, a, d1, q2, a2, d2);
    LostAtParent(d, m, q, a, d1, q2, a2, d2, a.x);
    if q + [MARK] !in m {
      MarkIsPlain();
      LostAtParent(d, m, q, a, d1, q2, a2, d2, MARK);
    }
  }

  lemma MarkIsPlain()
    ensures Plain(MARK)
  {
    assert MARK[0] == '\U{0001}';
  }

  lemma LostAtParent(d: Disk, m: Names, q: Path, a: Creation, d1: Disk, q2: Path, a2: Creation, d2: Disk, x: string)
    requires Spilled(d, m, q, a, d1, q2, a2) && Twice(d, a, d2, a2) && Plain(x) && q + [x] !in m
    ensures Walk(d2, 0, q + [x]) == if x == MARK then At(a2.b + d.geo.firstData) else NoEntry
  {
    hide Core, Installed, Twice, Walk;
    LastSlotIsMark(d, m, q, a, d1, q2, a2, d2, x);
    SearchAtParent(d, m, q, a, d1, q2, a2, d2, x);
  }

  lemma NewPathShown(d: Disk, m: Names, q: Path, a: Creation)
    requires Crowded(d, m, q, a) && Shows(Installed(d, a), m[q + [a.x] := a.n])
    ensures Walk(Installed(d, a), 0, q + [a.x]) == At(a.n)
  {
    hide Installed, Spells;
    CoreIsFramed(d, m);
    FramedIsPlain(d, m, q);
    assert ShowsPath(Installed(d, a), m[q + [a.x] := a.n], q + [a.x]);
  }

  lemma LastSlotIsMark(d: Disk, m: Names, q: Path, a: Creation, d1: Disk, q2: Path, a2: Creation, d2: Disk, x: string)
    requires Spilled(d, m, q, a, d1, q2, a2) && Twice(d, a, d2, a2) && Plain(x) && q + [x] !in m
    ensures Child(EntriesOf(d2, a.p), x) == if x == MARK then a2.b + d.geo.firstData else -1
  {
    hide Walk, Installed;
    var c := WithExtent(Dentry(a.n, a.x), Extent(a2.b + d.geo.firstData, 1));
    assert a.p in m.Values && a2.p in m.Values;
    CoreIsFramed(d, m);
    SecondGets(d, m, q, a, d1, q2, a2);
    SecondIsFresh(d, m, q, a, d1, q2, a2, a2.p);
    SecondIsFresh(d, m, q, a, d1, q2, a2, a.p);
    SlotBehind(d, a);
    SitedHere(d, m, q, a);
    assert Apart(d, a.p, a2.p);
    FirstParentAppends(d, a, d2, a2);
    CleanReads(d, m, q);
    assert Child(EntriesOf(d, m[q]), x) == Expected(m, q, x);
    OneBlockExtentIsMark(c);
    ChildOfAppended(EntriesOf(d, a.p), c, x);
  }

  lemma SearchAtParent(d: Disk, m: Names, q: Path, a: Creation, d1: Disk, q2: Path, a2: Creation, d2: Disk, x: string)
    requires Spilled(d, m, q, a, d1, q2, a2) && Twice(d, a, d2, a2)
    ensures var c := Child(EntriesOf(d2, a.p), x); Walk(d2, 0, q + [x]) == if c == -1 then NoEntry else At(c)
  {
    CoreIsFramed(d, m);
    FramedIsPlain(d, m, q);
    assert [] + q == q;
    forall n | 0 <= n < |q|
      ensures FindsOld(d2, m, [] + q[..n])
    {
      FramedPrefix(d, m, q, n);
      assert [] + q[..n] == q[..n] && |q[..n]| < |q|;
      OldFound(d, m, q, a, d1, q2, a2, d2, q[..n]);
    }
    WalkOld(d2, m, [], q, [x]);
    SearchIsWalk(d2, a.p, x);
  }
}
