/** What mkdir and create do when nobody saw to a free slot or a fresh name. */
module Overflowing {
  import opened Disk
  import opened Storage
  import opened Installing
  import opened Tree
  import opened FileSystem
  import opened Observing

  /** What mkdir and create find when they get past allocation, before anyone asked whether the name is free or fits. */
  ghost predicate Unchecked(d: Disk, m: Names, q: Path, a: Creation) {
    && Core(d, m) && q in m && IsDir(d, m[q]) && a.p == m[q] && Plain(a.x) && Fits(a.x)
    && Allocate(d) == Got(a.n, a.e, a.b) && a.dots == (a.mode & 0x4000 != 0)
  }

  /** The block behind the directory's own, where its seventeenth slot is. */
  function Behind(d: Disk, p: nat): int {
    DataOf(d, p) + 1
  }

  /** The directory's block is full, and there is a block behind it. */
  ghost predicate Crowded(d: Disk, m: Names, q: Path, a: Creation) {
    && Unchecked(d, m, q, a) && InodeAt(d, a.p).dentryCount == SLOTS && 0 <= Behind(d, a.p) < d.geo.dblockCount
  }

  lemma UncheckedFacts(d: Disk, m: Names, q: Path, a: Creation)
    requires Unchecked(d, m, q, a)
    ensures Stored(d, a.p) && a.n !in m.Values && a.n < d.geo.inodeCount
    ensures a.e % 2 == 0 && a.b == a.e + 1 < d.geo.dblockCount
    ensures forall i {:trigger i in m.Values} :: i in m.Values ==> !Owns(d, i, a.e) && !Owns(d, i, a.b)
    ensures Placed(d, a) <==> EntrySlot(d, a.p) < |d.cells| && EntrySlot(d, a.p) != SLOTS * a.e
  {
    AllocationIsFresh(d, m.Values, a.n, a.e, a.b);
    assert a.p in m.Values;
    LiveIsStored(d, m.Values, a.p);
  }

  /** What the slot behind the old entries holds afterwards: the entry, unless the new extent goes there, too. */
  function LastSlot(d: Disk, a: Creation): Cell {
    if a.e == Behind(d, a.p) && InodeAt(d, a.p).dentryCount == SLOTS
    then WithExtent(Dentry(a.n, a.x), Extent(a.b + d.geo.firstData, 1))
    else Dentry(a.n, a.x)
  }

  /** The effect of a creation as far as searches go. */
  ghost predicate Grown(d: Disk, d': Disk, a: Creation) {
    && d'.geo == d.geo && |d'.cells| == |d.cells|
    && InodeAt(d', a.p) == AddDentries(InodeAt(d, a.p), 1)
    && InodeAt(d', a.n) == NewInode(InodeAt(d, a.n), a.mode, a.now, a.e + d.geo.firstData)
    && (forall i: nat :: i != a.p && i != a.n ==> InodeAt(d', i) == InodeAt(d, i))
    && CellAt(d', EntrySlot(d, a.p)) == LastSlot(d, a)
    && ExtentAt(d', a.e, 0) == Extent(a.b + d.geo.firstData, 1)
    && (a.dots ==> NameOf(CellAt(d', SLOTS * a.b)) == "." && NameOf(CellAt(d', SLOTS * a.b + 1)) == "..")
    && forall c :: !Written(d, a, c) ==> CellAt(d', c) == CellAt(d, c)
  }

  lemma InstalledGrows(d: Disk, m: Names, q: Path, a: Creation)
    requires Unchecked(d, m, q, a) && (InodeAt(d, a.p).dentryCount < SLOTS || Crowded(d, m, q, a))
    ensures Grown(d, Installed(d, a), a)
  {
    SlotInImage(d, m, q, a);
    if EntrySlot(d, a.p) == SLOTS * a.e {
      SwallowedGrows(d, m, q, a, Installed(d, a));
    } else {
      InstalledCreates(d, a);
      CreatedGrows(d, a, Installed(d, a));
    }
  }

  lemma SlotInImage(d: Disk, m: Names, q: Path, a: Creation)
    requires Unchecked(d, m, q, a) && (InodeAt(d, a.p).dentryCount < SLOTS || Crowded(d, m, q, a))
    ensures EntrySlot(d, a.p) == SLOTS * a.e ==> Crowded(d, m, q, a)
    ensures EntrySlot(d, a.p) != SLOTS * a.e ==> Placed(d, a)
  {
    UncheckedFacts(d, m, q, a);
  }

  lemma CreatedGrows(d: Disk, a: Creation, d': Disk)
    requires Placed(d, a) && Created(d, d', a)
    ensures Grown(d, d', a)
  {
    assert ExtentAt(d', a.e, 0) == Extent(a.b + d.geo.firstData, 1);
  }

  /** The new inode's extent is written over the new entry. */
  lemma SwallowedCells(d: Disk, a: Creation, c: int)
    requires Shape(d) && a.b == a.e + 1 < d.geo.dblockCount && EntrySlot(d, a.p) == SLOTS * a.e
    ensures var d' := Installed(d, a);
            && |d'.cells| == |d.cells|
            && CellAt(d', SLOTS * a.e) == WithExtent(Dentry(a.n, a.x), Extent(a.b + d.geo.firstData, 1))
            && (a.dots ==> CellAt(d', SLOTS * a.b) == Dentry(a.n, "."))
            && (a.dots ==> CellAt(d', SLOTS * a.b + 1) == Dentry(SelfOf(d, a.p), ".."))
            && (!Written(d, a, c) ==> CellAt(d', c) == CellAt(d, c))
  {
  }

  lemma InstalledInodes(d: Disk, a: Creation, i: nat)
    requires a.p != a.n && a.p < |d.inodes| && a.n < |d.inodes|
    ensures var d' := Installed(d, a);
            && d'.geo == d.geo
            && InodeAt(d', a.p) == AddDentries(InodeAt(d, a.p), 1)
            && InodeAt(d', a.n) == NewInode(InodeAt(d, a.n), a.mode, a.now, a.e + d.geo.firstData)
            && (i != a.p && i != a.n ==> InodeAt(d', i) == InodeAt(d, i))
  {
  }

  lemma SwallowedGrows(d: Disk, m: Names, q: Path, a: Creation, d': Disk)
    requires Crowded(d, m, q, a) && EntrySlot(d, a.p) == SLOTS * a.e && d' == Installed(d, a)
    ensures Grown(d, d', a)
  {
    UncheckedFacts(d, m, q, a);
    SwallowedIsGrown(d, a, d');
  }

  lemma SwallowedIsGrown(d: Disk, a: Creation, d': Disk)
    requires Shape(d) && a.p != a.n && a.p < |d.inodes| && a.n < |d.inodes| && InodeAt(d, a.p).dentryCount == SLOTS
    requires a.b == a.e + 1 < d.geo.dblockCount && EntrySlot(d, a.p) == SLOTS * a.e && d' == Installed(d, a)
    ensures Grown(d, d', a)
  {
    SwallowedKeeps(d, a, d');
    SwallowedCells(d, a, 0);
    InstalledInodes(d, a, 0);
    SwallowedSlot(d, a, d');
  }

  lemma SwallowedKeeps(d: Disk, a: Creation, d': Disk)
    requires Shape(d) && a.p != a.n && a.p < |d.inodes| && a.n < |d.inodes|
    requires a.b == a.e + 1 < d.geo.dblockCount && EntrySlot(d, a.p) == SLOTS * a.e && d' == Installed(d, a)
    ensures forall i: nat :: i != a.p && i != a.n ==> InodeAt(d', i) == InodeAt(d, i)
    ensures forall c :: !Written(d, a, c) ==> CellAt(d', c) == CellAt(d, c)
  {
    forall c
      ensures !Written(d, a, c) ==> CellAt(d', c) == CellAt(d, c)
    {
      SwallowedCells(d, a, c);
    }
    forall i: nat
      ensures i != a.p && i != a.n ==> InodeAt(d', i) == InodeAt(d, i)
    {
      InstalledInodes(d, a, i);
    }
  }

  lemma SwallowedSlot(d: Disk, a: Creation, d': Disk)
    requires EntrySlot(d, a.p) == SLOTS * a.e && InodeAt(d, a.p).dentryCount == SLOTS
    requires CellAt(d', SLOTS * a.e) == WithExtent(Dentry(a.n, a.x), Extent(a.b + d.geo.firstData, 1))
    ensures CellAt(d', EntrySlot(d, a.p)) == LastSlot(d, a)
    ensures ExtentAt(d', a.e, 0) == Extent(a.b + d.geo.firstData, 1)
  {
  }

  // ---- Searches afterwards ----

  /** The seventeenth slot of the directory is in a block that inode i has its extent in. */
  predicate Hit(d: Disk, a: Creation, i: nat) {
    InodeAt(d, a.p).dentryCount == SLOTS && ExtOf(d, i) == Behind(d, a.p)
  }

  /** A creation as the code carries it out, with or without room in the directory. */
  ghost predicate Growth(d: Disk, m: Names, q: Path, a: Creation, d': Disk) {
    && Unchecked(d, m, q, a) && (InodeAt(d, a.p).dentryCount < SLOTS || Crowded(d, m, q, a))
    && Grown(d, d', a)
  }

  /** Where everything is that a creation concerns. */
  ghost predicate Sited(d: Disk, a: Creation) {
    && Shape(d) && Stored(d, a.p) && IsDir(d, a.p) && a.p != a.n && a.e % 2 == 0 && a.b == a.e + 1 < d.geo.dblockCount
    && !Owns(d, a.p, a.e) && !Owns(d, a.p, a.b)
    && (InodeAt(d, a.p).dentryCount < SLOTS || Behind(d, a.p) < d.geo.dblockCount)
  }

  lemma GrowthIsSited(d: Disk, m: Names, q: Path, a: Creation, d': Disk)
    requires Growth(d, m, q, a, d')
    ensures Sited(d, a) && Grown(d, d', a) && a.p in m.Values && a.n !in m.Values
  {
    UncheckedFacts(d, m, q, a);
    assert a.p in m.Values;
  }

  lemma GrowthKeeps(d: Disk, m: Names, q: Path, a: Creation, d': Disk, i: nat)
    requires Growth(d, m, q, a, d') && i in m.Values && i != a.p && !Hit(d, a, i)
    ensures EntriesOf(d', i) == EntriesOf(d, i) && IsDir(d', i) == IsDir(d, i)
  {
    UncheckedFacts(d, m, q, a);
    LiveIsStored(d, m.Values, i);
    assert a.p in m.Values && Apart(d, i, a.p);
    GrowthIsSited(d, m, q, a, d');
    OtherAt(d, a, d', i);
  }

  lemma OtherAt(d: Disk, a: Creation, d': Disk, i: nat)
    requires Sited(d, a) && Grown(d, d', a) && Stored(d, i) && !Hit(d, a, i) && i != a.p && i != a.n
    requires Apart(d, i, a.p) && !Owns(d, i, a.e) && !Owns(d, i, a.b)
    ensures EntriesOf(d', i) == EntriesOf(d, i) && IsDir(d', i) == IsDir(d, i)
  {
    SameBlocks(d, d', i);
  }

  lemma GrowthKeepsKinds(d: Disk, m: Names, q: Path, a: Creation, d': Disk, i: nat)
    requires Growth(d, m, q, a, d') && i in m.Values
    ensures IsDir(d', i) == IsDir(d, i)
  {
    UncheckedFacts(d, m, q, a);
  }

  lemma GrowthInParent(d: Disk, m: Names, q: Path, a: Creation, d': Disk)
    requires Growth(d, m, q, a, d')
    ensures EntriesOf(d', a.p) == EntriesOf(d, a.p) + [LastSlot(d, a)] && IsDir(d', a.p)
  {
    GrowthIsSited(d, m, q, a, d');
    ParentAppended(d, a, d');
  }

  lemma ParentAppended(d: Disk, a: Creation, d': Disk)
    requires Sited(d, a) && Grown(d, d', a)
    ensures EntriesOf(d', a.p) == EntriesOf(d, a.p) + [LastSlot(d, a)] && IsDir(d', a.p)
  {
    ParentSlotsKept(d, a, d');
    EntriesAppended(d, d', a.p, LastSlot(d, a));
  }

  lemma ParentSlotsKept(d: Disk, a: Creation, d': Disk)
    requires Sited(d, a) && Grown(d, d', a)
    ensures DataOf(d', a.p) == DataOf(d, a.p)
    ensures forall at :: SLOTS * DataOf(d, a.p) <= at < EntrySlot(d, a.p) ==> CellAt(d', at) == CellAt(d, at)
  {
    assert CellAt(d', SLOTS * ExtOf(d, a.p)) == CellAt(d, SLOTS * ExtOf(d, a.p));
  }

  /** The new inode has no children. */
  lemma GrowthOfNew(d: Disk, m: Names, q: Path, a: Creation, d': Disk, x: string)
    requires Growth(d, m, q, a, d') && QuietImage(d) && Plain(x)
    ensures Child(EntriesOf(d', a.n), x) == -1
  {
    GrowthIsSited(d, m, q, a, d');
    NewChildless(d, a, d', x);
  }

  lemma NewChildless(d: Disk, a: Creation, d': Disk, x: string)
    requires Sited(d, a) && Grown(d, d', a) && QuietImage(d) && Plain(x)
    ensures Child(EntriesOf(d', a.n), x) == -1
  {
    hide Grown, QuietImage;
    QuietAt(d, a.b);
    SlotsOfNew(d, a, d');
    QuietStart(d, a, d');
    ChildOfQuiet(CellAt(d', SLOTS * a.b), CellAt(d', SLOTS * a.b + 1), x);
  }

  lemma QuietStart(d: Disk, a: Creation, d': Disk)
    requires Sited(d, a) && Grown(d, d', a) && Quiet(CellAt(d, SLOTS * a.b)) && Quiet(CellAt(d, SLOTS * a.b + 1))
    ensures Quiet(CellAt(d', SLOTS * a.b)) && Quiet(CellAt(d', SLOTS * a.b + 1))
  {
    if !a.dots {
      assert !Written(d, a, SLOTS * a.b) && !Written(d, a, SLOTS * a.b + 1);
    }
  }

  lemma ChildOfQuiet(c0: Cell, c1: Cell, x: string)
    requires Quiet(c0) && Quiet(c1) && Plain(x)
    ensures Child([c0, c1], x) == -1
  {
  }

  lemma SlotsOfNew(d: Disk, a: Creation, d': Disk)
    requires Sited(d, a) && Grown(d, d', a)
    ensures EntriesOf(d', a.n) == [CellAt(d', SLOTS * a.b), CellAt(d', SLOTS * a.b + 1)]
  {
    assert DataOf(d', a.n) == a.b;
  }

  // ---- A name that is there already ----

  /** The path still leads to the old inode, every other path where it led, and nothing leads to the new inode. */
  lemma DuplicateShowsOld(d: Disk, m: Names, q: Path, a: Creation)
    requires Unchecked(d, m, q, a) && QuietImage(d) && InodeAt(d, a.p).dentryCount < SLOTS && q + [a.x] in m
    ensures a.n !in m.Values && Shows(Installed(d, a), m)
  {
    var d' := Installed(d, a);
    UncheckedFacts(d, m, q, a);
    InstalledGrows(d, m, q, a);
    CoreIsFramed(d, m);
    forall r | r in m
      ensures Reads(d', m, r) && Hangs(d', m, r)
    {
      assert Hangs(d, m, r);
      if r != [] {
        GrowthKeepsKinds(d, m, q, a, d', m[Init(r)]);
      }
      DuplicateReads(d, m, q, a, d', r);
    }
    ReadsShows(d', m);
  }

  lemma DuplicateReads(d: Disk, m: Names, q: Path, a: Creation, d': Disk, r: Path)
    requires Growth(d, m, q, a, d') && QuietImage(d) && InodeAt(d, a.p).dentryCount < SLOTS && q + [a.x] in m && r in m
    ensures Reads(d', m, r)
  {
    CleanReads(d, m, r);
    if r == q {
      GrowthInParent(d, m, q, a, d');
      forall x | Plain(x)
        ensures Child(EntriesOf(d', m[r]), x) == Expected(m, r, x)
      {
        assert Child(EntriesOf(d, m[q]), x) == Expected(m, q, x);
        ChildOfAppended(EntriesOf(d, m[q]), LastSlot(d, a), x);
      }
    } else {
      CoreIsFramed(d, m);
      GrowthKeeps(d, m, q, a, d', m[r]);
      assert forall x {:trigger Expected(m, r, x)} :: Plain(x) ==> Child(EntriesOf(d, m[r]), x) == Expected(m, r, x);
    }
  }

  // ---- A seventeenth entry ----

  lemma NewPathFramed(d: Disk, m: Names, q: Path, a: Creation, d': Disk, m': Names)
    requires Growth(d, m, q, a, d') && q + [a.x] !in m && m' == m[q + [a.x] := a.n]
    ensures Framed(d', m')
  {
    UncheckedFacts(d, m, q, a);
    CoreIsFramed(d, m);
    GrowthInParent(d, m, q, a, d');
    forall r | r in m'
      ensures Hangs(d', m', r)
    {
      if r in m {
        assert Hangs(d, m, r);
        if r != [] {
          GrowthKeepsKinds(d, m, q, a, d', m[Init(r)]);
        }
      } else {
        assert Init(r) == q && Last(r) == a.x;
      }
    }
  }

  /** The slots of every inode whose extent was not hit read right, the directory's own aside. */
  lemma OthersRead(d: Disk, m: Names, q: Path, a: Creation, d': Disk, m': Names, r: Path)
    requires Growth(d, m, q, a, d') && QuietImage(d) && q + [a.x] !in m && m' == m[q + [a.x] := a.n]
    requires r in m' && r != q && (r in m ==> !Hit(d, a, m[r]))
    ensures Reads(d', m', r)
  {
    if r in m {
      OldReads(d, m, q, a, d', m', r);
    } else {
      NewReads(d, m, q, a, d', m', r);
    }
  }

  lemma OldReads(d: Disk, m: Names, q: Path, a: Creation, d': Disk, m': Names, r: Path)
    requires Growth(d, m, q, a, d') && QuietImage(d) && q + [a.x] !in m && m' == m[q + [a.x] := a.n]
    requires r in m && r != q && !Hit(d, a, m[r])
    ensures Reads(d', m', r)
  {
    CoreIsFramed(d, m);
    CleanReads(d, m, r);
    GrowthKeeps(d, m, q, a, d', m[r]);
    forall x | Plain(x)
      ensures Child(EntriesOf(d', m'[r]), x) == Expected(m', r, x)
    {
      assert Child(EntriesOf(d, m[r]), x) == Expected(m, r, x);
      SameExpected(m, m', q, a.x, a.n, r, x);
    }
  }

  lemma NewReads(d: Disk, m: Names, q: Path, a: Creation, d': Disk, m': Names, r: Path)
    requires Growth(d, m, q, a, d') && QuietImage(d) && q + [a.x] !in m && m' == m[q + [a.x] := a.n]
    requires r == q + [a.x]
    ensures Reads(d', m', r)
  {
    CoreIsFramed(d, m);
    forall x | Plain(x)
      ensures Child(EntriesOf(d', m'[r]), x) == Expected(m', r, x)
    {
      GrowthOfNew(d, m, q, a, d', x);
      assert Init(r + [x]) == r;
      assert r + [x] in m ==> Hangs(d, m, r + [x]);
    }
  }

  /** The directory itself finds the new name exactly if its last slot names the new inode. */
  lemma ParentReadsIff(d: Disk, m: Names, q: Path, a: Creation, d': Disk, m': Names)
    requires Growth(d, m, q, a, d') && q + [a.x] !in m && m' == m[q + [a.x] := a.n]
    ensures Reads(d', m', q) <==> NameOf(LastSlot(d, a)) == a.x && InoOf(LastSlot(d, a)) == a.n
  {
    var es, c := EntriesOf(d, m[q]), LastSlot(d, a);
    UncheckedFacts(d, m, q, a);
    GrowthInParent(d, m, q, a, d');
    CleanReads(d, m, q);
    assert |q + [a.x]| > |q|;
    ParentReads(d', m, q, a.x, a.n, m', es, c);
  }

  lemma ParentReads(d': Disk, m: Names, q: Path, x: string, n: nat, m': Names, es: seq<Cell>, c: Cell)
    requires q in m && q + [x] !in m && m' == m[q + [x] := n] && m'[q] == m[q] && Plain(x)
    requires EntriesOf(d', m[q]) == es + [c]
    requires forall z {:trigger Expected(m, q, z)} :: Plain(z) ==> Child(es, z) == Expected(m, q, z)
    ensures Reads(d', m', q) <==> NameOf(c) == x && InoOf(c) == n
  {
    ChildOfAppended(es, c, x);
    assert Child(es, x) == Expected(m, q, x) == -1;
    if Reads(d', m', q) {
      assert Child(es + [c], x) == Expected(m', q, x) == n;
    }
    if NameOf(c) == x && InoOf(c) == n {
      forall z | Plain(z)
        ensures Child(EntriesOf(d', m'[q]), z) == Expected(m', q, z)
      {
        ChildOfAppended(es, c, z);
        assert Child(es, z) == Expected(m, q, z);
        assert z != x ==> Last(q + [z]) != Last(q + [x]);
      }
    }
  }

  /** A seventeenth entry is decided at the inode whose extent is in the block behind, if it is not the new inode's. */
  lemma SpillShowsIff(d: Disk, m: Names, q: Path, a: Creation, d': Disk, m': Names)
    requires Crowded(d, m, q, a) && QuietImage(d) && q + [a.x] !in m
    requires d' == Installed(d, a) && m' == m[q + [a.x] := a.n]
    ensures Shows(d', m') <==>
            if a.e == Behind(d, a.p) then a.x == MARK && a.n == a.b + d.geo.firstData
            else forall s {:trigger Hit(d, a, m[s])} :: s in m && Hit(d, a, m[s]) ==> Reads(d', m', s)
  {
    InstalledGrows(d, m, q, a);
    UncheckedFacts(d, m, q, a);
    NewPathFramed(d, m, q, a, d', m');
    ParentReadsIff(d, m, q, a, d', m');
    if a.e == Behind(d, a.p) {
      OneBlockExtentIsMark(LastSlot(d, a));
      forall r | r in m' && r != q
        ensures Reads(d', m', r)
      {
        assert r in m ==> m[r] in m.Values;
        OthersRead(d, m, q, a, d', m', r);
      }
      OneSearchDecides(d', m', q);
    } else if s :| s in m && Hit(d, a, m[s]) {
      HitOnceDecides(d, m, q, a, d', m', s);
    } else {
      forall r | r in m'
        ensures Reads(d', m', r)
      {
        if r != q {
          OthersRead(d, m, q, a, d', m', r);
        }
      }
      ReadsShows(d', m');
    }
  }

  lemma HitOnceDecides(d: Disk, m: Names, q: Path, a: Creation, d': Disk, m': Names, s: Path)
    requires Growth(d, m, q, a, d') && QuietImage(d) && q + [a.x] !in m && m' == m[q + [a.x] := a.n]
    requires Framed(d', m') && Reads(d', m', q) && s in m && Hit(d, a, m[s])
    ensures Shows(d', m') <==> Reads(d', m', s)
    ensures forall r {:trigger Hit(d, a, m[r])} :: r in m && Hit(d, a, m[r]) ==> r == s
    ensures forall r {:trigger Reads(d', m', r)} :: r in m' && r != s ==> Reads(d', m', r)
  {
    CoreIsFramed(d, m);
    forall r | r in m && Hit(d, a, m[r])
      ensures r == s
    {
      assert m[r] in m.Values && m[s] in m.Values;
      assert m[r] != m[s] ==> Apart(d, m[r], m[s]);
    }
    forall r | r in m' && r != s
      ensures Reads(d', m', r)
    {
      if r != q {
        OthersRead(d, m, q, a, d', m', r);
      }
    }
    assert s in m';
    OneSearchDecides(d', m', s);
  }

  /** So a taken bit decides: behind a block whose neighbour is free, the seventeenth entry does no harm yet. */
  lemma SpillIntoFreeBlock(d: Disk, m: Names, q: Path, a: Creation)
    requires Crowded(d, m, q, a) && QuietImage(d) && q + [a.x] !in m
    requires !d.dbits[Behind(d, a.p)] && a.e != Behind(d, a.p)
    ensures Shows(Installed(d, a), m[q + [a.x] := a.n])
    ensures EntriesOf(Installed(d, a), a.p) == EntriesOf(d, a.p) + [Dentry(a.n, a.x)]
  {
    InstalledGrows(d, m, q, a);
    GrowthInParent(d, m, q, a, Installed(d, a));
    forall s | s in m && Hit(d, a, m[s])
      ensures false
    {
      ListedNode(d, m, s);
    }
    SpillShowsIff(d, m, q, a, Installed(d, a), m[q + [a.x] := a.n]);
  }

  // ---- What is read through an overwritten extent ----

  /** The bitmaps and records after a creation. */
  function Recorded(d: Disk, a: Creation): Disk {
    var t := TakeBits(d, a.n, a.e, a.b);
    var inodes := PutInode(t.inodes, a.p, AddDentries(InodeAt(t, a.p), 1));
    var was := InodeAt(t.(inodes := inodes), a.n);
    t.(inodes := PutInode(inodes, a.n, NewInode(was, a.mode, a.now, t.geo.firstData + a.e)))
  }

  /** Slot number c after a creation, told from the image before it. */
  function SlotAfter(d: Disk, a: Creation, c: int): Cell {
    if c < 0 then SlotAt(Recorded(d, a), c)
    else if c == EntrySlot(d, a.p) then LastSlot(d, a)
    else if c == SLOTS * a.e then WithExtent(CellAt(d, c), Extent(a.b + d.geo.firstData, 1))
    else if a.dots && c == SLOTS * a.b then Dentry(a.n, ".")
    else if a.dots && c == SLOTS * a.b + 1 then Dentry(SelfOf(d, a.p), "..")
    else CellAt(d, c)
  }

  /** n slots from slot number at after a creation. */
  function SlotsAfter(d: Disk, a: Creation, at: int, n: int): seq<Cell> {
    if n < 0 || at + n > |d.cells| || at < -SLOTS * d.geo.firstData then []
    else seq(n, k requires 0 <= k < n => SlotAfter(d, a, at + k))
  }

  lemma InstalledSlot(d: Disk, m: Names, q: Path, a: Creation, c: int)
    requires Crowded(d, m, q, a)
    ensures SlotAt(Installed(d, a), c) == SlotAfter(d, a, c)
  {
    SlotInImage(d, m, q, a);
    if c < 0 {
      InstalledRecorded(d, a);
    } else if EntrySlot(d, a.p) == SLOTS * a.e {
      UncheckedFacts(d, m, q, a);
      SwallowedSlots(d, a, c);
    } else {
      PlacedSlots(d, a, c);
    }
  }

  lemma InstalledRecorded(d: Disk, a: Creation)
    ensures var d', r := Installed(d, a), Recorded(d, a);
            d'.geo == r.geo && d'.ibits == r.ibits && d'.dbits == r.dbits && d'.inodes == r.inodes
  {
  }

  lemma PlacedSlots(d: Disk, a: Creation, c: nat)
    requires Placed(d, a)
    ensures CellAt(Installed(d, a), c) == SlotAfter(d, a, c)
  {
    InstalledCells(d, a, c);
  }

  lemma SwallowedSlots(d: Disk, a: Creation, c: nat)
    requires Shape(d) && InodeAt(d, a.p).dentryCount == SLOTS
    requires a.b == a.e + 1 < d.geo.dblockCount && EntrySlot(d, a.p) == SLOTS * a.e
    ensures CellAt(Installed(d, a), c) == SlotAfter(d, a, c)
  {
    SwallowedCells(d, a, c);
  }

  /** A directory whose extent is hit keeps its record, and reads the slots of the block with the new inode's number. */
  lemma OverwrittenReadsElsewhere(d: Disk, m: Names, q: Path, a: Creation, d': Disk, s: Path)
    requires Crowded(d, m, q, a) && a.e != Behind(d, a.p) && s in m && Hit(d, a, m[s]) && d' == Installed(d, a)
    ensures DataOf(d', m[s]) == a.n - d.geo.firstData
    ensures EntriesOf(d', m[s]) == SlotsAfter(d, a, SLOTS * (a.n - d.geo.firstData), InodeAt(d, m[s]).dentryCount)
    ensures s != q && a.n > 0 && 2 <= InodeAt(d, m[s]).dentryCount <= SLOTS
  {
    InstalledGrows(d, m, q, a);
    GrowthIsSited(d, m, q, a, d');
    RootIsDirectory(d, m);
    ListedNode(d, m, s);
    assert m[s] in m.Values && m[[]] in m.Values;
    OverwrittenAt(d, a, d', m[s]);
    OverwrittenSlots(d, m, q, a, d', m[s]);
  }

  lemma OverwrittenSlots(d: Disk, m: Names, q: Path, a: Creation, d': Disk, i: nat)
    requires Crowded(d, m, q, a) && d' == Installed(d, a) && d'.geo == d.geo && |d'.cells| == |d.cells|
    requires DataOf(d', i) == a.n - d.geo.firstData && InodeAt(d', i) == InodeAt(d, i)
    ensures EntriesOf(d', i) == SlotsAfter(d, a, SLOTS * (a.n - d.geo.firstData), InodeAt(d, i).dentryCount)
  {
    forall c
      ensures SlotAt(d', c) == SlotAfter(d, a, c)
    {
      InstalledSlot(d, m, q, a, c);
    }
    SlotsAgree(d, a, d', SLOTS * (a.n - d.geo.firstData), InodeAt(d, i).dentryCount);
  }

  lemma OverwrittenAt(d: Disk, a: Creation, d': Disk, i: nat)
    requires Sited(d, a) && Grown(d, d', a) && a.e != Behind(d, a.p) && Hit(d, a, i) && Stored(d, i) && i != a.n
    ensures DataOf(d', i) == a.n - d.geo.firstData && InodeAt(d', i) == InodeAt(d, i) && i != a.p
  {
    assert CellAt(d', SLOTS * ExtOf(d, i)) == Dentry(a.n, a.x);
  }

  lemma SlotsAgree(d: Disk, a: Creation, d': Disk, at: int, n: int)
    requires d'.geo == d.geo && |d'.cells| == |d.cells|
    requires forall c {:trigger SlotAt(d', c)} :: SlotAt(d', c) == SlotAfter(d, a, c)
    ensures SlotsFrom(d', at, n) == SlotsAfter(d, a, at, n)
  {
    var after, before := SlotsFrom(d', at, n), SlotsAfter(d, a, at, n);
    forall k | 0 <= k < |before|
      ensures after[k] == before[k]
    {
      assert SlotAt(d', at + k) == SlotAfter(d, a, at + k);
    }
  }

  /** What a search finds there. */
  lemma OverwrittenFinds(d: Disk, m: Names, q: Path, a: Creation, d': Disk, s: Path, x: string)
    requires Crowded(d, m, q, a) && QuietImage(d) && q + [a.x] !in m && a.e != Behind(d, a.p)
    requires s in m && Hit(d, a, m[s]) && Plain(x) && d' == Installed(d, a)
    ensures var at, n := SLOTS * (a.n - d.geo.firstData), InodeAt(d, m[s]).dentryCount;
            var c := Child(SlotsAfter(d, a, at, n), x);
            Walk(d', 0, s + [x]) == if c == -1 then NoEntry else At(c)
  {
    var m' := m[q + [a.x] := a.n];
    InstalledGrows(d, m, q, a);
    OverwrittenReadsElsewhere(d, m, q, a, d', s);
    HitWalks(d, m, q, a, d', m', s, x);
  }

  lemma HitWalks(d: Disk, m: Names, q: Path, a: Creation, d': Disk, m': Names, s: Path, x: string)
    requires Growth(d, m, q, a, d') && QuietImage(d) && q + [a.x] !in m && m' == m[q + [a.x] := a.n]
    requires InodeAt(d, a.p).dentryCount == SLOTS && a.e != Behind(d, a.p) && s in m && Hit(d, a, m[s]) && Plain(x)
    ensures var c := Child(EntriesOf(d', m[s]), x); Walk(d', 0, s + [x]) == if c == -1 then NoEntry else At(c)
  {
    NewPathFramed(d, m, q, a, d', m');
    ParentReadsIff(d, m, q, a, d', m');
    HitOnceDecides(d, m, q, a, d', m', s);
    assert s in m' && m'[s] == m[s];
    WalkToSearch(d', m', s, x);
  }

  /**
   * After a seventeenth entry, every path leads where it led and the new path to the new inode, if and only if
   * - the block behind is not the new inode's extent block: otherwise the last slot reads as an entry called MARK, and
   * - whatever listed inode has its extent there finds its children in the block that the new inode's number stands
   *   for, be it a data block or one of the metadata blocks.
   */
  lemma SeventeenthEntryIff(d: Disk, m: Names, q: Path, a: Creation, d': Disk, m': Names)
    requires Crowded(d, m, q, a) && QuietImage(d) && q + [a.x] !in m
    requires d' == Installed(d, a) && m' == m[q + [a.x] := a.n]
    ensures Shows(d', m') <==>
            if a.e == Behind(d, a.p) then a.x == MARK && a.n == a.b + d.geo.firstData
            else forall s {:trigger Hit(d, a, m[s])} :: s in m && Hit(d, a, m[s]) ==>
                   Spelled(m, s, SlotsAfter(d, a, SLOTS * (a.n - d.geo.firstData), InodeAt(d, m[s]).dentryCount))
  {
    SpillShowsIff(d, m, q, a, d', m');
    forall s | a.e != Behind(d, a.p) && s in m && Hit(d, a, m[s])
      ensures Reads(d', m', s) <==>
              Spelled(m, s, SlotsAfter(d, a, SLOTS * (a.n - d.geo.firstData), InodeAt(d, m[s]).dentryCount))
    {
      OverwrittenReadsElsewhere(d, m, q, a, d', s);
      SameSpelled(m, m', q, a.x, a.n, s,
                  SlotsAfter(d, a, SLOTS * (a.n - d.geo.firstData), InodeAt(d, m[s]).dentryCount));
      UncheckedFacts(d, m, q, a);
      assert m[s] in m.Values && m'[s] == m[s];
    }
  }

  lemma SameSpelled(m: Names, m': Names, q: Path, x: string, n: nat, s: Path, es: seq<Cell>)
    requires s != q && m' == m[q + [x] := n]
    ensures Spelled(m', s, es) <==> Spelled(m, s, es)
  {
    forall z
      ensures Expected(m', s, z) == Expected(m, s, z)
    {
      SameExpected(m, m', q, x, n, s, z);
    }
    if Spelled(m, s, es) {
      forall z | Plain(z)
        ensures Child(es, z) == Expected(m', s, z)
      {
        assert Child(es, z) == Expected(m, s, z);
      }
    }
    if Spelled(m', s, es) {
      forall z | Plain(z)
        ensures Child(es, z) == Expected(m, s, z)
      {
        assert Child(es, z) == Expected(m', s, z);
      }
    }
  }

  lemma SameExpected(m: Names, m': Names, q: Path, x: string, n: nat, s: Path, z: string)
    requires s != q && m' == m[q + [x] := n]
    ensures Expected(m', s, z) == Expected(m, s, z)
  {
    assert Init(s + [z]) == s && Init(q + [x]) == q;
  }

  // ---- Numbers that stand for the inode table ----

  /** The padding behind the mode starts with a zero byte, as in a zeroed image. */
  predicate Blank(v: Inode) {
    v.pads == "" || v.pads[0] == '\0'
  }

  ghost predicate Padless(d: Disk) {
    forall i: nat {:trigger InodeAt(d, i)} :: Blank(InodeAt(d, i))
  }

  /** Then the table has no names. */
  lemma TableSlotIsNameless(d: Disk, j: nat)
    requires Padless(d)
    ensures NameOf(TableSlot(d.inodes, j)) == ""
  {
    var v := Record(d.inodes, 4 * j);
    assert v == InodeAt(d, 4 * j);
    FifthByte(v);
    FourBytesOn(RecordBytes(v), NextThree(d.inodes, 4 * j));
  }

  lemma FourBytesOn(bytes: string, more: string)
    requires |bytes| > 4 && bytes[4] == '\0'
    ensures NameOf(SlotOfBytes(bytes + more)) == ""
  {
    assert (bytes + more)[4..][0] == bytes[4];
  }

  lemma FifthByte(v: Inode)
    requires Blank(v)
    ensures RecordBytes(v)[4] == '\0'
  {
    ByteBehind(Le(v.mode as int, 4), Padding(v.pads, 0, 4), FieldBytes(v));
  }

  lemma ByteBehind(first: string, second: string, rest: string)
    requires |first| == 4 && |second| == 4
    ensures (first + second + rest)[4] == second[0]
  {
  }

  lemma TableIsNameless(d: Disk, c: int)
    requires Padless(d) && Decoded(d.geo) && -SLOTS * (d.geo.firstData - d.geo.firstInode) <= c < 0
    ensures NameOf(SlotAt(d, c)) == ""
  {
    hide TableSlot;
    TableSlotIsNameless(d, SLOTS * d.geo.firstData + c - SLOTS * d.geo.firstInode);
  }

  lemma RecordedIsPadless(d: Disk, a: Creation)
    requires Padless(d)
    ensures Padless(Recorded(d, a))
  {
    forall i: nat
      ensures Blank(InodeAt(Recorded(d, a), i))
    {
      assert Blank(InodeAt(d, i));
    }
  }

  /** The new inode's number stands for a block of such a table. */
  ghost predicate InTable(d: Disk, a: Creation) {
    d.geo.firstInode <= a.n < d.geo.firstData && Padless(d) && Decoded(d.geo)
  }

  lemma TableSlotAfter(d: Disk, a: Creation, c: int)
    requires Padless(d) && Decoded(d.geo) && -SLOTS * (d.geo.firstData - d.geo.firstInode) <= c < 0
    ensures NameOf(SlotAfter(d, a, c)) == ""
  {
    RecordedIsPadless(d, a);
    TableIsNameless(Recorded(d, a), c);
  }

  lemma TableFindsNothing(d: Disk, a: Creation, n: nat, x: string)
    requires InTable(d, a) && n <= SLOTS && Plain(x)
    ensures Child(SlotsAfter(d, a, SLOTS * (a.n - d.geo.firstData), n), x) == -1
  {
    hide SlotAfter;
    var at := SLOTS * (a.n - d.geo.firstData);
    var es := SlotsAfter(d, a, at, n);
    forall k | 0 <= k < |es|
      ensures NameOf(es[k]) == ""
    {
      TableSlotAfter(d, a, at + k);
    }
  }

  /** Then whatever has its extent in the block behind must have no children. */
  lemma SeventeenthEntryInTableIff(d: Disk, m: Names, q: Path, a: Creation, d': Disk, m': Names)
    requires Crowded(d, m, q, a) && QuietImage(d) && q + [a.x] !in m && a.e != Behind(d, a.p) && InTable(d, a)
    requires d' == Installed(d, a) && m' == m[q + [a.x] := a.n]
    ensures Shows(d', m') <==> forall s {:trigger Hit(d, a, m[s])} :: s in m && Hit(d, a, m[s]) ==> Childless(m, s)
  {
    var at := SLOTS * (a.n - d.geo.firstData);
    SeventeenthEntryIff(d, m, q, a, d', m');
    forall s | s in m && Hit(d, a, m[s])
      ensures Spelled(m, s, SlotsAfter(d, a, at, InodeAt(d, m[s]).dentryCount)) <==> Childless(m, s)
    {
      OverwrittenReadsElsewhere(d, m, q, a, d', s);
      NamelessSpellsIff(d, m, a, s, InodeAt(d, m[s]).dentryCount);
    }
  }

  lemma NamelessSpellsIff(d: Disk, m: Names, a: Creation, s: Path, n: nat)
    requires InTable(d, a) && n <= SLOTS
    ensures Spelled(m, s, SlotsAfter(d, a, SLOTS * (a.n - d.geo.firstData), n)) <==> Childless(m, s)
  {
    forall x | Plain(x)
      ensures Child(SlotsAfter(d, a, SLOTS * (a.n - d.geo.firstData), n), x) == -1
    {
      TableFindsNothing(d, a, n, x);
    }
  }

  /** And every child that it has is reported as absent. */
  lemma OverwrittenLosesChildren(d: Disk, m: Names, q: Path, a: Creation, d': Disk, s: Path, x: string)
    requires Crowded(d, m, q, a) && QuietImage(d) && q + [a.x] !in m && a.e != Behind(d, a.p) && InTable(d, a)
    requires s in m && Hit(d, a, m[s]) && Plain(x) && d' == Installed(d, a)
    ensures Walk(d', 0, s + [x]) == NoEntry
  {
    OverwrittenReadsElsewhere(d, m, q, a, d', s);
    OverwrittenFinds(d, m, q, a, d', s, x);
    TableFindsNothing(d, a, InodeAt(d, m[s]).dentryCount, x);
  }
}
