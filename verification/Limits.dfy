/** Where the code falls short of its purpose, and exactly when. */
module Limits {
  import opened Disk
  import opened Storage
  import opened Installing
  import opened Removing
  import opened Tree
  import opened FileSystem
  import opened Operations
  import opened Calls
  import Theorems
  import opened Overflowing
  import Effects

  /** A name that is already there ends up twice in the directory. */
  lemma DuplicateNameBreaksDirectory(d: Disk, m: Names, q: Path, a: Creation, m': Names)
    requires Unchecked(d, m, q, a) && InodeAt(d, a.p).dentryCount < SLOTS && q + [a.x] in m
    requires q in m' && m'[q] == a.p
    ensures !Core(Installed(d, a), m')
  {
    var d' := Installed(d, a);
    AllocationIsFresh(d, m.Values, a.n, a.e, a.b);
    ReadyIsPlaced(d, m.Values, a);
    InstalledCreates(d, a);
    CreationParent(d, d', m.Values, a);
    StepSpells(d, m, q, a.x);
    var es, es' := EntriesOf(d, a.p), EntriesOf(d', a.p);
    var k := Lookup(es, a.x);
    assert es' == es + [Dentry(a.n, a.x)];
    Theorems.TwiceIsNotListed(d', m', q, k, |es|);
  }

  /**
   * A creation keeps the image consistent with the new path listed if and only if the caller saw to what the code
   * does not check: the name is absent and the directory has a free slot.
   */
  lemma CreationConsistentIff(d: Disk, m: Names, q: Path, a: Creation)
    requires Unchecked(d, m, q, a)
    ensures Core(Installed(d, a), m[q + [a.x] := a.n]) <==>
            q + [a.x] !in m && InodeAt(d, a.p).dentryCount < SLOTS
  {
    var d', m' := Installed(d, a), m[q + [a.x] := a.n];
    assert |q + [a.x]| > |q|;
    if InodeAt(d, a.p).dentryCount >= SLOTS {
      UncheckedFacts(d, m, q, a);
      InstalledInodes(d, a, 0);
      assert m'[q] == a.p && InodeAt(d', a.p).dentryCount > SLOTS;
      assert !Stored(d', a.p) && a.p in m'.Values;
    } else if q + [a.x] in m {
      DuplicateNameBreaksDirectory(d, m, q, a, m');
    } else {
      CreationCore(d, d', m, m', q, a);
    }
  }

  // ---- A file on the way ----

  /**
   * A path that leads through a file is reported as such, except when the file is the last but one component: then
   * the walk of getattr and utimens says that the entry does not exist.
   */
  lemma FileOnTheWayReportedIff(d: Disk, m: Names, names: Path)
    requires Clean(d, m) && PlainPath(names) && FileOnTheWay(d, m, [], names, |names|)
    ensures names !in m
    ensures Walk(d, 0, names) == NotDir <==> Init(names) !in m
    ensures Walk(d, 0, names) == NoEntry <==> Init(names) in m
    ensures ParentWalk(d, 0, names) == NotDir
  {
    var n :| n < |names| && FileAt(d, m, [], names, n);
    assert [] + names[..n] == names[..n];
    WalkFromRoot(d, m, names);
    ParentOf(d, m, names);
    if names in m {
      PrefixListed(d, m, names, n);
    }
    if Init(names) in m {
      FileAboveListed(d, m, names, n);
    } else {
      assert n != |names| - 1;
      assert FileOnTheWay(d, m, [], names, |names| - 1);
    }
  }

  /** Above a listed path there is no file, so a file on the way to one of its children is the path itself. */
  lemma FileAboveListed(d: Disk, m: Names, names: Path, n: nat)
    requires Core(d, m) && names != [] && Init(names) in m && n < |names| && FileAt(d, m, [], names, n)
    ensures n == |names| - 1 && !FileOnTheWay(d, m, [], names, |names| - 1)
  {
    forall i | 0 <= i < |names| - 1
      ensures !FileAt(d, m, [], names, i)
    {
      PrefixListed(d, m, Init(names), i);
      assert [] + names[..i] == Init(names)[..i];
    }
  }

  // ---- What a file inherits from a directory ----

  /** Block b starts with the entries of a directory. */
  predicate DotsIn(d: Disk, b: nat, self: nat, up: nat) {
    CellAt(d, SLOTS * b) == Dentry(self, ".") && CellAt(d, SLOTS * b + 1) == Dentry(up, "..")
  }

  /** The two dot entries that mkdir wrote are still in the block after rmdir. */
  lemma DotsStay(d: Disk, live: set<nat>, a: Creation, d1: Disk, d2: Disk, k: nat)
    requires Ready(d, live, a) && a.dots && Created(d, d1, a) && Removed(d1, d2, a.p, k, a.n) && 2 <= k
    ensures DotsIn(d2, a.b, a.n, SelfOf(d, a.p))
  {
    SlotsApart(d, live, a);
    BlockHeadKept(d1, d2, a.p, k, -1, SLOTS - 1, a.b);
  }

  lemma ParentRecordComesBack(d: Disk, a: Creation, d1: Disk, d2: Disk, k: nat)
    requires Created(d, d1, a) && Removed(d1, d2, a.p, k, a.n)
    ensures InodeAt(d2, a.p) == InodeAt(d, a.p)
  {
  }

  /** And a file that gets the same block has them as its entries. */
  lemma FileGetsDots(d2: Disk, live: set<nat>, a: Creation, d3: Disk, self: nat, up: nat)
    requires Ready(d2, live, a) && !a.dots && Created(d2, d3, a)
    requires DotsIn(d2, a.b, self, up)
    ensures !IsDir(d3, a.n) && Walk(d3, a.n, [".."]) == At(up)
  {
    SlotsApart(d2, live, a);
    CreationNew(d2, d3, live, a);
    assert EntriesOf(d3, a.n) == [CellAt(d3, SLOTS * a.b), CellAt(d3, SLOTS * a.b + 1)];
    assert !Written(d2, a, SLOTS * a.b) && !Written(d2, a, SLOTS * a.b + 1);
    assert Lookup(EntriesOf(d3, a.n), "..") == 1;
  }

  lemma CreatedByName(d: Disk, m: Names, names: Path, mode: bv32, now: int, dir: bool, o: Outcome, a: Creation)
    requires Core(d, m) && MayAdd(d, m, names) && ParentListed(d, m, names) && Allocate(d).Got?
    requires !dir ==> IsRegMode(mode)
    requires a == Planned(d, m[Init(names)], Last(names), if dir then DirMode(mode) else RegMode(mode), now, dir)
    requires o == if dir then Mkdir(d, names, mode, now) else Create(d, names, mode, now)
    ensures o.ret == 0 && Core(o.disk, m[names := a.n])
    ensures Ready(d, m.Values, a) && Created(d, o.disk, a)
  {
    AdditionByName(d, m, names, mode, now);
    ModeKinds(mode);
    SuccessIsInstalled(d, m[Init(names)], Last(names), mode, now);
    AllocationIsFresh(d, m.Values, a.n, a.e, a.b);
    ListedNode(d, m, Init(names));
    ReadyIsPlaced(d, m.Values, a);
    InstalledCreates(d, a);
    CreationCore(d, o.disk, m, m[names := a.n], Init(names), a);
  }

  /**
   * mkdir, rmdir and create of one path: the file gets the directory's blocks, and because the last component is
   * exempt from the directory check, "..", looked up below the file, leads to the parent. Hence only ordinary names
   * are promised to fail there.
   */
  lemma DotsOutliveDirectory(d: Disk, m: Names, names: Path, mode: bv32, now: int, d1: Disk, d2: Disk, fileMode: bv32,
                             later: int, o: Outcome)
    requires Core(d, m) && MayAdd(d, m, names) && IsRegMode(fileMode) && Mkdir(d, names, mode, now) == Outcome(d1, 0)
    requires d2 == Rmdir(d1, names).disk && Shape(d2) && o == Create(d2, names, fileMode, later)
    ensures o.ret == 0 && ParentListed(d, m, names)
    ensures exists n: nat :: Walk(o.disk, 0, names) == At(n) && !IsDir(o.disk, n)
    ensures Walk(o.disk, 0, names + [".."]) == At(m[Init(names)])
  {
    MkdirLists(d, m, names, mode, now);
    var p, x := m[Init(names)], Last(names);
    DirectoryLeavesDots(d, m, names, mode, now, d1, d2);
    var a := Planned(d2, p, x, RegMode(fileMode), later, false);
    assert a.b == Allocate(d).b;
    FileOverDots(d2, m, names, fileMode, later, o, Allocate(d).n, p, a);
  }

  /** mkdir and rmdir of one path: the next creation there is possible and gets the block with the dots. */
  lemma DirectoryLeavesDots(d: Disk, m: Names, names: Path, mode: bv32, now: int, d1: Disk, d2: Disk)
    requires Core(d, m) && MayAdd(d, m, names) && ParentListed(d, m, names) && Allocate(d).Got?
    requires Mkdir(d, names, mode, now) == Outcome(d1, 0) && d2 == Rmdir(d1, names).disk && Shape(d2)
    ensures Core(d2, m) && MayAdd(d2, m, names) && ParentListed(d2, m, names) && Allocate(d2) == Allocate(d)
    ensures DotsIn(d2, Allocate(d).b, Allocate(d).n, m[Init(names)])
  {
    Effects.MkdirRmdirRoundTrip(d, m, names, mode, now);
    var a := Planned(d, m[Init(names)], Last(names), DirMode(mode), now, true);
    CreatedByName(d, m, names, mode, now, true, Mkdir(d, names, mode, now), a);
    var k := RemovedAgain(d, m, names, a, d1, d2, m[names := a.n]);
    DotsStay(d, m.Values, a, d1, d2, k);
    ParentRecordComesBack(d, a, d1, d2, k);
    SelfIsSelf(d, m, Init(names));
    MayAddAgain(d, d2, m, names);
  }

  lemma MayAddAgain(d: Disk, d2: Disk, m: Names, names: Path)
    requires MayAdd(d, m, names) && ParentListed(d, m, names)
    requires InodeAt(d2, m[Init(names)]) == InodeAt(d, m[Init(names)])
    ensures MayAdd(d2, m, names) && ParentListed(d2, m, names)
  {
  }

  lemma FileOverDots(d: Disk, m: Names, names: Path, mode: bv32, now: int, o: Outcome, self: nat, up: nat, a: Creation)
    requires Core(d, m) && MayAdd(d, m, names) && ParentListed(d, m, names) && IsRegMode(mode) && Allocate(d).Got?
    requires a == Planned(d, m[Init(names)], Last(names), RegMode(mode), now, false)
    requires DotsIn(d, a.b, self, up)
    requires o == Create(d, names, mode, now)
    ensures o.ret == 0 && exists n: nat :: Walk(o.disk, 0, names) == At(n) && !IsDir(o.disk, n)
    ensures Walk(o.disk, 0, names + [".."]) == At(up)
  {
    var m' := m[names := a.n];
    CreatedByName(d, m, names, mode, now, false, o, a);
    FileGetsDots(d, m.Values, a, o.disk, self, up);
    WalkListed(o.disk, m', names);
    assert [] + names == names;
    WalkPastListed(o.disk, m', [], names, [".."]);
  }

  lemma RemovedAgain(d: Disk, m: Names, names: Path, a: Creation, d1: Disk, d2: Disk, m1: Names) returns (k: nat)
    requires Core(d, m) && MayAdd(d, m, names) && ParentListed(d, m, names) && a.p == m[Init(names)] && a.n !in m.Values
    requires Ready(d, m.Values, a) && Created(d, d1, a) && Core(d1, m1) && m1 == m[names := a.n]
    requires d2 == Rmdir(d1, names).disk
    ensures k >= 2 && Removed(d1, d2, a.p, k, a.n)
  {
    ParentOf(d, m, names);
    assert |Init(names)| < |names|;
    assert InodeAt(d1, a.n).dentryCount == 2;
    RmdirIsRemove(d1, m1, names);
    RemovalIsLeaf(d1, m1, Init(names), Last(names));
    k := SlotOf(d1, a.p, Last(names));
    RemoveRemoves(d1, m1.Values, a.p, k, a.n, 2);
  }
}
