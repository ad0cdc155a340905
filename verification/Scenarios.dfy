/** Concrete runs on a zeroed image that end where the code falls short. */
module Scenarios {
  import opened Bitmap
  import opened Disk
  import opened Storage
  import opened Installing
  import opened Tree
  import opened FileSystem
  import Operations
  import opened Calls
  import opened Ledger
  import opened Mkfs
  import opened Runs
  import opened Theorems
  import opened Observing
  import opened Overflowing
  import Outcomes
  import opened Placement
  import Limits
  import opened RenameLimits

  // ---- A zeroed image ----

  const ZERO_CELL := Dentry(0, "")

  function Zeros<T>(z: T, n: nat): (s: seq<T>)
    ensures |s| == n && forall i :: 0 <= i < n ==> s[i] == z
  {
    seq(n, _ => z)
  }

  function ZeroWords(g: Geometry): seq<bv32> { Zeros(0, WORDS * g.firstData) }
  function ZeroInodes(g: Geometry): seq<Inode> { Zeros(NO_INODE, BLOCK / INODE * g.iblockCount) }
  function ZeroCells(g: Geometry): seq<Cell> { Zeros(ZERO_CELL, SLOTS * g.dblockCount) }

  /** A zeroed image satisfies all that mkfs relies on. */
  lemma ZeroedIsClean(size: nat, nInodes: nat)
    requires nInodes > 0 && DataBlocks(size, nInodes) >= 2
    ensures var g := Layout(size, nInodes);
            CleanImage(g, ZeroWords(g), ZeroInodes(g), ZeroCells(g)) && QuietLeftovers(g, ZeroCells(g))
  {
    var g := Layout(size, nInodes);
    var ws := ZeroWords(g);
    LayoutIsSized(size, nInodes, ws);
    forall b | 0 <= b < g.dblockCount
      ensures !Bits(DbWords(g, ws))[b]
    {
      NoZeroBit(g, ws, b);
    }
  }

  lemma NoZeroBit(g: Geometry, ws: seq<bv32>, b: nat)
    requires Sized(g, ws) && ws == ZeroWords(g) && b < g.dblockCount
    ensures !Bits(DbWords(g, ws))[b]
  {
    BitAt(DbWords(g, ws), b);
    ZeroHasNoBits(b % 32);
  }

  ghost function FreshDisk(size: nat, nInodes: nat): Disk
    requires nInodes > 0 && DataBlocks(size, nInodes) >= 2
  {
    var g := Layout(size, nInodes);
    FormattedFrom(g, ZeroWords(g), ZeroInodes(g), ZeroCells(g))
  }

  lemma FreshFacts(size: nat, nInodes: nat)
    requires nInodes > 0 && DataBlocks(size, nInodes) >= 2
    ensures var d, g := FreshDisk(size, nInodes), Layout(size, nInodes);
            && Consistent(d, RootOnly) && Clean(d, RootOnly) && Balanced(d, RootOnly.Values, Tally(0, 0))
            && d.geo == g && InodeAt(d, 0).dentryCount == 2 && ExtOf(d, 0) == 0 && DataOf(d, 0) == 1
  {
    hide Core, Balanced, QuietImage, CleanImage;
    var g := Layout(size, nInodes);
    var ws := ZeroWords(g);
    ZeroedIsClean(size, nInodes);
    StartOfRun(g, ws, ZeroInodes(g), ZeroCells(g));
    RootIsStored(g, Bits(IbWords(g, Cleared(g, ws))), Bits(DbWords(g, Cleared(g, ws))), ZeroInodes(g), ZeroCells(g));
  }

  // ---- Runs, one call at a time ----

  /** Some run of allowed calls on the freshly formatted zeroed image ends here, with the books in order. */
  ghost predicate Arrived(size: nat, nInodes: nat, d: Disk, m: Names, t: Tally)
    requires nInodes > 0 && DataBlocks(size, nInodes) >= 2
  {
    FreshFacts(size, nInodes);
    exists calls :: AllowedRun(FreshDisk(size, nInodes), RootOnly, calls) &&
                    Run(FreshDisk(size, nInodes), RootOnly, Tally(0, 0), calls) == (d, m, t)
  }

  lemma ArrivedAtStart(size: nat, nInodes: nat)
    requires nInodes > 0 && DataBlocks(size, nInodes) >= 2
    ensures Arrived(size, nInodes, FreshDisk(size, nInodes), RootOnly, Tally(0, 0))
  {
    FreshFacts(size, nInodes);
    assert AllowedRun(FreshDisk(size, nInodes), RootOnly, []);
    assert Run(FreshDisk(size, nInodes), RootOnly, Tally(0, 0), []) ==
           (FreshDisk(size, nInodes), RootOnly, Tally(0, 0));
  }

  lemma {:induction false} RunOneMore(d: Disk, m: Names, t: Tally, calls: seq<Call>, c: Call)
    requires Core(d, m) && AllowedRun(d, m, calls)
    requires var (d', m', _) := Run(d, m, t, calls); Core(d', m') && Allowed(d', m', c)
    ensures AllowedRun(d, m, calls + [c])
    ensures var (d', m', t') := Run(d, m, t, calls);
            Run(d, m, t, calls + [c]) == (After(d', c), NamesAfter(d', m', c), TallyAfter(d', m', c, t'))
    decreases |calls|
  {
    hide NamesAfter, TallyAfter, Step, Allowed;
    if calls == [] {
      StepCore(d, m, c, After(d, c), NamesAfter(d, m, c));
      assert ([] + [c])[1..] == [];
    } else {
      var c0 := calls[0];
      var d1, m1 := After(d, c0), NamesAfter(d, m, c0);
      StepCore(d, m, c0, d1, m1);
      RunOneMore(d1, m1, TallyAfter(d, m, c0, t), calls[1..], c);
      assert (calls + [c])[0] == c0 && (calls + [c])[1..] == calls[1..] + [c];
    }
  }

  /** Every run from a zeroed image ends with exact walks and figures, with data blocks taken in pairs, and unpadded. */
  lemma ArrivedFacts(size: nat, nInodes: nat, d: Disk, m: Names, t: Tally)
    requires nInodes > 0 && DataBlocks(size, nInodes) >= 2 && Arrived(size, nInodes, d, m, t)
    ensures Clean(d, m) && Balanced(d, m.Values, t) && Paired(d.dbits, d.geo.dblockCount) && Padless(d)
    ensures t.leaked == 0 ==> AllInPlace(d, m.Values)
  {
    FreshFacts(size, nInodes);
    FreshPlaces(size, nInodes);
    var calls :| AllowedRun(FreshDisk(size, nInodes), RootOnly, calls) &&
                 Run(FreshDisk(size, nInodes), RootOnly, Tally(0, 0), calls) == (d, m, t);
    RunKeeps(FreshDisk(size, nInodes), RootOnly, Tally(0, 0), calls);
    BitsComeInPairs(d, m.Values);
    RunKeepsPadding(FreshDisk(size, nInodes), RootOnly, Tally(0, 0), calls);
    if t.leaked == 0 {
      RunKeepsPlaces(FreshDisk(size, nInodes), RootOnly, Tally(0, 0), calls);
    }
  }

  lemma FreshPlaces(size: nat, nInodes: nat)
    requires nInodes > 0 && DataBlocks(size, nInodes) >= 2
    ensures Padless(FreshDisk(size, nInodes)) && AllInPlace(FreshDisk(size, nInodes), RootOnly.Values)
  {
    var g := Layout(size, nInodes);
    ZeroedIsClean(size, nInodes);
    FormattedIsPadless(g, ZeroWords(g), ZeroInodes(g), ZeroCells(g), FreshDisk(size, nInodes));
    RootIsInPlace(g, ZeroWords(g), ZeroInodes(g), ZeroCells(g), FreshDisk(size, nInodes));
  }

  lemma ArrivedNext(size: nat, nInodes: nat, d: Disk, m: Names, t: Tally, c: Call)
    requires nInodes > 0 && DataBlocks(size, nInodes) >= 2 && Arrived(size, nInodes, d, m, t)
    requires Core(d, m) && Allowed(d, m, c)
    ensures Arrived(size, nInodes, After(d, c), NamesAfter(d, m, c), TallyAfter(d, m, c, t))
  {
    FreshFacts(size, nInodes);
    var start := FreshDisk(size, nInodes);
    var calls :| AllowedRun(start, RootOnly, calls) && Run(start, RootOnly, Tally(0, 0), calls) == (d, m, t);
    RunOneMore(start, RootOnly, Tally(0, 0), calls, c);
    assert AllowedRun(start, RootOnly, calls + [c]);
  }

  // ---- Growing a tree ----

  function FirstN(k: nat): (s: set<nat>)
    ensures |s| == k && forall i: nat :: i in s <==> i < k
  {
    if k == 0 then {} else FirstN(k - 1) + {k - 1}
  }

  /** k inodes were created and none removed: inode i has blocks 2i and 2i + 1. */
  ghost predicate Packed(d: Disk, m: Names, k: nat) {
    && Consistent(d, m) && Balanced(d, m.Values, Tally(0, 0)) && m.Values == FirstN(k)
    && forall i: nat {:trigger InPlace(d, i)} :: i < k ==> InPlace(d, i)
  }

  lemma PackedAtStart(size: nat, nInodes: nat)
    requires nInodes > 0 && DataBlocks(size, nInodes) >= 2
    ensures Packed(FreshDisk(size, nInodes), RootOnly, 1)
  {
    hide Balanced, Core;
    FreshFacts(size, nInodes);
    assert RootOnly.Values == FirstN(1) by {
      assert RootOnly[[]] == 0 && FirstN(0) == {};
    }
    assert InPlace(FreshDisk(size, nInodes), 0);
  }

  lemma TakenBelow(d: Disk, m: Names, k: nat, i: nat)
    requires Packed(d, m, k) && i < k
    ensures i < |d.ibits| && d.ibits[i] && 2 * i + 1 < |d.dbits| && d.dbits[2 * i] && d.dbits[2 * i + 1]
  {
    LiveIsStored(d, m.Values, i);
    assert InPlace(d, i);
  }

  lemma FreeAbove(d: Disk, m: Names, k: nat)
    requires Packed(d, m, k) && k < d.geo.inodeCount && 2 * k + 2 <= d.geo.dblockCount
    ensures !d.ibits[k] && !d.dbits[2 * k] && Allocate(d).Got?
  {
    AllocationSucceedsIff(d);
    InodeBitsAreListed(d, m, Tally(0, 0), k);
    forall i | i in m.Values
      ensures !Owns(d, i, 2 * k)
    {
      assert InPlace(d, i);
    }
    assert !Owned(d, m.Values, 2 * k);
  }

  /** The next creation takes inode k and blocks 2k and 2k + 1. */
  lemma PackedAllocates(d: Disk, m: Names, k: nat)
    requires Packed(d, m, k) && k < d.geo.inodeCount && 2 * k + 2 <= d.geo.dblockCount
    ensures Allocate(d) == Got(k, 2 * k, 2 * k + 1)
  {
    FreeAbove(d, m, k);
    var Got(n, e, b) := Allocate(d);
    LeastAreNext(d, m, k, n, e, b);
  }

  lemma LeastAreNext(d: Disk, m: Names, k: nat, n: nat, e: nat, b: nat)
    requires Packed(d, m, k) && k < d.geo.inodeCount && 2 * k + 2 <= d.geo.dblockCount
    requires !d.ibits[k] && !d.dbits[2 * k] && Allocate(d) == Got(n, e, b)
    ensures n == k && e == 2 * k && b == 2 * k + 1
  {
    AllocationTakesLeast(d, n, e, b);
    AllocationIsFresh(d, m.Values, n, e, b);
    if n < k {
      TakenBelow(d, m, k, n);
    }
    if e < 2 * k {
      TakenBelow(d, m, k, e / 2);
    }
  }

  /** The permission bits do not matter here; create wants the type bits of a regular file. */
  function Making(names: Path, dir: bool): Call {
    if dir then MkdirCall(names, 0, 0) else CreateCall(names, 0x8000, 0)
  }

  /** A path for which Grow can make an inode. */
  ghost predicate CanGrow(d: Disk, m: Names, k: nat, names: Path) {
    && Packed(d, m, k) && k < d.geo.inodeCount && 2 * k + 2 <= d.geo.dblockCount && ParentListed(d, m, names)
    && PlainPath(names) && names !in m && Fits(Last(names)) && InodeAt(d, m[Init(names)]).dentryCount < SLOTS
  }

  function CreationOf(d: Disk, p: nat, names: Path, dir: bool, k: nat): Creation
    requires names != []
  {
    Creation(p, Last(names), k, 2 * k, 2 * k + 1, if dir then DirMode(0) else RegMode(0x8000), 0, dir)
  }

  lemma GrowthIsAllowed(d: Disk, m: Names, k: nat, names: Path, dir: bool)
    requires CanGrow(d, m, k, names)
    ensures Allowed(d, m, Making(names, dir)) && NamesAfter(d, m, Making(names, dir)) == m[names := k]
    ensures TallyAfter(d, m, Making(names, dir), Tally(0, 0)) == Tally(0, 0)
  {
    PackedAllocates(d, m, k);
  }

  lemma GrowthIsCreation(d: Disk, m: Names, k: nat, names: Path, dir: bool, d': Disk, a: Creation)
    requires CanGrow(d, m, k, names) && d' == After(d, Making(names, dir))
    requires a == CreationOf(d, m[Init(names)], names, dir, k)
    ensures Step(d, Making(names, dir)).ret == 0 && Ready(d, m.Values, a) && Created(d, d', a)
  {
    PackedAllocates(d, m, k);
    assert a == Planned(d, m[Init(names)], Last(names), if dir then DirMode(0) else RegMode(0x8000), 0, dir);
    if dir {
      Limits.CreatedByName(d, m, names, 0, 0, true, Mkdir(d, names, 0, 0), a);
    } else {
      Limits.CreatedByName(d, m, names, 0x8000, 0, false, Create(d, names, 0x8000, 0), a);
    }
  }

  lemma GrownPointers(d: Disk, d': Disk, live: set<nat>, a: Creation, k: nat)
    requires Ready(d, live, a) && Created(d, d', a) && live == FirstN(k) && a.n == k && a.e == 2 * k
    requires forall i: nat {:trigger InPlace(d, i)} :: i < k ==> InPlace(d, i)
    ensures forall i: nat {:trigger InPlace(d', i)} :: i <= k ==> InPlace(d', i)
  {
    CreationParent(d, d', live, a);
    CreationNew(d, d', live, a);
    forall i: nat | i <= k
      ensures InPlace(d', i)
    {
      assert i < k ==> InPlace(d, i);
      if i < k && i != a.p {
        CreationKeeps(d, d', live, a, i);
      }
    }
  }

  lemma GrownRecords(d: Disk, d': Disk, live: set<nat>, a: Creation, i: nat)
    requires Ready(d, live, a) && Created(d, d', a) && i in live
    ensures IsDir(d', i) == IsDir(d, i)
    ensures InodeAt(d', i).dentryCount == InodeAt(d, i).dentryCount + (if i == a.p then 1 else 0)
    ensures i != a.p && IsDir(d, i) ==> EntriesOf(d', i) == EntriesOf(d, i)
  {
    if i != a.p {
      CreationKeeps(d, d', live, a, i);
    }
  }

  /** One more file or directory. */
  lemma Grow(d: Disk, m: Names, k: nat, names: Path, dir: bool) returns (d': Disk, m': Names)
    requires CanGrow(d, m, k, names)
    ensures d' == After(d, Making(names, dir)) && m' == m[names := k] && Packed(d', m', k + 1) && d'.geo == d.geo
    ensures Allowed(d, m, Making(names, dir)) && NamesAfter(d, m, Making(names, dir)) == m'
    ensures TallyAfter(d, m, Making(names, dir), Tally(0, 0)) == Tally(0, 0)
    ensures Ready(d, m.Values, CreationOf(d, m[Init(names)], names, dir, k))
    ensures Created(d, d', CreationOf(d, m[Init(names)], names, dir, k))
  {
    var a, c := CreationOf(d, m[Init(names)], names, dir, k), Making(names, dir);
    d', m' := After(d, c), m[names := k];
    GrowthIsAllowed(d, m, k, names, dir);
    GrowthIsCreation(d, m, k, names, dir, d', a);
    StepCore(d, m, c, d', m');
    StepBalanced(d, m, c, Tally(0, 0));
    AddedValues(m, names, k);
    GrownPointers(d, d', m.Values, a, k);
  }

  /** Enough inodes and blocks for the runs below. */
  predicate Enough(size: nat, nInodes: nat) {
    nInodes >= 32 && DataBlocks(size, nInodes) >= 64
  }

  /** A run from the zeroed image that only creates ends here, with k inodes. */
  ghost predicate Here(size: nat, nInodes: nat, d: Disk, m: Names, k: nat)
    requires Enough(size, nInodes)
  {
    Arrived(size, nInodes, d, m, Tally(0, 0)) && Clean(d, m) && Packed(d, m, k) && d.geo == Layout(size, nInodes)
  }

  lemma HereAtStart(size: nat, nInodes: nat)
    requires Enough(size, nInodes)
    ensures var d := FreshDisk(size, nInodes);
            && Here(size, nInodes, d, RootOnly, 1) && InodeAt(d, 0).dentryCount == 2 && IsDir(d, 0)
  {
    FreshFacts(size, nInodes);
    ArrivedAtStart(size, nInodes);
    PackedAtStart(size, nInodes);
    RootIsDirectory(FreshDisk(size, nInodes), RootOnly);
  }

  /** How the new inode k came about. */
  ghost predicate Made(d: Disk, m: Names, k: nat, names: Path, dir: bool, d': Disk) {
    && Packed(d, m, k) && ParentListed(d, m, names)
    && Ready(d, m.Values, CreationOf(d, m[Init(names)], names, dir, k))
    && Created(d, d', CreationOf(d, m[Init(names)], names, dir, k))
  }

  /** One more file or directory, as inode k. */
  lemma Make(size: nat, nInodes: nat, d: Disk, m: Names, k: nat, names: Path, dir: bool) returns (d': Disk, m': Names)
    requires Enough(size, nInodes) && Here(size, nInodes, d, m, k) && k < 32 && ParentListed(d, m, names)
    requires PlainPath(names) && names !in m && Fits(Last(names)) && InodeAt(d, m[Init(names)]).dentryCount < SLOTS
    ensures Here(size, nInodes, d', m', k + 1) && m' == m[names := k] && Made(d, m, k, names, dir, d')
  {
    d', m' := Grow(d, m, k, names, dir);
    ArrivedNext(size, nInodes, d, m, Tally(0, 0), Making(names, dir));
    StepCore(d, m, Making(names, dir), d', m');
  }

  lemma MadeNew(d: Disk, m: Names, k: nat, names: Path, dir: bool, d': Disk)
    requires Made(d, m, k, names, dir, d')
    ensures IsDir(d', k) == dir && InodeAt(d', k).dentryCount == 2
    ensures dir ==> EntriesOf(d', k) == [Dentry(k, "."), Dentry(m[Init(names)], "..")]
  {
    CreationNew(d, d', m.Values, CreationOf(d, m[Init(names)], names, dir, k));
    Operations.SelfIsSelf(d, m, Init(names));
    ModeKinds(if dir then 0 else 0x8000);
  }

  lemma MadeKeeps(d: Disk, m: Names, k: nat, names: Path, dir: bool, d': Disk, i: nat)
    requires Made(d, m, k, names, dir, d') && i < k
    ensures IsDir(d', i) == IsDir(d, i)
    ensures InodeAt(d', i).dentryCount == InodeAt(d, i).dentryCount + (if i == m[Init(names)] then 1 else 0)
    ensures i != m[Init(names)] && IsDir(d, i) ==> EntriesOf(d', i) == EntriesOf(d, i)
  {
    GrownRecords(d, d', m.Values, CreationOf(d, m[Init(names)], names, dir, k), i);
  }

  lemma MadeEntry(d: Disk, m: Names, k: nat, names: Path, dir: bool, d': Disk)
    requires Made(d, m, k, names, dir, d')
    ensures EntriesOf(d', m[Init(names)]) == EntriesOf(d, m[Init(names)]) + [Dentry(k, Last(names))]
  {
    CreationParent(d, d', m.Values, CreationOf(d, m[Init(names)], names, dir, k));
  }

  /** The inodes from 1 to k - 1 keep their kinds and numbers of entries. */
  ghost predicate OthersKept(d: Disk, d': Disk, k: nat) {
    forall i: nat {:trigger IsDir(d', i)} :: 0 < i < k ==>
      IsDir(d', i) == IsDir(d, i) && InodeAt(d', i).dentryCount == InodeAt(d, i).dentryCount
  }

  lemma OtherKept(d: Disk, d': Disk, k: nat, i: nat)
    requires OthersKept(d, d', k) && 0 < i < k
    ensures IsDir(d', i) == IsDir(d, i) && InodeAt(d', i).dentryCount == InodeAt(d, i).dentryCount
  {
    assert IsDir(d', i) || !IsDir(d', i);
  }

  /** One more file or directory directly below the root. */
  lemma MakeInRoot(size: nat, nInodes: nat, d: Disk, m: Names, k: nat, x: string, dir: bool)
    returns (d': Disk, m': Names)
    requires Enough(size, nInodes) && Here(size, nInodes, d, m, k) && 0 < k < 32
    requires Plain(x) && [x] !in m && Fits(x) && InodeAt(d, 0).dentryCount < SLOTS
    ensures Here(size, nInodes, d', m', k + 1) && m' == m[[x] := k] && Made(d, m, k, [x], dir, d')
    ensures InodeAt(d', 0).dentryCount == InodeAt(d, 0).dentryCount + 1
    ensures IsDir(d', k) == dir && InodeAt(d', k).dentryCount == 2
    ensures OthersKept(d, d', k)
  {
    RootIsDirectory(d, m);
    assert Init([x]) == [] && Last([x]) == x;
    d', m' := Make(size, nInodes, d, m, k, [x], dir);
    MadeRecords(d, m, k, [x], dir, d');
  }

  lemma MadeRecords(d: Disk, m: Names, k: nat, names: Path, dir: bool, d': Disk)
    requires Made(d, m, k, names, dir, d') && m[Init(names)] == 0 && k > 0
    ensures InodeAt(d', 0).dentryCount == InodeAt(d, 0).dentryCount + 1
    ensures IsDir(d', k) == dir && InodeAt(d', k).dentryCount == 2
    ensures OthersKept(d, d', k)
  {
    MadeNew(d, m, k, names, dir, d');
    forall i: nat | i < k
      ensures IsDir(d', i) == IsDir(d, i)
      ensures InodeAt(d', i).dentryCount == InodeAt(d, i).dentryCount + (if i == 0 then 1 else 0)
    {
      MadeKeeps(d, m, k, names, dir, d', i);
    }
  }

  // ---- rename ----

  lemma OnlyThis(m: Names, x: string)
    requires m == RootOnly[[x] := 1]
    ensures [x] in m && m[[x]] == 1 && forall r :: |r| > 1 || (|r| == 1 && r[0] != x) ==> r !in m
  {
    assert [x][0] == x;
  }

  lemma OneInRoot(size: nat, nInodes: nat, x: string, dir: bool) returns (d0: Disk, d: Disk, m: Names)
    requires Enough(size, nInodes) && Plain(x) && Fits(x)
    ensures Here(size, nInodes, d, m, 2) && m == RootOnly[[x] := 1] && IsDir(d, 1) == dir
    ensures InodeAt(d, 0).dentryCount == 3 && InodeAt(d, 1).dentryCount == 2
    ensures d0 == FreshDisk(size, nInodes) && Made(d0, RootOnly, 1, [x], dir, d)
  {
    HereAtStart(size, nInodes);
    d0 := FreshDisk(size, nInodes);
    d, m := MakeInRoot(size, nInodes, d0, RootOnly, 1, x, dir);
  }

  lemma TwoInRoot(size: nat, nInodes: nat, x: string, y: string, dir: bool) returns (d: Disk, m: Names)
    requires Enough(size, nInodes) && Plain(x) && Fits(x) && Plain(y) && Fits(y) && x != y
    ensures Here(size, nInodes, d, m, 3) && m == RootOnly[[x] := 1][[y] := 2] && IsDir(d, 1) == IsDir(d, 2) == dir
    ensures InodeAt(d, 0).dentryCount == 4 && InodeAt(d, 1).dentryCount == InodeAt(d, 2).dentryCount == 2
  {
    var d0, d1, m1 := OneInRoot(size, nInodes, x, dir);
    NotYet(m1, x, y);
    d, m := MakeInRoot(size, nInodes, d1, m1, 2, y, dir);
    OtherKept(d1, d, 2, 1);
  }

  lemma NotYet(m: Names, x: string, y: string)
    requires m == RootOnly[[x] := 1] && x != y
    ensures [y] !in m
  {
    assert [y][0] != [x][0];
  }

  lemma NewNameFails(d: Disk, m: Names, misread: bool)
    requires Clean(d, m) && ["f"] in m && ["h"] !in m && InodeAt(d, 0).dentryCount < SLOTS
    ensures Rename(d, ["f"], ["h"], misread).ret == 0
    ensures Walk(Rename(d, ["f"], ["h"], misread).disk, 0, ["h"]) != At(m[["f"]])
  {
    RootIsDirectory(d, m);
    assert Init(["f"]) == [] && Init(["h"]) == [];
    RenameFailsIff(d, m, ["f"], ["h"], misread);
    RenameWorksIff(d, m, ["f"], ["h"], misread);
  }

  /** create /f, create /g: renaming /f to /h within the root succeeds, and /h does not lead to its inode. */
  lemma SameDirectoryScenario(size: nat, nInodes: nat, misread: bool) returns (d: Disk, m: Names)
    requires Enough(size, nInodes)
    ensures Here(size, nInodes, d, m, 3) && ["f"] in m && ["h"] !in m
    ensures Rename(d, ["f"], ["h"], misread).ret == 0
    ensures Walk(Rename(d, ["f"], ["h"], misread).disk, 0, ["h"]) != At(m[["f"]])
  {
    d, m := TwoInRoot(size, nInodes, "f", "g", false);
    OnlyThese(m, "f", "g", "h");
    NewNameFails(d, m, misread);
  }

  lemma OneFile(size: nat, nInodes: nat) returns (d: Disk, m: Names)
    requires Enough(size, nInodes)
    ensures Here(size, nInodes, d, m, 2) && m == RootOnly[["f"] := 1] && !IsDir(d, 1)
    ensures InodeAt(d, 0).dentryCount == 3 && ParentListed(d, m, ["f"])
  {
    var d0;
    d0, d, m := OneInRoot(size, nInodes, "f", false);
    OnlyThis(m, "f");
    RootIsDirectory(d, m);
    assert Init(["f"]) == [];
  }

  /** create /f: renaming /f to itself reports an error and removes it. */
  lemma OntoItselfScenario(size: nat, nInodes: nat, misread: bool) returns (d: Disk, m: Names)
    requires Enough(size, nInodes)
    ensures Here(size, nInodes, d, m, 2) && Walk(d, 0, ["f"]).At?
    ensures var o := Rename(d, ["f"], ["f"], misread); o.ret == 1 && !Walk(o.disk, 0, ["f"]).At?
  {
    d, m := OneFile(size, nInodes);
    ListedNode(d, m, ["f"]);
    WalkListed(d, m, ["f"]);
    RenameFailsIff(d, m, ["f"], ["f"], misread);
    WalkFromRoot(Rename(d, ["f"], ["f"], misread).disk, m - {["f"]}, ["f"]);
  }

  /** create /f: it is the root's last entry, so renaming it to /h succeeds and does nothing. */
  lemma LastEntryScenario(size: nat, nInodes: nat, misread: bool) returns (d: Disk, m: Names)
    requires Enough(size, nInodes)
    ensures Here(size, nInodes, d, m, 2) && ["f"] in m && ["h"] !in m
    ensures var o := Rename(d, ["f"], ["h"], misread); o.ret == 0 && Shows(o.disk, m)
  {
    hide Here, Made;
    HereAtStart(size, nInodes);
    var d0;
    d0, d, m := OneInRoot(size, nInodes, "f", false);
    OnlyThis(m, "f");
    MadeEntry(d0, RootOnly, 1, ["f"], false, d);
    LastOfRootStays(d, m, "f", EntriesOf(d0, 0), misread);
  }

  lemma LastOfRootStays(d: Disk, m: Names, x: string, before: seq<Cell>, misread: bool)
    requires Clean(d, m) && Plain(x) && [x] in m && ["h"] !in m && InodeAt(d, 0).dentryCount < SLOTS
    requires EntriesOf(d, 0) == before + [Dentry(m[[x]], x)]
    ensures var o := Rename(d, [x], ["h"], misread); o.ret == 0 && Shows(o.disk, m)
  {
    hide Store, Spells;
    RootIsDirectory(d, m);
    assert Init([x]) == [] && Init(["h"]) == [] && Last([x]) == x && [] + [x] == [x];
    StepSpells(d, m, [], x);
    if Operations.SlotOf(d, 0, x) < |before| {
      NamesDiffer(d, m, [], Operations.SlotOf(d, 0, x), |before|);
    }
    RenameInPlaceShows(d, m, [x], ["h"], misread, m);
  }

  /** mkdir /d: renaming /d to /d/e succeeds, and nothing leads to it any more. */
  lemma BelowItselfScenario(size: nat, nInodes: nat, misread: bool) returns (d: Disk, m: Names)
    requires Enough(size, nInodes)
    ensures Here(size, nInodes, d, m, 2) && Walk(d, 0, ["d"]).At?
    ensures var o := Rename(d, ["d"], ["d", "e"], misread);
            o.ret == 0 && !Walk(o.disk, 0, ["d"]).At? && !Walk(o.disk, 0, ["d", "e"]).At?
  {
    var d0;
    d0, d, m := OneInRoot(size, nInodes, "d", true);
    OnlyThis(m, "d");
    WalkListed(d, m, ["d"]);
    BelowItselfLoses(d, m, misread);
  }

  lemma BelowItselfLoses(d: Disk, m: Names, misread: bool)
    requires Clean(d, m) && ["d"] in m && ["d", "e"] !in m && IsDir(d, m[["d"]])
    requires InodeAt(d, m[["d"]]).dentryCount < SLOTS
    ensures var o := Rename(d, ["d"], ["d", "e"], misread);
            o.ret == 0 && !Walk(o.disk, 0, ["d"]).At? && !Walk(o.disk, 0, ["d", "e"]).At?
  {
    hide Spells;
    var from, to := ["d"], ["d", "e"];
    RootIsDirectory(d, m);
    assert Init(from) == [] && Init(to) == from && Last(from) == "d" && [] + from == from;
    var m' := Outcomes.Dropped(m, from);
    RenameInPlaceShows(d, m, from, to, misread, m');
    ShownAt(Rename(d, from, to, misread).disk, m', from);
    ShownAt(Rename(d, from, to, misread).disk, m', to);
  }

  lemma ShownAt(d: Disk, m: Names, r: Path)
    requires Shows(d, m) && PlainPath(r)
    ensures if r in m then Walk(d, 0, r) == At(m[r]) else !Walk(d, 0, r).At?
  {
    assert ShowsPath(d, m, r);
  }

  /** mkdir /a, mkdir /b: renaming /a to /b/a is right but for "..", which still names the root. */
  lemma StaleParentScenario(size: nat, nInodes: nat, misread: bool) returns (d: Disk, m: Names)
    requires Enough(size, nInodes)
    ensures Here(size, nInodes, d, m, 3) && Allowed(d, m, RenameCall(["a"], ["b", "a"], misread))
    ensures var c := RenameCall(["a"], ["b", "a"], misread);
            Core(After(d, c), NamesAfter(d, m, c)) && !Consistent(After(d, c), NamesAfter(d, m, c))
  {
    d, m := TwoInRoot(size, nInodes, "a", "b", true);
    NoneBelow(m, "a", "b", ["b", "a"]);
    MovedDirectoryIsStale(d, m, misread);
  }

  lemma OnlyThese(m: Names, x: string, y: string, z: string)
    requires m == RootOnly[[x] := 1][[y] := 2] && z != x && z != y
    ensures [z] !in m && [x] in m && [y] in m
  {
    assert [z][0] == z && [x][0] == x && [y][0] == y;
  }

  lemma NoneBelow(m: Names, x: string, y: string, r: Path)
    requires m == RootOnly[[x] := 1][[y] := 2] && |r| > 1
    ensures r !in m && [x] in m && [y] in m && (x != y ==> m[[x]] == 1) && m[[y]] == 2
  {
    assert [x][0] == x && [y][0] == y;
  }

  lemma TwoNames(x: string, y: string)
    requires Plain(x) && Plain(y)
    ensures PlainPath([x]) && Init([x]) == [] && Last([x]) == x && [] + [x] == [x]
    ensures PlainPath([x, y]) && Init([x, y]) == [x] && Last([x, y]) == y && [x] + [y] == [x, y]
  {
  }

  lemma MovedDirectoryIsStale(d: Disk, m: Names, misread: bool)
    requires Consistent(d, m) && ["a"] in m && ["b"] in m && ["b", "a"] !in m
    requires IsDir(d, m[["a"]]) && IsDir(d, m[["b"]])
    requires InodeAt(d, m[["b"]]).dentryCount < SLOTS
    ensures Allowed(d, m, RenameCall(["a"], ["b", "a"], misread))
    ensures var c := RenameCall(["a"], ["b", "a"], misread);
            Core(After(d, c), NamesAfter(d, m, c)) && !Consistent(After(d, c), NamesAfter(d, m, c))
  {
    var from, to := ["a"], ["b", "a"];
    TwoNames("a", "b");
    TwoNames("b", "a");
    RootIsDirectory(d, m);
    assert from[0] != to[0] && !(from <= to);
    assert ParentListed(d, m, to) && MayRename(d, m, from, to);
    RenameMoves(d, m, from, to, misread, Rename(d, from, to, misread), Renamed(m, from, to));
  }

  // ---- Lookups and removals ----

  /** create /f: looking up /f/x reports a missing entry, not a component that is no directory. */
  lemma FileOnTheWayScenario(size: nat, nInodes: nat, x: string) returns (d: Disk, m: Names)
    requires Enough(size, nInodes) && Plain(x)
    ensures Here(size, nInodes, d, m, 2) && FileOnTheWay(d, m, [], ["f", x], 2) && Walk(d, 0, ["f", x]) == NoEntry
  {
    d, m := OneFile(size, nInodes);
    BelowFileIsMissing(d, m, x);
  }

  lemma BelowFileIsMissing(d: Disk, m: Names, x: string)
    requires Clean(d, m) && ["f"] in m && !IsDir(d, m[["f"]]) && Plain(x)
    ensures FileOnTheWay(d, m, [], ["f", x], 2) && Walk(d, 0, ["f", x]) == NoEntry
  {
    TwoNames("f", x);
    assert [] + ["f", x][..1] == ["f"];
    assert FileAt(d, m, [], ["f", x], 1);
    Limits.FileOnTheWayReportedIff(d, m, ["f", x]);
  }

  /** create /f: rmdir removes it. */
  lemma RmdirOnFileScenario(size: nat, nInodes: nat) returns (d: Disk, m: Names)
    requires Enough(size, nInodes)
    ensures Here(size, nInodes, d, m, 2) && ["f"] in m && !IsDir(d, m[["f"]]) && Rmdir(d, ["f"]).ret == 0
  {
    d, m := OneFile(size, nInodes);
    FileGoesToRmdir(d, m, ["f"]);
  }

  lemma FileGoesToRmdir(d: Disk, m: Names, names: Path)
    requires Core(d, m) && names != [] && names in m && !IsDir(d, m[names])
    ensures Rmdir(d, names).ret == 0
  {
    ListedIsPlain(d, m, names);
    ListedNode(d, m, names);
    RmdirUnlists(d, m, names);
  }

  /** mkdir /d: unlink says that it is not empty. */
  lemma UnlinkOnDirectoryScenario(size: nat, nInodes: nat) returns (d: Disk, m: Names)
    requires Enough(size, nInodes)
    ensures Here(size, nInodes, d, m, 2) && ["d"] in m && InodeAt(d, m[["d"]]).dentryCount == 2
    ensures Unlink(d, ["d"]).ret == -ENOTEMPTY
  {
    var d0;
    d0, d, m := OneInRoot(size, nInodes, "d", true);
    OnlyThis(m, "d");
    DirectoryStaysAtUnlink(d, m, ["d"]);
  }

  lemma DirectoryStaysAtUnlink(d: Disk, m: Names, names: Path)
    requires Core(d, m) && names != [] && names in m && IsDir(d, m[names])
    ensures Unlink(d, names).ret == -ENOTEMPTY
  {
    ListedIsPlain(d, m, names);
    UnlinkUnlists(d, m, names);
  }

  /** mkdir /d, rmdir /d, create /d: "/d/.." leads to the root although /d is a file. */
  lemma DotsScenario(size: nat, nInodes: nat)
    requires Enough(size, nInodes)
    ensures var d := FreshDisk(size, nInodes);
            && Shape(d) && Shape(Mkdir(d, ["d"], 0, 0).disk) && Shape(Rmdir(Mkdir(d, ["d"], 0, 0).disk, ["d"]).disk)
            && Walk(Create(Rmdir(Mkdir(d, ["d"], 0, 0).disk, ["d"]).disk, ["d"], 0x8000, 0).disk, 0,
                    ["d", ".."]) == At(0)
  {
    var d := FreshDisk(size, nInodes);
    FreshRootAllows(size, nInodes, "d");
    AllocationSucceedsIff(d);
    MadeAndRemoved(d, RootOnly, ["d"]);
    assert ["d"] + [".."] == ["d", ".."] && Init(["d"]) == [] && RootOnly[[]] == 0;
  }

  lemma MadeAndRemoved(d: Disk, m: Names, names: Path)
    requires Core(d, m) && MayAdd(d, m, names) && ParentListed(d, m, names) && Allocate(d).Got?
    ensures Shape(Mkdir(d, names, 0, 0).disk) && Shape(Rmdir(Mkdir(d, names, 0, 0).disk, names).disk)
    ensures Walk(Create(Rmdir(Mkdir(d, names, 0, 0).disk, names).disk, names, 0x8000, 0).disk, 0, names + [".."]) ==
            At(m[Init(names)])
  {
    MkdirLists(d, m, names, 0, 0);
    var d1 := Mkdir(d, names, 0, 0).disk;
    var d2 := Rmdir(d1, names).disk;
    RmdirUnlists(d1, m[names := Allocate(d).n], names);
    Limits.DotsOutliveDirectory(d, m, names, 0, 0, d1, d2, 0x8000, 0, Create(d2, names, 0x8000, 0));
  }

  // ---- Out of space ----

  /** An image with room for the root only: create fails and leaves an inode bit set. */
  lemma LeakScenario(size: nat, nInodes: nat)
    requires nInodes > 1 && DataBlocks(size, nInodes) == 2
    ensures var d, c := FreshDisk(size, nInodes), CreateCall(["f"], 0x8000, 0);
            Core(d, RootOnly) && Allowed(d, RootOnly, c) && Step(d, c).ret == 1 &&
            TallyAfter(d, RootOnly, c, Tally(0, 0)) == Tally(1, 0)
  {
    var d, c := FreshDisk(size, nInodes), CreateCall(["f"], 0x8000, 0);
    FreshRootAllows(size, nInodes, "f");
    CreateLists(d, RootOnly, ["f"], 0x8000, 0);
    AllocationSucceedsIff(d);
    TallyGrowsIff(d, RootOnly, c, Tally(0, 0));
  }

  /** A table with the root's inode only: mkdir fails and lowers the inode counter all the same. */
  lemma DriftScenario(size: nat)
    requires DataBlocks(size, 1) >= 2
    ensures var d, c := FreshDisk(size, 1), MkdirCall(["d"], 0, 0);
            Core(d, RootOnly) && Allowed(d, RootOnly, c) && Step(d, c).ret == 1 &&
            TallyAfter(d, RootOnly, c, Tally(0, 0)) == Tally(0, 1)
  {
    var d, c := FreshDisk(size, 1), MkdirCall(["d"], 0, 0);
    FreshRootAllows(size, 1, "d");
    MkdirLists(d, RootOnly, ["d"], 0, 0);
    AllocationSucceedsIff(d);
    TallyGrowsIff(d, RootOnly, c, Tally(0, 0));
  }

  lemma FreshRootAllows(size: nat, nInodes: nat, x: string)
    requires nInodes > 0 && DataBlocks(size, nInodes) >= 2 && Plain(x) && Fits(x)
    ensures var d := FreshDisk(size, nInodes);
            && Clean(d, RootOnly) && MayAdd(d, RootOnly, [x]) && ParentListed(d, RootOnly, [x])
            && ClearInodes(d) == nInodes - 1 && ClearBlocks(d) == DataBlocks(size, nInodes) - 2
  {
    FreshFacts(size, nInodes);
    RootIsDirectory(FreshDisk(size, nInodes), RootOnly);
    assert Init([x]) == [] && Last([x]) == x;
    assert RootOnly.Values == {0} by {
      assert RootOnly[[]] == 0;
    }
  }

  // ---- mkfs on an image that is not zeroed ----

  /** With more than 32 data blocks to a bitmap block and few inodes, a bit in the second word is reached by no loop. */
  lemma StaleBitScenario(size: nat, nInodes: nat)
    requires nInodes > 0 && DataBlocks(size, nInodes) > 32 && nInodes <= WORDS && CeilDivision(size / BLOCK, BITS) == 1
    ensures var g := Layout(size, nInodes);
            var ws := ZeroWords(g)[WORDS * g.firstDb + 1 := 1];
            Sized(g, ws) && !Consistent(FormattedFrom(g, ws, ZeroInodes(g), ZeroCells(g)), RootOnly)
  {
    var g := Layout(size, nInodes);
    var ws := ZeroWords(g)[WORDS * g.firstDb + 1 := 1];
    LayoutIsSized(size, nInodes, ws);
    BitAt(DbWords(g, ws), 32);
    FirstBitSet();
    assert DbWords(g, ws)[1] == 1 && !Reached(g, 32) && Bits(DbWords(g, ws))[32];
    FormatIsConsistentIff(g, ws, ZeroInodes(g), ZeroCells(g));
  }

  lemma FirstBitSet()
    ensures TestBit(1, 0)
  {
  }

  /** A zeroed image but for an old extent at the start of data block 3. */
  function StaleCells(g: Geometry, start: nat): seq<Cell>
    requires g.dblockCount > 3
  {
    ZeroCells(g)[SLOTS * 3 := Extents([Extent(start, 1)])]
  }

  /** There, create /f makes a file that seems to have a child called MARK, whose inode is the old block number. */
  lemma StaleExtentScenario(size: nat, nInodes: nat, start: nat) returns (d: Disk, d': Disk)
    requires Enough(size, nInodes)
    ensures var g := Layout(size, nInodes);
            && d == FormattedFrom(g, ZeroWords(g), ZeroInodes(g), StaleCells(g, start)) && Shape(d)
            && d' == Create(d, ["f"], 0x8000, 0).disk && Core(d, RootOnly) && !QuietImage(d)
    ensures Walk(d', 0, ["f", MARK]) == At(start)
  {
    var g := Layout(size, nInodes);
    d := FormattedFrom(g, ZeroWords(g), ZeroInodes(g), StaleCells(g, start));
    StaleStart(size, nInodes, start, d);
    var m';
    assert Init(["f"]) == [] && Last(["f"]) == "f";
    d', m' := Grow(d, RootOnly, 1, ["f"], false);
    StaleSlotFound(d, d', m', start);
  }

  lemma StaleStart(size: nat, nInodes: nat, start: nat, d: Disk)
    requires Enough(size, nInodes)
    requires var g := Layout(size, nInodes); d == FormattedFrom(g, ZeroWords(g), ZeroInodes(g), StaleCells(g, start))
    ensures CanGrow(d, RootOnly, 1, ["f"]) && !QuietImage(d)
    ensures CellAt(d, SLOTS * 3) == Extents([Extent(start, 1)])
  {
    hide Core;
    var g := Layout(size, nInodes);
    var ws := ZeroWords(g);
    ZeroedIsClean(size, nInodes);
    StartOfRun(g, ws, ZeroInodes(g), StaleCells(g, start));
    RootIsStored(g, Bits(IbWords(g, Cleared(g, ws))), Bits(DbWords(g, Cleared(g, ws))), ZeroInodes(g),
                 StaleCells(g, start));
    StaleIsLoud(g, start);
    RootIsPacked(d);
  }

  lemma StaleIsLoud(g: Geometry, start: nat)
    requires g.dblockCount > 3
    ensures !QuietLeftovers(g, StaleCells(g, start))
  {
    OneBlockExtentIsMark(StaleCells(g, start)[SLOTS * 3]);
    assert !QuietSlots(StaleCells(g, start), 3);
  }

  lemma RootIsPacked(d: Disk)
    requires Consistent(d, RootOnly) && Balanced(d, RootOnly.Values, Tally(0, 0))
    requires ExtOf(d, 0) == 0 && DataOf(d, 0) == 1
    requires InodeAt(d, 0).dentryCount == 2 && d.geo.inodeCount > 1 && d.geo.dblockCount >= 4
    ensures CanGrow(d, RootOnly, 1, ["f"])
  {
    RootIsDirectory(d, RootOnly);
    assert Init(["f"]) == [] && Last(["f"]) == "f";
    assert RootOnly.Values == FirstN(1) by {
      assert RootOnly[[]] == 0 && FirstN(0) == {};
    }
    assert InPlace(d, 0);
  }

  lemma StaleSlotFound(d: Disk, d': Disk, m': Names, start: nat)
    requires Made(d, RootOnly, 1, ["f"], false, d') && Packed(d', m', 2) && m' == RootOnly[["f"] := 1]
    requires CellAt(d, SLOTS * 3) == Extents([Extent(start, 1)])
    ensures Walk(d', 0, ["f", MARK]) == At(start)
  {
    var a := CreationOf(d, 0, ["f"], false, 1);
    assert Init(["f"]) == [];
    CreationNew(d, d', RootOnly.Values, a);
    SlotsApart(d, RootOnly.Values, a);
    assert !Written(d, a, SLOTS * 3);
    assert ["f"] + [MARK] == ["f", MARK] && m'[["f"]] == 1;
    OneBlockExtentIsMark(CellAt(d, SLOTS * 3));
    WalkBelowFile(d', m', ["f"], MARK);
  }

  // ---- rename onto a directory ----

  /** A file in the directory that was made first. */
  lemma MakeBelowFirst(size: nat, nInodes: nat, d: Disk, m: Names, a: string, x: string) returns (d': Disk, m': Names)
    requires Enough(size, nInodes) && Here(size, nInodes, d, m, 2) && m == RootOnly[[a] := 1] && Plain(a)
    requires IsDir(d, 1) && InodeAt(d, 1).dentryCount == 2 && Plain(x) && Fits(x)
    ensures Here(size, nInodes, d', m', 3) && m' == m[[a, x] := 2]
    ensures InodeAt(d', 0).dentryCount == InodeAt(d, 0).dentryCount && InodeAt(d', 1).dentryCount == 3
    ensures IsDir(d', 1) && EntriesOf(d', 1) == EntriesOf(d, 1) + [Dentry(2, x)] && !IsDir(d', 2)
  {
    hide Here;
    TwoNames(a, x);
    assert [a][0] == a && |[a, x]| == 2;
    d', m' := Make(size, nInodes, d, m, 2, [a, x], false);
    FileBelowFirst(d, m, [a, x], d');
    MadeNew(d, m, 2, [a, x], false, d');
  }

  lemma FileBelowFirst(d: Disk, m: Names, names: Path, d': Disk)
    requires Made(d, m, 2, names, false, d') && m[Init(names)] == 1 && IsDir(d, 1)
    ensures InodeAt(d', 0).dentryCount == InodeAt(d, 0).dentryCount && IsDir(d', 1)
    ensures InodeAt(d', 1).dentryCount == InodeAt(d, 1).dentryCount + 1
    ensures EntriesOf(d', 1) == EntriesOf(d, 1) + [Dentry(2, Last(names))]
  {
    MadeKeeps(d, m, 2, names, false, d', 0);
    MadeKeeps(d, m, 2, names, false, d', 1);
    MadeEntry(d, m, 2, names, false, d');
  }

  /** One more in the root; the directory that was made first stays as it is. */
  lemma MakeBesideFirst(size: nat, nInodes: nat, d: Disk, m: Names, k: nat, x: string, dir: bool)
    returns (d': Disk, m': Names)
    requires Enough(size, nInodes) && Here(size, nInodes, d, m, k) && 1 < k < 32 && IsDir(d, 1)
    requires Plain(x) && [x] !in m && Fits(x) && InodeAt(d, 0).dentryCount < SLOTS
    ensures Here(size, nInodes, d', m', k + 1) && m' == m[[x] := k]
    ensures InodeAt(d', 0).dentryCount == InodeAt(d, 0).dentryCount + 1
    ensures IsDir(d', k) == dir && InodeAt(d', k).dentryCount == 2
    ensures IsDir(d', 1) && EntriesOf(d', 1) == EntriesOf(d, 1)
  {
    assert Init([x]) == [];
    d', m' := MakeInRoot(size, nInodes, d, m, k, x, dir);
    MadeKeeps(d, m, k, [x], dir, d', 1);
  }

  /** What a creation in directory p as inode k leaves of the other inodes. */
  ghost predicate Grown(d: Disk, d': Disk, k: nat, p: nat) {
    forall i: nat {:trigger IsDir(d', i)} :: i < k ==>
      && IsDir(d', i) == IsDir(d, i)
      && InodeAt(d', i).dentryCount == InodeAt(d, i).dentryCount + (if i == p then 1 else 0)
  }

  lemma MakeAnywhere(size: nat, nInodes: nat, d: Disk, m: Names, k: nat, names: Path)
    returns (d': Disk, m': Names)
    requires Enough(size, nInodes) && Here(size, nInodes, d, m, k) && k < 32 && ParentListed(d, m, names)
    requires PlainPath(names) && names !in m && Fits(Last(names)) && InodeAt(d, m[Init(names)]).dentryCount < SLOTS
    ensures Here(size, nInodes, d', m', k + 1) && m' == m[names := k] && Made(d, m, k, names, true, d')
    ensures IsDir(d', k) && InodeAt(d', k).dentryCount == 2 && Grown(d, d', k, m[Init(names)])
    ensures EntriesOf(d', k) == [Dentry(k, "."), Dentry(m[Init(names)], "..")]
  {
    hide Here, Made;
    d', m' := Make(size, nInodes, d, m, k, names, true);
    MadeNew(d, m, k, names, true, d');
    MadeGrown(d, m, k, names, d');
  }

  lemma MadeGrown(d: Disk, m: Names, k: nat, names: Path, d': Disk)
    requires Made(d, m, k, names, true, d')
    ensures Grown(d, d', k, m[Init(names)])
  {
    hide Created, Ready;
    forall i: nat | i < k
      ensures IsDir(d', i) == IsDir(d, i)
      ensures InodeAt(d', i).dentryCount == InodeAt(d, i).dentryCount + (if i == m[Init(names)] then 1 else 0)
    {
      MadeKeeps(d, m, k, names, true, d', i);
    }
  }

  /** The names that mkdir of a, a/b, a/b/x and e make, in this order. */
  ghost predicate Nest(m: Names, a: string, b: string, x: string, e: string) {
    m == RootOnly[[a] := 1][[a, b] := 2][[a, b, x] := 3][[e] := 4]
  }

  lemma Nested(size: nat, nInodes: nat, a: string, b: string, x: string, e: string) returns (d: Disk, m: Names)
    requires Enough(size, nInodes) && Plain(a) && Plain(b) && Plain(x) && Plain(e) && a != e
    requires Fits(a) && Fits(b) && Fits(x) && Fits(e)
    ensures Here(size, nInodes, d, m, 5) && Nest(m, a, b, x, e)
    ensures IsDir(d, 2) && IsDir(d, 4) && InodeAt(d, 0).dentryCount == 4 && InodeAt(d, 4).dentryCount == 2
    ensures |EntriesOf(d, 2)| > 1 && EntriesOf(d, 2)[1] == Dentry(1, "..")
  {
    hide Here, Made, EntriesOf, Grown;
    NestedPaths(a, b, x, e);
    var d3, m3 := ThreeDeep(size, nInodes, a, b, x, e);
    d, m := MakeAnywhere(size, nInodes, d3, m3, 4, [e]);
    GrownAt(d3, d, 4, 0, 0);
    GrownAt(d3, d, 4, 0, 2);
    MadeKeeps(d3, m3, 4, [e], true, d, 2);
  }

  lemma ThreeDeep(size: nat, nInodes: nat, a: string, b: string, x: string, e: string) returns (d: Disk, m: Names)
    requires Enough(size, nInodes) && Plain(a) && Plain(b) && Plain(x) && Plain(e) && a != e
    requires Fits(a) && Fits(b) && Fits(x)
    ensures Here(size, nInodes, d, m, 4) && m == RootOnly[[a] := 1][[a, b] := 2][[a, b, x] := 3]
    ensures IsDir(d, 0) && IsDir(d, 2) && InodeAt(d, 0).dentryCount == 3
    ensures |EntriesOf(d, 2)| > 1 && EntriesOf(d, 2)[1] == Dentry(1, "..")
  {
    hide Here, Made, EntriesOf, Grown;
    HereAtStart(size, nInodes);
    var d0 := FreshDisk(size, nInodes);
    NestedPaths(a, b, x, e);
    var d1, m1 := MakeAnywhere(size, nInodes, d0, RootOnly, 1, [a]);
    GrownAt(d0, d1, 1, 0, 0);
    var d2, m2 := MakeAnywhere(size, nInodes, d1, m1, 2, [a, b]);
    GrownAt(d1, d2, 2, 1, 0);
    d, m := MakeAnywhere(size, nInodes, d2, m2, 3, [a, b, x]);
    GrownAt(d2, d, 3, 2, 0);
    GrownAt(d2, d, 3, 2, 2);
    MadeEntry(d2, m2, 3, [a, b, x], true, d);
  }

  lemma GrownAt(d: Disk, d': Disk, k: nat, p: nat, i: nat)
    requires Grown(d, d', k, p) && i < k
    ensures IsDir(d', i) == IsDir(d, i)
    ensures InodeAt(d', i).dentryCount == InodeAt(d, i).dentryCount + (if i == p then 1 else 0)
  {
    assert IsDir(d', i) || !IsDir(d', i);
  }

  lemma NestedPaths(a: string, b: string, x: string, e: string)
    requires Plain(a) && Plain(b) && Plain(x) && Plain(e) && a != e
    ensures PlainPath([a]) && PlainPath([a, b]) && PlainPath([a, b, x]) && PlainPath([e])
    ensures Init([a]) == [] && Init([a, b]) == [a] && Init([a, b, x]) == [a, b] && Init([e]) == []
    ensures Last([a]) == a && Last([a, b]) == b && Last([a, b, x]) == x && Last([e]) == e
    ensures RootOnly[[]] == 0 && [a] !in RootOnly && [a, b] !in RootOnly[[a] := 1]
    ensures [a, b, x] !in RootOnly[[a] := 1][[a, b] := 2]
    ensures [e] !in RootOnly[[a] := 1][[a, b] := 2][[a, b, x] := 3]
  {
    assert [a][0] == a && [e][0] == e && |[a, b]| == 2 && |[a, b, x]| == 3;
  }

  lemma NestListed(m: Names, a: string, b: string, x: string, e: string)
    requires Nest(m, a, b, x, e) && a != e
    ensures m[[]] == 0 && [a, b] in m && m[[a, b]] == 2 && [a, b, x] in m && [e] in m && m[[e]] == 4
    ensures !([a, b, x] <= [e])
  {
    assert [a][0] == a && [e][0] == e && |[a, b]| == 2 && |[a, b, x]| == 3;
  }

  lemma FirstWithFile(size: nat, nInodes: nat, a: string, x: string) returns (d: Disk, m: Names)
    requires Enough(size, nInodes) && Plain(a) && Plain(x) && Fits(a) && Fits(x)
    ensures Here(size, nInodes, d, m, 3) && m == RootOnly[[a] := 1][[a, x] := 2]
    ensures InodeAt(d, 0).dentryCount == 3 && IsDir(d, 1) && InodeAt(d, 1).dentryCount == 3 && !IsDir(d, 2)
  {
    var d1, m1 := FirstDirectory(size, nInodes, a);
    d, m := MakeBelowFirst(size, nInodes, d1, m1, a, x);
  }

  lemma FirstDirectory(size: nat, nInodes: nat, a: string) returns (d: Disk, m: Names)
    requires Enough(size, nInodes) && Plain(a) && Fits(a)
    ensures Here(size, nInodes, d, m, 2) && m == RootOnly[[a] := 1]
    ensures InodeAt(d, 0).dentryCount == 3 && IsDir(d, 1) && InodeAt(d, 1).dentryCount == 2
    ensures EntriesOf(d, 1) == [Dentry(1, "."), Dentry(0, "..")]
  {
    var d0;
    d0, d, m := OneInRoot(size, nInodes, a, true);
    MadeNew(d0, RootOnly, 1, [a], true, d);
    assert Init([a]) == [];
  }

  /**
   * Renaming /a/b/x onto the empty directory /e: its mode word is looked for in the ".." slot of /a/b, which holds 1,
   * so unlink is called and refuses, and rename goes on and succeeds without effect on /e.
   */
  lemma OntoDirectoryScenario(size: nat, nInodes: nat, misread: bool) returns (d: Disk, m: Names)
    requires Enough(size, nInodes)
    ensures Here(size, nInodes, d, m, 5) && Nest(m, "a", "b", "x", "e")
    ensures IsDir(d, 4) && InodeAt(d, 4).dentryCount == 2
    ensures var o := Rename(d, ["a", "b", "x"], ["e"], misread); o.ret == 0 && Walk(o.disk, 0, ["e"]) == At(4)
  {
    d, m := OntoFourth(size, nInodes, "a", "b", "x", "e", misread);
  }

  lemma OntoFourth(size: nat, nInodes: nat, a: string, b: string, x: string, e: string, misread: bool)
    returns (d: Disk, m: Names)
    requires Enough(size, nInodes) && Plain(a) && Plain(b) && Plain(x) && Plain(e) && a != e
    requires Fits(a) && Fits(b) && Fits(x) && Fits(e)
    ensures Here(size, nInodes, d, m, 5) && Nest(m, a, b, x, e)
    ensures IsDir(d, 4) && InodeAt(d, 4).dentryCount == 2
    ensures var o := Rename(d, [a, b, x], [e], misread); o.ret == 0 && Walk(o.disk, 0, [e]) == At(4)
  {
    hide Rename, Nest, Walk, EntriesOf, Consistent, Balanced, Spells, Store;
    d, m := Nested(size, nInodes, a, b, x, e);
    NestedPaths(a, b, x, e);
    NestListed(m, a, b, x, e);
    OntoFourthInode(d, m, [a, b, x], [e], misread);
  }

  /** From inode 2, whose second slot holds number 1, onto inode 4. */
  ghost predicate OntoFour(d: Disk, m: Names, from: Path, to: Path) {
    && Clean(d, m) && PlainPath(from) && PlainPath(to) && from != [] && to != [] && Fits(Last(to)) && Init(to) == []
    && Init(from) in m && from in m && to in m && m[Init(from)] == 2 && m[to] == 4 && m[[]] == 0 && !(from <= to)
    && IsDir(d, 2) && IsDir(d, 4) && InodeAt(d, 0).dentryCount < SLOTS
    && |EntriesOf(d, 2)| > 1 && InoOf(EntriesOf(d, 2)[1]) == 1
  }

  lemma OntoFourthInode(d: Disk, m: Names, from: Path, to: Path, misread: bool)
    requires OntoFour(d, m, from, to)
    ensures var o := Rename(d, from, to, misread); o.ret == 0 && Walk(o.disk, 0, to) == At(4)
  {
    hide Spells, Store, SaysDir;
    RootIsDirectory(d, m);
    Parents(d, m, from, to);
    WordOfFour(d, m, from, to, misread);
    var m' := Outcomes.Dropped(m, from);
    RenameInPlaceShows(d, m, from, to, misread, m');
    ShownAt(Rename(d, from, to, misread).disk, m', to);
  }

  lemma WordOfFour(d: Disk, m: Names, from: Path, to: Path, misread: bool)
    requires OntoFour(d, m, from, to) && RenameCalled(d, m, from, to)
    ensures !SaysDir(d, m, from, to, misread)
  {
    hide Spells, Store, SaysDir;
    var at := SLOTS * DataOf(d, 2) + 1;
    ListedNode(d, m, Init(from));
    assert EntriesOf(d, 2)[1] == d.cells[at];
    WordOfTarget(d, m, from, to, misread, at);
    assert 1 as bv32 & 0x4000 == 0;
  }

  // ---- A full directory ----

  /** The names of files that fill the root: j + 1 times the letter f. */
  function FileName(j: nat): (x: string)
    ensures |x| == j + 1 && x[0] == 'f' && (j < 20 ==> Plain(x) && Fits(x))
  {
    seq(j + 1, _ => 'f')
  }

  lemma FileNamesDiffer(i: nat, j: nat)
    requires i != j
    ensures [FileName(i)] != [FileName(j)]
  {
    assert [FileName(i)][0] == FileName(i) && [FileName(j)][0] == FileName(j);
  }

  ghost predicate Unused(m: Names, j: nat) {
    forall i: nat {:trigger FileName(i)} :: i >= j ==> [FileName(i)] !in m
  }

  /** mkdir /a, create /a/x, and then j files in the root. */
  lemma {:induction false} FilledRoot(size: nat, nInodes: nat, j: nat) returns (d: Disk, m: Names)
    requires Enough(size, nInodes) && j <= 13
    ensures Here(size, nInodes, d, m, 3 + j) && InodeAt(d, 0).dentryCount == 3 + j && IsDir(d, 1)
    ensures ["a"] in m && m[["a"]] == 1 && ["a", "x"] in m && Unused(m, j)
  {
    hide Here, EntriesOf;
    if j == 0 {
      d, m := FirstWithFile(size, nInodes, "a", "x");
      StartIsUnused(m);
    } else {
      d, m := FilledRoot(size, nInodes, j - 1);
      var x, m0 := FileName(j - 1), m;
      d, m := MakeBesideFirst(size, nInodes, d, m0, 2 + j, x, false);
      OneMoreUsed(m0, m, j, 2 + j);
    }
  }

  lemma StartIsUnused(m: Names)
    requires m == RootOnly[["a"] := 1][["a", "x"] := 2]
    ensures Unused(m, 0) && ["a"] in m && m[["a"]] == 1 && ["a", "x"] in m
  {
    forall i: nat
      ensures [FileName(i)] !in m
    {
      assert [FileName(i)][0][0] == 'f';
    }
    assert |["a", "x"]| == 2;
  }

  lemma OneMoreUsed(m0: Names, m: Names, j: nat, k: nat)
    requires j > 0 && Unused(m0, j - 1) && m == m0[[FileName(j - 1)] := k]
    ensures Unused(m, j)
    ensures ["a"] in m0 ==> ["a"] in m && m[["a"]] == m0[["a"]]
    ensures ["a", "x"] in m0 ==> ["a", "x"] in m
  {
    forall i: nat | i >= j
      ensures [FileName(i)] !in m
    {
      FileNamesDiffer(i, j - 1);
    }
    assert [FileName(j - 1)][0][0] == 'f' && ["a"][0][0] == 'a';
  }

  /**
   * With the root full, one more create overwrites the extent of /a, which the first allocation put behind the root's
   * block, and "/a/x" is gone, although the call succeeds.
   */
  lemma FullDirectoryScenario(size: nat, nInodes: nat) returns (d: Disk, m: Names)
    requires Enough(size, nInodes) && Layout(size, nInodes).firstInode <= 16 < Layout(size, nInodes).firstData
    ensures Here(size, nInodes, d, m, 16) && ["a", "x"] in m && InodeAt(d, 0).dentryCount == SLOTS
    ensures [FileName(13)] !in m && Walk(d, 0, ["a", "x"]).At?
    ensures var o := Create(d, [FileName(13)], 0x8000, 0); o.ret == 0 && Walk(o.disk, 0, ["a", "x"]) == NoEntry
  {
    d, m := FilledRoot(size, nInodes, 13);
    WalkListed(d, m, ["a", "x"]);
    ArrivedFacts(size, nInodes, d, m, Tally(0, 0));
    LayoutIsDecoded(size, nInodes);
    assert [FileName(13)] !in m;
    OneTooMany(d, m, FileName(13), 16);
  }

  lemma OneTooMany(d: Disk, m: Names, x: string, k: nat)
    requires Packed(d, m, k) && k == 16 && Clean(d, m) && InodeAt(d, 0).dentryCount == SLOTS && IsDir(d, 1)
    requires Plain(x) && Fits(x)
    requires ["a"] in m && m[["a"]] == 1 && ["a", "x"] in m && [x] !in m
    requires d.geo.inodeCount > 16 && d.geo.dblockCount >= 34
    requires d.geo.firstInode <= 16 < d.geo.firstData && Padless(d) && Decoded(d.geo)
    ensures var o := Create(d, [x], 0x8000, 0); o.ret == 0 && Walk(o.disk, 0, ["a", "x"]) == NoEntry
  {
    var a := CreationOf(d, 0, [x], false, k);
    FullRootFacts(d, m, x, k, a);
    LosesChildOfFirst(d, m, a, Installed(d, a), x);
  }

  lemma FullRootFacts(d: Disk, m: Names, x: string, k: nat, a: Creation)
    requires Packed(d, m, k) && 1 < k < d.geo.inodeCount && 2 * k + 2 <= d.geo.dblockCount && Plain(x) && Fits(x)
    requires a == CreationOf(d, 0, [x], false, k)
    ensures Create(d, [x], 0x8000, 0) == Outcome(Installed(d, a), 0) && Unchecked(d, m, [], a)
    ensures DataOf(d, 0) == 1 && ExtOf(d, 1) == 2
  {
    PackedAllocates(d, m, k);
    OneNameIsCreated(d, m, x, k, a);
    assert InPlace(d, 0) && InPlace(d, 1);
  }

  lemma LosesChildOfFirst(d: Disk, m: Names, a: Creation, d': Disk, x: string)
    requires Unchecked(d, m, [], a) && QuietImage(d) && a.x == x && InodeAt(d, 0).dentryCount == SLOTS && a.p == 0
    requires [x] !in m && DataOf(d, 0) == 1 && ExtOf(d, 1) == 2 && a.e == 32 && a.n == 16 && InTable(d, a)
    requires ["a"] in m && m[["a"]] == 1 && ["a", "x"] in m && d.geo.dblockCount > 2 && d' == Installed(d, a)
    ensures Walk(d', 0, ["a", "x"]) == NoEntry
  {
    assert [] + [x] == [x] && ["a"] + ["x"] == ["a", "x"];
    OverwrittenLosesChildren(d, m, [], a, d', ["a"], "x");
  }

  /** Sizes for which all these runs exist: 512 blocks and 1024 inodes, or 6 blocks and 1 or 2 inodes. */
  lemma SizesExist()
    ensures var g := Layout(512 * 4096, 1024);
            && Enough(512 * 4096, 1024) && (g.firstIb, g.firstDb, g.firstInode, g.firstData) == (1, 2, 3, 19)
            && (g.ibCount, g.dbCount, g.iblockCount, g.dblockCount) == (1, 1, 16, 493)
    ensures DataBlocks(6 * 4096, 2) == 2 && DataBlocks(6 * 4096, 1) == 2
  {
    assert CeilDivision(1024, BITS) == 1 && CeilDivision(512, BITS) == 1 && CeilDivision(1024 * INODE, BLOCK) == 16;
    assert CeilDivision(6, BITS) == 1 && CeilDivision(2, BITS) == 1 && CeilDivision(1, BITS) == 1;
    assert CeilDivision(2 * INODE, BLOCK) == 1 && CeilDivision(INODE, BLOCK) == 1;
  }

  lemma OneNameIsCreated(d: Disk, m: Names, x: string, k: nat, a: Creation)
    requires Core(d, m) && Plain(x) && Fits(x) && Allocate(d) == Got(k, 2 * k, 2 * k + 1)
    requires a == CreationOf(d, 0, [x], false, k)
    ensures Create(d, [x], 0x8000, 0) == Outcome(Installed(d, a), 0) && Unchecked(d, m, [], a)
  {
    RootIsDirectory(d, m);
    ParentOf(d, m, [x]);
    assert Init([x]) == [] && Last([x]) == x;
    ModeKinds(0x8000);
    SuccessIsInstalled(d, 0, x, 0x8000, 0);
  }
}
