/** Where the inodes lie on runs that lose no inode bit, and what that makes of a full directory. */
module Placement {
  import Bitmap
  import opened Disk
  import opened Storage
  import opened Installing
  import opened Tree
  import opened FileSystem
  import opened Calls
  import opened Ledger
  import opened Mkfs
  import opened Runs
  import Theorems
  import opened Effects
  import Observing
  import opened Overflowing
  import Outcomes

  /** Inode i holds blocks 2i and 2i + 1. */
  predicate InPlace(d: Disk, i: nat) {
    ExtOf(d, i) == 2 * i && DataOf(d, i) == 2 * i + 1
  }

  ghost predicate AllInPlace(d: Disk, live: set<nat>) {
    forall i {:trigger InPlace(d, i)} :: i in live ==> InPlace(d, i)
  }

  // ---- Allocation ----

  lemma PlaceIsTaken(d: Disk, m: Names, i: nat)
    requires Core(d, m) && AllInPlace(d, m.Values) && i in m.Values
    ensures 2 * i + 1 < d.geo.dblockCount && d.dbits[2 * i] && d.dbits[2 * i + 1]
  {
    LiveIsStored(d, m.Values, i);
    assert InPlace(d, i);
  }

  lemma PlaceIsFree(d: Disk, m: Names, n: nat)
    requires Core(d, m) && AllInPlace(d, m.Values) && n !in m.Values && 2 * n < d.geo.dblockCount
    ensures !d.dbits[2 * n]
  {
    forall i | i in m.Values
      ensures !Owns(d, i, 2 * n)
    {
      assert InPlace(d, i);
    }
    assert !Owned(d, m.Values, 2 * n);
  }

  /** While no inode bit was lost, first fit gives a new inode the place of its number, too. */
  lemma AllocatesInPlace(d: Disk, m: Names, t: Tally, n: nat, e: nat, b: nat)
    requires Core(d, m) && Balanced(d, m.Values, t) && t.leaked == 0 && AllInPlace(d, m.Values)
    requires Allocate(d) == Got(n, e, b)
    ensures e == 2 * n && b == 2 * n + 1
  {
    Theorems.AllocationTakesLeast(d, n, e, b);
    AllocationIsFresh(d, m.Values, n, e, b);
    if e / 2 < n {
      Theorems.InodeBitsAreListed(d, m, t, e / 2);
      PlaceIsTaken(d, m, e / 2);
    } else if 2 * n < e {
      PlaceIsFree(d, m, n);
    }
  }

  // ---- Runs ----

  lemma AdditionGeometry(d: Disk, names: Path, mode: bv32, now: int)
    requires Shape(d)
    ensures Mkdir(d, names, mode, now).disk.geo == Create(d, names, mode, now).disk.geo == d.geo
  {
  }

  lemma RemovalGeometry(d: Disk, names: Path)
    ensures Rmdir(d, names).disk.geo == Unlink(d, names).disk.geo == d.geo
  {
    hide FreeAll, Shifted;
  }

  lemma MoveGeometry(d: Disk, p: nat, x: string, q: nat, y: string, d': Disk)
    requires d' == MoveAt(d, p, x, q, y).disk
    ensures d'.geo == d.geo
  {
    hide Shifted;
  }

  lemma RenameGeometry(d: Disk, from: Path, to: Path, misread: bool, d': Disk)
    requires d' == Rename(d, from, to, misread).disk
    ensures d'.geo == d.geo
  {
    hide MoveAt, Rmdir, Unlink;
    if from != [] && to != [] && Walk(d, 0, Init(from)).At? && Walk(d, 0, Init(to)).At? {
      var p, q := Walk(d, 0, Init(from)).ino, Walk(d, 0, Init(to)).ino;
      RemovalGeometry(d, to);
      MoveGeometry(ClearTarget(d, q, to, TargetSaysDir(d, p, q, Last(to), misread)), p, Last(from), q, Last(to), d');
    }
  }

  lemma SameGeometry(d: Disk, c: Call)
    requires Shape(d)
    ensures After(d, c).geo == d.geo
  {
    hide Mkdir, Create, Rmdir, Unlink, Rename;
    match c
    case MkdirCall(names, mode, now) => AdditionGeometry(d, names, mode, now);
    case CreateCall(names, mode, now) => AdditionGeometry(d, names, mode, now);
    case RmdirCall(names) => RemovalGeometry(d, names);
    case UnlinkCall(names) => RemovalGeometry(d, names);
    case RenameCall(from, to, misread) => RenameGeometry(d, from, to, misread, After(d, c));
    case UtimensCall(names, time) =>
  }

  lemma StepKeepsPlaces(d: Disk, m: Names, c: Call, t: Tally)
    requires Core(d, m) && Allowed(d, m, c) && Balanced(d, m.Values, t) && AllInPlace(d, m.Values)
    requires TallyAfter(d, m, c, t).leaked == 0
    ensures AllInPlace(After(d, c), NamesAfter(d, m, c).Values) && t.leaked == 0
  {
    var d', m' := After(d, c), NamesAfter(d, m, c);
    StepCore(d, m, c, d', m');
    ValuesAfterCall(d, m, c);
    Theorems.TallyGrowsIff(d, m, c, t);
    forall i | i in m'.Values
      ensures InPlace(d', i)
    {
      PlaceAfterCall(d, m, c, t, d', i);
      LiveIsStored(d', m'.Values, i);
    }
  }

  lemma PlaceAfterCall(d: Disk, m: Names, c: Call, t: Tally, d': Disk, i: nat)
    requires Core(d, m) && Allowed(d, m, c) && Balanced(d, m.Values, t) && AllInPlace(d, m.Values) && t.leaked == 0
    requires d' == After(d, c) && i in LiveAfter(d, m, c)
    ensures ExtOf(d', i) == 2 * i
  {
    SameGeometry(d, c);
    RecordsAfterCall(d, c, i);
    if i in m.Values {
      assert InPlace(d, i);
      if Allocate(d).Got? {
        AllocationIsFresh(d, m.Values, Allocate(d).n, Allocate(d).e, Allocate(d).b);
      }
    } else {
      NewPlace(d, m, c, t, d', i);
    }
  }

  lemma NewPlace(d: Disk, m: Names, c: Call, t: Tally, d': Disk, i: nat)
    requires Core(d, m) && Allowed(d, m, c) && Balanced(d, m.Values, t) && AllInPlace(d, m.Values) && t.leaked == 0
    requires d' == After(d, c) && i in LiveAfter(d, m, c) && i !in m.Values && d'.geo == d.geo
    ensures ExtOf(d', i) == 2 * i
  {
    AllocatesInPlace(d, m, t, i, Allocate(d).e, Allocate(d).b);
    match c
    case MkdirCall(names, mode, now) =>
      AdditionByName(d, m, names, mode, now);
      NewInodeReports(d, m, names, mode, now);
    case CreateCall(names, mode, now) =>
      AdditionByName(d, m, names, mode, now);
      NewInodeReports(d, m, names, mode, now);
    case _ =>
  }

  /** What was lost stays lost. */
  lemma {:induction false} LeaksStay(d: Disk, m: Names, t: Tally, calls: seq<Call>)
    requires Core(d, m) && AllowedRun(d, m, calls)
    ensures Run(d, m, t, calls).2.leaked >= t.leaked
    decreases |calls|
  {
    if calls != [] {
      var c := calls[0];
      var d', m' := After(d, c), NamesAfter(d, m, c);
      StepCore(d, m, c, d', m');
      LeaksStay(d', m', TallyAfter(d, m, c, t), calls[1..]);
    }
  }

  /** A run that ends without a lost inode bit has every listed inode i in blocks 2i and 2i + 1. */
  lemma {:induction false} RunKeepsPlaces(d: Disk, m: Names, t: Tally, calls: seq<Call>)
    requires Core(d, m) && Balanced(d, m.Values, t) && AllowedRun(d, m, calls) && AllInPlace(d, m.Values)
    requires Run(d, m, t, calls).2.leaked == 0
    ensures var (d', m', t') := Run(d, m, t, calls); AllInPlace(d', m'.Values)
    decreases |calls|
  {
    hide Balanced, AllInPlace, TallyAfter, NamesAfter, Step, MayAdd, MayRename;
    if calls != [] {
      var c := calls[0];
      var d', m', t' := After(d, c), NamesAfter(d, m, c), TallyAfter(d, m, c, t);
      StepCore(d, m, c, d', m');
      StepBalanced(d, m, c, t);
      LeaksStay(d', m', t', calls[1..]);
      StepKeepsPlaces(d, m, c, t);
      RunKeepsPlaces(d', m', t', calls[1..]);
    }
  }

  lemma StepKeepsPadding(d: Disk, c: Call)
    requires Shape(d) && Padless(d)
    ensures Padless(After(d, c))
  {
    forall i: nat
      ensures Blank(InodeAt(After(d, c), i))
    {
      RecordsAfterCall(d, c, i);
      assert Blank(InodeAt(d, i));
      assert Allocate(d).Got? ==> Blank(InodeAt(d, Allocate(d).n));
    }
  }

  /** No call writes the padding of a record. */
  lemma {:induction false} RunKeepsPadding(d: Disk, m: Names, t: Tally, calls: seq<Call>)
    requires Core(d, m) && AllowedRun(d, m, calls) && Padless(d)
    ensures Padless(Run(d, m, t, calls).0)
    decreases |calls|
  {
    if calls != [] {
      var c := calls[0];
      var d', m' := After(d, c), NamesAfter(d, m, c);
      StepCore(d, m, c, d', m');
      StepKeepsPadding(d, c);
      RunKeepsPadding(d', m', TallyAfter(d, m, c, t), calls[1..]);
    }
  }

  lemma FormattedIsPadless(g: Geometry, ws: seq<bv32>, inodes: seq<Inode>, cells: seq<Cell>, d: Disk)
    requires CleanImage(g, ws, inodes, cells) && d == FormattedFrom(g, ws, inodes, cells)
    requires forall i {:trigger inodes[i]} :: 0 <= i < |inodes| ==> Blank(inodes[i])
    ensures Padless(d)
  {
    forall i: nat
      ensures Blank(InodeAt(d, i))
    {
      assert i < |inodes| ==> Blank(inodes[i]) && Blank(inodes[0]);
    }
  }

  /** From mkfs on, without a lost inode bit every listed inode i holds blocks 2i and 2i + 1. */
  lemma PlacesFromMkfs(g: Geometry, ws: seq<bv32>, inodes: seq<Inode>, cells: seq<Cell>, calls: seq<Call>, d: Disk)
    requires CleanImage(g, ws, inodes, cells) && d == FormattedFrom(g, ws, inodes, cells)
    ensures Core(d, RootOnly)
    ensures AllowedRun(d, RootOnly, calls) ==>
              var (d', m', t') := Run(d, RootOnly, Tally(0, 0), calls);
              t'.leaked == 0 ==> AllInPlace(d', m'.Values)
  {
    StartOfRun(g, ws, inodes, cells);
    RootIsInPlace(g, ws, inodes, cells, d);
    if AllowedRun(d, RootOnly, calls) && Run(d, RootOnly, Tally(0, 0), calls).2.leaked == 0 {
      RunKeepsPlaces(d, RootOnly, Tally(0, 0), calls);
    }
  }

  lemma RootIsInPlace(g: Geometry, ws: seq<bv32>, inodes: seq<Inode>, cells: seq<Cell>, d: Disk)
    requires CleanImage(g, ws, inodes, cells) && d == FormattedFrom(g, ws, inodes, cells)
    ensures AllInPlace(d, RootOnly.Values)
  {
    RootIsStored(g, Bitmap.Bits(IbWords(g, Cleared(g, ws))), Bitmap.Bits(DbWords(g, Cleared(g, ws))), inodes, cells);
    assert RootOnly.Values == {0} by {
      assert RootOnly[[]] == 0;
    }
    assert InPlace(d, 0);
  }

  // ---- A full directory on such a run ----

  /** The inode whose extent is in the block behind is the one with the next number. */
  lemma HitIsNext(d: Disk, m: Names, q: Path, a: Creation, s: Path)
    requires Crowded(d, m, q, a) && AllInPlace(d, m.Values) && s in m
    ensures Hit(d, a, m[s]) <==> m[s] == a.p + 1
  {
    assert m[s] in m.Values && a.p in m.Values;
    assert InPlace(d, m[s]) && InPlace(d, a.p);
  }

  /** The same for the directory that rename moves an entry to. */
  lemma StruckIsNext(d: Disk, m: Names, q2: Path, s: Path)
    requires Core(d, m) && AllInPlace(d, m.Values) && q2 in m && s in m && InodeAt(d, m[q2]).dentryCount == SLOTS
    ensures Outcomes.Struck(d, m[q2], m[s]) <==> m[s] == m[q2] + 1
  {
    assert m[s] in m.Values && m[q2] in m.Values;
    assert InPlace(d, m[s]) && InPlace(d, m[q2]);
  }

  /**
   * So on a run that lost no inode bit, a seventeenth entry in directory p changes no other path and is found itself
   * if and only if the new inode is not number p + 1, and inode p + 1, if it is listed, finds its children in the
   * block that the new inode's number stands for.
   */
  lemma SeventeenthEntryInPlaceIff(d: Disk, m: Names, q: Path, a: Creation, d': Disk, m': Names, t: Tally)
    requires Crowded(d, m, q, a) && QuietImage(d) && q + [a.x] !in m
    requires Balanced(d, m.Values, t) && t.leaked == 0 && AllInPlace(d, m.Values)
    requires d' == Installed(d, a) && m' == m[q + [a.x] := a.n]
    ensures Observing.Shows(d', m') <==>
            a.n != a.p + 1 &&
            forall s {:trigger m[s]} :: s in m && m[s] == a.p + 1 ==>
              Observing.Spelled(m, s, SlotsAfter(d, a, SLOTS * (a.n - d.geo.firstData), InodeAt(d, m[s]).dentryCount))
    ensures a.n < d.geo.dblockCount
  {
    AllocatesInPlace(d, m, t, a.n, a.e, a.b);
    UncheckedFacts(d, m, q, a);
    assert a.p in m.Values && InPlace(d, a.p);
    SeventeenthEntryIff(d, m, q, a, d', m');
    forall s | s in m
      ensures Hit(d, a, m[s]) <==> m[s] == a.p + 1
    {
      HitIsNext(d, m, q, a, s);
    }
  }
}
