/** What getattr reports of every listed path, along all runs. */
module Reports {
  import opened Bitmap
  import opened Disk
  import opened Storage
  import Installing
  import opened Tree
  import opened FileSystem
  import Operations
  import opened Calls
  import opened Ledger
  import opened Mkfs
  import opened Runs
  import opened Effects

  /** What the users of an inode asked for, and what getattr is to report of it. */
  datatype Attr = Attr(mode: bv32, links: nat, time: int)

  type Attrs = map<nat, Attr>

  function AttrOf(v: Inode): Attr {
    Attr(v.mode, v.links, v.mtime)
  }

  function DirAttr(mode: bv32, now: int): Attr {
    Attr(0x4000 | mode, 2, now)
  }

  function FileAttr(mode: bv32, now: int): Attr {
    Attr(mode, 2, now)
  }

  /** A creation gives the new inode its mode and time, utimens a time; nothing else alters either. */
  ghost function AttrsAfter(d: Disk, m: Names, a: Attrs, c: Call): Attrs
    requires Shape(d)
  {
    match c
    case MkdirCall(names, mode, now) =>
      if ParentListed(d, m, names) && Allocate(d).Got? then a[Allocate(d).n := DirAttr(mode, now)] else a
    case CreateCall(names, mode, now) =>
      if ParentListed(d, m, names) && Allocate(d).Got? then a[Allocate(d).n := FileAttr(mode, now)] else a
    case UtimensCall(names, time) =>
      if names in m && m[names] in a then a[m[names] := a[m[names]].(time := time)] else a
    case _ => a
  }

  /** The record of every listed inode says what it is to say. */
  ghost predicate Told(d: Disk, m: Names, a: Attrs) {
    forall i {:trigger i in m.Values} :: i in m.Values ==> i in a && AttrOf(InodeAt(d, i)) == a[i]
  }

  lemma TellsOld(d: Disk, m: Names, a: Attrs, c: Call, i: nat)
    requires Clean(d, m) && Allowed(d, m, c) && Told(d, m, a) && i in m.Values
    ensures i in AttrsAfter(d, m, a, c) && AttrOf(InodeAt(After(d, c), i)) == AttrsAfter(d, m, a, c)[i]
  {
    hide Spells, DirAttr, FileAttr, IsNewDir, IsNewFile, Step;
    RecordsAfterCall(d, c, i);
    NotAllocated(d, m, i);
    if c.UtimensCall? {
      WalkFromRoot(d, m, c.names);
      ListedInode(d, m, i);
    }
  }

  lemma NotAllocated(d: Disk, m: Names, i: nat)
    requires Core(d, m) && i in m.Values
    ensures Allocate(d).Got? ==> i != Allocate(d).n
  {
    if Allocate(d).Got? {
      Installing.AllocationIsFresh(d, m.Values, Allocate(d).n, Allocate(d).e, Allocate(d).b);
    }
  }

  lemma ListedInode(d: Disk, m: Names, i: nat)
    requires Core(d, m) && i in m.Values
    ensures i < |d.inodes|
  {
    LiveIsStored(d, m.Values, i);
  }

  lemma NewDirTold(d: Disk, m: Names, names: Path, mode: bv32, now: int)
    requires Core(d, m) && MayAdd(d, m, names) && ParentListed(d, m, names) && Allocate(d).Got?
    ensures AttrOf(InodeAt(Mkdir(d, names, mode, now).disk, Allocate(d).n)) == DirAttr(mode, now)
  {
    hide Spells, Store, Mkdir, Create, Allocate;
    NewInodeReports(d, m, names, mode, now);
  }

  lemma NewFileTold(d: Disk, m: Names, names: Path, mode: bv32, now: int)
    requires Core(d, m) && MayAdd(d, m, names) && ParentListed(d, m, names) && Allocate(d).Got? && IsRegMode(mode)
    ensures AttrOf(InodeAt(Create(d, names, mode, now).disk, Allocate(d).n)) == FileAttr(mode, now)
  {
    hide Spells, Store, Mkdir, Create, Allocate;
    NewInodeReports(d, m, names, mode, now);
  }

  lemma TellsNew(d: Disk, m: Names, a: Attrs, c: Call, i: nat)
    requires Clean(d, m) && Allowed(d, m, c) && i !in m.Values && i in NamesAfter(d, m, c).Values
    ensures i in AttrsAfter(d, m, a, c) && AttrOf(InodeAt(After(d, c), i)) == AttrsAfter(d, m, a, c)[i]
  {
    hide Spells, Store, Mkdir, Create, Allocate, DirAttr, FileAttr, NamesAfter;
    ValuesAfterCall(d, m, c);
    match c
    case MkdirCall(names, mode, now) =>
      AdditionByName(d, m, names, mode, now);
      NewDirTold(d, m, names, mode, now);
    case CreateCall(names, mode, now) =>
      AdditionByName(d, m, names, mode, now);
      NewFileTold(d, m, names, mode, now);
    case _ =>
  }

  lemma StepTells(d: Disk, m: Names, a: Attrs, c: Call)
    requires Clean(d, m) && Allowed(d, m, c) && Told(d, m, a)
    ensures Told(After(d, c), NamesAfter(d, m, c), AttrsAfter(d, m, a, c))
  {
    hide Spells, AttrsAfter, NamesAfter, Step;
    forall i | i in NamesAfter(d, m, c).Values
      ensures i in AttrsAfter(d, m, a, c) && AttrOf(InodeAt(After(d, c), i)) == AttrsAfter(d, m, a, c)[i]
    {
      if i in m.Values {
        TellsOld(d, m, a, c, i);
      } else {
        TellsNew(d, m, a, c, i);
      }
    }
  }

  /** The attributes at the end of a run. */
  ghost function RunAttrs(d: Disk, m: Names, a: Attrs, calls: seq<Call>): Attrs
    requires Core(d, m) && AllowedRun(d, m, calls)
    decreases |calls|
  {
    if calls == [] then a
    else
      var d', m' := After(d, calls[0]), NamesAfter(d, m, calls[0]);
      StepCore(d, m, calls[0], d', m');
      RunAttrs(d', m', AttrsAfter(d, m, a, calls[0]), calls[1..])
  }

  lemma {:induction false} RunTells(d: Disk, m: Names, t: Tally, a: Attrs, calls: seq<Call>)
    requires Clean(d, m) && AllowedRun(d, m, calls) && Told(d, m, a)
    ensures var (d', m', _) := Run(d, m, t, calls); Told(d', m', RunAttrs(d, m, a, calls))
    decreases |calls|
  {
    hide Told, AttrsAfter, NamesAfter, TallyAfter, Step, Allowed;
    if calls != [] {
      var c := calls[0];
      var d', m' := After(d, c), NamesAfter(d, m, c);
      StepCore(d, m, c, d', m');
      StepTells(d, m, a, c);
      RunTells(d', m', TallyAfter(d, m, c, t), AttrsAfter(d, m, a, c), calls[1..]);
    }
  }

  lemma RootTold(g: Geometry, ws: seq<bv32>, inodes: seq<Inode>, cells: seq<Cell>, d: Disk, a: Attrs)
    requires CleanImage(g, ws, inodes, cells) && d == FormattedFrom(g, ws, inodes, cells)
    requires a == RootAttrs(inodes[0].mtime)
    ensures Told(d, RootOnly, a)
  {
    assert RootOnly.Values == {0} by {
      assert RootOnly[[]] == 0;
    }
  }

  lemma RunReports(d: Disk, m: Names, t: Tally, a: Attrs, calls: seq<Call>, r: Path)
    requires Clean(d, m) && AllowedRun(d, m, calls) && Told(d, m, a) && r in Run(d, m, t, calls).1
    ensures var (d', m', _) := Run(d, m, t, calls);
            var a' := RunAttrs(d, m, a, calls);
            Walk(d', 0, r) == At(m'[r]) && m'[r] in a' && AttrOf(InodeAt(d', m'[r])) == a'[m'[r]]
  {
    hide Run, RunAttrs, AllowedRun, Told;
    RunTells(d, m, t, a, calls);
    RunStaysCore(d, m, t, calls);
    ToldByPath(Run(d, m, t, calls).0, Run(d, m, t, calls).1, RunAttrs(d, m, a, calls), r);
  }

  lemma ToldByPath(d: Disk, m: Names, a: Attrs, r: Path)
    requires Core(d, m) && Told(d, m, a) && r in m
    ensures Walk(d, 0, r) == At(m[r]) && m[r] in a && AttrOf(InodeAt(d, m[r])) == a[m[r]]
  {
    WalkListed(d, m, r);
    assert m[r] in m.Values;
  }

  lemma {:induction false} RunStaysCore(d: Disk, m: Names, t: Tally, calls: seq<Call>)
    requires Core(d, m) && AllowedRun(d, m, calls)
    ensures Core(Run(d, m, t, calls).0, Run(d, m, t, calls).1)
    decreases |calls|
  {
    hide AttrsAfter, NamesAfter, TallyAfter, Step, Allowed;
    if calls != [] {
      var d', m' := After(d, calls[0]), NamesAfter(d, m, calls[0]);
      StepCore(d, m, calls[0], d', m');
      RunStaysCore(d', m', TallyAfter(d, m, calls[0], t), calls[1..]);
    }
  }

  /** The root as mkfs makes it. */
  function RootAttrs(time: int): Attrs {
    map[0 := Attr(0x4000, 2, time)]
  }

  /**
   * After every run from mkfs, each listed path leads to a record with the mode that the creation of its inode asked
   * for, two links, and the time of its creation or of the last utimens; the root's mode is a directory's without
   * permissions, and its time the one that mkfs left in its record.
   */
  lemma PathsReport(g: Geometry, ws: seq<bv32>, inodes: seq<Inode>, cells: seq<Cell>, calls: seq<Call>, r: Path)
    requires CleanImage(g, ws, inodes, cells) && QuietLeftovers(g, cells)
    ensures var d, a := FormattedFrom(g, ws, inodes, cells), RootAttrs(inodes[0].mtime);
            && Core(d, RootOnly)
            && (AllowedRun(d, RootOnly, calls) && r in Run(d, RootOnly, Tally(0, 0), calls).1 ==>
                  var (d', m', _) := Run(d, RootOnly, Tally(0, 0), calls);
                  var a' := RunAttrs(d, RootOnly, a, calls);
                  Walk(d', 0, r) == At(m'[r]) && m'[r] in a' && AttrOf(InodeAt(d', m'[r])) == a'[m'[r]])
  {
    hide Run, RunAttrs, AllowedRun, QuietImage, Spells, Store, Balanced, FormattedFrom, Told;
    var d, a := FormattedFrom(g, ws, inodes, cells), RootAttrs(inodes[0].mtime);
    StartOfRun(g, ws, inodes, cells);
    RootTold(g, ws, inodes, cells, d, a);
    if AllowedRun(d, RootOnly, calls) && r in Run(d, RootOnly, Tally(0, 0), calls).1 {
      RunReports(d, RootOnly, Tally(0, 0), a, calls, r);
    }
  }

  lemma RootKept(d: Disk, m: Names, a: Attrs, c: Call)
    requires Core(d, m) && 0 in a
    ensures var a' := AttrsAfter(d, m, a, c); 0 in a' && a'[0].mode == a[0].mode && a'[0].links == a[0].links
  {
    hide Spells, DirAttr, FileAttr;
    RootIsDirectory(d, m);
    NotAllocated(d, m, 0);
  }

  lemma {:induction false} RootStays(d: Disk, m: Names, a: Attrs, calls: seq<Call>)
    requires Core(d, m) && AllowedRun(d, m, calls) && 0 in a
    ensures var a' := RunAttrs(d, m, a, calls); 0 in a' && a'[0].mode == a[0].mode && a'[0].links == a[0].links
    decreases |calls|
  {
    hide AttrsAfter, NamesAfter, Step, Allowed;
    if calls != [] {
      var d', m' := After(d, calls[0]), NamesAfter(d, m, calls[0]);
      StepCore(d, m, calls[0], d', m');
      RootKept(d, m, a, calls[0]);
      RootStays(d', m', AttrsAfter(d, m, a, calls[0]), calls[1..]);
    }
  }

  /** No run ever changes what is reported of the root, but for its time. */
  lemma RootReports(g: Geometry, ws: seq<bv32>, inodes: seq<Inode>, cells: seq<Cell>, calls: seq<Call>)
    requires CleanImage(g, ws, inodes, cells) && QuietLeftovers(g, cells)
    ensures var d := FormattedFrom(g, ws, inodes, cells);
            && Core(d, RootOnly)
            && (AllowedRun(d, RootOnly, calls) ==>
                  var v := InodeAt(Run(d, RootOnly, Tally(0, 0), calls).0, 0); v.mode == 0x4000 && v.links == 2)
  {
    hide Run, RunAttrs, AllowedRun, QuietImage, Spells, Store, Balanced, FormattedFrom, Told;
    var d, a := FormattedFrom(g, ws, inodes, cells), RootAttrs(inodes[0].mtime);
    StartOfRun(g, ws, inodes, cells);
    if AllowedRun(d, RootOnly, calls) {
      RunStaysCore(d, RootOnly, Tally(0, 0), calls);
      RootIsDirectory(Run(d, RootOnly, Tally(0, 0), calls).0, Run(d, RootOnly, Tally(0, 0), calls).1);
      PathsReport(g, ws, inodes, cells, calls, []);
      RootStays(d, RootOnly, a, calls);
    }
  }
}
