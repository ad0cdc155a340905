/** Any finite run of calls that its callers are allowed to make. */
module Runs {
  import Bitmap
  import opened Disk
  import opened Storage
  import opened Tree
  import MoveTree
  import opened FileSystem
  import Renaming
  import opened Calls
  import opened Ledger
  import opened Mkfs

  /** The tally after the call. */
  ghost function TallyAfter(d: Disk, m: Names, c: Call, t: Tally): Tally
    requires Shape(d)
  {
    match c
    case MkdirCall(names, _, _) => if ParentListed(d, m, names) then TallyAdd(d, t, true) else t
    case CreateCall(names, _, _) => if ParentListed(d, m, names) then TallyAdd(d, t, false) else t
    case _ => t
  }

  // ---- Counting ----

  lemma MkdirBalances(d: Disk, m: Names, names: Path, mode: bv32, now: int, t: Tally)
    requires Core(d, m) && MayAdd(d, m, names) && Balanced(d, m.Values, t)
    ensures var c := MkdirCall(names, mode, now);
            Balanced(Mkdir(d, names, mode, now).disk, NamesAfter(d, m, c).Values, TallyAfter(d, m, c, t))
  {
    if names != [] {
      ParentOf(d, m, names);
      if ParentListed(d, m, names) {
        MkdirAtCore(d, m, Init(names), Last(names), mode, now);
        AddBalances(d, m, Init(names), Last(names), mode, now, t, true, Mkdir(d, names, mode, now).disk);
      }
    }
  }

  lemma CreateBalances(d: Disk, m: Names, names: Path, mode: bv32, now: int, t: Tally)
    requires Core(d, m) && MayAdd(d, m, names) && IsRegMode(mode) && Balanced(d, m.Values, t)
    ensures var c := CreateCall(names, mode, now);
            Balanced(Create(d, names, mode, now).disk, NamesAfter(d, m, c).Values, TallyAfter(d, m, c, t))
  {
    hide Spells;
    hide CreateAt, ClearBlocks, ClearInodes;
    if names != [] {
      ParentOf(d, m, names);
      if ParentListed(d, m, names) {
        CreateAtCore(d, m, Init(names), Last(names), mode, now);
        AddBalances(d, m, Init(names), Last(names), mode, now, t, false, Create(d, names, mode, now).disk);
      }
    }
  }

  lemma RmdirBalances(d: Disk, m: Names, names: Path, t: Tally)
    requires Core(d, m) && PlainPath(names) && Balanced(d, m.Values, t)
    ensures Balanced(Rmdir(d, names).disk, NamesAfter(d, m, RmdirCall(names)).Values, t)
  {
    hide Store, Spells;
    RmdirUnlists(d, m, names);
    if names != [] && names in m && InodeAt(d, m[names]).dentryCount <= 2 {
      RmdirIsRemove(d, m, names);
      RemoveBalances(d, m, Init(names), Last(names), t, Rmdir(d, names).disk);
    }
  }

  lemma UnlinkBalances(d: Disk, m: Names, names: Path, t: Tally)
    requires Core(d, m) && PlainPath(names) && Balanced(d, m.Values, t)
    ensures Balanced(Unlink(d, names).disk, NamesAfter(d, m, UnlinkCall(names)).Values, t)
  {
    hide Store, Spells;
    UnlinkUnlists(d, m, names);
    if names in m && !IsDir(d, m[names]) {
      RootIsDirectory(d, m);
      ListedNode(d, m, names);
      RmdirBalances(d, m, names, t);
    }
  }

  lemma RenameBalances(d: Disk, m: Names, from: Path, to: Path, misread: bool, t: Tally, o: Outcome, m': Names)
    requires Core(d, m) && MayRename(d, m, from, to) && Balanced(d, m.Values, t)
    requires o == Rename(d, from, to, misread)
    requires m' == Renamed(m, from, to)
    ensures Balanced(o.disk, m'.Values, t)
  {
    var m1 := m - {to};
    RenameParents(d, m, from, to);
    var word := TargetSaysDir(d, m[Init(from)], m[Init(to)], Last(to), misread);
    var cleared := ClearTarget(d, m[Init(to)], to, word);
    ClearedBalances(d, m, from, to, word, t, cleared);
    RequestAfterClearing(d, m, from, to, word, cleared);
    TargetVacant(d, m, from, to);
    MoveTree.MovedKeys(m1, from, to);
    assert m1[Init(from)] == m[Init(from)] && m1[Init(to)] == m[Init(to)];
    Renaming.MoveCore(cleared, m1, Init(from), Last(from), Init(to), Last(to), o, m', from, to);
    assert m' == MoveTree.Moved(m1, from, to) && m'.Values == m1.Values;
    SameBitsBalance(cleared, o.disk, m'.Values, t);
  }

  lemma SameBitsBalance(d: Disk, d': Disk, live: set<nat>, t: Tally)
    requires Balanced(d, live, t) && Shape(d') && d'.geo == d.geo && d'.ibits == d.ibits && d'.dbits == d.dbits
    requires d'.freeInodes == d.freeInodes && d'.freeBlocks == d.freeBlocks
    ensures Balanced(d', live, t)
  {
  }

  lemma ClearedBalances(d: Disk, m: Names, from: Path, to: Path, misread: bool, t: Tally, cleared: Disk)
    requires Core(d, m) && MayRename(d, m, from, to) && Balanced(d, m.Values, t)
    requires cleared == ClearTarget(d, m[Init(to)], to, misread)
    ensures Balanced(cleared, (m - {to}).Values, t)
  {
    ParentOf(d, m, to);
    StepSpells(d, m, Init(to), Last(to));
    if to in m {
      RemovedFileBalances(d, m, to, misread, t, cleared);
    } else {
      assert m - {to} == m;
    }
  }

  lemma RemovedFileBalances(d: Disk, m: Names, to: Path, misread: bool, t: Tally, cleared: Disk)
    requires Core(d, m) && PlainPath(to) && to != [] && to in m && !IsDir(d, m[to]) && Balanced(d, m.Values, t)
    requires cleared == if misread then Rmdir(d, to).disk else Unlink(d, to).disk
    ensures Balanced(cleared, (m - {to}).Values, t)
  {
    ListedNode(d, m, to);
    UnlinkUnlists(d, m, to);
    RmdirBalances(d, m, to, t);
  }

  /** One call keeps the books: both data figures exact, both inode figures off by exactly the tally. */
  lemma StepBalanced(d: Disk, m: Names, c: Call, t: Tally)
    requires Core(d, m) && Allowed(d, m, c) && Balanced(d, m.Values, t)
    ensures Balanced(After(d, c), NamesAfter(d, m, c).Values, TallyAfter(d, m, c, t))
  {
    hide Spells;
    match c
    case MkdirCall(names, mode, now) => MkdirBalances(d, m, names, mode, now, t);
    case CreateCall(names, mode, now) => CreateBalances(d, m, names, mode, now, t);
    case RmdirCall(names) => RmdirBalances(d, m, names, t);
    case UnlinkCall(names) => UnlinkBalances(d, m, names, t);
    case RenameCall(from, to, misread) =>
      RenameBalances(d, m, from, to, misread, t, Rename(d, from, to, misread), Renamed(m, from, to));
    case UtimensCall(names, time) =>
      SameBitsBalance(d, Utimens(d, names, time).disk, m.Values, t);
  }

  // ---- Runs ----

  ghost predicate AllowedRun(d: Disk, m: Names, calls: seq<Call>)
    requires Core(d, m)
    decreases |calls|
  {
    calls != [] ==>
      Allowed(d, m, calls[0]) &&
      var d', m' := After(d, calls[0]), NamesAfter(d, m, calls[0]);
      StepCore(d, m, calls[0], d', m');
      AllowedRun(d', m', calls[1..])
  }

  /** Image, name map and tally at the end of a run. */
  ghost function Run(d: Disk, m: Names, t: Tally, calls: seq<Call>): (Disk, Names, Tally)
    requires Core(d, m) && AllowedRun(d, m, calls)
    decreases |calls|
  {
    if calls == [] then (d, m, t)
    else
      var d', m' := After(d, calls[0]), NamesAfter(d, m, calls[0]);
      StepCore(d, m, calls[0], d', m');
      Run(d', m', TallyAfter(d, m, calls[0], t), calls[1..])
  }

  /** Every finite run of allowed calls ends consistent and balanced. */
  lemma {:induction false} RunKeeps(d: Disk, m: Names, t: Tally, calls: seq<Call>)
    requires Core(d, m) && Balanced(d, m.Values, t) && AllowedRun(d, m, calls)
    ensures var (d', m', t') := Run(d, m, t, calls);
            Core(d', m') && Balanced(d', m'.Values, t') && (QuietImage(d) ==> QuietImage(d'))
    decreases |calls|
  {
    if calls != [] {
      var c := calls[0];
      var d', m' := After(d, c), NamesAfter(d, m, c);
      StepCore(d, m, c, d', m');
      StepBalanced(d, m, c, t);
      RunKeeps(d', m', TallyAfter(d, m, c, t), calls[1..]);
    }
  }

  /** No call of the run renames a directory. */
  ghost predicate MovesFilesOnly(d: Disk, m: Names, calls: seq<Call>)
    requires Core(d, m) && AllowedRun(d, m, calls)
    decreases |calls|
  {
    calls != [] ==>
      var d', m' := After(d, calls[0]), NamesAfter(d, m, calls[0]);
      && (calls[0].RenameCall? ==> !IsDir(d, m[calls[0].from]))
      && (StepCore(d, m, calls[0], d', m'); MovesFilesOnly(d', m', calls[1..]))
  }

  /** Then every ".." still names the parent at the end. */
  lemma {:induction false} RunKeepsParents(d: Disk, m: Names, t: Tally, calls: seq<Call>)
    requires Consistent(d, m) && AllowedRun(d, m, calls) && MovesFilesOnly(d, m, calls)
    ensures var (d', m', _) := Run(d, m, t, calls); Consistent(d', m')
    decreases |calls|
  {
    if calls != [] {
      var c := calls[0];
      var d', m' := After(d, c), NamesAfter(d, m, c);
      StepCore(d, m, c, d', m');
      RunKeepsParents(d', m', TallyAfter(d, m, c, t), calls[1..]);
    }
  }

  // ---- From mkfs on ----

  /** An image that mkfs is about to format: sizes fit, and the bitmap words that no loop clears are clean. */
  ghost predicate CleanImage(g: Geometry, ws: seq<bv32>, inodes: seq<Inode>, cells: seq<Cell>) {
    && Sized(g, ws) && CleanWhereUnreached(g, ws)
    && Formattable(g, Bitmap.Bits(IbWords(g, ws)), Bitmap.Bits(DbWords(g, ws)), inodes, cells)
  }

  lemma StartOfRun(g: Geometry, ws: seq<bv32>, inodes: seq<Inode>, cells: seq<Cell>)
    requires CleanImage(g, ws, inodes, cells)
    ensures var d := FormattedFrom(g, ws, inodes, cells);
            && Consistent(d, RootOnly) && Balanced(d, RootOnly.Values, Tally(0, 0))
            && (QuietImage(d) <==> QuietLeftovers(g, cells))
  {
    FormatIsConsistentIff(g, ws, inodes, cells);
    assert RootOnly.Values == {0} by {
      assert RootOnly[[]] == 0;
    }
  }

  /**
   * Every finite run of allowed calls on a freshly formatted image ends with an image that spells the name map of
   * the run, stores exactly its inodes and counts its blocks; every ".." is right if no directory was renamed, and
   * walks below files find nothing if the data region held no ordinary names where files can see them.
   */
  lemma RunFromMkfs(g: Geometry, ws: seq<bv32>, inodes: seq<Inode>, cells: seq<Cell>, calls: seq<Call>)
    requires CleanImage(g, ws, inodes, cells)
    ensures var d := FormattedFrom(g, ws, inodes, cells);
            && Core(d, RootOnly)
            && (AllowedRun(d, RootOnly, calls) ==>
                  var (d', m', t') := Run(d, RootOnly, Tally(0, 0), calls);
                  && Core(d', m') && Balanced(d', m'.Values, t')
                  && (MovesFilesOnly(d, RootOnly, calls) ==> Consistent(d', m'))
                  && (QuietLeftovers(g, cells) ==> Clean(d', m')))
  {
    var d := FormattedFrom(g, ws, inodes, cells);
    StartOfRun(g, ws, inodes, cells);
    if AllowedRun(d, RootOnly, calls) {
      RunKeeps(d, RootOnly, Tally(0, 0), calls);
      if MovesFilesOnly(d, RootOnly, calls) {
        RunKeepsParents(d, RootOnly, Tally(0, 0), calls);
      }
    }
  }
}
