/** What every call returns, error numbers included. */
module Returns {
  import opened Disk
  import opened Storage
  import opened Tree
  import opened FileSystem
  import opened Operations
  import opened Calls
  import Effects
  import opened RenameLimits

  /** -ENOTDIR or -ENOENT: a file stands before the last but so many of the names, or nothing does. */
  ghost function Refusal(d: Disk, m: Names, names: Path, limit: int): int {
    if FileOnTheWay(d, m, [], names, limit) then -20 else -2
  }

  ghost function AdditionReturns(d: Disk, m: Names, names: Path): int
    requires Shape(d)
  {
    if names == [] then 1
    else if !ParentListed(d, m, names) then Refusal(d, m, names, |names|)
    else if Allocate(d).Got? then 0 else 1
  }

  /** -ENOTEMPTY for a directory that stays, and for one that unlink is to remove. */
  ghost function RemovalReturns(d: Disk, m: Names, names: Path, stays: bool): int {
    if names == [] then 1
    else if !ParentListed(d, m, names) then Refusal(d, m, names, |names|)
    else if names !in m then 1
    else if stays then -39 else 0
  }

  ghost function Returned(d: Disk, m: Names, c: Call): int
    requires Clean(d, m) && Sensible(d, m, c)
  {
    match c
    case MkdirCall(names, _, _) => AdditionReturns(d, m, names)
    case CreateCall(names, _, _) => AdditionReturns(d, m, names)
    case RmdirCall(names) =>
      RemovalReturns(d, m, names, names in m && InodeAt(d, m[names]).dentryCount > 2)
    case UnlinkCall(names) => RemovalReturns(d, m, names, names in m && IsDir(d, m[names]))
    case RenameCall(from, to, misread) =>
      if from == [] || to == [] then 1
      else if from == to && Goes(d, m, to, SaysDir(d, m, from, to, misread)) then 1 else 0
    case UtimensCall(names, _) => if names in m then 0 else Refusal(d, m, names, |names| - 1)
  }

  /** On a clean image the name map decides what is returned. */
  lemma ReturnsExactly(d: Disk, m: Names, c: Call)
    requires Clean(d, m) && Sensible(d, m, c)
    ensures Step(d, c).ret == Returned(d, m, c)
  {
    hide Spells;
    match c
    case MkdirCall(names, mode, now) => AdditionReturn(d, m, names, mode, now);
    case CreateCall(names, mode, now) => AdditionReturn(d, m, names, mode, now);
    case RmdirCall(names) => RemovalReturn(d, m, names);
    case UnlinkCall(names) => RemovalReturn(d, m, names);
    case RenameCall(from, to, misread) =>
      if from != [] && to != [] {
        RenameFailsIff(d, m, from, to, misread);
      }
    case UtimensCall(names, time) => WalkFromRoot(d, m, names);
  }

  lemma AdditionReturn(d: Disk, m: Names, names: Path, mode: bv32, now: int)
    requires Core(d, m) && PlainPath(names)
    ensures Mkdir(d, names, mode, now).ret == AdditionReturns(d, m, names)
    ensures Create(d, names, mode, now).ret == AdditionReturns(d, m, names)
  {
    if names != [] {
      ParentOf(d, m, names);
    }
  }

  lemma RemovalReturn(d: Disk, m: Names, names: Path)
    requires Core(d, m) && PlainPath(names)
    ensures Rmdir(d, names).ret ==
            RemovalReturns(d, m, names, names in m && InodeAt(d, m[names]).dentryCount > 2)
    ensures Unlink(d, names).ret == RemovalReturns(d, m, names, names in m && IsDir(d, m[names]))
  {
    if names != [] {
      ParentOf(d, m, names);
      if ParentListed(d, m, names) {
        StepSpells(d, m, Init(names), Last(names));
      }
    }
  }

  /** On any image, what the walk meets is reported, and nothing is changed. */
  lemma RefusalsChangeNothing(d: Disk, names: Path, mode: bv32, now: int)
    requires Shape(d) && names != []
    ensures var w := ParentWalk(d, 0, names);
            var refused := Outcome(d, if w.NotDir? then -20 else -2);
            !w.At? ==> Mkdir(d, names, mode, now) == Create(d, names, mode, now) == refused &&
                       Rmdir(d, names) == Unlink(d, names) == refused
    ensures var w := Walk(d, 0, names);
            !w.At? ==> Utimens(d, names, now) == Outcome(d, if w.NotDir? then -20 else -2)
  {
  }

  /** Besides, rename refuses a directory with more than 512 extents, but only after the target is gone. */
  lemma RenameRefusals(d: Disk, from: Path, to: Path, misread: bool, p: nat, q: nat, cleared: Disk)
    requires from != [] && to != [] && Walk(d, 0, Init(from)) == At(p) && Walk(d, 0, Init(to)) == At(q)
    requires cleared == ClearTarget(d, q, to, TargetSaysDir(d, p, q, Last(to), misread))
    ensures var o := Rename(d, from, to, misread);
            && (o.ret == -28 <==> InodeAt(d, q).extCount > 512)
            && (o.ret == 1 <==> InodeAt(d, q).extCount <= 512 && Lookup(EntriesOf(cleared, p), Last(from)) == -1)
            && (o.ret == 0 || o.disk == cleared) && o.ret in {0, 1, -28}
  {
    ClearingKeepsCount(d, q, to, TargetSaysDir(d, p, q, Last(to), misread), cleared);
  }

  lemma ClearingKeepsCount(d: Disk, q: nat, to: Path, word: bool, cleared: Disk)
    requires to != [] && cleared == ClearTarget(d, q, to, word)
    ensures InodeAt(cleared, q).extCount == InodeAt(d, q).extCount
  {
    Effects.ClearingKeepsRecords(d, q, to, word, q, cleared);
    assert Effects.Reported(InodeAt(cleared, q)).extCount == Effects.Reported(InodeAt(d, q)).extCount;
  }
}
