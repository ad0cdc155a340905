/** Whole calls by path: what each returns and what it makes of the name map. */
module Calls {
  import opened Disk
  import opened Storage
  import opened Installing
  import Removing
  import opened Tree
  import opened MoveTree
  import opened FileSystem
  import opened Operations
  import Renaming

  datatype Call =
    | MkdirCall(names: Path, mode: bv32, now: int)
    | CreateCall(names: Path, mode: bv32, now: int)
    | RmdirCall(names: Path)
    | UnlinkCall(names: Path)
    | RenameCall(from: Path, to: Path, misread: bool)
    | UtimensCall(names: Path, time: int)

  /** Image d' spells m', with right parents and quiet blocks if d had them. */
  ghost predicate Keeps(d: Disk, m: Names, d': Disk, m': Names) {
    Core(d', m') && (Consistent(d, m) ==> Consistent(d', m')) && (QuietImage(d) ==> QuietImage(d'))
  }

  ghost predicate ParentListed(d: Disk, m: Names, names: Path) {
    names != [] && Init(names) in m && IsDir(d, m[Init(names)])
  }

  /** S_ISREG(mode), which create asserts. */
  predicate IsRegMode(mode: bv32) {
    mode & 0xF000 == 0x8000
  }

  /** What the caller of create or mkdir sees to: the name is short, absent, and its directory has a free slot. */
  ghost predicate MayAdd(d: Disk, m: Names, names: Path) {
    && PlainPath(names) && names !in m
    && (names != [] ==> Fits(Last(names)))
    && (ParentListed(d, m, names) ==> InodeAt(d, m[Init(names)]).dentryCount < SLOTS)
  }

  /** What the caller of rename sees to. The target may be absent, with a free slot for it, or a file. */
  ghost predicate MayRename(d: Disk, m: Names, from: Path, to: Path) {
    && PlainPath(from) && PlainPath(to) && from != [] && to != [] && Fits(Last(to))
    && from in m && ParentListed(d, m, to)
    && Init(from) != Init(to) && !(from <= to)
    && (to in m ==> !IsDir(d, m[to]))
    && (to !in m ==> InodeAt(d, m[Init(to)]).dentryCount < SLOTS)
  }

  ghost predicate Allowed(d: Disk, m: Names, c: Call) {
    match c
    case MkdirCall(names, _, _) => MayAdd(d, m, names)
    case CreateCall(names, mode, _) => MayAdd(d, m, names) && IsRegMode(mode)
    case RmdirCall(names) => PlainPath(names)
    case UnlinkCall(names) => PlainPath(names)
    case RenameCall(from, to, _) => MayRename(d, m, from, to)
    case UtimensCall(names, _) => PlainPath(names)
  }

  /** The name map after the call. */
  ghost function NamesAfter(d: Disk, m: Names, c: Call): Names
    requires Core(d, m) && Allowed(d, m, c)
  {
    match c
    case MkdirCall(names, _, _) =>
      if ParentListed(d, m, names) && Allocate(d).Got? then m[names := Allocate(d).n] else m
    case CreateCall(names, _, _) =>
      if ParentListed(d, m, names) && Allocate(d).Got? then m[names := Allocate(d).n] else m
    case RmdirCall(names) =>
      if names != [] && names in m && InodeAt(d, m[names]).dentryCount <= 2 then m - {names} else m
    case UnlinkCall(names) => NamesAfterUnlink(d, m, names)
    case RenameCall(from, to, _) => Renamed(m, from, to)
    case UtimensCall(_, _) => m
  }

  function NamesAfterUnlink(d: Disk, m: Names, names: Path): Names {
    if names in m && !IsDir(d, m[names]) then m - {names} else m
  }

  /** The target's own path, if any, is gone; then `from` and what is below it become `to` and below. */
  ghost function Renamed(m: Names, from: Path, to: Path): Names {
    if Vacant(m - {to}, to) then Moved(m - {to}, from, to) else m
  }

  lemma TargetVacant(d: Disk, m: Names, from: Path, to: Path)
    requires Core(d, m) && MayRename(d, m, from, to)
    ensures Vacant(m - {to}, to)
  {
    forall r | r in m - {to}
      ensures !(to <= r)
    {
      if |to| <= |r| {
        var above := r[..|to|];
        PrefixListed(d, m, r, |to|);
        assert to <= r <==> above == to;
        assert |r| == |to| ==> above == r;
      }
    }
  }

  function Step(d: Disk, c: Call): Outcome
    requires Shape(d)
  {
    match c
    case MkdirCall(names, mode, now) => Mkdir(d, names, mode, now)
    case CreateCall(names, mode, now) => Create(d, names, mode, now)
    case RmdirCall(names) => Rmdir(d, names)
    case UnlinkCall(names) => Unlink(d, names)
    case RenameCall(from, to, misread) => Rename(d, from, to, misread)
    case UtimensCall(names, time) => Utimens(d, names, time)
  }

  lemma ModeKinds(mode: bv32)
    ensures DirMode(mode) & 0x4000 != 0
    ensures IsRegMode(mode) ==> RegMode(mode) & 0x4000 == 0
  {
  }

  lemma ParentOf(d: Disk, m: Names, names: Path)
    requires Core(d, m) && PlainPath(names) && names != []
    ensures ParentWalk(d, 0, names) ==
            if ParentListed(d, m, names) then At(m[Init(names)])
            else if FileOnTheWay(d, m, [], names, |names|) then NotDir else NoEntry
    ensures names == Init(names) + [Last(names)] && Plain(Last(names)) && PlainPath(Init(names))
    ensures names in m ==> ParentListed(d, m, names)
  {
    ParentWalkSpells(d, m, [], names);
    SplitLast(names);
    if names in m {
      PrefixListed(d, m, names, |names| - 1);
    }
  }

  lemma SplitLast(names: Path)
    requires names != [] && PlainPath(names)
    ensures names == Init(names) + [Last(names)] && Plain(Last(names)) && PlainPath(Init(names))
    ensures [] + Init(names) == Init(names) && Init(names) == names[..|names| - 1]
  {
  }

  /** What a creation in directory q is to make of the map. */
  ghost function Added(d: Disk, m: Names, q: Path, x: string): Names
    requires Shape(d)
  {
    if Allocate(d).Got? then m[q + [x] := Allocate(d).n] else m
  }

  /** The exits for lack of space change a counter and perhaps an inode bit, hence no name. */
  lemma FailedExits(d: Disk, d': Disk, m: Names, n: nat)
    requires Core(d, m) && (d' == d || d' == d.(freeInodes := d.freeInodes - 1) || d' == LeakInode(d, n))
    ensures Keeps(d, m, d', m)
  {
    MoreInodeBitsCore(d, d', m);
  }

  /** The creation that first-fit allocation leads to. */
  function Planned(d: Disk, p: nat, x: string, mode: bv32, now: int, dots: bool): Creation
    requires Shape(d) && Allocate(d).Got?
  {
    var Got(n, e, b) := Allocate(d);
    Creation(p, x, n, e, b, mode, now, dots)
  }

  lemma SuccessIsInstalled(d: Disk, p: nat, x: string, mode: bv32, now: int)
    requires Shape(d) && Allocate(d).Got?
    ensures MkdirAt(d, p, x, mode, now) == Outcome(Installed(d, Planned(d, p, x, DirMode(mode), now, true)), 0)
    ensures CreateAt(d, p, x, mode, now) == Outcome(Installed(d, Planned(d, p, x, RegMode(mode), now, false)), 0)
  {
  }

  lemma MkdirAtCore(d: Disk, m: Names, q: Path, x: string, mode: bv32, now: int)
    requires CanAdd(d, m, q, x)
    ensures var o, m' := MkdirAt(d, m[q], x, mode, now), Added(d, m, q, x);
            && Keeps(d, m, o.disk, m')
            && (if Allocate(d).Got? then o.ret == 0 else o.ret == 1)
  {
    var o, m' := MkdirAt(d, m[q], x, mode, now), Added(d, m, q, x);
    if Allocate(d).Got? {
      ModeKinds(mode);
      SuccessIsInstalled(d, m[q], x, mode, now);
      CreationCore(d, o.disk, m, m', q, Planned(d, m[q], x, DirMode(mode), now, true));
    } else {
      FailedExits(d, o.disk, m, if Allocate(d).BlocksFull? then Allocate(d).n else 0);
    }
  }

  lemma CreateAtCore(d: Disk, m: Names, q: Path, x: string, mode: bv32, now: int)
    requires CanAdd(d, m, q, x) && IsRegMode(mode)
    ensures var o, m' := CreateAt(d, m[q], x, mode, now), Added(d, m, q, x);
            && Keeps(d, m, o.disk, m')
            && (if Allocate(d).Got? then o.ret == 0 else o.ret == 1)
  {
    var o, m' := CreateAt(d, m[q], x, mode, now), Added(d, m, q, x);
    if Allocate(d).Got? {
      ModeKinds(mode);
      SuccessIsInstalled(d, m[q], x, mode, now);
      CreationCore(d, o.disk, m, m', q, Planned(d, m[q], x, RegMode(mode), now, false));
    } else {
      FailedExits(d, o.disk, m, if Allocate(d).BlocksFull? then Allocate(d).n else 0);
    }
  }

  /** By name, creation is creation in the parent, or an error that changes nothing. */
  lemma AdditionByName(d: Disk, m: Names, names: Path, mode: bv32, now: int)
    requires Core(d, m) && PlainPath(names)
    ensures if ParentListed(d, m, names)
            then names == Init(names) + [Last(names)] && Plain(Last(names))
                 && Mkdir(d, names, mode, now) == MkdirAt(d, m[Init(names)], Last(names), mode, now)
                 && Create(d, names, mode, now) == CreateAt(d, m[Init(names)], Last(names), mode, now)
            else Mkdir(d, names, mode, now) == Create(d, names, mode, now)
                 && Create(d, names, mode, now).ret != 0 && Create(d, names, mode, now).disk == d
  {
    if names != [] {
      ParentOf(d, m, names);
    }
  }

  /**
   * mkdir: with a listed parent it succeeds exactly when allocation does, and then lists the new path; every
   * other exit lists what was listed.
   */
  lemma MkdirLists(d: Disk, m: Names, names: Path, mode: bv32, now: int)
    requires Core(d, m) && MayAdd(d, m, names)
    ensures var o, m' := Mkdir(d, names, mode, now), NamesAfter(d, m, MkdirCall(names, mode, now));
            && Keeps(d, m, o.disk, m')
            && (o.ret == 0 <==> ParentListed(d, m, names) && Allocate(d).Got?)
            && (o.ret != 0 ==> m' == m)
  {
    AdditionByName(d, m, names, mode, now);
    if ParentListed(d, m, names) {
      MkdirAtCore(d, m, Init(names), Last(names), mode, now);
    }
  }

  /** create, likewise. */
  lemma CreateLists(d: Disk, m: Names, names: Path, mode: bv32, now: int)
    requires Core(d, m) && MayAdd(d, m, names) && IsRegMode(mode)
    ensures var o, m' := Create(d, names, mode, now), NamesAfter(d, m, CreateCall(names, mode, now));
            && Keeps(d, m, o.disk, m')
            && (o.ret == 0 <==> ParentListed(d, m, names) && Allocate(d).Got?)
            && (o.ret != 0 ==> m' == m)
  {
    AdditionByName(d, m, names, mode, now);
    if ParentListed(d, m, names) {
      CreateAtCore(d, m, Init(names), Last(names), mode, now);
    }
  }

  lemma RmdirAtCore(d: Disk, m: Names, q: Path, x: string)
    requires Core(d, m) && q in m && IsDir(d, m[q]) && Plain(x)
    ensures var o, m' := RmdirAt(d, m[q], x), if CanRemove(d, m, q, x) then m - {q + [x]} else m;
            && Keeps(d, m, o.disk, m')
            && (o.ret == 0 <==> CanRemove(d, m, q, x)) && (o.ret != 0 ==> o.disk == d)
            && (q + [x] in m && o.ret != 0 ==> o.ret == -ENOTEMPTY)
  {
    StepSpells(d, m, q, x);
    if CanRemove(d, m, q, x) {
      RemovalCore(d, m, q, x, 2);
    }
  }

  lemma UnlinkAtCore(d: Disk, m: Names, q: Path, x: string)
    requires Core(d, m) && q in m && IsDir(d, m[q]) && Plain(x)
    ensures var o := UnlinkAt(d, m[q], x);
            var file := q + [x] in m && !IsDir(d, m[q + [x]]);
            var m' := if file then m - {q + [x]} else m;
            && Keeps(d, m, o.disk, m')
            && (o.ret == 0 <==> file) && (o.ret != 0 ==> o.disk == d)
            && (q + [x] in m && o.ret != 0 ==> o.ret == -ENOTEMPTY)
            && (file ==> CanRemove(d, m, q, x) && o.disk == RmdirAt(d, m[q], x).disk)
  {
    StepSpells(d, m, q, x);
    if q + [x] in m && !IsDir(d, m[q + [x]]) {
      FileRemovalIsRemove(d, m, q, x);
      RemovalCore(d, m, q, x, 2);
    }
  }

  /** On a file, unlink and rmdir come to the same removal: its one data block and its extent block are counted. */
  lemma FileRemovalIsRemove(d: Disk, m: Names, q: Path, x: string)
    requires Core(d, m) && q in m && IsDir(d, m[q]) && Plain(x) && q + [x] in m && !IsDir(d, m[q + [x]])
    ensures CanRemove(d, m, q, x)
    ensures UnlinkAt(d, m[q], x) == Outcome(Remove(d, m[q], SlotOf(d, m[q], x), m[q + [x]], 2), 0)
    ensures RmdirAt(d, m[q], x) == Outcome(Remove(d, m[q], SlotOf(d, m[q], x), m[q + [x]], 2), 0)
  {
    StepSpells(d, m, q, x);
    ListedNode(d, m, q + [x]);
    Removing.FreeAllOfStored(d, m[q + [x]]);
  }

  /** By name, removal is removal at the parent, or an error that changes nothing. */
  lemma RemovalByName(d: Disk, m: Names, names: Path)
    requires Core(d, m) && PlainPath(names)
    ensures if ParentListed(d, m, names)
            then names == Init(names) + [Last(names)] && Plain(Last(names))
                 && Unlink(d, names) == UnlinkAt(d, m[Init(names)], Last(names))
                 && Rmdir(d, names) == RmdirAt(d, m[Init(names)], Last(names))
            else Unlink(d, names) == Rmdir(d, names) && Rmdir(d, names).ret != 0 && Rmdir(d, names).disk == d
    ensures names != [] && names in m ==> ParentListed(d, m, names)
    ensures names == [] ==> names in m && IsDir(d, m[names])
  {
    RootIsDirectory(d, m);
    if names != [] {
      ParentOf(d, m, names);
    }
  }

  /** rmdir succeeds exactly on listed paths without entries of their own, files included, and unlists them. */
  lemma RmdirUnlists(d: Disk, m: Names, names: Path)
    requires Core(d, m) && PlainPath(names)
    ensures var o, m' := Rmdir(d, names), NamesAfter(d, m, RmdirCall(names));
            && Keeps(d, m, o.disk, m')
            && (o.ret == 0 <==> names != [] && names in m && InodeAt(d, m[names]).dentryCount <= 2)
            && (names != [] && names in m && o.ret != 0 ==> o.ret == -ENOTEMPTY)
            && (o.ret != 0 ==> o.disk == d && m' == m)
  {
    hide Core, RmdirAt, UnlinkAt;
    RemovalByName(d, m, names);
    if ParentListed(d, m, names) {
      RmdirAtCore(d, m, Init(names), Last(names));
    }
  }

  /** unlink succeeds exactly on listed files and unlists them; on a file rmdir does the same. */
  lemma UnlinkUnlists(d: Disk, m: Names, names: Path)
    requires Core(d, m) && PlainPath(names)
    ensures var o, m' := Unlink(d, names), NamesAfter(d, m, UnlinkCall(names));
            && Keeps(d, m, o.disk, m')
            && (o.ret == 0 <==> names in m && !IsDir(d, m[names]))
            && (names != [] && names in m && o.ret != 0 ==> o.ret == -ENOTEMPTY)
            && (o.ret != 0 ==> o.disk == d && m' == m)
            && (o.ret == 0 ==> o == Rmdir(d, names))
  {
    hide Unlink, Rmdir, Keeps, Core;
    RemovalByName(d, m, names);
    UnlinkCases(d, m, names, Unlink(d, names), Rmdir(d, names));
  }

  lemma UnlinkCases(d: Disk, m: Names, names: Path, o: Outcome, r: Outcome)
    requires Core(d, m) && (names != [] && names in m ==> ParentListed(d, m, names))
    requires names == [] ==> names in m && IsDir(d, m[names])
    requires if ParentListed(d, m, names)
             then names == Init(names) + [Last(names)] && Plain(Last(names))
                  && o == UnlinkAt(d, m[Init(names)], Last(names)) && r == RmdirAt(d, m[Init(names)], Last(names))
             else o == r && o.ret != 0 && o.disk == d
    ensures var m' := NamesAfterUnlink(d, m, names);
            && Keeps(d, m, o.disk, m')
            && (o.ret == 0 <==> names in m && !IsDir(d, m[names]))
            && (names != [] && names in m && o.ret != 0 ==> o.ret == -ENOTEMPTY)
            && (o.ret != 0 ==> o.disk == d && m' == m)
            && (o.ret == 0 ==> o == r)
  {
    if ParentListed(d, m, names) {
      UnlinkAtUnlists(d, m, Init(names), Last(names), names, o);
    }
  }

  lemma UnlinkAtUnlists(d: Disk, m: Names, q: Path, x: string, names: Path, o: Outcome)
    requires Core(d, m) && q in m && IsDir(d, m[q]) && Plain(x) && names == q + [x] && o == UnlinkAt(d, m[q], x)
    ensures var m' := NamesAfterUnlink(d, m, names);
            && Keeps(d, m, o.disk, m')
            && (o.ret == 0 <==> names in m && !IsDir(d, m[names]))
            && (names in m && o.ret != 0 ==> o.ret == -ENOTEMPTY)
            && (o.ret != 0 ==> o.disk == d && m' == m)
            && (o.ret == 0 ==> o == RmdirAt(d, m[q], x))
  {
    UnlinkAtCore(d, m, q, x);
    RmdirAtCore(d, m, q, x);
  }

  // ---- rename ----

  lemma RenameParents(d: Disk, m: Names, from: Path, to: Path)
    requires Core(d, m) && MayRename(d, m, from, to)
    ensures var q, q2 := Init(from), Init(to);
            && ParentListed(d, m, from) && Walk(d, 0, q) == At(m[q]) && Walk(d, 0, q2) == At(m[q2])
            && from == q + [Last(from)] && to == q2 + [Last(to)] && Plain(Last(from)) && Plain(Last(to))
            && Renaming.ProperMove(q, Last(from), q2) && from != to && q != to && q2 != to
  {
    ParentOf(d, m, from);
    ParentOf(d, m, to);
    WalkListed(d, m, Init(from));
    WalkListed(d, m, Init(to));
    assert from <= Init(to) ==> from <= to;
    assert |Init(to)| < |to|;
  }

  lemma RemoveKeepsKinds(d: Disk, p: nat, k: int, t: nat, freed: nat)
    ensures var d' := Remove(d, p, k, t, freed);
            && (forall i: nat :: IsDir(d', i) == IsDir(d, i))
            && InodeAt(d', p).dentryCount <= InodeAt(d, p).dentryCount
            && (p < |d.inodes| ==> InodeAt(d', p).dentryCount == InodeAt(d, p).dentryCount - 1)
  {
  }

  /** A file at a listed path goes either way, rmdir or unlink, and leaves one slot more in its directory. */
  lemma FileGoes(d: Disk, m: Names, names: Path, d': Disk)
    requires Core(d, m) && PlainPath(names) && names in m && !IsDir(d, m[names])
    requires d' == Rmdir(d, names).disk || d' == Unlink(d, names).disk
    ensures ParentListed(d, m, names)
    ensures Keeps(d, m, d', m - {names})
    ensures InodeAt(d', m[Init(names)]).dentryCount < SLOTS
    ensures forall i: nat :: IsDir(d', i) == IsDir(d, i)
  {
    RootIsDirectory(d, m);
    UnlinkUnlists(d, m, names);
    RmdirUnlists(d, m, names);
    ParentOf(d, m, names);
    var q, x := Init(names), Last(names);
    StepSpells(d, m, q, x);
    ListedNode(d, m, names);
    ListedNode(d, m, q);
    RemoveKeepsKinds(d, m[q], SlotOf(d, m[q], x), m[names], 2);
  }

  /** What rename finds when it starts to move: the target is free and has room, and nothing else changed. */
  lemma ClearedTarget(d: Disk, m: Names, to: Path, misread: bool, cleared: Disk)
    requires Core(d, m) && PlainPath(to) && ParentListed(d, m, to)
    requires if to in m then !IsDir(d, m[to]) else InodeAt(d, m[Init(to)]).dentryCount < SLOTS
    requires cleared == ClearTarget(d, m[Init(to)], to, misread)
    ensures Keeps(d, m, cleared, m - {to})
    ensures InodeAt(cleared, m[Init(to)]).dentryCount < SLOTS
    ensures forall i: nat :: IsDir(cleared, i) == IsDir(d, i)
    ensures to !in m ==> cleared == d
  {
    ParentOf(d, m, to);
    StepSpells(d, m, Init(to), Last(to));
    if to in m {
      FileGoes(d, m, to, cleared);
    } else {
      assert m - {to} == m;
    }
  }

  lemma RequestAfterClearing(d: Disk, m: Names, from: Path, to: Path, misread: bool, cleared: Disk)
    requires Core(d, m) && MayRename(d, m, from, to)
    requires cleared == ClearTarget(d, m[Init(to)], to, misread)
    ensures Renaming.Request(cleared, m - {to}, Init(from), Last(from), Init(to), Last(to))
    ensures Keeps(d, m, cleared, m - {to})
    ensures forall i: nat :: IsDir(cleared, i) == IsDir(d, i)
    ensures to !in m ==> cleared == d
  {
    ClearedTarget(d, m, to, misread, cleared);
    RenameParents(d, m, from, to);
    RequestAgain(m, m - {to}, from, to, cleared, d);
  }

  lemma RequestAgain(m: Names, m1: Names, from: Path, to: Path, cleared: Disk, d: Disk)
    requires from != [] && to != [] && Core(cleared, m1) && m1 == m - {to} && from in m && from != to
    requires from == Init(from) + [Last(from)] && to == Init(to) + [Last(to)] && Plain(Last(from)) && Plain(Last(to))
    requires Fits(Last(to)) && ParentListed(d, m, from) && ParentListed(d, m, to) && Init(from) != to && Init(to) != to
    requires InodeAt(cleared, m[Init(to)]).dentryCount < SLOTS && forall i: nat :: IsDir(cleared, i) == IsDir(d, i)
    ensures Renaming.Request(cleared, m1, Init(from), Last(from), Init(to), Last(to))
  {
  }

  /**
   * Rename over nothing or over a file, into another directory and not below itself: it succeeds, whatever the
   * misread mode says, and moves the source and everything below it; ".." stays right exactly for a file.
   */
  lemma RenameMoves(d: Disk, m: Names, from: Path, to: Path, misread: bool, o: Outcome, m': Names)
    requires Core(d, m) && MayRename(d, m, from, to)
    requires o == Rename(d, from, to, misread)
    requires m' == Renamed(m, from, to)
    ensures o.ret == 0 && Core(o.disk, m')
    ensures Consistent(d, m) ==> (Consistent(o.disk, m') <==> !IsDir(d, m[from]))
    ensures QuietImage(d) ==> QuietImage(o.disk)
    ensures to !in m ==> o.disk.ibits == d.ibits && o.disk.dbits == d.dbits &&
                         o.disk.freeInodes == d.freeInodes && o.disk.freeBlocks == d.freeBlocks
  {
    RenameParents(d, m, from, to);
    var word := TargetSaysDir(d, m[Init(from)], m[Init(to)], Last(to), misread);
    var cleared := ClearTarget(d, m[Init(to)], to, word);
    RequestAfterClearing(d, m, from, to, word, cleared);
    TargetVacant(d, m, from, to);
    assert (m - {to})[Init(from)] == m[Init(from)] && (m - {to})[Init(to)] == m[Init(to)];
    Renaming.MoveCore(cleared, m - {to}, Init(from), Last(from), Init(to), Last(to), o, m', from, to);
  }

  lemma RmdirIsRemove(d: Disk, m: Names, names: Path)
    requires Core(d, m) && PlainPath(names) && names != [] && names in m && InodeAt(d, m[names]).dentryCount <= 2
    ensures ParentListed(d, m, names) && CanRemove(d, m, Init(names), Last(names))
    ensures names == Init(names) + [Last(names)]
    ensures Rmdir(d, names) ==
            Outcome(Remove(d, m[Init(names)], SlotOf(d, m[Init(names)], Last(names)), m[names], 2), 0)
  {
    ParentOf(d, m, names);
    StepSpells(d, m, Init(names), Last(names));
  }

  /** The parent of a listed path is not what rmdir or unlink removes. */
  lemma ParentIsNoLeaf(d: Disk, m: Names, names: Path, to: Path)
    requires Core(d, m) && names != [] && names in m && to in m
    requires !IsDir(d, m[to]) || InodeAt(d, m[to]).dentryCount <= 2
    ensures Init(names) in m && Init(names) != to
  {
    var g := Graph(d, m.Values);
    assert PathOk(g, m, names);
    ListedNode(d, m, Init(names));
  }

  /** Dealing with the target leaves both directories of a rename listed, and a slot for the entry if there was one. */
  lemma ClearTargetKeepsParents(d: Disk, m: Names, from: Path, to: Path, misread: bool, d': Disk, m': Names)
    requires Core(d, m) && PlainPath(from) && PlainPath(to) && from != [] && to != []
    requires from in m && ParentListed(d, m, to)
    requires d' == (if misread then Rmdir(d, to).disk else Unlink(d, to).disk) && Core(d', m')
    requires m' == NamesAfter(d, m, if misread then RmdirCall(to) else UnlinkCall(to))
    ensures Init(from) in m' && m'[Init(from)] == m[Init(from)]
    ensures Init(to) in m' && m'[Init(to)] == m[Init(to)]
    ensures EntrySlot(d, m[Init(to)]) < |d.cells| ==> EntrySlot(d', m[Init(to)]) < |d'.cells|
  {
    ParentOf(d, m, from);
    TargetStaysOrGoes(d, m, to, misread, d', m');
    if m' != m {
      ParentIsNoLeaf(d, m, from, to);
      RoomAfterRemoval(d, m, to, d', m');
    }
  }

  /** Either call leaves everything alone or removes what rmdir would remove. */
  lemma TargetStaysOrGoes(d: Disk, m: Names, to: Path, misread: bool, d': Disk, m': Names)
    requires Core(d, m) && PlainPath(to) && to != []
    requires d' == (if misread then Rmdir(d, to).disk else Unlink(d, to).disk)
    requires m' == NamesAfter(d, m, if misread then RmdirCall(to) else UnlinkCall(to))
    ensures (d' == d && m' == m) ||
            (to in m && InodeAt(d, m[to]).dentryCount <= 2 && d' == Rmdir(d, to).disk && m' == m - {to})
  {
    RmdirUnlists(d, m, to);
    UnlinkUnlists(d, m, to);
    if to in m {
      ListedNode(d, m, to);
    }
  }

  lemma RoomAfterRemoval(d: Disk, m: Names, to: Path, d': Disk, m': Names)
    requires Core(d, m) && PlainPath(to) && to != [] && to in m && InodeAt(d, m[to]).dentryCount <= 2
    requires d' == Rmdir(d, to).disk && Core(d', m') && m' == m - {to}
    ensures Init(to) in m' && EntrySlot(d', m[Init(to)]) < |d'.cells|
  {
    var q, x := Init(to), Last(to);
    RmdirIsRemove(d, m, to);
    RemoveKeepsKinds(d, m[q], SlotOf(d, m[q], x), m[to], 2);
    ListedNode(d, m, q);
    assert |q| < |to|;
    ListedNode(d', m', q);
  }

  /** rename reduces to inode numbers: the parents' and what find_inode_from_path says about them. */
  lemma RenamePlan(d: Disk, m: Names, from: Path, to: Path, misread: bool)
    requires Core(d, m) && PlainPath(from) && PlainPath(to) && from != [] && to != []
    requires from in m && ParentListed(d, m, to)
    ensures var q, q2 := Init(from), Init(to);
            && q in m && FindInode(d, q) == m[q] && q2 in m && FindInode(d, q2) == m[q2]
            && Rename(d, from, to, misread) ==
               MoveAt(ClearTarget(d, m[q2], to, TargetSaysDir(d, m[q], m[q2], Last(to), misread)),
                      m[q], Last(from), m[q2], Last(to))
  {
    ParentOf(d, m, from);
    ParentOf(d, m, to);
    WalkListed(d, m, Init(from));
    WalkListed(d, m, Init(to));
  }

  // ---- All calls ----

  ghost function After(d: Disk, c: Call): Disk
    requires Shape(d)
  {
    Step(d, c).disk
  }

  /** One call keeps the image consistent with the edited name map. */
  lemma StepCore(d: Disk, m: Names, c: Call, d': Disk, m': Names)
    requires Core(d, m) && Allowed(d, m, c) && d' == After(d, c) && m' == NamesAfter(d, m, c)
    ensures Core(d', m') && (QuietImage(d) ==> QuietImage(d'))
    ensures Consistent(d, m) && (c.RenameCall? ==> !IsDir(d, m[c.from])) ==> Consistent(d', m')
  {
    match c
    case MkdirCall(names, mode, now) => MkdirLists(d, m, names, mode, now);
    case CreateCall(names, mode, now) => CreateLists(d, m, names, mode, now);
    case RmdirCall(names) => RmdirUnlists(d, m, names);
    case UnlinkCall(names) => UnlinkUnlists(d, m, names);
    case RenameCall(from, to, misread) =>
      RenameParents(d, m, from, to);
      RenameMoves(d, m, from, to, misread, Rename(d, from, to, misread), m');
    case UtimensCall(names, time) => UtimensCore(d, m, names, time);
  }
}
