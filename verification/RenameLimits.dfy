/** rename in every case: when it fails, what it lists instead, and when that is what it is for. */
module RenameLimits {
  import opened Disk
  import opened Storage
  import opened Tree
  import opened MoveTree
  import opened FileSystem
  import opened Operations
  import Renaming
  import opened Calls
  import Theorems
  import opened Observing
  import opened Outcomes

  /** What the kernel has seen to before it calls rename: the source exists, and so does the target's directory. */
  ghost predicate RenameCalled(d: Disk, m: Names, from: Path, to: Path) {
    && Clean(d, m) && PlainPath(from) && PlainPath(to) && from != [] && to != [] && Fits(Last(to))
    && from in m && ParentListed(d, m, to)
  }

  /** Whether the misread mode word of an existing target says directory. */
  ghost predicate SaysDir(d: Disk, m: Names, from: Path, to: Path, misread: bool)
    requires RenameCalled(d, m, from, to)
  {
    Init(from) in m && TargetSaysDir(d, m[Init(from)], m[Init(to)], Last(to), misread)
  }

  /** Clearing removes the target: rmdir what has no entries, or unlink a file. */
  ghost predicate Goes(d: Disk, m: Names, to: Path, word: bool) {
    to in m && if word then InodeAt(d, m[to]).dentryCount <= 2 else !IsDir(d, m[to])
  }

  ghost function NamesCleared(d: Disk, m: Names, to: Path, word: bool): Names {
    if Goes(d, m, to, word) then m - {to} else m
  }

  lemma Parents(d: Disk, m: Names, from: Path, to: Path)
    requires RenameCalled(d, m, from, to)
    ensures ParentListed(d, m, from) && from == Init(from) + [Last(from)] && to == Init(to) + [Last(to)]
    ensures Plain(Last(from)) && Plain(Last(to)) && Init(from) != from && Init(to) != to
  {
    ParentOf(d, m, from);
    ParentOf(d, m, to);
    assert |Init(from)| < |from| && |Init(to)| < |to|;
  }

  /** Clearing unlists the target if it goes, keeps everything else, and frees a slot in the target's directory. */
  lemma Clearing(d: Disk, m: Names, from: Path, to: Path, word: bool, cleared: Disk)
    requires RenameCalled(d, m, from, to) && cleared == ClearTarget(d, m[Init(to)], to, word)
    ensures var m1 := NamesCleared(d, m, to, word);
            && Clean(cleared, m1) && Init(from) in m1 && Init(to) in m1
            && m1[Init(from)] == m[Init(from)] && m1[Init(to)] == m[Init(to)]
    ensures forall i: nat :: IsDir(cleared, i) == IsDir(d, i)
    ensures if Goes(d, m, to, word) then InodeAt(cleared, m[Init(to)]).dentryCount < SLOTS else cleared == d
  {
    hide Store, Spells, SlotsFrom;
    Parents(d, m, from, to);
    StepSpells(d, m, Init(to), Last(to));
    if to in m {
      RemovalInRename(d, m, to, word, cleared);
      if Goes(d, m, to, word) {
        ListedNode(d, m, to);
        ParentIsNoLeaf(d, m, from, to);
      }
    }
  }

  lemma RemovalInRename(d: Disk, m: Names, to: Path, word: bool, cleared: Disk)
    requires Clean(d, m) && PlainPath(to) && to != [] && to in m
    requires cleared == if word then Rmdir(d, to).disk else Unlink(d, to).disk
    ensures ParentListed(d, m, to)
    ensures Clean(cleared, NamesCleared(d, m, to, word)) && forall i: nat :: IsDir(cleared, i) == IsDir(d, i)
    ensures if Goes(d, m, to, word) then InodeAt(cleared, m[Init(to)]).dentryCount < SLOTS else cleared == d
  {
    ParentOf(d, m, to);
    RmdirUnlists(d, m, to);
    UnlinkUnlists(d, m, to);
    if Goes(d, m, to, word) {
      ListedNode(d, m, to);
      RmdirIsRemove(d, m, to);
      ListedNode(d, m, Init(to));
      RemoveKeepsKinds(d, m[Init(to)], SlotOf(d, m[Init(to)], Last(to)), m[to], 2);
    }
  }

  /** rename as its two parts. */
  lemma Parts(d: Disk, m: Names, from: Path, to: Path, misread: bool)
    requires RenameCalled(d, m, from, to)
    ensures Init(from) in m
    ensures Rename(d, from, to, misread) ==
            MoveAt(ClearTarget(d, m[Init(to)], to, SaysDir(d, m, from, to, misread)),
                   m[Init(from)], Last(from), m[Init(to)], Last(to))
  {
    Parents(d, m, from, to);
    RenamePlan(d, m, from, to, misread);
  }

  /**
   * rename reports an error if and only if it is asked to rename something onto itself that clearing removes. Then it
   * is gone, and with it the only path that a failing rename changes.
   */
  lemma RenameFailsIff(d: Disk, m: Names, from: Path, to: Path, misread: bool)
    requires RenameCalled(d, m, from, to)
    ensures var o, word := Rename(d, from, to, misread), SaysDir(d, m, from, to, misread);
            && (o.ret != 0 <==> from == to && Goes(d, m, to, word))
            && (o.ret != 0 ==> o.ret == 1 && Clean(o.disk, m - {from}))
  {
    var word := SaysDir(d, m, from, to, misread);
    var cleared, m1 := ClearTarget(d, m[Init(to)], to, word), NamesCleared(d, m, to, word);
    Parents(d, m, from, to);
    Parts(d, m, from, to, misread);
    Clearing(d, m, from, to, word, cleared);
    StepSpells(cleared, m1, Init(from), Last(from));
    ListedNode(cleared, m1, Init(to));
  }

  // ---- What rename lists ----

  /** The names after clearing and moving, and the image between the two. */
  ghost predicate TwoStep(d: Disk, m: Names, from: Path, to: Path, misread: bool, cleared: Disk, m': Names) {
    && RenameCalled(d, m, from, to) && Init(from) in m
    && var word := SaysDir(d, m, from, to, misread);
       && cleared == ClearTarget(d, m[Init(to)], to, word)
       && m' == RenameResult(d, m, from, to, word, cleared)
  }

  ghost function RenameResult(d: Disk, m: Names, from: Path, to: Path, word: bool, cleared: Disk): Names
    requires from != [] && to != [] && Init(from) in m
  {
    var m1 := NamesCleared(d, m, to, word);
    if from == to && Goes(d, m, to, word) then m1
    else Result(m1, Init(from), Last(from), Init(to), Last(to), LastEntry(cleared, m[Init(from)], Last(from)))
  }

  /** There is a slot for the new entry, in the target directory's block or at least in the image. */
  ghost predicate SlotAtHand(d: Disk, m: Names, to: Path, word: bool)
    requires to != [] && Init(to) in m
  {
    Goes(d, m, to, word) || EntrySlot(d, m[Init(to)]) < |d.cells|
  }

  lemma RenameIsCase(d: Disk, m: Names, from: Path, to: Path, misread: bool, cleared: Disk, m': Names)
    requires TwoStep(d, m, from, to, misread, cleared, m')
    requires SlotAtHand(d, m, to, SaysDir(d, m, from, to, misread))
    requires !(from == to && Goes(d, m, to, SaysDir(d, m, from, to, misread)))
    ensures var m1 := NamesCleared(d, m, to, SaysDir(d, m, from, to, misread));
            Case(cleared, m1, Init(from), Last(from), Init(to), Last(to), Rename(d, from, to, misread).disk, m')
  {
    hide Core, Movement, MoveAt, ClearTarget;
    var word := SaysDir(d, m, from, to, misread);
    var m1 := NamesCleared(d, m, to, word);
    Parts(d, m, from, to, misread);
    Clearing(d, m, from, to, word, cleared);
    ClearedMovement(d, m, from, to, word, cleared, m1);
  }

  lemma ClearedMovement(d: Disk, m: Names, from: Path, to: Path, word: bool, cleared: Disk, m1: Names)
    requires RenameCalled(d, m, from, to) && cleared == ClearTarget(d, m[Init(to)], to, word)
    requires m1 == NamesCleared(d, m, to, word) && !(from == to && Goes(d, m, to, word)) && Init(from) in m
    requires SlotAtHand(d, m, to, word)
    ensures Movement(cleared, m1, Init(from), Last(from), Init(to), Last(to))
  {
    hide ClearTarget, Spells;
    Parents(d, m, from, to);
    Clearing(d, m, from, to, word, cleared);
    ListedNode(cleared, m1, Init(to));
  }

  /**
   * The inode that has its extent where the new entry is written, if there is one, will find what the map lists: the
   * block that the number of the source's inode stands for, be it a data block or metadata, spells its children.
   */
  ghost predicate StruckSpelled(d: Disk, m: Names, from: Path, to: Path, m': Names)
    requires from != [] && to != [] && Init(from) in m && Init(from) + [Last(from)] in m && Init(to) in m
  {
    forall s {:trigger Struck(d, m[Init(to)], m'[s])} :: s in m' && Struck(d, m[Init(to)], m'[s]) ==>
      Spelled(m', s, StruckSlots(d, m, Init(from), Last(from), Init(to), Last(to), m'[s]))
  }

  /**
   * After rename, successful or not, the image shows exactly the result map, unless the target stays in place and the
   * new entry was written over the extent of an inode that does not find its children any more. With a free slot
   * nothing is written over.
   */
  lemma RenameShowsIff(d: Disk, m: Names, from: Path, to: Path, misread: bool, cleared: Disk, m': Names)
    requires TwoStep(d, m, from, to, misread, cleared, m') && Init(from) + [Last(from)] in m && Init(to) in m
    requires SlotAtHand(d, m, to, SaysDir(d, m, from, to, misread))
    ensures var d', word := Rename(d, from, to, misread).disk, SaysDir(d, m, from, to, misread);
            && (Shows(d', m') <==> Goes(d, m, to, word) || StruckSpelled(d, m, from, to, m'))
            && (HasRoom(d, m, to, word) ==> Shows(d', m'))
  {
    var word := SaysDir(d, m, from, to, misread);
    if from == to && Goes(d, m, to, word) {
      RenameFailsIff(d, m, from, to, misread);
      CleanShows(Rename(d, from, to, misread).disk, m');
    } else {
      MoveInRenameShowsIff(d, m, from, to, misread, cleared, m', word, NamesCleared(d, m, to, word));
    }
  }

  lemma MoveInRenameShowsIff(d: Disk, m: Names, from: Path, to: Path, misread: bool, cleared: Disk, m': Names,
                             word: bool, m1: Names)
    requires TwoStep(d, m, from, to, misread, cleared, m') && Init(from) + [Last(from)] in m && Init(to) in m
    requires word == SaysDir(d, m, from, to, misread) && m1 == NamesCleared(d, m, to, word)
    requires SlotAtHand(d, m, to, word) && !(from == to && Goes(d, m, to, word))
    ensures var d' := Rename(d, from, to, misread).disk;
            && (Shows(d', m') <==> Goes(d, m, to, word) || StruckSpelled(d, m, from, to, m'))
            && (HasRoom(d, m, to, word) ==> Shows(d', m'))
  {
    Clearing(d, m, from, to, word, cleared);
    RenameIsCase(d, m, from, to, misread, cleared, m');
    MoveShowsIff(cleared, m1, Init(from), Last(from), Init(to), Last(to), Rename(d, from, to, misread).disk, m');
  }

  /** A free slot, if need be the one that the target leaves. */
  ghost predicate HasRoom(d: Disk, m: Names, to: Path, word: bool)
    requires to != [] && Init(to) in m
  {
    Goes(d, m, to, word) || InodeAt(d, m[Init(to)]).dentryCount < SLOTS
  }

  /** Over nothing that goes, to a free slot. */
  lemma RenameInPlaceShows(d: Disk, m: Names, from: Path, to: Path, misread: bool, m': Names)
    requires RenameCalled(d, m, from, to) && InodeAt(d, m[Init(to)]).dentryCount < SLOTS && Init(from) in m
    requires !Goes(d, m, to, SaysDir(d, m, from, to, misread))
    requires m' == Result(m, Init(from), Last(from), Init(to), Last(to), LastEntry(d, m[Init(from)], Last(from)))
    ensures Rename(d, from, to, misread).ret == 0 && Shows(Rename(d, from, to, misread).disk, m')
  {
    hide StruckSpelled;
    var word := SaysDir(d, m, from, to, misread);
    RenameFailsIff(d, m, from, to, misread);
    Parents(d, m, from, to);
    Clearing(d, m, from, to, word, ClearTarget(d, m[Init(to)], to, word));
    RoomIsSlot(d, m, to, word);
    RenameShowsIff(d, m, from, to, misread, d, m');
  }

  // ---- When that is what rename is for ----

  lemma BelowParent(from: Path, to: Path)
    requires to != [] && from != to
    ensures from <= to <==> from <= Init(to)
  {
  }

  /** In the result map the target path is the source's inode exactly in these cases. */
  lemma ResultReachesTarget(m: Names, from: Path, to: Path, last: bool)
    requires from in m && from != [] && to != [] && Init(from) in m && Init(to) in m
    requires forall q, r {:trigger m[q], m[r]} :: q in m && r in m && m[q] == m[r] ==> q == r
    requires to !in m <==> Vacant(m, to)
    ensures var m' := Result(m, Init(from), Last(from), Init(to), Last(to), last);
            (to in m' && m'[to] == m[from]) <==>
            (Init(from) != Init(to) && !(from <= to) && to !in m) || (from == to && last)
  {
    assert from == Init(from) + [Last(from)] && to == Init(to) + [Last(to)];
    if from != to {
      BelowParent(from, to);
    }
    if Init(from) != Init(to) && !(from <= to) && to !in m {
      assert Rebase(from, to, from) == to;
      MovedAt(m, from, to, from);
    }
  }

  /**
   * Given a free slot, after rename the target path leads to the source's inode if and only if the directories differ,
   * the target is not below the source, and the target was absent or went, or else the two paths are one, which stays
   * and is the directory's last entry.
   */
  lemma RenameWorksIff(d: Disk, m: Names, from: Path, to: Path, misread: bool)
    requires RenameCalled(d, m, from, to) && HasRoom(d, m, to, SaysDir(d, m, from, to, misread))
    ensures var gone := Goes(d, m, to, SaysDir(d, m, from, to, misread));
            Init(from) in m && (Walk(Rename(d, from, to, misread).disk, 0, to) == At(m[from]) <==>
            (Init(from) != Init(to) && !(from <= to) && (to !in m || gone)) ||
            (from == to && !gone && LastEntry(d, m[Init(from)], Last(from))))
  {
    var word := SaysDir(d, m, from, to, misread);
    Parents(d, m, from, to);
    if from == to && Goes(d, m, to, word) {
      RenameFailsIff(d, m, from, to, misread);
      WalkFromRoot(Rename(d, from, to, misread).disk, m - {from}, from);
    } else {
      MovedWorksIff(d, m, from, to, misread, Rename(d, from, to, misread).disk, word);
    }
  }

  lemma MovedWorksIff(d: Disk, m: Names, from: Path, to: Path, misread: bool, d': Disk, word: bool)
    requires RenameCalled(d, m, from, to) && Init(from) in m && word == SaysDir(d, m, from, to, misread)
    requires HasRoom(d, m, to, word) && !(from == to && Goes(d, m, to, word)) && d' == Rename(d, from, to, misread).disk
    ensures Walk(d', 0, to) == At(m[from]) <==>
            (Init(from) != Init(to) && !(from <= to) && (to !in m || Goes(d, m, to, word))) ||
            (from == to && LastEntry(d, m[Init(from)], Last(from)))
  {
    var cleared, m1 := ClearTarget(d, m[Init(to)], to, word), NamesCleared(d, m, to, word);
    var last := LastEntry(cleared, m[Init(from)], Last(from));
    var m' := Result(m1, Init(from), Last(from), Init(to), Last(to), last);
    MovedShows(d, m, from, to, misread, cleared, m1, d', m', word);
    TargetShown(d', m, m1, from, to, last, Goes(d, m, to, word));
  }

  lemma MovedShows(d: Disk, m: Names, from: Path, to: Path, misread: bool, cleared: Disk, m1: Names, d': Disk,
                   m': Names, word: bool)
    requires RenameCalled(d, m, from, to) && Init(from) in m && word == SaysDir(d, m, from, to, misread)
    requires HasRoom(d, m, to, word) && !(from == to && Goes(d, m, to, word)) && d' == Rename(d, from, to, misread).disk
    requires cleared == ClearTarget(d, m[Init(to)], to, word) && m1 == NamesCleared(d, m, to, word)
    requires m' == Result(m1, Init(from), Last(from), Init(to), Last(to), LastEntry(cleared, m[Init(from)], Last(from)))
    ensures Shows(d', m') && (to !in m1 <==> Vacant(m1, to)) && Init(from) in m1 && Init(to) in m1
    ensures forall q, r {:trigger m1[q], m1[r]} :: q in m1 && r in m1 && m1[q] == m1[r] ==> q == r
    ensures !Goes(d, m, to, word) ==> cleared == d
  {
    hide StruckSpelled;
    Parents(d, m, from, to);
    Clearing(d, m, from, to, word, cleared);
    RoomIsSlot(d, m, to, word);
    RenameShowsIff(d, m, from, to, misread, cleared, m');
    CoreIsFramed(cleared, m1);
    AbsentVacant(cleared, m1, to);
  }

  lemma TargetShown(d': Disk, m: Names, m1: Names, from: Path, to: Path, last: bool, gone: bool)
    requires from in m && from != [] && to != [] && PlainPath(to) && !(from == to && gone) && (gone ==> to in m)
    requires m1 == (if gone then m - {to} else m) && Init(from) in m1 && Init(to) in m1
    requires forall q, r {:trigger m1[q], m1[r]} :: q in m1 && r in m1 && m1[q] == m1[r] ==> q == r
    requires to !in m1 <==> Vacant(m1, to)
    requires Shows(d', Result(m1, Init(from), Last(from), Init(to), Last(to), last))
    ensures Walk(d', 0, to) == At(m[from]) <==>
            (Init(from) != Init(to) && !(from <= to) && (to !in m || gone)) || (from == to && last)
  {
    assert ShowsPath(d', Result(m1, Init(from), Last(from), Init(to), Last(to), last), to);
    ResultReachesTarget(m1, from, to, last);
  }

  lemma RoomIsSlot(d: Disk, m: Names, to: Path, word: bool)
    requires Core(d, m) && ParentListed(d, m, to) && HasRoom(d, m, to, word)
    ensures SlotAtHand(d, m, to, word)
  {
    ListedNode(d, m, Init(to));
  }

  // ---- When the image stays consistent ----

  /** Both parents are listed under the new map, whether or not that is the moved one. */
  lemma TargetParentStays(d: Disk, m: Names, from: Path, to: Path)
    requires RenameCalled(d, m, from, to) && Init(from) != Init(to) && !(from <= to)
    ensures Init(to) in Renamed(m, from, to) && Renamed(m, from, to)[Init(to)] == m[Init(to)]
  {
    Parents(d, m, from, to);
    BelowParent(from, to);
    if Vacant(m - {to}, to) {
      assert Rebase(from, to, Init(to)) == Init(to);
      MovedAt(m - {to}, from, to, Init(to));
    }
  }

  lemma MovedRequest(d: Disk, m: Names, from: Path, to: Path, word: bool, cleared: Disk, m1: Names)
    requires RenameCalled(d, m, from, to) && Init(from) != Init(to) && !(from <= to)
    requires (to !in m || Goes(d, m, to, word)) && HasRoom(d, m, to, word)
    requires cleared == ClearTarget(d, m[Init(to)], to, word) && m1 == m - {to}
    ensures Renaming.Request(cleared, m1, Init(from), Last(from), Init(to), Last(to))
    ensures Renaming.ProperMove(Init(from), Last(from), Init(to)) && Vacant(m1, to) && Init(from) in m
    ensures m1[Init(from)] == m[Init(from)] && m1[Init(to)] == m[Init(to)]
  {
    Parents(d, m, from, to);
    BelowParent(from, to);
    ClearedNames(d, m, to, word, m1);
    Clearing(d, m, from, to, word, cleared);
    AbsentVacant(cleared, m1, to);
  }

  lemma ClearedNames(d: Disk, m: Names, to: Path, word: bool, m1: Names)
    requires (to !in m || Goes(d, m, to, word)) && m1 == m - {to}
    ensures NamesCleared(d, m, to, word) == m1 && to !in m1
  {
    if to !in m {
      assert m - {to} == m;
    }
  }

  lemma MovedConsistent(d: Disk, m: Names, from: Path, to: Path, misread: bool, word: bool, d': Disk)
    requires RenameCalled(d, m, from, to) && Init(from) != Init(to) && !(from <= to)
    requires word == SaysDir(d, m, from, to, misread) && d' == Rename(d, from, to, misread).disk
    requires (to !in m || Goes(d, m, to, word)) && HasRoom(d, m, to, word)
    ensures Core(d', Renamed(m, from, to))
  {
    var cleared, m1 := ClearTarget(d, m[Init(to)], to, word), m - {to};
    Parents(d, m, from, to);
    Parts(d, m, from, to, misread);
    MovedRequest(d, m, from, to, word, cleared, m1);
    Renaming.MoveCore(cleared, m1, Init(from), Last(from), Init(to), Last(to), Rename(d, from, to, misread),
             Renamed(m, from, to), from, to);
  }

  /** A name that is taken, or a seventeenth entry. */
  lemma MovedInconsistent(d: Disk, m: Names, from: Path, to: Path, d': Disk, m': Names)
    requires RenameCalled(d, m, from, to) && Init(from) != Init(to) && Init(from) in m
    requires d' == MoveAt(d, m[Init(from)], Last(from), m[Init(to)], Last(to)).disk
    requires to in m || InodeAt(d, m[Init(to)]).dentryCount == SLOTS
    requires EntrySlot(d, m[Init(to)]) < |d.cells| && Init(to) in m' && m'[Init(to)] == m[Init(to)]
    ensures !Core(d', m')
  {
    Parents(d, m, from, to);
    var q, x, q2, y := Init(from), Last(from), Init(to), Last(to);
    var p2, es, m0 := m[q2], EntriesOf(d, m[q2]), Result(m, q, x, q2, y, LastEntry(d, m[q], x));
    var k, e := SlotOf(d, m[q], x), Dentry(m[from], y);
    CaseFacts(d, m, q, x, q2, y, d', m0);
    MovingTarget(d, m[q], k, p2, e, d');
    if to in m {
      StepSpells(d, m, q2, y);
      Theorems.TwiceIsNotListed(d', m', q2, Lookup(es, y), |es|);
    } else {
      assert InodeAt(d', p2).dentryCount == SLOTS + 1;
      assert !Stored(d', p2) && p2 in m'.Values;
    }
  }

  /**
   * A rename into another directory, not below the source, leaves a consistent image with the moved paths if and only
   * if the target was absent or went, and a slot was free: onto a directory only if that is empty and the misread
   * mode says directory, onto a file only if it says file or the file goes to rmdir.
   */
  lemma RenameConsistentIff(d: Disk, m: Names, from: Path, to: Path, misread: bool, word: bool, d': Disk)
    requires RenameCalled(d, m, from, to) && Init(from) != Init(to) && !(from <= to)
    requires word == SaysDir(d, m, from, to, misread) && d' == Rename(d, from, to, misread).disk
    requires SlotAtHand(d, m, to, word)
    ensures Core(d', Renamed(m, from, to)) <==> (to !in m || Goes(d, m, to, word)) && HasRoom(d, m, to, word)
  {
    if (to !in m || Goes(d, m, to, word)) && HasRoom(d, m, to, word) {
      MovedConsistent(d, m, from, to, misread, word, d');
    } else {
      Clearing(d, m, from, to, word, ClearTarget(d, m[Init(to)], to, word));
      Parts(d, m, from, to, misread);
      ListedNode(d, m, Init(to));
      TargetParentStays(d, m, from, to);
      MovedInconsistent(d, m, from, to, d', Renamed(m, from, to));
    }
  }

  // ---- Within one directory ----

  /** An image that differs from a consistent one in no live inode is consistent. */
  lemma SameInodesCore(d: Disk, d': Disk, m: Names)
    requires Core(d, m) && Shape(d') && d'.geo == d.geo && d'.dbits == d.dbits
    requires forall i {:trigger i in m.Values} :: i in m.Values ==>
               Stored(d', i) && ExtOf(d', i) == ExtOf(d, i) && DataOf(d', i) == DataOf(d, i) &&
               NodeOf(d', i) == NodeOf(d, i)
    ensures Core(d', m)
  {
    OwnersKept(d, d', m.Values, m.Values);
    assert Graph(d', m.Values) == Graph(d, m.Values);
  }

  /** Renaming the last entry of a directory within it changes no entry. */
  lemma LastEntryStays(d: Disk, m: Names, q: Path, x: string, y: string, d': Disk, i: nat)
    requires Case(d, m, q, x, q, y, d', m) && LastEntry(d, m[q], x) && InodeAt(d, m[q]).dentryCount < SLOTS
    requires i in m.Values
    ensures Stored(d', i) && ExtOf(d', i) == ExtOf(d, i) && DataOf(d', i) == DataOf(d, i)
    ensures EntriesOf(d', i) == EntriesOf(d, i) && IsDir(d', i) == IsDir(d, i)
  {
    var p, k, e := m[q], SlotOf(d, m[q], x), Dentry(m[q + [x]], y);
    CaseFacts(d, m, q, x, q, y, d', m);
    LiveIsStored(d, m.Values, i);
    if Struck(d, p, i) {
      StruckIsFull(d, m, q, i);
    }
    MovingPointers(d, p, k, p, e, d', i);
    SameRecordsStored(d, d', p, k, e, i);
    if i == p {
      MovingWithin(d, p, k, e, d');
      LastBack(EntriesOf(d, p), k);
    } else {
      CaseKeeps(d, m, q, x, q, y, d', m, i);
    }
  }

  lemma LastBack(es: seq<Cell>, k: nat)
    requires k == |es| - 1
    ensures Without(es, k) + [es[k]] == es
  {
  }

  lemma SameRecordsStored(d: Disk, d': Disk, p: nat, k: nat, e: Cell, i: nat)
    requires Stored(d, i) && Places(d, p, k, p) && Moving(d, p, k, p, e, d') && !Struck(d, p, i)
    requires d'.ibits == d.ibits && d'.dbits == d.dbits && |d'.inodes| == |d.inodes|
    ensures Stored(d', i)
  {
    assert InodeAt(d', i).dentryCount == InodeAt(d, i).dentryCount;
    assert CellAt(d', SLOTS * ExtOf(d, i)) == CellAt(d, SLOTS * ExtOf(d, i));
  }

  /**
   * Within one directory, rename changes nothing of the last entry; any other source loses its inode, and the last
   * entry is there twice: the image is consistent, and with the old map, exactly if the source is the last entry.
   */
  lemma SameDirectoryConsistentIff(d: Disk, m: Names, q: Path, x: string, y: string, d': Disk, m': Names)
    requires Case(d, m, q, x, q, y, d', m') && InodeAt(d, m[q]).dentryCount < SLOTS
    ensures Core(d', m) <==> LastEntry(d, m[q], x)
    ensures LastEntry(d, m[q], x) ==> EntriesOf(d', m[q]) == EntriesOf(d, m[q])
    ensures Shows(d', m')
  {
    CaseFacts(d, m, q, x, q, y, d', m');
    MoveShowsIff(d, m, q, x, q, y, d', m');
    if LastEntry(d, m[q], x) {
      assert m[q] in m.Values;
      forall i | i in m.Values
        ensures Stored(d', i) && ExtOf(d', i) == ExtOf(d, i) && DataOf(d', i) == DataOf(d, i)
        ensures NodeOf(d', i) == NodeOf(d, i) && (i == m[q] ==> EntriesOf(d', i) == EntriesOf(d, i))
      {
        LastEntryStays(d, m, q, x, y, d', i);
      }
      SameInodesCore(d, d', m);
    } else {
      LastEntryTwice(d, m, q, x, y, d', m');
    }
  }

  lemma LastEntryTwice(d: Disk, m: Names, q: Path, x: string, y: string, d': Disk, m': Names)
    requires Case(d, m, q, x, q, y, d', m') && !LastEntry(d, m[q], x)
    ensures !Core(d', m)
  {
    var k, es := SlotOf(d, m[q], x), EntriesOf(d, m[q]);
    CaseWithin(d, m, q, x, y, d', m', k, es);
    LastTwice(d', m, q, es, k);
  }

  lemma LastTwice(d': Disk, m: Names, q: Path, es: seq<Cell>, k: nat)
    requires k < |es| - 1 && q in m && IsDir(d', m[q])
    requires EntriesOf(d', m[q]) == Without(es, k) + [es[|es| - 1]]
    ensures !Core(d', m)
  {
    DoubledAtEnd(es, k);
    Theorems.TwiceIsNotListed(d', m, q, |es| - 2, |es| - 1);
  }

  lemma DoubledAtEnd(es: seq<Cell>, k: nat)
    requires k < |es| - 1
    ensures var es' := Without(es, k) + [es[|es| - 1]]; |es'| == |es| && es'[|es| - 2] == es'[|es| - 1]
  {
  }

  // ---- Onto a directory ----

  /**
   * Onto a directory rename works if and only if that has no entries of its own and the misread mode word says
   * directory. For every fourth inode number the word is on the image: the number in slot ino / 4 of the source's
   * directory, counted on beyond its block, and it is tested as the mode of a record is.
   */
  lemma RenameOntoDirectoryIff(d: Disk, m: Names, from: Path, to: Path, misread: bool, at: int)
    requires RenameCalled(d, m, from, to) && Init(from) != Init(to) && !(from <= to) && to in m && IsDir(d, m[to])
    requires InodeAt(d, m[Init(to)]).dentryCount < SLOTS && Init(from) in m
    requires at == 16 * DataOf(d, m[Init(from)]) + m[to] / 4
    ensures Walk(Rename(d, from, to, misread).disk, 0, to) == At(m[from]) <==>
            SaysDir(d, m, from, to, misread) && InodeAt(d, m[to]).dentryCount <= 2
    ensures m[to] % 4 == 0 && 0 <= at < |d.cells| ==>
              (SaysDir(d, m, from, to, misread) <==> (InoOf(d.cells[at]) % 0x1_0000_0000) as bv32 & 0x4000 != 0)
  {
    RenameWorksIff(d, m, from, to, misread);
    WordOfTarget(d, m, from, to, misread, at);
  }

  lemma WordOfTarget(d: Disk, m: Names, from: Path, to: Path, misread: bool, at: int)
    requires RenameCalled(d, m, from, to) && to in m && Init(from) in m
    requires at == 16 * DataOf(d, m[Init(from)]) + m[to] / 4
    ensures m[to] % 4 == 0 && 0 <= at < |d.cells| ==>
              (SaysDir(d, m, from, to, misread) <==> (InoOf(d.cells[at]) % 0x1_0000_0000) as bv32 & 0x4000 != 0)
  {
    if 0 <= at < |d.cells| {
      var n := InoOf(d.cells[at]) % 0x1_0000_0000;
      DirBitIsMode(InoOf(d.cells[at]), n, NO_INODE.(mode := n as bv32));
    }
    Parents(d, m, from, to);
    StepSpells(d, m, Init(to), Last(to));
    ListedNode(d, m, Init(from));
  }

  // ---- Failing calls ----

  /** Ordinary names, and for rename what the kernel has seen to, unless one of its paths is the root. */
  ghost predicate Sensible(d: Disk, m: Names, c: Call) {
    match c
    case MkdirCall(names, _, _) => PlainPath(names)
    case CreateCall(names, _, _) => PlainPath(names)
    case RmdirCall(names) => PlainPath(names)
    case UnlinkCall(names) => PlainPath(names)
    case RenameCall(from, to, _) => from != [] && to != [] ==> RenameCalled(d, m, from, to)
    case UtimensCall(names, _) => PlainPath(names)
  }

  /** The names after a failing call: all, but what was renamed onto itself. */
  ghost function NamesAfterFailure(m: Names, c: Call): Names {
    if c.RenameCall? && c.from != [] && c.to != [] then m - {c.from} else m
  }

  lemma FailureKeepsNames(d: Disk, m: Names, c: Call)
    requires Clean(d, m) && Sensible(d, m, c) && Step(d, c).ret != 0
    ensures Clean(After(d, c), NamesAfterFailure(m, c))
  {
    match c
    case MkdirCall(names, mode, now) => FailingAddition(d, m, names, mode, now);
    case CreateCall(names, mode, now) => FailingAddition(d, m, names, mode, now);
    case RmdirCall(names) => RmdirUnlists(d, m, names);
    case UnlinkCall(names) => UnlinkUnlists(d, m, names);
    case RenameCall(from, to, misread) =>
      if from != [] && to != [] {
        RenameFailsIff(d, m, from, to, misread);
      }
    case UtimensCall(names, time) => UtimensCore(d, m, names, time);
  }

  lemma FailingAddition(d: Disk, m: Names, names: Path, mode: bv32, now: int)
    requires Clean(d, m) && PlainPath(names)
    ensures Mkdir(d, names, mode, now).ret != 0 ==> Clean(Mkdir(d, names, mode, now).disk, m)
    ensures Create(d, names, mode, now).ret != 0 ==> Clean(Create(d, names, mode, now).disk, m)
  {
    AdditionByName(d, m, names, mode, now);
    if ParentListed(d, m, names) && !Allocate(d).Got? {
      var n := if Allocate(d).BlocksFull? then Allocate(d).n else 0;
      FailedExits(d, Mkdir(d, names, mode, now).disk, m, n);
      FailedExits(d, Create(d, names, mode, now).disk, m, n);
    }
  }

  /**
   * A failing call changes what a path leads to if and only if it is a rename of that path onto itself; whether a
   * name was free, fitted or had a slot does not matter for this.
   */
  lemma FailureChangesIff(d: Disk, m: Names, c: Call, r: Path, i: nat)
    requires Clean(d, m) && Sensible(d, m, c) && Step(d, c).ret != 0 && PlainPath(r)
    ensures Walk(After(d, c), 0, r) == At(i) <==>
            Walk(d, 0, r) == At(i) && !(c.RenameCall? && c.from != [] && c.to != [] && r == c.from)
    ensures c.RenameCall? && c.from != [] && c.to != [] ==> c.from == c.to && Walk(d, 0, c.from).At?
  {
    FailureKeepsNames(d, m, c);
    WalkFromRoot(d, m, r);
    WalkFromRoot(After(d, c), NamesAfterFailure(m, c), r);
    if c.RenameCall? && c.from != [] && c.to != [] {
      RenameFailsIff(d, m, c.from, c.to, c.misread);
      WalkListed(d, m, c.from);
    }
  }
}
