/** What one call, or a call and its inverse, does to path resolution and to the bitmaps. */
module Effects {
  import opened Disk
  import opened Storage
  import opened Installing
  import opened Removing
  import opened Tree
  import opened MoveTree
  import opened FileSystem
  import opened Operations
  import opened Calls
  import Ledger
  import Theorems

  /** The path that a call is about; rename has two, and utimens changes none. */
  predicate Concerns(c: Call, r: Path) {
    match c
    case MkdirCall(names, _, _) => r == names
    case CreateCall(names, _, _) => r == names
    case RmdirCall(names) => r == names
    case UnlinkCall(names) => r == names
    case RenameCall(from, to, _) => from <= r || to <= r
    case UtimensCall(_, _) => false
  }

  lemma SameListingSameWalk(d: Disk, m: Names, r: Path, d': Disk, m': Names, r': Path, i: nat)
    requires Clean(d, m) && Clean(d', m') && PlainPath(r) && PlainPath(r')
    requires r in m <==> r' in m'
    requires r in m ==> m[r] == m'[r']
    ensures Walk(d', 0, r') == At(i) <==> Walk(d, 0, r) == At(i)
  {
    WalkFromRoot(d, m, r);
    WalkFromRoot(d', m', r');
  }

  lemma NamesElsewhere(d: Disk, m: Names, c: Call, r: Path)
    requires Core(d, m) && Allowed(d, m, c) && !Concerns(c, r)
    ensures r in NamesAfter(d, m, c) <==> r in m
    ensures r in m ==> NamesAfter(d, m, c)[r] == m[r]
  {
    if c.RenameCall? {
      RenamedElsewhere(d, m, c.from, c.to, r);
    }
  }

  /** Whatever blocks a call reuses, every other path leads where it led, or nowhere if it led nowhere. */
  lemma OtherPathsResolveAsBefore(d: Disk, m: Names, c: Call, r: Path, i: nat)
    requires Clean(d, m) && Allowed(d, m, c) && PlainPath(r) && !Concerns(c, r)
    ensures Walk(After(d, c), 0, r) == At(i) <==> Walk(d, 0, r) == At(i)
  {
    var d', m' := After(d, c), NamesAfter(d, m, c);
    StepCore(d, m, c, d', m');
    NamesElsewhere(d, m, c, r);
    SameListingSameWalk(d, m, r, d', m', r, i);
  }

  /** What a successful call is for: where its own path leads before, in d, and after, in d'. */
  ghost predicate Achieved(d: Disk, d': Disk, c: Call)
    requires Shape(d)
  {
    match c
    case MkdirCall(names, _, _) =>
      Allocate(d).Got? && !Walk(d, 0, names).At? && Walk(d', 0, names) == At(Allocate(d).n)
    case CreateCall(names, _, _) =>
      Allocate(d).Got? && !Walk(d, 0, names).At? && Walk(d', 0, names) == At(Allocate(d).n)
    case RmdirCall(names) => Walk(d, 0, names).At? && !Walk(d', 0, names).At?
    case UnlinkCall(names) => Walk(d, 0, names).At? && !Walk(d', 0, names).At?
    case RenameCall(from, to, _) =>
      Walk(d, 0, from).At? && !Walk(d', 0, from).At? && Walk(d', 0, to) == Walk(d, 0, from)
    case UtimensCall(names, _) => Walk(d, 0, names).At? && Walk(d', 0, names) == Walk(d, 0, names)
  }

  lemma OwnPathResolves(d: Disk, m: Names, c: Call)
    requires Clean(d, m) && Allowed(d, m, c) && Step(d, c).ret == 0
    ensures Achieved(d, After(d, c), c)
  {
    hide Spells;
    var d', m' := After(d, c), NamesAfter(d, m, c);
    StepCore(d, m, c, d', m');
    match c
    case MkdirCall(names, mode, now) =>
      MkdirLists(d, m, names, mode, now);
      WalkFromRoot(d, m, names);
      WalkFromRoot(d', m', names);
    case CreateCall(names, mode, now) =>
      CreateLists(d, m, names, mode, now);
      WalkFromRoot(d, m, names);
      WalkFromRoot(d', m', names);
    case RmdirCall(names) =>
      RmdirUnlists(d, m, names);
      WalkFromRoot(d, m, names);
      WalkFromRoot(d', m', names);
    case UnlinkCall(names) =>
      UnlinkUnlists(d, m, names);
      RootIsDirectory(d, m);
      WalkFromRoot(d, m, names);
      WalkFromRoot(d', m', names);
    case RenameCall(from, to, misread) =>
      MovedSubtreeKeepsRelativePaths(d, m, from, to, misread, [], m[from]);
      assert from + [] == from && to + [] == to;
      WalkFromRoot(d, m, from);
    case UtimensCall(names, time) =>
      UtimensCore(d, m, names, time);
      WalkFromRoot(d, m, names);
      WalkFromRoot(d', m', names);
  }

  // ---- Which inodes a call makes reachable or unreachable ----

  /** The reachable inodes after a call. */
  ghost function LiveAfter(d: Disk, m: Names, c: Call): set<nat>
    requires Core(d, m) && Allowed(d, m, c)
  {
    if Step(d, c).ret != 0 then m.Values
    else match c
         case MkdirCall(_, _, _) => m.Values + (if Allocate(d).Got? then {Allocate(d).n} else {})
         case CreateCall(_, _, _) => m.Values + (if Allocate(d).Got? then {Allocate(d).n} else {})
         case RmdirCall(names) => m.Values - (if names in m then {m[names]} else {})
         case UnlinkCall(names) => m.Values - (if names in m then {m[names]} else {})
         case RenameCall(_, to, _) => m.Values - (if to in m then {m[to]} else {})
         case UtimensCall(_, _) => m.Values
  }

  lemma DroppedValues(m: Names, r: Path)
    requires Injective(m) && r in m
    ensures (m - {r}).Values == m.Values - {m[r]} && Injective(m - {r})
  {
    var m' := m - {r};
    forall i | i in m.Values && i != m[r]
      ensures i in m'.Values
    {
      var s :| s in m && m[s] == i;
      assert m'[s] == i;
    }
    forall i | i in m'.Values
      ensures i in m.Values && i != m[r]
    {
      var s :| s in m' && m'[s] == i;
      assert m[s] == i;
    }
  }

  lemma ValuesAfterRename(d: Disk, m: Names, from: Path, to: Path)
    requires Core(d, m) && MayRename(d, m, from, to)
    ensures Renamed(m, from, to).Values == m.Values - (if to in m then {m[to]} else {})
  {
    TargetVacant(d, m, from, to);
    if to in m {
      DroppedValues(m, to);
    } else {
      assert m - {to} == m;
    }
    MovedKeys(m - {to}, from, to);
  }

  lemma ValuesAfterCall(d: Disk, m: Names, c: Call)
    requires Core(d, m) && Allowed(d, m, c)
    ensures NamesAfter(d, m, c).Values == LiveAfter(d, m, c)
  {
    match c
    case MkdirCall(names, mode, now) =>
      MkdirLists(d, m, names, mode, now);
      ValuesAfterAdding(d, m, names);
    case CreateCall(names, mode, now) =>
      CreateLists(d, m, names, mode, now);
      ValuesAfterAdding(d, m, names);
    case RmdirCall(names) =>
      RmdirUnlists(d, m, names);
      if names in m {
        DroppedValues(m, names);
      }
    case UnlinkCall(names) =>
      UnlinkUnlists(d, m, names);
      if names in m {
        DroppedValues(m, names);
      }
    case RenameCall(from, to, misread) =>
      RenameMoves(d, m, from, to, misread, Step(d, c), NamesAfter(d, m, c));
      ValuesAfterRename(d, m, from, to);
    case UtimensCall(_, _) =>
  }

  /** In particular rmdir and unlink make no other inode unreachable, whatever the removed path led through. */
  lemma ReachableAfterCall(d: Disk, m: Names, c: Call, i: nat)
    requires Clean(d, m) && Allowed(d, m, c)
    ensures Theorems.Reachable(After(d, c), i) <==> i in LiveAfter(d, m, c)
    ensures Theorems.Reachable(d, i) <==> i in m.Values
  {
    var d', m' := After(d, c), NamesAfter(d, m, c);
    StepCore(d, m, c, d', m');
    Theorems.ReachableIffListed(d, m, i);
    Theorems.ReachableIffListed(d', m', i);
    ValuesAfterCall(d, m, c);
  }

  lemma ValuesAfterAdding(d: Disk, m: Names, names: Path)
    requires Core(d, m) && names !in m
    ensures Allocate(d).Got? ==> m[names := Allocate(d).n].Values == m.Values + {Allocate(d).n}
  {
    if Allocate(d).Got? {
      Ledger.AddedValues(m, names, Allocate(d).n);
    }
  }

  lemma RenamedElsewhere(d: Disk, m: Names, from: Path, to: Path, r: Path)
    requires Core(d, m) && MayRename(d, m, from, to) && !(from <= r) && !(to <= r)
    ensures r in Renamed(m, from, to) <==> r in m
    ensures r in m ==> Renamed(m, from, to)[r] == m[r]
  {
    var m1 := m - {to};
    TargetVacant(d, m, from, to);
    if r in m {
      MovedAt(m1, from, to, r);
    }
    if r in Moved(m1, from, to) {
      var s := MovedFrom(m1, from, to, r);
      assert from <= s ==> to <= Rebase(from, to, s);
    }
  }

  /** In the new map, what is below `to` is what was below `from`, and below `from` there is nothing. */
  lemma MovedBelow(m: Names, from: Path, to: Path, tail: Path)
    requires Vacant(m, to) && from in m && !(from <= to)
    ensures to + tail in Moved(m, from, to) <==> from + tail in m
    ensures from + tail in m ==> Moved(m, from, to)[to + tail] == m[from + tail]
    ensures from + tail !in Moved(m, from, to)
  {
    var r := from + tail;
    assert r[|from|..] == tail && (to + tail)[|to|..] == tail;
    if r in m {
      MovedAt(m, from, to, r);
    }
    if to + tail in Moved(m, from, to) {
      var _ := MovedFrom(m, from, to, to + tail);
    }
    assert !(to <= r) by {
      if to <= r {
        PrefixesCompare(from, to, r);
      }
    }
    forall s | s in m
      ensures Rebase(from, to, s) != r
    {
      assert from <= s ==> to <= Rebase(from, to, s);
    }
  }

  lemma PrefixesCompare(a: Path, b: Path, r: Path)
    requires a <= r && b <= r
    ensures a <= b || b <= a
  {
  }

  /** A moved subtree keeps its relative paths: below the target is what was below the source, nothing else. */
  lemma MovedSubtreeKeepsRelativePaths(d: Disk, m: Names, from: Path, to: Path, misread: bool, tail: Path, i: nat)
    requires Clean(d, m) && MayRename(d, m, from, to) && PlainPath(tail)
    ensures var d' := Rename(d, from, to, misread).disk;
            && (Walk(d', 0, to + tail) == At(i) <==> Walk(d, 0, from + tail) == At(i))
            && !Walk(d', 0, from + tail).At?
  {
    var m', o := Renamed(m, from, to), Rename(d, from, to, misread);
    TargetVacant(d, m, from, to);
    RenameMoves(d, m, from, to, misread, o, m');
    MovedWalks(d, m, from, to, o.disk, m', tail, i);
  }

  lemma MovedWalks(d: Disk, m: Names, from: Path, to: Path, d': Disk, m': Names, tail: Path, i: nat)
    requires Clean(d, m) && PlainPath(from) && PlainPath(to) && PlainPath(tail)
    requires from in m && !(from <= to) && Vacant(m - {to}, to)
    requires m' == Moved(m - {to}, from, to) && Clean(d', m')
    ensures Walk(d', 0, to + tail) == At(i) <==> Walk(d, 0, from + tail) == At(i)
    ensures !Walk(d', 0, from + tail).At?
  {
    assert from <= from + tail;
    MovedBelow(m - {to}, from, to, tail);
    SameListingSameWalk(d, m, from + tail, d', m', to + tail, i);
    WalkFromRoot(d', m', from + tail);
  }

  // ---- What getattr reports ----

  /** A record but for its entry count, which getattr does not report. */
  function Reported(v: Inode): Inode {
    v.(dentryCount := 0)
  }

  /** A record that a creation wrote in image d; it leaves the size and the padding alone. */
  predicate IsNew(d: Disk, v: Inode, mode: bv32, now: int)
    requires Shape(d)
  {
    && Allocate(d).Got? && v.mode == mode && v.links == 2 && v.mtime == now
    && v.size == InodeAt(d, Allocate(d).n).size && v.pads == InodeAt(d, Allocate(d).n).pads
    && v.extCount == 1 && v.extBlock == d.geo.firstData + Allocate(d).e
  }

  predicate IsNewDir(d: Disk, v: Inode, mode: bv32, now: int)
    requires Shape(d)
  {
    IsNew(d, v, 0x4000 | mode, now)
  }

  predicate IsNewFile(d: Disk, v: Inode, mode: bv32, now: int)
    requires Shape(d)
  {
    IsNew(d, v, 0x8000 | mode, now)
  }

  /** The calls that write mode, links or time, and what they write. */
  ghost predicate RecordAfter(d: Disk, d': Disk, c: Call, i: nat)
    requires Shape(d)
  {
    var before, after := InodeAt(d, i), InodeAt(d', i);
    match c
    case MkdirCall(_, mode, now) =>
      Reported(after) == Reported(before) ||
      (Allocate(d).Got? && i == Allocate(d).n && IsNewDir(d, after, mode, now))
    case CreateCall(_, mode, now) =>
      Reported(after) == Reported(before) ||
      (Allocate(d).Got? && i == Allocate(d).n && IsNewFile(d, after, mode, now))
    case RmdirCall(_) => Reported(after) == Reported(before)
    case UnlinkCall(_) => Reported(after) == Reported(before)
    case RenameCall(_, _, _) => Reported(after) == Reported(before)
    case UtimensCall(names, time) =>
      after == if Walk(d, 0, names) == At(i) && i < |d.inodes| then before.(mtime := time) else before
  }

  /** On any image, a call changes what is reported of no inode but the one it creates or is asked to touch. */
  lemma RecordsAfterCall(d: Disk, c: Call, i: nat)
    requires Shape(d)
    ensures RecordAfter(d, After(d, c), c, i)
  {
    match c
    case MkdirCall(names, mode, now) =>
      AdditionRecords(d, names, mode, now, i, Mkdir(d, names, mode, now).disk, Create(d, names, mode, now).disk);
    case CreateCall(names, mode, now) =>
      AdditionRecords(d, names, mode, now, i, Mkdir(d, names, mode, now).disk, Create(d, names, mode, now).disk);
    case RmdirCall(names) => RemovalRecords(d, names, i, Rmdir(d, names).disk, Unlink(d, names).disk);
    case UnlinkCall(names) => RemovalRecords(d, names, i, Rmdir(d, names).disk, Unlink(d, names).disk);
    case RenameCall(from, to, misread) => RenameRecords(d, from, to, misread, i, Rename(d, from, to, misread).disk);
    case UtimensCall(names, time) => TimeRecords(d, names, time, i, Utimens(d, names, time).disk);
  }

  lemma TimeRecords(d: Disk, names: Path, time: int, i: nat, d': Disk)
    requires d' == Utimens(d, names, time).disk
    ensures InodeAt(d', i) == if Walk(d, 0, names) == At(i) && i < |d.inodes|
                              then InodeAt(d, i).(mtime := time) else InodeAt(d, i)
  {
  }

  lemma AdditionRecords(d: Disk, names: Path, mode: bv32, now: int, i: nat, d1: Disk, d2: Disk)
    requires Shape(d) && d1 == Mkdir(d, names, mode, now).disk && d2 == Create(d, names, mode, now).disk
    ensures Reported(InodeAt(d1, i)) == Reported(InodeAt(d, i)) ||
            (Allocate(d).Got? && i == Allocate(d).n && IsNewDir(d, InodeAt(d1, i), mode, now))
    ensures Reported(InodeAt(d2, i)) == Reported(InodeAt(d, i)) ||
            (Allocate(d).Got? && i == Allocate(d).n && IsNewFile(d, InodeAt(d2, i), mode, now))
  {
    if names != [] && ParentWalk(d, 0, names).At? {
      AdditionAtRecords(d, ParentWalk(d, 0, names).ino, Last(names), mode, now, i);
    }
  }

  lemma RenameRecords(d: Disk, from: Path, to: Path, misread: bool, i: nat, d': Disk)
    requires d' == Rename(d, from, to, misread).disk
    ensures Reported(InodeAt(d', i)) == Reported(InodeAt(d, i))
  {
    if from != [] && to != [] && Walk(d, 0, Init(from)).At? && Walk(d, 0, Init(to)).At? {
      var p, q := Walk(d, 0, Init(from)).ino, Walk(d, 0, Init(to)).ino;
      var word := TargetSaysDir(d, p, q, Last(to), misread);
      var cleared := ClearTarget(d, q, to, word);
      ClearingKeepsRecords(d, q, to, word, i, cleared);
      MoveRecords(cleared, p, Last(from), q, Last(to), i, d');
    }
  }

  lemma MoveRecords(d: Disk, p: nat, x: string, q: nat, y: string, i: nat, d': Disk)
    requires d' == MoveAt(d, p, x, q, y).disk
    ensures Reported(InodeAt(d', i)) == Reported(InodeAt(d, i))
  {
  }

  lemma AdditionAtRecords(d: Disk, p: nat, x: string, mode: bv32, now: int, i: nat)
    requires Shape(d)
    ensures var after := InodeAt(MkdirAt(d, p, x, mode, now).disk, i);
            Reported(after) == Reported(InodeAt(d, i)) ||
            (Allocate(d).Got? && i == Allocate(d).n && IsNewDir(d, after, mode, now))
    ensures var after := InodeAt(CreateAt(d, p, x, mode, now).disk, i);
            Reported(after) == Reported(InodeAt(d, i)) ||
            (Allocate(d).Got? && i == Allocate(d).n && IsNewFile(d, after, mode, now))
  {
    hide Install;
    if Allocate(d).Got? {
      InstalledRecords(d, p, x, DirMode(mode), now, i);
      InstalledRecords(d, p, x, RegMode(mode), now, i);
    }
  }

  lemma InstalledRecords(d: Disk, p: nat, x: string, mode: bv32, now: int, i: nat)
    requires Shape(d) && Allocate(d).Got?
    ensures var Got(n, e, b) := Allocate(d);
            var after := InodeAt(Install(TakeBits(d, n, e, b), p, x, n, e, b, mode, now), i);
            Reported(after) == Reported(InodeAt(d, i)) || (i == n && IsNew(d, after, mode, now))
  {
  }

  lemma RemovalRecords(d: Disk, names: Path, i: nat, d1: Disk, d2: Disk)
    requires d1 == Rmdir(d, names).disk && d2 == Unlink(d, names).disk
    ensures Reported(InodeAt(d1, i)) == Reported(InodeAt(d, i))
    ensures Reported(InodeAt(d2, i)) == Reported(InodeAt(d, i))
  {
    if names != [] && ParentWalk(d, 0, names).At? {
      var p, x := ParentWalk(d, 0, names).ino, Last(names);
      var k := Lookup(EntriesOf(d, p), x);
      if k >= 0 {
        var t := InoOf(EntriesOf(d, p)[k]);
        RemoveRecords(d, p, k, t, 2, i);
        RemoveRecords(d, p, k, t, SpanOf(d, ExtOf(d, t), ExtCount(d, t)) + 1, i);
      }
    }
  }

  lemma RemoveRecords(d: Disk, p: nat, k: int, t: nat, freed: nat, i: nat)
    ensures Reported(InodeAt(Remove(d, p, k, t, freed), i)) == Reported(InodeAt(d, i))
  {
  }

  lemma ClearingKeepsRecords(d: Disk, q: nat, to: Path, misread: bool, i: nat, d': Disk)
    requires to != [] && d' == ClearTarget(d, q, to, misread)
    ensures Reported(InodeAt(d', i)) == Reported(InodeAt(d, i))
  {
    RemovalRecords(d, to, i, Rmdir(d, to).disk, Unlink(d, to).disk);
  }

  /**
   * The inode that a successful creation made reports the requested kind and permissions: mkdir turns a mode without
   * type bits into a directory's, create keeps the mode of a regular file as it is.
   */
  lemma NewInodeReports(d: Disk, m: Names, names: Path, mode: bv32, now: int)
    requires Core(d, m) && MayAdd(d, m, names) && ParentListed(d, m, names) && Allocate(d).Got?
    ensures var v := InodeAt(Mkdir(d, names, mode, now).disk, Allocate(d).n);
            && IsNew(d, v, 0x4000 | mode, now) && v.mode & 0x0FFF == mode & 0x0FFF
            && (mode & 0xF000 == 0 || mode & 0xF000 == 0x4000 ==> v.mode & 0xF000 == 0x4000)
    ensures var v := InodeAt(Create(d, names, mode, now).disk, Allocate(d).n);
            && IsNew(d, v, 0x8000 | mode, now) && (mode & 0xF000 == 0x8000 ==> v.mode == mode)
  {
    AdditionByName(d, m, names, mode, now);
    TypeBits(mode);
  }

  lemma TypeBits(mode: bv32)
    ensures (0x4000 | mode) & 0x0FFF == mode & 0x0FFF
    ensures mode & 0xF000 == 0 || mode & 0xF000 == 0x4000 ==> (0x4000 | mode) & 0xF000 == 0x4000
    ensures mode & 0xF000 == 0x8000 ==> 0x8000 | mode == mode
  {
  }

  // ---- Creating and removing again ----

  /** The bits that a creation takes are the ones its removal gives back. */
  lemma BitsComeBack(d: Disk, d1: Disk, d2: Disk, live: set<nat>, a: Creation, k: nat)
    requires Ready(d, live, a) && Created(d, d1, a) && !d.ibits[a.n] && !d.dbits[a.e] && !d.dbits[a.b]
    requires Removed(d1, d2, a.p, k, a.n)
    ensures d2.ibits == d.ibits && d2.dbits == d.dbits
  {
    CreationNew(d, d1, live, a);
  }

  /** The entry that a creation appended goes again, and the directory's entries are as before. */
  lemma EntriesComeBack(d: Disk, m: Names, q: Path, a: Creation, d1: Disk, d2: Disk)
    requires CanAdd(d, m, q, a.x) && a.p == m[q] && Ready(d, m.Values, a) && Created(d, d1, a)
    ensures SlotOf(d1, a.p, a.x) == |EntriesOf(d, a.p)|
    ensures Removable(d1, m.Values + {a.n}, a.p, |EntriesOf(d, a.p)|, a.n)
    ensures Removed(d1, d2, a.p, |EntriesOf(d, a.p)|, a.n) ==> EntriesOf(d2, a.p) == EntriesOf(d, a.p)
  {
    hide QuietImage, Ledger.Balanced, Spells;
    var live, es := m.Values, EntriesOf(d, a.p);
    CreationParent(d, d1, live, a);
    CreationStore(d, d1, live, a);
    StepSpells(d, m, q, a.x);
    LiveIsStored(d, live, a.p);
    AppendedIsFound(es, a.x, Dentry(a.n, a.x));
    if Removed(d1, d2, a.p, |es|, a.n) {
      RemovalParent(d1, d2, live + {a.n}, a.p, |es|, a.n);
      assert Without(es + [Dentry(a.n, a.x)], |es|) == es;
    }
  }

  lemma AppendedIsFound(es: seq<Cell>, x: string, c: Cell)
    requires Lookup(es, x) == -1 && NameOf(c) == x
    ensures Lookup(es + [c], x) == |es|
  {
    forall j | 0 <= j < |es|
      ensures NameOf((es + [c])[j]) != x
    {
    }
    assert NameOf((es + [c])[|es|]) == x;
  }

  /**
   * A successful mkdir or create and then rmdir of the same path: both bitmaps bit for bit, both counters, the
   * parent's entries and the name map are back, so the next creation takes the same inode and blocks.
   */
  lemma CreateThenRemove(d: Disk, m: Names, q: Path, a: Creation, d1: Disk, d2: Disk)
    requires CanAdd(d, m, q, a.x) && a.p == m[q] && Allocate(d) == Got(a.n, a.e, a.b)
    requires a.dots == (a.mode & 0x4000 != 0)
    requires d1 == Installed(d, a) && d2 == RmdirAt(d1, a.p, a.x).disk
    ensures RmdirAt(d1, a.p, a.x).ret == 0
    ensures d2.ibits == d.ibits && d2.dbits == d.dbits
    ensures d2.freeInodes == d.freeInodes && d2.freeBlocks == d.freeBlocks
    ensures EntriesOf(d2, a.p) == EntriesOf(d, a.p)
    ensures Core(d2, m) && Allocate(d2) == Allocate(d)
  {
    var m1 := m[q + [a.x] := a.n];
    CreationByPlan(d, m, q, a, d1, m1);
    RemovedAfterPlan(d, m, q, a, d1, d2, m1);
  }

  lemma CreationByPlan(d: Disk, m: Names, q: Path, a: Creation, d1: Disk, m1: Names)
    requires CanAdd(d, m, q, a.x) && a.p == m[q] && Allocate(d) == Got(a.n, a.e, a.b)
    requires a.dots == (a.mode & 0x4000 != 0) && d1 == Installed(d, a) && m1 == m[q + [a.x] := a.n]
    ensures Ready(d, m.Values, a) && Created(d, d1, a) && Core(d1, m1)
    ensures !d.ibits[a.n] && !d.dbits[a.e] && !d.dbits[a.b]
  {
    AllocationIsFresh(d, m.Values, a.n, a.e, a.b);
    LiveIsStored(d, m.Values, a.p);
    ReadyIsPlaced(d, m.Values, a);
    InstalledCreates(d, a);
    CreationCore(d, d1, m, m1, q, a);
  }

  lemma RemovedAfterPlan(d: Disk, m: Names, q: Path, a: Creation, d1: Disk, d2: Disk, m1: Names)
    requires CanAdd(d, m, q, a.x) && a.p == m[q] && Ready(d, m.Values, a) && Created(d, d1, a)
    requires !d.ibits[a.n] && !d.dbits[a.e] && !d.dbits[a.b]
    requires Core(d1, m1) && m1 == m[q + [a.x] := a.n] && d1 == Installed(d, a) && d2 == RmdirAt(d1, a.p, a.x).disk
    ensures RmdirAt(d1, a.p, a.x).ret == 0 && Core(d2, m)
    ensures d2.ibits == d.ibits && d2.dbits == d.dbits
    ensures d2.freeInodes == d.freeInodes && d2.freeBlocks == d.freeBlocks
    ensures EntriesOf(d2, a.p) == EntriesOf(d, a.p) && d2.geo == d.geo
  {
    hide Core, CanAdd;
    var k := |EntriesOf(d, a.p)|;
    EntriesComeBack(d, m, q, a, d1, d2);
    RemovalOfCreation(d, m, q, a, d1, d2, m1);
    RemoveRemoves(d1, m.Values + {a.n}, a.p, k, a.n, 2);
    BitsComeBack(d, d1, d2, m.Values, a, k);
  }

  lemma RemovalOfCreation(d: Disk, m: Names, q: Path, a: Creation, d1: Disk, d2: Disk, m1: Names)
    requires CanAdd(d, m, q, a.x) && a.p == m[q] && Ready(d, m.Values, a) && Created(d, d1, a)
    requires Core(d1, m1) && m1 == m[q + [a.x] := a.n] && d2 == RmdirAt(d1, a.p, a.x).disk
    ensures RmdirAt(d1, a.p, a.x) == Outcome(Remove(d1, a.p, |EntriesOf(d, a.p)|, a.n, 2), 0)
    ensures Core(d2, m)
  {
    CreationParent(d, d1, m.Values, a);
    EntriesComeBack(d, m, q, a, d1, d2);
    assert InodeAt(d1, a.n).dentryCount == 2;
    assert |q + [a.x]| > |q|;
    StepSpells(d1, m1, q, a.x);
    RemovalCore(d1, m1, q, a.x, 2);
    AddThenDrop(m, q + [a.x], a.n);
  }

  lemma AddThenDrop(m: Names, r: Path, n: nat)
    requires r !in m
    ensures m[r := n] - {r} == m
  {
  }

  /** What is back after a creation was undone. */
  ghost predicate Restored(d: Disk, d2: Disk, m: Names, p: nat) {
    && Core(d2, m) && d2.ibits == d.ibits && d2.dbits == d.dbits
    && d2.freeInodes == d.freeInodes && d2.freeBlocks == d.freeBlocks
    && EntriesOf(d2, p) == EntriesOf(d, p) && Shape(d) && Allocate(d2) == Allocate(d)
  }

  lemma CreationByName(d: Disk, m: Names, names: Path, a: Creation, d1: Disk)
    requires Core(d, m) && MayAdd(d, m, names) && ParentListed(d, m, names)
    requires a.p == m[Init(names)] && a.x == Last(names) && Allocate(d) == Got(a.n, a.e, a.b)
    requires a.dots == (a.mode & 0x4000 != 0) && d1 == Installed(d, a)
    ensures Rmdir(d1, names).ret == 0 && Restored(d, Rmdir(d1, names).disk, m, a.p)
    ensures !a.dots ==> Unlink(d1, names) == Rmdir(d1, names)
  {
    var m1 := m[names := a.n];
    ParentOf(d, m, names);
    CreatedIsListed(d, m, names, a, d1, m1);
    RemovalByName(d1, m1, names);
    CreateThenRemove(d, m, Init(names), a, d1, Rmdir(d1, names).disk);
    if !a.dots {
      UnlinkUnlists(d1, m1, names);
    }
  }

  lemma CreatedIsListed(d: Disk, m: Names, names: Path, a: Creation, d1: Disk, m1: Names)
    requires Core(d, m) && MayAdd(d, m, names) && ParentListed(d, m, names) && m1 == m[names := a.n]
    requires a.p == m[Init(names)] && a.x == Last(names) && Allocate(d) == Got(a.n, a.e, a.b)
    requires a.dots == (a.mode & 0x4000 != 0) && d1 == Installed(d, a)
    ensures Core(d1, m1) && ParentListed(d1, m1, names) && m1[Init(names)] == a.p && IsDir(d1, a.n) == a.dots
  {
    ParentOf(d, m, names);
    CreationCore(d, d1, m, m1, Init(names), a);
    AllocationIsFresh(d, m.Values, a.n, a.e, a.b);
    ReadyIsPlaced(d, m.Values, a);
    InstalledCreates(d, a);
    CreationParent(d, d1, m.Values, a);
    CreationNew(d, d1, m.Values, a);
    assert |Init(names)| < |names|;
  }

  /** mkdir, then rmdir of the same path. */
  lemma MkdirRmdirRoundTrip(d: Disk, m: Names, names: Path, mode: bv32, now: int)
    requires Core(d, m) && MayAdd(d, m, names) && Mkdir(d, names, mode, now).ret == 0
    ensures ParentListed(d, m, names)
    ensures var o := Rmdir(Mkdir(d, names, mode, now).disk, names);
            o.ret == 0 && Restored(d, o.disk, m, m[Init(names)])
  {
    MkdirLists(d, m, names, mode, now);
    ParentOf(d, m, names);
    ModeKinds(mode);
    var p, x := m[Init(names)], Last(names);
    SuccessIsInstalled(d, p, x, mode, now);
    CreationByName(d, m, names, Planned(d, p, x, DirMode(mode), now, true), Mkdir(d, names, mode, now).disk);
  }

  /** create, then unlink of the same path. */
  lemma CreateUnlinkRoundTrip(d: Disk, m: Names, names: Path, mode: bv32, now: int)
    requires Core(d, m) && MayAdd(d, m, names) && IsRegMode(mode) && Create(d, names, mode, now).ret == 0
    ensures ParentListed(d, m, names)
    ensures var o := Unlink(Create(d, names, mode, now).disk, names);
            o.ret == 0 && Restored(d, o.disk, m, m[Init(names)])
  {
    CreateLists(d, m, names, mode, now);
    ParentOf(d, m, names);
    ModeKinds(mode);
    var p, x := m[Init(names)], Last(names);
    SuccessIsInstalled(d, p, x, mode, now);
    CreationByName(d, m, names, Planned(d, p, x, RegMode(mode), now, false), Create(d, names, mode, now).disk);
  }
}
