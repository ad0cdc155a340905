/** The mapped image: the file system calls as they work on it in place. */
module ImageFile {
  import opened Bitmap
  import opened Paths
  import opened Disk
  import opened Storage
  import opened Tree
  import opened FileSystem
  import opened Calls
  import opened Ledger
  import opened Mkfs
  import opened Runs

  const PATH_MAX := 4096
  const ENAMETOOLONG := 36

  /** What getattr fills in of a struct stat: the size stays 0, and of the time the seconds are reported. */
  datatype Stat = Stat(mode: bv32, nlink: nat, size: nat, mtime: int)

  datatype StatVfs = StatVfs(bsize: nat, frsize: nat, blocks: nat, bfree: int, bavail: int,
                             files: nat, ffree: nat, favail: nat, namemax: nat)

  /** The seconds of a timespec, its first eight bytes, as a signed number. */
  function Seconds(time: int): (s: int)
    ensures -0x8000_0000_0000_0000 <= s < 0x8000_0000_0000_0000 && (time - s) % 0x1_0000_0000_0000_0000 == 0
  {
    var low := time % 0x1_0000_0000_0000_0000;
    if low < 0x8000_0000_0000_0000 then low else low - 0x1_0000_0000_0000_0000
  }

  lemma SameBehind(before: seq<bv32>, after: seq<bv32>, hi: nat, a: nat, b: nat)
    requires hi <= a <= b <= |before| == |after| && before[hi..] == after[hi..]
    ensures before[a..b] == after[a..b]
  {
    forall k | a <= k < b
      ensures before[k] == after[k]
    {
      assert before[hi..][k - hi] == after[hi..][k - hi];
    }
  }

  lemma SameBefore(before: seq<bv32>, after: seq<bv32>, lo: nat, a: nat, b: nat)
    requires a <= b <= lo <= |before| == |after| && before[..lo] == after[..lo]
    ensures before[a..b] == after[a..b]
  {
    forall k | a <= k < b
      ensures before[k] == after[k]
    {
      assert before[..lo][k] == after[..lo][k];
    }
  }

  lemma BitRolledBack(bits: seq<bool>, e: nat)
    requires e < |bits| && !bits[e]
    ensures PutBit(PutBit(bits, e, true), e, false) == bits
  {
  }

  lemma ShiftedSlots(before: seq<Cell>, after: seq<Cell>, at: nat, k: nat, n: nat)
    requires k < n && at + n <= |before| == |after|
    requires forall c :: at + k <= c < at + n - 1 ==> after[c] == before[c + 1]
    requires forall c :: 0 <= c < |before| && !(at + k <= c < at + n - 1) ==> after[c] == before[c]
    ensures after == Shifted(before, at, k, n)
  {
  }

  /** Shifting reads nothing that freeing writes. */
  lemma RemovedInSteps(d: Disk, s: Disk, d': Disk, p: nat, k: nat, t: nat, freed: nat)
    requires s == d.(dbits := FreeAll(d, t), freeBlocks := d.freeBlocks + freed, ibits := PutBit(d.ibits, t, false))
    requires d' == ShiftOut(s, p, k).(inodes := PutInode(s.inodes, p, AddDentries(InodeAt(s, p), -1)),
                                      freeInodes := s.freeInodes + 1)
    ensures d' == Remove(d, p, k, t, freed)
  {
    assert DataOf(s, p) == DataOf(d, p) by {
      assert CellAt(s, SLOTS * ExtOf(d, p)) == CellAt(d, SLOTS * ExtOf(d, p));
    }
  }

  lemma MovedInSteps(d: Disk, shifted: Disk, d': Disk, p: nat, k: nat, q: nat, y: string)
    requires var first := SLOTS * DataOf(d, p);
             var copied := PutCell(d.cells, EntrySlot(d, q), Dentry(InoOf(CellAt(d, first + k)), y));
             shifted == d.(cells := Shifted(copied, first, k, InodeAt(d, p).dentryCount))
    requires var fewer := PutInode(shifted.inodes, p, AddDentries(InodeAt(shifted, p), -1));
             d' == shifted.(inodes := PutInode(fewer, q, AddDentries(InodeAt(shifted.(inodes := fewer), q), 1)))
    ensures d' == Move(d, p, k, q, y)
  {
  }

  /** What the walks know about the names behind the current one. */
  lemma TailOfNames(rest: Path, x: string)
    requires PlainPath(rest) && rest != [] && rest[0] == x
    ensures PlainPath(rest[1..]) && Plain(x) && rest == [x] + rest[1..]
    ensures Last(rest) == if rest[1..] == [] then x else Last(rest[1..])
  {
  }

  /** First fit, step by step. */
  lemma AllocatedInSteps(d: Disk, n: int, pair: Option<(nat, nat)>)
    requires Shape(d) && n == FirstFree(d.ibits, d.geo.inodeCount)
    requires n >= 0 ==> pair == FreePair(d.dbits, d.geo.dblockCount)
    ensures Allocate(d) == if n < 0 then InodesFull
                           else if pair == None then BlocksFull(n)
                           else Got(n, pair.value.0, pair.value.1)
  {
  }

  /** A clean image whose counters are exact, apart from what the tally says. */
  ghost predicate Kept(d: Disk, m: Names, t: Tally) {
    Clean(d, m) && Balanced(d, m.Values, t)
  }

  class Image {
    const geo: SoundGeometry
    const words: array<bv32>      // the metadata blocks, as words: the bitmaps are read and written here
    const inodes: array<Inode>    // the inode table, as records
    const cells: array<Cell>      // the data region
    var freeInodes: int
    var freeBlocks: int
    ghost var disk: Disk          // the state of the image as a value
    ghost var names: Names        // the paths the image spells
    ghost var tally: Tally        // inode bits that were lost, and how far the inode counter is off

    function IbLo(): nat { WORDS * geo.firstIb }
    function IbHi(): nat { WORDS * (geo.firstIb + geo.ibCount) }
    function DbLo(): nat { WORDS * geo.firstDb }
    function DbHi(): nat { WORDS * (geo.firstDb + geo.dbCount) }

    /** The regions have the sizes that the superblock says, and disk is what the bytes denote. */
    ghost predicate Rep()
      reads this`disk, this`freeInodes, this`freeBlocks, words, inodes, cells
    {
      && (words as object != inodes && words as object != cells)
      && (words.Length, inodes.Length, cells.Length) == RegionLengths(geo)
      && disk == Disk(geo, freeInodes, freeBlocks, Bits(words[IbLo()..IbHi()]), Bits(words[DbLo()..DbHi()]),
                      inodes[..], cells[..])
    }

    ghost predicate Valid()
      reads this, words, inodes, cells
    {
      Rep() && Tiles(geo) && Kept(disk, names, tally)
    }

    // ---- mkfs ----

    /** Format the image that consists of these regions, whatever they held. */
    constructor Mkfs(size: nat, nInodes: nat, words: array<bv32>, inodes: array<Inode>, cells: array<Cell>)
      requires nInodes > 0 && DataBlocks(size, nInodes) >= 2
      requires words as object != inodes && words as object != cells
      requires (words.Length, inodes.Length, cells.Length) == RegionLengths(Layout(size, nInodes))
      modifies words, inodes, cells
      ensures Rep() && geo == Layout(size, nInodes)
      ensures this.words == words && this.inodes == inodes && this.cells == cells
      ensures disk == FormattedFrom(geo, old(words[..]), ClearedRecords(geo, old(inodes[..])), old(cells[..]))
      ensures names == RootOnly && tally == Tally(0, 0)
      ensures (CleanImage(geo, old(words[..]), old(inodes[..]), old(cells[..])) &&
               QuietLeftovers(geo, old(cells[..]))) ==> Valid()
    {
      hide CleanImage;
      LayoutIsSized(size, nInodes, words[..]);
      var g := Layout(size, nInodes);
      geo := g;
      this.words, this.inodes, this.cells := words, inodes, cells;
      freeInodes, freeBlocks := g.inodeCount - 1, g.dblockCount - 2;
      names, tally := RootOnly, Tally(0, 0);
      new;
      Format();
    }

    lemma FreshIsValid(ws: seq<bv32>, records: seq<Inode>, data: seq<Cell>)
      requires |ws| == WORDS * geo.firstData && |data| == SLOTS * geo.dblockCount
      requires Rep() && disk == FormattedFrom(geo, ws, ClearedRecords(geo, records), data) && names == RootOnly
      requires Tiles(geo) && tally == Tally(0, 0)
      ensures CleanImage(geo, ws, records, data) && QuietLeftovers(geo, data) ==> Valid()
    {
      if CleanImage(geo, ws, records, data) && QuietLeftovers(geo, data) {
        StartOfRun(geo, ws, ClearedRecords(geo, records), data);
      }
    }

    /** Everything but the superblock. */
    method Format()
      requires words as object != inodes && words as object != cells
      requires (words.Length, inodes.Length, cells.Length) == RegionLengths(geo) && Tiles(geo) && Addressable(geo)
      requires freeInodes == geo.inodeCount - 1 && freeBlocks == geo.dblockCount - 2
      requires names == RootOnly && tally == Tally(0, 0)
      modifies this`disk, words, inodes, cells
      ensures Rep()
      ensures disk == FormattedFrom(geo, old(words[..]), ClearedRecords(geo, old(inodes[..])), old(cells[..]))
      ensures (CleanImage(geo, old(words[..]), old(inodes[..]), old(cells[..])) &&
               QuietLeftovers(geo, old(cells[..]))) ==> Valid()
    {
      ghost var ws, records, data := words[..], inodes[..], cells[..];
      Clear();
      WriteRoot();
      FreshIsValid(ws, records, data);
    }

    /** The clearing loops, after which the bytes denote a state without a root. */
    method Clear()
      requires words as object != inodes && words as object != cells
      requires (words.Length, inodes.Length, cells.Length) == RegionLengths(geo) && Tiles(geo) && Addressable(geo)
      requires freeInodes == geo.inodeCount - 1 && freeBlocks == geo.dblockCount - 2
      modifies this`disk, words, inodes
      ensures Rep() && disk == Unrooted(geo, old(words[..]), ClearedRecords(geo, old(inodes[..])), old(cells[..]))
    {
      ClearBitmaps(words, geo);
      ClearRecords(inodes, geo);
      ghost var w := Cleared(geo, old(words[..]));
      assert words[IbLo()..IbHi()] == IbWords(geo, w) && words[DbLo()..DbHi()] == DbWords(geo, w);
      disk := Unrooted(geo, old(words[..]), inodes[..], cells[..]);
    }

    /** init_inode and init_root: the record and the bits first, then extent and entries. */
    method WriteRoot()
      requires Rep()
      modifies this`disk, words, inodes, cells
      ensures Rep() && disk == WithRoot(old(disk))
    {
      PutInodeAt(0, RootInode(inodes[0], geo));
      TakeRootBits();
      WriteRootCells();
    }

    method TakeRootBits()
      requires Rep()
      modifies this`disk, words
      ensures Rep() && disk == old(disk).(ibits := PutBit(old(disk).ibits, 0, true),
                                          dbits := PutBit(PutBit(old(disk).dbits, 0, true), 1, true))
    {
      InodeBitOn(0);
      DataBitOn(0);
      DataBitOn(1);
    }

    method WriteRootCells()
      requires Rep()
      modifies this`disk, cells
      ensures Rep() && disk == old(disk).(cells := RootCells(old(disk)))
    {
      PutCellAt(0, WithExtent(cells[0], Extent(geo.firstData + 1, 1)));
      PutCellAt(SLOTS, Dentry(0, "."));
      PutCellAt(SLOTS + 1, Dentry(0, ".."));
    }

    // ---- Single writes ----

    method InodeBitOn(i: nat)
      requires Rep() && i < geo.inodeCount
      modifies this`disk, words
      ensures Rep() && disk == old(disk).(ibits := PutBit(old(disk).ibits, i, true))
    {
      ghost var before := words[..];
      SetBitOn(words, IbLo(), IbHi(), i);
      SameBehind(before, words[..], IbHi(), DbLo(), DbHi());
      disk := disk.(ibits := disk.ibits[i := true]);
    }

    method InodeBitOff(i: nat)
      requires Rep() && i < geo.inodeCount
      modifies this`disk, words
      ensures Rep() && disk == old(disk).(ibits := PutBit(old(disk).ibits, i, false))
    {
      ghost var before := words[..];
      SetBitOff(words, IbLo(), IbHi(), i);
      SameBehind(before, words[..], IbHi(), DbLo(), DbHi());
      disk := disk.(ibits := disk.ibits[i := false]);
    }

    method DataBitOn(b: nat)
      requires Rep() && b < geo.dblockCount
      modifies this`disk, words
      ensures Rep() && disk == old(disk).(dbits := PutBit(old(disk).dbits, b, true))
    {
      ghost var before := words[..];
      SetBitOn(words, DbLo(), DbHi(), b);
      SameBefore(before, words[..], DbLo(), IbLo(), IbHi());
      disk := disk.(dbits := disk.dbits[b := true]);
    }

    method DataBitOff(b: nat)
      requires Rep() && b < geo.dblockCount
      modifies this`disk, words
      ensures Rep() && disk == old(disk).(dbits := PutBit(old(disk).dbits, b, false))
    {
      ghost var before := words[..];
      SetBitOff(words, DbLo(), DbHi(), b);
      SameBefore(before, words[..], DbLo(), IbLo(), IbHi());
      disk := disk.(dbits := disk.dbits[b := false]);
    }

    method PutInodeAt(i: nat, v: Inode)
      requires Rep() && i < inodes.Length
      modifies this`disk, inodes
      ensures Rep() && disk == old(disk).(inodes := PutInode(old(disk).inodes, i, v))
    {
      inodes[i] := v;
      disk := disk.(inodes := disk.inodes[i := v]);
    }

    method PutCellAt(at: nat, c: Cell)
      requires Rep() && at < cells.Length
      modifies this`disk, cells
      ensures Rep() && disk == old(disk).(cells := PutCell(old(disk).cells, at, c))
    {
      cells[at] := c;
      disk := disk.(cells := disk.cells[at := c]);
    }

    method AddFreeInodes(n: int)
      requires Rep()
      modifies this`disk, this`freeInodes
      ensures Rep() && disk == old(disk).(freeInodes := old(disk).freeInodes + n)
    {
      freeInodes := freeInodes + n;
      disk := disk.(freeInodes := freeInodes);
    }

    method AddFreeBlocks(n: int)
      requires Rep()
      modifies this`disk, this`freeBlocks
      ensures Rep() && disk == old(disk).(freeBlocks := old(disk).freeBlocks + n)
    {
      freeBlocks := freeBlocks + n;
      disk := disk.(freeBlocks := freeBlocks);
    }

    // ---- Reading ----

    lemma ListedIsReadable(q: Path)
      requires Valid() && q in names
      ensures Readable(disk, names[q]) && Stored(disk, names[q])
    {
      ListedNode(disk, names, q);
    }

    /** The first slot of inode i's entries, as a cell number. */
    method FirstSlot(i: nat) returns (at: nat)
      requires Rep() && Readable(disk, i)
      ensures at == SLOTS * DataOf(disk, i)
    {
      var extents := cells[SLOTS * (inodes[i].extBlock - geo.firstData)];
      at := SLOTS * (extents.list[0].start - geo.firstData);
    }

    /** The scan of a directory for a name: the slot, or -1. */
    method FindEntry(i: nat, x: string) returns (k: int)
      requires Rep() && Readable(disk, i)
      ensures k == Lookup(EntriesOf(disk, i), x)
    {
      var at := FirstSlot(i);
      ghost var es := EntriesOf(disk, i);
      for j := 0 to inodes[i].dentryCount
        invariant Lookup(es, x) == LookupFrom(es, x, j)
      {
        SlotIsEntry(i, at, j);
        var name := NameOf(cells[at + j]);
        if name == x {
          return j;
        }
      }
      return -1;
    }

    lemma SlotIsEntry(i: nat, at: nat, j: nat)
      requires Rep() && Readable(disk, i) && at == SLOTS * DataOf(disk, i) && j < InodeAt(disk, i).dentryCount
      ensures at + j < cells.Length && j < |EntriesOf(disk, i)| && EntriesOf(disk, i)[j] == cells[at + j]
    {
    }

    /** The inode number in a live slot. */
    method EntryIno(i: nat, k: nat) returns (ino: nat)
      requires Rep() && Readable(disk, i) && k < inodes[i].dentryCount
      ensures k < |EntriesOf(disk, i)| && ino == InoOf(EntriesOf(disk, i)[k])
    {
      var at := FirstSlot(i);
      assert EntriesOf(disk, i)[k] == cells[at + k];
      ino := InoOf(cells[at + k]);
    }

    // ---- The three walks ----

    /**
     * One turn of the walks of getattr, utimens and find_inode_from_path at inode cur: the directory check, from
     * which the last component is exempt, and the scan. w is the next inode, or why the walk stops.
     */
    method Turn(cur: nat, x: string, last: bool, ghost q: Path, ghost rest: Path) returns (w: Walked)
      requires Valid() && q in names && names[q] == cur && Plain(x) && last == (rest == [])
      ensures !w.At? ==> Walk(disk, cur, [x] + rest) == w
      ensures w.At? ==> Walk(disk, cur, [x] + rest) == Walk(disk, w.ino, rest)
      ensures w.At? ==> q + [x] in names && names[q + [x]] == w.ino
    {
      ListedIsReadable(q);
      WalkStep(disk, names, q, x, rest);
      if !inodes[cur].IsDir() && !last {
        return NotDir;
      }
      var k := FindEntry(cur, x);
      if k == -1 {
        return NoEntry;
      }
      var ino := EntryIno(cur, k);
      return At(ino);
    }

    /** The walk of getattr and utimens: up to the inode of the last component. */
    method WalkPath(path: string) returns (w: Walked)
      requires Valid() && WellFormed(path) && PlainPath(Tokens(path))
      ensures w == Walk(disk, 0, Tokens(path))
    {
      ghost var goal := Walk(disk, 0, Tokens(path));
      var curfix: Option<string>, pos: nat := StrTok(path, 0);
      var fixCount: int := NumEntryName(path);
      var curFixIndex: int := 1;
      w := At(0);
      ghost var q: Path, rest: Path := [], Tokens(path);
      while curfix.Some?
        invariant pos <= |path| && rest == (if curfix.Some? then [curfix.value] + TokensFrom(path, pos) else [])
        invariant fixCount - curFixIndex == |rest| - 1
        invariant w.At? && q in names && names[q] == w.ino && PlainPath(rest)
        invariant Walk(disk, w.ino, rest) == goal
        decreases |rest|
      {
        TailOfNames(rest, curfix.value);
        w := Turn(w.ino, curfix.value, fixCount == curFixIndex, q, rest[1..]);
        if !w.At? {
          return;
        }
        curFixIndex := curFixIndex + 1;
        q, rest := q + [curfix.value], rest[1..];
        curfix, pos := StrTok(path, pos);
      }
    }

    /** find_inode_from_path: stops as soon as the last component is found and returns the number in its entry. */
    method FindInodeFromPath(path: string) returns (ret: int)
      requires Valid() && WellFormed(path) && PlainPath(Tokens(path))
      ensures ret == FindInode(disk, Tokens(path))
    {
      ghost var goal := Walk(disk, 0, Tokens(path));
      var curfix: Option<string>, pos: nat := StrTok(path, 0);
      var fixCount: int := NumEntryName(path);
      var curFixIndex: int := 1;
      var cur: nat := 0;
      ghost var q: Path, rest: Path := [], Tokens(path);
      ListedIsReadable([]);
      var at := FirstSlot(0);
      var dentryIno := InoOf(cells[at]);
      while curfix.Some?
        invariant pos <= |path| && rest == (if curfix.Some? then [curfix.value] + TokensFrom(path, pos) else [])
        invariant fixCount - curFixIndex == |rest| - 1
        invariant q in names && names[q] == cur && PlainPath(rest)
        invariant Walk(disk, cur, rest) == goal
        invariant if Tokens(path) == [] then rest == [] && dentryIno == FindInode(disk, []) else rest != []
        decreases |rest|
      {
        TailOfNames(rest, curfix.value);
        var w := Turn(cur, curfix.value, fixCount == curFixIndex, q, rest[1..]);
        if !w.At? {
          return if w.NotDir? then -ENOTDIR else -1;
        }
        cur, dentryIno := w.ino, w.ino;
        if fixCount == curFixIndex {
          break;
        }
        curFixIndex := curFixIndex + 1;
        q, rest := q + [curfix.value], rest[1..];
        curfix, pos := StrTok(path, pos);
      }
      return dentryIno;
    }

    /**
     * The walk of mkdir, create, rmdir and unlink: it checks every directory it is about to search, the parent
     * included, and stops there; curfix is the last component, or nothing for the root.
     */
    method WalkToParent(path: string) returns (w: Walked, curfix: Option<string>)
      requires Valid() && WellFormed(path) && PlainPath(Tokens(path))
      ensures Tokens(path) == [] ==> curfix == None
      ensures Tokens(path) != [] ==> curfix.Some? && w == ParentWalk(disk, 0, Tokens(path))
      ensures w.At? && curfix.Some? ==> curfix.value == Last(Tokens(path))
    {
      var pos: nat;
      curfix, pos := StrTok(path, 0);
      var fixCount: int := NumEntryName(path);
      var curFixIndex: int := 1;
      w := At(0);
      ghost var q: Path, rest: Path := [], Tokens(path);
      RootIsDirectory(disk, names);
      while curfix.Some?
        invariant pos <= |path| && rest == (if curfix.Some? then [curfix.value] + TokensFrom(path, pos) else [])
        invariant fixCount - curFixIndex == |rest| - 1
        invariant w.At? && q in names && names[q] == w.ino && PlainPath(rest)
        invariant Tokens(path) == [] <==> rest == []
        invariant rest != [] ==> Last(rest) == Last(Tokens(path))
                                 && ParentWalk(disk, w.ino, rest) == ParentWalk(disk, 0, Tokens(path))
        decreases |rest|
      {
        TailOfNames(rest, curfix.value);
        var next := ParentTurn(w.ino, curfix.value, fixCount == curFixIndex, q, rest[1..]);
        if !next.At? {
          w := next;
          return;
        }
        if fixCount == curFixIndex {
          return;
        }
        curFixIndex := curFixIndex + 1;
        w := next;
        q, rest := q + [curfix.value], rest[1..];
        curfix, pos := StrTok(path, pos);
      }
    }

    /** One turn of it: the inode to go on from, cur itself at the last component. */
    method ParentTurn(cur: nat, x: string, last: bool, ghost q: Path, ghost rest: Path) returns (w: Walked)
      requires Valid() && q in names && names[q] == cur && Plain(x) && last == (rest == [])
      ensures !w.At? || last ==> ParentWalk(disk, cur, [x] + rest) == w
      ensures w.At? && last ==> w.ino == cur
      ensures w.At? && !last ==> ParentWalk(disk, cur, [x] + rest) == ParentWalk(disk, w.ino, rest)
      ensures w.At? && !last ==> q + [x] in names && names[q + [x]] == w.ino
    {
      ListedIsReadable(q);
      WalkStep(disk, names, q, x, rest);
      assert ([x] + rest)[1..] == rest;
      if !inodes[cur].IsDir() {
        return NotDir;
      }
      if last {
        return At(cur);
      }
      var k := FindEntry(cur, x);
      if k == -1 {
        return NoEntry;
      }
      var ino := EntryIno(cur, k);
      return At(ino);
    }

    // ---- getattr, readdir, statfs, utimens ----

    /** getattr: -ENAMETOOLONG, -ENOTDIR, -ENOENT, or 0 and the mode, the links and the seconds of the inode's time. */
    method GetAttr(path: string) returns (ret: int, st: Stat)
      requires Valid() && WellFormed(path) && PlainPath(Tokens(path))
      ensures |path| >= 4096 ==> ret == -36
      ensures |path| < 4096 ==>
                match Walk(disk, 0, Tokens(path))
                case At(i) =>
                  var v := InodeAt(disk, i); ret == 0 && st == Stat(v.mode, v.links, 0, Seconds(v.mtime))
                case NotDir => ret == -20 && st == Stat(0, 0, 0, 0)
                case NoEntry => ret == -2 && st == Stat(0, 0, 0, 0)
    {
      st := Stat(0, 0, 0, 0);
      if |path| >= PATH_MAX {
        return -ENAMETOOLONG, st;
      }
      var w := WalkPath(path);
      match w
      case NotDir => return -ENOTDIR, st;
      case NoEntry => return -ENOENT, st;
      case At(i) =>
        WalkFromRoot(disk, names, Tokens(path));
        ListedIsReadable(Tokens(path));
        return 0, Stat(inodes[i].mode, inodes[i].links, 0, Seconds(inodes[i].mtime));
    }

    /** readdir: the names passed to the filler, in slot order. */
    method ReadDir(path: string) returns (ret: int, listing: seq<string>)
      requires Valid() && WellFormed(path) && PlainPath(Tokens(path))
      ensures ret == if FindInode(disk, Tokens(path)) < 0 then 1 else 0
      ensures ret == 0 ==> listing == NamesOf(EntriesOf(disk, FindInode(disk, Tokens(path))))
    {
      listing := [];
      var ino := FindInodeFromPath(path);
      if ino < 0 {
        return 1, [];
      }
      FindIsWalk(disk, names, Tokens(path));
      ListedIsReadable(Tokens(path));
      listing := ListSlots(ino);
      return 0, listing;
    }

    method ListSlots(ino: nat) returns (listing: seq<string>)
      requires Rep() && Readable(disk, ino)
      ensures listing == NamesOf(EntriesOf(disk, ino))
    {
      listing := [];
      var at := FirstSlot(ino);
      ghost var es := EntriesOf(disk, ino);
      for j := 0 to inodes[ino].dentryCount
        invariant listing == NamesOf(es[..j])
      {
        assert es[j] == cells[at + j] && es[..j + 1] == es[..j] + [es[j]];
        listing := listing + [NameOf(cells[at + j])];
      }
      assert es[..|es|] == es;
    }

    /**
     * statfs: the free blocks are the clear data bits and all but two for each listed inode; the free inodes are the
     * clear inode bits and all but the listed ones, apart from what went astray, and less than none is a huge number.
     */
    method StatFs() returns (ret: int, st: StatVfs)
      requires Valid()
      ensures ret == 0 && st.bsize == st.frsize == 4096 && st.namemax == 252
      ensures st.blocks == geo.size / 4096 == geo.firstData + geo.dblockCount && st.files == geo.inodeCount
      ensures st.bavail == st.bfree == ClearBlocks(disk) == geo.dblockCount - 2 * |names.Values|
      ensures st.favail == st.ffree == (ClearInodes(disk) - tally.drift) % 0x1_0000_0000_0000_0000
      ensures ClearInodes(disk) == geo.inodeCount - |names.Values| - tally.leaked
    {
      var ffree := freeInodes % 0x1_0000_0000_0000_0000;
      return 0, StatVfs(BLOCK, BLOCK, geo.size / BLOCK, freeBlocks, freeBlocks, geo.inodeCount, ffree, ffree, NAME_MAX);
    }

    method SetTime(path: string, time: int) returns (ret: int)
      requires Valid() && WellFormed(path) && PlainPath(Tokens(path))
      modifies this`disk, inodes
      ensures Rep()
      ensures Outcome(disk, ret) == Utimens(old(disk), Tokens(path), time)
      ensures Valid()
    {
      ghost var d, tokens := disk, Tokens(path);
      var w := WalkPath(path);
      match w
      case NotDir => return -ENOTDIR;
      case NoEntry => return -ENOENT;
      case At(i) =>
        WalkFromRoot(d, names, tokens);
        ListedIsReadable(tokens);
        PutInodeAt(i, inodes[i].(mtime := time));
        TouchedByName(d, names, tally, tokens, i, time, Outcome(disk, 0));
        return 0;
    }

    lemma TouchedByName(d: Disk, m: Names, t: Tally, path: Path, i: nat, time: int, o: Outcome)
      requires Kept(d, m, t) && PlainPath(path) && Walk(d, 0, path) == At(i)
      requires o == Outcome(d.(inodes := PutInode(d.inodes, i, InodeAt(d, i).(mtime := time))), 0)
      ensures o == Utimens(d, path, time) && Kept(o.disk, m, t)
    {
      StepCore(d, m, UtimensCall(path, time), o.disk, m);
      StepBalanced(d, m, UtimensCall(path, time), t);
    }

    // ---- mkdir and create ----

    method FindFreeInode() returns (n: int)
      requires Rep()
      ensures n == FirstFree(disk.ibits, geo.inodeCount)
    {
      n := FindFreeFromBitmap(words, IbLo(), IbHi(), geo.inodeCount);
    }

    method FindFreeBlock() returns (b: int)
      requires Rep()
      ensures b == FirstFree(disk.dbits, geo.dblockCount)
    {
      b := FindFreeFromBitmap(words, DbLo(), DbHi(), geo.dblockCount);
    }

    /** A block for the extents and one for the data; the first is given back when there is no second. */
    method TakeBlocks() returns (pair: Option<(nat, nat)>)
      requires Rep()
      modifies this`disk, words
      ensures Rep() && pair == FreePair(old(disk).dbits, geo.dblockCount)
      ensures pair == None ==> disk == old(disk)
      ensures pair.Some? ==>
                disk == old(disk).(dbits := PutBit(PutBit(old(disk).dbits, pair.value.0, true), pair.value.1, true))
    {
      var e := FindFreeBlock();
      if e < 0 {
        return None;
      }
      DataBitOn(e);
      assert disk.dbits == old(disk).dbits[e := true];
      var b := FindFreeBlock();
      if b < 0 {
        DataBitOff(e);
        BitRolledBack(old(disk).dbits, e);
        return None;
      }
      DataBitOn(b);
      return Some((e, b));
    }

    /** The records of the parent, which gains an entry, and of the new inode. */
    method WriteInodes(p: nat, n: nat, e: nat, mode: bv32, now: int)
      requires Rep() && p < inodes.Length && n < inodes.Length
      modifies this`disk, inodes
      ensures var bumped := PutInode(old(disk).inodes, p, AddDentries(InodeAt(old(disk), p), 1));
              Rep() && disk == old(disk).(inodes := PutInode(bumped, n,
                NewInode(InodeAt(old(disk).(inodes := bumped), n), mode, now, geo.firstData + e)))
    {
      PutInodeAt(p, AddDentries(inodes[p], 1));
      PutInodeAt(n, NewInode(inodes[n], mode, now, geo.firstData + e));
    }

    /** The entry for the new inode and its extent, which is written after it. */
    method WriteCells(at: nat, c: Cell, e: nat, b: nat)
      requires Rep() && at < cells.Length && e < geo.dblockCount
      modifies this`disk, cells
      ensures var entered := PutCell(old(disk).cells, at, c);
              Rep() && disk == old(disk).(cells := PutCell(entered, SLOTS * e,
                WithExtent(CellAt(old(disk).(cells := entered), SLOTS * e), Extent(b + geo.firstData, 1))))
    {
      PutCellAt(at, c);
      PutCellAt(SLOTS * e, WithExtent(cells[SLOTS * e], Extent(b + geo.firstData, 1)));
    }

    /** The writes that create and mkdir have in common. */
    method WriteEntry(p: nat, x: string, n: nat, e: nat, b: nat, mode: bv32, now: int)
      requires Rep() && Readable(disk, p) && EntrySlot(disk, p) < cells.Length
      requires n < geo.inodeCount && e < geo.dblockCount
      modifies this`disk, inodes, cells
      ensures Rep() && disk == Install(old(disk), p, x, n, e, b, mode, now)
    {
      hide PutCell, PutInode;
      var first := FirstSlot(p);
      var count := inodes[p].dentryCount;
      WriteInodes(p, n, e, mode, now);
      WriteCells(first + count, Dentry(n, x), e, b);
    }

    /** The "." and ".." entries of a new directory. */
    method WriteDots(b: nat, self: nat, parent: nat)
      requires Rep() && b < geo.dblockCount
      modifies this`disk, cells
      ensures Rep() && disk == PutDots(old(disk), b, self, parent)
    {
      PutCellAt(SLOTS * b, Dentry(self, "."));
      PutCellAt(SLOTS * b + 1, Dentry(parent, ".."));
    }

    /** Take inode n and two blocks; without the blocks the inode bit stays set. */
    method Reserve(n: nat) returns (pair: Option<(nat, nat)>)
      requires Rep() && n < geo.inodeCount
      modifies this`disk, this`freeBlocks, words
      ensures Rep() && pair == FreePair(old(disk).dbits, geo.dblockCount)
      ensures pair == None ==> disk == LeakInode(old(disk), n).(freeInodes := old(disk).freeInodes)
      ensures pair.Some? ==>
                disk == TakeBits(old(disk), n, pair.value.0, pair.value.1).(freeInodes := old(disk).freeInodes)
    {
      InodeBitOn(n);
      pair := TakeBlocks();
      if pair.Some? {
        AddFreeBlocks(-2);
      }
    }

    /** mkdir once the parent is found. The inode counter goes down before the search result is looked at. */
    method MkdirIn(p: nat, x: string, mode: bv32, now: int) returns (ret: int)
      requires Rep() && Readable(disk, p) && EntrySlot(disk, p) < cells.Length
      modifies this`disk, this`freeInodes, this`freeBlocks, words, inodes, cells
      ensures Rep()
      ensures Outcome(disk, ret) == MkdirAt(old(disk), p, x, mode, now)
    {
      ghost var d := disk;
      var first := FirstSlot(p);
      var up := InoOf(cells[first]);
      var n := FindFreeInode();
      AddFreeInodes(-1);
      if n < 0 {
        AllocatedInSteps(d, n, None);
        return 1;
      }
      ret := MkdirAs(n, p, x, mode, now, up, d);
    }

    /** mkdir from the setting of inode bit n on. */
    method MkdirAs(n: nat, p: nat, x: string, mode: bv32, now: int, up: nat, ghost d: Disk) returns (ret: int)
      requires Rep() && Readable(disk, p) && EntrySlot(disk, p) < cells.Length && n < geo.inodeCount
      requires Shape(d) && disk == d.(freeInodes := d.freeInodes - 1)
      requires n == FirstFree(d.ibits, geo.inodeCount) && up == InoOf(CellAt(d, SLOTS * DataOf(d, p)))
      modifies this`disk, this`freeBlocks, words, inodes, cells
      ensures Rep()
      ensures Outcome(disk, ret) == MkdirAt(d, p, x, mode, now)
    {
      hide Install, PutDots, Allocate;
      var pair := Reserve(n);
      AllocatedInSteps(d, n, pair);
      if pair == None {
        return 1;
      }
      var (e, b) := pair.value;
      assert disk == TakeBits(d, n, e, b);
      WriteDirectory(p, x, n, e, b, DirMode(mode), now, up);
      return 0;
    }

    method WriteDirectory(p: nat, x: string, n: nat, e: nat, b: nat, mode: bv32, now: int, up: nat)
      requires Rep() && Readable(disk, p) && EntrySlot(disk, p) < cells.Length
      requires n < geo.inodeCount && e < geo.dblockCount && b < geo.dblockCount
      modifies this`disk, inodes, cells
      ensures Rep() && disk == PutDots(Install(old(disk), p, x, n, e, b, mode, now), b, n, up)
    {
      WriteEntry(p, x, n, e, b, mode, now);
      WriteDots(b, n, up);
    }

    /** create once the parent is found. */
    method CreateIn(p: nat, x: string, mode: bv32, now: int) returns (ret: int)
      requires Rep() && Readable(disk, p) && EntrySlot(disk, p) < cells.Length
      modifies this`disk, this`freeInodes, this`freeBlocks, words, inodes, cells
      ensures Rep()
      ensures Outcome(disk, ret) == CreateAt(old(disk), p, x, mode, now)
    {
      ghost var d := disk;
      var n := FindFreeInode();
      if n < 0 {
        AllocatedInSteps(d, n, None);
        return 1;
      }
      AddFreeInodes(-1);
      ret := CreateAs(n, p, x, mode, now, d);
    }

    /** create from the setting of inode bit n on. */
    method CreateAs(n: nat, p: nat, x: string, mode: bv32, now: int, ghost d: Disk) returns (ret: int)
      requires Rep() && Readable(disk, p) && EntrySlot(disk, p) < cells.Length && n < geo.inodeCount
      requires Shape(d) && disk == d.(freeInodes := d.freeInodes - 1) && n == FirstFree(d.ibits, geo.inodeCount)
      modifies this`disk, this`freeBlocks, words, inodes, cells
      ensures Rep()
      ensures Outcome(disk, ret) == CreateAt(d, p, x, mode, now)
    {
      hide Install, Allocate;
      var pair := Reserve(n);
      AllocatedInSteps(d, n, pair);
      if pair == None {
        return 1;
      }
      var (e, b) := pair.value;
      assert disk == TakeBits(d, n, e, b);
      WriteEntry(p, x, n, e, b, RegMode(mode), now);
      return 0;
    }

    // ---- rmdir and unlink ----

    /** Every extent of inode t is stored as one and lies in the data region. */
    ghost predicate Freeable(t: nat)
      reads this
    {
      FreeableIn(disk, t)
    }

    ghost predicate FreeableIn(d: Disk, t: nat) {
      && t < |d.inodes| && 0 <= ExtOf(d, t) < geo.dblockCount
      && forall i {:trigger ExtentAt(d, ExtOf(d, t), i)} :: 0 <= i < ExtCount(d, t) ==>
           ExtentOk(CellAt(d, SLOTS * ExtOf(d, t) + i / EXTENTS), i)
    }

    predicate ExtentOk(c: Cell, i: nat) {
      c.Extents? && i % EXTENTS < |c.list| &&
      0 <= c.list[i % EXTENTS].start - geo.firstData <= geo.dblockCount - c.list[i % EXTENTS].count
    }

    /** Extent number i of the extent block e. */
    method ReadExtent(e: nat, i: nat) returns (x: Extent)
      requires Rep() && e < geo.dblockCount && ExtentOk(CellAt(disk, SLOTS * e + i / EXTENTS), i)
      ensures x == ExtentAt(disk, e, i) && 0 <= x.start - geo.firstData <= geo.dblockCount - x.count
    {
      x := cells[SLOTS * e + i / EXTENTS].list[i % EXTENTS];
    }

    /** The inner loop: clear the bits of one extent. */
    method FreeExtent(x: Extent)
      requires Rep() && 0 <= x.start - geo.firstData <= geo.dblockCount - x.count
      modifies this`disk, words
      ensures Rep() && disk == old(disk).(dbits := FreeRun(old(disk).dbits, x.start - geo.firstData, x.count))
    {
      for j := 0 to x.count
        invariant Rep() && disk == old(disk).(dbits := FreeRun(old(disk).dbits, x.start - geo.firstData, j))
      {
        DataBitOff(x.start + j - geo.firstData);
      }
    }

    /** One turn of the outer loop: the bits of extent number i. */
    method FreeExtentAt(e: nat, i: nat, ghost d: Disk, ghost t: nat) returns (count: nat)
      requires Rep() && FreeableIn(d, t) && e == ExtOf(d, t) && i < ExtCount(d, t)
      requires disk == d.(dbits := FreeExtents(d, e, i)) && d.geo == geo
      modifies this`disk, words
      ensures Rep() && disk == d.(dbits := FreeExtents(d, e, i + 1))
      ensures count == ExtentAt(d, e, i).count && SpanOf(d, e, i + 1) == SpanOf(d, e, i) + count
    {
      ExtentIsOk(d, t, i);
      assert CellAt(disk, SLOTS * e + i / EXTENTS) == CellAt(d, SLOTS * e + i / EXTENTS);
      var x := ReadExtent(e, i);
      assert x == ExtentAt(d, e, i);
      FreeExtent(x);
      count := x.count;
    }

    lemma ExtentIsOk(d: Disk, t: nat, i: nat)
      requires FreeableIn(d, t) && i < ExtCount(d, t)
      ensures ExtentOk(CellAt(d, SLOTS * ExtOf(d, t) + i / EXTENTS), i)
    {
      assert ExtentAt(d, ExtOf(d, t), i).count >= 0;
    }

    /** The outer loop over the extents of inode t. */
    method FreeExtentsOf(t: nat, e: nat, count: nat) returns (freed: nat)
      requires Rep() && Freeable(t) && e == ExtOf(disk, t) && count == ExtCount(disk, t)
      modifies this`disk, words
      ensures Rep() && disk == old(disk).(dbits := FreeExtents(old(disk), e, count))
      ensures freed == SpanOf(old(disk), e, count)
    {
      ghost var d := disk;
      freed := 0;
      for i := 0 to count
        invariant Rep() && disk == d.(dbits := FreeExtents(d, e, i))
        invariant freed == SpanOf(d, e, i)
      {
        var n := FreeExtentAt(e, i, d, t);
        freed := freed + n;
      }
    }

    /** All blocks of inode t are given back, its extent block last; freed counts the data blocks. */
    method FreeBlocksOf(t: nat) returns (freed: nat)
      requires Rep() && Freeable(t)
      modifies this`disk, words
      ensures Rep() && disk == old(disk).(dbits := FreeAll(old(disk), t))
      ensures freed == SpanOf(old(disk), ExtOf(old(disk), t), ExtCount(old(disk), t))
    {
      var e: nat := inodes[t].extBlock - geo.firstData;
      freed := FreeExtentsOf(t, e, if inodes[t].extCount < 0 then 0 else inodes[t].extCount);
      DataBitOff(e);
    }

    /** forward_layback_extents, and the same loop in rmdir and unlink: move the slots behind slot k one forward. */
    method MoveSlotsForward(first: nat, k: nat, n: nat)
      requires Rep() && k < n && first + n <= cells.Length
      modifies this`disk, cells
      ensures Rep() && disk == old(disk).(cells := Shifted(old(disk).cells, first, k, n))
    {
      ghost var d := disk;
      for i := k + 1 to n
        invariant Rep() && disk == d.(cells := disk.cells) && |disk.cells| == |d.cells|
        invariant forall c :: first + k <= c < first + i - 1 ==> disk.cells[c] == d.cells[c + 1]
        invariant forall c :: 0 <= c < |d.cells| && !(first + k <= c < first + i - 1) ==> disk.cells[c] == d.cells[c]
      {
        PutCellAt(first + i - 1, cells[first + i]);
      }
      ShiftedSlots(d.cells, disk.cells, first, k, n);
    }

    /** What a stored inode, and with it every listed one, guarantees to the freeing loops. */
    lemma StoredIsFreeable(t: nat)
      requires Rep() && Stored(disk, t)
      ensures Freeable(t)
    {
      assert ExtentAt(disk, ExtOf(disk, t), 0).count == 1;
    }

    /** rmdir and unlink from the freed blocks on: inode bit, slots, entry count and inode counter. */
    method DropEntry(p: nat, k: nat, t: nat, freed: int, ghost d: Disk)
      requires Rep() && Readable(disk, p) && k < InodeAt(disk, p).dentryCount && t < geo.inodeCount && p < |disk.inodes|
      requires disk == d.(dbits := FreeAll(d, t), freeBlocks := d.freeBlocks + freed) && freed >= 0
      modifies this`disk, this`freeInodes, words, inodes, cells
      ensures Rep() && disk == Remove(d, p, k, t, freed)
    {
      InodeBitOff(t);
      ghost var freedState := disk;
      var first := FirstSlot(p);
      MoveSlotsForward(first, k, inodes[p].dentryCount);
      PutInodeAt(p, AddDentries(inodes[p], -1));
      AddFreeInodes(1);
      RemovedInSteps(d, freedState, disk, p, k, t, freed);
    }

    /** rmdir once the parent is found. It does not look at the target's mode. */
    method RmdirIn(p: nat, x: string, ghost m: Names, ghost q: Path) returns (ret: int)
      requires Rep() && Core(disk, m) && q in m && m[q] == p && IsDir(disk, p) && Plain(x)
      modifies this`disk, this`freeInodes, this`freeBlocks, words, inodes, cells
      ensures Rep() && Outcome(disk, ret) == RmdirAt(old(disk), p, x)
    {
      ghost var d := disk;
      Turning(m, q, x);
      var k := FindEntry(p, x);
      if k == -1 {
        return 1;
      }
      var t := EntryIno(p, k);
      if inodes[t].dentryCount > 2 {
        return -ENOTEMPTY;
      }
      var freed := FreeBlocksOf(t);
      AddFreeBlocks(2);
      SameReadable(d, disk, p);
      DropEntry(p, k, t, 2, d);
      return 0;
    }

    /** unlink once the parent is found: every freed block is counted, the extent block too. */
    method UnlinkIn(p: nat, x: string, ghost m: Names, ghost q: Path) returns (ret: int)
      requires Rep() && Core(disk, m) && q in m && m[q] == p && IsDir(disk, p) && Plain(x)
      modifies this`disk, this`freeInodes, this`freeBlocks, words, inodes, cells
      ensures Rep() && Outcome(disk, ret) == UnlinkAt(old(disk), p, x)
    {
      ghost var d := disk;
      Turning(m, q, x);
      var k := FindEntry(p, x);
      if k == -1 {
        return 1;
      }
      var t := EntryIno(p, k);
      if inodes[t].IsDir() {
        return -ENOTEMPTY;
      }
      var freed := FreeBlocksOf(t);
      AddFreeBlocks(freed + 1);
      SameReadable(d, disk, p);
      DropEntry(p, k, t, freed + 1, d);
      return 0;
    }

    /** What a search for x in the listed directory q can come upon. */
    lemma Turning(m: Names, q: Path, x: string)
      requires Rep() && Core(disk, m) && q in m && IsDir(disk, m[q]) && Plain(x)
      ensures Readable(disk, m[q]) && |EntriesOf(disk, m[q])| == InodeAt(disk, m[q]).dentryCount
      ensures m[q] < |disk.inodes|
      ensures var es := EntriesOf(disk, m[q]);
              var k := Lookup(es, x);
              k != -1 ==> k >= 0 && q + [x] in m && m[q + [x]] == InoOf(es[k]) && Freeable(InoOf(es[k]))
                          && InoOf(es[k]) < geo.inodeCount
    {
      hide Spells;
      ListedNode(disk, m, q);
      WalkStep(disk, m, q, x, []);
      if q + [x] in m {
        ListedNode(disk, m, q + [x]);
        StoredIsFreeable(m[q + [x]]);
      }
    }

    // ---- The calls ----

    /** A free slot, or at least one past the directory's block that is still inside the image. */
    ghost predicate SlotInImage(path: Path)
      reads this
    {
      ParentListed(disk, names, path) ==> EntrySlot(disk, names[Init(path)]) < |disk.cells|
    }

    /** Creation at the parent is creation by name, and keeps the books if the name is free and has a slot. */
    lemma AddedByName(d: Disk, m: Names, t: Tally, c: Call, p: nat, o: Outcome, m': Names, t': Tally)
      requires Kept(d, m, t) && (c.MkdirCall? || c.CreateCall?) && c.names != [] && ParentWalk(d, 0, c.names) == At(p)
      requires o == if c.MkdirCall? then MkdirAt(d, p, Last(c.names), c.mode, c.now)
                    else CreateAt(d, p, Last(c.names), c.mode, c.now)
      requires (c.CreateCall? ==> IsRegMode(c.mode)) && (MayAdd(d, m, c.names) ==> m' == NamesAfter(d, m, c))
      requires MayAdd(d, m, c.names) ==> t' == TallyAfter(d, m, c, t)
      ensures o == Step(d, c) && (MayAdd(d, m, c.names) ==> Kept(o.disk, m', t'))
    {
      if MayAdd(d, m, c.names) {
        StepCore(d, m, c, o.disk, m');
        StepBalanced(d, m, c, t);
      }
    }

    /** Without a parent directory nothing is added and nothing goes astray. */
    lemma AdditionMissed(d: Disk, m: Names, t: Tally, c: Call)
      requires Core(d, m) && (c.MkdirCall? || c.CreateCall?) && PlainPath(c.names)
      ensures c.names == [] || !ParentWalk(d, 0, c.names).At? ==> TallyAfter(d, m, c, t) == t
      ensures (c.names == [] || !ParentWalk(d, 0, c.names).At?) && Allowed(d, m, c) ==> NamesAfter(d, m, c) == m
    {
      if c.names != [] {
        ParentOf(d, m, c.names);
      }
    }

    method MakeDirectory(path: string, mode: bv32, now: int) returns (ret: int)
      requires Valid() && WellFormed(path) && PlainPath(Tokens(path)) && SlotInImage(Tokens(path))
      modifies this, words, inodes, cells
      ensures Rep() && Outcome(disk, ret) == Mkdir(old(disk), Tokens(path), mode, now)
      ensures old(MayAdd(disk, names, Tokens(path))) ==>
                Valid() && names == old(NamesAfter(disk, names, MkdirCall(Tokens(path), mode, now))) &&
                tally == old(TallyAfter(disk, names, MkdirCall(Tokens(path), mode, now), tally))
    {
      hide Balanced, MkdirAt, Store, Spells;
      var w, curfix := WalkToParent(path);
      AdditionMissed(disk, names, tally, MkdirCall(Tokens(path), mode, now));
      if curfix == None {
        return 1;
      }
      match w
      case NotDir => return -ENOTDIR;
      case NoEntry => return -ENOENT;
      case At(p) => ret := MakeListed(p, curfix.value, Tokens(path), mode, now);
    }

    method MakeListed(p: nat, x: string, ghost path: Path, mode: bv32, now: int) returns (ret: int)
      requires Valid() && PlainPath(path) && path != [] && SlotInImage(path)
      requires ParentWalk(disk, 0, path) == At(p) && x == Last(path)
      modifies this, words, inodes, cells
      ensures Rep() && Outcome(disk, ret) == Mkdir(old(disk), path, mode, now)
      ensures old(MayAdd(disk, names, path)) ==>
                Valid() && names == old(NamesAfter(disk, names, MkdirCall(path, mode, now))) &&
                tally == old(TallyAfter(disk, names, MkdirCall(path, mode, now), tally))
    {
      hide Balanced, MkdirAt, Store, Spells;
      ghost var d, m, t, call := disk, names, tally, MkdirCall(path, mode, now);
      ParentOf(d, m, path);
      ListedIsReadable(Init(path));
      ghost var m', t' := if MayAdd(d, m, path) then NamesAfter(d, m, call) else m, TallyAfter(d, m, call, t);
      names, tally := m', t';
      ret := MkdirIn(p, x, mode, now);
      AddedByName(d, m, t, call, p, Outcome(disk, ret), m', t');
    }

    method CreateFile(path: string, mode: bv32, now: int) returns (ret: int)
      requires Valid() && WellFormed(path) && PlainPath(Tokens(path)) && SlotInImage(Tokens(path)) && IsRegMode(mode)
      modifies this, words, inodes, cells
      ensures Rep() && Outcome(disk, ret) == Create(old(disk), Tokens(path), mode, now)
      ensures old(MayAdd(disk, names, Tokens(path))) ==>
                Valid() && names == old(NamesAfter(disk, names, CreateCall(Tokens(path), mode, now))) &&
                tally == old(TallyAfter(disk, names, CreateCall(Tokens(path), mode, now), tally))
    {
      hide Balanced, CreateAt, Store, Spells;
      var w, curfix := WalkToParent(path);
      AdditionMissed(disk, names, tally, CreateCall(Tokens(path), mode, now));
      if curfix == None {
        return 1;
      }
      match w
      case NotDir => return -ENOTDIR;
      case NoEntry => return -ENOENT;
      case At(p) => ret := CreateListed(p, curfix.value, Tokens(path), mode, now);
    }

    method CreateListed(p: nat, x: string, ghost path: Path, mode: bv32, now: int) returns (ret: int)
      requires Valid() && PlainPath(path) && path != [] && SlotInImage(path) && IsRegMode(mode)
      requires ParentWalk(disk, 0, path) == At(p) && x == Last(path)
      modifies this, words, inodes, cells
      ensures Rep() && Outcome(disk, ret) == Create(old(disk), path, mode, now)
      ensures old(MayAdd(disk, names, path)) ==>
                Valid() && names == old(NamesAfter(disk, names, CreateCall(path, mode, now))) &&
                tally == old(TallyAfter(disk, names, CreateCall(path, mode, now), tally))
    {
      hide Balanced, CreateAt, Store, Spells;
      ghost var d, m, t, call := disk, names, tally, CreateCall(path, mode, now);
      ParentOf(d, m, path);
      ListedIsReadable(Init(path));
      ghost var m', t' := if MayAdd(d, m, path) then NamesAfter(d, m, call) else m, TallyAfter(d, m, call, t);
      names, tally := m', t';
      ret := CreateIn(p, x, mode, now);
      AddedByName(d, m, t, call, p, Outcome(disk, ret), m', t');
    }

    /** Removal at the parent is removal by name, and keeps the books. */
    lemma RemovedByName(d: Disk, m: Names, t: Tally, c: Call, p: nat, o: Outcome)
      requires Kept(d, m, t) && (c.RmdirCall? || c.UnlinkCall?) && PlainPath(c.names) && c.names != []
      requires ParentWalk(d, 0, c.names) == At(p)
      requires o == if c.RmdirCall? then RmdirAt(d, p, Last(c.names)) else UnlinkAt(d, p, Last(c.names))
      ensures o == Step(d, c) && Kept(o.disk, NamesAfter(d, m, c), t)
    {
      StepCore(d, m, c, o.disk, NamesAfter(d, m, c));
      StepBalanced(d, m, c, t);
    }

    /** Without a parent directory there is nothing to remove. */
    lemma RemovalMissed(d: Disk, m: Names, path: Path)
      requires Core(d, m) && PlainPath(path)
      ensures path == [] || !ParentWalk(d, 0, path).At? ==>
                NamesAfter(d, m, RmdirCall(path)) == m && NamesAfter(d, m, UnlinkCall(path)) == m
    {
      RootIsDirectory(d, m);
      if path != [] {
        ParentOf(d, m, path);
      }
    }

    method RemoveDirectory(path: string) returns (ret: int)
      requires Valid() && WellFormed(path) && PlainPath(Tokens(path))
      modifies this, words, inodes, cells
      ensures Valid() && Outcome(disk, ret) == Rmdir(old(disk), Tokens(path))
      ensures names == old(NamesAfter(disk, names, RmdirCall(Tokens(path)))) && tally == old(tally)
    {
      hide Balanced, RmdirAt, Store, Spells;
      var w, curfix := WalkToParent(path);
      RemovalMissed(disk, names, Tokens(path));
      if curfix == None {
        return 1;
      }
      match w
      case NotDir => return -ENOTDIR;
      case NoEntry => return -ENOENT;
      case At(p) => ret := RmdirListed(p, curfix.value, Tokens(path));
    }

    method RmdirListed(p: nat, x: string, ghost path: Path) returns (ret: int)
      requires Valid() && PlainPath(path) && path != [] && ParentWalk(disk, 0, path) == At(p) && x == Last(path)
      modifies this, words, inodes, cells
      ensures Valid() && Outcome(disk, ret) == Rmdir(old(disk), path)
      ensures names == old(NamesAfter(disk, names, RmdirCall(path))) && tally == old(tally)
    {
      hide Balanced, RmdirAt, Store, Spells;
      ghost var d, m, call := disk, names, RmdirCall(path);
      ParentOf(d, m, path);
      names := NamesAfter(d, m, call);
      ret := RmdirIn(p, x, m, Init(path));
      RemovedByName(d, m, tally, call, p, Outcome(disk, ret));
    }

    method RemoveFile(path: string) returns (ret: int)
      requires Valid() && WellFormed(path) && PlainPath(Tokens(path))
      modifies this, words, inodes, cells
      ensures Valid() && Outcome(disk, ret) == Unlink(old(disk), Tokens(path))
      ensures names == old(NamesAfter(disk, names, UnlinkCall(Tokens(path)))) && tally == old(tally)
    {
      hide Balanced, UnlinkAt, Store, Spells;
      var w, curfix := WalkToParent(path);
      RemovalMissed(disk, names, Tokens(path));
      if curfix == None {
        return 1;
      }
      match w
      case NotDir => return -ENOTDIR;
      case NoEntry => return -ENOENT;
      case At(p) => ret := UnlinkListed(p, curfix.value, Tokens(path));
    }

    method UnlinkListed(p: nat, x: string, ghost path: Path) returns (ret: int)
      requires Valid() && PlainPath(path) && path != [] && ParentWalk(disk, 0, path) == At(p) && x == Last(path)
      modifies this, words, inodes, cells
      ensures Valid() && Outcome(disk, ret) == Unlink(old(disk), path)
      ensures names == old(NamesAfter(disk, names, UnlinkCall(path))) && tally == old(tally)
    {
      hide Balanced, UnlinkAt, Store, Spells;
      ghost var d, m, call := disk, names, UnlinkCall(path);
      ParentOf(d, m, path);
      names := NamesAfter(d, m, call);
      ret := UnlinkIn(p, x, m, Init(path));
      RemovedByName(d, m, tally, call, p, Outcome(disk, ret));
    }

    /** The inode of the parent of path, found by way of the parent's own path string. */
    method FindParentInode(path: string, parent: string) returns (ino: int)
      requires Valid() && WellFormed(path) && PlainPath(Tokens(path)) && Tokens(path) != []
      requires parent == Render(Init(Tokens(path)))
      ensures ino == FindInode(disk, Init(Tokens(path)))
    {
      RenderTokens(path);
      RenderWellFormed(Init(Tokens(path)));
      TokensRender(Init(Tokens(path)));
      ino := FindInodeFromPath(parent);
    }

    /** The two buffers that rename cuts a path into; 1 for the root. */
    static method ParentAndLast(path: string) returns (ret: int, parent: string, last: string)
      requires WellFormed(path)
      ensures Tokens(path) == [] ==> ret == 1
      ensures Tokens(path) != [] ==> ret == 0 && parent == Render(Init(Tokens(path))) && last == Last(Tokens(path))
    {
      var buffer := new char[|path| + 1];
      ret := GetParentPath(path, buffer);
      parent := CString(buffer[..]);
      var name := new char[|path| + 1];
      GetLastEntry(path, name);
      last := CString(name[..]);
    }

    /** rename from the point where the target is clear. */
    method MoveEntry(p: nat, x: string, q: nat, y: string) returns (ret: int)
      requires Rep() && Readable(disk, p) && Readable(disk, q) && EntrySlot(disk, q) < |disk.cells|
      modifies this`disk, inodes, cells
      ensures Rep() && Outcome(disk, ret) == MoveAt(old(disk), p, x, q, y)
    {
      var firstFrom := FirstSlot(p);
      var firstTo := FirstSlot(q);
      if inodes[q].extCount > 512 {
        return -ENOSPC;
      }
      var k := FindEntry(p, x);
      if k < 0 {
        return 1;
      }
      MoveSlot(p, k, q, y, firstFrom, firstTo);
      return 0;
    }

    /** The new entry, the shift and the two entry counts. */
    method MoveSlot(p: nat, k: nat, q: nat, y: string, firstFrom: nat, firstTo: nat)
      requires Rep() && Readable(disk, p) && Readable(disk, q) && EntrySlot(disk, q) < |disk.cells|
      requires firstFrom == SLOTS * DataOf(disk, p) && firstTo == SLOTS * DataOf(disk, q)
      requires k < InodeAt(disk, p).dentryCount
      modifies this`disk, inodes, cells
      ensures Rep() && disk == Move(old(disk), p, k, q, y)
    {
      ghost var d := disk;
      CopySlot(p, k, q, y, firstFrom, firstTo);
      ghost var shifted := disk;
      MoveCount(p, q);
      MovedInSteps(d, shifted, disk, p, k, q, y);
    }

    method CopySlot(p: nat, k: nat, q: nat, y: string, firstFrom: nat, firstTo: nat)
      requires Rep() && Readable(disk, p) && Readable(disk, q) && EntrySlot(disk, q) < |disk.cells|
      requires firstFrom == SLOTS * DataOf(disk, p) && firstTo == SLOTS * DataOf(disk, q)
      requires k < InodeAt(disk, p).dentryCount
      modifies this`disk, cells
      ensures var copied := PutCell(old(disk).cells, EntrySlot(old(disk), q),
                                    Dentry(InoOf(CellAt(old(disk), firstFrom + k)), y));
              Rep() && disk == old(disk).(cells := Shifted(copied, firstFrom, k, InodeAt(old(disk), p).dentryCount))
    {
      hide Shifted, PutCell;
      PutCellAt(firstTo + inodes[q].dentryCount, Dentry(InoOf(cells[firstFrom + k]), y));
      MoveSlotsForward(firstFrom, k, inodes[p].dentryCount);
    }

    method MoveCount(p: nat, q: nat)
      requires Rep() && p < inodes.Length && q < inodes.Length
      modifies this`disk, inodes
      ensures var fewer := PutInode(old(disk).inodes, p, AddDentries(InodeAt(old(disk), p), -1));
              Rep() && disk == old(disk).(inodes := PutInode(fewer, q,
                AddDentries(InodeAt(old(disk).(inodes := fewer), q), 1)))
    {
      PutInodeAt(p, AddDentries(inodes[p], -1));
      PutInodeAt(q, AddDentries(inodes[q], 1));
    }

    /** What the caller sees to: the source exists, the target's parent is a directory, its slot is in the image. */
    ghost predicate RenameCallable(from: Path, to: Path)
      reads this
    {
      from != [] && to != [] ==> from in names && ParentListed(disk, names, to) && SlotInImage(to)
    }

    /** The mode word of the target, where it is looked for: behind the first slot of the source directory. */
    method MisreadMode(firstFrom: nat, ghost p: nat, ino: nat, misread: bool) returns (word: bool)
      requires Rep() && firstFrom == SLOTS * DataOf(disk, p)
      ensures word == ModeWordSaysDir(disk, p, ino, misread)
    {
      var at := firstFrom + ino / 4;
      if ino % 4 == 0 && at < cells.Length {
        return HasDirBit(InoOf(cells[at]));
      }
      return misread;
    }

    /** Whether the target exists, in a slot that counts, and its mode word says directory. */
    method TargetKind(p: nat, q: nat, last: string, misread: bool) returns (existing: int, word: bool)
      requires Rep() && Readable(disk, p) && Readable(disk, q)
      ensures existing == Lookup(EntriesOf(disk, q), last)
      ensures word == TargetSaysDir(disk, p, q, last, misread)
    {
      var firstFrom := FirstSlot(p);
      existing := FindEntry(q, last);
      if existing <= 0 {
        return existing, false;
      }
      var ino := EntryIno(q, existing);
      word := MisreadMode(firstFrom, p, ino, misread);
    }

    /** An existing target goes to rmdir or unlink, by a mode word read from the wrong place; the result is ignored. */
    method RemoveTarget(p: nat, q: nat, to: string, last: string, misread: bool) returns (ghost word: bool)
      requires Valid() && WellFormed(to) && PlainPath(Tokens(to)) && Tokens(to) != []
      requires Readable(disk, p) && Readable(disk, q) && last == Last(Tokens(to))
      modifies this, words, inodes, cells
      ensures word == TargetSaysDir(old(disk), p, q, Last(Tokens(to)), misread)
      ensures Valid() && disk == ClearTarget(old(disk), q, Tokens(to), word) && tally == old(tally)
      ensures (disk == old(disk) && names == old(names)) ||
              (disk == (if word then Rmdir(old(disk), Tokens(to)).disk else Unlink(old(disk), Tokens(to)).disk)
               && names == old(NamesAfter(disk, names, if word then RmdirCall(Tokens(to)) else UnlinkCall(Tokens(to)))))
    {
      var existing, directory := TargetKind(p, q, last, misread);
      word := directory;
      if existing > 0 {
        if directory {
          var _ := RemoveDirectory(to);
        } else {
          var _ := RemoveFile(to);
        }
      }
    }

    method RenamePath(from: string, to: string, misread: bool) returns (ret: int)
      requires Valid() && WellFormed(from) && WellFormed(to) && PlainPath(Tokens(from)) && PlainPath(Tokens(to))
      requires RenameCallable(Tokens(from), Tokens(to))
      modifies this, words, inodes, cells
      ensures Rep() && Outcome(disk, ret) == Rename(old(disk), Tokens(from), Tokens(to), misread)
      ensures old(MayRename(disk, names, Tokens(from), Tokens(to))) ==>
                Valid() && names == old(Renamed(names, Tokens(from), Tokens(to))) && tally == old(tally)
    {
      hide Balanced, MoveAt, ClearTarget, Store, Spells, TargetSaysDir;
      ghost var d, m, f, t := disk, names, Tokens(from), Tokens(to);
      var fromParent, fromName, toParent, toName;
      ret, fromParent, fromName := ParentAndLast(from);
      if ret != 0 {
        return 1;
      }
      ret, toParent, toName := ParentAndLast(to);
      if ret != 0 {
        return 1;
      }
      RenamePlan(d, m, f, t, misread);
      var p := FindParentInode(from, fromParent);
      var q := FindParentInode(to, toParent);
      ret := RenameBetween(p, from, fromName, q, to, toName, misread);
      ghost var m' := if MayRename(d, m, f, t) then Renamed(m, f, t) else names;
      names := m';
      RenamedIsKept(d, m, tally, f, t, misread, Outcome(disk, ret), m');
    }

    lemma RenamedIsKept(d: Disk, m: Names, t: Tally, from: Path, to: Path, misread: bool, o: Outcome, m': Names)
      requires Kept(d, m, t) && o == Rename(d, from, to, misread)
      requires MayRename(d, m, from, to) ==> m' == Renamed(m, from, to)
      ensures MayRename(d, m, from, to) ==> Kept(o.disk, m', t)
    {
      hide Rename, Spells, Store;
      if MayRename(d, m, from, to) {
        RenameMoves(d, m, from, to, misread, o, m');
        StepBalanced(d, m, RenameCall(from, to, misread), t);
      }
    }

    /** Deal with the target; both directories stay readable and the new slot stays in the image. */
    method ClearTheWay(p: nat, from: string, q: nat, to: string, y: string, misread: bool)
      requires Valid() && WellFormed(to) && PlainPath(Tokens(from)) && PlainPath(Tokens(to))
      requires Tokens(from) != [] && Tokens(to) != [] && RenameCallable(Tokens(from), Tokens(to))
      requires y == Last(Tokens(to))
      requires Init(Tokens(from)) in names && p == names[Init(Tokens(from))]
      requires Init(Tokens(to)) in names && q == names[Init(Tokens(to))]
      modifies this, words, inodes, cells
      ensures Rep() && disk == ClearTarget(old(disk), q, Tokens(to), TargetSaysDir(old(disk), p, q, y, misread))
      ensures tally == old(tally) && Readable(disk, p) && Readable(disk, q) && EntrySlot(disk, q) < |disk.cells|
    {
      ghost var d, m, f, t := disk, names, Tokens(from), Tokens(to);
      ListedIsReadable(Init(f));
      ListedIsReadable(Init(t));
      ghost var word := RemoveTarget(p, q, to, y, misread);
      if disk != d || names != m {
        ClearTargetKeepsParents(d, m, f, t, word, disk, names);
      }
      ListedIsReadable(Init(f));
      ListedIsReadable(Init(t));
    }

    /** rename once both directories are known. */
    method RenameBetween(p: nat, from: string, x: string, q: nat, to: string, y: string, misread: bool)
      returns (ret: int)
      requires Valid() && WellFormed(to) && PlainPath(Tokens(from)) && PlainPath(Tokens(to))
      requires Tokens(from) != [] && Tokens(to) != [] && RenameCallable(Tokens(from), Tokens(to))
      requires y == Last(Tokens(to))
      requires Init(Tokens(from)) in names && p == names[Init(Tokens(from))]
      requires Init(Tokens(to)) in names && q == names[Init(Tokens(to))]
      modifies this, words, inodes, cells
      ensures var word := TargetSaysDir(old(disk), p, q, y, misread);
              Rep() && Outcome(disk, ret) == MoveAt(ClearTarget(old(disk), q, Tokens(to), word), p, x, q, y)
      ensures tally == old(tally)
    {
      ClearTheWay(p, from, q, to, y, misread);
      ret := MoveEntry(p, x, q, y);
    }
  }
}
