/**
 * The name fields of the slots byte by byte, with what earlier names left behind the terminating NUL: that is where
 * rename reads the mode word of a target whose inode number is no multiple of four.
 */
module Leftovers {
  import opened Paths
  import opened Disk
  import Storage
  import opened Tree
  import opened FileSystem
  import opened Calls
  import Mkfs
  import Records
  import Runs
  import opened RenameLimits

  /** The 252 bytes of the name field of each slot of the data region. */
  type Fields = seq<string>

  // ---- Writing ----

  function Strcpy(field: string, x: string): (r: string)
    ensures |r| == |field|
  {
    if |x| < |field| then x + ['\0'] + field[|x| + 1..] else x[..|field|]
  }

  function Enter(f: Fields, at: int, x: string): (r: Fields)
    ensures |r| == |f|
  {
    if 0 <= at < |f| then f[at := Strcpy(f[at], x)] else f
  }

  /** The count of a first extent of one block is in the first four bytes of the field. */
  function EnterExtent(f: Fields, at: int): (r: Fields)
    ensures |r| == |f|
  {
    if 0 <= at < |f| && |f[at]| >= 4 then f[at := Bytes(1) + f[at][4..]] else f
  }

  /** Moving slots forward copies names, each up to its NUL. */
  function Shift(f: Fields, at: int, k: int, n: int): (r: Fields)
    ensures |r| == |f|
  {
    if 0 <= at && 0 <= k < n && at + n <= |f|
    then seq(|f|, c requires 0 <= c < |f| =>
                    if at + k <= c < at + n - 1 then Strcpy(f[c], CString(f[c + 1])) else f[c])
    else f
  }

  // ---- The calls ----

  function AddAt(d: Disk, f: Fields, p: nat, x: string, dots: bool): Fields
    requires Shape(d)
  {
    match Allocate(d)
    case InodesFull => f
    case BlocksFull(_) => f
    case Got(_, e, b) =>
      var g := EnterExtent(Enter(f, EntrySlot(d, p), x), SLOTS * e);
      if dots then Enter(Enter(g, SLOTS * b, "."), SLOTS * b + 1, "..") else g
  }

  function Add(d: Disk, f: Fields, names: Path, dots: bool): Fields
    requires Shape(d)
  {
    if names == [] || !ParentWalk(d, 0, names).At? then f
    else AddAt(d, f, ParentWalk(d, 0, names).ino, Last(names), dots)
  }

  function Drop(d: Disk, f: Fields, p: nat, k: int): Fields {
    Shift(f, SLOTS * DataOf(d, p), k, InodeAt(d, p).dentryCount)
  }

  function RmdirFields(d: Disk, f: Fields, names: Path): Fields {
    if names == [] || !ParentWalk(d, 0, names).At? then f
    else
      var p := ParentWalk(d, 0, names).ino;
      var k := Lookup(EntriesOf(d, p), Last(names));
      if k < 0 || InodeAt(d, InoOf(EntriesOf(d, p)[k])).dentryCount > 2 then f else Drop(d, f, p, k)
  }

  function UnlinkFields(d: Disk, f: Fields, names: Path): Fields {
    if names == [] || !ParentWalk(d, 0, names).At? then f
    else
      var p := ParentWalk(d, 0, names).ino;
      var k := Lookup(EntriesOf(d, p), Last(names));
      if k < 0 || IsDir(d, InoOf(EntriesOf(d, p)[k])) then f else Drop(d, f, p, k)
  }

  function ClearFields(d: Disk, f: Fields, q: nat, to: Path, word: bool): Fields
    requires to != []
  {
    if Lookup(EntriesOf(d, q), Last(to)) <= 0 then f
    else if word then RmdirFields(d, f, to) else UnlinkFields(d, f, to)
  }

  function MoveFields(d: Disk, f: Fields, p: nat, x: string, q: nat, y: string): Fields {
    var k := Lookup(EntriesOf(d, p), x);
    if InodeAt(d, q).extCount > 512 || k < 0 then f
    else Shift(Enter(f, EntrySlot(d, q), y), SLOTS * DataOf(d, p), k, InodeAt(d, p).dentryCount)
  }

  function RenameFields(d: Disk, f: Fields, from: Path, to: Path, misread: bool): Fields {
    if from == [] || to == [] || !Walk(d, 0, Init(from)).At? || !Walk(d, 0, Init(to)).At? then f
    else
      var p, q := Walk(d, 0, Init(from)).ino, Walk(d, 0, Init(to)).ino;
      var word := TargetSaysDir(d, p, q, Last(to), misread);
      MoveFields(ClearTarget(d, q, to, word), ClearFields(d, f, q, to, word), p, Last(from), q, Last(to))
  }

  function FieldsAfter(d: Disk, f: Fields, c: Call): Fields
    requires Shape(d)
  {
    match c
    case MkdirCall(names, _, _) => Add(d, f, names, true)
    case CreateCall(names, _, _) => Add(d, f, names, false)
    case RmdirCall(names) => RmdirFields(d, f, names)
    case UnlinkCall(names) => UnlinkFields(d, f, names)
    case RenameCall(from, to, misread) => RenameFields(d, f, from, to, misread)
    case UtimensCall(_, _) => f
  }

  // ---- The misread mode word ----

  /** The byte of the word that has the directory bit: for inode number ino it is in slot first + ino / 4. */
  predicate ByteSaysDir(f: Fields, first: int, ino: nat) {
    var at, offset := first + ino / 4, 64 * (ino % 4) - 3;
    0 <= at < |f| && 0 <= offset < |f[at]| && f[at][offset] as int / 0x40 % 2 == 1
  }

  /** What rename reads when it looks for the mode of the target. */
  predicate Misread(d: Disk, f: Fields, from: Path, to: Path) {
    && from != [] && to != [] && Walk(d, 0, Init(from)).At? && Walk(d, 0, Init(to)).At?
    && var p, q := Walk(d, 0, Init(from)).ino, Walk(d, 0, Init(to)).ino;
       var k := Lookup(EntriesOf(d, q), Last(to));
       k >= 0 && ByteSaysDir(f, SLOTS * DataOf(d, p), InoOf(EntriesOf(d, q)[k]))
  }

  /** Onto a directory, for the inode numbers that are no multiples of four: the byte decides. */
  lemma OntoDirectoryByteIff(d: Disk, m: Names, f: Fields, from: Path, to: Path, at: int)
    requires RenameCalled(d, m, from, to) && Init(from) != Init(to) && !(from <= to) && to in m && IsDir(d, m[to])
    requires InodeAt(d, m[Init(to)]).dentryCount < SLOTS && Init(from) in m && m[to] % 4 != 0
    ensures Walk(Rename(d, from, to, Misread(d, f, from, to)).disk, 0, to) == At(m[from]) <==>
            ByteSaysDir(f, SLOTS * DataOf(d, m[Init(from)]), m[to]) && InodeAt(d, m[to]).dentryCount <= 2
  {
    var misread := Misread(d, f, from, to);
    RenameOntoDirectoryIff(d, m, from, to, misread, SLOTS * DataOf(d, m[Init(from)]) + m[to] / 4);
    ByteOfTarget(d, m, f, from, to, misread);
  }

  lemma ByteOfTarget(d: Disk, m: Names, f: Fields, from: Path, to: Path, misread: bool)
    requires RenameCalled(d, m, from, to) && to in m && Init(from) in m && misread == Misread(d, f, from, to)
    requires m[to] % 4 != 0
    ensures SaysDir(d, m, from, to, misread) <==> ByteSaysDir(f, SLOTS * DataOf(d, m[Init(from)]), m[to])
  {
    hide ByteSaysDir;
    Parents(d, m, from, to);
    WalkListed(d, m, Init(from));
    WalkListed(d, m, Init(to));
    StepSpells(d, m, Init(to), Last(to));
  }

  /**
   * It is the directory bit of the word that lies where a record with that number would have its mode, 64 bytes a
   * record behind the start of the slots: the slot there holds the number c and then its field.
   */
  lemma ByteIsModeBit(f: Fields, first: nat, ino: nat, at: nat, c: nat, n: nat)
    requires at == first + ino / 4 && at < |f| && |f[at]| == 252 && ino % 4 != 0 && Narrow(f[at])
    requires n == Number((Le(c, 4) + f[at])[64 * (ino % 4)..64 * (ino % 4) + 4])
    ensures 256 * at + 64 * (ino % 4) == 256 * first + 64 * ino && n < 0x1_0000_0000
    ensures ByteSaysDir(f, first, ino) <==> n as bv32 & 0x4000 != 0
  {
    var o := 64 * (ino % 4) - 4;
    var b := f[at][o..o + 4];
    assert (Le(c, 4) + f[at])[o + 4..o + 8] == b;
    FourDigits(b, n);
    DirBitOfNumber(n, n as bv32);
  }

  /** Bytes, not just any characters. */
  predicate Narrow(s: string) {
    forall j :: 0 <= j < |s| ==> s[j] as int < 0x100
  }

  lemma FourDigits(b: string, n: nat)
    requires |b| == 4 && Narrow(b) && n == Number(b)
    ensures n < 0x1_0000_0000 && n / 0x4000 % 2 == b[1] as int / 0x40 % 2
  {
    assert Number(b) == b[0] as nat + 0x100 * Number(b[1..]);
    assert Number(b[1..]) == b[1] as nat + 0x100 * Number(b[1..][1..]);
    assert Number(b[1..][1..]) == b[2] as nat + 0x100 * Number(b[1..][1..][1..]);
    assert Number(b[1..][1..][1..]) == b[3] as nat + 0x100 * Number("");
    SecondDigit(b[0] as nat, b[1] as nat, b[2] as nat + 0x100 * b[3] as nat, n);
  }

  lemma SecondDigit(b0: nat, b1: nat, above: nat, n: nat)
    requires b0 < 0x100 && b1 < 0x100 && n == b0 + 0x100 * b1 + 0x1_0000 * above
    ensures n / 0x4000 % 2 == b1 / 0x40 % 2
  {
    var q, r := b1 / 0x40, b1 % 0x40;
    Records.DivisionIs(n, 0x4000, 4 * above + q, 0x100 * r + b0);
    Records.DivisionIs(4 * above + q, 2, 2 * above + q / 2, q % 2);
  }

  // ---- Fields spell the names of the slots ----

  ghost predicate FieldsSpell(cells: seq<Cell>, f: Fields) {
    |f| == |cells| && forall c {:trigger f[c]} :: 0 <= c < |f| ==> SpellsSlot(cells[c], f[c])
  }

  predicate SpellsSlot(c: Cell, field: string) {
    |field| == NAME_MAX && CString(field) == NameOf(c) && |NameOf(c)| < NAME_MAX
  }

  /** Each write stops at the NUL of what it writes, an extent's at the count: the bytes behind are left over. */
  lemma TailsStay(cells: seq<Cell>, f: Fields, at: int, k: int, n: int, x: string, c: nat, j: nat)
    requires FieldsSpell(cells, f) && Writable(x) && c < |f| && j < |f[c]|
    ensures |f[c]| == |Enter(f, at, x)[c]| == |EnterExtent(f, at)[c]| == |Shift(f, at, k, n)[c]|
    ensures |CString(Enter(f, at, x)[c])| < j ==> Enter(f, at, x)[c][j] == f[c][j]
    ensures |CString(Shift(f, at, k, n)[c])| < j ==> Shift(f, at, k, n)[c][j] == f[c][j]
    ensures 4 <= j ==> EnterExtent(f, at)[c][j] == f[c][j]
  {
    hide SpellsSlot, CString, Strcpy;
    FieldLength(cells, f, c);
    TailStays(f[c], x, j);
    if 0 <= at && 0 <= k < n && at + n <= |f| && at + k <= c < at + n - 1 {
      FieldLength(cells, f, c + 1);
      ShortField(cells[c + 1], f[c + 1]);
      TailStays(f[c], CString(f[c + 1]), j);
    }
  }

  lemma ShortField(c: Cell, field: string)
    requires SpellsSlot(c, field)
    ensures '\0' !in CString(field) && |CString(field)| < 252
  {
    CStringHasNoNul(field);
  }

  lemma TailStays(field: string, x: string, j: nat)
    requires j < |field| && '\0' !in x && |x| < |field|
    ensures |CString(Strcpy(field, x))| < j ==> Strcpy(field, x)[j] == field[j]
  {
    CStringIs(Strcpy(field, x), x);
  }

  /** A name as it comes from a path and fits. */
  predicate Writable(x: string) {
    '\0' !in x && Storage.Fits(x)
  }

  lemma StrcpySpells(field: string, x: string, n: nat)
    requires |field| == NAME_MAX && Writable(x)
    ensures SpellsSlot(Dentry(n, x), Strcpy(field, x))
  {
    CStringIs(Strcpy(field, x), x);
  }

  lemma ExtentSpells(field: string, c: Cell, start: nat)
    requires |field| == NAME_MAX
    ensures SpellsSlot(WithExtent(c, Extent(start, 1)), Bytes(1) + field[4..])
  {
    OneBlockExtentIsMark(WithExtent(c, Extent(start, 1)));
    var bytes := Bytes(1) + field[4..];
    assert bytes[1..][0] == '\0' && CString(bytes[1..]) == "";
  }

  lemma {:induction false} CStringHasNoNul(s: string)
    ensures '\0' !in CString(s) && |CString(s)| <= |s|
    ensures forall j :: 0 <= j < |s| && s[j] == '\0' ==> |CString(s)| <= j
    decreases |s|
  {
    if s != "" && s[0] != '\0' {
      CStringHasNoNul(s[1..]);
      forall j | 0 <= j < |s| && s[j] == '\0'
        ensures |CString(s)| <= j
      {
        assert s[1..][j - 1] == '\0';
      }
    }
  }

  lemma EnterSpells(cells: seq<Cell>, f: Fields, at: int, n: nat, x: string)
    requires FieldsSpell(cells, f) && Writable(x)
    ensures FieldsSpell(PutCell(cells, at, Dentry(n, x)), Enter(f, at, x))
  {
    hide SpellsSlot;
    if 0 <= at < |f| {
      FieldLength(cells, f, at);
      StrcpySpells(f[at], x, n);
    }
  }

  lemma FieldLength(cells: seq<Cell>, f: Fields, at: nat)
    requires FieldsSpell(cells, f) && at < |f|
    ensures |f[at]| == NAME_MAX && SpellsSlot(cells[at], f[at])
  {
  }

  lemma EnterExtentSpells(cells: seq<Cell>, f: Fields, at: int, start: nat)
    requires FieldsSpell(cells, f)
    ensures 0 <= at < |f| ==>
              FieldsSpell(PutCell(cells, at, WithExtent(cells[at], Extent(start, 1))), EnterExtent(f, at))
  {
    hide SpellsSlot;
    if 0 <= at < |f| {
      FieldLength(cells, f, at);
      ExtentSpells(f[at], cells[at], start);
    }
  }

  lemma ShiftSpells(cells: seq<Cell>, f: Fields, at: int, k: int, n: int)
    requires FieldsSpell(cells, f)
    ensures FieldsSpell(Shifted(cells, at, k, n), Shift(f, at, k, n))
  {
    hide CString, Strcpy, NameOf;
    hide SpellsSlot;
    var cells', f' := Shifted(cells, at, k, n), Shift(f, at, k, n);
    forall c | 0 <= c < |f'|
      ensures SpellsSlot(cells'[c], f'[c])
    {
      FieldLength(cells, f, c);
      if 0 <= at && 0 <= k < n && at + n <= |f| && at + k <= c < at + n - 1 {
        FieldLength(cells, f, c + 1);
        CopiedSpells(cells[c + 1], f[c + 1], f[c]);
      }
    }
  }

  lemma CopiedSpells(c: Cell, field: string, over: string)
    requires SpellsSlot(c, field) && |over| == NAME_MAX
    ensures SpellsSlot(c, Strcpy(over, CString(field)))
  {
    CStringHasNoNul(field);
    StrcpySpells(over, NameOf(c), 0);
  }

  // ---- Every call keeps that ----

  ghost predicate WritableCall(c: Call) {
    match c
    case MkdirCall(names, _, _) => names != [] ==> Writable(Last(names))
    case CreateCall(names, _, _) => names != [] ==> Writable(Last(names))
    case RenameCall(_, to, _) => to != [] ==> Writable(Last(to))
    case _ => true
  }

  lemma AddSpellsFields(d: Disk, f: Fields, p: nat, x: string, mode: bv32, now: int)
    requires Shape(d) && FieldsSpell(d.cells, f) && Writable(x)
    ensures FieldsSpell(MkdirAt(d, p, x, mode, now).disk.cells, AddAt(d, f, p, x, true))
    ensures FieldsSpell(CreateAt(d, p, x, mode, now).disk.cells, AddAt(d, f, p, x, false))
  {
    hide FieldsSpell, Enter, EnterExtent, PutCell, Install;
    match Allocate(d)
    case InodesFull =>
    case BlocksFull(n) =>
    case Got(n, e, b) =>
      InstallSpells(d, f, p, x, n, e, b, DirMode(mode), now);
      InstallSpells(d, f, p, x, n, e, b, RegMode(mode), now);
      var s := Install(TakeBits(d, n, e, b), p, x, n, e, b, DirMode(mode), now);
      var g := EnterExtent(Enter(f, EntrySlot(d, p), x), SLOTS * e);
      EnterSpells(s.cells, g, SLOTS * b, n, ".");
      EnterSpells(PutCell(s.cells, SLOTS * b, Dentry(n, ".")), Enter(g, SLOTS * b, "."), SLOTS * b + 1,
                  InoOf(CellAt(d, SLOTS * DataOf(d, p))), "..");
  }

  lemma InstallSpells(d: Disk, f: Fields, p: nat, x: string, n: nat, e: nat, b: nat, mode: bv32, now: int)
    requires FieldsSpell(d.cells, f) && Writable(x)
    ensures var s := Install(TakeBits(d, n, e, b), p, x, n, e, b, mode, now);
            FieldsSpell(s.cells, EnterExtent(Enter(f, EntrySlot(d, p), x), SLOTS * e))
  {
    hide FieldsSpell;
    var t := TakeBits(d, n, e, b);
    assert EntrySlot(t, p) == EntrySlot(d, p);
    var cells, g := PutCell(d.cells, EntrySlot(d, p), Dentry(n, x)), Enter(f, EntrySlot(d, p), x);
    EnterSpells(d.cells, f, EntrySlot(d, p), n, x);
    EnterExtentSpells(cells, g, SLOTS * e, b + d.geo.firstData);
    assert |g| == |cells| by {
      SameLength(cells, g);
    }
  }

  lemma SameLength(cells: seq<Cell>, f: Fields)
    requires FieldsSpell(cells, f)
    ensures |cells| == |f|
  {
  }

  lemma DropSpells(d: Disk, f: Fields, names: Path)
    requires FieldsSpell(d.cells, f)
    ensures FieldsSpell(Rmdir(d, names).disk.cells, RmdirFields(d, f, names))
    ensures FieldsSpell(Unlink(d, names).disk.cells, UnlinkFields(d, f, names))
  {
    hide FieldsSpell, Shifted, Shift, FreeAll, EntriesOf;
    if names != [] && ParentWalk(d, 0, names).At? {
      var p := ParentWalk(d, 0, names).ino;
      var k := Lookup(EntriesOf(d, p), Last(names));
      ShiftSpells(d.cells, f, SLOTS * DataOf(d, p), k, InodeAt(d, p).dentryCount);
    }
  }

  lemma ClearSpells(d: Disk, f: Fields, q: nat, to: Path, word: bool)
    requires FieldsSpell(d.cells, f) && to != []
    ensures FieldsSpell(ClearTarget(d, q, to, word).cells, ClearFields(d, f, q, to, word))
  {
    hide FieldsSpell, Rmdir, Unlink, RmdirFields, UnlinkFields;
    DropSpells(d, f, to);
  }

  lemma MoveSpellsFields(d: Disk, f: Fields, p: nat, x: string, q: nat, y: string)
    requires FieldsSpell(d.cells, f) && Writable(y)
    ensures FieldsSpell(MoveAt(d, p, x, q, y).disk.cells, MoveFields(d, f, p, x, q, y))
  {
    hide FieldsSpell, Shifted, Shift, EntriesOf, Enter;
    var k := Lookup(EntriesOf(d, p), x);
    var at, n := SLOTS * DataOf(d, p), InodeAt(d, p).dentryCount;
    var e := InoOf(CellAt(d, at + k));
    EnterSpells(d.cells, f, EntrySlot(d, q), e, y);
    ShiftSpells(PutCell(d.cells, EntrySlot(d, q), Dentry(e, y)), Enter(f, EntrySlot(d, q), y), at, k, n);
  }

  lemma RenameSpells(d: Disk, f: Fields, from: Path, to: Path, misread: bool)
    requires FieldsSpell(d.cells, f) && (to != [] ==> Writable(Last(to)))
    ensures FieldsSpell(Rename(d, from, to, misread).disk.cells, RenameFields(d, f, from, to, misread))
  {
    hide FieldsSpell, ClearTarget, ClearFields, MoveAt, MoveFields;
    if from != [] && to != [] && Walk(d, 0, Init(from)).At? && Walk(d, 0, Init(to)).At? {
      var p, q := Walk(d, 0, Init(from)).ino, Walk(d, 0, Init(to)).ino;
      var word := TargetSaysDir(d, p, q, Last(to), misread);
      ClearSpells(d, f, q, to, word);
      MoveSpellsFields(ClearTarget(d, q, to, word), ClearFields(d, f, q, to, word), p, Last(from), q, Last(to));
    }
  }

  /** On any image: the fields, written as the code writes them, keep spelling the names of the slots. */
  lemma CallKeepsSpelling(d: Disk, f: Fields, c: Call)
    requires Shape(d) && FieldsSpell(d.cells, f) && WritableCall(c)
    ensures FieldsSpell(After(d, c).cells, FieldsAfter(d, f, c))
  {
    hide FieldsSpell, AddAt, MkdirAt, CreateAt, Rmdir, Unlink, Rename, RmdirFields, UnlinkFields, RenameFields;
    match c
    case MkdirCall(names, mode, now) =>
      if names != [] && ParentWalk(d, 0, names).At? {
        AddSpellsFields(d, f, ParentWalk(d, 0, names).ino, Last(names), mode, now);
      }
    case CreateCall(names, mode, now) =>
      if names != [] && ParentWalk(d, 0, names).At? {
        AddSpellsFields(d, f, ParentWalk(d, 0, names).ino, Last(names), mode, now);
      }
    case RmdirCall(names) => DropSpells(d, f, names);
    case UnlinkCall(names) => DropSpells(d, f, names);
    case RenameCall(from, to, misread) => RenameSpells(d, f, from, to, misread);
    case UtimensCall(_, _) =>
  }

  // ---- Short names ----

  const SHORT := 61           // the first byte that a misread word can have its directory bit in

  /** Nothing but zero bytes from there on. */
  predicate BlankTail(field: string) {
    |field| == NAME_MAX && forall j :: SHORT <= j < |field| ==> field[j] == '\0'
  }

  ghost predicate AllBlank(f: Fields) {
    forall c {:trigger f[c]} :: 0 <= c < |f| ==> BlankTail(f[c])
  }

  lemma StrcpyBlank(field: string, x: string)
    requires BlankTail(field) && |x| <= SHORT
    ensures BlankTail(Strcpy(field, x))
  {
  }

  lemma EnterBlank(f: Fields, at: int, x: string)
    requires AllBlank(f) && |x| <= SHORT
    ensures AllBlank(Enter(f, at, x))
  {
  }

  lemma EnterExtentBlank(f: Fields, at: int)
    requires AllBlank(f)
    ensures AllBlank(EnterExtent(f, at))
  {
  }

  lemma ShiftBlank(f: Fields, at: int, k: int, n: int)
    requires AllBlank(f)
    ensures AllBlank(Shift(f, at, k, n))
  {
    var f' := Shift(f, at, k, n);
    forall c | 0 <= c < |f'|
      ensures BlankTail(f'[c])
    {
      if 0 <= at && 0 <= k < n && at + n <= |f| && at + k <= c < at + n - 1 {
        assert BlankTail(f[c + 1]) && BlankTail(f[c]) && f[c + 1][SHORT] == '\0';
        CStringHasNoNul(f[c + 1]);
        StrcpyBlank(f[c], CString(f[c + 1]));
      }
    }
  }

  ghost predicate ShortCall(c: Call) {
    match c
    case MkdirCall(names, _, _) => names != [] ==> |Last(names)| <= SHORT
    case CreateCall(names, _, _) => names != [] ==> |Last(names)| <= SHORT
    case RenameCall(_, to, _) => to != [] ==> |Last(to)| <= SHORT
    case _ => true
  }

  lemma AddBlank(d: Disk, f: Fields, p: nat, x: string, dots: bool)
    requires Shape(d) && AllBlank(f) && |x| <= SHORT
    ensures AllBlank(AddAt(d, f, p, x, dots))
  {
    hide AllBlank, Enter, EnterExtent;
    match Allocate(d)
    case InodesFull =>
    case BlocksFull(_) =>
    case Got(_, e, b) =>
      EnterBlank(f, EntrySlot(d, p), x);
      EnterExtentBlank(Enter(f, EntrySlot(d, p), x), SLOTS * e);
      var g := EnterExtent(Enter(f, EntrySlot(d, p), x), SLOTS * e);
      EnterBlank(g, SLOTS * b, ".");
      EnterBlank(Enter(g, SLOTS * b, "."), SLOTS * b + 1, "..");
  }

  lemma DropBlank(d: Disk, f: Fields, names: Path)
    requires AllBlank(f)
    ensures AllBlank(RmdirFields(d, f, names)) && AllBlank(UnlinkFields(d, f, names))
  {
    hide AllBlank, Shift, EntriesOf;
    if names != [] && ParentWalk(d, 0, names).At? {
      var p := ParentWalk(d, 0, names).ino;
      var k := Lookup(EntriesOf(d, p), Last(names));
      ShiftBlank(f, SLOTS * DataOf(d, p), k, InodeAt(d, p).dentryCount);
    }
  }

  lemma RenameBlank(d: Disk, f: Fields, from: Path, to: Path, misread: bool)
    requires AllBlank(f) && (to != [] ==> |Last(to)| <= SHORT)
    ensures AllBlank(RenameFields(d, f, from, to, misread))
  {
    hide AllBlank, RmdirFields, UnlinkFields, Shift, Enter, EntriesOf;
    if from != [] && to != [] && Walk(d, 0, Init(from)).At? && Walk(d, 0, Init(to)).At? {
      var p, q := Walk(d, 0, Init(from)).ino, Walk(d, 0, Init(to)).ino;
      var word := TargetSaysDir(d, p, q, Last(to), misread);
      var cleared, g := ClearTarget(d, q, to, word), ClearFields(d, f, q, to, word);
      DropBlank(d, f, to);
      EnterBlank(g, EntrySlot(cleared, q), Last(to));
      ShiftBlank(Enter(g, EntrySlot(cleared, q), Last(to)), SLOTS * DataOf(cleared, p),
                 Lookup(EntriesOf(cleared, p), Last(from)), InodeAt(cleared, p).dentryCount);
    }
  }

  lemma CallKeepsBlank(d: Disk, f: Fields, c: Call)
    requires Shape(d) && AllBlank(f) && ShortCall(c)
    ensures AllBlank(FieldsAfter(d, f, c))
  {
    hide AllBlank, AddAt, RmdirFields, UnlinkFields, RenameFields;
    match c
    case MkdirCall(names, _, _) =>
      if names != [] && ParentWalk(d, 0, names).At? {
        AddBlank(d, f, ParentWalk(d, 0, names).ino, Last(names), true);
      }
    case CreateCall(names, _, _) =>
      if names != [] && ParentWalk(d, 0, names).At? {
        AddBlank(d, f, ParentWalk(d, 0, names).ino, Last(names), false);
      }
    case RmdirCall(names) => DropBlank(d, f, names);
    case UnlinkCall(names) => DropBlank(d, f, names);
    case RenameCall(from, to, misread) => RenameBlank(d, f, from, to, misread);
    case UtimensCall(_, _) =>
  }

  /** Then no byte says directory. */
  lemma BlankSaysFile(d: Disk, f: Fields, from: Path, to: Path)
    requires AllBlank(f)
    ensures !Misread(d, f, from, to)
  {
    forall first: int, ino: nat
      ensures !ByteSaysDir(f, first, ino)
    {
      BlankByte(f, first, ino);
    }
  }

  lemma BlankByte(f: Fields, first: int, ino: nat)
    requires AllBlank(f)
    ensures !ByteSaysDir(f, first, ino)
  {
  }

  /** Calls one after the other, each rename with the word that it reads. */
  ghost predicate Honest(d: Disk, f: Fields, calls: seq<Call>)
    decreases |calls|
  {
    calls != [] ==>
      && Shape(d) && (calls[0].RenameCall? ==> calls[0].misread == Misread(d, f, calls[0].from, calls[0].to))
      && Honest(After(d, calls[0]), FieldsAfter(d, f, calls[0]), calls[1..])
  }

  /**
   * As long as no name of more than 61 characters was entered, rename takes every existing target whose inode number
   * is no multiple of four for a file, whatever it is.
   */
  lemma {:induction false} ShortNamesSayFile(d: Disk, f: Fields, calls: seq<Call>, k: nat)
    requires Honest(d, f, calls) && AllBlank(f) && k < |calls| && calls[k].RenameCall?
    requires forall j :: 0 <= j < |calls| ==> ShortCall(calls[j])
    ensures !calls[k].misread
    decreases |calls|
  {
    hide Misread, AllBlank;
    if k == 0 {
      BlankSaysFile(d, f, calls[0].from, calls[0].to);
    } else {
      CallKeepsBlank(d, f, calls[0]);
      ShortNamesSayFile(After(d, calls[0]), FieldsAfter(d, f, calls[0]), calls[1..], k - 1);
    }
  }

  // ---- A zeroed image ----

  function ZeroFields(n: nat): (f: Fields)
    ensures |f| == n && forall c :: 0 <= c < n ==> |f[c]| == NAME_MAX
    ensures forall c, j :: 0 <= c < n && 0 <= j < NAME_MAX ==> f[c][j] == '\0'
  {
    seq(n, _ => seq(NAME_MAX, _ => '\0'))
  }

  /** The fields after mkfs wrote the root's extent and its two entries. */
  function FormattedFields(f: Fields): Fields {
    Enter(Enter(EnterExtent(f, 0), SLOTS, "."), SLOTS + 1, "..")
  }

  lemma RootFieldsSpell(d: Disk, f: Fields)
    requires FieldsSpell(d.cells, f) && |d.cells| > 0
    ensures FieldsSpell(Mkfs.RootCells(d), FormattedFields(f))
    ensures AllBlank(f) ==> AllBlank(FormattedFields(f))
  {
    hide FieldsSpell, AllBlank;
    var cells1 := PutCell(d.cells, 0, WithExtent(CellAt(d, 0), Extent(d.geo.firstData + 1, 1)));
    SameLength(d.cells, f);
    EnterExtentSpells(d.cells, f, 0, d.geo.firstData + 1);
    EnterSpells(cells1, EnterExtent(f, 0), SLOTS, 0, ".");
    EnterSpells(PutCell(cells1, SLOTS, Dentry(0, ".")), Enter(EnterExtent(f, 0), SLOTS, "."), SLOTS + 1, 0, "..");
    if AllBlank(f) {
      EnterExtentBlank(f, 0);
      EnterBlank(EnterExtent(f, 0), SLOTS, ".");
      EnterBlank(Enter(EnterExtent(f, 0), SLOTS, "."), SLOTS + 1, "..");
    }
  }

  /** Formatting keeps the fields in step, and in a zeroed image they are blank. */
  lemma FormattedFieldsSpell(g: Geometry, ws: seq<bv32>, inodes: seq<Inode>, cells: seq<Cell>, f: Fields)
    requires Runs.CleanImage(g, ws, inodes, cells) && FieldsSpell(cells, f)
    ensures FieldsSpell(Mkfs.FormattedFrom(g, ws, inodes, cells).cells, FormattedFields(f))
    ensures AllBlank(f) ==> AllBlank(FormattedFields(f))
  {
    hide FieldsSpell, AllBlank, Mkfs.RootCells, FormattedFields;
    RootFieldsSpell(Mkfs.Unrooted(g, ws, inodes, cells), f);
  }

  lemma ZeroFieldsSpell(cells: seq<Cell>, f: Fields)
    requires f == ZeroFields(|cells|) && forall c :: 0 <= c < |cells| ==> cells[c] == Dentry(0, "")
    ensures FieldsSpell(cells, f) && AllBlank(f)
  {
    forall c | 0 <= c < |f|
      ensures CString(f[c]) == ""
    {
      assert f[c][0] == '\0';
    }
  }
}
