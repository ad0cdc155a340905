/** The state of a mounted image and what each file system call does to it, on values. */
module Disk {
  import opened Bitmap
  import opened Paths

  const SLOTS := 16           // 256-byte directory entries in a 4096-byte block
  const EXTENTS := 32         // 8-byte extents in the 256 bytes of one directory entry
  const NAME_MAX := 252
  const ENOENT := 2
  const ENOTDIR := 20
  const ENOSPC := 28
  const ENOTEMPTY := 39

  /** A run of blocks, by absolute block number. */
  datatype Extent = Extent(start: nat, count: nat)

  /** 256 bytes of the data region, read as one directory entry or as 32 extents. */
  datatype Cell = Dentry(ino: nat, name: string) | Extents(list: seq<Extent>)

  /** The time is the timespec's sixteen bytes as one number; the last field holds the padding between the others. */
  datatype Inode = Inode(mode: bv32, links: nat, size: nat, mtime: int,
                         extCount: int, extBlock: int, dentryCount: int, pads: string)
  {
    /** mode & S_IFDIR */
    predicate IsDir() {
      mode & 0x4000 != 0
    }
  }

  /**
   * The superblock fields that never change after formatting, and how bitmap bits and inode records look when their
   * bytes are read as entries: BitSlot and TableSlot below, although little depends on that.
   */
  datatype Geometry = Geometry(size: nat, firstIb: nat, firstDb: nat, firstInode: nat, firstData: nat,
                               inodeCount: nat, ibCount: nat, dbCount: nat, iblockCount: nat, dblockCount: nat,
                               bitSlot: (seq<bool>, nat) -> Cell, tableSlot: (seq<Inode>, nat) -> Cell)

  /** Cells and data bits are numbered from the start of the data region; extents hold absolute block numbers. */
  datatype Disk = Disk(geo: Geometry, freeInodes: int, freeBlocks: int,
                       ibits: seq<bool>, dbits: seq<bool>, inodes: seq<Inode>, cells: seq<Cell>)

  predicate Shape(d: Disk) {
    && 0 < d.geo.inodeCount <= |d.ibits| && d.geo.inodeCount <= |d.inodes|
    && 2 <= d.geo.dblockCount <= |d.dbits| && |d.cells| == SLOTS * d.geo.dblockCount
  }

  // ---- Reading an inode ----

  const NO_INODE := Inode(0, 0, 0, 0, 0, 0, 0, "")

  function InodeAt(d: Disk, i: nat): Inode {
    if i < |d.inodes| then d.inodes[i] else NO_INODE
  }

  predicate IsDir(d: Disk, i: nat) {
    InodeAt(d, i).IsDir()
  }

  function CellAt(d: Disk, at: int): Cell {
    if 0 <= at < |d.cells| then d.cells[at] else Dentry(0, "")
  }

  /** The four bytes of a 32-bit word, the lowest first. */
  function Bytes(w: nat): string {
    [(w % 0x100) as char, (w / 0x100 % 0x100) as char, (w / 0x1_0000 % 0x100) as char, (w / 0x100_0000 % 0x100) as char]
  }

  function ExtentBytes(list: seq<Extent>): string {
    if list == [] then "" else Bytes(list[0].start) + Bytes(list[0].count) + ExtentBytes(list[1..])
  }

  /** The name that a search finds in a slot; in extents it starts at the count of the first one. */
  function NameOf(c: Cell): string {
    if c.Dentry? then c.name
    else if c.list == [] then ""
    else CString(Bytes(c.list[0].count) + ExtentBytes(c.list[1..]))
  }

  /** The inode number that a search finds in a slot; in extents that is where the first one starts. */
  function InoOf(c: Cell): nat {
    if c.Dentry? then c.ino else if c.list == [] then 0 else c.list[0].start
  }

  /** What an extent of one block looks like to a search. */
  const MARK := "\U{0001}"

  lemma OneBlockExtentIsMark(c: Cell)
    requires c.Extents? && c.list != [] && c.list[0].count == 1
    ensures NameOf(c) == MARK && InoOf(c) == c.list[0].start
  {
    var bytes := Bytes(1) + ExtentBytes(c.list[1..]);
    assert bytes[0] == '\U{0001}' && bytes[1] == '\0';
    assert CString(bytes[1..]) == "";
  }

  // ---- Metadata read as entries ----

  /** The n bytes of a number, the lowest first; of a negative one, in two's complement. */
  function Le(w: int, n: nat): (s: string)
    ensures |s| == n
    decreases n
  {
    if n == 0 then "" else [(w % 0x100) as char] + Le(w / 0x100, n - 1)
  }

  /** The number that bytes spell, the lowest first. */
  function Number(bytes: string): nat {
    if bytes == [] then 0 else bytes[0] as nat + 0x100 * Number(bytes[1..])
  }

  /** Padding bytes from lo to hi, of which missing ones are zero. */
  function Padding(pads: string, lo: nat, hi: nat): (s: string)
    requires lo <= hi
    ensures |s| == hi - lo
  {
    seq(hi - lo, k requires 0 <= k < hi - lo => if lo + k < |pads| then pads[lo + k] else '\0')
  }

  /** The 64 bytes of an inode record. */
  function RecordBytes(v: Inode): (s: string)
    ensures |s| == 64
  {
    Le(v.mode as int, 4) + Padding(v.pads, 0, 4) + FieldBytes(v)
  }

  function FieldBytes(v: Inode): (s: string)
    ensures |s| == 56
  {
    Le(v.links, 8) + Le(v.size, 8) + Le(v.mtime, 16) + Le(v.extCount, 2) + Padding(v.pads, 4, 10) + Le(v.extBlock, 8)
    + Le(v.dentryCount, 2) + Padding(v.pads, 10, 16)
  }

  function BitValue(bits: seq<bool>, k: nat): (v: nat)
    ensures v <= 1
  {
    if k < |bits| && bits[k] then 1 else 0
  }

  /** Eight bits from bit number k as a byte, the first one lowest. */
  function ByteOfBits(bits: seq<bool>, k: nat): char {
    (BitValue(bits, k) + 2 * BitValue(bits, k + 1) + 4 * BitValue(bits, k + 2) + 8 * BitValue(bits, k + 3)
     + 16 * BitValue(bits, k + 4) + 32 * BitValue(bits, k + 5) + 64 * BitValue(bits, k + 6)
     + 128 * BitValue(bits, k + 7)) as char
  }

  function BytesOfBits(bits: seq<bool>, k: nat, n: nat): (s: string)
    ensures |s| == n
  {
    seq(n, j requires 0 <= j < n => ByteOfBits(bits, k + 8 * j))
  }

  /** 256 bytes as an entry. */
  function SlotOfBytes(bytes: string): Cell
    requires |bytes| >= 4
  {
    Dentry(Number(bytes[..4]), CString(bytes[4..]))
  }

  /** 2048 bits of a bitmap. */
  function BitSlot(bits: seq<bool>, j: nat): Cell {
    SlotOfBytes(BytesOfBits(bits, 2048 * j, 256))
  }

  /** Four records of the inode table. */
  function TableSlot(inodes: seq<Inode>, j: nat): Cell {
    SlotOfBytes(RecordBytes(Record(inodes, 4 * j)) + NextThree(inodes, 4 * j))
  }

  function NextThree(inodes: seq<Inode>, i: nat): string {
    RecordBytes(Record(inodes, i + 1)) + RecordBytes(Record(inodes, i + 2)) + RecordBytes(Record(inodes, i + 3))
  }

  function Record(inodes: seq<Inode>, i: nat): Inode {
    if i < |inodes| then inodes[i] else NO_INODE
  }

  /** Metadata are read as the bytes say. */
  ghost predicate Decoded(g: Geometry) {
    && (forall bits: seq<bool>, j: nat :: g.bitSlot(bits, j) == BitSlot(bits, j))
    && (forall inodes: seq<Inode>, j: nat :: g.tableSlot(inodes, j) == TableSlot(inodes, j))
  }

  /** A slot in front of the data region. The superblock is never read as entries and left out here. */
  function MetaSlot(g: Geometry, ibits: seq<bool>, dbits: seq<bool>, inodes: seq<Inode>, c: int): Cell {
    var at := SLOTS * g.firstData + c;
    if 0 <= at - SLOTS * g.firstInode then g.tableSlot(inodes, at - SLOTS * g.firstInode)
    else if 0 <= at - SLOTS * g.firstDb then g.bitSlot(dbits, at - SLOTS * g.firstDb)
    else if 0 <= at - SLOTS * g.firstIb then g.bitSlot(ibits, at - SLOTS * g.firstIb)
    else Dentry(0, "")
  }

  function SlotAt(d: Disk, c: int): Cell {
    if c < 0 then MetaSlot(d.geo, d.ibits, d.dbits, d.inodes, c) else CellAt(d, c)
  }

  /** n slots from slot number at, if they lie in the image. */
  function SlotsFrom(d: Disk, at: int, n: int): seq<Cell> {
    if n < 0 || at + n > |d.cells| || at < -SLOTS * d.geo.firstData then []
    else if at >= 0 then d.cells[at..at + n]
    else seq(n, k requires 0 <= k < n => SlotAt(d, at + k))
  }

  // ---- Reading an inode's blocks ----

  /** The extent block of inode i, as a data bit number. */
  function ExtOf(d: Disk, i: nat): int {
    InodeAt(d, i).extBlock - d.geo.firstData
  }

  /** Extent number n of the extent block with data bit number e; an entry there starts with its inode number. */
  function ExtentAt(d: Disk, e: int, n: nat): Extent {
    var c := CellAt(d, SLOTS * e + n / EXTENTS);
    if c.Extents? then if n % EXTENTS < |c.list| then c.list[n % EXTENTS] else Extent(0, 0)
    else if n % EXTENTS == 0 then Extent(c.ino, 0)
    else Extent(0, 0)
  }

  /** The first data block of inode i, as a data bit number. */
  function DataOf(d: Disk, i: nat): int {
    ExtentAt(d, ExtOf(d, i), 0).start - d.geo.firstData
  }

  /** The slot behind the live entries: where a directory's next entry goes. */
  function EntrySlot(d: Disk, i: nat): int {
    SLOTS * DataOf(d, i) + InodeAt(d, i).dentryCount
  }

  /** The live entries: the first dentry_count slots from the start of the first data block. */
  function EntriesOf(d: Disk, i: nat): seq<Cell> {
    SlotsFrom(d, SLOTS * DataOf(d, i), InodeAt(d, i).dentryCount)
  }

  /** First slot at or after i that carries the name, or -1. */
  function LookupFrom(es: seq<Cell>, x: string, i: nat): (k: int)
    requires i <= |es|
    ensures k == -1 || i <= k < |es|
    ensures k == -1 ==> forall j :: i <= j < |es| ==> NameOf(es[j]) != x
    ensures k != -1 ==> NameOf(es[k]) == x && forall j :: i <= j < k ==> NameOf(es[j]) != x
    decreases |es| - i
  {
    if i == |es| then -1 else if NameOf(es[i]) == x then i else LookupFrom(es, x, i + 1)
  }

  function Lookup(es: seq<Cell>, x: string): (k: int)
    ensures k == -1 || 0 <= k < |es|
    ensures k == -1 ==> forall j :: 0 <= j < |es| ==> NameOf(es[j]) != x
    ensures k != -1 ==> NameOf(es[k]) == x && forall j :: 0 <= j < k ==> NameOf(es[j]) != x
  {
    LookupFrom(es, x, 0)
  }

  // ---- Path walks ----

  datatype Walked = At(ino: nat) | NotDir | NoEntry

  /** The walk of getattr, utimens and find_inode_from_path: the last component is exempt from the directory check. */
  function Walk(d: Disk, cur: nat, names: seq<string>): Walked
    decreases |names|
  {
    if names == [] then At(cur)
    else if !IsDir(d, cur) && |names| > 1 then NotDir
    else
      var es := EntriesOf(d, cur);
      var k := Lookup(es, names[0]);
      if k < 0 then NoEntry else Walk(d, InoOf(es[k]), names[1..])
  }

  /** The walk of the four mutators: it stops at the parent of the last component. */
  function ParentWalk(d: Disk, cur: nat, names: seq<string>): Walked
    requires names != []
    decreases |names|
  {
    if !IsDir(d, cur) then NotDir
    else if |names| == 1 then At(cur)
    else
      var es := EntriesOf(d, cur);
      var k := Lookup(es, names[0]);
      if k < 0 then NoEntry else ParentWalk(d, InoOf(es[k]), names[1..])
  }

  function Last(names: seq<string>): string
    requires names != []
  {
    names[|names| - 1]
  }

  function Init(names: seq<string>): seq<string>
    requires names != []
  {
    names[..|names| - 1]
  }

  /** find_inode_from_path: an inode number or an error. The root is read off its own first entry. */
  function FindInode(d: Disk, names: seq<string>): int {
    if names == [] then InoOf(CellAt(d, SLOTS * DataOf(d, 0)))
    else match Walk(d, 0, names)
         case At(i) => i
         case NotDir => -ENOTDIR
         case NoEntry => -1
  }

  // ---- Writing ----

  function PutCell(cells: seq<Cell>, at: int, c: Cell): (r: seq<Cell>)
    ensures |r| == |cells|
  {
    if 0 <= at < |cells| then cells[at := c] else cells
  }

  function PutInode(inodes: seq<Inode>, i: nat, v: Inode): (r: seq<Inode>)
    ensures |r| == |inodes|
  {
    if i < |inodes| then inodes[i := v] else inodes
  }

  function PutBit(bits: seq<bool>, i: int, b: bool): (r: seq<bool>)
    ensures |r| == |bits|
  {
    if 0 <= i < |bits| then bits[i := b] else bits
  }

  function AddDentries(v: Inode, n: int): Inode {
    v.(dentryCount := v.dentryCount + n)
  }

  /** Storing an extent into slot 0 of 256 bytes; bytes that held an entry before read as empty extents. */
  function WithExtent(c: Cell, x: Extent): Cell {
    if c.Extents? && |c.list| == EXTENTS then Extents(c.list[0 := x])
    else Extents([x] + seq(EXTENTS - 1, _ => Extent(0, 0)))
  }

  // ---- create and mkdir ----

  datatype Allocation = InodesFull | BlocksFull(n: nat) | Got(n: nat, e: nat, b: nat)

  /** First fit: a block for the extents, then one for the data. */
  function FreePair(bits: seq<bool>, size: nat): Option<(nat, nat)>
    requires size <= |bits|
  {
    var e := FirstFree(bits, size);
    if e < 0 then None
    else
      var b := FirstFree(bits[e := true], size);
      if b < 0 then None else Some((e, b))
  }

  /** First fit: an inode, then the two blocks. */
  function Allocate(d: Disk): Allocation
    requires Shape(d)
  {
    var n := FirstFree(d.ibits, d.geo.inodeCount);
    if n < 0 then InodesFull
    else match FreePair(d.dbits, d.geo.dblockCount)
         case None => BlocksFull(n)
         case Some((e, b)) => Got(n, e, b)
  }

  /** The exits for lack of a data block: the inode bit and the inode counter stay changed. */
  function LeakInode(d: Disk, n: nat): Disk {
    d.(ibits := PutBit(d.ibits, n, true), freeInodes := d.freeInodes - 1)
  }

  function TakeBits(d: Disk, n: nat, e: nat, b: nat): Disk {
    d.(ibits := PutBit(d.ibits, n, true), dbits := PutBit(PutBit(d.dbits, e, true), b, true),
    freeInodes := d.freeInodes - 1, freeBlocks := d.freeBlocks - 2)
  }

  function NewInode(was: Inode, mode: bv32, now: int, extBlock: int): Inode {
    was.(mode := mode, links := 2, mtime := now, extCount := 1, extBlock := extBlock, dentryCount := 2)
  }

  /** Enter name x for the new inode n in directory p, and write the inode and its extent. */
  function Install(d: Disk, p: nat, x: string, n: nat, e: nat, b: nat, mode: bv32, now: int): Disk {
    var inodes := PutInode(d.inodes, p, AddDentries(InodeAt(d, p), 1));
    var cells := PutCell(d.cells, EntrySlot(d, p), Dentry(n, x));
    d.(inodes := PutInode(inodes, n, NewInode(InodeAt(d.(inodes := inodes), n), mode, now, d.geo.firstData + e)),
    cells := PutCell(cells, SLOTS * e,
                     WithExtent(CellAt(d.(cells := cells), SLOTS * e), Extent(b + d.geo.firstData, 1))))
  }

  /** The "." and ".." entries of a new directory whose data block is b. */
  function PutDots(d: Disk, b: nat, self: nat, parent: nat): Disk {
    d.(cells := PutCell(PutCell(d.cells, SLOTS * b, Dentry(self, ".")), SLOTS * b + 1, Dentry(parent, "..")))
  }

  function DirMode(mode: bv32): bv32 {
    0x4000 | mode
  }

  function RegMode(mode: bv32): bv32 {
    0x8000 | mode
  }

  datatype Outcome = Outcome(disk: Disk, ret: int)

  function MkdirAt(d: Disk, p: nat, x: string, mode: bv32, now: int): Outcome
    requires Shape(d)
  {
    match Allocate(d)
    case InodesFull => Outcome(d.(freeInodes := d.freeInodes - 1), 1)
    case BlocksFull(n) => Outcome(LeakInode(d, n), 1)
    case Got(n, e, b) =>
      var up := InoOf(CellAt(d, SLOTS * DataOf(d, p)));
      Outcome(PutDots(Install(TakeBits(d, n, e, b), p, x, n, e, b, DirMode(mode), now), b, n, up), 0)
  }

  function Mkdir(d: Disk, names: seq<string>, mode: bv32, now: int): Outcome
    requires Shape(d)
  {
    if names == [] then Outcome(d, 1)
    else match ParentWalk(d, 0, names)
         case NotDir => Outcome(d, -ENOTDIR)
         case NoEntry => Outcome(d, -ENOENT)
         case At(p) => MkdirAt(d, p, Last(names), mode, now)
  }

  function CreateAt(d: Disk, p: nat, x: string, mode: bv32, now: int): Outcome
    requires Shape(d)
  {
    match Allocate(d)
    case InodesFull => Outcome(d, 1)
    case BlocksFull(n) => Outcome(LeakInode(d, n), 1)
    case Got(n, e, b) =>
      Outcome(Install(TakeBits(d, n, e, b), p, x, n, e, b, RegMode(mode), now), 0)
  }

  function Create(d: Disk, names: seq<string>, mode: bv32, now: int): Outcome
    requires Shape(d)
  {
    if names == [] then Outcome(d, 1)
    else match ParentWalk(d, 0, names)
         case NotDir => Outcome(d, -ENOTDIR)
         case NoEntry => Outcome(d, -ENOENT)
         case At(p) => CreateAt(d, p, Last(names), mode, now)
  }

  // ---- rmdir and unlink ----

  /** Clear count data bits from bit number at on. */
  function FreeRun(bits: seq<bool>, at: int, count: nat): (r: seq<bool>)
    ensures |r| == |bits|
  {
    if count == 0 then bits else PutBit(FreeRun(bits, at, count - 1), at + count - 1, false)
  }

  /** Clear the bits of the first n extents of the extent block with bit number e. */
  function FreeExtents(d: Disk, e: int, n: nat): (r: seq<bool>)
    ensures |r| == |d.dbits|
  {
    if n == 0 then d.dbits
    else
      var x := ExtentAt(d, e, n - 1);
      FreeRun(FreeExtents(d, e, n - 1), x.start - d.geo.firstData, x.count)
  }

  /** How many blocks the first n extents span. */
  function SpanOf(d: Disk, e: int, n: nat): nat {
    if n == 0 then 0 else SpanOf(d, e, n - 1) + ExtentAt(d, e, n - 1).count
  }

  function ExtCount(d: Disk, t: nat): nat {
    if InodeAt(d, t).extCount < 0 then 0 else InodeAt(d, t).extCount
  }

  /** The data bitmap after every block of inode t is given back. */
  function FreeAll(d: Disk, t: nat): seq<bool> {
    PutBit(FreeExtents(d, ExtOf(d, t), ExtCount(d, t)), ExtOf(d, t), false)
  }

  /** The slots after moving those behind slot k of the n slots from at one place forward. */
  function Shifted(cells: seq<Cell>, at: int, k: int, n: int): (r: seq<Cell>)
    ensures |r| == |cells|
  {
    if 0 <= at && 0 <= k < n && at + n <= |cells|
    then cells[..at + k] + cells[at + k + 1..at + n] + cells[at + n - 1..]
    else cells
  }

  /** Slot k of directory p goes away, the later slots move up; dentry_count is not yet lowered. */
  function ShiftOut(d: Disk, p: nat, k: int): Disk {
    d.(cells := Shifted(d.cells, SLOTS * DataOf(d, p), k, InodeAt(d, p).dentryCount))
  }

  /** Remove slot k of directory p, which names inode t, and free t and its blocks. */
  function Remove(d: Disk, p: nat, k: int, t: nat, freed: nat): Disk {
    var s := ShiftOut(d, p, k);
    s.(dbits := FreeAll(d, t), ibits := PutBit(d.ibits, t, false),
    inodes := PutInode(d.inodes, p, AddDentries(InodeAt(d, p), -1)),
    freeInodes := d.freeInodes + 1, freeBlocks := d.freeBlocks + freed)
  }

  function RmdirAt(d: Disk, p: nat, x: string): Outcome {
    var es := EntriesOf(d, p);
    var k := Lookup(es, x);
    if k < 0 then Outcome(d, 1)
    else
      var t := InoOf(es[k]);
      if InodeAt(d, t).dentryCount > 2 then Outcome(d, -ENOTEMPTY)
      else Outcome(Remove(d, p, k, t, 2), 0)
  }

  function Rmdir(d: Disk, names: seq<string>): Outcome {
    if names == [] then Outcome(d, 1)
    else match ParentWalk(d, 0, names)
         case NotDir => Outcome(d, -ENOTDIR)
         case NoEntry => Outcome(d, -ENOENT)
         case At(p) => RmdirAt(d, p, Last(names))
  }

  function UnlinkAt(d: Disk, p: nat, x: string): Outcome {
    var es := EntriesOf(d, p);
    var k := Lookup(es, x);
    if k < 0 then Outcome(d, 1)
    else
      var t := InoOf(es[k]);
      if IsDir(d, t) then Outcome(d, -ENOTEMPTY)
      else Outcome(Remove(d, p, k, t, SpanOf(d, ExtOf(d, t), ExtCount(d, t)) + 1), 0)
  }

  function Unlink(d: Disk, names: seq<string>): Outcome {
    if names == [] then Outcome(d, 1)
    else match ParentWalk(d, 0, names)
         case NotDir => Outcome(d, -ENOTDIR)
         case NoEntry => Outcome(d, -ENOENT)
         case At(p) => UnlinkAt(d, p, Last(names))
  }

  // ---- rename ----

  /**
   * Append a copy of slot k of p under name y behind the slots of q, then take slot k out of p, whose slots were
   * located before the copy.
   */
  function Move(d: Disk, p: nat, k: int, q: nat, y: string): Disk {
    var first, n := SLOTS * DataOf(d, p), InodeAt(d, p).dentryCount;
    var copied := PutCell(d.cells, EntrySlot(d, q), Dentry(InoOf(CellAt(d, first + k)), y));
    var fewer := PutInode(d.inodes, p, AddDentries(InodeAt(d, p), -1));
    d.(cells := Shifted(copied, first, k, n),
    inodes := PutInode(fewer, q, AddDentries(InodeAt(d.(inodes := fewer), q), 1)))
  }

  /** rename once both parents are known: what is left to do after an existing target was dealt with. */
  function MoveAt(d: Disk, p: nat, x: string, q: nat, y: string): Outcome {
    if InodeAt(d, q).extCount > 512 then Outcome(d, -ENOSPC)
    else
      var k := Lookup(EntriesOf(d, p), x);
      if k < 0 then Outcome(d, 1) else Outcome(Move(d, p, k, q, y), 0)
  }

  /**
   * What rename does about an existing target: rmdir or unlink, whose result is ignored. Which of the two depends on
   * a mode word that is read from the wrong place. An entry in slot 0 counts as absent.
   */
  function ClearTarget(d: Disk, q: nat, to: seq<string>, misread: bool): Disk
    requires to != []
  {
    if Lookup(EntriesOf(d, q), Last(to)) <= 0 then d
    else if misread then Rmdir(d, to).disk else Unlink(d, to).disk
  }

  /** word & S_IFDIR */
  predicate HasDirBit(word: nat) {
    word / 0x4000 % 2 == 1
  }

  /** The word is tested as the mode of a record is. */
  lemma DirBitIsMode(word: nat, n: nat, v: Inode)
    requires n == word % 0x1_0000_0000 && v.mode == n as bv32
    ensures HasDirBit(word) <==> v.IsDir()
  {
    LowBits(word, n);
    DirBitOfNumber(n, v.mode);
  }

  lemma LowBits(word: nat, n: nat)
    requires n == word % 0x1_0000_0000
    ensures word / 0x4000 % 2 == n / 0x4000 % 2
  {
  }

  lemma DirBitOfNumber(n: nat, mode: bv32)
    requires n < 0x1_0000_0000 && mode == n as bv32
    ensures mode & 0x4000 != 0 <==> n / 0x4000 % 2 == 1
  {
  }

  /**
   * The mode word of the target's inode is looked for 64 * ino bytes behind the start of the source directory's slots.
   * For every fourth inode that is the number in a slot; for the others it is part of a name or of what an earlier
   * name left there, which is the parameter.
   */
  predicate ModeWordSaysDir(d: Disk, p: nat, ino: nat, misread: bool) {
    var at := SLOTS * DataOf(d, p) + ino / 4;
    if ino % 4 == 0 && 0 <= at < |d.cells| then HasDirBit(InoOf(CellAt(d, at))) else misread
  }

  predicate TargetSaysDir(d: Disk, p: nat, q: nat, y: string, misread: bool) {
    var k := Lookup(EntriesOf(d, q), y);
    k > 0 && ModeWordSaysDir(d, p, InoOf(EntriesOf(d, q)[k]), misread)
  }

  /** Both parents exist by the caller's assumption; without them the code would index outside the inode table. */
  function Rename(d: Disk, from: seq<string>, to: seq<string>, misread: bool): Outcome {
    if from == [] || to == [] then Outcome(d, 1)
    else match (Walk(d, 0, Init(from)), Walk(d, 0, Init(to)))
         case (At(p), At(q)) =>
           var word := TargetSaysDir(d, p, q, Last(to), misread);
           MoveAt(ClearTarget(d, q, to, word), p, Last(from), q, Last(to))
         case _ => Outcome(d, 1)
  }

  // ---- utimens and statfs ----

  function Utimens(d: Disk, names: seq<string>, time: int): Outcome {
    match Walk(d, 0, names)
    case NotDir => Outcome(d, -ENOTDIR)
    case NoEntry => Outcome(d, -ENOENT)
    case At(i) => Outcome(d.(inodes := PutInode(d.inodes, i, InodeAt(d, i).(mtime := time))), 0)
  }
}
