/** mkfs: where the regions lie, which bitmap words are cleared, and the image that results. */
module Mkfs {
  import opened Bitmap
  import opened Disk
  import opened Storage
  import opened Tree
  import FileSystem
  import opened Ledger

  const BLOCK := 4096         // bytes
  const WORDS := 1024         // 32-bit words in a block
  const BITS := 32768         // bits in a block
  const INODE := 64           // bytes of an inode record

  /** Division rounded up: the least q with q * b >= a. */
  function CeilDivision(a: nat, b: nat): (q: nat)
    requires b > 0
    ensures (q - 1) * b < a <= q * b
  {
    if a % b == 0 then a / b else a / b + 1
  }

  lemma FewerDoNotSuffice(a: nat, b: nat, q: nat)
    requires b > 0 && q < CeilDivision(a, b)
    ensures q * b < a
  {
    var c := CeilDivision(a, b);
    assert q * b <= (c - 1) * b;
  }

  /** The number of data blocks that are left over; negative when the image is too small. */
  function DataBlocks(size: nat, nInodes: nat): int {
    size / BLOCK - 1 - CeilDivision(nInodes, BITS) - CeilDivision(size / BLOCK, BITS)
    - CeilDivision(nInodes * INODE, BLOCK)
  }

  function Layout(size: nat, nInodes: nat): Geometry
    requires DataBlocks(size, nInodes) >= 0
  {
    var nIb := CeilDivision(nInodes, BITS);
    var nDb := CeilDivision(size / BLOCK, BITS);
    var nIblock := CeilDivision(nInodes * INODE, BLOCK);
    Geometry(size, 1, 1 + nIb, 1 + nIb + nDb, 1 + nIb + nDb + nIblock,
             nInodes, nIb, nDb, nIblock, DataBlocks(size, nInodes), BitSlot, TableSlot)
  }

  /** The five regions follow each other without gap or overlap and fill the image's whole blocks. */
  ghost predicate Tiles(g: Geometry) {
    && g.firstIb == 1 && g.firstDb == g.firstIb + g.ibCount && g.firstInode == g.firstDb + g.dbCount
    && g.firstData == g.firstInode + g.iblockCount && g.firstData + g.dblockCount == g.size / BLOCK
  }

  /** Every inode, inode bit, data bit and data block number in range has its address inside its own region. */
  ghost predicate Addressable(g: Geometry) {
    && (forall i :: 0 <= i < g.inodeCount ==> WordOf(g.firstIb, i) < WORDS * g.firstDb)
    && (forall b :: 0 <= b < g.dblockCount ==> WordOf(g.firstDb, b) < WORDS * g.firstInode)
    && (forall i :: 0 <= i < g.inodeCount ==> RecordEnd(g, i) <= BLOCK * g.firstData)
    && (forall b :: 0 <= b < g.dblockCount ==> BlockEnd(g, b) <= g.size)
  }

  /** The word that holds bit i of a bitmap that starts at the given block. */
  function WordOf(block: nat, i: int): int {
    WORDS * block + i / 32
  }

  function RecordEnd(g: Geometry, i: int): int {
    BLOCK * g.firstInode + INODE * i + INODE
  }

  function BlockEnd(g: Geometry, b: int): int {
    BLOCK * (g.firstData + b) + BLOCK
  }

  lemma LayoutTiles(size: nat, nInodes: nat)
    requires DataBlocks(size, nInodes) >= 0
    ensures Tiles(Layout(size, nInodes)) && Addressable(Layout(size, nInodes))
  {
  }

  lemma LayoutIsDecoded(size: nat, nInodes: nat)
    requires DataBlocks(size, nInodes) >= 0
    ensures Decoded(Layout(size, nInodes))
  {
  }

  /**
   * The inode table is the smallest whole number of blocks of 4096 bytes that holds a record of 64 bytes for each
   * inode, and each bitmap the smallest that has a bit for each inode or each block.
   */
  lemma LayoutIsTight(size: nat, nInodes: nat, blocks: nat)
    requires DataBlocks(size, nInodes) >= 0
    ensures var g := Layout(size, nInodes);
            && (64 * nInodes <= 4096 * blocks <==> g.iblockCount <= blocks)
            && (nInodes <= 8 * 4096 * blocks <==> g.ibCount <= blocks)
            && (size / 4096 <= 8 * 4096 * blocks <==> g.dbCount <= blocks)
  {
    TightCeil(nInodes * INODE, BLOCK, blocks);
    TightCeil(nInodes, BITS, blocks);
    TightCeil(size / BLOCK, BITS, blocks);
  }

  lemma TightCeil(a: nat, b: nat, q: nat)
    requires b > 0
    ensures a <= q * b <==> CeilDivision(a, b) <= q
  {
    var c := CeilDivision(a, b);
    if c <= q {
      assert c * b <= q * b;
    } else {
      FewerDoNotSuffice(a, b, q);
    }
  }

  /** The facts about region sizes that the calls rely on. */
  predicate Sound(g: Geometry) {
    && g.firstIb + g.ibCount <= g.firstDb && g.firstDb + g.dbCount <= g.firstInode <= g.firstData
    && 0 < g.inodeCount <= BITS * g.ibCount && 2 <= g.dblockCount <= BITS * g.dbCount
    && g.inodeCount <= BLOCK / INODE * g.iblockCount
  }

  /** Words in the metadata blocks, records in the inode table, cells in the data region. */
  function RegionLengths(g: Geometry): (nat, nat, nat) {
    (WORDS * g.firstData, BLOCK / INODE * g.iblockCount, SLOTS * g.dblockCount)
  }

  type SoundGeometry = g: Geometry | Sound(g) witness Geometry(6 * BLOCK, 1, 2, 3, 4, 1, 1, 1, 1, 2, BitSlot, TableSlot)

  // ---- Clearing the bitmaps ----

  /** One word per inode, far more than the inode bitmap has: the run ends inside the inode table at the latest. */
  predicate ClearedByInodeLoop(g: Geometry, w: int) {
    WORDS * g.firstIb <= w < WORDS * g.firstIb + g.inodeCount
  }

  /** One word per block of the data bitmap: far fewer than the bitmap has. */
  predicate ClearedByDataLoop(g: Geometry, w: int) {
    WORDS * g.firstDb <= w < WORDS * g.firstDb + g.dbCount
  }

  /** The two clearing loops on the words of the metadata blocks. */
  method ClearBitmaps(words: array<bv32>, g: Geometry)
    requires Tiles(g) && Addressable(g) && words.Length == WORDS * g.firstData
    modifies words
    ensures words[..] == Cleared(g, old(words[..]))
  {
    for i := 0 to g.inodeCount
      invariant forall w :: 0 <= w < words.Length ==>
                  words[w] == if WORDS * g.firstIb <= w < WORDS * g.firstIb + i then 0 else old(words[w])
    {
      assert RecordEnd(g, i) <= BLOCK * g.firstData;
      words[WORDS * g.firstIb + i] := 0;
    }
    for i := 0 to g.dbCount
      invariant forall w :: 0 <= w < words.Length ==>
                  words[w] == if ClearedByInodeLoop(g, w) || WORDS * g.firstDb <= w < WORDS * g.firstDb + i
                              then 0 else old(words[w])
    {
      words[WORDS * g.firstDb + i] := 0;
    }
  }

  // ---- Inode records in the way of the first loop ----

  /** How many words of inode record r the inode loop clears when it runs on into the inode table. */
  function WordsCleared(g: Geometry, r: nat): (k: nat)
    ensures k <= INODE / 4
  {
    var k := WORDS * g.firstIb + g.inodeCount - WORDS * g.firstInode - INODE / 4 * r;
    if k < 0 then 0 else if k > INODE / 4 then INODE / 4 else k
  }

  /** A number without the first k of its 32-bit words. */
  function Cut(v: int, k: int): int {
    if k <= 0 then v
    else if k == 1 then v - v % 0x1_0000_0000
    else if k == 2 then v - v % 0x1_0000_0000_0000_0000
    else v - v % 0x1_0000_0000_0000_0000_0000_0000
  }

  /** A field of n words of which k are cleared. */
  function CutField(v: int, k: int, n: nat): int {
    if k >= n then 0 else Cut(v, k)
  }

  /**
   * A record without its first k words: mode, padding, links, size, time, the extent count, padding, the extent block,
   * the entry count, padding.
   */
  function Trimmed(v: Inode, k: nat): Inode {
    Inode(if k > 0 then 0 else v.mode, CutNat(v.links, k - 2, 2), CutNat(v.size, k - 4, 2), CutField(v.mtime, k - 6, 4),
          if k > 10 then 0 else v.extCount, CutField(v.extBlock, k - 12, 2), if k > 14 then 0 else v.dentryCount,
          TrimmedPads(v.pads, k))
  }

  function CutNat(v: nat, k: int, n: nat): nat {
    CutField(v, k, n)
  }

  /** Padding bytes 0-3 are in word 1, 4-5 in word 10, 6-9 in word 11, 10-11 in word 14 and 12-15 in word 15. */
  function TrimmedPads(pads: string, k: nat): (r: string)
    ensures |r| == |pads|
  {
    seq(|pads|, j requires 0 <= j < |pads| => if PadWord(j) < k then '\0' else pads[j])
  }

  function PadWord(j: nat): nat {
    if j < 4 then 1 else if j < 6 then 10 else if j < 10 then 11 else if j < 12 then 14 else 15
  }

  function ClearedRecords(g: Geometry, inodes: seq<Inode>): (r: seq<Inode>)
    ensures |r| == |inodes|
    ensures forall i :: 0 <= i < |inodes| ==> r[i] == Trimmed(inodes[i], WordsCleared(g, i))
  {
    seq(|inodes|, i requires 0 <= i < |inodes| => Trimmed(inodes[i], WordsCleared(g, i)))
  }

  /** What the inode loop does to the records, which are kept apart from the words here. */
  method ClearRecords(inodes: array<Inode>, g: Geometry)
    modifies inodes
    ensures inodes[..] == ClearedRecords(g, old(inodes[..]))
  {
    for i := 0 to inodes.Length
      invariant forall r :: 0 <= r < i ==> inodes[r] == Trimmed(old(inodes[r]), WordsCleared(g, r))
      invariant forall r :: i <= r < inodes.Length ==> inodes[r] == old(inodes[r])
    {
      inodes[i] := Trimmed(inodes[i], WordsCleared(g, i));
    }
  }

  /** It reaches record r exactly if there are that many more inodes than words in the two bitmaps. */
  lemma RecordsKeptIff(g: Geometry, r: nat)
    requires Tiles(g)
    ensures WordsCleared(g, r) == 0 <==> g.inodeCount <= WORDS * (g.ibCount + g.dbCount) + INODE / 4 * r
  {
  }

  // ---- The formatted image ----

  function RootInode(was: Inode, g: Geometry): Inode {
    was.(mode := 0x4000, links := 2, size := g.size, extCount := 1, extBlock := g.firstData, dentryCount := 2)
  }

  function RootCells(d: Disk): seq<Cell> {
    PutCell(PutCell(PutCell(d.cells, 0, WithExtent(CellAt(d, 0), Extent(d.geo.firstData + 1, 1))),
                    SLOTS, Dentry(0, ".")), SLOTS + 1, Dentry(0, ".."))
  }

  /** The root inode, its extent block 0 and its entries in block 1. */
  function WithRoot(d: Disk): Disk {
    d.(ibits := PutBit(d.ibits, 0, true), dbits := PutBit(PutBit(d.dbits, 0, true), 1, true),
    inodes := PutInode(d.inodes, 0, RootInode(InodeAt(d, 0), d.geo)), cells := RootCells(d))
  }

  /** What init_super, init_inode and init_root make of cleared bitmaps and of whatever the other regions held. */
  function Formatted(g: Geometry, ibits: seq<bool>, dbits: seq<bool>, inodes: seq<Inode>, cells: seq<Cell>): Disk {
    WithRoot(Disk(g, g.inodeCount - 1, g.dblockCount - 2, ibits, dbits, inodes, cells))
  }

  const RootOnly: Names := map[[] := 0]

  /** The regions have the sizes that the superblock says; what they hold is arbitrary. */
  ghost predicate Formattable(g: Geometry, ibits: seq<bool>, dbits: seq<bool>, inodes: seq<Inode>, cells: seq<Cell>) {
    && 0 < g.inodeCount <= |ibits| && g.inodeCount <= |inodes|
    && 2 <= g.dblockCount <= |dbits| && |cells| == SLOTS * g.dblockCount
  }

  /** No odd block behind the root's own starts with an ordinary name, be it an old entry's or an old extent's. */
  ghost predicate QuietLeftovers(g: Geometry, cells: seq<Cell>)
    requires |cells| == SLOTS * g.dblockCount
  {
    forall b :: 3 <= b < g.dblockCount && b % 2 == 1 ==> QuietSlots(cells, b)
  }

  predicate QuietSlots(cells: seq<Cell>, b: nat)
    requires SLOTS * b + 1 < |cells|
  {
    Quiet(cells[SLOTS * b]) && Quiet(cells[SLOTS * b + 1])
  }

  lemma RootIsStored(g: Geometry, ibits: seq<bool>, dbits: seq<bool>, inodes: seq<Inode>, cells: seq<Cell>)
    requires Formattable(g, ibits, dbits, inodes, cells)
    ensures var d := Formatted(g, ibits, dbits, inodes, cells);
            && Shape(d) && Stored(d, 0) && ExtOf(d, 0) == 0 && DataOf(d, 0) == 1
            && NodeOf(d, 0) == Dir([Dentry(0, "."), Dentry(0, "..")])
  {
    var d := Formatted(g, ibits, dbits, inodes, cells);
    assert CellAt(d, 0).list[0] == Extent(g.firstData + 1, 1);
    assert EntriesOf(d, 0) == [Dentry(0, "."), Dentry(0, "..")];
  }

  /** No file on a freshly formatted image will seem to have children if and only if the old contents are quiet. */
  lemma FormattedQuietIff(g: Geometry, ibits: seq<bool>, dbits: seq<bool>, inodes: seq<Inode>, cells: seq<Cell>)
    requires Formattable(g, ibits, dbits, inodes, cells)
    ensures QuietImage(Formatted(g, ibits, dbits, inodes, cells)) <==> QuietLeftovers(g, cells)
  {
    var d := Formatted(g, ibits, dbits, inodes, cells);
    assert QuietBlock(d, 1);
    forall b: nat | 3 <= b < g.dblockCount
      ensures QuietBlock(d, b) == QuietSlots(cells, b)
    {
      assert CellAt(d, SLOTS * b) == cells[SLOTS * b] && CellAt(d, SLOTS * b + 1) == cells[SLOTS * b + 1];
    }
  }

  lemma RootSpells(g: map<nat, Node>)
    requires g == map[0 := Dir([Dentry(0, "."), Dentry(0, "..")])]
    ensures Spells(g, RootOnly) && DotDots(g, RootOnly)
  {
    assert RootOnly.Values == {0} by {
      assert RootOnly[[]] == 0;
    }
  }

  /** No data bit besides the root's two is set. */
  ghost predicate OnlyRootBits(g: Geometry, dbits: seq<bool>)
    requires g.dblockCount <= |dbits|
  {
    forall b :: 2 <= b < g.dblockCount ==> !dbits[b]
  }

  /**
   * The formatted image is consistent, with the root as its only path, if and only if clearing left no stale data
   * bit behind.
   */
  lemma FormattedConsistentIff(g: Geometry, ibits: seq<bool>, dbits: seq<bool>, inodes: seq<Inode>, cells: seq<Cell>)
    requires Formattable(g, ibits, dbits, inodes, cells)
    ensures FileSystem.Consistent(Formatted(g, ibits, dbits, inodes, cells), RootOnly) <==> OnlyRootBits(g, dbits)
  {
    var d := Formatted(g, ibits, dbits, inodes, cells);
    RootIsStored(g, ibits, dbits, inodes, cells);
    var graph := Graph(d, RootOnly.Values);
    assert RootOnly.Values == {0} by {
      assert RootOnly[[]] == 0;
    }
    assert graph == map[0 := NodeOf(d, 0)];
    RootSpells(graph);
    if OnlyRootBits(g, dbits) {
      forall b | 0 <= b < g.dblockCount && d.dbits[b]
        ensures Owned(d, {0}, b)
      {
        assert Owns(d, 0, b);
      }
    } else {
      var b :| 2 <= b < g.dblockCount && dbits[b];
      assert !Owned(d, {0}, b);
    }
  }

  lemma {:induction false} AllClear(bits: seq<bool>, n: nat)
    requires n <= |bits| && forall i :: 0 <= i < n ==> !bits[i]
    ensures CountClear(bits, n) == n
  {
    if n > 0 {
      AllClear(bits, n - 1);
    }
  }

  /** The counters of a freshly formatted image are exact. */
  lemma FormattedBalanced(g: Geometry, ibits: seq<bool>, dbits: seq<bool>, inodes: seq<Inode>, cells: seq<Cell>)
    requires Formattable(g, ibits, dbits, inodes, cells)
    requires (forall i :: 0 <= i < g.inodeCount ==> !ibits[i]) && (forall b :: 0 <= b < g.dblockCount ==> !dbits[b])
    ensures Balanced(Formatted(g, ibits, dbits, inodes, cells), {0}, Tally(0, 0))
  {
    AllClear(ibits, g.inodeCount);
    AllClear(dbits, g.dblockCount);
    CountAfterUpdate(ibits, 0, true, g.inodeCount);
    CountAfterUpdate(dbits, 0, true, g.dblockCount);
    CountAfterUpdate(dbits[0 := true], 1, true, g.dblockCount);
  }

  // ---- Which stale bits survive ----

  function IbWords(g: Geometry, ws: seq<bv32>): seq<bv32>
    requires WORDS * (g.firstIb + g.ibCount) <= |ws|
  {
    ws[WORDS * g.firstIb..WORDS * (g.firstIb + g.ibCount)]
  }

  function DbWords(g: Geometry, ws: seq<bv32>): seq<bv32>
    requires WORDS * (g.firstDb + g.dbCount) <= |ws|
  {
    ws[WORDS * g.firstDb..WORDS * (g.firstDb + g.dbCount)]
  }

  /** The metadata words after the two clearing loops. */
  function Cleared(g: Geometry, ws: seq<bv32>): (r: seq<bv32>)
    ensures |r| == |ws|
    ensures forall w :: 0 <= w < |ws| ==>
              r[w] == if ClearedByInodeLoop(g, w) || ClearedByDataLoop(g, w) then 0 else ws[w]
  {
    seq(|ws|, w requires 0 <= w < |ws| => if ClearedByInodeLoop(g, w) || ClearedByDataLoop(g, w) then 0 else ws[w])
  }

  /** The sizes that Layout computes, and words for all metadata blocks. */
  ghost predicate Sized(g: Geometry, ws: seq<bv32>) {
    Tiles(g) && Addressable(g) && Sound(g) && |ws| == WORDS * g.firstData
  }

  lemma ZeroHasNoBits(j: nat)
    requires j < 32
    ensures !TestBit(0, j)
  {
  }

  /** Every inode bit in use is cleared. */
  lemma InodeBitsCleared(g: Geometry, ws: seq<bv32>, i: nat)
    requires Sized(g, ws) && i < g.inodeCount
    ensures !Bits(IbWords(g, Cleared(g, ws)))[i]
  {
    BitAt(IbWords(g, Cleared(g, ws)), i);
    ZeroHasNoBits(i % 32);
  }

  /** The word of data bit b is reached by one of the loops. */
  predicate Reached(g: Geometry, b: int) {
    b / 32 < g.dbCount || WORDS * g.ibCount + b / 32 < g.inodeCount
  }

  /** A data bit is set after clearing exactly if it was set before and no loop reached its word. */
  lemma DataBitsCleared(g: Geometry, ws: seq<bv32>, b: nat)
    requires Sized(g, ws) && b < g.dblockCount
    ensures Bits(DbWords(g, Cleared(g, ws)))[b] <==> !Reached(g, b) && Bits(DbWords(g, ws))[b]
  {
    BitAt(DbWords(g, Cleared(g, ws)), b);
    BitAt(DbWords(g, ws), b);
    ZeroHasNoBits(b % 32);
    WordCleared(g, ws, b / 32);
  }

  lemma WordCleared(g: Geometry, ws: seq<bv32>, w: nat)
    requires Sized(g, ws) && w < WORDS * g.dbCount
    ensures DbWords(g, Cleared(g, ws))[w] ==
            if w < g.dbCount || WORDS * g.ibCount + w < g.inodeCount then 0 else DbWords(g, ws)[w]
  {
  }

  /** What must hold of the image before mkfs: no data bit is set where neither loop clears. */
  ghost predicate CleanWhereUnreached(g: Geometry, ws: seq<bv32>)
    requires Sized(g, ws)
  {
    forall b :: 0 <= b < g.dblockCount && !Reached(g, b) ==> !Bits(DbWords(g, ws))[b]
  }

  /** The state between clearing the bitmaps and writing the root. */
  function Unrooted(g: Geometry, ws: seq<bv32>, inodes: seq<Inode>, cells: seq<Cell>): Disk
    requires WORDS * (g.firstIb + g.ibCount) <= |ws| && WORDS * (g.firstDb + g.dbCount) <= |ws|
  {
    Disk(g, g.inodeCount - 1, g.dblockCount - 2,
         Bits(IbWords(g, Cleared(g, ws))), Bits(DbWords(g, Cleared(g, ws))), inodes, cells)
  }

  /** The formatted image, from the old contents of all regions. */
  function FormattedFrom(g: Geometry, ws: seq<bv32>, inodes: seq<Inode>, cells: seq<Cell>): Disk
    requires WORDS * (g.firstIb + g.ibCount) <= |ws| && WORDS * (g.firstDb + g.dbCount) <= |ws|
  {
    WithRoot(Unrooted(g, ws, inodes, cells))
  }

  /**
   * The inode table after mkfs: the root's record gets every field but its time; a record that starts behind the last
   * word of the inode loop, with one word for each inode, stays as it was.
   */
  lemma FormattedRecords(g: Geometry, ws: seq<bv32>, inodes: seq<Inode>, cells: seq<Cell>, r: nat)
    requires WORDS * (g.firstIb + g.ibCount) <= |ws| && WORDS * (g.firstDb + g.dbCount) <= |ws| && r < |inodes|
    ensures var d := FormattedFrom(g, ws, ClearedRecords(g, inodes), cells);
            var kept := Trimmed(inodes[r], WordsCleared(g, r));
            var root := Inode(0x4000, 2, g.size, kept.mtime, 1, g.firstData, 2, kept.pads);
            && |d.inodes| == |inodes| && d.inodes[r] == (if r == 0 then root else kept)
            && (4096 * g.firstIb + 4 * g.inodeCount <= 4096 * g.firstInode + 64 * r ==> kept == inodes[r])
  {
    if WordsCleared(g, r) == 0 {
      assert TrimmedPads(inodes[r].pads, 0) == inodes[r].pads;
    }
  }

  /** mkfs yields a consistent image, and exact counters, if and only if the unreached words were clean before. */
  lemma FormatIsConsistentIff(g: Geometry, ws: seq<bv32>, inodes: seq<Inode>, cells: seq<Cell>)
    requires Sized(g, ws) && Formattable(g, Bits(IbWords(g, ws)), Bits(DbWords(g, ws)), inodes, cells)
    ensures FileSystem.Consistent(FormattedFrom(g, ws, inodes, cells), RootOnly) <==> CleanWhereUnreached(g, ws)
    ensures QuietImage(FormattedFrom(g, ws, inodes, cells)) <==> QuietLeftovers(g, cells)
    ensures CleanWhereUnreached(g, ws) ==> Balanced(FormattedFrom(g, ws, inodes, cells), {0}, Tally(0, 0))
  {
    var ibits, dbits := Bits(IbWords(g, Cleared(g, ws))), Bits(DbWords(g, Cleared(g, ws)));
    forall i | 0 <= i < g.inodeCount
      ensures !ibits[i]
    {
      InodeBitsCleared(g, ws, i);
    }
    forall b | 0 <= b < g.dblockCount
      ensures dbits[b] <==> !Reached(g, b) && Bits(DbWords(g, ws))[b]
    {
      DataBitsCleared(g, ws, b);
    }
    assert Reached(g, 0) && Reached(g, 1);
    FormattedConsistentIff(g, ibits, dbits, inodes, cells);
    FormattedQuietIff(g, ibits, dbits, inodes, cells);
    if CleanWhereUnreached(g, ws) {
      FormattedBalanced(g, ibits, dbits, inodes, cells);
    }
  }

  lemma LayoutIsSized(size: nat, nInodes: nat, ws: seq<bv32>)
    requires nInodes > 0 && DataBlocks(size, nInodes) >= 2 && |ws| == WORDS * Layout(size, nInodes).firstData
    ensures Sized(Layout(size, nInodes), ws)
  {
    LayoutTiles(size, nInodes);
  }
}
