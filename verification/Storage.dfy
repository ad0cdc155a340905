/** Who owns which bit: the storage half of the invariant, and what each write leaves alone. */
module Storage {
  import Paths
  import opened Disk

  /** An ordinary name: one that is not a dot entry's. */
  predicate Plain(x: string) {
    Paths.IsName(x) && x != "." && x != ".."
  }

  /** The name and its terminating NUL fit a directory entry. */
  predicate Fits(x: string) {
    |x| < NAME_MAX
  }

  /** A slot that no search for an ordinary name stops at. */
  predicate Quiet(c: Cell) {
    !Plain(NameOf(c))
  }

  /**
   * The record and extent of a live inode: one extent of one block, both blocks in range and taken. First fit hands
   * out blocks in pairs, so the data block is the odd one behind the extent block.
   */
  ghost predicate Stored(d: Disk, i: nat) {
    var v, e, b := InodeAt(d, i), ExtOf(d, i), DataOf(d, i);
    && i < d.geo.inodeCount && i < |d.ibits| && i < |d.inodes| && d.ibits[i]
    && v.extCount == 1 && (if v.IsDir() then 2 <= v.dentryCount <= SLOTS else v.dentryCount == 2)
    && 0 <= e < d.geo.dblockCount && 0 <= b < d.geo.dblockCount && e % 2 == 0 && b == e + 1
    && CellAt(d, SLOTS * e).Extents? && ExtentAt(d, e, 0).count == 1
    && e < |d.dbits| && b < |d.dbits| && d.dbits[e] && d.dbits[b]
  }

  predicate Owns(d: Disk, i: nat, b: int) {
    b == ExtOf(d, i) || b == DataOf(d, i)
  }

  predicate Apart(d: Disk, i: nat, j: nat) {
    !Owns(d, i, ExtOf(d, j)) && !Owns(d, i, DataOf(d, j))
  }

  ghost predicate Owned(d: Disk, live: set<nat>, b: int) {
    exists i :: i in live && Owns(d, i, b)
  }

  /** The storage invariant for a set of live inodes: each holds its own two blocks, and no other data bit is taken. */
  ghost predicate Store(d: Disk, live: set<nat>) {
    && Shape(d)
    && (forall i {:trigger Stored(d, i)} :: i in live ==> Stored(d, i))
    && (forall i, j {:trigger Apart(d, i, j)} :: i in live && j in live && i != j ==> Apart(d, i, j))
    && (forall b {:trigger Owned(d, live, b)} :: 0 <= b < d.geo.dblockCount && d.dbits[b] ==> Owned(d, live, b))
  }

  /** The first two slots of a block carry no ordinary name. */
  predicate QuietBlock(d: Disk, b: int) {
    Quiet(CellAt(d, SLOTS * b)) && Quiet(CellAt(d, SLOTS * b + 1))
  }

  /** No block that can become a data block starts with an ordinary name, which a file there would seem to contain. */
  ghost predicate QuietImage(d: Disk) {
    forall b {:trigger QuietBlock(d, b)} :: 0 <= b < d.geo.dblockCount && b % 2 == 1 ==> QuietBlock(d, b)
  }

  lemma QuietAt(d: Disk, b: nat)
    requires QuietImage(d) && b < d.geo.dblockCount && b % 2 == 1
    ensures Quiet(CellAt(d, SLOTS * b)) && Quiet(CellAt(d, SLOTS * b + 1))
  {
    assert QuietBlock(d, b);
  }

  lemma LiveIsStored(d: Disk, live: set<nat>, i: nat)
    requires Store(d, live) && i in live
    ensures Stored(d, i)
  {
  }

  /** Ownership carries over to the inodes that stay, when the blocks of the others are given back. */
  lemma OwnersKept(d: Disk, d': Disk, live: set<nat>, rest: set<nat>)
    requires Store(d, live) && Shape(d') && d'.geo == d.geo && rest <= live
    requires forall i {:trigger ExtOf(d', i)} {:trigger i in rest} :: i in rest ==>
               ExtOf(d', i) == ExtOf(d, i) && DataOf(d', i) == DataOf(d, i)
    requires forall b {:trigger d'.dbits[b]} :: 0 <= b < d.geo.dblockCount && d'.dbits[b] ==>
               d.dbits[b] && forall i {:trigger i in live} :: i in live && i !in rest ==> !Owns(d, i, b)
    ensures forall i, j {:trigger Apart(d', i, j)} :: i in rest && j in rest && i != j ==> Apart(d', i, j)
    ensures forall b {:trigger Owned(d', rest, b)} :: 0 <= b < d.geo.dblockCount && d'.dbits[b] ==> Owned(d', rest, b)
  {
    forall i, j | i in rest && j in rest && i != j
      ensures Apart(d', i, j)
    {
      assert Apart(d, i, j);
    }
    forall b | 0 <= b < d.geo.dblockCount && d'.dbits[b]
      ensures Owned(d', rest, b)
    {
      assert Owned(d, live, b);
      var i :| i in live && Owns(d, i, b);
      assert i in rest && Owns(d', i, b);
    }
  }

  /** The pointers of inode i lead to an extent and to slots inside the data region. */
  ghost predicate Readable(d: Disk, i: nat) {
    && i < |d.inodes| && 0 <= ExtOf(d, i) < d.geo.dblockCount
    && CellAt(d, SLOTS * ExtOf(d, i)).Extents? && |CellAt(d, SLOTS * ExtOf(d, i)).list| > 0
    && 0 <= DataOf(d, i) && 0 <= InodeAt(d, i).dentryCount && EntrySlot(d, i) <= |d.cells|
  }

  /** Bits and counters do not matter to it. */
  lemma SameReadable(d: Disk, d': Disk, i: nat)
    requires d'.geo == d.geo && d'.inodes == d.inodes && d'.cells == d.cells && Readable(d, i)
    ensures Readable(d', i)
  {
    assert CellAt(d', SLOTS * ExtOf(d, i)) == CellAt(d, SLOTS * ExtOf(d, i));
  }

  // ---- The directory graph ----

  datatype Node = File | Dir(entries: seq<Cell>)

  function NodeOf(d: Disk, i: nat): Node {
    if IsDir(d, i) then Dir(EntriesOf(d, i)) else File
  }

  /** The entries with index k left out. */
  function Without(es: seq<Cell>, k: int): seq<Cell> {
    if 0 <= k < |es| then es[..k] + es[k + 1..] else es
  }

  lemma WithoutAt(es: seq<Cell>, k: nat, j: nat)
    requires k < |es| && j < |es| - 1
    ensures |Without(es, k)| == |es| - 1 && Without(es, k)[j] == es[if j < k then j else j + 1]
  {
  }

  function Graph(d: Disk, live: set<nat>): map<nat, Node> {
    map i | i in live :: NodeOf(d, i)
  }

  /** A block that nothing wrote to. */
  ghost predicate SameBlock(d: Disk, d': Disk, b: int) {
    |d'.cells| == |d.cells| &&
    forall at :: SLOTS * b <= at < SLOTS * b + SLOTS ==> CellAt(d', at) == CellAt(d, at)
  }

  /** An inode whose record and two blocks are kept reads as before. */
  lemma SameBlocks(d: Disk, d': Disk, i: nat)
    requires d.geo == d'.geo && Shape(d) && Stored(d, i)
    requires InodeAt(d', i).(mtime := 0) == InodeAt(d, i).(mtime := 0)
    requires SameBlock(d, d', ExtOf(d, i)) && SameBlock(d, d', DataOf(d, i))
    ensures ExtOf(d', i) == ExtOf(d, i) && DataOf(d', i) == DataOf(d, i)
    ensures NodeOf(d', i) == NodeOf(d, i) && EntriesOf(d', i) == EntriesOf(d, i)
  {
    var before, after := EntriesOf(d, i), EntriesOf(d', i);
    assert DataOf(d', i) == DataOf(d, i) by {
      assert CellAt(d', SLOTS * ExtOf(d, i)) == CellAt(d, SLOTS * ExtOf(d, i));
    }
    forall k | 0 <= k < |before|
      ensures after[k] == before[k]
    {
      assert CellAt(d', SLOTS * DataOf(d, i) + k) == CellAt(d, SLOTS * DataOf(d, i) + k);
    }
  }

  /** One more live slot behind the old ones appends one entry. */
  lemma EntriesAppended(d: Disk, d': Disk, p: nat, c: Cell)
    requires |d'.cells| == |d.cells| && DataOf(d', p) == DataOf(d, p) >= 0
    requires InodeAt(d', p).dentryCount == InodeAt(d, p).dentryCount + 1 > 0
    requires EntrySlot(d, p) < |d.cells|
    requires CellAt(d', EntrySlot(d, p)) == c
    requires forall at :: SLOTS * DataOf(d, p) <= at < EntrySlot(d, p) ==>
               CellAt(d', at) == CellAt(d, at)
    ensures EntriesOf(d', p) == EntriesOf(d, p) + [c]
  {
    var before, after := EntriesOf(d, p), EntriesOf(d', p);
    forall k | 0 <= k < |before|
      ensures after[k] == before[k]
    {
      assert CellAt(d', SLOTS * DataOf(d, p) + k) == CellAt(d, SLOTS * DataOf(d, p) + k);
    }
  }
}
