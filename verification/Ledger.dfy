/** The cached free counters against the bitmaps, and the bitmaps against the live inodes, over whole calls. */
module Ledger {
  import opened Bitmap
  import opened Disk
  import Storage
  import Installing
  import Removing
  import opened Tree
  import opened Operations
  import Calls

  /**
   * What went astray: inodes whose bit stayed set when no data block was left, and decrements of the inode counter
   * by mkdir calls that found no inode.
   */
  datatype Tally = Tally(leaked: nat, drift: nat)

  function ClearInodes(d: Disk): nat
    requires Shape(d)
  {
    CountClear(d.ibits, d.geo.inodeCount)
  }

  function ClearBlocks(d: Disk): nat
    requires Shape(d)
  {
    CountClear(d.dbits, d.geo.dblockCount)
  }

  /** Set data bits are two for each live inode and counted exactly; inode figures are off by the tally. */
  ghost predicate Balanced(d: Disk, live: set<nat>, t: Tally) {
    && Shape(d)
    && d.freeBlocks == ClearBlocks(d) == d.geo.dblockCount - 2 * |live|
    && d.freeInodes == ClearInodes(d) - t.drift
    && ClearInodes(d) == d.geo.inodeCount - |live| - t.leaked
  }

  lemma TakeBitsBalance(d: Disk, d': Disk, live: set<nat>, t: Tally, n: nat, e: nat, b: nat)
    requires Balanced(d, live, t) && n !in live
    requires n < d.geo.inodeCount && !d.ibits[n]
    requires e < b < d.geo.dblockCount && !d.dbits[e] && !d.dbits[b]
    requires d'.geo == d.geo && Shape(d')
    requires d'.ibits == d.ibits[n := true] && d'.dbits == d.dbits[e := true][b := true]
    requires d'.freeInodes == d.freeInodes - 1 && d'.freeBlocks == d.freeBlocks - 2
    ensures Balanced(d', live + {n}, t)
  {
    CountAfterUpdate(d.ibits, n, true, d.geo.inodeCount);
    CountAfterUpdate(d.dbits, e, true, d.geo.dblockCount);
    CountAfterUpdate(d.dbits[e := true], b, true, d.geo.dblockCount);
  }

  lemma GiveBackBalance(d: Disk, d': Disk, live: set<nat>, t: Tally, n: nat, e: nat, b: nat)
    requires Balanced(d, live, t) && n in live
    requires n < d.geo.inodeCount && d.ibits[n]
    requires e < d.geo.dblockCount && b < d.geo.dblockCount && e != b && d.dbits[e] && d.dbits[b]
    requires d'.geo == d.geo && Shape(d')
    requires d'.ibits == d.ibits[n := false] && d'.dbits == d.dbits[b := false][e := false]
    requires d'.freeInodes == d.freeInodes + 1 && d'.freeBlocks == d.freeBlocks + 2
    ensures Balanced(d', live - {n}, t)
  {
    CountAfterUpdate(d.ibits, n, false, d.geo.inodeCount);
    CountAfterUpdate(d.dbits, b, false, d.geo.dblockCount);
    CountAfterUpdate(d.dbits[b := false], e, false, d.geo.dblockCount);
  }

  /** The tally after a creation call: only its two kinds of failing exit change it. */
  function TallyAdd(d: Disk, t: Tally, isMkdir: bool): Tally
    requires Shape(d)
  {
    match Allocate(d)
    case InodesFull => if isMkdir then t.(drift := t.drift + 1) else t
    case BlocksFull(_) => t.(leaked := t.leaked + 1)
    case Got(_, _, _) => t
  }

  lemma AddBalances(d: Disk, m: Names, q: Path, x: string, mode: bv32, now: int, t: Tally, isMkdir: bool, d': Disk)
    requires CanAdd(d, m, q, x) && Balanced(d, m.Values, t) && Shape(d')
    requires d' == if isMkdir then MkdirAt(d, m[q], x, mode, now).disk else CreateAt(d, m[q], x, mode, now).disk
    ensures Balanced(d', Calls.Added(d, m, q, x).Values, TallyAdd(d, t, isMkdir))
  {
    hide Storage.Store, Spells;
    match Allocate(d)
    case InodesFull =>
    case BlocksFull(n) =>
      CountAfterUpdate(d.ibits, n, true, d.geo.inodeCount);
    case Got(n, e, b) =>
      Installing.AllocationIsFresh(d, m.Values, n, e, b);
      TakeBitsBalance(d, d', m.Values, t, n, e, b);
      assert m[q + [x] := n].Values == m.Values + {n} by {
        AddedValues(m, q + [x], n);
      }
  }

  lemma AddedValues(m: Names, r: Path, n: nat)
    requires r !in m
    ensures m[r := n].Values == m.Values + {n}
  {
    var m' := m[r := n];
    assert m'[r] == n;
    forall i | i in m.Values
      ensures i in m'.Values
    {
      var s :| s in m && m[s] == i;
      assert m'[s] == i;
    }
  }

  lemma RemoveBalances(d: Disk, m: Names, q: Path, x: string, t: Tally, d': Disk)
    requires CanRemove(d, m, q, x) && Balanced(d, m.Values, t) && Shape(d')
    requires d' == Remove(d, m[q], SlotOf(d, m[q], x), m[q + [x]], 2)
    ensures Balanced(d', (m - {q + [x]}).Values, t)
  {
    var i := m[q + [x]];
    RemovalIsLeaf(d, m, q, x);
    Storage.LiveIsStored(d, m.Values, i);
    Removing.FreeAllOfStored(d, i);
    RemoveKeys(Storage.Graph(d, m.Values), m, q, x, SlotOf(d, m[q], x));
    GiveBackBalance(d, d', m.Values, t, i, ExtOf(d, i), DataOf(d, i));
  }
}
