/** The nested freeing loops of unlink and rmdir on any list of extents. */
module Freeing {
  import opened Bitmap
  import opened Disk

  /** Bit b lies in extent number i. */
  predicate InExtent(d: Disk, e: int, i: nat, b: int) {
    var x := ExtentAt(d, e, i);
    x.start - d.geo.firstData <= b < x.start - d.geo.firstData + x.count
  }

  ghost predicate InSome(d: Disk, e: int, n: nat, b: int) {
    exists i: nat :: i < n && InExtent(d, e, i, b)
  }

  lemma {:induction false} RunClears(bits: seq<bool>, at: int, count: nat, b: int)
    requires 0 <= b < |bits|
    ensures FreeRun(bits, at, count)[b] <==> bits[b] && !(at <= b < at + count)
  {
    if count > 0 {
      RunClears(bits, at, count - 1, b);
    }
  }

  /** The loops clear exactly the union of the extents. */
  lemma {:induction false} ExtentsClearUnion(d: Disk, e: int, n: nat, b: int)
    requires 0 <= b < |d.dbits|
    ensures FreeExtents(d, e, n)[b] <==> d.dbits[b] && !InSome(d, e, n, b)
  {
    if n > 0 {
      var x := ExtentAt(d, e, n - 1);
      ExtentsClearUnion(d, e, n - 1, b);
      RunClears(FreeExtents(d, e, n - 1), x.start - d.geo.firstData, x.count, b);
      if InExtent(d, e, n - 1, b) {
        assert InSome(d, e, n, b);
      }
      if InSome(d, e, n, b) {
        var i: nat :| i < n && InExtent(d, e, i, b);
        assert i < n - 1 ==> InSome(d, e, n - 1, b);
      }
      if InSome(d, e, n - 1, b) {
        var i: nat :| i < n - 1 && InExtent(d, e, i, b);
        assert InSome(d, e, n, b);
      }
    }
  }

  /** A run of set bits inside the first size bits raises the number of clear ones by its length. */
  lemma {:induction false} RunCounts(bits: seq<bool>, at: int, count: nat, size: nat)
    requires size <= |bits| && 0 <= at && at + count <= size
    requires forall b :: at <= b < at + count ==> bits[b]
    ensures CountClear(FreeRun(bits, at, count), size) == CountClear(bits, size) + count
  {
    if count > 0 {
      RunCounts(bits, at, count - 1, size);
      RunClears(bits, at, count - 1, at + count - 1);
      CountAfterUpdate(FreeRun(bits, at, count - 1), at + count - 1, false, size);
    }
  }

  /** The extents lie in the data region, hold taken blocks only and do not overlap. */
  ghost predicate ProperExtents(d: Disk, e: int, n: nat) {
    && d.geo.dblockCount <= |d.dbits|
    && (forall i: nat {:trigger ExtentAt(d, e, i)} :: i < n ==>
          0 <= ExtentAt(d, e, i).start - d.geo.firstData <= d.geo.dblockCount - ExtentAt(d, e, i).count)
    && (forall i: nat, b: int {:trigger InExtent(d, e, i, b)} ::
          i < n && 0 <= b < |d.dbits| && InExtent(d, e, i, b) ==> d.dbits[b])
    && (forall i: nat, j: nat, b: int {:trigger InExtent(d, e, i, b), InExtent(d, e, j, b)} ::
          i < j < n && InExtent(d, e, i, b) ==> !InExtent(d, e, j, b))
  }

  /** And they raise the number of clear bits by exactly the blocks spanned, which is what unlink counts. */
  lemma {:induction false} ExtentsCount(d: Disk, e: int, n: nat)
    requires ProperExtents(d, e, n)
    ensures CountClear(FreeExtents(d, e, n), d.geo.dblockCount) ==
            CountClear(d.dbits, d.geo.dblockCount) + SpanOf(d, e, n)
  {
    if n > 0 {
      var x := ExtentAt(d, e, n - 1);
      var at := x.start - d.geo.firstData;
      var bits := FreeExtents(d, e, n - 1);
      ExtentsCount(d, e, n - 1);
      forall b | at <= b < at + x.count
        ensures bits[b]
      {
        assert InExtent(d, e, n - 1, b);
        ExtentsClearUnion(d, e, n - 1, b);
      }
      RunCounts(bits, at, x.count, d.geo.dblockCount);
    }
  }

  /**
   * Unlink's freeing of an inode with proper extents that leave its extent block out: the bits of the extents and
   * of the extent block are cleared, no other, and the count of clear bits grows by what the counter grows by.
   */
  lemma FreeAllClearsAndCounts(d: Disk, t: nat, b: int)
    requires ProperExtents(d, ExtOf(d, t), ExtCount(d, t))
    requires 0 <= ExtOf(d, t) < d.geo.dblockCount && d.dbits[ExtOf(d, t)]
    requires !InSome(d, ExtOf(d, t), ExtCount(d, t), ExtOf(d, t))
    ensures 0 <= b < |d.dbits| ==>
              (FreeAll(d, t)[b] <==> d.dbits[b] && b != ExtOf(d, t) && !InSome(d, ExtOf(d, t), ExtCount(d, t), b))
    ensures CountClear(FreeAll(d, t), d.geo.dblockCount) ==
            CountClear(d.dbits, d.geo.dblockCount) + SpanOf(d, ExtOf(d, t), ExtCount(d, t)) + 1
  {
    var e, n := ExtOf(d, t), ExtCount(d, t);
    if 0 <= b < |d.dbits| {
      ExtentsClearUnion(d, e, n, b);
    }
    ExtentsClearUnion(d, e, n, e);
    ExtentsCount(d, e, n);
    CountAfterUpdate(FreeExtents(d, e, n), e, false, d.geo.dblockCount);
  }

  /**
   * On any image with an exact block counter and an inode whose extents are proper: unlink leaves the counter exact,
   * and rmdir, which always counts two blocks, exactly if the extents span one.
   */
  lemma RmdirCountsRightIff(d: Disk, p: nat, x: string, t: nat)
    requires Lookup(EntriesOf(d, p), x) >= 0 && t == InoOf(EntriesOf(d, p)[Lookup(EntriesOf(d, p), x)])
    requires ProperExtents(d, ExtOf(d, t), ExtCount(d, t))
    requires 0 <= ExtOf(d, t) < d.geo.dblockCount && d.dbits[ExtOf(d, t)]
    requires !InSome(d, ExtOf(d, t), ExtCount(d, t), ExtOf(d, t))
    requires d.freeBlocks == CountClear(d.dbits, d.geo.dblockCount)
    ensures RmdirAt(d, p, x).ret == 0 ==>
              var d' := RmdirAt(d, p, x).disk;
              d'.freeBlocks == CountClear(d'.dbits, d.geo.dblockCount) <==> SpanOf(d, ExtOf(d, t), ExtCount(d, t)) == 1
    ensures UnlinkAt(d, p, x).ret == 0 ==>
              var d' := UnlinkAt(d, p, x).disk; d'.freeBlocks == CountClear(d'.dbits, d.geo.dblockCount)
  {
    FreeAllClearsAndCounts(d, t, 0);
  }
}
