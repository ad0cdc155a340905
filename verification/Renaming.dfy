/** rename: when it moves exactly one entry, and when it does not. */
module Renaming {
  import opened Disk
  import opened Storage
  import opened Removing
  import opened Tree
  import opened MoveTree
  import opened FileSystem
  import opened Operations

  /** Source and target directory are listed, the source name is there, the target name is not, and a slot is free. */
  ghost predicate Request(d: Disk, m: Names, q: Path, x: string, q2: Path, y: string) {
    && Core(d, m) && q in m && IsDir(d, m[q]) && q2 in m && IsDir(d, m[q2])
    && Plain(x) && q + [x] in m && Plain(y) && Fits(y) && q2 + [y] !in m
    && InodeAt(d, m[q2]).dentryCount < SLOTS
  }

  /** What the code does not check: two different directories, and no move of a directory into itself. */
  predicate ProperMove(q: Path, x: string, q2: Path) {
    q != q2 && !(q + [x] <= q2)
  }

  lemma MoveIsRelocation(d: Disk, m: Names, q: Path, x: string, q2: Path, y: string)
    requires Request(d, m, q, x, q2, y) && ProperMove(q, x, q2)
    ensures SlotOf(d, m[q], x) >= 2
    ensures Relocatable(Graph(d, m.Values), m, q, x, SlotOf(d, m[q], x), q2, y)
    ensures Movable(d, m.Values, m[q], SlotOf(d, m[q], x), m[q2])
    ensures MoveAt(d, m[q], x, m[q2], y) == Outcome(Move(d, m[q], SlotOf(d, m[q], x), m[q2], y), 0)
  {
    StepSpells(d, m, q, x);
    ListedNode(d, m, q);
    ListedNode(d, m, q2);
  }

  lemma MoveGraph(d: Disk, d': Disk, live: set<nat>, p: nat, k: nat, p2: nat, y: string, c: nat, x: string)
    requires Movable(d, live, p, k, p2) && MovedSlot(d, d', p, k, p2, y)
    requires Names?(EntriesOf(d, p), k, x, c)
    ensures var g := Graph(d, live);
            p in g && g[p].Dir? && p2 in g && g[p2].Dir? && Graph(d', live) == MoveNode(g, p, k, p2, c, y)
  {
    MoveSource(d, d', live, p, k, p2, y);
    MoveTarget(d, d', live, p, k, p2, y);
    forall i | i in live && i != p && i != p2
      ensures NodeOf(d', i) == NodeOf(d, i)
    {
      MoveKeeps(d, d', live, p, k, p2, y, i);
    }
  }

  /**
   * A proper move gives the target path the source's inode, takes every path below the source along, keeps all
   * others, and touches no bitmap and no counter; the ".." entries stay right exactly when the source is a file.
   */
  lemma MoveCore(d: Disk, m: Names, q: Path, x: string, q2: Path, y: string, o: Outcome, m': Names,
                 from: Path, to: Path)
    requires Request(d, m, q, x, q2, y) && ProperMove(q, x, q2)
    requires from == q + [x] && to == q2 + [y] && Vacant(m, to)
    requires o == MoveAt(d, m[q], x, m[q2], y) && m' == Moved(m, from, to)
    ensures o.ret == 0 && Core(o.disk, m')
    ensures Consistent(d, m) ==> (Consistent(o.disk, m') <==> !IsDir(d, m[from]))
    ensures QuietImage(d) ==> QuietImage(o.disk)
    ensures o.disk.geo == d.geo && o.disk.ibits == d.ibits && o.disk.dbits == d.dbits
    ensures o.disk.freeInodes == d.freeInodes && o.disk.freeBlocks == d.freeBlocks
    ensures InodeAt(o.disk, m[q]).dentryCount + InodeAt(o.disk, m[q2]).dentryCount ==
            InodeAt(d, m[q]).dentryCount + InodeAt(d, m[q2]).dentryCount
    ensures forall i: nat :: i != m[q] && i != m[q2] ==> InodeAt(o.disk, i) == InodeAt(d, i)
  {
    var g, k := Graph(d, m.Values), SlotOf(d, m[q], x);
    MoveIsRelocation(d, m, q, x, q2, y);
    MoveMoves(d, m.Values, m[q], k, m[q2], y);
    MoveStore(d, o.disk, m.Values, m[q], k, m[q2], y);
    MoveGraph(d, o.disk, m.Values, m[q], k, m[q2], y, m[q + [x]], x);
    MoveSpells(g, m, q, x, k, q2, y);
    MovedKeys(m, q + [x], q2 + [y]);
    ListedNode(d, m, q + [x]);
    if DotDots(g, m) {
      MoveDotDots(g, m, q, x, k, q2, y);
    }
    if QuietImage(d) {
      MoveQuiet(d, o.disk, m.Values, m[q], k, m[q2], y);
    }
  }
}
