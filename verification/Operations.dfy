/** Each call on a consistent image edits the name map in one place and keeps the invariant. */
module Operations {
  import opened Disk
  import opened Storage
  import opened Installing
  import opened Removing
  import opened Tree
  import opened FileSystem

  // ---- create and mkdir ----

  /** The caller's part: a listed directory with a free slot, and an ordinary name that is not there yet. */
  ghost predicate CanAdd(d: Disk, m: Names, q: Path, x: string) {
    && Core(d, m) && q in m && IsDir(d, m[q]) && InodeAt(d, m[q]).dentryCount < SLOTS
    && Plain(x) && Fits(x) && q + [x] !in m
  }

  /** "." of a listed directory is the directory itself, so mkdir enters the right parent. */
  lemma SelfIsSelf(d: Disk, m: Names, q: Path)
    requires Core(d, m) && q in m && IsDir(d, m[q])
    ensures SelfOf(d, m[q]) == m[q]
  {
    ListedNode(d, m, q);
    assert DirOk(Graph(d, m.Values), m, q);
    assert EntriesOf(d, m[q])[0] == CellAt(d, SLOTS * DataOf(d, m[q]));
  }

  lemma CreationGraph(d: Disk, d': Disk, live: set<nat>, a: Creation)
    requires Ready(d, live, a) && Created(d, d', a)
    ensures var g := Graph(d, live);
            a.p in g && g[a.p].Dir? && Graph(d', live + {a.n}) == AddNode(g, a.p, a.x, a.n, NodeOf(d', a.n))
  {
    hide Created;
    CreationParent(d, d', live, a);
    forall i | i in live && i != a.p
      ensures NodeOf(d', i) == NodeOf(d, i)
    {
      CreationKeeps(d, d', live, a, i);
    }
  }

  /** After a successful allocation the new path is listed and everything else is as it was. */
  lemma CreationCore(d: Disk, d': Disk, m: Names, m': Names, q: Path, a: Creation)
    requires CanAdd(d, m, q, a.x) && a.p == m[q] && Allocate(d) == Got(a.n, a.e, a.b)
    requires a.dots == (a.mode & 0x4000 != 0)
    requires d' == Installed(d, a) && m' == m[q + [a.x] := a.n]
    ensures a.n !in m.Values && Core(d', m')
    ensures Consistent(d, m) ==> Consistent(d', m')
    ensures QuietImage(d) ==> QuietImage(d')
  {
    hide Created;
    var live := m.Values;
    var g := Graph(d, live);
    AllocationIsFresh(d, live, a.n, a.e, a.b);
    ListedNode(d, m, q);
    ReadyIsPlaced(d, live, a);
    InstalledCreates(d, a);
    CreationStore(d, d', live, a);
    CreationGraph(d, d', live, a);
    CreationNew(d, d', live, a);
    SelfIsSelf(d, m, q);
    var node := NodeOf(d', a.n);
    assert Addable(g, m, q, a.x, a.n, node);
    AddKeys(g, m, q, a.x, a.n, node);
    AddSpells(g, m, q, a.x, a.n, node);
    if Consistent(d, m) {
      AddDotDots(g, m, q, a.x, a.n, node);
    }
    if QuietImage(d) {
      CreationQuiet(d, d', live, a);
    }
  }

  /** States that differ in counters, and in inode bits that only got set. */
  ghost predicate MoreInodeBits(d: Disk, d': Disk) {
    && d' == d.(freeInodes := d'.freeInodes, freeBlocks := d'.freeBlocks, ibits := d'.ibits)
    && |d'.ibits| == |d.ibits| && forall i :: 0 <= i < |d.ibits| && d.ibits[i] ==> d'.ibits[i]
  }

  lemma MoreInodeBitsNode(d: Disk, d': Disk, i: nat)
    requires Shape(d) && MoreInodeBits(d, d') && Stored(d, i)
    ensures Stored(d', i) && NodeOf(d', i) == NodeOf(d, i)
    ensures ExtOf(d', i) == ExtOf(d, i) && DataOf(d', i) == DataOf(d, i)
  {
  }

  /** They spell the same names. */
  lemma MoreInodeBitsCore(d: Disk, d': Disk, m: Names)
    requires Core(d, m) && MoreInodeBits(d, d')
    ensures Core(d', m)
    ensures Consistent(d, m) ==> Consistent(d', m)
    ensures QuietImage(d) ==> QuietImage(d')
  {
    var live := m.Values;
    forall i | i in live
      ensures Stored(d', i) && NodeOf(d', i) == NodeOf(d, i)
      ensures ExtOf(d', i) == ExtOf(d, i) && DataOf(d', i) == DataOf(d, i)
    {
      LiveIsStored(d, live, i);
      MoreInodeBitsNode(d, d', i);
    }
    OwnersKept(d, d', live, live);
    SameCellsQuiet(d, d');
    assert Graph(d', live) == Graph(d, live);
  }

  // ---- rmdir and unlink ----

  /** The path names a file or an empty directory. */
  ghost predicate CanRemove(d: Disk, m: Names, q: Path, x: string) {
    && Core(d, m) && q in m && IsDir(d, m[q]) && Plain(x) && q + [x] in m
    && InodeAt(d, m[q + [x]]).dentryCount <= 2
  }

  function SlotOf(d: Disk, p: nat, x: string): int {
    Lookup(EntriesOf(d, p), x)
  }

  lemma RemovalIsLeaf(d: Disk, m: Names, q: Path, x: string)
    requires CanRemove(d, m, q, x)
    ensures SlotOf(d, m[q], x) >= 2
    ensures Leaf(Graph(d, m.Values), m, q, x, SlotOf(d, m[q], x))
    ensures Removable(d, m.Values, m[q], SlotOf(d, m[q], x), m[q + [x]])
  {
    StepSpells(d, m, q, x);
    ListedNode(d, m, q);
    ListedNode(d, m, q + [x]);
    assert |q + [x]| > |q|;
  }

  lemma RemovalGraph(d: Disk, d': Disk, live: set<nat>, p: nat, k: nat, t: nat)
    requires Removable(d, live, p, k, t) && Removed(d, d', p, k, t)
    ensures var g := Graph(d, live);
            p in g && g[p].Dir? && Graph(d', live - {t}) == RemoveNode(g, p, k, t)
  {
    RemovalParent(d, d', live, p, k, t);
    forall i | i in live && i != p && i != t
      ensures NodeOf(d', i) == NodeOf(d, i)
    {
      RemovalKeeps(d, d', live, p, k, t, i);
    }
  }

  /** Removing a file or an empty directory takes its path out and keeps everything else. */
  lemma RemovalCore(d: Disk, m: Names, q: Path, x: string, freed: nat)
    requires CanRemove(d, m, q, x)
    ensures var d' := Remove(d, m[q], SlotOf(d, m[q], x), m[q + [x]], freed);
            && Core(d', m - {q + [x]})
            && (Consistent(d, m) ==> Consistent(d', m - {q + [x]}))
            && (QuietImage(d) ==> QuietImage(d'))
  {
    var k, t := SlotOf(d, m[q], x), m[q + [x]];
    var d', g, live := Remove(d, m[q], k, t, freed), Graph(d, m.Values), m.Values;
    RemovalIsLeaf(d, m, q, x);
    RemoveRemoves(d, live, m[q], k, t, freed);
    RemovalStore(d, d', live, m[q], k, t);
    RemovalGraph(d, d', live, m[q], k, t);
    RemoveKeys(g, m, q, x, k);
    RemoveSpells(g, m, q, x, k);
    if Consistent(d, m) {
      RemoveDotDots(g, m, q, x, k);
    }
    if QuietImage(d) {
      RemovalQuiet(d, d', live, m[q], k, t);
    }
  }

  // ---- utimens ----

  lemma TimeCore(d: Disk, d': Disk, m: Names, i: nat, time: int)
    requires Core(d, m) && d' == d.(inodes := PutInode(d.inodes, i, InodeAt(d, i).(mtime := time)))
    ensures Core(d', m)
    ensures Consistent(d, m) ==> Consistent(d', m)
    ensures QuietImage(d) ==> QuietImage(d')
  {
    hide Spells;
    var live := m.Values;
    forall j | j in live
      ensures Stored(d', j) && ExtOf(d', j) == ExtOf(d, j) && DataOf(d', j) == DataOf(d, j)
      ensures NodeOf(d', j) == NodeOf(d, j)
    {
      LiveIsStored(d, live, j);
      TimeKeeps(d, d', i, time, j);
    }
    OwnersKept(d, d', live, live);
    assert Graph(d', live) == Graph(d, live);
    SameCellsQuiet(d, d');
  }

  lemma TimeKeeps(d: Disk, d': Disk, i: nat, time: int, j: nat)
    requires Shape(d) && Stored(d, j) && d' == d.(inodes := PutInode(d.inodes, i, InodeAt(d, i).(mtime := time)))
    ensures Stored(d', j) && ExtOf(d', j) == ExtOf(d, j) && DataOf(d', j) == DataOf(d, j)
    ensures NodeOf(d', j) == NodeOf(d, j)
  {
    SameBlocks(d, d', j);
  }

  lemma SameCellsQuiet(d: Disk, d': Disk)
    requires d'.cells == d.cells && d'.geo == d.geo
    ensures QuietImage(d) ==> QuietImage(d')
  {
    forall b | QuietBlock(d, b)
      ensures QuietBlock(d', b)
    {
    }
  }

  /** Setting a time changes no name and no block, and succeeds exactly on listed paths. */
  lemma UtimensCore(d: Disk, m: Names, names: Path, time: int)
    requires Core(d, m) && PlainPath(names)
    ensures Core(Utimens(d, names, time).disk, m)
    ensures Consistent(d, m) ==> Consistent(Utimens(d, names, time).disk, m)
    ensures QuietImage(d) ==> QuietImage(Utimens(d, names, time).disk)
    ensures QuietImage(d) ==> (Utimens(d, names, time).ret == 0 <==> names in m)
  {
    if QuietImage(d) {
      WalkFromRoot(d, m, names);
    }
    var w := Walk(d, 0, names);
    if w.At? {
      TimeCore(d, Utimens(d, names, time).disk, m, w.ino, time);
    }
  }
}
