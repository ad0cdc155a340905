/** What the invariant means for an observer who only has the image. */
module Theorems {
  import opened Bitmap
  import opened Disk
  import opened Storage
  import opened Tree
  import opened FileSystem
  import opened Calls
  import opened Ledger
  import Runs

  /** Some walk along ordinary names from the root ends at inode i. */
  ghost predicate Reachable(d: Disk, i: nat) {
    exists names: Path :: PlainPath(names) && Walk(d, 0, names) == At(i)
  }

  /** The listed inodes are the reachable ones. */
  lemma ReachableIffListed(d: Disk, m: Names, i: nat)
    requires Clean(d, m)
    ensures Reachable(d, i) <==> i in m.Values
  {
    if i in m.Values {
      var q :| q in m && m[q] == i;
      ListedIsPlain(d, m, q);
      WalkFromRoot(d, m, q);
    }
    if Reachable(d, i) {
      var names: Path :| PlainPath(names) && Walk(d, 0, names) == At(i);
      WalkFromRoot(d, m, names);
    }
  }

  /** The image alone determines its name map. */
  lemma NamesAreDetermined(d: Disk, m: Names, m': Names)
    requires Core(d, m) && Core(d, m')
    ensures m == m'
  {
    forall q | q in m
      ensures q in m' && m'[q] == m[q]
    {
      ListedThereToo(d, m, m', q);
    }
    forall q | q in m'
      ensures q in m
    {
      ListedThereToo(d, m', m, q);
    }
  }

  lemma {:induction false} ListedThereToo(d: Disk, m: Names, m': Names, q: Path)
    requires Core(d, m) && Core(d, m') && q in m
    ensures q in m' && m'[q] == m[q]
    decreases |q|
  {
    RootIsDirectory(d, m);
    RootIsDirectory(d, m');
    if q != [] {
      var up, x := Init(q), Last(q);
      assert q == up + [x] && q[..|up|] == up;
      ListedIsPlain(d, m, q);
      assert Plain(q[|up|]);
      PrefixListed(d, m, q, |up|);
      ListedThereToo(d, m, m', up);
      StepSpells(d, m, up, x);
      StepSpells(d, m', up, x);
    }
  }

  /** A data bit in range is set exactly when a reachable inode holds the block, as its extent or its data block. */
  lemma SetBitsAreOwned(d: Disk, m: Names, b: nat)
    requires Clean(d, m) && b < d.geo.dblockCount
    ensures d.dbits[b] <==> exists i: nat {:trigger Owns(d, i, b)} :: Reachable(d, i) && Owns(d, i, b)
  {
    if d.dbits[b] {
      assert Owned(d, m.Values, b);
      var i :| i in m.Values && Owns(d, i, b);
      ReachableIffListed(d, m, i);
    }
    if i: nat :| Reachable(d, i) && Owns(d, i, b) {
      ReachableIffListed(d, m, i);
      LiveIsStored(d, m.Values, i);
    }
  }

  /** No block is held twice: not by two inodes, not by one inode in both roles. */
  lemma BlocksAreExclusive(d: Disk, m: Names, i: nat, j: nat)
    requires Clean(d, m) && Reachable(d, i) && Reachable(d, j)
    ensures ExtOf(d, i) != DataOf(d, j)
    ensures i != j ==> ExtOf(d, i) != ExtOf(d, j) && DataOf(d, i) != DataOf(d, j)
  {
    ReachableIffListed(d, m, i);
    ReachableIffListed(d, m, j);
    LiveIsStored(d, m.Values, i);
    assert i != j ==> Apart(d, i, j);
  }

  /** Slot k of directory p, behind the dots, names inode i. */
  ghost predicate NamedBy(d: Disk, p: nat, k: nat, i: nat) {
    && Reachable(d, p) && IsDir(d, p)
    && 2 <= k < |EntriesOf(d, p)| && InoOf(EntriesOf(d, p)[k]) == i
  }

  /** Every reachable inode but the root is named by exactly one slot; the root by none. */
  lemma OneEntryEach(d: Disk, m: Names, p: nat, k: nat, p': nat, k': nat, i: nat)
    requires Clean(d, m) && NamedBy(d, p, k, i) && NamedBy(d, p', k', i)
    ensures p == p' && k == k' && i != 0 && Reachable(d, i)
  {
    var q := PathOfSlot(d, m, p, k, i);
    var q' := PathOfSlot(d, m, p', k', i);
    assert q == q';
    assert Init(q) == Init(q') && Last(q) == Last(q');
    ReachableIffListed(d, m, i);
  }

  /** The path that a slot makes. */
  lemma PathOfSlot(d: Disk, m: Names, p: nat, k: nat, i: nat) returns (q: Path)
    requires Clean(d, m) && NamedBy(d, p, k, i)
    ensures q in m && m[q] == i && q != [] && Init(q) in m && m[Init(q)] == p
    ensures Last(q) == NameOf(EntriesOf(d, p)[k])
    ensures k == Lookup(EntriesOf(d, p), Last(q))
  {
    ReachableIffListed(d, m, p);
    var up :| up in m && m[up] == p;
    ListedNode(d, m, up);
    var es := EntriesOf(d, p);
    assert DirOk(Graph(d, m.Values), m, up) && SlotOk(es, m, up, k);
    var x := es[k].name;
    q := up + [x];
    assert Init(q) == up && Last(q) == x;
    StepSpells(d, m, up, x);
    assert !(Lookup(es, x) >= 2 && Lookup(es, x) != k);
  }

  /** And some slot does name it. */
  lemma SomeEntry(d: Disk, m: Names, i: nat) returns (p: nat, k: nat)
    requires Clean(d, m) && Reachable(d, i) && i != 0
    ensures NamedBy(d, p, k, i)
  {
    ReachableIffListed(d, m, i);
    var q :| q in m && m[q] == i;
    var g := Graph(d, m.Values);
    assert PathOk(g, m, q);
    p := m[Init(q)];
    ListedNode(d, m, Init(q));
    ReachableIffListed(d, m, p);
    k :| Names?(g[p].entries, k, Last(q), i);
  }

  // ---- Looking names up ----

  /** readdir lists each slot once, in order, and no name twice; it lists a name exactly if the scan finds it. */
  lemma ListingIffLookup(d: Disk, m: Names, q: Path, x: string)
    requires Core(d, m) && q in m && IsDir(d, m[q])
    ensures var es := EntriesOf(d, m[q]);
            && (x in NamesOf(es) <==> Lookup(es, x) != -1)
            && (Plain(x) ==> (x in NamesOf(es) <==> q + [x] in m))
            && (forall j, k :: 0 <= j < k < |es| ==> NamesOf(es)[j] != NamesOf(es)[k])
  {
    ListedNode(d, m, q);
    var es := EntriesOf(d, m[q]);
    assert DirOk(Graph(d, m.Values), m, q);
    if Lookup(es, x) != -1 {
      assert NamesOf(es)[Lookup(es, x)] == x;
    }
    if Plain(x) {
      StepSpells(d, m, q, x);
    }
    forall j, k | 0 <= j < k < |es|
      ensures NamesOf(es)[j] != NamesOf(es)[k]
    {
      NamesDiffer(d, m, q, j, k);
    }
  }

  lemma NamesDiffer(d: Disk, m: Names, q: Path, j: nat, k: nat)
    requires Core(d, m) && q in m && IsDir(d, m[q]) && j < k < |EntriesOf(d, m[q])|
    ensures NameOf(EntriesOf(d, m[q])[j]) != NameOf(EntriesOf(d, m[q])[k])
  {
    ListedNode(d, m, q);
    var es := EntriesOf(d, m[q]);
    assert DirOk(Graph(d, m.Values), m, q);
    if k >= 2 {
      assert SlotOk(es, m, q, k);
    }
  }

  /** A directory that repeats a name belongs to no consistent image. */
  lemma TwiceIsNotListed(d: Disk, m: Names, q: Path, j: nat, k: nat)
    requires q in m && IsDir(d, m[q]) && j < k < |EntriesOf(d, m[q])|
    requires NameOf(EntriesOf(d, m[q])[j]) == NameOf(EntriesOf(d, m[q])[k])
    ensures !Core(d, m)
  {
    if Core(d, m) {
      NamesDiffer(d, m, q, j, k);
    }
  }

  // ---- Allocation ----

  /** Creation gets past allocation exactly if an inode bit and two data bits are clear. */
  lemma AllocationSucceedsIff(d: Disk)
    requires Shape(d)
    ensures Allocate(d).Got? <==> ClearInodes(d) >= 1 && ClearBlocks(d) >= 2
  {
    FreeIffCount(d.ibits, d.geo.inodeCount);
    FreeIffCount(d.dbits, d.geo.dblockCount);
    var e := FirstFree(d.dbits, d.geo.dblockCount);
    if e >= 0 {
      FreeIffCount(d.dbits[e := true], d.geo.dblockCount);
      CountAfterUpdate(d.dbits, e, true, d.geo.dblockCount);
    }
  }

  /** And then it takes the least clear inode bit and the two least clear data bits. */
  lemma AllocationTakesLeast(d: Disk, n: nat, e: nat, b: nat)
    requires Shape(d) && Allocate(d) == Got(n, e, b)
    ensures n < d.geo.inodeCount && !d.ibits[n] && forall i :: 0 <= i < n ==> d.ibits[i]
    ensures e < b < d.geo.dblockCount && !d.dbits[e] && !d.dbits[b]
    ensures forall c :: 0 <= c < b && c != e ==> d.dbits[c]
  {
    var bits := d.dbits[e := true];
    forall c | 0 <= c < b && c != e
      ensures d.dbits[c]
    {
      assert bits[c];
    }
  }

  lemma {:induction false} SetBitsCounted(bits: seq<bool>, n: nat)
    requires n <= |bits|
    ensures |set i: nat | i < n && bits[i]| == n - CountClear(bits, n)
  {
    if n > 0 {
      var before, now := set i: nat | i < n - 1 && bits[i], set i: nat | i < n && bits[i];
      SetBitsCounted(bits, n - 1);
      assert now == if bits[n - 1] then before + {n - 1} else before;
    }
  }

  lemma {:induction false} SameSizeSubset(a: set<nat>, b: set<nat>)
    requires a <= b && |a| == |b|
    ensures a == b
    decreases a
  {
    if i :| i in b && i !in a {
      assert a <= b - {i} && |b - {i}| < |a|;
      SubsetIsNoLarger(a, b - {i});
    }
  }

  lemma {:induction false} SubsetIsNoLarger(a: set<nat>, b: set<nat>)
    requires a <= b
    ensures |a| <= |b|
    decreases a
  {
    if i :| i in a {
      SubsetIsNoLarger(a - {i}, b - {i});
    }
  }

  /** As long as none leaked, the set inode bits are those of the reachable inodes. */
  lemma InodeBitsAreReachable(d: Disk, m: Names, t: Tally, i: nat)
    requires Clean(d, m) && Balanced(d, m.Values, t) && i < d.geo.inodeCount
    ensures Reachable(d, i) ==> d.ibits[i]
    ensures t.leaked == 0 ==> (d.ibits[i] <==> Reachable(d, i))
  {
    ReachableIffListed(d, m, i);
    InodeBitsAreListed(d, m, t, i);
  }

  lemma InodeBitsAreListed(d: Disk, m: Names, t: Tally, i: nat)
    requires Core(d, m) && Balanced(d, m.Values, t) && i < d.geo.inodeCount
    ensures i in m.Values ==> d.ibits[i]
    ensures t.leaked == 0 ==> (d.ibits[i] <==> i in m.Values)
  {
    var taken := set i: nat | i < d.geo.inodeCount && d.ibits[i];
    SetBitsCounted(d.ibits, d.geo.inodeCount);
    forall i | i in m.Values
      ensures i in taken
    {
      LiveIsStored(d, m.Values, i);
    }
    if t.leaked == 0 {
      SameSizeSubset(m.Values, taken);
    }
  }

  /** A creation that finds its parent and goes on to search for a free inode. */
  ghost predicate Searches(d: Disk, m: Names, c: Call) {
    (c.MkdirCall? || c.CreateCall?) && ParentListed(d, m, c.names)
  }

  /**
   * The books go wrong in two ways only: the counter drifts when mkdir finds no clear inode bit, and an inode bit
   * leaks when a creation finds one but not two clear data bits.
   */
  lemma TallyGrowsIff(d: Disk, m: Names, c: Call, t: Tally)
    requires Core(d, m) && Allowed(d, m, c)
    ensures var t' := Runs.TallyAfter(d, m, c, t);
            && t'.drift == t.drift + (if c.MkdirCall? && Searches(d, m, c) && ClearInodes(d) == 0 then 1 else 0)
            && t'.leaked == t.leaked + (if Searches(d, m, c) && ClearInodes(d) > 0 && ClearBlocks(d) < 2 then 1 else 0)
  {
    AllocationSucceedsIff(d);
    FreeIffCount(d.ibits, d.geo.inodeCount);
  }

  /** Exact counters stay exact through a call if and only if it is no mkdir that finds every inode taken. */
  lemma CountersStayExactIff(d: Disk, m: Names, c: Call, t: Tally)
    requires Core(d, m) && Allowed(d, m, c) && Balanced(d, m.Values, t) && d.freeInodes == ClearInodes(d)
    ensures var d' := After(d, c);
            && Shape(d') && d'.freeBlocks == ClearBlocks(d')
            && (d'.freeInodes == ClearInodes(d') <==> !(c.MkdirCall? && Searches(d, m, c) && ClearInodes(d) == 0))
  {
    Runs.StepBalanced(d, m, c, t);
    TallyGrowsIff(d, m, c, t);
  }
}
