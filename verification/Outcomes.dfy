/** What walks show after a rename, whatever was asked for. */
module Outcomes {
  import opened Disk
  import opened Storage
  import opened Removing
  import opened Tree
  import opened MoveTree
  import opened FileSystem
  import opened Operations
  import Theorems
  import opened Observing
  import opened Overflowing

  /**
   * What rename relies on once the target was dealt with: two listed directories, a source name in the first, and a
   * slot behind the entries of the second that lies in the image, if not in the directory's block.
   */
  ghost predicate Movement(d: Disk, m: Names, q: Path, x: string, q2: Path, y: string) {
    && Clean(d, m) && q in m && IsDir(d, m[q]) && q2 in m && IsDir(d, m[q2])
    && Plain(x) && q + [x] in m && Plain(y) && Fits(y) && EntrySlot(d, m[q2]) < |d.cells|
  }

  lemma MovementFacts(d: Disk, m: Names, q: Path, x: string, q2: Path, y: string)
    requires Movement(d, m, q, x, q2, y)
    ensures var es, k := EntriesOf(d, m[q]), SlotOf(d, m[q], x);
            && 2 <= k < |es| == InodeAt(d, m[q]).dentryCount && es[k] == Dentry(m[q + [x]], x)
            && MoveAt(d, m[q], x, m[q2], y) == Outcome(Move(d, m[q], k, m[q2], y), 0)
            && forall i, j :: 0 <= i < j < |es| ==> NameOf(es[i]) != NameOf(es[j])
    ensures Stored(d, m[q]) && Stored(d, m[q2]) && (q != q2 ==> Apart(d, m[q], m[q2]) && m[q] != m[q2])
  {
    StepSpells(d, m, q, x);
    ListedNode(d, m, q);
    ListedNode(d, m, q2);
    CoreIsFramed(d, m);
    var es := EntriesOf(d, m[q]);
    forall i, j | 0 <= i < j < |es|
      ensures NameOf(es[i]) != NameOf(es[j])
    {
      Theorems.NamesDiffer(d, m, q, i, j);
    }
    assert m[q] in m.Values && m[q2] in m.Values;
  }

  // ---- Cells and records ----

  lemma ShiftedAt(cells: seq<Cell>, at: nat, k: nat, n: nat, c: nat)
    requires k < n && at + n <= |cells| && c < |cells|
    ensures Shifted(cells, at, k, n)[c] == cells[if at + k <= c < at + n - 1 then c + 1 else c]
  {
  }

  /** The copy goes behind the target's slots and the source's slots close the gap, in one block or in two. */
  lemma MoveShifts(d: Disk, p: nat, k: nat, p2: nat, y: string)
    requires 0 <= DataOf(d, p) && k < InodeAt(d, p).dentryCount
    requires SLOTS * DataOf(d, p) + InodeAt(d, p).dentryCount <= |d.cells| && 0 <= EntrySlot(d, p2) < |d.cells|
    requires !(SLOTS * DataOf(d, p) <= EntrySlot(d, p2) < SLOTS * DataOf(d, p) + InodeAt(d, p).dentryCount)
    ensures var d' := Move(d, p, k, p2, y);
            && ShiftedOut(d, d', p, k, EntrySlot(d, p2))
            && CellAt(d', EntrySlot(d, p2)) == Dentry(InoOf(CellAt(d, SLOTS * DataOf(d, p) + k)), y)
  {
    hide DataOf;
    var at, n, slot := SLOTS * DataOf(d, p), InodeAt(d, p).dentryCount, EntrySlot(d, p2);
    var copied := PutCell(d.cells, slot, Dentry(InoOf(CellAt(d, at + k)), y));
    forall c: nat | c < |d.cells|
      ensures Shifted(copied, at, k, n)[c] == copied[if at + k <= c < at + n - 1 then c + 1 else c]
    {
      ShiftedAt(copied, at, k, n, c);
    }
  }

  lemma MovedRecords(d: Disk, p: nat, k: nat, p2: nat, y: string, i: nat)
    requires p < |d.inodes| && p2 < |d.inodes|
    ensures var d' := Move(d, p, k, p2, y);
            && d'.geo == d.geo && InodeAt(d', i).(dentryCount := 0) == InodeAt(d, i).(dentryCount := 0)
            && InodeAt(d', i).dentryCount ==
               InodeAt(d, i).dentryCount - (if i == p then 1 else 0) + (if i == p2 then 1 else 0)
  {
  }

  // ---- Slots of single inodes ----

  /** The slot for the new entry is in a block that inode i has its extent in: the target directory's block was full. */
  predicate Struck(d: Disk, p2: nat, i: nat) {
    EntrySlot(d, p2) == SLOTS * ExtOf(d, i)
  }

  /** A move of slot k of directory p to the end of p2, as far as searches go. */
  ghost predicate Moving(d: Disk, p: nat, k: nat, p2: nat, e: Cell, d': Disk) {
    && d'.geo == d.geo && ShiftedOut(d, d', p, k, EntrySlot(d, p2)) && CellAt(d', EntrySlot(d, p2)) == e
    && (forall i: nat :: InodeAt(d', i).(dentryCount := 0) == InodeAt(d, i).(dentryCount := 0))
    && forall i: nat {:trigger InodeAt(d', i)} :: InodeAt(d', i).dentryCount ==
         InodeAt(d, i).dentryCount - (if i == p then 1 else 0) + (if i == p2 then 1 else 0)
  }

  lemma MoveIsMoving(d: Disk, m: Names, q: Path, x: string, q2: Path, y: string, k: nat, d': Disk)
    requires Movement(d, m, q, x, q2, y) && SlotOf(d, m[q], x) == k && d' == Move(d, m[q], k, m[q2], y)
    ensures Moving(d, m[q], k, m[q2], Dentry(m[q + [x]], y), d')
  {
    MovementFacts(d, m, q, x, q2, y);
    MoveShifts(d, m[q], k, m[q2], y);
    forall i: nat
      ensures InodeAt(d', i).(dentryCount := 0) == InodeAt(d, i).(dentryCount := 0)
      ensures InodeAt(d', i).dentryCount ==
              InodeAt(d, i).dentryCount - (if i == m[q] then 1 else 0) + (if i == m[q2] then 1 else 0)
    {
      MovedRecords(d, m[q], k, m[q2], y, i);
    }
    MovedRecords(d, m[q], k, m[q2], y, 0);
  }

  /** Two directories, perhaps one and the same, between which a slot moves. */
  ghost predicate Places(d: Disk, p: nat, k: nat, p2: nat) {
    && Shape(d) && Stored(d, p) && IsDir(d, p) && Stored(d, p2) && IsDir(d, p2) && (p != p2 ==> Apart(d, p, p2))
    && k < InodeAt(d, p).dentryCount && EntrySlot(d, p2) < |d.cells|
  }

  lemma MovingPointers(d: Disk, p: nat, k: nat, p2: nat, e: Cell, d': Disk, i: nat)
    requires Places(d, p, k, p2) && Moving(d, p, k, p2, e, d') && Stored(d, i) && !Struck(d, p2, i)
    ensures ExtOf(d', i) == ExtOf(d, i) && DataOf(d', i) == DataOf(d, i)
  {
    assert CellAt(d', SLOTS * ExtOf(d, i)) == CellAt(d, SLOTS * ExtOf(d, i));
  }

  /** Other inodes read as before. */
  lemma MovingKeeps(d: Disk, p: nat, k: nat, p2: nat, e: Cell, d': Disk, i: nat)
    requires Places(d, p, k, p2) && Moving(d, p, k, p2, e, d') && Stored(d, i) && !Struck(d, p2, i)
    requires i != p && i != p2 && Apart(d, i, p) && Apart(d, i, p2)
    ensures EntriesOf(d', i) == EntriesOf(d, i)
  {
    MovingPointers(d, p, k, p2, e, d', i);
    SameSlots(d, d', i);
  }

  lemma SameSlots(d: Disk, d': Disk, i: nat)
    requires Stored(d, i) && Shape(d) && |d'.cells| == |d.cells| && DataOf(d', i) == DataOf(d, i)
    requires InodeAt(d', i).dentryCount == InodeAt(d, i).dentryCount
    requires forall c :: SLOTS * DataOf(d, i) <= c < EntrySlot(d, i) ==> CellAt(d', c) == CellAt(d, c)
    ensures EntriesOf(d', i) == EntriesOf(d, i)
  {
    forall j | 0 <= j < |EntriesOf(d, i)|
      ensures EntriesOf(d', i)[j] == EntriesOf(d, i)[j]
    {
      assert CellAt(d', SLOTS * DataOf(d, i) + j) == CellAt(d, SLOTS * DataOf(d, i) + j);
    }
  }

  /** Between two directories the source loses the slot, and the target gains one at the end. */
  lemma MovingSource(d: Disk, p: nat, k: nat, p2: nat, e: Cell, d': Disk)
    requires Places(d, p, k, p2) && Moving(d, p, k, p2, e, d') && p != p2 && !Struck(d, p2, p)
    ensures EntriesOf(d', p) == Without(EntriesOf(d, p), k)
  {
    MovingPointers(d, p, k, p2, e, d', p);
    EntriesRemoved(d, d', p, k, EntrySlot(d, p2));
  }

  lemma MovingTarget(d: Disk, p: nat, k: nat, p2: nat, e: Cell, d': Disk)
    requires Places(d, p, k, p2) && Moving(d, p, k, p2, e, d') && p != p2
    ensures EntriesOf(d', p2) == EntriesOf(d, p2) + [e]
  {
    MovingPointers(d, p, k, p2, e, d', p2);
    EntriesAppended(d, d', p2, e);
  }

  /** Within one directory the slot goes and the last one is repeated; the new entry lies behind the count. */
  lemma MovingWithin(d: Disk, p: nat, k: nat, e: Cell, d': Disk)
    requires Places(d, p, k, p) && Moving(d, p, k, p, e, d')
    ensures var es := EntriesOf(d, p);
            |es| > k && EntriesOf(d', p) == Without(es, k) + [es[|es| - 1]]
  {
    var es, at := EntriesOf(d, p), SLOTS * DataOf(d, p);
    MovingPointers(d, p, k, p, e, d', p);
    forall j | 0 <= j < |es|
      ensures EntriesOf(d', p)[j] == es[if k <= j < |es| - 1 then j + 1 else j]
    {
      assert CellAt(d', at + j) == CellAt(d, if k <= j < |es| - 1 then at + j + 1 else at + j);
    }
    DroppedAndDoubled(es, EntriesOf(d', p), k);
  }

  lemma DroppedAndDoubled(es: seq<Cell>, after: seq<Cell>, k: nat)
    requires |after| == |es| > k
    requires forall j :: 0 <= j < |es| ==> after[j] == es[if k <= j < |es| - 1 then j + 1 else j]
    ensures after == Without(es, k) + [es[|es| - 1]]
  {
  }

  // ---- Result maps ----

  /** The map without `from` and what is below it. */
  ghost function Dropped(m: Names, from: Path): Names {
    map r | r in m && !(from <= r) :: m[r]
  }

  /**
   * What is listed after a move of q + [x] to q2 + [y]: within one directory nothing happens to the last entry, and
   * any other is lost; below itself, and onto a name that is taken, the source is lost, too.
   */
  ghost function Result(m: Names, q: Path, x: string, q2: Path, y: string, last: bool): Names {
    var from, to := q + [x], q2 + [y];
    if q == q2 then if last then m else Dropped(m, from)
    else if !(from <= q2) && Vacant(m, to) then Moved(m, from, to)
    else Dropped(m, from)
  }

  /** The source is the directory's last entry. */
  predicate LastEntry(d: Disk, p: nat, x: string) {
    SlotOf(d, p, x) == |EntriesOf(d, p)| - 1
  }

  lemma BelowChild(from: Path, r: Path, z: string)
    requires from != []
    ensures from <= r + [z] <==> from <= r || (Init(from) == r && Last(from) == z)
  {
    if from <= r + [z] && !(from <= r) {
      assert from == r + [z];
    }
    if Init(from) == r && Last(from) == z {
      assert from == r + [z];
    }
  }

  lemma DroppedFramed(d: Disk, m: Names, d': Disk, from: Path)
    requires Framed(d, m) && from != [] && forall i: nat :: IsDir(d', i) == IsDir(d, i)
    ensures Framed(d', Dropped(m, from))
  {
    var m' := Dropped(m, from);
    forall r | r in m'
      ensures Hangs(d', m', r)
    {
      assert Hangs(d, m, r);
      if r != [] {
        assert r == Init(r) + [Last(r)];
        BelowChild(from, Init(r), Last(r));
      }
    }
  }

  /** What is found below a path that stays: all but the dropped name. */
  lemma ExpectedDropped(m: Names, q: Path, x: string, r: Path, z: string)
    requires !(q + [x] <= r)
    ensures Expected(Dropped(m, q + [x]), r, z) == if r == q && z == x then -1 else Expected(m, r, z)
  {
    assert Init(q + [x]) == q && Last(q + [x]) == x;
    BelowChild(q + [x], r, z);
  }

  // ---- Searches after the move ----

  ghost predicate Case(d: Disk, m: Names, q: Path, x: string, q2: Path, y: string, d': Disk, m': Names) {
    && Movement(d, m, q, x, q2, y) && d' == MoveAt(d, m[q], x, m[q2], y).disk
    && m' == Result(m, q, x, q2, y, LastEntry(d, m[q], x))
  }

  lemma CaseFacts(d: Disk, m: Names, q: Path, x: string, q2: Path, y: string, d': Disk, m': Names)
    requires Case(d, m, q, x, q2, y, d', m')
    ensures var k, e := SlotOf(d, m[q], x), Dentry(m[q + [x]], y);
            2 <= k && Places(d, m[q], k, m[q2]) && Moving(d, m[q], k, m[q2], e, d')
            && k < |EntriesOf(d, m[q])| && NameOf(EntriesOf(d, m[q])[k]) == x
            && (forall i, j :: 0 <= i < j < |EntriesOf(d, m[q])| ==>
                  NameOf(EntriesOf(d, m[q])[i]) != NameOf(EntriesOf(d, m[q])[j]))
    ensures forall i: nat :: IsDir(d', i) == IsDir(d, i)
    ensures m[q] == m[q2] <==> q == q2
  {
    MovementFacts(d, m, q, x, q2, y);
    MoveIsMoving(d, m, q, x, q2, y, SlotOf(d, m[q], x), d');
    forall i: nat
      ensures IsDir(d', i) == IsDir(d, i)
    {
      assert InodeAt(d', i).(dentryCount := 0) == InodeAt(d, i).(dentryCount := 0);
    }
  }

  lemma CaseKeeps(d: Disk, m: Names, q: Path, x: string, q2: Path, y: string, d': Disk, m': Names, i: nat)
    requires Case(d, m, q, x, q2, y, d', m') && i in m.Values && i != m[q] && i != m[q2] && !Struck(d, m[q2], i)
    ensures EntriesOf(d', i) == EntriesOf(d, i)
  {
    CaseFacts(d, m, q, x, q2, y, d', m');
    LiveIsStored(d, m.Values, i);
    assert m[q] in m.Values && m[q2] in m.Values && Apart(d, i, m[q]) && Apart(d, i, m[q2]);
    MovingKeeps(d, m[q], SlotOf(d, m[q], x), m[q2], Dentry(m[q + [x]], y), d', i);
  }

  /** The children of a listed path after the move, in terms of those before. */
  lemma CaseChild(d: Disk, m: Names, q: Path, x: string, q2: Path, y: string, d': Disk, m': Names, r: Path, z: string)
    requires Case(d, m, q, x, q2, y, d', m') && r in m && !Struck(d, m[q2], m[r]) && Plain(z)
    ensures var c := Expected(m, r, z);
            Child(EntriesOf(d', m[r]), z) ==
            if r == q && z == x && !(q == q2 && LastEntry(d, m[q], x)) then -1
            else if r == q2 && q != q2 && c == -1 && z == y then m[q + [x]]
            else c
  {
    CaseFacts(d, m, q, x, q2, y, d', m');
    CoreIsFramed(d, m);
    CleanReads(d, m, r);
    assert Child(EntriesOf(d, m[r]), z) == Expected(m, r, z);
    if r == q {
      CaseChildOfSource(d, m, q, x, q2, y, d', m', z);
    } else if r == q2 {
      MovingTarget(d, m[q], SlotOf(d, m[q], x), m[q2], Dentry(m[q + [x]], y), d');
      ChildOfAppended(EntriesOf(d, m[q2]), Dentry(m[q + [x]], y), z);
    } else {
      assert m[r] in m.Values;
      CaseKeeps(d, m, q, x, q2, y, d', m', m[r]);
    }
  }

  lemma CaseChildOfSource(d: Disk, m: Names, q: Path, x: string, q2: Path, y: string, d': Disk, m': Names, z: string)
    requires Case(d, m, q, x, q2, y, d', m') && !Struck(d, m[q2], m[q])
    ensures Child(EntriesOf(d', m[q]), z) ==
            if z == x && !(q == q2 && LastEntry(d, m[q], x)) then -1 else Child(EntriesOf(d, m[q]), z)
  {
    if q == q2 {
      CaseChildWithin(d, m, q, x, y, d', m', z);
    } else {
      CaseChildLeft(d, m, q, x, q2, y, d', m', z);
    }
  }

  /** Within one directory the moved slot goes and the last entry is doubled. */
  lemma CaseWithin(d: Disk, m: Names, q: Path, x: string, y: string, d': Disk, m': Names, k: int, es: seq<Cell>)
    requires Case(d, m, q, x, q, y, d', m') && k == SlotOf(d, m[q], x) && es == EntriesOf(d, m[q])
    ensures 2 <= k < |es| && NameOf(es[k]) == x && EntriesOf(d', m[q]) == Without(es, k) + [es[|es| - 1]]
    ensures forall i, j :: 0 <= i < j < |es| ==> NameOf(es[i]) != NameOf(es[j])
    ensures IsDir(d', m[q])
  {
    hide Store, Spells;
    CaseFacts(d, m, q, x, q, y, d', m');
    MovingWithin(d, m[q], k, Dentry(m[q + [x]], y), d');
  }

  lemma CaseChildWithin(d: Disk, m: Names, q: Path, x: string, y: string, d': Disk, m': Names, z: string)
    requires Case(d, m, q, x, q, y, d', m')
    ensures Child(EntriesOf(d', m[q]), z) ==
            if z == x && !LastEntry(d, m[q], x) then -1 else Child(EntriesOf(d, m[q]), z)
  {
    var k, es := SlotOf(d, m[q], x), EntriesOf(d, m[q]);
    CaseWithin(d, m, q, x, y, d', m', k, es);
    ChildOfDoubled(es, k, z);
  }

  lemma CaseChildLeft(d: Disk, m: Names, q: Path, x: string, q2: Path, y: string, d': Disk, m': Names, z: string)
    requires Case(d, m, q, x, q2, y, d', m') && !Struck(d, m[q2], m[q]) && q != q2
    ensures Child(EntriesOf(d', m[q]), z) == if z == x then -1 else Child(EntriesOf(d, m[q]), z)
  {
    CaseFacts(d, m, q, x, q2, y, d', m');
    MovingSource(d, m[q], SlotOf(d, m[q], x), m[q2], Dentry(m[q + [x]], y), d');
    ChildOfWithout(EntriesOf(d, m[q]), SlotOf(d, m[q], x), z);
  }

  // ---- The result map after a move to another directory ----

  lemma ExpectedMoved(m: Names, q: Path, x: string, q2: Path, y: string, r: Path, z: string)
    requires q != q2 && !(q + [x] <= q2) && q in m && q + [x] in m && q2 in m && Vacant(m, q2 + [y]) && r in m
    ensures var from, to := q + [x], q2 + [y];
            Expected(Moved(m, from, to), Rebase(from, to, r), z) ==
            if r == q && z == x then -1 else if r == q2 && z == y then m[from] else Expected(m, r, z)
  {
    var from, to := q + [x], q2 + [y];
    var m', s := Moved(m, from, to), Rebase(from, to, r);
    assert |from| > |q| && |to| > |q2|;
    assert Init(from) == q && Last(from) == x && Init(to) == q2 && Last(to) == y;
    RebaseChild(q, x, q2, y, r, z);
    if r == q && z == x {
      SourceNotInMoved(m, from, to);
      assert s + [z] == from;
    } else if r == q2 && z == y {
      MovedAt(m, from, to, from);
      assert s + [z] == to && Rebase(from, to, from) == to;
    } else if r + [z] in m {
      MovedAt(m, from, to, r + [z]);
    } else if s + [z] in m' {
      BelowChild(to, r, z);
      RebaseBack(from, to, r + [z]);
    }
  }

  lemma SourceNotInMoved(m: Names, from: Path, to: Path)
    requires Vacant(m, to) && from in m
    ensures from !in Moved(m, from, to)
  {
    forall r | r in m
      ensures Rebase(from, to, r) != from
    {
      assert from <= r ==> to <= Rebase(from, to, r);
    }
  }

  lemma MovedFramed(d: Disk, m: Names, d': Disk, q: Path, x: string, q2: Path, y: string)
    requires Core(d, m) && q in m && q + [x] in m && q2 in m && IsDir(d, m[q2]) && Plain(y)
    requires !(q + [x] <= q2) && Vacant(m, q2 + [y]) && forall i: nat :: IsDir(d', i) == IsDir(d, i)
    ensures Framed(d', Moved(m, q + [x], q2 + [y]))
  {
    var from, to := q + [x], q2 + [y];
    var m' := Moved(m, from, to);
    CoreIsFramed(d, m);
    MoveRoot(m, from, to);
    MovedKeys(m, from, to);
    forall s | s in m'
      ensures Hangs(d', m', s)
    {
      var r := MovedFrom(m, from, to, s);
      MovedHangs(d, m, d', q, x, q2, y, r);
    }
  }

  lemma MovedHangs(d: Disk, m: Names, d': Disk, q: Path, x: string, q2: Path, y: string, r: Path)
    requires Framed(d, m) && q + [x] in m && q2 in m && IsDir(d, m[q2]) && Plain(y) && r in m
    requires !(q + [x] <= q2) && Vacant(m, q2 + [y]) && forall i: nat :: IsDir(d', i) == IsDir(d, i)
    ensures Hangs(d', Moved(m, q + [x], q2 + [y]), Rebase(q + [x], q2 + [y], r))
  {
    var from, to := q + [x], q2 + [y];
    if r == from {
      assert Rebase(from, to, r) == to && Init(to) == q2 && Last(to) == y;
      MovedAt(m, from, to, q2);
    } else if r != [] {
      var up := Init(r);
      assert Hangs(d, m, r) && r == up + [Last(r)];
      assert Init(from) == q && Last(from) == x;
      RebaseChild(q, x, q2, y, up, Last(r));
      MovedAt(m, from, to, up);
      assert Init(Rebase(from, to, up) + [Last(r)]) == Rebase(from, to, up);
    }
  }

  // ---- What the image shows afterwards ----

  lemma CaseFramed(d: Disk, m: Names, q: Path, x: string, q2: Path, y: string, d': Disk, m': Names)
    requires Case(d, m, q, x, q2, y, d', m')
    ensures Framed(d', m')
  {
    CaseFacts(d, m, q, x, q2, y, d', m');
    CoreIsFramed(d, m);
    var from := q + [x];
    assert |from| > |q|;
    if q != q2 && !(from <= q2) && Vacant(m, q2 + [y]) {
      MovedFramed(d, m, d', q, x, q2, y);
    } else if q == q2 && LastEntry(d, m[q], x) {
      forall r | r in m
        ensures Hangs(d', m, r)
      {
        assert Hangs(d, m, r);
      }
    } else {
      DroppedFramed(d, m, d', from);
    }
  }

  lemma CaseReadsMoved(d: Disk, m: Names, q: Path, x: string, q2: Path, y: string, d': Disk, m': Names, r: Path)
    requires Case(d, m, q, x, q2, y, d', m') && q != q2 && !(q + [x] <= q2) && Vacant(m, q2 + [y])
    requires r in m && !Struck(d, m[q2], m[r])
    ensures Reads(d', m', Rebase(q + [x], q2 + [y], r))
  {
    var from, to := q + [x], q2 + [y];
    MovedAt(m, from, to, r);
    forall z | Plain(z)
      ensures Child(EntriesOf(d', m[r]), z) == Expected(m', Rebase(from, to, r), z)
    {
      CaseChild(d, m, q, x, q2, y, d', m', r, z);
      ExpectedMoved(m, q, x, q2, y, r, z);
    }
  }

  lemma CaseReadsDropped(d: Disk, m: Names, q: Path, x: string, q2: Path, y: string, d': Disk, m': Names, r: Path)
    requires Case(d, m, q, x, q2, y, d', m') && m' == Dropped(m, q + [x])
    requires if q == q2 then !LastEntry(d, m[q], x) else q + [x] <= q2 || q2 + [y] in m
    requires r in m' && !Struck(d, m[q2], m[r])
    ensures Reads(d', m', r)
  {
    forall z | Plain(z)
      ensures Child(EntriesOf(d', m'[r]), z) == Expected(m', r, z)
    {
      CaseChild(d, m, q, x, q2, y, d', m', r, z);
      ExpectedDropped(m, q, x, r, z);
    }
  }

  lemma CaseReadsSame(d: Disk, m: Names, q: Path, x: string, y: string, d': Disk, r: Path)
    requires Case(d, m, q, x, q, y, d', m) && LastEntry(d, m[q], x) && r in m && !Struck(d, m[q], m[r])
    ensures Reads(d', m, r)
  {
    forall z | Plain(z)
      ensures Child(EntriesOf(d', m[r]), z) == Expected(m, r, z)
    {
      CaseChild(d, m, q, x, q, y, d', m, r, z);
    }
  }

  /** Every search but that of a struck inode finds what the result map lists. */
  lemma CaseReads(d: Disk, m: Names, q: Path, x: string, q2: Path, y: string, d': Disk, m': Names, s: Path)
    requires Case(d, m, q, x, q2, y, d', m') && s in m' && !Struck(d, m[q2], m'[s])
    ensures Reads(d', m', s)
  {
    var from, to := q + [x], q2 + [y];
    if q == q2 && LastEntry(d, m[q], x) {
      CaseReadsSame(d, m, q, x, y, d', s);
    } else if q != q2 && !(from <= q2) && Vacant(m, to) {
      var r := MovedFrom(m, from, to, s);
      CaseReadsMoved(d, m, q, x, q2, y, d', m', r);
    } else {
      AbsentVacant(d, m, to);
      CaseReadsDropped(d, m, q, x, q2, y, d', m', s);
    }
  }

  lemma AbsentVacant(d: Disk, m: Names, to: Path)
    requires Core(d, m)
    ensures to !in m <==> Vacant(m, to)
  {
    if to !in m {
      AbsentIsVacant(Graph(d, m.Values), m, to);
    }
  }

  /** A move is decided at the inode whose extent the new entry was written over, if there is one. */
  lemma StruckShowsIff(d: Disk, m: Names, q: Path, x: string, q2: Path, y: string, d': Disk, m': Names)
    requires Case(d, m, q, x, q2, y, d', m')
    ensures Shows(d', m') <==>
            forall s {:trigger Reads(d', m', s)} :: s in m' && Struck(d, m[q2], m'[s]) ==> Reads(d', m', s)
    ensures InodeAt(d, m[q2]).dentryCount < SLOTS ==> Shows(d', m')
  {
    CaseFramed(d, m, q, x, q2, y, d', m');
    if s :| s in m' && Struck(d, m[q2], m'[s]) {
      StruckDecides(d, m, q, x, q2, y, d', m', s);
      StruckIsFull(d, m, q2, m'[s]);
    } else {
      forall s | s in m'
        ensures Reads(d', m', s)
      {
        CaseReads(d, m, q, x, q2, y, d', m', s);
      }
      ReadsShows(d', m');
    }
  }

  lemma StruckDecides(d: Disk, m: Names, q: Path, x: string, q2: Path, y: string, d': Disk, m': Names, s: Path)
    requires Case(d, m, q, x, q2, y, d', m') && Framed(d', m') && s in m' && Struck(d, m[q2], m'[s])
    ensures m'[s] in m.Values && (Shows(d', m') <==> Reads(d', m', s))
    ensures forall r {:trigger m'[r]} :: r in m' && Struck(d, m[q2], m'[r]) ==> r == s
  {
    ResultInodes(d, m, q, x, q2, y, m', s);
    forall r | r in m' && r != s
      ensures !Struck(d, m[q2], m'[r]) && Reads(d', m', r)
    {
      ResultInodes(d, m, q, x, q2, y, m', r);
      assert m'[r] != m'[s];
      StruckOnce(d, m.Values, m[q2], m'[r], m'[s]);
      CaseReads(d, m, q, x, q2, y, d', m', r);
    }
    OneSearchDecides(d', m', s);
  }

  /** A move lists no inode that was not listed before. */
  lemma ResultInodes(d: Disk, m: Names, q: Path, x: string, q2: Path, y: string, m': Names, s: Path)
    requires m' == Result(m, q, x, q2, y, LastEntry(d, if q in m then m[q] else 0, x)) && s in m'
    ensures m'[s] in m.Values
  {
    if q != q2 && !(q + [x] <= q2) && Vacant(m, q2 + [y]) {
      var r := MovedFrom(m, q + [x], q2 + [y], s);
    }
  }

  lemma StruckIsFull(d: Disk, m: Names, q2: Path, i: nat)
    requires Core(d, m) && q2 in m && IsDir(d, m[q2]) && i in m.Values && Struck(d, m[q2], i)
    ensures InodeAt(d, m[q2]).dentryCount == SLOTS
  {
    ListedNode(d, m, q2);
    LiveIsStored(d, m.Values, i);
  }

  lemma StruckOnce(d: Disk, live: set<nat>, p2: nat, i: nat, j: nat)
    requires Store(d, live) && i in live && j in live
    ensures Struck(d, p2, i) && Struck(d, p2, j) ==> i == j
  {
    assert i == j || Apart(d, i, j);
  }

  // ---- What is read through a struck extent ----

  /** The records after a move. */
  function MovedTable(d: Disk, p: nat, p2: nat): seq<Inode> {
    var fewer := PutInode(d.inodes, p, AddDentries(InodeAt(d, p), -1));
    PutInode(fewer, p2, AddDentries(InodeAt(d.(inodes := fewer), p2), 1))
  }

  /** Slot number c after a move of slot k of directory p, as e, to the end of p2, told from the image before it. */
  function SlotAfterMove(d: Disk, p: nat, k: int, p2: nat, e: Cell, c: int): Cell {
    var at, n := SLOTS * DataOf(d, p), InodeAt(d, p).dentryCount;
    if c < 0 then MetaSlot(d.geo, d.ibits, d.dbits, MovedTable(d, p, p2), c)
    else if c == EntrySlot(d, p2) then e
    else if at + k <= c < at + n - 1 then CellAt(d, c + 1)
    else CellAt(d, c)
  }

  function SlotsAfterMove(d: Disk, p: nat, k: int, p2: nat, e: Cell, at: int, n: int): seq<Cell> {
    if n < 0 || at + n > |d.cells| || at < -SLOTS * d.geo.firstData then []
    else seq(n, j requires 0 <= j < n => SlotAfterMove(d, p, k, p2, e, at + j))
  }

  /** How many slots of a struck inode count after the move. */
  function SlotsLeft(d: Disk, p: nat, i: nat): int {
    InodeAt(d, i).dentryCount - (if i == p then 1 else 0)
  }

  /** What inode i, struck by the move of q + [x] to q2 + [y], finds afterwards: the slots of another block. */
  function StruckSlots(d: Disk, m: Names, q: Path, x: string, q2: Path, y: string, i: nat): seq<Cell>
    requires q in m && q + [x] in m && q2 in m
  {
    var e := Dentry(m[q + [x]], y);
    SlotsAfterMove(d, m[q], SlotOf(d, m[q], x), m[q2], e, SLOTS * (m[q + [x]] - d.geo.firstData), SlotsLeft(d, m[q], i))
  }

  lemma MovedSlot(d: Disk, p: nat, k: nat, p2: nat, e: Cell, d': Disk, c: int)
    requires Moving(d, p, k, p2, e, d') && d'.ibits == d.ibits && d'.dbits == d.dbits
    requires d'.inodes == MovedTable(d, p, p2)
    ensures SlotAt(d', c) == SlotAfterMove(d, p, k, p2, e, c)
  {
    hide MetaSlot;
  }

  lemma MovedSlots(d: Disk, p: nat, k: nat, p2: nat, e: Cell, d': Disk, at: int, n: int)
    requires Moving(d, p, k, p2, e, d') && d'.ibits == d.ibits && d'.dbits == d.dbits
    requires d'.inodes == MovedTable(d, p, p2)
    ensures SlotsFrom(d', at, n) == SlotsAfterMove(d, p, k, p2, e, at, n)
  {
    hide MetaSlot, SlotAfterMove;
    var after, before := SlotsFrom(d', at, n), SlotsAfterMove(d, p, k, p2, e, at, n);
    forall j | 0 <= j < |before|
      ensures after[j] == before[j]
    {
      MovedSlot(d, p, k, p2, e, d', at + j);
    }
  }

  /** A struck inode is read from the block with the absolute number of the moved inode. */
  lemma StruckReadsElsewhere(d: Disk, m: Names, q: Path, x: string, q2: Path, y: string, d': Disk, m': Names, i: nat)
    requires Case(d, m, q, x, q2, y, d', m') && i in m.Values && Struck(d, m[q2], i)
    ensures DataOf(d', i) == m[q + [x]] - d.geo.firstData
    ensures EntriesOf(d', i) == StruckSlots(d, m, q, x, q2, y, i)
  {
    hide Store, Spells, MoveAt;
    hide SlotsFrom, SlotsAfterMove, DataOf;
    var p, k, p2, e := m[q], SlotOf(d, m[q], x), m[q2], Dentry(m[q + [x]], y);
    CaseFacts(d, m, q, x, q2, y, d', m');
    LiveIsStored(d, m.Values, i);
    StruckBehind(d, p2, i);
    StruckPointer(d, p, k, p2, e, d', i);
    CaseTable(d, m, q, x, q2, y, d', m');
    MovedSlots(d, p, k, p2, e, d', SLOTS * (m[q + [x]] - d.geo.firstData), SlotsLeft(d, p, i));
  }

  lemma StruckPointer(d: Disk, p: nat, k: nat, p2: nat, e: Cell, d': Disk, i: nat)
    requires Moving(d, p, k, p2, e, d') && Struck(d, p2, i) && e.Dentry? && i != p2
    ensures DataOf(d', i) == e.ino - d.geo.firstData && InodeAt(d', i).dentryCount == SlotsLeft(d, p, i)
  {
    assert InodeAt(d', i).(dentryCount := 0) == InodeAt(d, i).(dentryCount := 0);
    assert CellAt(d', SLOTS * ExtOf(d, i)) == e;
  }

  lemma StruckBehind(d: Disk, p2: nat, i: nat)
    requires Stored(d, p2) && IsDir(d, p2) && Stored(d, i) && Struck(d, p2, i)
    ensures EntrySlot(d, p2) == SLOTS * (DataOf(d, p2) + 1) && i != p2
  {
  }

  lemma CaseTable(d: Disk, m: Names, q: Path, x: string, q2: Path, y: string, d': Disk, m': Names)
    requires Case(d, m, q, x, q2, y, d', m')
    ensures d'.ibits == d.ibits && d'.dbits == d.dbits && d'.inodes == MovedTable(d, m[q], m[q2])
  {
    MovementFacts(d, m, q, x, q2, y);
  }

  /**
   * After a move the image shows the result map if and only if the inode whose extent the new entry was written over,
   * if there is one, finds its children in the block that the number of the moved inode stands for. Only a full
   * target directory can strike an extent.
   */
  lemma MoveShowsIff(d: Disk, m: Names, q: Path, x: string, q2: Path, y: string, d': Disk, m': Names)
    requires Case(d, m, q, x, q2, y, d', m')
    ensures Shows(d', m') <==>
            forall s {:trigger Struck(d, m[q2], m'[s])} :: s in m' && Struck(d, m[q2], m'[s]) ==>
              Spelled(m', s, StruckSlots(d, m, q, x, q2, y, m'[s]))
    ensures InodeAt(d, m[q2]).dentryCount < SLOTS ==> Shows(d', m')
  {
    StruckShowsIff(d, m, q, x, q2, y, d', m');
    forall s | s in m' && Struck(d, m[q2], m'[s])
      ensures Reads(d', m', s) <==> Spelled(m', s, StruckSlots(d, m, q, x, q2, y, m'[s]))
    {
      ResultInodes(d, m, q, x, q2, y, m', s);
      StruckReadsElsewhere(d, m, q, x, q2, y, d', m', m'[s]);
    }
  }

  // ---- Numbers that stand for the inode table ----

  lemma MovedIsPadless(d: Disk, p: nat, p2: nat, d': Disk)
    requires Padless(d) && d' == d.(inodes := MovedTable(d, p, p2))
    ensures Padless(d')
  {
    forall i: nat
      ensures Blank(InodeAt(d', i))
    {
      assert Blank(InodeAt(d, i)) && Blank(InodeAt(d, p)) && Blank(InodeAt(d, p2));
    }
  }

  lemma StruckTableSlot(d: Disk, p: nat, k: int, p2: nat, e: Cell, c: int)
    requires Padless(d) && Decoded(d.geo) && -SLOTS * (d.geo.firstData - d.geo.firstInode) <= c < 0
    ensures NameOf(SlotAfterMove(d, p, k, p2, e, c)) == ""
  {
    hide MetaSlot;
    var d' := d.(inodes := MovedTable(d, p, p2));
    MovedIsPadless(d, p, p2, d');
    TableIsNameless(d', c);
  }

  lemma StruckFindsNothing(d: Disk, p: nat, k: int, p2: nat, e: Cell, n: nat, i: nat, x: string)
    requires Padless(d) && Decoded(d.geo) && d.geo.firstInode <= i < d.geo.firstData && n <= SLOTS && Plain(x)
    ensures Child(SlotsAfterMove(d, p, k, p2, e, SLOTS * (i - d.geo.firstData), n), x) == -1
  {
    hide SlotAfterMove;
    var at := SLOTS * (i - d.geo.firstData);
    var es := SlotsAfterMove(d, p, k, p2, e, at, n);
    forall j | 0 <= j < |es|
      ensures NameOf(es[j]) == ""
    {
      StruckTableSlot(d, p, k, p2, e, at + j);
    }
  }

  /** For a number that stands for a block of the inode table, what is struck must have no children in the result. */
  lemma MoveOfTableInodeShowsIff(d: Disk, m: Names, q: Path, x: string, q2: Path, y: string, d': Disk, m': Names)
    requires Case(d, m, q, x, q2, y, d', m')
    requires Padless(d) && Decoded(d.geo) && d.geo.firstInode <= m[q + [x]] < d.geo.firstData
    ensures Shows(d', m') <==>
            forall s {:trigger Childless(m', s)} :: s in m' && Struck(d, m[q2], m'[s]) ==> Childless(m', s)
  {
    MoveShowsIff(d, m, q, x, q2, y, d', m');
    forall s | s in m' && Struck(d, m[q2], m'[s])
      ensures Spelled(m', s, StruckSlots(d, m, q, x, q2, y, m'[s])) <==> Childless(m', s)
    {
      ResultInodes(d, m, q, x, q2, y, m', s);
      SomeSlotsLeft(d, m, m[q], m'[s]);
      NamelessMoveIff(d, m, q, x, q2, y, m', s);
    }
  }

  lemma NamelessMoveIff(d: Disk, m: Names, q: Path, x: string, q2: Path, y: string, m': Names, s: Path)
    requires q in m && q + [x] in m && q2 in m && s in m' && 0 <= SlotsLeft(d, m[q], m'[s]) <= SLOTS
    requires Padless(d) && Decoded(d.geo) && d.geo.firstInode <= m[q + [x]] < d.geo.firstData
    ensures Spelled(m', s, StruckSlots(d, m, q, x, q2, y, m'[s])) <==> Childless(m', s)
  {
    hide SlotsAfterMove, Padless, Decoded, SlotOf;
    var e := Dentry(m[q + [x]], y);
    forall z | Plain(z)
      ensures Child(StruckSlots(d, m, q, x, q2, y, m'[s]), z) == -1
    {
      StruckFindsNothing(d, m[q], SlotOf(d, m[q], x), m[q2], e, SlotsLeft(d, m[q], m'[s]), m[q + [x]], z);
    }
  }

  lemma SomeSlotsLeft(d: Disk, m: Names, p: nat, i: nat)
    requires Core(d, m) && i in m.Values
    ensures 0 <= SlotsLeft(d, p, i) <= SLOTS
  {
    LiveIsStored(d, m.Values, i);
  }
}
