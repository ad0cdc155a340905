/** A run after which the data bitmap is read as directory entries. */
module Phantom {
  import Bitmap
  import Paths
  import opened Disk
  import opened Storage
  import opened Installing
  import opened Tree
  import opened FileSystem
  import Operations
  import opened Calls
  import opened Ledger
  import opened Mkfs
  import Runs
  import Theorems
  import Effects
  import opened Observing
  import opened Overflowing
  import opened Placement
  import opened Scenarios

  // ---- A bitmap with its first 34 bits set ----

  const GHOST := "\U{0003}"

  lemma LeadingBytes(bits: seq<bool>, bytes: string)
    requires |bits| >= 48 && forall k :: 0 <= k < 48 ==> (bits[k] <==> k < 34)
    requires bytes == BytesOfBits(bits, 0, 256)
    ensures |bytes| == 256 && bytes[5] == '\0' && bytes[4] == '\U{0003}'
    ensures forall j :: 0 <= j < 4 ==> bytes[j] == '\U{00FF}'
  {
  }

  lemma FourOnes(bytes: string)
    requires |bytes| == 4 && forall j :: 0 <= j < 4 ==> bytes[j] == '\U{00FF}'
    ensures Number(bytes) == 0xFFFF_FFFF
  {
    assert Number(bytes[1..][1..][1..][1..]) == 0;
    assert Number(bytes[1..][1..][1..]) == 0xFF;
    assert Number(bytes[1..][1..]) == 0xFFFF;
  }

  /** As an entry it carries a name of one byte. */
  lemma BitsAsEntry(bits: seq<bool>)
    requires |bits| >= 48 && forall k :: 0 <= k < 48 ==> (bits[k] <==> k < 34)
    ensures BitSlot(bits, 0) == Dentry(0xFFFF_FFFF, GHOST)
  {
    hide BytesOfBits;
    var bytes := BytesOfBits(bits, 0, 256);
    LeadingBytes(bits, bytes);
    FourOnes(bytes[..4]);
    var rest := bytes[4..];
    assert rest[0] == '\U{0003}' && rest[1..][0] == '\0';
    assert Paths.CString(rest[1..]) == "";
  }

  // ---- The run ----

  /** What is listed at /a, whichever files the root has. */
  ghost predicate OneBelow(m: Names) {
    && ["a"] in m && m[["a"]] == 1 && ["a", "x"] in m && m[["a", "x"]] == 2 && ["a", GHOST] !in m
  }

  /** Inodes 1 and 2 are /a and /a/x. */
  ghost predicate FirstTwo(d: Disk) {
    IsDir(d, 1) && InodeAt(d, 1).dentryCount == 3 && !IsDir(d, 2)
  }

  /** mkdir /a, create /a/x, mkdir /d, create /d/u. */
  lemma TwoDirectories(size: nat, nInodes: nat) returns (d: Disk, m: Names)
    requires Enough(size, nInodes)
    ensures Here(size, nInodes, d, m, 5) && FirstTwo(d) && InodeAt(d, 0).dentryCount == 4
    ensures m == RootOnly[["a"] := 1][["a", "x"] := 2][["d"] := 3][["d", "u"] := 4]
  {
    hide Here, Made;
    var d2, m2 := FirstWithFile(size, nInodes, "a", "x");
    PathsDiffer();
    var d3, m3 := MakeInRoot(size, nInodes, d2, m2, 3, "d", true);
    OtherKept(d2, d3, 3, 1);
    OtherKept(d2, d3, 3, 2);
    d, m := Make(size, nInodes, d3, m3, 4, ["d", "u"], false);
    MadeKeeps(d3, m3, 4, ["d", "u"], false, d, 0);
    MadeKeeps(d3, m3, 4, ["d", "u"], false, d, 1);
    MadeKeeps(d3, m3, 4, ["d", "u"], false, d, 2);
  }

  lemma PathsDiffer()
    ensures var m2 := RootOnly[["a"] := 1][["a", "x"] := 2];
            ["d"] !in m2 && var m3 := m2[["d"] := 3]; ["d", "u"] !in m3 && ["d"] in m3 && m3[["d"]] == 3
    ensures PlainPath(["d", "u"]) && Init(["d", "u"]) == ["d"] && Last(["d", "u"]) == "u"
  {
    assert ["d"][0] == "d" && ["a"][0] == "a" && ["d", "u"][0] == "d" && ["a", "x"][0] == "a";
    assert |["d", "u"]| == 2 && |["d"]| == 1;
  }

  lemma StartOfFilling(m: Names)
    requires m == RootOnly[["a"] := 1][["a", "x"] := 2][["d"] := 3][["d", "u"] := 4]
    ensures OneBelow(m) && Unused(m, 0)
  {
    assert ["a"][0] == "a" && ["a", "x"][0] == "a" && ["a", "x"][1] == "x" && ["d"][0] == "d" && ["d", "u"][0] == "d";
    assert ["a", GHOST][1] == GHOST && ["a", GHOST][0] == "a" && |["a", GHOST]| == 2;
    forall i: nat
      ensures [FileName(i)] !in m
    {
      assert [FileName(i)][0][0] == 'f';
    }
  }

  /** And j files in the root. */
  lemma {:induction false} Filled(size: nat, nInodes: nat, j: nat) returns (d: Disk, m: Names)
    requires Enough(size, nInodes) && j <= 12
    ensures Here(size, nInodes, d, m, 5 + j) && FirstTwo(d) && InodeAt(d, 0).dentryCount == 4 + j
    ensures OneBelow(m) && Unused(m, j)
  {
    hide Here, Made, OneBelow;
    if j == 0 {
      d, m := TwoDirectories(size, nInodes);
      StartOfFilling(m);
    } else {
      var d0, m0 := Filled(size, nInodes, j - 1);
      d, m := MakeInRoot(size, nInodes, d0, m0, 4 + j, FileName(j - 1), false);
      OtherKept(d0, d, 4 + j, 1);
      OtherKept(d0, d, 4 + j, 2);
      OneMoreFile(m0, m, j, 4 + j);
    }
  }

  lemma OneMoreFile(m0: Names, m: Names, j: nat, k: nat)
    requires j > 0 && Unused(m0, j - 1) && OneBelow(m0) && m == m0[[FileName(j - 1)] := k]
    ensures Unused(m, j) && OneBelow(m)
  {
    OneMoreUsed(m0, m, j, k);
    assert [FileName(j - 1)][0][0] == 'f' && ["a"][0][0] == 'a' && |["a", GHOST]| == 2 && |["a", "x"]| == 2;
  }

  // ---- unlink /a/x ----

  /** Inode 2 is free again, its blocks 4 and 5 as well, and everything else is in place. */
  ghost predicate Emptied(d: Disk, m: Names) {
    && Clean(d, m) && Balanced(d, m.Values, Tally(0, 0)) && AllInPlace(d, m.Values)
    && (forall i: nat :: i in m.Values <==> i < 17 && i != 2)
    && ["a"] in m && m[["a"]] == 1 && ["a", GHOST] !in m && [FileName(12)] !in m
    && InodeAt(d, 0).dentryCount == SLOTS && InodeAt(d, 1).dentryCount == 2
    && d.geo.inodeCount >= 32 && d.geo.dblockCount >= 64
  }

  lemma EmptiedDirectory(size: nat, nInodes: nat) returns (d: Disk, m: Names)
    requires Enough(size, nInodes)
    ensures Arrived(size, nInodes, d, m, Tally(0, 0)) && Emptied(d, m) && d.geo == Layout(size, nInodes)
  {
    hide Packed, Emptied, Arrived, OneBelow;
    var d0, m0 := Filled(size, nInodes, 12);
    var c := UnlinkCall(["a", "x"]);
    TwoNames("a", "x");
    assert [FileName(12)] !in m0;
    d, m := After(d0, c), NamesAfter(d0, m0, c);
    ArrivedNext(size, nInodes, d0, m0, Tally(0, 0), c);
    UnlinkedFirst(d0, m0, d, m, ["a", "x"]);
  }

  lemma UnlinkedFirst(d0: Disk, m0: Names, d: Disk, m: Names, names: Path)
    requires Clean(d0, m0) && PlainPath(names)
    requires d == After(d0, UnlinkCall(names)) && m == NamesAfter(d0, m0, UnlinkCall(names))
    requires Packed(d0, m0, 17) && FirstTwo(d0) && OneBelow(m0) && Unused(m0, 12)
    requires InodeAt(d0, 0).dentryCount == SLOTS && d0.geo.inodeCount >= 32 && d0.geo.dblockCount >= 64
    requires names == ["a", "x"] && Init(names) == ["a"] && Last(names) == "x"
    ensures Emptied(d, m)
  {
    hide Clean, Balanced, AllInPlace, Core, Packed, After, NamesAfter, Unused;
    TwoIsListed(m0, names);
    UnlinkedKeeps(d0, m0, d, m, UnlinkCall(names));
    UnlinkedAnd(d0, m0, d, m, names);
  }

  lemma TwoIsListed(m0: Names, names: Path)
    requires OneBelow(m0) && names == ["a", "x"]
    ensures names in m0 && m0[names] == 2
  {
  }

  lemma UnlinkedAnd(d0: Disk, m0: Names, d: Disk, m: Names, names: Path)
    requires Clean(d0, m0) && PlainPath(names)
    requires d == After(d0, UnlinkCall(names)) && m == NamesAfter(d0, m0, UnlinkCall(names))
    requires FirstTwo(d0) && OneBelow(m0) && Unused(m0, 12) && InodeAt(d0, 0).dentryCount == SLOTS
    requires names == ["a", "x"] && Init(names) == ["a"] && Last(names) == "x"
    ensures ["a"] in m && m[["a"]] == 1 && ["a", GHOST] !in m && [FileName(12)] !in m
    ensures InodeAt(d, 0).dentryCount == SLOTS && InodeAt(d, 1).dentryCount == 2
  {
    UnlinkedRecords(d0, m0, d);
    UnlinkedNames(m0, m);
  }

  lemma UnlinkedKeeps(d0: Disk, m0: Names, d: Disk, m: Names, c: Call)
    requires Packed(d0, m0, 17) && Clean(d0, m0) && c.UnlinkCall? && PlainPath(c.names)
    requires c.names in m0 && m0[c.names] == 2 && !IsDir(d0, 2)
    requires d == After(d0, c) && m == NamesAfter(d0, m0, c)
    ensures Clean(d, m) && Balanced(d, m.Values, Tally(0, 0)) && AllInPlace(d, m.Values) && d.geo == d0.geo
    ensures forall i: nat :: i in m.Values <==> i < 17 && i != 2
  {
    assert AllInPlace(d0, m0.Values);
    StepCore(d0, m0, c, d, m);
    Runs.StepBalanced(d0, m0, c, Tally(0, 0));
    SameGeometry(d0, c);
    UnlinkUnlists(d0, m0, c.names);
    KeptInPlace(d0, m0, d, m, c, 17);
  }

  lemma KeptInPlace(d0: Disk, m0: Names, d: Disk, m: Names, c: Call, k: nat)
    requires Core(d0, m0) && Balanced(d0, m0.Values, Tally(0, 0)) && AllInPlace(d0, m0.Values)
    requires c.UnlinkCall? && PlainPath(c.names) && Step(d0, c).ret == 0 && c.names in m0
    requires d == After(d0, c) && m == NamesAfter(d0, m0, c) && m0.Values == FirstN(k)
    ensures AllInPlace(d, m.Values)
    ensures forall i: nat :: i in m.Values <==> i < k && i != m0[c.names]
  {
    hide Core;
    StepKeepsPlaces(d0, m0, c, Tally(0, 0));
    Effects.ValuesAfterCall(d0, m0, c);
  }

  lemma UnlinkedNames(m0: Names, m: Names)
    requires OneBelow(m0) && Unused(m0, 12) && m == m0 - {["a", "x"]}
    ensures ["a"] in m && m[["a"]] == 1 && ["a", GHOST] !in m && [FileName(12)] !in m
  {
    assert |["a"]| == 1 && |["a", "x"]| == 2;
    assert [FileName(12)] !in m0;
  }

  lemma UnlinkedRecords(d0: Disk, m0: Names, d: Disk)
    requires Core(d0, m0) && FirstTwo(d0) && OneBelow(m0)
    requires PlainPath(["a", "x"]) && Init(["a", "x"]) == ["a"] && Last(["a", "x"]) == "x"
    requires d == Unlink(d0, ["a", "x"]).disk
    ensures InodeAt(d, 0) == InodeAt(d0, 0) && InodeAt(d, 1).dentryCount == 2
  {
    ListedNode(d0, m0, ["a", "x"]);
    UnlinkUnlists(d0, m0, ["a", "x"]);
    RmdirIsRemove(d0, m0, ["a", "x"]);
    LiveIsStored(d0, m0.Values, 1);
    RemovedRecords(d0, 1, Operations.SlotOf(d0, 1, "x"), 2, 2);
  }

  lemma RemovedRecords(d: Disk, p: nat, k: int, t: nat, freed: nat)
    requires p < |d.inodes|
    ensures InodeAt(Remove(d, p, k, t, freed), p) == AddDentries(InodeAt(d, p), -1)
    ensures forall i: nat :: i != p ==> InodeAt(Remove(d, p, k, t, freed), i) == InodeAt(d, i)
  {
    hide Shifted, FreeAll;
  }

  // ---- create in the full root ----

  /** The next inode is number 2, whose entry goes over the extent of /a. */
  lemma NextIsTwo(d: Disk, m: Names)
    requires Emptied(d, m)
    ensures Allocate(d) == Got(2, 4, 5)
  {
    Theorems.InodeBitsAreListed(d, m, Tally(0, 0), 0);
    Theorems.InodeBitsAreListed(d, m, Tally(0, 0), 1);
    Theorems.InodeBitsAreListed(d, m, Tally(0, 0), 2);
    assert !d.ibits[2] && d.ibits[0] && d.ibits[1];
    PlaceIsFree(d, m, 2);
    BitsComeInPairs(d, m.Values);
    assert d.dbits[4] == d.dbits[5];
    AllocationIsPossible(d, 2, 4, 5);
    var Got(n, e, b) := Allocate(d);
    Theorems.AllocationTakesLeast(d, n, e, b);
    AllocatesInPlace(d, m, Tally(0, 0), n, e, b);
  }

  lemma AllocationIsPossible(d: Disk, n: nat, x: nat, y: nat)
    requires Shape(d) && n < d.geo.inodeCount && !d.ibits[n]
    requires x < y < d.geo.dblockCount && !d.dbits[x] && !d.dbits[y]
    ensures Allocate(d).Got?
  {
    var e := Bitmap.FirstFree(d.dbits, d.geo.dblockCount);
    assert Bitmap.FirstFree(d.ibits, d.geo.inodeCount) >= 0;
    assert 0 <= e <= x && !d.dbits[e := true][y];
  }

  lemma PairOf(d: Disk, m: Names, i: nat)
    requires Emptied(d, m) && i < 24
    ensures d.dbits[2 * i] == d.dbits[2 * i + 1] == (i < 17 && i != 2)
  {
    if i in m.Values {
      PlaceIsTaken(d, m, i);
    } else {
      PlaceIsFree(d, m, i);
      BitsComeInPairs(d, m.Values);
      assert d.dbits[2 * i] == d.dbits[2 * i + 1];
    }
  }

  lemma BitsOfAll(d: Disk, m: Names, bits: seq<bool>, k: nat)
    requires Emptied(d, m) && bits == PutBit(PutBit(d.dbits, 4, true), 5, true) && k < 48
    ensures |bits| >= 48 && (bits[k] <==> k < 34)
  {
    hide AllInPlace, Store, Spells;
    PairOf(d, m, k / 2);
    assert k == 2 * (k / 2) || k == 2 * (k / 2) + 1;
  }

  lemma BitmapSlot(d: Disk, a: Creation)
    requires Decoded(d.geo) && a.n == 2 && a.e == 4 && a.b == 5
    requires d.geo.firstDb == 2 && d.geo.firstInode > 2 && d.geo.firstData > 2
    ensures SlotAfter(d, a, SLOTS * (2 - d.geo.firstData)) == BitSlot(PutBit(PutBit(d.dbits, 4, true), 5, true), 0)
  {
    hide BitSlot, TableSlot;
  }

  /**
   * In /a, which is empty, a search finds a name that nobody gave: with one inode bitmap block, the data bitmap is
   * block 2, where /a is read from after inode 2 was entered over its extent. The number is no inode's.
   */
  lemma PhantomScenario(size: nat, nInodes: nat) returns (d: Disk, m: Names)
    requires Enough(size, nInodes) && Layout(size, nInodes).firstDb == 2
    ensures Arrived(size, nInodes, d, m, Tally(0, 0)) && Clean(d, m) && InodeAt(d, 0).dentryCount == SLOTS
    ensures [FileName(12)] !in m && !Walk(d, 0, ["a", GHOST]).At?
    ensures var o := Create(d, [FileName(12)], 0x8000, 0);
            o.ret == 0 && Walk(o.disk, 0, ["a", GHOST]) == At(0xFFFF_FFFF)
  {
    d, m := EmptiedDirectory(size, nInodes);
    LayoutTiles(size, nInodes);
    LayoutIsDecoded(size, nInodes);
    CreatedOverFirst(d, m, FileName(12));
  }

  lemma CreatedOverFirst(d: Disk, m: Names, x: string)
    requires Emptied(d, m) && [x] !in m && Plain(x) && Fits(x)
    requires Decoded(d.geo) && d.geo.firstDb == 2 && d.geo.firstInode > 2 && d.geo.firstData > 2
    ensures !Walk(d, 0, ["a", GHOST]).At?
    ensures var o := Create(d, [x], 0x8000, 0); o.ret == 0 && Walk(o.disk, 0, ["a", GHOST]) == At(0xFFFF_FFFF)
  {
    hide Create, Walk, Unchecked, Core, AllInPlace, Balanced;
    var a := CreationOf(d, 0, [x], false, 2);
    GhostPath(x);
    NextIsTwo(d, m);
    OneNameIsCreated(d, m, x, 2, a);
    NoGhostYet(d, m, ["a", GHOST]);
    GhostFound(d, m, a);
  }

  lemma NoGhostYet(d: Disk, m: Names, names: Path)
    requires Clean(d, m) && PlainPath(names) && names !in m
    ensures !Walk(d, 0, names).At?
  {
    WalkFromRoot(d, m, names);
  }

  lemma GhostPath(x: string)
    ensures ["a"] + [GHOST] == ["a", GHOST] && PlainPath(["a", GHOST]) && [] + [x] == [x] && Last([x]) == x
  {
  }

  lemma GhostFound(d: Disk, m: Names, a: Creation)
    requires Emptied(d, m) && Unchecked(d, m, [], a) && a.p == 0 && a.n == 2 && a.e == 4 && a.b == 5 && [] + [a.x] !in m
    requires Decoded(d.geo) && d.geo.firstDb == 2 && d.geo.firstInode > 2 && d.geo.firstData > 2
    ensures Walk(Installed(d, a), 0, ["a"] + [GHOST]) == At(0xFFFF_FFFF)
  {
    hide SlotAfter, BitSlot, Installed, Walk;
    SearchedInBitmap(d, m, a);
    var bits := PutBit(PutBit(d.dbits, 4, true), 5, true);
    forall k: nat | k < 48
      ensures |bits| >= 48 && (bits[k] <==> k < 34)
    {
      BitsOfAll(d, m, bits, k);
    }
    BitsAsEntry(bits);
    BitmapSlot(d, a);
    FirstSlotFound(SlotsAfter(d, a, SLOTS * (2 - d.geo.firstData), 2));
  }

  lemma SearchedInBitmap(d: Disk, m: Names, a: Creation)
    requires Emptied(d, m) && Unchecked(d, m, [], a) && a.p == 0 && a.n == 2 && a.e == 4 && a.b == 5 && [] + [a.x] !in m
    ensures var c := Child(SlotsAfter(d, a, SLOTS * (2 - d.geo.firstData), 2), GHOST);
            Walk(Installed(d, a), 0, ["a"] + [GHOST]) == if c == -1 then NoEntry else At(c)
  {
    hide SlotsAfter, Installed, Walk, Core, QuietImage;
    assert InPlace(d, 0) && InPlace(d, 1);
    OverwrittenFinds(d, m, [], a, Installed(d, a), ["a"], GHOST);
  }

  lemma FirstSlotFound(es: seq<Cell>)
    requires |es| == 2 && es[0] == Dentry(0xFFFF_FFFF, GHOST)
    ensures Child(es, GHOST) == 0xFFFF_FFFF
  {
    FoundFirst(es, GHOST, 0);
  }
}
