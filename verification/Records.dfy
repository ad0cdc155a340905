/** Records, extents and bitmaps as the bytes that lie in the image. */
module Records {
  import opened Bitmap
  import Paths
  import opened Disk
  import opened Mkfs

  // ---- Numbers ----

  function Pow256(n: nat): (p: nat)
    ensures p > 0
  {
    if n == 0 then 1 else 0x100 * Pow256(n - 1)
  }

  lemma DigitAndRest(v: int, p: nat)
    requires p > 0
    ensures v % (0x100 * p) == v % 0x100 + 0x100 * (v / 0x100 % p)
  {
    var q, r := v / 0x100 / p, v / 0x100 % p;
    assert v == 0x100 * (q * p + r) + v % 0x100;
    RemainderIs(v, 0x100 * p, q, 0x100 * r + v % 0x100);
  }

  lemma RemainderIs(v: int, m: nat, q: int, r: int)
    requires m > 0 && 0 <= r < m && v == q * m + r
    ensures v % m == r
  {
    var k := v / m - q;
    assert k * m == r - v % m;
    Multiple(k, m);
  }

  lemma Multiple(k: int, m: nat)
    ensures (k >= 1 ==> k * m >= m) && (k <= -1 ==> k * m + m <= 0)
  {
  }

  /** Writing and reading n bytes keeps a number modulo 256 to the n. */
  lemma {:induction false} LeReadsBack(v: int, n: nat)
    ensures Number(Le(v, n)) == v % Pow256(n)
    decreases n
  {
    if n > 0 {
      LeReadsBack(v / 0x100, n - 1);
      DigitAndRest(v, Pow256(n - 1));
      assert Le(v, n)[1..] == Le(v / 0x100, n - 1);
    }
  }

  lemma ShortReadsBack(v: int)
    ensures Number(Le(v, 2)) == v % 0x1_0000
  {
    Widths();
    LeReadsBack(v, 2);
  }

  lemma WordReadsBack(v: int)
    ensures Number(Le(v, 4)) == v % 0x1_0000_0000
  {
    Widths();
    LeReadsBack(v, 4);
  }

  lemma LongReadsBack(v: int)
    ensures Number(Le(v, 8)) == v % 0x1_0000_0000_0000_0000
  {
    Widths();
    LeReadsBack(v, 8);
  }

  lemma TimeReadsBack(v: int)
    ensures Number(Le(v, 16)) == v % 0x1_0000_0000_0000_0000_0000_0000_0000_0000
  {
    Widths();
    LeReadsBack(v, 16);
  }

  lemma Widths()
    ensures Pow256(2) == 0x1_0000 && Pow256(4) == 0x1_0000_0000 && Pow256(8) == 0x1_0000_0000_0000_0000
    ensures Pow256(16) == 0x1_0000_0000_0000_0000_0000_0000_0000_0000
  {
    assert Pow256(4) == 0x1_0000_0000;
    assert Pow256(8) == 0x1_0000_0000_0000_0000;
    assert Pow256(12) == 0x1_0000_0000_0000_0000_0000_0000;
  }

  // ---- Inode records ----

  lemma PartsOfRecord(v: Inode)
    ensures var s := RecordBytes(v);
            s[..4] == Le(v.mode as int, 4) && s[4..8] == Padding(v.pads, 0, 4) && s[8..] == FieldBytes(v)
  {
    hide Le, Padding, FieldBytes;
  }

  lemma PartsOfFields(v: Inode)
    ensures var s := FieldBytes(v);
            && s[..8] == Le(v.links, 8) && s[8..16] == Le(v.size, 8) && s[16..32] == Le(v.mtime, 16)
            && s[32..34] == Le(v.extCount, 2) && s[34..40] == Padding(v.pads, 4, 10)
            && s[40..48] == Le(v.extBlock, 8) && s[48..50] == Le(v.dentryCount, 2) && s[50..] == Padding(v.pads, 10, 16)
  {
    hide Le, Padding;
  }

  lemma FieldsBehindMode(v: Inode)
    ensures var s := FieldBytes(v);
            && Number(s[..8]) == v.links % 0x1_0000_0000_0000_0000
            && Number(s[8..16]) == v.size % 0x1_0000_0000_0000_0000
            && Number(s[16..32]) == v.mtime % 0x1_0000_0000_0000_0000_0000_0000_0000_0000
            && Number(s[32..34]) == v.extCount % 0x1_0000 && Number(s[40..48]) == v.extBlock % 0x1_0000_0000_0000_0000
            && Number(s[48..50]) == v.dentryCount % 0x1_0000
  {
    hide FieldBytes, Le, Number, Padding;
    PartsOfFields(v);
    LongReadsBack(v.links);
    LongReadsBack(v.size);
    TimeReadsBack(v.mtime);
    ShortReadsBack(v.extCount);
    LongReadsBack(v.extBlock);
    ShortReadsBack(v.dentryCount);
  }

  /** Where each field of a record lies, and that it can be read back. */
  lemma FieldsReadBack(v: Inode)
    ensures var s := RecordBytes(v);
            && |s| == 64 && Number(s[..4]) == v.mode as int && Number(s[8..16]) == v.links % 0x1_0000_0000_0000_0000
            && Number(s[16..24]) == v.size % 0x1_0000_0000_0000_0000
            && Number(s[24..40]) == v.mtime % 0x1_0000_0000_0000_0000_0000_0000_0000_0000
            && Number(s[40..42]) == v.extCount % 0x1_0000 && Number(s[48..56]) == v.extBlock % 0x1_0000_0000_0000_0000
            && Number(s[56..58]) == v.dentryCount % 0x1_0000
            && (|v.pads| == 16 ==> s[4..8] + s[42..48] + s[58..] == v.pads)
  {
    hide RecordBytes, FieldBytes, Le, Number, Padding;
    var s := RecordBytes(v);
    PartsOfRecord(v);
    FieldsBehindMode(v);
    ModeReadsBack(v.mode);
    FieldSlices(s);
    if |v.pads| == 16 {
      PadsReadBack(v);
    }
  }

  lemma SmallReadsBack(n: nat)
    requires n < 0x1_0000_0000
    ensures Number(Le(n, 4)) == n
  {
    WordReadsBack(n);
  }

  lemma ModeIsSmall(mode: bv32)
    ensures mode as int < 0x1_0000_0000
  {
  }

  lemma ModeReadsBack(mode: bv32)
    ensures Number(Le(mode as int, 4)) == mode as int
  {
    hide Le, Number;
    ModeIsSmall(mode);
    SmallReadsBack(mode as int);
  }

  lemma PadsReadBack(v: Inode)
    requires |v.pads| == 16
    ensures var s := RecordBytes(v); s[4..8] + s[42..48] + s[58..] == v.pads
  {
    hide RecordBytes, FieldBytes, Le, Number, Padding;
    PartsOfRecord(v);
    PartsOfFields(v);
    FieldSlices(RecordBytes(v));
    PaddingIsWhole(v.pads);
  }

  lemma FieldSlices(s: string)
    requires |s| == 64
    ensures var t := s[8..];
            && t[..8] == s[8..16] && t[8..16] == s[16..24] && t[16..32] == s[24..40] && t[32..34] == s[40..42]
            && t[34..40] == s[42..48] && t[40..48] == s[48..56] && t[48..50] == s[56..58] && t[50..] == s[58..]
  {
  }

  lemma PaddingIsWhole(pads: string)
    requires |pads| == 16
    ensures Padding(pads, 0, 4) + Padding(pads, 4, 10) + Padding(pads, 10, 16) == pads
  {
  }

  /** The inode table, record after record. */
  function TableBytes(inodes: seq<Inode>): (s: string)
    ensures |s| == 64 * |inodes|
  {
    if inodes == [] then "" else RecordBytes(inodes[0]) + TableBytes(inodes[1..])
  }

  lemma {:induction false} RecordInTable(inodes: seq<Inode>, i: nat)
    requires i < |inodes|
    ensures TableBytes(inodes)[64 * i..64 * i + 64] == RecordBytes(inodes[i])
  {
    hide RecordBytes, FieldBytes;
    if i > 0 {
      RecordInTable(inodes[1..], i - 1);
      ShiftedSlice(RecordBytes(inodes[0]), TableBytes(inodes[1..]), 64 * (i - 1), 64 * i);
    }
  }

  lemma ShiftedSlice(s: string, t: string, lo: nat, hi: nat)
    requires lo <= hi <= |t|
    ensures (s + t)[|s| + lo..|s| + hi] == t[lo..hi]
  {
  }

  /** The table that Layout provides is the least number of blocks into which the records fit. */
  lemma TableFits(size: nat, inodes: seq<Inode>, blocks: nat)
    requires DataBlocks(size, |inodes|) >= 0
    ensures |TableBytes(inodes)| <= 4096 * blocks <==> Layout(size, |inodes|).iblockCount <= blocks
  {
    LayoutIsTight(size, |inodes|, blocks);
  }

  /** The units in which mkfs counts, by the sizes of what is stored. */
  lemma Units(v: Inode, list: seq<Extent>)
    ensures |RecordBytes(v)| == INODE && 256 * SLOTS == 4096 == BLOCK && 4 * WORDS == 4096 && BITS == 8 * 4096
    ensures 4 + NAME_MAX == 256 && (|ExtentBytes(list)| == 256 <==> |list| == EXTENTS)
  {
    ExtentsLength(list);
  }

  // ---- Extents ----

  lemma {:induction false} ExtentsLength(list: seq<Extent>)
    ensures |ExtentBytes(list)| == 8 * |list|
  {
    if list != [] {
      ExtentsLength(list[1..]);
    }
  }

  lemma BytesAreLe(w: nat)
    ensures Bytes(w) == Le(w, 4)
  {
    assert Le(w, 4) == [(w % 0x100) as char] + Le(w / 0x100, 3);
    assert Le(w / 0x100, 3) == [(w / 0x100 % 0x100) as char] + Le(w / 0x100 / 0x100, 2);
    assert Le(w / 0x1_0000, 2) == [(w / 0x1_0000 % 0x100) as char] + Le(w / 0x1_0000 / 0x100, 1);
    assert Le(w / 0x100_0000, 1) == [(w / 0x100_0000 % 0x100) as char] + Le(w / 0x100_0000 / 0x100, 0);
  }

  lemma BytesReadBack(w: nat)
    ensures Number(Bytes(w)) == w % 0x1_0000_0000
  {
    BytesAreLe(w);
    WordReadsBack(w);
  }

  lemma HeadOfExtents(list: seq<Extent>)
    requires list != []
    ensures var s := ExtentBytes(list);
            && |s| == 8 * |list| && s[..4] == Bytes(list[0].start) && s[4..8] == Bytes(list[0].count)
            && s[8..] == ExtentBytes(list[1..])
  {
    ExtentsLength(list);
  }

  /** Extent number i of a block lies in its bytes 8i to 8i + 7: start, then count. */
  lemma {:induction false} ExtentsReadBack(list: seq<Extent>, i: nat)
    requires i < |list|
    ensures |ExtentBytes(list)| == 8 * |list|
    ensures Number(ExtentBytes(list)[8 * i..8 * i + 4]) == list[i].start % 0x1_0000_0000
    ensures Number(ExtentBytes(list)[8 * i + 4..8 * i + 8]) == list[i].count % 0x1_0000_0000
  {
    hide ExtentBytes, Bytes, Number;
    HeadOfExtents(list);
    if i == 0 {
      BytesReadBack(list[0].start);
      BytesReadBack(list[0].count);
    } else {
      ExtentsReadBack(list[1..], i - 1);
      BehindFirst(ExtentBytes(list), 8, 8 * i - 8, 8 * i - 4);
      BehindFirst(ExtentBytes(list), 8, 8 * i - 4, 8 * i);
    }
  }

  lemma BehindFirst(s: string, n: nat, lo: nat, hi: nat)
    requires n <= |s| && lo <= hi <= |s| - n
    ensures s[n..][lo..hi] == s[n + lo..n + hi]
  {
  }

  /** Storing an extent writes the first eight bytes of a block of extents and no other. */
  lemma ExtentStored(c: Cell, x: Extent)
    requires c.Extents? && |c.list| == 32
    ensures var c' := WithExtent(c, x);
            && c'.Extents? && ExtentBytes(c'.list)[8..] == ExtentBytes(c.list)[8..]
            && Number(ExtentBytes(c'.list)[..4]) == x.start % 0x1_0000_0000
            && Number(ExtentBytes(c'.list)[4..8]) == x.count % 0x1_0000_0000
  {
    var list' := WithExtent(c, x).list;
    HeadOfExtents(c.list);
    HeadOfExtents(list');
    BytesReadBack(x.start);
    BytesReadBack(x.count);
    assert list'[1..] == c.list[1..];
  }

  /** What a search makes of extents is what their bytes say when they are read as an entry. */
  lemma ExtentsAsEntry(c: Cell)
    requires c.Extents? && c.list != [] && c.list[0].start < 0x1_0000_0000
    ensures |ExtentBytes(c.list)| >= 4 && SlotOfBytes(ExtentBytes(c.list)) == Dentry(InoOf(c), NameOf(c))
  {
    ExtentsReadBack(c.list, 0);
    assert ExtentBytes(c.list)[4..] == Bytes(c.list[0].count) + ExtentBytes(c.list[1..]);
  }

  // ---- Bitmaps ----

  lemma WordBits0(w: bv32, n: nat)
    requires n < 0x1_0000_0000 && w == n as bv32
    ensures (TestBit(w, 0) <==> n / 0x1 % 2 == 1) && (TestBit(w, 1) <==> n / 0x2 % 2 == 1)
    ensures (TestBit(w, 2) <==> n / 0x4 % 2 == 1) && (TestBit(w, 3) <==> n / 0x8 % 2 == 1)
    ensures (TestBit(w, 4) <==> n / 0x10 % 2 == 1) && (TestBit(w, 5) <==> n / 0x20 % 2 == 1)
    ensures (TestBit(w, 6) <==> n / 0x40 % 2 == 1) && (TestBit(w, 7) <==> n / 0x80 % 2 == 1)
  {
  }

  lemma WordBits1(w: bv32, n: nat)
    requires n < 0x1_0000_0000 && w == n as bv32
    ensures (TestBit(w, 8) <==> n / 0x100 % 2 == 1) && (TestBit(w, 9) <==> n / 0x200 % 2 == 1)
    ensures (TestBit(w, 10) <==> n / 0x400 % 2 == 1) && (TestBit(w, 11) <==> n / 0x800 % 2 == 1)
    ensures (TestBit(w, 12) <==> n / 0x1000 % 2 == 1) && (TestBit(w, 13) <==> n / 0x2000 % 2 == 1)
    ensures (TestBit(w, 14) <==> n / 0x4000 % 2 == 1) && (TestBit(w, 15) <==> n / 0x8000 % 2 == 1)
  {
  }

  lemma WordBits2(w: bv32, n: nat)
    requires n < 0x1_0000_0000 && w == n as bv32
    ensures (TestBit(w, 16) <==> n / 0x1_0000 % 2 == 1) && (TestBit(w, 17) <==> n / 0x2_0000 % 2 == 1)
    ensures (TestBit(w, 18) <==> n / 0x4_0000 % 2 == 1) && (TestBit(w, 19) <==> n / 0x8_0000 % 2 == 1)
    ensures (TestBit(w, 20) <==> n / 0x10_0000 % 2 == 1) && (TestBit(w, 21) <==> n / 0x20_0000 % 2 == 1)
    ensures (TestBit(w, 22) <==> n / 0x40_0000 % 2 == 1) && (TestBit(w, 23) <==> n / 0x80_0000 % 2 == 1)
  {
  }

  lemma WordBits3(w: bv32, n: nat)
    requires n < 0x1_0000_0000 && w == n as bv32
    ensures (TestBit(w, 24) <==> n / 0x100_0000 % 2 == 1) && (TestBit(w, 25) <==> n / 0x200_0000 % 2 == 1)
    ensures (TestBit(w, 26) <==> n / 0x400_0000 % 2 == 1) && (TestBit(w, 27) <==> n / 0x800_0000 % 2 == 1)
    ensures (TestBit(w, 28) <==> n / 0x1000_0000 % 2 == 1) && (TestBit(w, 29) <==> n / 0x2000_0000 % 2 == 1)
    ensures (TestBit(w, 30) <==> n / 0x4000_0000 % 2 == 1) && (TestBit(w, 31) <==> n / 0x8000_0000 % 2 == 1)
  {
  }

  /** Bits k to k + 7 are those of the lowest byte of m. */
  predicate BitsSpell(bits: seq<bool>, k: nat, m: nat) {
    && k + 8 <= |bits|
    && (bits[k] <==> m % 2 == 1) && (bits[k + 1] <==> m / 2 % 2 == 1)
    && (bits[k + 2] <==> m / 4 % 2 == 1) && (bits[k + 3] <==> m / 8 % 2 == 1)
    && (bits[k + 4] <==> m / 16 % 2 == 1) && (bits[k + 5] <==> m / 32 % 2 == 1)
    && (bits[k + 6] <==> m / 64 % 2 == 1) && (bits[k + 7] <==> m / 128 % 2 == 1)
  }

  lemma DivisionIs(v: nat, m: nat, q: nat, r: nat)
    requires m > 0 && r < m && v == q * m + r
    ensures v / m == q && v % m == r
  {
    RemainderIs(v, m, q, r);
    assert (v / m - q) * m == 0;
  }

  lemma ByteIsSum(m: nat)
    ensures m % 0x100 == m % 2 + 2 * (m / 2 % 2) + 4 * (m / 4 % 2) + 8 * (m / 8 % 2)
                         + 16 * (m / 16 % 2) + 32 * (m / 32 % 2) + 64 * (m / 64 % 2) + 128 * (m / 128 % 2)
  {
    var a, a0 := m / 2, m % 2;
    var b, b0 := a / 2, a % 2;
    var c, c0 := b / 2, b % 2;
    var d, d0 := c / 2, c % 2;
    var e, e0 := d / 2, d % 2;
    var f, f0 := e / 2, e % 2;
    var g, g0 := f / 2, f % 2;
    var h, h0 := g / 2, g % 2;
    DivisionIs(m, 4, b, a0 + 2 * b0);
    DivisionIs(m, 8, c, a0 + 2 * b0 + 4 * c0);
    DivisionIs(m, 16, d, a0 + 2 * b0 + 4 * c0 + 8 * d0);
    DivisionIs(m, 32, e, a0 + 2 * b0 + 4 * c0 + 8 * d0 + 16 * e0);
    DivisionIs(m, 64, f, a0 + 2 * b0 + 4 * c0 + 8 * d0 + 16 * e0 + 32 * f0);
    DivisionIs(m, 128, g, a0 + 2 * b0 + 4 * c0 + 8 * d0 + 16 * e0 + 32 * f0 + 64 * g0);
    DivisionIs(m, 0x100, h, a0 + 2 * b0 + 4 * c0 + 8 * d0 + 16 * e0 + 32 * f0 + 64 * g0 + 128 * h0);
  }

  lemma BitIs(bits: seq<bool>, k: nat, m: nat)
    requires k < |bits| && (bits[k] <==> m % 2 == 1)
    ensures BitValue(bits, k) == m % 2
  {
  }

  lemma SpelledByte(bits: seq<bool>, k: nat, m: nat)
    requires BitsSpell(bits, k, m)
    ensures ByteOfBits(bits, k) == (m % 0x100) as char
  {
    hide BitValue;
    BitIs(bits, k, m);
    BitIs(bits, k + 1, m / 2);
    BitIs(bits, k + 2, m / 4);
    BitIs(bits, k + 3, m / 8);
    BitIs(bits, k + 4, m / 16);
    BitIs(bits, k + 5, m / 32);
    BitIs(bits, k + 6, m / 64);
    BitIs(bits, k + 7, m / 128);
    ByteIsSum(m);
  }

  lemma Quotients1(n: nat)
    ensures n / 0x100 / 2 == n / 0x200 && n / 0x100 / 4 == n / 0x400 && n / 0x100 / 8 == n / 0x800
    ensures n / 0x100 / 16 == n / 0x1000 && n / 0x100 / 32 == n / 0x2000
    ensures n / 0x100 / 64 == n / 0x4000 && n / 0x100 / 128 == n / 0x8000
  {
  }

  lemma Quotients2(n: nat)
    ensures n / 0x1_0000 / 2 == n / 0x2_0000 && n / 0x1_0000 / 4 == n / 0x4_0000 && n / 0x1_0000 / 8 == n / 0x8_0000
    ensures n / 0x1_0000 / 16 == n / 0x10_0000 && n / 0x1_0000 / 32 == n / 0x20_0000
    ensures n / 0x1_0000 / 64 == n / 0x40_0000 && n / 0x1_0000 / 128 == n / 0x80_0000
  {
  }

  lemma Quotients3(n: nat)
    ensures n / 0x100_0000 / 2 == n / 0x200_0000 && n / 0x100_0000 / 4 == n / 0x400_0000
    ensures n / 0x100_0000 / 8 == n / 0x800_0000
    ensures n / 0x100_0000 / 16 == n / 0x1000_0000 && n / 0x100_0000 / 32 == n / 0x2000_0000
    ensures n / 0x100_0000 / 64 == n / 0x4000_0000 && n / 0x100_0000 / 128 == n / 0x8000_0000
  {
  }

  lemma NumberOfWord(w: bv32, n: nat)
    requires n == w as int
    ensures n < 0x1_0000_0000 && w == n as bv32
  {
  }

  lemma BitsOfWord(ws: seq<bv32>, i: nat, j: nat)
    requires i < |ws| && j < 32
    ensures Bits(ws)[32 * i + j] == TestBit(ws[i], j)
  {
    BitAt(ws, 32 * i + j);
  }

  /** A number without its b lowest bytes. */
  function Above(n: nat, b: nat): nat
    requires b < 4
  {
    if b == 0 then n else if b == 1 then n / 0x100 else if b == 2 then n / 0x1_0000 else n / 0x100_0000
  }

  predicate ByteBits(w: bv32, b: nat, m: nat)
    requires b < 4
  {
    && (TestBit(w, 8 * b) <==> m % 2 == 1) && (TestBit(w, 8 * b + 1) <==> m / 2 % 2 == 1)
    && (TestBit(w, 8 * b + 2) <==> m / 4 % 2 == 1) && (TestBit(w, 8 * b + 3) <==> m / 8 % 2 == 1)
    && (TestBit(w, 8 * b + 4) <==> m / 16 % 2 == 1) && (TestBit(w, 8 * b + 5) <==> m / 32 % 2 == 1)
    && (TestBit(w, 8 * b + 6) <==> m / 64 % 2 == 1) && (TestBit(w, 8 * b + 7) <==> m / 128 % 2 == 1)
  }

  lemma WordHasBytes(w: bv32, n: nat, b: nat)
    requires n < 0x1_0000_0000 && w == n as bv32 && b < 4
    ensures ByteBits(w, b, Above(n, b))
  {
    hide TestBit;
    if b == 0 {
      WordBits0(w, n);
    } else if b == 1 {
      WordBits1(w, n);
      Quotients1(n);
    } else if b == 2 {
      WordBits2(w, n);
      Quotients2(n);
    } else {
      WordBits3(w, n);
      Quotients3(n);
    }
  }

  lemma ByteSpelled(ws: seq<bv32>, i: nat, b: nat, m: nat)
    requires i < |ws| && b < 4 && ByteBits(ws[i], b, m)
    ensures BitsSpell(Bits(ws), 32 * i + 8 * b, m)
  {
    hide Bits, TestBit;
    BitsOfWord(ws, i, 8 * b);
    BitsOfWord(ws, i, 8 * b + 1);
    BitsOfWord(ws, i, 8 * b + 2);
    BitsOfWord(ws, i, 8 * b + 3);
    BitsOfWord(ws, i, 8 * b + 4);
    BitsOfWord(ws, i, 8 * b + 5);
    BitsOfWord(ws, i, 8 * b + 6);
    BitsOfWord(ws, i, 8 * b + 7);
  }

  /** Byte b of word i of a bitmap. */
  lemma ByteOfWord(ws: seq<bv32>, i: nat, b: nat)
    requires i < |ws| && b < 4
    ensures ByteOfBits(Bits(ws), 32 * i + 8 * b) == Bytes(ws[i] as int)[b]
  {
    hide Bits, ByteBits, BitsSpell, ByteOfBits;
    var n := ws[i] as int;
    NumberOfWord(ws[i], n);
    WordHasBytes(ws[i], n, b);
    ByteSpelled(ws, i, b, Above(n, b));
    SpelledByte(Bits(ws), 32 * i + 8 * b, Above(n, b));
  }

  /** The words of the metadata blocks as they lie in the image, the lowest byte first. */
  function WordBytes(ws: seq<bv32>): (s: string)
    ensures |s| == 4 * |ws|
  {
    if ws == [] then "" else Bytes(ws[0] as int) + WordBytes(ws[1..])
  }

  lemma {:induction false} ByteInWords(ws: seq<bv32>, j: nat)
    requires j < 4 * |ws|
    ensures WordBytes(ws)[j] == Bytes(ws[j / 4] as int)[j % 4]
  {
    hide Bytes;
    if j >= 4 {
      ByteInWords(ws[1..], j - 4);
    }
  }

  /** Bits read as bytes are the bytes of their words. */
  lemma BitsAreBytes(ws: seq<bv32>, i: nat, n: nat)
    requires i + n <= |ws|
    ensures BytesOfBits(Bits(ws), 32 * i, 4 * n) == WordBytes(ws)[4 * i..4 * (i + n)]
  {
    hide Bytes, Bits, ByteOfBits, WordBytes;
    forall j | 0 <= j < 4 * n
      ensures ByteOfBits(Bits(ws), 32 * i + 8 * j) == WordBytes(ws)[4 * i + j]
    {
      ByteInWords(ws, 4 * i + j);
      ByteOfWord(ws, i + j / 4, j % 4);
      assert (4 * i + j) / 4 == i + j / 4 && (4 * i + j) % 4 == j % 4;
      assert 32 * (i + j / 4) + 8 * (j % 4) == 32 * i + 8 * j;
    }
  }

  // ---- Metadata ----

  lemma FourRecords(inodes: seq<Inode>, j: nat)
    requires 4 * j + 4 <= |inodes|
    ensures TableSlot(inodes, j) == SlotOfBytes(TableBytes(inodes)[256 * j..256 * j + 256])
  {
    hide RecordBytes, TableBytes, SlotOfBytes;
    RecordInTable(inodes, 4 * j);
    RecordInTable(inodes, 4 * j + 1);
    RecordInTable(inodes, 4 * j + 2);
    RecordInTable(inodes, 4 * j + 3);
    FourParts(TableBytes(inodes), 256 * j);
  }

  lemma FourParts(s: string, at: nat)
    requires at + 256 <= |s|
    ensures s[at..at + 256] == s[at..at + 64] + (s[at + 64..at + 128] + s[at + 128..at + 192] + s[at + 192..at + 256])
  {
  }

  /** The blocks in front of the data region: the words up to the inode table, superblock included, then the records. */
  function MetaBytes(ws: seq<bv32>, inodes: seq<Inode>): (s: string)
    ensures |s| == 4 * |ws| + 64 * |inodes|
  {
    WordBytes(ws) + TableBytes(inodes)
  }

  function IbBits(g: Geometry, ws: seq<bv32>): seq<bool>
    requires 0 <= g.firstIb <= g.firstDb && 1024 * g.firstDb <= |ws|
  {
    Bits(ws[1024 * g.firstIb..1024 * g.firstDb])
  }

  function DbBits(g: Geometry, ws: seq<bv32>): seq<bool>
    requires 0 <= g.firstDb <= g.firstInode && 1024 * g.firstInode <= |ws|
  {
    Bits(ws[1024 * g.firstDb..1024 * g.firstInode])
  }

  /**
   * A slot in front of the data region is the 256 bytes at its address in the image, whichever of the two bitmaps or
   * the inode table it lies in.
   */
  lemma MetaSlotIsBytes(g: Geometry, ws: seq<bv32>, inodes: seq<Inode>, c: int)
    requires Tiles(g) && Decoded(g) && |ws| == 1024 * g.firstInode && |inodes| == 64 * g.iblockCount
    requires 16 * g.firstIb <= 16 * g.firstData + c < 16 * g.firstData
    ensures var at := 4096 * g.firstData + 256 * c;
            && |MetaBytes(ws, inodes)| == 4096 * g.firstData && 0 <= at && at + 256 <= 4096 * g.firstData
            && MetaSlot(g, IbBits(g, ws), DbBits(g, ws), inodes, c) ==
               SlotOfBytes(MetaBytes(ws, inodes)[at..at + 256])
  {
    hide TableBytes, WordBytes, SlotOfBytes, BytesOfBits, Bits, TableSlot, RecordBytes;
    var slot := 16 * g.firstData + c;
    if slot >= 16 * g.firstInode {
      var j := slot - 16 * g.firstInode;
      FourRecords(inodes, j);
      SecondPart(WordBytes(ws), TableBytes(inodes), 256 * j);
    } else if slot >= 16 * g.firstDb {
      BitSlotIsBytes(ws, 1024 * g.firstDb, 1024 * g.firstInode, slot - 16 * g.firstDb, TableBytes(inodes));
    } else {
      BitSlotIsBytes(ws, 1024 * g.firstIb, 1024 * g.firstDb, slot - 16 * g.firstIb, TableBytes(inodes));
    }
  }

  lemma SecondPart(s: string, t: string, at: nat)
    requires at + 256 <= |t|
    ensures (s + t)[|s| + at..|s| + at + 256] == t[at..at + 256]
  {
  }

  lemma BitSlotIsBytes(ws: seq<bv32>, lo: nat, hi: nat, j: nat, table: string)
    requires lo <= hi <= |ws| && lo + 64 * j + 64 <= hi
    ensures BitSlot(Bits(ws[lo..hi]), j) ==
            SlotOfBytes((WordBytes(ws) + table)[4 * lo + 256 * j..4 * lo + 256 * j + 256])
  {
    hide WordBytes, SlotOfBytes, BytesOfBits, Bits;
    var part, s := ws[lo..hi], WordBytes(ws) + table;
    SlotOfBits(part, j);
    BitSlotBytes(ws, lo, hi, j, table);
    assert BytesOfBits(Bits(part), 2048 * j, 256) == s[4 * lo + 256 * j..4 * lo + 256 * j + 256];
    assert BitSlot(Bits(part), j) == SlotOfBytes(BytesOfBits(Bits(part), 2048 * j, 256));
  }

  lemma BitSlotBytes(ws: seq<bv32>, lo: nat, hi: nat, j: nat, table: string)
    requires lo <= hi <= |ws| && lo + 64 * j + 64 <= hi
    ensures WordBytes(ws[lo..hi])[256 * j..256 * j + 256] ==
            (WordBytes(ws) + table)[4 * lo + 256 * j..4 * lo + 256 * j + 256]
  {
    hide WordBytes;
    WordsInside(ws, lo, hi);
    PartOfFirst(WordBytes(ws), table, WordBytes(ws[lo..hi]), 4 * lo, 4 * hi, 256 * j);
  }

  lemma PartOfFirst(s: string, t: string, part: string, lo: nat, hi: nat, at: nat)
    requires lo <= hi <= |s| && part == s[lo..hi] && at + 256 <= hi - lo
    ensures part[at..at + 256] == (s + t)[lo + at..lo + at + 256]
  {
    SliceOfSlice(s, lo, hi, at, at + 256);
    FirstPart(s, t, lo + at);
  }

  lemma SlotOfBits(ws: seq<bv32>, j: nat)
    requires 64 * j + 64 <= |ws|
    ensures BytesOfBits(Bits(ws), 2048 * j, 256) == WordBytes(ws)[256 * j..256 * j + 256]
  {
    hide WordBytes, BytesOfBits, Bits;
    BitsAreBytes(ws, 64 * j, 64);
  }

  lemma {:induction false} WordsConcat(a: seq<bv32>, b: seq<bv32>)
    ensures WordBytes(a + b) == WordBytes(a) + WordBytes(b)
  {
    hide Bytes;
    if a == [] {
      assert a + b == b;
    } else {
      WordsConcat(a[1..], b);
      assert (a + b)[1..] == a[1..] + b && (a + b)[0] == a[0];
    }
  }

  lemma WordsInside(ws: seq<bv32>, lo: nat, hi: nat)
    requires lo <= hi <= |ws|
    ensures WordBytes(ws[lo..hi]) == WordBytes(ws)[4 * lo..4 * hi]
  {
    hide WordBytes;
    WordsConcat(ws[..lo], ws[lo..]);
    WordsConcat(ws[lo..hi], ws[hi..]);
    WordsCut(ws, lo, hi);
    MiddlePart(WordBytes(ws[..lo]), WordBytes(ws[lo..hi]), WordBytes(ws[hi..]));
  }

  lemma WordsCut(ws: seq<bv32>, lo: nat, hi: nat)
    requires lo <= hi <= |ws|
    ensures ws[..lo] + ws[lo..] == ws && ws[lo..hi] + ws[hi..] == ws[lo..]
  {
  }

  lemma MiddlePart(a: string, b: string, c: string)
    ensures (a + (b + c))[|a|..|a| + |b|] == b
  {
  }

  lemma SliceOfSlice(s: string, lo: nat, hi: nat, a: nat, b: nat)
    requires lo <= hi <= |s| && a <= b <= hi - lo
    ensures s[lo..hi][a..b] == s[lo + a..lo + b]
  {
    forall k | 0 <= k < b - a
      ensures s[lo..hi][a..b][k] == s[lo + a..lo + b][k]
    {
      assert s[lo..hi][a + k] == s[lo + (a + k)];
    }
  }

  lemma FirstPart(s: string, t: string, at: nat)
    requires at + 256 <= |s|
    ensures (s + t)[at..at + 256] == s[at..at + 256]
  {
  }

  // ---- Cleared words ----

  lemma {:induction false} ZeroBytes(n: nat, t: nat)
    requires t < n
    ensures Le(0, n)[t] == '\0'
    decreases n
  {
    if t > 0 {
      ZeroBytes(n - 1, t - 1);
    }
  }

  lemma CutDigit(v: int, p: nat)
    requires p > 0
    ensures var u := v - v % (0x100 * p); u % 0x100 == 0 && u / 0x100 == v / 0x100 - v / 0x100 % p
  {
    DigitAndRest(v, p);
    RemainderIs(v - v % (0x100 * p), 0x100, v / 0x100 - v / 0x100 % p, 0);
  }

  /** Without its lowest j bytes a number has zeros there and the same bytes behind. */
  lemma {:induction false} CutBytes(v: int, j: nat, n: nat, t: nat)
    requires t < n
    ensures Le(v - v % Pow256(j), n)[t] == if t < j then '\0' else Le(v, n)[t]
    decreases n
  {
    if j > 0 {
      CutDigit(v, Pow256(j - 1));
      if t > 0 {
        CutBytes(v / 0x100, j - 1, n - 1, t - 1);
      }
    }
  }

  lemma CutIsRemainder(v: int, k: nat)
    requires k < 4
    ensures Cut(v, k) == v - v % Pow256(4 * k)
  {
    Widths();
    assert Pow256(12) == 0x1_0000_0000_0000_0000_0000_0000;
  }

  lemma FieldCut(v: int, k: int, n: nat, t: nat)
    requires n <= 4 && t < 4 * n
    ensures Le(CutField(v, k, n), 4 * n)[t] == if t < 4 * k then '\0' else Le(v, 4 * n)[t]
  {
    hide Le;
    if k >= n {
      ZeroBytes(4 * n, t);
    } else if k > 0 {
      CutIsRemainder(v, k);
      CutBytes(v, 4 * k, 4 * n, t);
    }
  }

  /** The byte at offset t of a record. */
  lemma ByteInRecord(v: Inode, t: nat)
    requires t < 64
    ensures RecordBytes(v)[t] ==
            if t < 4 then Le(v.mode as int, 4)[t] else if t < 8 then Padding(v.pads, 0, 4)[t - 4]
            else if t < 16 then Le(v.links, 8)[t - 8] else if t < 24 then Le(v.size, 8)[t - 16]
            else if t < 40 then Le(v.mtime, 16)[t - 24] else if t < 42 then Le(v.extCount, 2)[t - 40]
            else if t < 48 then Padding(v.pads, 4, 10)[t - 42] else if t < 56 then Le(v.extBlock, 8)[t - 48]
            else if t < 58 then Le(v.dentryCount, 2)[t - 56] else Padding(v.pads, 10, 16)[t - 58]
  {
    hide Le, Padding;
  }

  /** Trimming a record is clearing its first k words. */
  lemma TrimmedBytes(v: Inode, k: nat, t: nat)
    requires k <= 16 && t < 64
    ensures RecordBytes(Trimmed(v, k))[t] == if t < 4 * k then '\0' else RecordBytes(v)[t]
  {
    hide Le, RecordBytes, CutField;
    ByteInRecord(v, t);
    ByteInRecord(Trimmed(v, k), t);
    if t < 4 {
      ZeroBytes(4, t);
    } else if 8 <= t < 16 {
      FieldCut(v.links, k - 2, 2, t - 8);
    } else if 16 <= t < 24 {
      FieldCut(v.size, k - 4, 2, t - 16);
    } else if 24 <= t < 40 {
      FieldCut(v.mtime, k - 6, 4, t - 24);
    } else if 40 <= t < 42 {
      ZeroBytes(2, t - 40);
    } else if 48 <= t < 56 {
      FieldCut(v.extBlock, k - 12, 2, t - 48);
    } else if 56 <= t < 58 {
      ZeroBytes(2, t - 56);
    }
  }

  /**
   * The loop that clears one word for each inode from the start of the inode bitmap: which bytes of the inode table
   * are zero afterwards, all others being as before.
   */
  lemma ClearedTableBytes(g: Geometry, inodes: seq<Inode>, r: nat, t: nat)
    requires Tiles(g) && r < |inodes| && t < 64
    ensures RecordBytes(ClearedRecords(g, inodes)[r])[t] ==
            if 4096 * g.firstInode + 64 * r + t < 4096 * g.firstIb + 4 * g.inodeCount then '\0'
            else RecordBytes(inodes[r])[t]
  {
    hide RecordBytes, Trimmed;
    TrimmedBytes(inodes[r], WordsCleared(g, r), t);
  }
}
