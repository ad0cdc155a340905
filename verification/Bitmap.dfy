/** The two allocation bitmaps: words of 32 bits, bit i of the map being bit i % 32 of word i / 32. */
module Bitmap {

  /** The test `w & 1 << j` on one word. */
  predicate TestBit(w: bv32, j: nat)
    requires j < 32
  {
    w & (1 << j) != 0
  }

  /** The bitmap that a run of words denotes. */
  function Bits(ws: seq<bv32>): (bs: seq<bool>)
    ensures |bs| == 32 * |ws|
  {
    if ws == [] then [] else Bits(ws[..|ws| - 1]) + seq(32, j requires 0 <= j < 32 => TestBit(ws[|ws| - 1], j))
  }

  /** Bit i of the map is bit i % 32 of word i / 32. */
  lemma {:induction false} BitAt(ws: seq<bv32>, i: nat)
    requires i < 32 * |ws|
    ensures Bits(ws)[i] == TestBit(ws[i / 32], i % 32)
  {
    if i < 32 * (|ws| - 1) {
      BitAt(ws[..|ws| - 1], i);
    }
  }

  lemma MasksDisjoint(j: nat, k: nat)
    requires j < 32 && k < 32 && j != k
    ensures (1 as bv32 << j) & (1 as bv32 << k) == 0
  {
  }

  lemma DisjointMasksDoNotInterfere(w: bv32, m: bv32, n: bv32)
    requires m & n == 0
    ensures (w | m) & n == w & n && (w & !m) & n == w & n
  {
  }

  lemma OrKeepsWord(w: bv32, j: nat, k: nat)
    requires j < 32 && k < 32 && j != k
    ensures (w | (1 << j)) & (1 << k) == w & (1 << k)
  {
    MasksDisjoint(j, k);
    DisjointMasksDoNotInterfere(w, 1 << j, 1 << k);
  }

  lemma AndNotKeepsWord(w: bv32, j: nat, k: nat)
    requires j < 32 && k < 32 && j != k
    ensures (w & !(1 << j)) & (1 << k) == w & (1 << k)
  {
    MasksDisjoint(j, k);
    DisjointMasksDoNotInterfere(w, 1 << j, 1 << k);
  }

  lemma OrSetsItsBit(w: bv32, j: nat)
    requires j < 32
    ensures TestBit(w | (1 << j), j)
  {
  }

  lemma OrKeepsOtherBits(w: bv32, j: nat, k: nat)
    requires j < 32 && k < 32 && j != k
    ensures TestBit(w | (1 << j), k) == TestBit(w, k)
  {
    OrKeepsWord(w, j, k);
  }

  lemma AndNotClearsItsBit(w: bv32, j: nat)
    requires j < 32
    ensures !TestBit(w & !(1 << j), j)
  {
  }

  lemma AndNotKeepsOtherBits(w: bv32, j: nat, k: nat)
    requires j < 32 && k < 32 && j != k
    ensures TestBit(w & !(1 << j), k) == TestBit(w, k)
  {
    AndNotKeepsWord(w, j, k);
  }

  /** Replacing one word so that exactly bit i changes is an update of the abstract bitmap. */
  lemma WordUpdate(ws: seq<bv32>, i: nat, w: bv32, b: bool)
    requires i < 32 * |ws|
    requires forall k: nat | k < 32 :: TestBit(w, k) == if k == i % 32 then b else TestBit(ws[i / 32], k)
    ensures Bits(ws[i / 32 := w]) == Bits(ws)[i := b]
  {
    var after, want := Bits(ws[i / 32 := w]), Bits(ws)[i := b];
    forall n | 0 <= n < |after|
      ensures after[n] == want[n]
    {
      BitAt(ws, n);
      BitAt(ws[i / 32 := w], n);
      if n / 32 == i / 32 && n % 32 == i % 32 {
        assert n == i;
      }
    }
  }

  /** `A[i / 32] |= 1 << (i % 32)` sets bit i of the bitmap and no other. */
  lemma OrSetsBit(ws: seq<bv32>, i: nat)
    requires i < 32 * |ws|
    ensures Bits(ws[i / 32 := ws[i / 32] | (1 << (i % 32))]) == Bits(ws)[i := true]
  {
    var j := i % 32;
    var w := ws[i / 32];
    OrSetsItsBit(w, j);
    forall k: nat | k < 32 && k != j
      ensures TestBit(w | (1 << j), k) == TestBit(w, k)
    {
      OrKeepsOtherBits(w, j, k);
    }
    WordUpdate(ws, i, w | (1 << j), true);
  }

  /** `A[i / 32] &= ~(1 << (i % 32))` clears bit i of the bitmap and no other. */
  lemma AndNotClearsBit(ws: seq<bv32>, i: nat)
    requires i < 32 * |ws|
    ensures Bits(ws[i / 32 := ws[i / 32] & !(1 << (i % 32))]) == Bits(ws)[i := false]
  {
    var j := i % 32;
    var w := ws[i / 32];
    AndNotClearsItsBit(w, j);
    forall k: nat | k < 32 && k != j
      ensures TestBit(w & !(1 << j), k) == TestBit(w, k)
    {
      AndNotKeepsOtherBits(w, j, k);
    }
    WordUpdate(ws, i, w & !(1 << j), false);
  }

  /** Set bit i of the bitmap that starts at word lo of the image; hi is where that bitmap ends. */
  method SetBitOn(a: array<bv32>, lo: nat, ghost hi: nat, i: nat)
    requires lo <= hi <= a.Length && i < 32 * (hi - lo)
    modifies a
    ensures Bits(a[lo..hi]) == old(Bits(a[lo..hi]))[i := true]
    ensures a[..lo] == old(a[..lo]) && a[hi..] == old(a[hi..])
  {
    ghost var ws := a[lo..hi];
    OrSetsBit(ws, i);
    a[lo + i / 32] := a[lo + i / 32] | (1 << (i % 32));
    assert a[lo..hi] == ws[i / 32 := a[lo + i / 32]];
  }

  /** Clear bit i of the bitmap that starts at word lo of the image. */
  method SetBitOff(a: array<bv32>, lo: nat, ghost hi: nat, i: nat)
    requires lo <= hi <= a.Length && i < 32 * (hi - lo)
    modifies a
    ensures Bits(a[lo..hi]) == old(Bits(a[lo..hi]))[i := false]
    ensures a[..lo] == old(a[..lo]) && a[hi..] == old(a[hi..])
  {
    ghost var ws := a[lo..hi];
    AndNotClearsBit(ws, i);
    a[lo + i / 32] := a[lo + i / 32] & !(1 << (i % 32));
    assert a[lo..hi] == ws[i / 32 := a[lo + i / 32]];
  }

  method CheckBit(a: array<bv32>, lo: nat, ghost hi: nat, i: nat) returns (r: int)
    requires lo <= hi <= a.Length && i < 32 * (hi - lo)
    ensures r == if Bits(a[lo..hi])[i] then 1 else 0
  {
    BitAt(a[lo..hi], i);
    if a[lo + i / 32] & (1 << (i % 32)) != 0 {
      return 1;
    }
    return 0;
  }

  /** The least clear bit at or after i and below size, or -1. */
  function FirstFreeFrom(bs: seq<bool>, i: nat, size: nat): (r: int)
    requires i <= size <= |bs|
    ensures r == -1 || i <= r < size
    ensures r == -1 ==> forall k :: i <= k < size ==> bs[k]
    ensures r != -1 ==> !bs[r] && forall k :: i <= k < r ==> bs[k]
    decreases size - i
  {
    if i == size then -1 else if !bs[i] then i else FirstFreeFrom(bs, i + 1, size)
  }

  function FirstFree(bs: seq<bool>, size: nat): (r: int)
    requires size <= |bs|
    ensures r == -1 || 0 <= r < size
    ensures r == -1 ==> forall k :: 0 <= k < size ==> bs[k]
    ensures r != -1 ==> !bs[r] && forall k :: 0 <= k < r ==> bs[k]
  {
    FirstFreeFrom(bs, 0, size)
  }

  /** First fit: the least clear bit below size, or -1 when there is none. */
  method FindFreeFromBitmap(a: array<bv32>, lo: nat, ghost hi: nat, size: nat) returns (r: int)
    requires lo <= hi <= a.Length && size <= 32 * (hi - lo)
    ensures r == FirstFree(Bits(a[lo..hi]), size)
  {
    ghost var bs := Bits(a[lo..hi]);
    for i := 0 to size
      invariant FirstFree(bs, size) == FirstFreeFrom(bs, i, size)
    {
      var taken := CheckBit(a, lo, hi, i);
      if taken == 0 {
        return i;
      }
    }
    return -1;
  }

  /** How many of the first n bits are clear. */
  function CountClear(bs: seq<bool>, n: nat): (c: nat)
    requires n <= |bs|
    ensures c <= n
  {
    if n == 0 then 0 else CountClear(bs, n - 1) + if bs[n - 1] then 0 else 1
  }

  lemma {:induction false} CountAfterUpdate(bs: seq<bool>, i: nat, b: bool, n: nat)
    requires i < |bs| && n <= |bs|
    ensures CountClear(bs[i := b], n) ==
            CountClear(bs, n) + (if i < n && bs[i] && !b then 1 else 0) - (if i < n && !bs[i] && b then 1 else 0)
  {
    if n > 0 {
      CountAfterUpdate(bs, i, b, n - 1);
    }
  }

  /** A free bit exists below n exactly when the count of clear bits is positive. */
  lemma {:induction false} FreeIffCount(bs: seq<bool>, n: nat)
    requires n <= |bs|
    ensures (exists k :: 0 <= k < n && !bs[k]) <==> CountClear(bs, n) > 0
  {
    if n > 0 {
      FreeIffCount(bs, n - 1);
    }
  }
}
