/** What walks show of an image, consistent or not. */
module Observing {
  import opened Disk
  import opened Storage
  import opened Tree
  import opened FileSystem

  /** Walks along ordinary names arrive exactly at what the map lists. */
  ghost predicate ShowsPath(d: Disk, m: Names, r: Path) {
    PlainPath(r) ==> if r in m then Walk(d, 0, r) == At(m[r]) else !Walk(d, 0, r).At?
  }

  ghost predicate Shows(d: Disk, m: Names) {
    forall r {:trigger ShowsPath(d, m, r)} :: ShowsPath(d, m, r)
  }

  /** The inode that a search for x in these slots comes upon, or -1. */
  function Child(es: seq<Cell>, x: string): int {
    var k := Lookup(es, x);
    if k == -1 then -1 else InoOf(es[k])
  }

  /** The inode that the map lists for x below q, or -1. */
  ghost function Expected(m: Names, q: Path, x: string): int {
    if q + [x] in m then m[q + [x]] else -1
  }

  /** A search at q finds what the map lists there. */
  ghost predicate Reads(d: Disk, m: Names, q: Path) {
    q in m && forall x {:trigger Expected(m, q, x)} :: Plain(x) ==> Child(EntriesOf(d, m[q]), x) == Expected(m, q, x)
  }

  /** A map whose paths hang off directories of the image, up to the root at inode 0. */
  ghost predicate Hangs(d: Disk, m: Names, q: Path) {
    q != [] ==> Init(q) in m && IsDir(d, m[Init(q)]) && Plain(Last(q))
  }

  ghost predicate Framed(d: Disk, m: Names) {
    && [] in m && m[[]] == 0
    && (forall q {:trigger Hangs(d, m, q)} :: q in m ==> Hangs(d, m, q))
    && (forall q, r {:trigger m[q], m[r]} :: q in m && r in m && m[q] == m[r] ==> q == r)
  }

  // ---- Consistent images ----

  lemma CoreIsFramed(d: Disk, m: Names)
    requires Core(d, m)
    ensures Framed(d, m)
  {
    RootIsDirectory(d, m);
    forall q | q in m
      ensures Hangs(d, m, q)
    {
      if q != [] {
        assert PathOk(Graph(d, m.Values), m, q);
        ListedNode(d, m, Init(q));
      }
    }
  }

  lemma CleanReads(d: Disk, m: Names, q: Path)
    requires Core(d, m) && q in m && (IsDir(d, m[q]) || QuietImage(d))
    ensures Reads(d, m, q)
  {
    forall x | Plain(x)
      ensures Child(EntriesOf(d, m[q]), x) == Expected(m, q, x)
    {
      StepSpells(d, m, q, x);
    }
  }

  // ---- From searches to walks ----

  lemma {:induction false} FramedIsPlain(d: Disk, m: Names, q: Path)
    requires Framed(d, m) && q in m
    ensures PlainPath(q)
    decreases |q|
  {
    if q != [] {
      assert Hangs(d, m, q);
      FramedIsPlain(d, m, Init(q));
      forall i | 0 <= i < |q|
        ensures Plain(q[i])
      {
        assert i < |q| - 1 ==> q[i] == Init(q)[i];
      }
    }
  }

  lemma {:induction false} FramedPrefix(d: Disk, m: Names, q: Path, n: nat)
    requires Framed(d, m) && q in m && n <= |q|
    ensures q[..n] in m && (n < |q| ==> IsDir(d, m[q[..n]]))
    decreases |q|
  {
    if n < |q| {
      assert Hangs(d, m, q);
      FramedPrefix(d, m, Init(q), n);
      assert Init(q)[..n] == q[..n];
    } else {
      assert q[..n] == q;
    }
  }

  lemma FramedStep(d: Disk, m: Names, q: Path, names: Path)
    requires Framed(d, m) && names != [] && q + names in m
    ensures q in m && IsDir(d, m[q]) && q + [names[0]] in m
  {
    FramedPrefix(d, m, q + names, |q|);
    FramedPrefix(d, m, q + names, |q| + 1);
    assert (q + names)[..|q|] == q && (q + names)[..|q| + 1] == q + [names[0]];
  }

  lemma WalkOneStep(d: Disk, m: Names, q: Path, x: string, rest: Path)
    requires Reads(d, m, q) && IsDir(d, m[q]) && Plain(x) && q + [x] in m
    ensures Walk(d, m[q], [x] + rest) == Walk(d, m[q + [x]], rest)
  {
    assert Child(EntriesOf(d, m[q]), x) == Expected(m, q, x);
    assert ([x] + rest)[1..] == rest;
  }

  lemma FirstAndRest(q: Path, names: Path, n: nat)
    requires n < |names|
    ensures (q + [names[0]]) + names[1..][..n] == q + names[..n + 1]
  {
  }

  /** A walk follows listed paths as long as the searches on the way are right. */
  lemma {:induction false} WalkFollows(d: Disk, m: Names, q: Path, names: Path, more: Path)
    requires Framed(d, m) && q + names in m && PlainPath(names)
    requires forall n {:trigger names[..n]} :: 0 <= n < |names| ==> Reads(d, m, q + names[..n])
    ensures q in m && Walk(d, m[q], names + more) == Walk(d, m[q + names], more)
    decreases |names|
  {
    if names == [] {
      assert q + names == q && names + more == more;
    } else {
      var x, rest := names[0], names[1..];
      FramedStep(d, m, q, names);
      assert q + names[..0] == q;
      assert q + names == (q + [x]) + rest && names + more == [x] + (rest + more);
      WalkOneStep(d, m, q, x, rest + more);
      forall n | 0 <= n < |rest|
        ensures Reads(d, m, (q + [x]) + rest[..n])
      {
        FirstAndRest(q, names, n);
      }
      WalkFollows(d, m, q + [x], rest, more);
    }
  }

  /** If all searches are right, every walk from a listed path is. */
  lemma {:induction false} WalkShows(d: Disk, m: Names, q: Path, names: Path)
    requires Framed(d, m) && q in m && PlainPath(names)
    requires forall r {:trigger Reads(d, m, r)} :: r in m ==> Reads(d, m, r)
    ensures if q + names in m then Walk(d, m[q], names) == At(m[q + names]) else !Walk(d, m[q], names).At?
    decreases |names|
  {
    if names == [] {
      assert q + names == q;
    } else {
      var x, rest := names[0], names[1..];
      assert q + names == (q + [x]) + rest;
      assert Reads(d, m, q);
      assert Child(EntriesOf(d, m[q]), x) == Expected(m, q, x);
      if q + [x] in m {
        FramedStep(d, m, q, [x]);
        WalkShows(d, m, q + [x], rest);
      } else if q + names in m {
        FramedStep(d, m, q, names);
      }
    }
  }

  lemma ReadsShows(d: Disk, m: Names)
    requires Framed(d, m)
    requires forall r {:trigger Reads(d, m, r)} :: r in m ==> Reads(d, m, r)
    ensures Shows(d, m)
  {
    forall r
      ensures ShowsPath(d, m, r)
    {
      if PlainPath(r) {
        WalkShows(d, m, [], r);
        assert [] + r == r;
      }
    }
  }

  /** A consistent image shows its name map. */
  lemma CleanShows(d: Disk, m: Names)
    requires Clean(d, m)
    ensures Framed(d, m) && Shows(d, m)
  {
    CoreIsFramed(d, m);
    forall r | r in m
      ensures Reads(d, m, r)
    {
      CleanReads(d, m, r);
    }
    ReadsShows(d, m);
  }

  // ---- And back ----

  /** If the walks are right and the searches above q are, the search at q is. */
  lemma ShowsReads(d: Disk, m: Names, q: Path)
    requires Framed(d, m) && Shows(d, m) && q in m
    requires forall n {:trigger q[..n]} :: 0 <= n < |q| ==> Reads(d, m, q[..n])
    ensures Reads(d, m, q)
  {
    FramedIsPlain(d, m, q);
    forall x | Plain(x)
      ensures Child(EntriesOf(d, m[q]), x) == Expected(m, q, x)
    {
      assert ShowsPath(d, m, q + [x]) && PlainPath(q + [x]);
      assert forall n :: 0 <= n < |q| ==> [] + q[..n] == q[..n];
      assert [] + q == q;
      WalkFollows(d, m, [], q, [x]);
      SearchIsWalk(d, m[q], x);
    }
  }

  /** The last component is exempt from the directory check, so its walk is the search. */
  lemma SearchIsWalk(d: Disk, i: nat, x: string)
    ensures var c := Child(EntriesOf(d, i), x);
            Walk(d, i, [x]) == if c == -1 then NoEntry else At(c)
  {
    var es := EntriesOf(d, i);
    var k := Lookup(es, x);
    if k != -1 {
      assert [x][1..] == [];
      assert Walk(d, InoOf(es[k]), []) == At(InoOf(es[k]));
    }
  }

  /** When all other searches are right, looking x up below q is the search for x at q. */
  lemma WalkToSearch(d: Disk, m: Names, q: Path, x: string)
    requires Framed(d, m) && q in m && Plain(x)
    requires forall r {:trigger Reads(d, m, r)} :: r in m && r != q ==> Reads(d, m, r)
    ensures var c := Child(EntriesOf(d, m[q]), x); Walk(d, 0, q + [x]) == if c == -1 then NoEntry else At(c)
  {
    FramedIsPlain(d, m, q);
    assert [] + q == q;
    forall n | 0 <= n < |q|
      ensures Reads(d, m, [] + q[..n])
    {
      FramedPrefix(d, m, q, n);
      assert [] + q[..n] == q[..n];
    }
    WalkFollows(d, m, [], q, [x]);
    SearchIsWalk(d, m[q], x);
  }

  /** When all searches but one are right, the image shows the map exactly if that one is, too. */
  lemma OneSearchDecides(d: Disk, m: Names, q: Path)
    requires Framed(d, m) && q in m
    requires forall r {:trigger Reads(d, m, r)} :: r in m && r != q ==> Reads(d, m, r)
    ensures Shows(d, m) <==> Reads(d, m, q)
  {
    if Shows(d, m) {
      forall n | 0 <= n < |q|
        ensures Reads(d, m, q[..n])
      {
        FramedPrefix(d, m, q, n);
      }
      ShowsReads(d, m, q);
    }
    if Reads(d, m, q) {
      ReadsShows(d, m);
    }
  }

  /** Nothing is listed directly below q. */
  ghost predicate Childless(m: Names, q: Path) {
    forall x {:trigger Expected(m, q, x)} :: Plain(x) ==> Expected(m, q, x) == -1
  }

  /** A search in these slots finds what the map lists below q. */
  ghost predicate Spelled(m: Names, q: Path, es: seq<Cell>) {
    forall x {:trigger Expected(m, q, x)} :: Plain(x) ==> Child(es, x) == Expected(m, q, x)
  }

  // ---- Searching in changed slots ----

  lemma ChildOfAppended(es: seq<Cell>, c: Cell, x: string)
    ensures Child(es + [c], x) == if Child(es, x) != -1 then Child(es, x) else if NameOf(c) == x then InoOf(c) else -1
  {
    var k, after := Lookup(es, x), es + [c];
    if k != -1 {
      assert after[k] == es[k];
      FoundFirst(after, x, k);
    } else if NameOf(c) == x {
      assert after[|es|] == c;
      FoundFirst(after, x, |es|);
    } else {
      forall j | 0 <= j < |after|
        ensures NameOf(after[j]) != x
      {
      }
    }
  }

  lemma FoundFirst(es: seq<Cell>, x: string, k: nat)
    requires k < |es| && NameOf(es[k]) == x && forall j :: 0 <= j < k ==> NameOf(es[j]) != x
    ensures Lookup(es, x) == k
  {
  }

  /** Taking a slot out loses its name, if names do not repeat, and no other. */
  lemma ChildOfWithout(es: seq<Cell>, k: nat, x: string)
    requires k < |es| && forall i, j :: 0 <= i < j < |es| ==> NameOf(es[i]) != NameOf(es[j])
    ensures Child(Without(es, k), x) == if x == NameOf(es[k]) then -1 else Child(es, x)
  {
    var after, at := Without(es, k), Lookup(es, x);
    forall j: nat | j < |after|
      ensures after[j] == es[if j < k then j else j + 1]
    {
      WithoutAt(es, k, j);
    }
    if x != NameOf(es[k]) && at != -1 {
      var j := if at < k then at else at - 1;
      assert after[j] == es[at];
      FoundFirst(after, x, j);
    }
  }

  /** Also when the last slot is then repeated at the end. */
  lemma ChildOfDoubled(es: seq<Cell>, k: nat, x: string)
    requires k < |es| && forall i, j :: 0 <= i < j < |es| ==> NameOf(es[i]) != NameOf(es[j])
    ensures Child(Without(es, k) + [es[|es| - 1]], x) ==
            if x == NameOf(es[k]) && k != |es| - 1 then -1 else Child(es, x)
  {
    var last := es[|es| - 1];
    ChildOfWithout(es, k, x);
    ChildOfAppended(Without(es, k), last, x);
    if x == NameOf(last) {
      FoundFirst(es, x, |es| - 1);
    }
  }
}
