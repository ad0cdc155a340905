/** The invariant of a consistent image, and path walks on it. */
module FileSystem {
  import opened Disk
  import opened Storage
  import opened Tree

  /** The image spells the name map m and stores exactly its inodes. */
  ghost predicate Core(d: Disk, m: Names) {
    Store(d, m.Values) && Spells(Graph(d, m.Values), m)
  }

  /** Besides, every ".." names the parent. */
  ghost predicate Consistent(d: Disk, m: Names) {
    Core(d, m) && DotDots(Graph(d, m.Values), m)
  }

  /** Besides, no file seems to have children, now or after it gets another block. */
  ghost predicate Clean(d: Disk, m: Names) {
    Core(d, m) && QuietImage(d)
  }

  lemma ListedNode(d: Disk, m: Names, q: Path)
    requires Core(d, m) && q in m
    ensures m[q] in Graph(d, m.Values) && Graph(d, m.Values)[m[q]] == NodeOf(d, m[q]) && Stored(d, m[q])
  {
    assert m[q] in m.Values;
  }

  lemma RootIsDirectory(d: Disk, m: Names)
    requires Core(d, m)
    ensures [] in m && m[[]] == 0 && IsDir(d, 0)
  {
    ListedNode(d, m, []);
  }

  /** Every prefix of a listed path is listed, and all but the whole are directories. */
  lemma {:induction false} PrefixListed(d: Disk, m: Names, q: Path, n: nat)
    requires Core(d, m) && q in m && n <= |q|
    ensures q[..n] in m && (n < |q| ==> IsDir(d, m[q[..n]]))
    decreases |q|
  {
    if n < |q| {
      assert PathOk(Graph(d, m.Values), m, q);
      ListedNode(d, m, Init(q));
      PrefixListed(d, m, Init(q), n);
      assert Init(q)[..n] == q[..n];
    } else {
      assert q[..n] == q;
    }
  }

  lemma {:induction false} ListedIsPlain(d: Disk, m: Names, q: Path)
    requires Core(d, m) && q in m
    ensures PlainPath(q)
    decreases |q|
  {
    if q != [] {
      assert PathOk(Graph(d, m.Values), m, q);
      ListedIsPlain(d, m, Init(q));
      forall i | 0 <= i < |q|
        ensures Plain(q[i])
      {
        assert i < |q| - 1 ==> q[i] == Init(q)[i];
      }
    }
  }

  /** Nothing of an ordinary name is found in the data block of a file. */
  lemma FileHasNoNames(d: Disk, m: Names, q: Path, x: string)
    requires Clean(d, m) && q in m && !IsDir(d, m[q]) && Plain(x)
    ensures Lookup(EntriesOf(d, m[q]), x) == -1
  {
    SlotsOfFile(d, m, q);
    QuietAt(d, DataOf(d, m[q]));
  }

  lemma StepSpells(d: Disk, m: Names, q: Path, x: string)
    requires Core(d, m) && q in m && Plain(x) && (IsDir(d, m[q]) || QuietImage(d))
    ensures var es := EntriesOf(d, m[q]);
            var k := Lookup(es, x);
            if q + [x] in m then IsDir(d, m[q]) && 2 <= k && es[k] == Dentry(m[q + [x]], x) else k == -1
  {
    ListedNode(d, m, q);
    if q + [x] in m {
      PrefixListed(d, m, q + [x], |q|);
      assert (q + [x])[..|q|] == q;
    }
    if IsDir(d, m[q]) {
      LookupSpells(Graph(d, m.Values), m, q, x);
    } else {
      FileHasNoNames(d, m, q, x);
    }
  }

  /** The first n names lead from q to a file. */
  ghost predicate FileAt(d: Disk, m: Names, q: Path, names: Path, n: int) {
    0 <= n < |names| && q + names[..n] in m && !IsDir(d, m[q + names[..n]])
  }

  /** A file stands where fewer than limit of the names lead. */
  ghost predicate FileOnTheWay(d: Disk, m: Names, q: Path, names: Path, limit: int) {
    exists n :: n < limit && FileAt(d, m, q, names, n)
  }

  /** If a longer path is listed, so is its first step. */
  lemma FirstStepListed(d: Disk, m: Names, q: Path, names: Path)
    requires Core(d, m) && names != [] && q + names in m
    ensures q in m && IsDir(d, m[q]) && q + [names[0]] in m
  {
    PrefixListed(d, m, q + names, |q|);
    PrefixListed(d, m, q + names, |q| + 1);
    assert (q + names)[..|q|] == q && (q + names)[..|q| + 1] == q + [names[0]];
  }

  lemma FileOnTheWayStep(d: Disk, m: Names, q: Path, names: Path, limit: int)
    requires Core(d, m) && q in m && names != []
    ensures FileOnTheWay(d, m, q, names, limit) <==>
            limit > 0 && if !IsDir(d, m[q]) then true
                         else q + [names[0]] in m && FileOnTheWay(d, m, q + [names[0]], names[1..], limit - 1)
  {
    var x, rest := names[0], names[1..];
    assert q + names[..0] == q;
    assert !IsDir(d, m[q]) ==> FileAt(d, m, q, names, 0);
    forall n | 0 < n < |names|
      ensures q + names[..n] == (q + [x]) + rest[..n - 1]
    {
    }
    if FileOnTheWay(d, m, q, names, limit) && IsDir(d, m[q]) {
      var n :| n < limit && FileAt(d, m, q, names, n);
      assert n > 0 && names[..n][0] == x;
      FirstStepListed(d, m, q, names[..n]);
      assert FileAt(d, m, q + [x], rest, n - 1);
    }
    if q + [x] in m && FileOnTheWay(d, m, q + [x], rest, limit - 1) {
      var n :| n < limit - 1 && FileAt(d, m, q + [x], rest, n);
      assert FileAt(d, m, q, names, n + 1);
    }
  }

  /**
   * A walk along ordinary names reaches an inode exactly when the path is listed, and then that inode; otherwise it
   * reports a non-directory exactly when a file stands before the parent of the last component.
   */
  lemma {:induction false} WalkSpells(d: Disk, m: Names, q: Path, names: Path)
    requires Clean(d, m) && q in m && PlainPath(names)
    ensures Walk(d, m[q], names) ==
            if q + names in m then At(m[q + names])
            else if FileOnTheWay(d, m, q, names, |names| - 1) then NotDir else NoEntry
    decreases |names|
  {
    if names == [] {
      assert q + names == q;
    } else {
      var x, rest := names[0], names[1..];
      assert q + names == (q + [x]) + rest;
      StepSpells(d, m, q, x);
      FileOnTheWayStep(d, m, q, names, |names| - 1);
      if q + names in m {
        FirstStepListed(d, m, q, names);
      }
      if q + [x] in m {
        WalkSpells(d, m, q + [x], rest);
      }
    }
  }

  /** One turn of the walking loops at a listed inode. */
  lemma WalkStep(d: Disk, m: Names, q: Path, x: string, rest: Path)
    requires Core(d, m) && q in m && Plain(x) && (IsDir(d, m[q]) || QuietImage(d))
    ensures var es := EntriesOf(d, m[q]);
            var k := Lookup(es, x);
            && Walk(d, m[q], [x] + rest) == (if !IsDir(d, m[q]) && rest != [] then NotDir
                                             else if k == -1 then NoEntry
                                             else Walk(d, InoOf(es[k]), rest))
            && (k != -1 ==> 0 <= k < |es| == InodeAt(d, m[q]).dentryCount && IsDir(d, m[q])
                            && q + [x] in m && m[q + [x]] == InoOf(es[k]))
  {
    hide Core;
    StepSpells(d, m, q, x);
    ListedNode(d, m, q);
    assert ([x] + rest)[1..] == rest;
  }

  /** From the root: a listed path is walked to its inode, any other path of ordinary names to an error. */
  lemma WalkFromRoot(d: Disk, m: Names, names: Path)
    requires Clean(d, m) && PlainPath(names)
    ensures Walk(d, 0, names) == if names in m then At(m[names])
                                 else if FileOnTheWay(d, m, [], names, |names| - 1) then NotDir else NoEntry
  {
    WalkSpells(d, m, [], names);
    assert [] + names == names;
  }

  /** Along a listed path the walk arrives, whatever stale blocks hold. */
  lemma {:induction false} ListedArrives(d: Disk, m: Names, q: Path, rest: Path)
    requires Core(d, m) && q + rest in m && PlainPath(rest)
    ensures q in m && Walk(d, m[q], rest) == At(m[q + rest])
    decreases |rest|
  {
    if rest == [] {
      assert q + rest == q;
    } else {
      var x := rest[0];
      assert q + rest == (q + [x]) + rest[1..];
      FirstStepListed(d, m, q, rest);
      StepSpells(d, m, q, x);
      ListedArrives(d, m, q + [rest[0]], rest[1..]);
    }
  }

  lemma WalkListed(d: Disk, m: Names, names: Path)
    requires Core(d, m) && names in m
    ensures PlainPath(names) && Walk(d, 0, names) == At(m[names]) && FindInode(d, names) == m[names]
  {
    ListedIsPlain(d, m, names);
    assert [] + names == names;
    ListedArrives(d, m, [], names);
    RootIsDirectory(d, m);
    ListedNode(d, m, []);
    assert DirOk(Graph(d, m.Values), m, []);
    assert EntriesOf(d, 0)[0] == CellAt(d, SLOTS * DataOf(d, 0));
  }

  /**
   * Directly below a file a name leads somewhere exactly if one of the first two slots of the file's data block
   * carries it: what stands there is left over from the block's earlier use.
   */
  lemma WalkBelowFile(d: Disk, m: Names, q: Path, x: string)
    requires Core(d, m) && q in m && !IsDir(d, m[q])
    ensures var at := SLOTS * DataOf(d, m[q]);
            Walk(d, 0, q + [x]) == if NameOf(CellAt(d, at)) == x then At(InoOf(CellAt(d, at)))
                                   else if NameOf(CellAt(d, at + 1)) == x then At(InoOf(CellAt(d, at + 1)))
                                   else NoEntry
  {
    ListedIsPlain(d, m, q);
    assert [] + q == q;
    WalkPastListed(d, m, [], q, [x]);
    RootIsDirectory(d, m);
    SlotsOfFile(d, m, q);
    SearchOfTwo(d, m[q], x);
  }

  lemma SlotsOfFile(d: Disk, m: Names, q: Path)
    requires Core(d, m) && q in m && !IsDir(d, m[q])
    ensures DataOf(d, m[q]) >= 0 && DataOf(d, m[q]) % 2 == 1 && DataOf(d, m[q]) < d.geo.dblockCount
    ensures EntriesOf(d, m[q]) == [CellAt(d, SLOTS * DataOf(d, m[q])), CellAt(d, SLOTS * DataOf(d, m[q]) + 1)]
  {
    ListedNode(d, m, q);
  }

  lemma SearchOfTwo(d: Disk, i: nat, x: string)
    requires |EntriesOf(d, i)| == 2
    ensures var es := EntriesOf(d, i);
            Walk(d, i, [x]) == if NameOf(es[0]) == x then At(InoOf(es[0]))
                               else if NameOf(es[1]) == x then At(InoOf(es[1])) else NoEntry
  {
    var k := Lookup(EntriesOf(d, i), x);
    assert [x][1..] == [];
    assert k >= 0 ==> Walk(d, InoOf(EntriesOf(d, i)[k]), []) == At(InoOf(EntriesOf(d, i)[k]));
  }

  lemma SplitFirst(q: Path, rest: Path, more: Path)
    requires rest != []
    ensures q + rest == (q + [rest[0]]) + rest[1..]
    ensures rest + more == [rest[0]] + (rest[1..] + more)
  {
  }

  lemma {:induction false} WalkPastListed(d: Disk, m: Names, q: Path, rest: Path, more: Path)
    requires Core(d, m) && q + rest in m && PlainPath(rest) && more != []
    ensures q in m && Walk(d, m[q], rest + more) == Walk(d, m[q + rest], more)
    decreases |rest|
  {
    if rest == [] {
      assert q + rest == q && rest + more == more;
    } else {
      var x, tail := rest[0], rest[1..];
      FirstStepListed(d, m, q, rest);
      WalkStep(d, m, q, x, tail + more);
      StepSpells(d, m, q, x);
      SplitFirst(q, rest, more);
      WalkPastListed(d, m, q + [x], tail, more);
    }
  }

  /**
   * The walk of the mutators stops at the parent exactly when that is a listed directory; otherwise it reports a
   * non-directory exactly when some proper prefix is a file.
   */
  lemma {:induction false} ParentWalkSpells(d: Disk, m: Names, q: Path, names: Path)
    requires Core(d, m) && q in m && PlainPath(names) && names != []
    ensures ParentWalk(d, m[q], names) ==
            var up := q + Init(names);
            if up in m && IsDir(d, m[up]) then At(m[up])
            else if FileOnTheWay(d, m, q, names, |names|) then NotDir else NoEntry
    decreases |names|
  {
    var x, rest := names[0], names[1..];
    FileOnTheWayStep(d, m, q, names, |names|);
    if |names| == 1 {
      assert q + Init(names) == q;
      assert !FileOnTheWay(d, m, q + [x], rest, 0);
    } else {
      assert q + Init(names) == (q + [x]) + Init(rest);
      if IsDir(d, m[q]) {
        StepSpells(d, m, q, x);
      }
      if q + Init(names) in m {
        FirstStepListed(d, m, q, Init(names));
      }
      if q + [x] in m {
        ParentWalkSpells(d, m, q + [x], rest);
      }
    }
  }

  /** A proper prefix of the path leads to an inode that is no directory. */
  ghost predicate FileMet(d: Disk, cur: nat, names: seq<string>) {
    exists n: nat {:trigger MeetsFile(d, cur, names, n)} :: MeetsFile(d, cur, names, n)
  }

  predicate MeetsFile(d: Disk, cur: nat, names: seq<string>, n: nat) {
    n < |names| && var w := Walk(d, cur, names[..n]); w.At? && !IsDir(d, w.ino)
  }

  /** The mutators' walk and find_inode_from_path of the parent path, on any image at all. */
  lemma {:induction false} ParentWalkIsWalkOfParent(d: Disk, cur: nat, names: seq<string>)
    requires names != []
    ensures match ParentWalk(d, cur, names)
            case At(p) => Walk(d, cur, Init(names)) == At(p) && IsDir(d, p) &&
                          Walk(d, cur, names) == Walk(d, p, [Last(names)])
            case NoEntry => Walk(d, cur, Init(names)) == NoEntry && Walk(d, cur, names) == NoEntry
            case NotDir => FileMet(d, cur, names)
    ensures FileMet(d, cur, names) ==> ParentWalk(d, cur, names) == NotDir
    decreases |names|
  {
    if !IsDir(d, cur) {
      assert MeetsFile(d, cur, names, 0);
    } else if |names| > 1 {
      var es := EntriesOf(d, cur);
      var k := Lookup(es, names[0]);
      assert Init(names)[1..] == Init(names[1..]) && Last(names) == Last(names[1..]);
      forall n: nat
        ensures MeetsFile(d, cur, names, n) <==> n > 0 && k >= 0 && MeetsFile(d, InoOf(es[k]), names[1..], n - 1)
      {
        MeetsLater(d, cur, names, n, k);
      }
      if k >= 0 {
        ParentWalkIsWalkOfParent(d, InoOf(es[k]), names[1..]);
        if n: nat :| MeetsFile(d, InoOf(es[k]), names[1..], n) {
          assert MeetsFile(d, cur, names, n + 1);
        }
      }
    }
  }

  lemma MeetsLater(d: Disk, cur: nat, names: seq<string>, n: nat, k: int)
    requires IsDir(d, cur) && |names| > 1 && k == Lookup(EntriesOf(d, cur), names[0])
    ensures MeetsFile(d, cur, names, n) <==>
            n > 0 && k >= 0 && MeetsFile(d, InoOf(EntriesOf(d, cur)[k]), names[1..], n - 1)
  {
    if 0 < n < |names| {
      assert names[..n][1..] == names[1..][..n - 1] && names[..n][0] == names[0];
    }
  }

  /** find_inode_from_path agrees with the other walks, the root included. */
  lemma FindIsWalk(d: Disk, m: Names, names: Path)
    requires Clean(d, m) && PlainPath(names)
    ensures FindInode(d, names) == match Walk(d, 0, names)
                                   case At(i) => i
                                   case NotDir => -ENOTDIR
                                   case NoEntry => -1
    ensures FindInode(d, names) >= 0 <==> names in m
    ensures names in m ==> FindInode(d, names) == m[names]
  {
    WalkFromRoot(d, m, names);
    RootIsDirectory(d, m);
    WalkListed(d, m, []);
  }

  /** The names of the slots, in order: what readdir reports. */
  function NamesOf(es: seq<Cell>): (names: seq<string>)
    ensures |names| == |es| && forall k :: 0 <= k < |es| ==> names[k] == NameOf(es[k])
  {
    seq(|es|, k requires 0 <= k < |es| => NameOf(es[k]))
  }
}
