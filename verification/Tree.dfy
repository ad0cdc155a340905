/**
 * The name space as a map from paths (sequences of ordinary names) to inodes, and when a directory graph spells it.
 */
module Tree {
  import opened Disk
  import opened Storage

  type Path = seq<string>
  type Names = map<Path, nat>

  ghost predicate PlainPath(q: Path) {
    forall i {:trigger q[i]} :: 0 <= i < |q| ==> Plain(q[i])
  }

  /** Slot k of these entries names inode c as x. */
  predicate Names?(es: seq<Cell>, k: int, x: string, c: nat) {
    2 <= k < |es| && es[k] == Dentry(c, x)
  }

  /** A listed path other than the root hangs off a listed directory that has an entry for it. */
  ghost predicate PathOk(g: map<nat, Node>, m: Names, q: Path) {
    q != [] ==>
      && Plain(Last(q)) && Init(q) in m
      && m[Init(q)] in g && g[m[Init(q)]].Dir?
      && q in m && exists k :: Names?(g[m[Init(q)]].entries, k, Last(q), m[q])
  }

  /** One slot behind the dots: an ordinary name that is not repeated, and the path it makes is listed. */
  ghost predicate SlotOk(es: seq<Cell>, m: Names, q: Path, k: nat)
    requires k < |es|
  {
    && es[k].Dentry? && Plain(es[k].name) && Fits(es[k].name)
    && q + [es[k].name] in m && m[q + [es[k].name]] == es[k].ino
    && forall j :: 2 <= j < |es| && j != k ==> NameOf(es[j]) != es[k].name
  }

  /** A listed directory starts with itself and "..", and the other slots are as above. */
  ghost predicate DirOk(g: map<nat, Node>, m: Names, q: Path) {
    q in m && m[q] in g && (g[m[q]].Dir? ==>
      var es := g[m[q]].entries;
      && |es| >= 2 && es[0] == Dentry(m[q], ".") && es[1].Dentry? && es[1].name == ".."
      && forall k {:trigger SlotOk(es, m, q, k)} :: 2 <= k < |es| ==> SlotOk(es, m, q, k))
  }

  ghost predicate Injective(m: Names) {
    forall q, r {:trigger m[q], m[r]} :: q in m && r in m && m[q] == m[r] ==> q == r
  }

  /**
   * The graph is a tree with the root at inode 0, and the map lists exactly its paths. Every inode of the graph
   * has one path, hence one entry other than dots that names it.
   */
  ghost predicate Spells(g: map<nat, Node>, m: Names) {
    && [] in m && m[[]] == 0 && Injective(m) && g.Keys == m.Values && 0 in g && g[0].Dir?
    && (forall q {:trigger PathOk(g, m, q)} :: q in m ==> PathOk(g, m, q))
    && (forall q {:trigger DirOk(g, m, q)} :: q in m ==> DirOk(g, m, q))
  }

  /** Each directory's ".." names its parent, the root's names the root. */
  ghost predicate DotDot(g: map<nat, Node>, m: Names, q: Path) {
    q in m && m[q] in g && (g[m[q]].Dir? ==>
      |g[m[q]].entries| > 1 &&
      if q == [] then InoOf(g[m[q]].entries[1]) == m[q]
      else Init(q) in m && InoOf(g[m[q]].entries[1]) == m[Init(q)])
  }

  ghost predicate DotDots(g: map<nat, Node>, m: Names) {
    forall q {:trigger DotDot(g, m, q)} :: q in m ==> DotDot(g, m, q)
  }

  // ---- Looking a name up ----

  /** Scanning a listed directory for an ordinary name finds it exactly when the longer path is listed. */
  lemma LookupSpells(g: map<nat, Node>, m: Names, q: Path, x: string)
    requires Spells(g, m) && q in m && g[m[q]].Dir? && Plain(x)
    ensures var es, k := g[m[q]].entries, Lookup(g[m[q]].entries, x);
            if q + [x] in m then Names?(es, k, x, m[q + [x]]) else k == -1
  {
    var es, k := g[m[q]].entries, Lookup(g[m[q]].entries, x);
    assert DirOk(g, m, q);
    if q + [x] in m {
      assert PathOk(g, m, q + [x]) && Init(q + [x]) == q && Last(q + [x]) == x;
      var j :| Names?(es, j, x, m[q + [x]]);
      assert SlotOk(es, m, q, j);
    } else {
      forall j | 0 <= j < |es|
        ensures NameOf(es[j]) != x
      {
        assert j >= 2 ==> SlotOk(es, m, q, j);
      }
    }
  }

  // ---- Adding a name ----

  /** One new inode n, named x at the end of directory p. */
  function AddNode(g: map<nat, Node>, p: nat, x: string, n: nat, node: Node): map<nat, Node>
    requires p in g && g[p].Dir?
  {
    g[p := Dir(g[p].entries + [Dentry(n, x)])][n := node]
  }

  ghost predicate Addable(g: map<nat, Node>, m: Names, q: Path, x: string, n: nat, node: Node) {
    && Spells(g, m) && q in m && g[m[q]].Dir? && Plain(x) && Fits(x) && q + [x] !in m && n !in g
    && (node.Dir? ==> node.entries == [Dentry(n, "."), Dentry(m[q], "..")])
  }

  lemma AddKeys(g: map<nat, Node>, m: Names, q: Path, x: string, n: nat, node: Node)
    requires Addable(g, m, q, x, n, node)
    ensures m[q + [x] := n].Values == m.Values + {n}
    ensures Injective(m[q + [x] := n])
  {
    var m' := m[q + [x] := n];
    forall i | i in m.Values + {n}
      ensures i in m'.Values
    {
      if i in m.Values {
        var r :| r in m && m[r] == i;
        assert r in m' && m'[r] == i;
      } else {
        assert q + [x] in m' && m'[q + [x]] == i;
      }
    }
    assert forall r :: r in m ==> m[r] in m.Values;
  }

  lemma AddPathOk(g: map<nat, Node>, m: Names, q: Path, x: string, n: nat, node: Node, r: Path)
    requires Addable(g, m, q, x, n, node) && (r in m || r == q + [x])
    ensures PathOk(AddNode(g, m[q], x, n, node), m[q + [x] := n], r)
  {
    var g', m' := AddNode(g, m[q], x, n, node), m[q + [x] := n];
    assert m[q] in g;
    if r == q + [x] {
      assert Init(r) == q && Last(r) == x;
      assert DirOk(g, m, q);
      assert m'[Init(r)] == m[q] != n;
      assert Names?(g'[m'[Init(r)]].entries, |g[m[q]].entries|, Last(r), m'[r]);
    } else if r != [] {
      assert PathOk(g, m, r);
      var k :| Names?(g[m[Init(r)]].entries, k, Last(r), m[r]);
      assert m[Init(r)] in g;
      assert Names?(g'[m'[Init(r)]].entries, k, Last(r), m'[r]);
    }
  }

  lemma AddSlotOk(g: map<nat, Node>, m: Names, q: Path, x: string, n: nat, node: Node, r: Path, k: nat)
    requires Addable(g, m, q, x, n, node) && r in m && g[m[r]].Dir?
    requires var es := g[m[r]].entries; 2 <= k < |es| + if r == q then 1 else 0
    ensures var es := g[m[r]].entries; SlotOk(if r == q then es + [Dentry(n, x)] else es, m[q + [x] := n], r, k)
  {
    var es := g[m[r]].entries;
    var es' := if r == q then es + [Dentry(n, x)] else es;
    assert DirOk(g, m, r);
    LookupSpells(g, m, q, x);
    if k < |es| {
      assert SlotOk(es, m, r, k) && es'[k] == es[k];
      assert r + [es[k].name] != q + [x];
    } else {
      assert es'[k] == Dentry(n, x);
    }
    forall j | 2 <= j < |es'| && j != k
      ensures NameOf(es'[j]) != es'[k].name
    {
      if j < |es| {
        assert es'[j] == es[j];
      } else {
        assert NameOf(es[k]) != x;
      }
    }
  }

  lemma AddDirOk(g: map<nat, Node>, m: Names, q: Path, x: string, n: nat, node: Node, r: Path)
    requires Addable(g, m, q, x, n, node) && (r in m || r == q + [x])
    ensures DirOk(AddNode(g, m[q], x, n, node), m[q + [x] := n], r)
  {
    var g', m' := AddNode(g, m[q], x, n, node), m[q + [x] := n];
    if r in m {
      assert DirOk(g, m, r);
      assert m'[r] == m[r] && m[r] != n;
      if g[m[r]].Dir? {
        var es' := g'[m'[r]].entries;
        assert es' == if r == q then g[m[r]].entries + [Dentry(n, x)] else g[m[r]].entries;
        forall k | 2 <= k < |es'|
          ensures SlotOk(es', m', r, k)
        {
          AddSlotOk(g, m, q, x, n, node, r, k);
        }
      }
    }
  }

  /** A new name under a listed directory adds exactly one path. */
  lemma AddSpells(g: map<nat, Node>, m: Names, q: Path, x: string, n: nat, node: Node)
    requires Addable(g, m, q, x, n, node)
    ensures Spells(AddNode(g, m[q], x, n, node), m[q + [x] := n])
  {
    var g', m' := AddNode(g, m[q], x, n, node), m[q + [x] := n];
    AddKeys(g, m, q, x, n, node);
    forall r | r in m'
      ensures PathOk(g', m', r) && DirOk(g', m', r)
    {
      AddPathOk(g, m, q, x, n, node, r);
      AddDirOk(g, m, q, x, n, node, r);
    }
  }

  // ---- Removing a name ----

  /** Slot k goes out of directory p and inode t out of the graph. */
  function RemoveNode(g: map<nat, Node>, p: nat, k: nat, t: nat): map<nat, Node>
    requires p in g && g[p].Dir?
  {
    g[p := Dir(Without(g[p].entries, k))] - {t}
  }

  /** Slot k of the directory at q names a file or an empty directory as x. */
  ghost predicate Leaf(g: map<nat, Node>, m: Names, q: Path, x: string, k: nat) {
    && Spells(g, m) && q in m && g[m[q]].Dir? && Plain(x) && q + [x] in m
    && Names?(g[m[q]].entries, k, x, m[q + [x]])
    && (g[m[q + [x]]].Dir? ==> |g[m[q + [x]]].entries| <= 2)
  }

  lemma LeafHasNothingBelow(g: map<nat, Node>, m: Names, q: Path, x: string, k: nat, r: Path)
    requires Leaf(g, m, q, x, k) && r in m && r != []
    ensures Init(r) != q + [x]
    ensures m[q] != m[q + [x]]
  {
    assert PathOk(g, m, r);
    assert |q + [x]| > |q|;
  }

  lemma RemoveKeys(g: map<nat, Node>, m: Names, q: Path, x: string, k: nat)
    requires Leaf(g, m, q, x, k)
    ensures (m - {q + [x]}).Values == m.Values - {m[q + [x]]}
    ensures Injective(m - {q + [x]})
  {
    var m' := m - {q + [x]};
    forall i | i in m.Values && i != m[q + [x]]
      ensures i in m'.Values
    {
      var r :| r in m && m[r] == i;
      assert r in m' && m'[r] == i;
    }
    forall i | i in m'.Values
      ensures i in m.Values && i != m[q + [x]]
    {
      var r :| r in m' && m'[r] == i;
      assert m[r] == i;
    }
  }

  lemma RemovePathOk(g: map<nat, Node>, m: Names, q: Path, x: string, k: nat, r: Path)
    requires Leaf(g, m, q, x, k) && r in m && r != q + [x]
    ensures PathOk(RemoveNode(g, m[q], k, m[q + [x]]), m - {q + [x]}, r)
  {
    if r != [] {
      var g', m' := RemoveNode(g, m[q], k, m[q + [x]]), m - {q + [x]};
      LeafHasNothingBelow(g, m, q, x, k, r);
      assert PathOk(g, m, r);
      var up := m[Init(r)];
      assert m'[Init(r)] == up && up != m[q + [x]];
      var j :| Names?(g[up].entries, j, Last(r), m[r]);
      if up == m[q] {
        assert r == q + [Last(r)];
        assert j != k;
        assert Names?(g'[up].entries, if j < k then j else j - 1, Last(r), m'[r]);
      } else {
        assert Names?(g'[up].entries, j, Last(r), m'[r]);
      }
    }
  }

  lemma RemoveSlotOk(g: map<nat, Node>, m: Names, q: Path, x: string, k: nat, r: Path, j: nat)
    requires Leaf(g, m, q, x, k) && r in m && r != q + [x] && g[m[r]].Dir?
    requires var es := g[m[r]].entries; 2 <= j < |if r == q then Without(es, k) else es|
    ensures var es := g[m[r]].entries; SlotOk(if r == q then Without(es, k) else es, m - {q + [x]}, r, j)
  {
    var es := g[m[r]].entries;
    assert DirOk(g, m, r);
    if r == q {
      var i := if j < k then j else j + 1;
      assert SlotOk(es, m, q, i) && SlotOk(es, m, q, k);
      assert Without(es, k)[j] == es[i] && NameOf(es[i]) != x;
      assert Last(q + [es[i].name]) != Last(q + [x]);
      forall j' | 2 <= j' < |Without(es, k)| && j' != j
        ensures NameOf(Without(es, k)[j']) != es[i].name
      {
        var i' := if j' < k then j' else j' + 1;
        assert Without(es, k)[j'] == es[i'] && i' != i;
      }
    } else {
      assert SlotOk(es, m, r, j);
      assert Init(r + [es[j].name]) == r && Init(q + [x]) == q;
    }
  }

  lemma RemoveDirOk(g: map<nat, Node>, m: Names, q: Path, x: string, k: nat, r: Path)
    requires Leaf(g, m, q, x, k) && r in m && r != q + [x]
    ensures DirOk(RemoveNode(g, m[q], k, m[q + [x]]), m - {q + [x]}, r)
  {
    var g', m' := RemoveNode(g, m[q], k, m[q + [x]]), m - {q + [x]};
    assert DirOk(g, m, r) && m'[r] == m[r] && m[r] != m[q + [x]];
    if g[m[r]].Dir? {
      var es' := g'[m'[r]].entries;
      assert es' == if r == q then Without(g[m[r]].entries, k) else g[m[r]].entries;
      forall j | 2 <= j < |es'|
        ensures SlotOk(es', m', r, j)
      {
        RemoveSlotOk(g, m, q, x, k, r, j);
      }
    }
  }

  /** Taking out a file or an empty directory removes exactly one path. */
  lemma RemoveSpells(g: map<nat, Node>, m: Names, q: Path, x: string, k: nat)
    requires Leaf(g, m, q, x, k)
    ensures Spells(RemoveNode(g, m[q], k, m[q + [x]]), m - {q + [x]})
  {
    var g', m' := RemoveNode(g, m[q], k, m[q + [x]]), m - {q + [x]};
    RemoveKeys(g, m, q, x, k);
    assert m[q] in g && m[q + [x]] in g;
    LeafHasNothingBelow(g, m, q, x, k, q + [x]);
    assert g'.Keys == m'.Values;
    forall r | r in m'
      ensures PathOk(g', m', r) && DirOk(g', m', r)
    {
      RemovePathOk(g, m, q, x, k, r);
      RemoveDirOk(g, m, q, x, k, r);
    }
  }

  // ---- Where ".." leads ----

  lemma AddDotDots(g: map<nat, Node>, m: Names, q: Path, x: string, n: nat, node: Node)
    requires Addable(g, m, q, x, n, node) && DotDots(g, m)
    ensures DotDots(AddNode(g, m[q], x, n, node), m[q + [x] := n])
  {
    var g', m' := AddNode(g, m[q], x, n, node), m[q + [x] := n];
    forall r | r in m'
      ensures DotDot(g', m', r)
    {
      if r in m {
        assert DotDot(g, m, r) && DirOk(g, m, r) && PathOk(g, m, r);
        assert r != q + [x] && m[r] != n;
      } else {
        assert Init(r) == q;
      }
    }
  }

  lemma RemoveDotDots(g: map<nat, Node>, m: Names, q: Path, x: string, k: nat)
    requires Leaf(g, m, q, x, k) && DotDots(g, m)
    ensures DotDots(RemoveNode(g, m[q], k, m[q + [x]]), m - {q + [x]})
  {
    var g', m' := RemoveNode(g, m[q], k, m[q + [x]]), m - {q + [x]};
    forall r | r in m'
      ensures DotDot(g', m', r)
    {
      assert DotDot(g, m, r) && DirOk(g, m, r) && PathOk(g, m, r);
      if r != [] {
        LeafHasNothingBelow(g, m, q, x, k, r);
      }
    }
  }
}
