/** What a rename does to the name map: one subtree changes its prefix. */
module MoveTree {
  import opened Disk
  import opened Storage
  import opened Tree

  /** The path r after `from` became `to`. */
  function Rebase(from: Path, to: Path, r: Path): Path {
    if from <= r then to + r[|from|..] else r
  }

  /** Nothing is listed at or below `to`. */
  ghost predicate Vacant(m: Names, to: Path) {
    forall r {:trigger r in m} :: r in m ==> !(to <= r)
  }

  /** Rebasing back gives the old path. */
  lemma RebaseBack(from: Path, to: Path, r: Path)
    requires !(to <= r)
    ensures Rebase(to, from, Rebase(from, to, r)) == r
  {
    var s := Rebase(from, to, r);
    if from <= r {
      assert s[|to|..] == r[|from|..];
      assert r == from + r[|from|..];
    }
  }

  /** Every listed path with its prefix `from` replaced by `to`. */
  ghost function Moved(m: Names, from: Path, to: Path): Names
    requires Vacant(m, to)
  {
    map s | s in (set r | r in m :: Rebase(from, to, r)) && Rebase(to, from, s) in m :: m[Rebase(to, from, s)]
  }

  lemma MovedAt(m: Names, from: Path, to: Path, r: Path)
    requires Vacant(m, to) && r in m
    ensures Rebase(from, to, r) in Moved(m, from, to) && Moved(m, from, to)[Rebase(from, to, r)] == m[r]
  {
    RebaseBack(from, to, r);
  }

  /** The path that s was before. */
  lemma MovedFrom(m: Names, from: Path, to: Path, s: Path) returns (r: Path)
    requires Vacant(m, to) && s in Moved(m, from, to)
    ensures r in m && s == Rebase(from, to, r) && Moved(m, from, to)[s] == m[r] && r == Rebase(to, from, s)
  {
    r :| r in m && s == Rebase(from, to, r);
    RebaseBack(from, to, r);
  }

  lemma MovedKeys(m: Names, from: Path, to: Path)
    requires Vacant(m, to) && Injective(m)
    ensures Moved(m, from, to).Values == m.Values && Injective(Moved(m, from, to))
  {
    var m' := Moved(m, from, to);
    forall i | i in m.Values
      ensures i in m'.Values
    {
      var r :| r in m && m[r] == i;
      MovedAt(m, from, to, r);
    }
    forall s, t | s in m' && t in m' && m'[s] == m'[t]
      ensures s == t
    {
      var r0 := MovedFrom(m, from, to, s);
      var r1 := MovedFrom(m, from, to, t);
    }
  }

  // ---- The graph side ----

  function MoveNode(g: map<nat, Node>, p: nat, k: nat, p2: nat, c: nat, y: string): map<nat, Node>
    requires p in g && g[p].Dir? && p2 in g && g[p2].Dir?
  {
    g[p := Dir(Without(g[p].entries, k))][p2 := Dir(g[p2].entries + [Dentry(c, y)])]
  }

  /** Slot k of the directory at q names x; y is free in another directory, which is not inside the moved tree. */
  ghost predicate Relocatable(g: map<nat, Node>, m: Names, q: Path, x: string, k: nat, q2: Path, y: string) {
    && Spells(g, m) && q in m && g[m[q]].Dir? && Plain(x) && q + [x] in m
    && Names?(g[m[q]].entries, k, x, m[q + [x]])
    && q2 in m && g[m[q2]].Dir? && Plain(y) && Fits(y) && q2 + [y] !in m
    && q != q2 && !(q + [x] <= q2)
  }

  lemma {:induction false} AncestorListed(g: map<nat, Node>, m: Names, r: Path, n: nat)
    requires Spells(g, m) && r in m && n <= |r|
    ensures r[..n] in m
    decreases |r|
  {
    if n < |r| {
      assert PathOk(g, m, r);
      AncestorListed(g, m, Init(r), n);
      assert Init(r)[..n] == r[..n];
    } else {
      assert r[..n] == r;
    }
  }

  lemma AbsentIsVacant(g: map<nat, Node>, m: Names, to: Path)
    requires Spells(g, m) && to !in m
    ensures Vacant(m, to)
  {
    forall r | r in m
      ensures !(to <= r)
    {
      if |to| <= |r| {
        var above := r[..|to|];
        AncestorListed(g, m, r, |to|);
        assert to <= r <==> above == to;
      }
    }
  }

  /** How paths with one more name rebase: only the moved entry itself changes parents. */
  lemma RebaseChild(q: Path, x: string, q2: Path, y: string, r: Path, z: string)
    ensures var from, to := q + [x], q2 + [y];
            Rebase(from, to, r + [z]) == if r == q && z == x then to else Rebase(from, to, r) + [z]
  {
    var from, to := q + [x], q2 + [y];
    if from <= r {
      assert (r + [z])[|from|..] == r[|from|..] + [z];
    } else if from <= r + [z] {
      assert from == r + [z];
      assert Init(from) == q && Init(r + [z]) == r;
      assert (r + [z])[|from|..] == [];
    }
  }

  /** An entry other than the moved one is still in its directory. */
  lemma MovedEntry(g: map<nat, Node>, m: Names, q: Path, x: string, k: nat, q2: Path, y: string, up: Path, j: nat)
    requires Relocatable(g, m, q, x, k, q2, y) && up in m && g[m[up]].Dir?
    requires 2 <= j < |g[m[up]].entries| && !(up == q && j == k)
    ensures var g' := MoveNode(g, m[q], k, m[q2], m[q + [x]], y);
            var j' := if up == q && j > k then j - 1 else j;
            g'[m[up]].Dir? && 2 <= j' < |g'[m[up]].entries| && g'[m[up]].entries[j'] == g[m[up]].entries[j]
  {
    assert m[up] == m[q] <==> up == q;
    assert m[up] == m[q2] <==> up == q2;
  }

  /** The moved path hangs off its new parent. */
  lemma MovedPathOk(g: map<nat, Node>, m: Names, q: Path, x: string, k: nat, q2: Path, y: string)
    requires Relocatable(g, m, q, x, k, q2, y) && Vacant(m, q2 + [y])
    ensures PathOk(MoveNode(g, m[q], k, m[q2], m[q + [x]], y), Moved(m, q + [x], q2 + [y]), q2 + [y])
  {
    var from, to := q + [x], q2 + [y];
    var g', m' := MoveNode(g, m[q], k, m[q2], m[from], y), Moved(m, from, to);
    assert Rebase(from, to, from) == to && Rebase(from, to, q2) == q2;
    MovedAt(m, from, to, from);
    MovedAt(m, from, to, q2);
    assert Init(to) == q2 && Last(to) == y;
    assert DirOk(g, m, q2);
    assert Names?(g'[m'[q2]].entries, |g[m[q2]].entries|, y, m'[to]);
  }

  /** Every other path hangs off what its parent became. */
  lemma OtherPathOk(g: map<nat, Node>, m: Names, q: Path, x: string, k: nat, q2: Path, y: string, up: Path, z: string)
    requires Relocatable(g, m, q, x, k, q2, y) && Vacant(m, q2 + [y])
    requires up + [z] in m && up + [z] != q + [x]
    ensures PathOk(MoveNode(g, m[q], k, m[q2], m[q + [x]], y), Moved(m, q + [x], q2 + [y]),
                   Rebase(q + [x], q2 + [y], up + [z]))
  {
    var from, to, r := q + [x], q2 + [y], up + [z];
    var g', m' := MoveNode(g, m[q], k, m[q2], m[from], y), Moved(m, from, to);
    assert PathOk(g, m, r) && Init(r) == up && Last(r) == z;
    RebaseChild(q, x, q2, y, up, z);
    var s := Rebase(from, to, up) + [z];
    assert Init(s) == Rebase(from, to, up) && Last(s) == z;
    MovedAt(m, from, to, r);
    MovedAt(m, from, to, up);
    var j :| Names?(g[m[up]].entries, j, z, m[r]);
    MovedEntry(g, m, q, x, k, q2, y, up, j);
    assert Names?(g'[m'[Init(s)]].entries, if up == q && j > k then j - 1 else j, Last(s), m'[s]);
  }

  lemma MoveSlotOk(g: map<nat, Node>, m: Names, q: Path, x: string, k: nat, q2: Path, y: string, r: Path, j: nat)
    requires Relocatable(g, m, q, x, k, q2, y) && Vacant(m, q2 + [y]) && r in m && g[m[r]].Dir?
    requires 2 <= j < |g[m[r]].entries| && !(r == q && j == k)
    ensures var es, j' := MoveNode(g, m[q], k, m[q2], m[q + [x]], y)[m[r]], if r == q && j > k then j - 1 else j;
            es.Dir? && j' < |es.entries| &&
            SlotOk(es.entries, Moved(m, q + [x], q2 + [y]), Rebase(q + [x], q2 + [y], r), j')
  {
    var from, to := q + [x], q2 + [y];
    var m', s := Moved(m, from, to), Rebase(from, to, r);
    var es, es' := g[m[r]].entries, MoveNode(g, m[q], k, m[q2], m[from], y)[m[r]].entries;
    assert DirOk(g, m, r) && SlotOk(es, m, r, j);
    assert r == q ==> SlotOk(es, m, r, k);
    MovedEntry(g, m, q, x, k, q2, y, r, j);
    RebaseChild(q, x, q2, y, r, es[j].name);
    MovedAt(m, from, to, r + [es[j].name]);
    MovedNameOnce(g, m, q, x, k, q2, y, r, j);
  }

  /** No other slot of a directory carries the name of its slot j after the move. */
  lemma MovedNameOnce(g: map<nat, Node>, m: Names, q: Path, x: string, k: nat, q2: Path, y: string, r: Path, j: nat)
    requires Relocatable(g, m, q, x, k, q2, y) && Vacant(m, q2 + [y]) && r in m && g[m[r]].Dir?
    requires 2 <= j < |g[m[r]].entries| && !(r == q && j == k)
    ensures var es, es' := g[m[r]].entries, MoveNode(g, m[q], k, m[q2], m[q + [x]], y)[m[r]];
            var j' := if r == q && j > k then j - 1 else j;
            es'.Dir? && forall i' :: 2 <= i' < |es'.entries| && i' != j' ==> NameOf(es'.entries[i']) != NameOf(es[j])
  {
    var es, es' := g[m[r]].entries, MoveNode(g, m[q], k, m[q2], m[q + [x]], y)[m[r]].entries;
    var j' := if r == q && j > k then j - 1 else j;
    assert DirOk(g, m, r) && SlotOk(es, m, r, j);
    assert m[r] == m[q] <==> r == q;
    assert m[r] == m[q2] <==> r == q2;
    LookupSpells(g, m, q2, y);
    forall i' | 2 <= i' < |es'| && i' != j'
      ensures NameOf(es'[i']) != NameOf(es[j])
    {
      if r == q2 && i' == |es| {
        assert NameOf(es[j]) != y;
      } else {
        var i := if r == q && i' >= k then i' + 1 else i';
        assert es'[i'] == es[i] && i != j;
      }
    }
  }

  lemma NewSlotOk(g: map<nat, Node>, m: Names, q: Path, x: string, k: nat, q2: Path, y: string)
    requires Relocatable(g, m, q, x, k, q2, y) && Vacant(m, q2 + [y])
    ensures var es := g[m[q2]].entries;
            SlotOk(es + [Dentry(m[q + [x]], y)], Moved(m, q + [x], q2 + [y]), q2, |es|)
  {
    var from, to, es := q + [x], q2 + [y], g[m[q2]].entries;
    assert Rebase(from, to, from) == to;
    MovedAt(m, from, to, from);
    LookupSpells(g, m, q2, y);
    forall j | 0 <= j < |es|
      ensures NameOf((es + [Dentry(m[from], y)])[j]) != y
    {
      assert NameOf(es[j]) != y;
    }
  }

  lemma MoveDirOk(g: map<nat, Node>, m: Names, q: Path, x: string, k: nat, q2: Path, y: string, r: Path)
    requires Relocatable(g, m, q, x, k, q2, y) && Vacant(m, q2 + [y]) && r in m
    ensures DirOk(MoveNode(g, m[q], k, m[q2], m[q + [x]], y), Moved(m, q + [x], q2 + [y]), Rebase(q + [x], q2 + [y], r))
  {
    var from, to := q + [x], q2 + [y];
    var g', m', s := MoveNode(g, m[q], k, m[q2], m[from], y), Moved(m, from, to), Rebase(from, to, r);
    MovedAt(m, from, to, r);
    assert DirOk(g, m, r);
    assert m[r] == m[q] <==> r == q;
    assert m[r] == m[q2] <==> r == q2;
    assert r == q2 ==> s == q2;
    if g[m[r]].Dir? {
      var es, es' := g[m[r]].entries, g'[m[r]].entries;
      assert es' == if r == q then Without(es, k) else if r == q2 then es + [Dentry(m[from], y)] else es;
      forall j' | 2 <= j' < |es'|
        ensures SlotOk(es', m', s, j')
      {
        if r == q2 && j' == |es| {
          NewSlotOk(g, m, q, x, k, q2, y);
        } else {
          MoveSlotOk(g, m, q, x, k, q2, y, r, if r == q && j' >= k then j' + 1 else j');
        }
      }
    }
  }

  lemma MovePathOk(g: map<nat, Node>, m: Names, q: Path, x: string, k: nat, q2: Path, y: string, r: Path)
    requires Relocatable(g, m, q, x, k, q2, y) && Vacant(m, q2 + [y]) && r in m
    ensures PathOk(MoveNode(g, m[q], k, m[q2], m[q + [x]], y), Moved(m, q + [x], q2 + [y]),
                   Rebase(q + [x], q2 + [y], r))
  {
    if r == q + [x] {
      assert Rebase(q + [x], q2 + [y], r) == q2 + [y];
      MovedPathOk(g, m, q, x, k, q2, y);
    } else if r != [] {
      assert r == Init(r) + [Last(r)];
      OtherPathOk(g, m, q, x, k, q2, y, Init(r), Last(r));
    }
  }

  lemma MoveRoot(m: Names, from: Path, to: Path)
    requires Vacant(m, to) && [] in m && from != []
    ensures [] in Moved(m, from, to) && Moved(m, from, to)[[]] == m[[]]
  {
    MovedAt(m, from, to, []);
  }

  lemma MoveNodeKinds(g: map<nat, Node>, p: nat, k: nat, p2: nat, c: nat, y: string)
    requires p in g && g[p].Dir? && p2 in g && g[p2].Dir?
    ensures var g' := MoveNode(g, p, k, p2, c, y);
            g'.Keys == g.Keys && forall i {:trigger g'[i]} :: i in g ==> g'[i].Dir? == g[i].Dir?
  {
  }

  lemma MoveLinks(g: map<nat, Node>, m: Names, q: Path, x: string, k: nat, q2: Path, y: string, s: Path)
    requires Relocatable(g, m, q, x, k, q2, y) && Vacant(m, q2 + [y]) && s in Moved(m, q + [x], q2 + [y])
    ensures var g', m' := MoveNode(g, m[q], k, m[q2], m[q + [x]], y), Moved(m, q + [x], q2 + [y]);
            PathOk(g', m', s) && DirOk(g', m', s)
  {
    var r := MovedFrom(m, q + [x], q2 + [y], s);
    MoveDirOk(g, m, q, x, k, q2, y, r);
    MovePathOk(g, m, q, x, k, q2, y, r);
  }

  /** A rename into another directory, outside the moved tree, moves exactly the paths below the source. */
  lemma MoveSpells(g: map<nat, Node>, m: Names, q: Path, x: string, k: nat, q2: Path, y: string)
    requires Relocatable(g, m, q, x, k, q2, y)
    ensures Vacant(m, q2 + [y])
    ensures Spells(MoveNode(g, m[q], k, m[q2], m[q + [x]], y), Moved(m, q + [x], q2 + [y]))
  {
    var from, to := q + [x], q2 + [y];
    AbsentIsVacant(g, m, to);
    var g', m' := MoveNode(g, m[q], k, m[q2], m[from], y), Moved(m, from, to);
    MovedKeys(m, from, to);
    MoveRoot(m, from, to);
    MoveNodeKinds(g, m[q], k, m[q2], m[from], y);
    forall s | s in m'
      ensures PathOk(g', m', s) && DirOk(g', m', s)
    {
      MoveLinks(g, m, q, x, k, q2, y, s);
    }
  }

  /** The ".." entries still name the parents exactly when what moved is a file: nothing rewrites them. */
  lemma MoveDotDots(g: map<nat, Node>, m: Names, q: Path, x: string, k: nat, q2: Path, y: string)
    requires Relocatable(g, m, q, x, k, q2, y) && DotDots(g, m) && Vacant(m, q2 + [y])
    ensures DotDots(MoveNode(g, m[q], k, m[q2], m[q + [x]], y), Moved(m, q + [x], q2 + [y])) <==> g[m[q + [x]]].File?
  {
    hide Vacant;
    var from, to := q + [x], q2 + [y];
    var g', m' := MoveNode(g, m[q], k, m[q2], m[from], y), Moved(m, from, to);
    assert m[from] in g && Init(from) == q && Init(to) == q2;
    assert Rebase(from, to, from) == to && Rebase(from, to, q2) == q2;
    MovedAt(m, from, to, from);
    MovedAt(m, from, to, q2);
    assert |from| > |q| && from != q2;
    if g[m[from]].Dir? {
      assert DotDot(g, m, from);
      assert !DotDot(g', m', to);
    } else {
      forall s | s in m'
        ensures DotDot(g', m', s)
      {
        var r := MovedFrom(m, from, to, s);
        StaysBelow(g, m, q, x, k, q2, y, r);
      }
    }
  }

  lemma StaysBelow(g: map<nat, Node>, m: Names, q: Path, x: string, k: nat, q2: Path, y: string, r: Path)
    requires Relocatable(g, m, q, x, k, q2, y) && DotDots(g, m) && Vacant(m, q2 + [y])
    requires r in m && (r == q + [x] ==> g[m[r]].File?)
    ensures DotDot(MoveNode(g, m[q], k, m[q2], m[q + [x]], y), Moved(m, q + [x], q2 + [y]),
                   Rebase(q + [x], q2 + [y], r))
  {
    var from, to := q + [x], q2 + [y];
    MovedAt(m, from, to, r);
    assert DotDot(g, m, r) && DirOk(g, m, r);
    assert m[r] == m[q] <==> r == q;
    assert m[r] == m[q2] <==> r == q2;
    if r != [] && r != from {
      ParentOfOther(g, m, q, x, q2, y, r);
    }
  }

  /** What is not the moved entry itself goes where its parent goes. */
  lemma ParentOfOther(g: map<nat, Node>, m: Names, q: Path, x: string, q2: Path, y: string, r: Path)
    requires Spells(g, m) && Vacant(m, q2 + [y]) && r in m && r != [] && r != q + [x]
    ensures var s, m' := Rebase(q + [x], q2 + [y], r), Moved(m, q + [x], q2 + [y]);
            s != [] && Init(r) in m && Init(s) in m' && m'[Init(s)] == m[Init(r)]
  {
    var from, to, up := q + [x], q2 + [y], Init(r);
    assert PathOk(g, m, r);
    assert r == up + [Last(r)];
    RebaseChild(q, x, q2, y, up, Last(r));
    MovedAt(m, from, to, up);
    assert Init(Rebase(from, to, r)) == Rebase(from, to, up);
  }
}
