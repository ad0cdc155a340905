/** Absolute paths: splitting into component names, the parent path and the last component. */
module Paths {

  datatype Option<+T> = None | Some(value: T)

  /** A component as it can occur in a path. */
  predicate IsName(x: string) {
    x != "" && '/' !in x && '\0' !in x
  }

  ghost predicate AllNames(names: seq<string>) {
    forall i :: 0 <= i < |names| ==> IsName(names[i])
  }

  /** An absolute path: one '/' before each component, none after the last, "/" for the root. */
  ghost predicate WellFormed(path: string) {
    && |path| > 0 && path[0] == '/' && '\0' !in path
    && (|path| > 1 ==> path[|path| - 1] != '/')
    && forall i :: 0 < i < |path| ==> !DoubleSlash(path, i)
  }

  predicate DoubleSlash(path: string, i: int)
    requires 0 < i < |path|
  {
    path[i - 1] == '/' && path[i] == '/'
  }

  /** Each name with a '/' before it. */
  function Join(names: seq<string>): string {
    if names == [] then "" else "/" + names[0] + Join(names[1..])
  }

  /** The path that consists of the given components. */
  function Render(names: seq<string>): string {
    if names == [] then "/" else Join(names)
  }

  // ---- strtok(path, "/") ----

  function SkipSlashes(s: string, i: nat): (b: nat)
    requires i <= |s|
    ensures i <= b <= |s| && (b < |s| ==> s[b] != '/')
    decreases |s| - i
  {
    if i < |s| && s[i] == '/' then SkipSlashes(s, i + 1) else i
  }

  function NameEnd(s: string, i: nat): (e: nat)
    requires i <= |s|
    ensures i <= e <= |s| && (e < |s| ==> s[e] == '/') && '/' !in s[i..e]
    decreases |s| - i
  {
    if i < |s| && s[i] != '/' then NameEnd(s, i + 1) else i
  }

  /** What successive calls of strtok return when the scan stands at i. */
  function TokensFrom(s: string, i: nat): seq<string>
    requires i <= |s|
    decreases |s| - i
  {
    var b := SkipSlashes(s, i);
    if b == |s| then [] else [s[b..NameEnd(s, b)]] + TokensFrom(s, NameEnd(s, b))
  }

  function Tokens(s: string): seq<string> {
    TokensFrom(s, 0)
  }

  /** One call of strtok: the next name, if any, and where the next call resumes. */
  method StrTok(s: string, pos: nat) returns (tok: Option<string>, next: nat)
    requires pos <= |s|
    ensures next <= |s|
    ensures tok == None <==> TokensFrom(s, pos) == []
    ensures tok.Some? ==> TokensFrom(s, pos) == [tok.value] + TokensFrom(s, next) && pos < next
  {
    var b := pos;
    while b < |s| && s[b] == '/'
      invariant pos <= b <= |s| && SkipSlashes(s, pos) == SkipSlashes(s, b)
    {
      b := b + 1;
    }
    if b == |s| {
      return None, b;
    }
    var e := b;
    while e < |s| && s[e] != '/'
      invariant b <= e <= |s| && NameEnd(s, b) == NameEnd(s, e)
    {
      e := e + 1;
    }
    return Some(s[b..e]), e;
  }

  // ---- Tokens and Render are inverse ----

  lemma {:induction false} JoinAppend(a: seq<string>, b: seq<string>)
    ensures Join(a + b) == Join(a) + Join(b)
  {
    if a == [] {
      assert a + b == b;
    } else {
      JoinAppend(a[1..], b);
      assert (a + b)[1..] == a[1..] + b;
    }
  }

  /** At a '/' of a well-formed path the next token is the non-empty run that follows it. */
  lemma TokenAtSlash(path: string, i: nat)
    requires WellFormed(path) && i + 1 < |path| && path[i] == '/'
    ensures SkipSlashes(path, i) == i + 1 && IsName(path[i + 1..NameEnd(path, i + 1)])
    ensures NameEnd(path, i + 1) < |path| ==> NameEnd(path, i + 1) + 1 < |path|
  {
    assert !DoubleSlash(path, i + 1);
    var e := NameEnd(path, i + 1);
    assert e != i + 1;
    assert forall c :: c in path[i + 1..e] ==> c in path;
  }

  /** From a '/' or the end of a well-formed path, the names found there spell out the rest. */
  lemma {:induction false} JoinTokensFrom(path: string, i: nat)
    requires WellFormed(path) && i <= |path| && (i < |path| ==> path[i] == '/' && i + 1 < |path|)
    ensures Join(TokensFrom(path, i)) == path[i..] && AllNames(TokensFrom(path, i))
    decreases |path| - i
  {
    hide NameEnd;
    if i < |path| {
      TokenAtSlash(path, i);
      var e := NameEnd(path, i + 1);
      JoinTokensFrom(path, e);
      assert path[i..] == "/" + path[i + 1..e] + path[e..];
    }
  }

  /** Splitting then rendering gives the path back. */
  lemma RenderTokens(path: string)
    requires WellFormed(path)
    ensures Render(Tokens(path)) == path && AllNames(Tokens(path))
  {
    if |path| == 1 {
      assert path == "/";
      assert SkipSlashes(path, 0) == SkipSlashes(path, 1) == 1;
    } else {
      JoinTokensFrom(path, 0);
    }
  }

  /** One name, behind a prefix and before a '/' or the end, is the next token. */
  lemma NextToken(before: string, x: string, rest: string)
    requires IsName(x) && (rest != "" ==> rest[0] == '/')
    ensures TokensFrom(before + "/" + x + rest, |before|) ==
            [x] + TokensFrom(before + "/" + x + rest, |before + "/" + x|)
  {
    var s := before + "/" + x + rest;
    var b := |before| + 1;
    assert s[b - 1] == '/' && s[b] == x[0] && x[0] in x;
    assert SkipSlashes(s, |before|) == SkipSlashes(s, b) == b;
    assert s[b..b + |x|] == x;
    NameEndAt(s, b, b + |x|);
  }

  /** Rendering then splitting gives the names back, at any offset behind a prefix. */
  lemma {:induction false} TokensAfter(before: string, names: seq<string>)
    requires AllNames(names)
    ensures TokensFrom(before + Join(names), |before|) == names
    decreases |names|
  {
    hide NameEnd;
    if names != [] {
      var x, rest := names[0], Join(names[1..]);
      NextToken(before, x, rest);
      assert before + Join(names) == before + "/" + x + rest;
      TokensAfter(before + "/" + x, names[1..]);
    }
  }

  lemma {:induction false} NameEndAt(s: string, b: nat, e: nat)
    requires b <= e <= |s| && '/' !in s[b..e] && (e < |s| ==> s[e] == '/')
    ensures NameEnd(s, b) == e
    decreases e - b
  {
    if b < e {
      assert s[b] in s[b..e];
      assert forall c :: c in s[b + 1..e] ==> c in s[b..e];
      NameEndAt(s, b + 1, e);
    }
  }

  lemma TokensRender(names: seq<string>)
    requires AllNames(names)
    ensures Tokens(Render(names)) == names
  {
    if names == [] {
      assert SkipSlashes("/", 0) == SkipSlashes("/", 1) == 1;
    } else {
      TokensAfter("", names);
      assert "" + Join(names) == Join(names);
    }
  }

  /** Putting one more name in front keeps a well-formed tail well formed. */
  lemma ConsWellFormed(x: string, rest: string)
    requires IsName(x) && (rest == "" || (WellFormed(rest) && |rest| > 1))
    ensures WellFormed("/" + x + rest)
  {
    var s := "/" + x + rest;
    assert x[0] in x && x[|x| - 1] in x;
    assert forall c :: c in s <==> c == '/' || c in x || c in rest;
    forall i | 0 < i < |s|
      ensures !DoubleSlash(s, i)
    {
      assert i <= |x| ==> s[i] == x[i - 1];
      assert 1 < i <= |x| + 1 ==> s[i - 1] == x[i - 2];
      if i > |x| + 1 {
        assert DoubleSlash(s, i) == DoubleSlash(rest, i - |x| - 1);
      }
    }
  }

  lemma {:induction false} JoinWellFormed(names: seq<string>)
    requires AllNames(names) && names != []
    ensures WellFormed(Join(names)) && |Join(names)| > 1
    decreases |names|
  {
    if names[1..] != [] {
      JoinWellFormed(names[1..]);
    }
    ConsWellFormed(names[0], Join(names[1..]));
  }

  lemma RenderWellFormed(names: seq<string>)
    requires AllNames(names)
    ensures WellFormed(Render(names))
  {
    if names != [] {
      JoinWellFormed(names);
    }
  }

  // ---- Slash counting ----

  function Slashes(s: string): (n: nat) {
    if s == "" then 0 else Slashes(s[..|s| - 1]) + if s[|s| - 1] == '/' then 1 else 0
  }

  lemma {:induction false} SlashesAppend(s: string, t: string)
    ensures Slashes(s + t) == Slashes(s) + Slashes(t)
    decreases |t|
  {
    if t == "" {
      assert s + t == s;
    } else {
      SlashesAppend(s, t[..|t| - 1]);
      assert (s + t)[..|s + t| - 1] == s + t[..|t| - 1];
    }
  }

  lemma SlashesStep(s: string, i: nat)
    requires i < |s|
    ensures Slashes(s[..i + 1]) == Slashes(s[..i]) + if s[i] == '/' then 1 else 0
  {
    assert s[..i + 1][..i] == s[..i];
  }

  lemma {:induction false} NoSlashes(s: string)
    requires '/' !in s
    ensures Slashes(s) == 0
  {
    if s != "" {
      NoSlashes(s[..|s| - 1]);
    }
  }

  lemma {:induction false} SlashesJoin(names: seq<string>)
    requires AllNames(names)
    ensures Slashes(Join(names)) == |names|
  {
    if names != [] {
      assert AllNames(names[1..]);
      SlashesJoin(names[1..]);
      NoSlashes(names[0]);
      SlashesAppend("/" + names[0], Join(names[1..]));
      SlashesAppend("/", names[0]);
      assert Slashes("/") == 1;
    }
  }

  /** The position of the '/' before the last component. */
  ghost function LastSlash(path: string): nat
    requires WellFormed(path) && Tokens(path) != []
  {
    var names := Tokens(path);
    |Join(names[..|names| - 1])|
  }

  lemma SplitAtLastSlash(path: string)
    requires WellFormed(path) && Tokens(path) != []
    ensures var names, k := Tokens(path), LastSlash(path);
            && k < |path| && path[k] == '/'
            && path[..k] == Join(names[..|names| - 1])
            && path[k + 1..] == names[|names| - 1]
            && Slashes(path) == |names|
  {
    var names := Tokens(path);
    RenderTokens(path);
    var init, last := names[..|names| - 1], names[|names| - 1];
    assert names == init + [last];
    JoinAppend(init, [last]);
    assert Join([last]) == "/" + last + "";
    assert path == Join(init) + "/" + last;
    SlashesJoin(names);
  }

  /** A counting scan reaches the number of components exactly at the last '/'. */
  lemma CountReachesTotalAtLastSlash(path: string, i: nat)
    requires WellFormed(path) && Tokens(path) != [] && i <= |path|
    ensures Slashes(path[..i]) == |Tokens(path)| <==> i > LastSlash(path)
  {
    hide Slashes;
    var names, k := Tokens(path), LastSlash(path);
    SplitAtLastSlash(path);
    RenderTokens(path);
    SlashesJoin(names[..|names| - 1]);
    if i > k {
      SlashesBehind(path, k, i);
    } else {
      assert path[..k] == path[..i] + path[i..k];
      SlashesAppend(path[..i], path[i..k]);
    }
  }

  lemma SlashesBehind(s: string, k: nat, i: nat)
    requires k < i <= |s| && s[k] == '/' && '/' !in s[k + 1..]
    ensures Slashes(s[..i]) == Slashes(s[..k]) + 1
  {
    var t := s[k + 1..i];
    assert forall c :: c in t ==> c in s[k + 1..];
    NoSlashes(t);
    SlashesAppend(s[..k + 1], t);
    assert s[..i] == s[..k + 1] + t;
    assert s[..k + 1][..k] == s[..k];
  }

  // ---- The C functions ----

  method NumEntryName(path: string) returns (count: nat)
    requires WellFormed(path)
    ensures count == |Tokens(path)|
  {
    RenderTokens(path);
    if |path| <= 1 {
      assert path == "/";
      TokensRender([]);
      return 0;
    }
    SlashesJoin(Tokens(path));
    assert path[..1] == "/" && Slashes("/") == 1;
    count := 1;
    for i := 1 to |path|
      invariant count == Slashes(path[..i])
    {
      SlashesStep(path, i);
      if path[i] == '/' {
        count := count + 1;
      }
    }
    assert path[..|path|] == path;
    assert Tokens(path) != [];
  }

  /** The C string held in a buffer: everything before the first NUL. */
  function CString(buffer: seq<char>): string {
    if buffer == [] || buffer[0] == '\0' then "" else [buffer[0]] + CString(buffer[1..])
  }

  lemma {:induction false} CStringIs(buffer: seq<char>, x: string)
    requires '\0' !in x && |x| < |buffer| && buffer[|x|] == '\0'
    requires forall t :: 0 <= t < |x| ==> buffer[t] == x[t]
    ensures CString(buffer) == x
  {
    if x != "" {
      CStringIs(buffer[1..], x[1..]);
    }
  }

  /** What a scan of the path that counts '/' characters relies on. */
  lemma ScanFacts(path: string) returns (total: nat, k: nat)
    requires WellFormed(path)
    ensures total == |Tokens(path)| && '\0' !in path && |path| > 0
    ensures total == 0 ==> path == "/" && k == 0
    ensures total == 1 ==> |path| > 1
    ensures total > 0 ==> k < |path| && path[..k] == Join(Tokens(path)[..total - 1])
                          && path[k + 1..] == Tokens(path)[total - 1] && k + 1 < |path|
    ensures total > 0 ==> forall i :: 0 <= i <= |path| ==> (Slashes(path[..i]) == total <==> i > k)
  {
    RenderTokens(path);
    total, k := |Tokens(path)|, 0;
    if total > 0 {
      k := LastSlash(path);
      SplitAtLastSlash(path);
      forall i: nat | i <= |path|
        ensures Slashes(path[..i]) == total <==> i > k
      {
        CountReachesTotalAtLastSlash(path, i);
      }
    }
  }

  /** Writes the parent path; 1 says that the path is the root and has no parent. */
  method GetParentPath(path: string, parent: array<char>) returns (ret: int)
    requires WellFormed(path) && parent.Length >= |path| + 1
    modifies parent
    ensures Tokens(path) == [] ==> ret == 1
    ensures Tokens(path) != [] ==>
              ret == 0 && CString(parent[..]) == Render(Tokens(path)[..|Tokens(path)| - 1])
    ensures forall t :: |path| < t < parent.Length ==> parent[t] == old(parent[t])
  {
    hide Tokens;
    var total := NumEntryName(path);
    ghost var _, k := ScanFacts(path);
    if total == 1 {
      parent[0] := '/';
      parent[1] := '\0';
      CStringIs(parent[..], "/");
      return 0;
    }
    var count := 0;
    for i := 0 to |path|
      invariant count == Slashes(path[..i])
      invariant forall t :: 0 <= t < i ==> parent[t] == path[t]
      invariant total != 0 ==> i <= k
      invariant forall t :: |path| < t < parent.Length ==> parent[t] == old(parent[t])
    {
      SlashesStep(path, i);
      if path[i] == '/' {
        count := count + 1;
      }
      if count == total {
        parent[i] := '\0';
        CStringIs(parent[..], path[..i]);
        return 0;
      }
      parent[i] := path[i];
    }
    return 1;
  }

  /** Writes the last component; for the root the buffer is left alone. */
  method GetLastEntry(path: string, last: array<char>)
    requires WellFormed(path) && last.Length >= |path| + 1
    modifies last
    ensures Tokens(path) == [] ==> forall t :: 0 <= t < last.Length ==> last[t] == old(last[t])
    ensures Tokens(path) != [] ==> CString(last[..]) == Tokens(path)[|Tokens(path)| - 1]
    ensures forall t :: |path| < t < last.Length ==> last[t] == old(last[t])
  {
    hide Tokens;
    var total := NumEntryName(path);
    ghost var _, k := ScanFacts(path);
    var count, j := 0, 0;
    var flag := false;
    for i := 0 to |path|
      invariant count == Slashes(path[..i])
      invariant flag == (total != 0 && i > k)
      invariant j == if flag then i - k - 1 else 0
      invariant forall t :: 0 <= t < j ==> last[t] == path[k + 1 + t]
      invariant j > 0 ==> last[j] == '\0'
      invariant forall t :: (if flag then |path| + 1 else 0) <= t < last.Length ==> last[t] == old(last[t])
    {
      SlashesStep(path, i);
      if path[i] == '/' {
        count := count + 1;
      }
      if flag {
        last[j] := path[i];
        last[j + 1] := '\0';
        j := j + 1;
      }
      if count == total {
        flag := true;
      }
    }
    if flag {
      LastNameCopied(path, k, last[..]);
    }
  }

  lemma LastNameCopied(path: string, k: nat, buffer: seq<char>)
    requires '\0' !in path && k + 1 < |path| < |buffer| && buffer[|path| - k - 1] == '\0'
    requires forall t :: 0 <= t < |path| - k - 1 ==> buffer[t] == path[k + 1 + t]
    ensures CString(buffer) == path[k + 1..]
  {
    CStringIs(buffer, path[k + 1..]);
  }

  /** The parent, a separator unless the parent is "/", and the last component spell the path. */
  lemma ParentAndLastSpellPath(path: string, names: seq<string>)
    requires WellFormed(path) && names == Tokens(path) && names != []
    ensures var parent, last := Render(names[..|names| - 1]), names[|names| - 1];
            path == parent + (if parent == "/" then "" else "/") + last
  {
    hide Tokens;
    RenderTokens(path);
    var init, last := names[..|names| - 1], names[|names| - 1];
    assert names == init + [last];
    JoinAppend(init, [last]);
    assert Join([last]) == "/" + last;
    if init != [] {
      assert AllNames(init);
      JoinWellFormed(init);
    }
  }
}
