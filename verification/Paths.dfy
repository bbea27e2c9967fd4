/** Path strings: strtok on "/", strrchr, and walking a tokenised path. */
module Paths {
  import opened ZerosFs
  import opened Volume

  /** Length of the longest prefix without a slash. */
  function Span(s: string): (n: nat)
    ensures n <= |s|
    ensures forall j | 0 <= j < n :: s[j] != '/'
    ensures n < |s| ==> s[n] == '/'
  {
    if s == [] || s[0] == '/' then 0 else 1 + Span(s[1..])
  }

  /** The tokens repeated strtok(.., "/") calls return. */
  function Tokens(s: string): seq<string>
    decreases |s|
  {
    if s == [] then []
    else if s[0] == '/' then Tokens(s[1..])
    else [s[..Span(s)]] + Tokens(s[Span(s)..])
  }

  /** The last slash among the first n characters, or -1. */
  function LastSlashBefore(s: string, n: nat): (k: int)
    requires n <= |s|
    ensures -1 <= k < n
    ensures k >= 0 ==> s[k] == '/'
    ensures forall j | k < j < n :: s[j] != '/'
  {
    if n == 0 then -1 else if s[n - 1] == '/' then n - 1 else LastSlashBefore(s, n - 1)
  }

  /** strrchr(s, '/'). */
  function LastSlash(s: string): (k: int)
    ensures -1 <= k < |s|
    ensures k >= 0 ==> s[k] == '/'
    ensures forall j | k < j < |s| :: s[j] != '/'
  {
    LastSlashBefore(s, |s|)
  }

  function LastComponent(path: string): string {
    path[LastSlash(path) + 1..]
  }

  /** A C string that fits the fixed path buffers. */
  predicate CPath(path: string) {
    |path| < PATH_BUFFER && '\0' !in path
  }

  /** strncpy into a PATH_BUFFER-byte buffer. */
  function TruncPath(path: string): (cut: string)
    ensures cut <= path && |cut| == if |path| < 1023 then |path| else 1023
  {
    if |path| > PATH_BUFFER - 1 then path[..PATH_BUFFER - 1] else path
  }

  function Walk(d: Disk, cur: nat, toks: seq<string>): nat
    decreases toks
  {
    if toks == [] then cur
    else
      var next := Lookup(d, cur, toks[0]);
      if next == NONE then NONE else Walk(d, next, toks[1..])
  }

  /** resolve_path (fs/zeros_mount.c:251-269). */
  function Resolve(d: Disk, cwd: nat, path: string): nat {
    if path == "" then cwd
    else if path == "/" then ROOT
    else Walk(d, if path[0] == '/' then ROOT else cwd, Tokens(TruncPath(path)))
  }

  datatype Parent = Parent(ino: nat, name: string)

  /** resolve_parent (fs/zeros_mount.c:276-298). */
  function ResolveParent(d: Disk, cwd: nat, path: string): Parent {
    var slash := LastSlash(path);
    var name := TruncName(path[slash + 1..]);
    if slash < 0 then Parent(cwd, name)
    else if slash == 0 then Parent(ROOT, name)
    else Parent(Resolve(d, cwd, path[..slash]), name)
  }

  /** A path of 1024 characters or more is resolved as its first 1023. */
  lemma LongPathIsCut(d: Disk, cwd: nat, path: string)
    requires |path| > 1023
    ensures Resolve(d, cwd, path) == Resolve(d, cwd, path[..1023])
  {
    assert TruncPath(path) == path[..1023] && TruncPath(path[..1023]) == path[..1023];
  }

  // ---- a path split at its last slash agrees with the token walk ----

  lemma {:induction false} SpanPastSlash(a: string, b: string)
    ensures Span(a + "/" + b) == Span(a)
  {
    if a == "" {
      assert a + "/" + b == "/" + b;
    } else if a[0] != '/' {
      assert (a + "/" + b)[1..] == a[1..] + "/" + b;
      SpanPastSlash(a[1..], b);
    }
  }

  lemma {:induction false} SpanWhole(b: string)
    requires '/' !in b
    ensures Span(b) == |b|
  {
    if b != "" {
      SpanWhole(b[1..]);
    }
  }

  lemma TokensOfComponent(b: string)
    requires b != "" && '/' !in b
    ensures Tokens(b) == [b]
  {
    SpanWhole(b);
    assert b[..|b|] == b && Tokens(b[|b|..]) == [];
  }

  /** A slash separates tokens, whatever stands around it. */
  lemma {:induction false} TokensJoin(a: string, b: string)
    ensures Tokens(a + "/" + b) == Tokens(a) + Tokens(b)
    decreases |a|
  {
    var s := a + "/" + b;
    if a == "" {
      assert s[1..] == b;
    } else if a[0] == '/' {
      assert s[1..] == a[1..] + "/" + b;
      TokensJoin(a[1..], b);
    } else {
      SpanPastSlash(a, b);
      CutBoth(a, b, Span(a));
      TokensJoin(a[Span(a)..], b);
      OneTokenMore(s, a, b);
    }
  }

  lemma CutBoth(a: string, b: string, n: nat)
    requires n <= |a|
    ensures (a + "/" + b)[..n] == a[..n] && (a + "/" + b)[n..] == a[n..] + "/" + b
  {
  }

  lemma OneTokenMore(s: string, a: string, b: string)
    requires s != "" && a != "" && s[0] != '/' && a[0] != '/' && Span(s) == Span(a) && s[..Span(a)] == a[..Span(a)]
    requires Tokens(s[Span(a)..]) == Tokens(a[Span(a)..]) + Tokens(b)
    ensures Tokens(s) == Tokens(a) + Tokens(b)
  {
    assert [a[..Span(a)]] + (Tokens(a[Span(a)..]) + Tokens(b)) == ([a[..Span(a)]] + Tokens(a[Span(a)..])) + Tokens(b);
  }

  lemma TokensSplit(a: string, b: string)
    requires b != "" && '/' !in b
    ensures Tokens(a + "/" + b) == Tokens(a) + [b]
  {
    TokensJoin(a, b);
    TokensOfComponent(b);
  }

  lemma {:induction false} WalkAppend(d: Disk, cur: nat, toks: seq<string>, last: string)
    ensures Walk(d, cur, toks + [last]) ==
            var p := Walk(d, cur, toks);
            if p == NONE then (if toks == [] then Lookup(d, cur, last) else NONE) else Lookup(d, p, last)
    decreases toks
  {
    if toks == [] {
      assert toks + [last] == [last];
    } else {
      assert (toks + [last])[1..] == toks[1..] + [last];
      var next := Lookup(d, cur, toks[0]);
      if next != NONE {
        WalkAppend(d, next, toks[1..], last);
      }
    }
  }

  /** The directory part of a path: everything before its last slash. */
  function Front(path: string): string {
    if LastSlash(path) < 0 then "" else path[..LastSlash(path)]
  }

  lemma CutAtSlash(path: string, slash: nat)
    requires slash < |path| && path[slash] == '/'
    ensures path == path[..slash] + "/" + path[slash + 1..]
  {
  }

  lemma SuffixHasNoSlash(path: string, n: nat, last: string)
    requires n <= |path| && last == path[n..] && forall j | n <= j < |path| :: path[j] != '/'
    ensures '/' !in last
  {
  }

  /** The two halves of a path around its last slash. */
  lemma PathHalves(path: string, front: string, last: string)
    requires front == Front(path) && last == LastComponent(path)
    ensures '/' !in last && |last| <= |path|
    ensures if LastSlash(path) < 0 then path == last && front == "" else path == front + "/" + last
  {
    SuffixHasNoSlash(path, LastSlash(path) + 1, last);
    if LastSlash(path) >= 0 {
      CutAtSlash(path, LastSlash(path));
    }
  }

  lemma TokensOfHalves(path: string, front: string, last: string, whole: bool)
    requires last != "" && '/' !in last && (if whole then path == last && front == "" else path == front + "/" + last)
    ensures Tokens(path) == Tokens(front) + [last]
  {
    if whole {
      TokensOfComponent(last);
      assert Tokens("") == [];
    } else {
      TokensSplit(front, last);
    }
  }

  lemma TokensOfPath(path: string)
    requires LastComponent(path) != ""
    ensures Tokens(path) == Tokens(Front(path)) + [LastComponent(path)]
  {
    PathHalves(path, Front(path), LastComponent(path));
    TokensOfHalves(path, Front(path), LastComponent(path), LastSlash(path) < 0);
  }

  lemma {:induction false} TokensBeforeSlash(a: string)
    ensures Tokens(a + "/") == Tokens(a)
    decreases |a|
  {
    var s := a + "/";
    if a == "" {
      assert s[1..] == "";
    } else if a[0] == '/' {
      assert s[1..] == a[1..] + "/";
      TokensBeforeSlash(a[1..]);
    } else {
      SpanPastSlash(a, "");
      assert s + "" == s;
      var n := Span(a);
      assert s[..n] == a[..n] && s[n..] == a[n..] + "/";
      TokensBeforeSlash(a[n..]);
    }
  }

  /** A trailing slash adds no token. */
  lemma TokensOfTrailingSlash(path: string)
    requires LastComponent(path) == ""
    ensures Tokens(path) == Tokens(Front(path))
  {
    if path != "" {
      assert path == Front(path) + "/";
      TokensBeforeSlash(Front(path));
    }
  }

  function Start(cwd: nat, path: string): nat {
    if path != "" && path[0] == '/' then ROOT else cwd
  }

  lemma RootHasNoTokens()
    ensures Tokens("/") == [] && Tokens("") == []
  {
    assert "/"[1..] == "";
  }

  /** Both resolvers walk tokens from the root or from the current directory. */
  lemma ResolveIsWalk(d: Disk, cwd: nat, path: string)
    requires CPath(path)
    ensures Resolve(d, cwd, path) == Walk(d, Start(cwd, path), Tokens(path))
    ensures ResolveParent(d, cwd, path).ino == Walk(d, Start(cwd, path), Tokens(Front(path)))
  {
    RootHasNoTokens();
    ParentIsWalk(d, cwd, path);
  }

  lemma ParentIsWalk(d: Disk, cwd: nat, path: string)
    requires CPath(path)
    ensures ResolveParent(d, cwd, path).ino == Walk(d, Start(cwd, path), Tokens(Front(path)))
  {
    var slash := LastSlash(path);
    RootHasNoTokens();
    if slash > 0 {
      FrontIsWalk(d, cwd, path, path[..slash]);
    }
  }

  lemma FrontIsWalk(d: Disk, cwd: nat, path: string, front: string)
    requires CPath(path) && front != "" && front <= path
    ensures Resolve(d, cwd, front) == Walk(d, Start(cwd, path), Tokens(front))
  {
    RootHasNoTokens();
    assert front[0] == path[0] && TruncPath(front) == front;
  }

  /** resolve_path(path) is dir_lookup of the last name in resolve_parent(path). */
  lemma SplitAgreesWithWalk(d: Disk, cwd: nat, path: string)
    requires CPath(path) && cwd != NONE
    requires 1 <= |LastComponent(path)| <= NAME_MAX
    ensures var p := ResolveParent(d, cwd, path);
            Resolve(d, cwd, path) == if p.ino == NONE then NONE else Lookup(d, p.ino, p.name)
  {
    ResolveIsWalk(d, cwd, path);
    TokensOfPath(path);
    WalkAppend(d, Start(cwd, path), Tokens(Front(path)), LastComponent(path));
  }
}
