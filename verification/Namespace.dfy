/** The abstract file system: directories are finite maps, files are byte strings.
  *
  * The on-disk operations are proved to refine the operations of this module;
  * the tree invariant is stated and preserved here. */
module Namespace {
  import opened ZerosFs
  import opened Directory

  datatype Namespace = Namespace(
    kind: map<nat, FileType>,                // live inodes
    dirs: map<nat, map<string, Entry>>,      // entries of each live directory
    files: map<nat, seq<byte>>)              // contents of each live regular file

  predicate Ordinary(name: string) {
    name != "." && name != ".."
  }

  predicate ValidName(name: string) {
    1 <= |name| <= NAME_MAX && '/' !in name && '\0' !in name
  }

  ghost predicate Child(ns: Namespace, p: nat, n: string, i: nat) {
    p in ns.dirs && n in ns.dirs[p] && Ordinary(n) && ns.dirs[p][n].ino == i
  }

  /** The inode reached from the root through ordinary entries only, or NONE. */
  ghost function Descend(ns: Namespace, path: seq<string>): nat {
    if path == [] then ROOT
    else
      var p := Descend(ns, path[..|path| - 1]);
      var n := path[|path| - 1];
      if p in ns.dirs && n in ns.dirs[p] && Ordinary(n) then ns.dirs[p][n].ino else NONE
  }

  ghost predicate Reachable(ns: Namespace, i: nat) {
    exists path: seq<string> :: Descend(ns, path) == i
  }

  ghost predicate KindsAgree(ns: Namespace) {
    && (forall i | i in ns.kind :: i < NONE && (ns.kind[i] == Reg || ns.kind[i] == Dir))
    && (forall i :: i in ns.dirs <==> i in ns.kind && ns.kind[i] == Dir)
    && (forall i :: i in ns.files <==> i in ns.kind && ns.kind[i] == Reg)
  }

  /** "." names the directory itself and ".." a live directory. */
  ghost predicate DotsOk(ns: Namespace, p: nat)
    requires p in ns.dirs
  {
    && "." in ns.dirs[p] && ns.dirs[p]["."] == Entry(p, Dir)
    && ".." in ns.dirs[p] && ns.dirs[p][".."].ftype == Dir
    && ns.dirs[p][".."].ino in ns.dirs
  }

  /** An ordinary entry has a proper name, names a live inode other than the root,
    * repeats its type, and is what the child's ".." points back to. */
  ghost predicate EntryOk(ns: Namespace, p: nat, n: string)
    requires p in ns.dirs && n in ns.dirs[p]
  {
    var e := ns.dirs[p][n];
    && ValidName(n)
    && e.ino in ns.kind && e.ino != ROOT && e.ftype == ns.kind[e.ino]
    && (e.ino in ns.dirs ==> ".." in ns.dirs[e.ino] && ns.dirs[e.ino][".."].ino == p)
  }

  ghost predicate AllDotsOk(ns: Namespace) {
    forall p {:trigger DotsOk(ns, p)} | p in ns.dirs :: DotsOk(ns, p)
  }

  ghost predicate AllEntriesOk(ns: Namespace) {
    forall p, n {:trigger EntryOk(ns, p, n)} | p in ns.dirs && n in ns.dirs[p] && Ordinary(n) :: EntryOk(ns, p, n)
  }

  /** No inode is listed twice. */
  ghost predicate UniqueParents(ns: Namespace) {
    forall p, n, q, m, i | Child(ns, p, n, i) && Child(ns, q, m, i) :: p == q && n == m
  }

  ghost predicate AllReachable(ns: Namespace) {
    forall i {:trigger Reachable(ns, i)} | i in ns.kind :: Reachable(ns, i)
  }

  /** The live inodes form one tree rooted at inode 0. */
  ghost predicate TreeInv(ns: Namespace) {
    && KindsAgree(ns)
    && AllDotsOk(ns)
    && ROOT in ns.dirs && DotsOk(ns, ROOT) && ns.dirs[ROOT][".."].ino == ROOT
    && AllEntriesOk(ns)
    && UniqueParents(ns)
    && AllReachable(ns)
  }

  /** A new inode i of type t, listed as n in directory p. */
  function Create(ns: Namespace, p: nat, n: string, i: nat, t: FileType): Namespace
    requires p in ns.dirs
  {
    var dots := map["." := Entry(i, Dir), ".." := Entry(p, Dir)];
    var dirs := if t == Dir then ns.dirs[i := dots] else ns.dirs;
    Namespace(ns.kind[i := t],
              dirs[p := ns.dirs[p][n := Entry(i, t)]],
              if t == Reg then ns.files[i := []] else ns.files)
  }

  function SetFile(ns: Namespace, i: nat, data: seq<byte>): Namespace {
    ns.(files := ns.files[i := data])
  }

  function Unlink(ns: Namespace, p: nat, n: string): Namespace
    requires p in ns.dirs && n in ns.dirs[p]
  {
    var i := ns.dirs[p][n].ino;
    ns.(kind := ns.kind - {i},
        dirs := ns.dirs[p := ns.dirs[p] - {n}] - {i},
        files := ns.files - {i})
  }

  ghost predicate EmptyDir(ns: Namespace, i: nat) {
    i in ns.dirs && forall n | n in ns.dirs[i] :: !Ordinary(n)
  }

  // ---- descending is stable under growth and under removal of a leaf ----

  lemma {:induction false} DescendGrows(ns: Namespace, ns': Namespace, path: seq<string>)
    requires KindsAgree(ns) && Descend(ns, path) != NONE
    requires forall p, n, i :: Child(ns, p, n, i) ==> Child(ns', p, n, i)
    ensures Descend(ns', path) == Descend(ns, path)
  {
    if path != [] {
      var prefix, n := path[..|path| - 1], path[|path| - 1];
      DescendGrows(ns, ns', prefix);
      assert Child(ns, Descend(ns, prefix), n, Descend(ns, path));
      assert Child(ns', Descend(ns, prefix), n, Descend(ns, path));
    }
  }

  lemma {:induction false} DescendUnlinked(ns: Namespace, ns': Namespace, path: seq<string>, gone: nat)
    requires KindsAgree(ns)
    requires forall n, i :: !Child(ns, gone, n, i)
    requires forall p, n, i :: Child(ns, p, n, i) && i != gone ==> Child(ns', p, n, i)
    requires Descend(ns, path) != NONE && Descend(ns, path) != gone
    ensures Descend(ns', path) == Descend(ns, path)
  {
    if path != [] {
      var prefix, n := path[..|path| - 1], path[|path| - 1];
      var p, i := Descend(ns, prefix), Descend(ns, path);
      assert Child(ns, p, n, i);
      DescendUnlinked(ns, ns', prefix, gone);
      assert Child(ns', p, n, i);
    }
  }

  lemma DescendStep(ns: Namespace, path: seq<string>, n: string, i: nat)
    requires Child(ns, Descend(ns, path), n, i)
    ensures Descend(ns, path + [n]) == i
  {
    assert (path + [n])[..|path|] == path;
  }

  // ---- every abstract operation keeps the tree ----

  lemma ChildIsLive(ns: Namespace, p: nat, n: string, i: nat)
    requires AllEntriesOk(ns) && Child(ns, p, n, i)
    ensures i in ns.kind && i != ROOT
  {
    assert EntryOk(ns, p, n);
  }

  /** What creating an inode does to the parent-child relation. */
  ghost predicate Adopts(ns: Namespace, ns': Namespace, p: nat, n: string, i: nat) {
    forall q, m, j :: Child(ns', q, m, j) <==> Child(ns, q, m, j) || (q == p && m == n && j == i)
  }

  lemma AdoptionKeepsReach(ns: Namespace, ns': Namespace, p: nat, n: string, i: nat)
    requires KindsAgree(ns) && AllReachable(ns)
    requires p in ns.dirs && Adopts(ns, ns', p, n, i) && ns'.kind.Keys == ns.kind.Keys + {i}
    ensures AllReachable(ns')
  {
    forall j | j in ns'.kind ensures Reachable(ns', j) {
      if j == i {
        assert Reachable(ns, p);
        var path :| Descend(ns, path) == p;
        DescendGrows(ns, ns', path);
        assert Child(ns', p, n, i);
        DescendStep(ns', path, n, i);
      } else {
        assert Reachable(ns, j);
        var path :| Descend(ns, path) == j;
        DescendGrows(ns, ns', path);
      }
    }
  }

  lemma AdoptionKeepsUnique(ns: Namespace, ns': Namespace, p: nat, n: string, i: nat)
    requires AllEntriesOk(ns) && UniqueParents(ns) && i !in ns.kind
    requires Adopts(ns, ns', p, n, i)
    ensures UniqueParents(ns')
  {
    forall q, m, r, k, j | Child(ns', q, m, j) && Child(ns', r, k, j) ensures q == r && m == k {
      if Child(ns, q, m, j) {
        ChildIsLive(ns, q, m, j);
      }
      if Child(ns, r, k, j) {
        ChildIsLive(ns, r, k, j);
      }
    }
  }

  lemma CreateAdopts(ns: Namespace, p: nat, n: string, i: nat, t: FileType)
    requires KindsAgree(ns) && p in ns.dirs && i !in ns.kind
    requires Ordinary(n) && n !in ns.dirs[p]
    ensures Adopts(ns, Create(ns, p, n, i, t), p, n, i)
  {
    var ns' := Create(ns, p, n, i, t);
    forall q, m, j ensures Child(ns', q, m, j) <==> Child(ns, q, m, j) || (q == p && m == n && j == i) {
      if q != p && q != i {
        assert q in ns'.dirs <==> q in ns.dirs;
      }
    }
  }

  lemma CreateKeepsDots(ns: Namespace, p: nat, n: string, i: nat, t: FileType)
    requires KindsAgree(ns) && AllDotsOk(ns) && p in ns.dirs && i !in ns.kind
    requires Ordinary(n)
    ensures AllDotsOk(Create(ns, p, n, i, t))
  {
    var ns' := Create(ns, p, n, i, t);
    forall q | q in ns'.dirs ensures DotsOk(ns', q) {
      assert q != i ==> DotsOk(ns, q);
    }
  }

  lemma CreateKeepsEntries(ns: Namespace, p: nat, n: string, i: nat, t: FileType)
    requires KindsAgree(ns) && AllEntriesOk(ns) && ROOT in ns.dirs
    requires p in ns.dirs && i !in ns.kind && i < NONE && (t == Dir || t == Reg)
    requires ValidName(n) && Ordinary(n) && n !in ns.dirs[p]
    ensures AllEntriesOk(Create(ns, p, n, i, t))
  {
    var ns' := Create(ns, p, n, i, t);
    assert p != i;
    forall q, m | q in ns'.dirs && m in ns'.dirs[q] && Ordinary(m) ensures EntryOk(ns', q, m) {
      if q == p && m == n {
        assert ns'.dirs[q][m] == Entry(i, t);
      } else {
        assert q != i && q in ns.dirs && m in ns.dirs[q];
        assert EntryOk(ns, q, m);
        var c := ns.dirs[q][m].ino;
        assert c != i && ns'.dirs[q][m] == ns.dirs[q][m];
        if c in ns'.dirs {
          assert ns'.dirs[c] == if c == p then ns.dirs[p][n := Entry(i, t)] else ns.dirs[c];
        }
      }
    }
  }

  lemma CreateKeepsTree(ns: Namespace, p: nat, n: string, i: nat, t: FileType)
    requires TreeInv(ns)
    requires p in ns.dirs && i !in ns.kind && i < NONE && (t == Dir || t == Reg)
    requires ValidName(n) && Ordinary(n) && n !in ns.dirs[p]
    ensures TreeInv(Create(ns, p, n, i, t))
  {
    CreateAdopts(ns, p, n, i, t);
    assert DotsOk(ns, ROOT);
    CreateKeepsDots(ns, p, n, i, t);
    CreateKeepsEntries(ns, p, n, i, t);
    AdoptionKeepsReach(ns, Create(ns, p, n, i, t), p, n, i);
    AdoptionKeepsUnique(ns, Create(ns, p, n, i, t), p, n, i);
  }

  lemma CreateKeepsDirs(ns: Namespace, p: nat, n: string, i: nat, t: FileType, c: nat)
    requires p in ns.dirs && c in ns.dirs
    ensures c in Create(ns, p, n, i, t).dirs
  {
  }

  lemma UnlinkKeepsOthers(ns: Namespace, p: nat, n: string, c: nat)
    requires p in ns.dirs && n in ns.dirs[p] && c in ns.dirs && c != ns.dirs[p][n].ino
    ensures c in Unlink(ns, p, n).dirs
  {
  }

  lemma CreateNamelessBreaks(ns: Namespace, p: nat, i: nat, t: FileType)
    requires p in ns.dirs
    ensures !TreeInv(Create(ns, p, "", i, t))
  {
    assert !EntryOk(Create(ns, p, "", i, t), p, "");
  }

  lemma {:induction false} DescendIgnoresFiles(ns: Namespace, ns': Namespace, path: seq<string>)
    requires ns.dirs == ns'.dirs
    ensures Descend(ns, path) == Descend(ns', path)
  {
    if path != [] {
      DescendIgnoresFiles(ns, ns', path[..|path| - 1]);
    }
  }

  lemma SetFileKeepsTree(ns: Namespace, i: nat, data: seq<byte>)
    requires TreeInv(ns) && i in ns.files
    ensures TreeInv(SetFile(ns, i, data))
  {
    var ns' := SetFile(ns, i, data);
    forall p | p in ns.dirs ensures DotsOk(ns', p) {
      assert DotsOk(ns, p);
    }
    forall p, n | p in ns.dirs && n in ns.dirs[p] && Ordinary(n) ensures EntryOk(ns', p, n) {
      assert EntryOk(ns, p, n);
    }
    assert UniqueParents(ns') by {
      assert forall p, n, j :: Child(ns', p, n, j) ==> Child(ns, p, n, j);
    }
    forall j | j in ns'.kind ensures Reachable(ns', j) {
      assert Reachable(ns, j);
      var path :| Descend(ns, path) == j;
      DescendIgnoresFiles(ns, ns', path);
    }
  }

  /** The ".." of a non-root directory is the unique directory that lists it. */
  lemma ParentHoldsChild(ns: Namespace, q: nat)
    requires TreeInv(ns) && q in ns.dirs && q != ROOT
    ensures DotsOk(ns, q)
    ensures exists m :: Child(ns, ns.dirs[q][".."].ino, m, q)
  {
    assert Reachable(ns, q);
    var path :| Descend(ns, path) == q;
    var p, m := Descend(ns, path[..|path| - 1]), path[|path| - 1];
    assert Child(ns, p, m, q);
    assert EntryOk(ns, p, m);
  }

  /** What removing a childless inode does to the parent-child relation. */
  ghost predicate Disowns(ns: Namespace, ns': Namespace, i: nat) {
    && (forall n, j :: !Child(ns, i, n, j))
    && (forall q, m, j :: Child(ns', q, m, j) <==> Child(ns, q, m, j) && j != i)
  }

  lemma UnlinkDisowns(ns: Namespace, p: nat, n: string)
    requires KindsAgree(ns) && UniqueParents(ns)
    requires p in ns.dirs && n in ns.dirs[p] && Ordinary(n)
    requires ns.dirs[p][n].ino in ns.files || EmptyDir(ns, ns.dirs[p][n].ino)
    ensures Disowns(ns, Unlink(ns, p, n), ns.dirs[p][n].ino) && ns.dirs[p][n].ino != p
  {
    var i, ns' := ns.dirs[p][n].ino, Unlink(ns, p, n);
    assert Child(ns, p, n, i);
    forall q, m, j ensures Child(ns', q, m, j) <==> Child(ns, q, m, j) && j != i {
      if q != i {
        assert q in ns'.dirs <==> q in ns.dirs;
      }
    }
  }

  lemma DisowningKeepsReach(ns: Namespace, ns': Namespace, i: nat)
    requires KindsAgree(ns) && AllReachable(ns)
    requires Disowns(ns, ns', i) && ns'.kind.Keys == ns.kind.Keys - {i}
    ensures AllReachable(ns')
  {
    forall j | j in ns'.kind ensures Reachable(ns', j) {
      assert Reachable(ns, j);
      var path :| Descend(ns, path) == j;
      DescendUnlinked(ns, ns', path, i);
    }
  }

  lemma UnlinkKeepsTree(ns: Namespace, p: nat, n: string)
    requires TreeInv(ns) && p in ns.dirs && n in ns.dirs[p] && Ordinary(n)
    requires ns.dirs[p][n].ino in ns.files || EmptyDir(ns, ns.dirs[p][n].ino)
    ensures TreeInv(Unlink(ns, p, n))
  {
    var i := ns.dirs[p][n].ino;
    var ns' := Unlink(ns, p, n);
    UnlinkDisowns(ns, p, n);
    DisowningKeepsReach(ns, ns', i);
    assert EntryOk(ns, p, n);
    assert UniqueParents(ns');
    forall q | q in ns'.dirs ensures DotsOk(ns', q) {
      assert DotsOk(ns, q);
      if q != ROOT {
        ParentHoldsChild(ns, q);
      }
    }
    forall q, m | q in ns'.dirs && m in ns'.dirs[q] && Ordinary(m) ensures EntryOk(ns', q, m) {
      assert EntryOk(ns, q, m);
      assert Child(ns, q, m, ns.dirs[q][m].ino) && Child(ns', q, m, ns.dirs[q][m].ino);
    }
  }

  /** The tree has no directory that lists itself. */
  lemma {:induction false} NoSelfChild(ns: Namespace, path: seq<string>, n: string, i: nat)
    requires KindsAgree(ns) && AllEntriesOk(ns) && UniqueParents(ns) && Child(ns, i, n, i)
    ensures Descend(ns, path) != i
  {
    ChildIsLive(ns, i, n, i);
    if path != [] && Descend(ns, path) != NONE {
      NoSelfChild(ns, path[..|path| - 1], n, i);
      var p, m := Descend(ns, path[..|path| - 1]), path[|path| - 1];
      assert p in ns.dirs && m in ns.dirs[p] && Ordinary(m) ==> Child(ns, p, m, Descend(ns, path));
    }
  }

  /** In a tree no two paths lead to the same inode. */
  lemma {:induction false} DescendInjective(ns: Namespace, a: seq<string>, b: seq<string>)
    requires TreeInv(ns) && Descend(ns, a) == Descend(ns, b) != NONE
    ensures a == b
  {
    if a == [] || b == [] {
      if a != [] { NotRoot(ns, a); }
      if b != [] { NotRoot(ns, b); }
    } else {
      var p, q, m, n := Descend(ns, a[..|a| - 1]), Descend(ns, b[..|b| - 1]), a[|a| - 1], b[|b| - 1];
      assert Child(ns, p, m, Descend(ns, a)) && Child(ns, q, n, Descend(ns, a));
      DescendInjective(ns, a[..|a| - 1], b[..|b| - 1]);
      assert a == a[..|a| - 1] + [m] && b == b[..|b| - 1] + [n];
    }
  }

  lemma NotRoot(ns: Namespace, cs: seq<string>)
    requires TreeInv(ns) && cs != [] && Descend(ns, cs) != NONE
    ensures Descend(ns, cs) != ROOT
  {
    var p, n := Descend(ns, cs[..|cs| - 1]), cs[|cs| - 1];
    assert EntryOk(ns, p, n);
  }
}
