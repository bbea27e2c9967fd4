/** Formatting succeeds on every device it is meant for, and leaves a well-formed volume that
  * holds exactly the initial tree. */
module FormatProofs {
  import opened ZerosFs
  import opened Bitmap
  import opened Directory
  import opened Namespace
  import opened Volume
  import opened VolumeSteps
  import opened DirectorySteps
  import opened Creation
  import opened TightDirs
  import opened Paths
  import opened FileSystem
  import opened Layout
  import opened Formatting
  import opened Prompt
  import Operations

  // ---- the root directory on a blank disk ----

  lemma {:induction false} AllFree(bits: seq<bool>, from: nat)
    requires from <= |bits| && forall b | from <= b < |bits| :: !bits[b]
    ensures |FreeFrom(bits, from)| == |bits| - from
    ensures from < |bits| ==> FreeFrom(bits, from)[0] == from
    decreases |bits| - from
  {
    if from < |bits| {
      AllFree(bits, from + 1);
      assert FreeFrom(bits, from) == [from] + FreeFrom(bits, from + 1);
    }
  }

  /** A superblock as the layout computes it: every data block and every inode is free. */
  ghost predicate Fresh(sb: Superblock) {
    && LayoutOk(sb) && sb.totalBlocks <= NONE && sb.totalInodes <= NONE
    && sb.freeBlocks == sb.totalBlocks - sb.dataStart && sb.freeInodes == sb.totalInodes
  }

  lemma BlankIsPhysical(sb: Superblock, inodes: seq<Inode>, blocks: seq<Block>)
    requires Fresh(sb) && |inodes| == sb.totalInodes && |blocks| == sb.totalBlocks
    ensures var d := Blank(sb, inodes, blocks);
            && Physical(d) && View(d) == Namespace(map[], map[], map[])
            && |FreeFrom(d.inodeBits, 0)| == sb.totalInodes && FirstFreeIs(d, ROOT)
            && |FreeBlockList(d)| == sb.freeBlocks
  {
    var d := Blank(sb, inodes, blocks);
    AllFree(d.inodeBits, 0);
    AllFree(d.blockBits, sb.dataStart);
  }

  ghost predicate FirstFreeIs(d: Disk, i: nat) {
    FreeFrom(d.inodeBits, 0) != [] && FirstFreeInode(d) == i
  }

  /** create_dir is mkdir with another result, unless the new directory is its own parent. */
  lemma CreateDirIsMakeDir(d: Disk, p: nat, name: string)
    requires FreeFrom(d.inodeBits, 0) != [] && FirstFreeInode(d) != p
    ensures var m, s := CreateDir(d, p, name), Operations.MakeDir(d, p, name);
            m.disk == s.disk && m.ino == if s.ok then FirstFreeInode(d) else NONE
  {
  }

  /** ... and then it stops at the finished, unlisted directory. */
  lemma CreateRootIsDotted(d: Disk)
    requires Physical(d) && FirstFreeIs(d, ROOT) && FreeBlockList(d) != []
    ensures CreateDir(d, ROOT, "/") == Made(DottedDir(d, ROOT), ROOT)
  {
    var i, b := FirstFreeInode(d), FreeBlockList(d)[0];
    var a := AllocInode(d);
    assert a.disk.inodes[i := Inode(Dir, 2, 0, [])][i := Operations.NewDirInode(b)]
        == a.disk.inodes[i := Operations.NewDirInode(b)];
    assert PutInode(PutBlock(AllocBlock(a.disk).disk, b, Slots(BLANK_SLOTS)), i, Operations.NewDirInode(b))
        == BlankDir(d);
    DotsStep(d, ROOT);
  }

  const ROOT_DOTS := map["." := Entry(ROOT, Dir), ".." := Entry(ROOT, Dir)]

  lemma RootTree()
    ensures TreeInv(Namespace(map[ROOT := Dir], map[ROOT := ROOT_DOTS], map[]))
    ensures forall cs {:trigger Descend(Namespace(map[ROOT := Dir], map[ROOT := ROOT_DOTS], map[]), cs)} ::
              Descend(Namespace(map[ROOT := Dir], map[ROOT := ROOT_DOTS], map[]), cs) != NONE <==> cs == []
  {
    var ns := Namespace(map[ROOT := Dir], map[ROOT := ROOT_DOTS], map[]);
    assert Descend(ns, []) == ROOT;
    assert DotsOk(ns, ROOT);
  }

  /** Nothing but the root, in one block of its own. */
  ghost predicate RootOnly(sb: Superblock, e: Disk) {
    && WellFormed(e) && View(e) == Namespace(map[ROOT := Dir], map[ROOT := ROOT_DOTS], map[])
    && |FreeFrom(e.inodeBits, 0)| == sb.totalInodes - 1
    && |FreeBlockList(e)| == sb.freeBlocks - 1 && SameLayout(sb, e.sb) && Tight(e)
  }

  /** A blank volume with room for its root. */
  ghost predicate Rootless(sb: Superblock, d: Disk) {
    && Fresh(sb) && d.sb == sb && Physical(d) && View(d) == Namespace(map[], map[], map[])
    && FirstFreeIs(d, ROOT) && FreeBlockList(d) != []
    && |FreeFrom(d.inodeBits, 0)| == sb.totalInodes && |FreeBlockList(d)| == sb.freeBlocks
  }

  lemma RootMade(sb: Superblock, d: Disk)
    requires Rootless(sb, d)
    ensures CreateDir(d, ROOT, "/").ino == ROOT && RootOnly(sb, CreateDir(d, ROOT, "/").disk)
  {
    CreateRootIsDotted(d);
    DottedRoot(sb, d, DottedDir(d, ROOT));
  }

  lemma DottedRoot(sb: Superblock, d: Disk, e: Disk)
    requires Rootless(sb, d) && e == DottedDir(d, ROOT)
    ensures RootOnly(sb, e)
  {
    BlankDirStep(d);
    DotsStep(d, ROOT);
    OnlyNodeTrans(d, BlankDir(d), e, ROOT);
    BornDirView(d, e, ROOT, ROOT_DOTS);
    FreeAfterAlloc(d.inodeBits, 0);
    NothingIsTight(d);
    DottedIsTight(d, ROOT);
    RootTree();
  }

  lemma NothingIsTight(d: Disk)
    requires DirMap(d) == map[]
    ensures Tight(d)
  {
    forall x: nat ensures !LiveDir(d, x) {
      assert LiveDir(d, x) <==> x in DirMap(d);
    }
  }

  // ---- one more directory ----

  lemma CreateDirGrows(d: Disk, p: nat, name: string, i: nat, m: Made)
    requires WellFormed(d) && p in View(d).dirs && i == FirstFree(d) && i != p && m == CreateDir(d, p, name)
    requires ValidName(name) && Ordinary(name) && name !in View(d).dirs[p] && m.ino != NONE
    ensures m.ino == i && !Live(d, i) && Physical(m.disk) && SameLayout(d.sb, m.disk.sb)
    ensures View(m.disk) == Create(View(d), p, name, i, Dir)
  {
    CreateDirIsMakeDir(d, p, name);
    MakeDirRefines(d, p, name);
  }

  function FirstFree(d: Disk): nat {
    if FreeFrom(d.inodeBits, 0) == [] then NONE else FreeFrom(d.inodeBits, 0)[0]
  }

  /** What the entry of a new directory adds to its block. */
  ghost function Cost(ns: Namespace, p: nat): nat
    requires p in ns.dirs
  {
    1 + Growth(|ns.dirs[p]|)
  }

  lemma CreateDirCosts(d: Disk, p: nat, name: string, m: Made)
    requires Physical(d) && Tight(d) && p in View(d).dirs && FreeFrom(d.inodeBits, 0) != [] && FirstFreeInode(d) != p
    requires m == CreateDir(d, p, name) && |name| <= NAME_MAX && name !in View(d).dirs[p]
    ensures m.ino != NONE <==> |FreeBlockList(d)| >= Cost(View(d), p) && |View(d).dirs[p]| < 64
    ensures m.ino != NONE ==>
              && Tight(m.disk) && |FreeBlockList(m.disk)| == |FreeBlockList(d)| - Cost(View(d), p)
              && |FreeFrom(m.disk.inodeBits, 0)| == |FreeFrom(d.inodeBits, 0)| - 1
  {
    CreateDirIsMakeDir(d, p, name);
    MakeDirCosts(d, p, name, Operations.MakeDir(d, p, name), Cost(View(d), p));
  }

  lemma CreateKeepsWellFormed(d: Disk, p: nat, name: string, i: nat, e: Disk)
    requires TreeInv(View(d)) && LayoutOk(d.sb) && Physical(e) && SameLayout(d.sb, e.sb)
    requires p in View(d).dirs && i !in View(d).kind && i < NONE
    requires ValidName(name) && Ordinary(name) && name !in View(d).dirs[p]
    requires View(e) == Create(View(d), p, name, i, Dir)
    ensures WellFormed(e)
  {
    CreateKeepsTree(View(d), p, name, i, Dir);
  }

  /** create_dir of a fresh name in a tight volume succeeds exactly when there is an inode, room for a name, and
    * a block, or two where the parent's blocks are full; what it leaves then is as tight. */
  lemma CreateDirStep(d: Disk, p: nat, name: string, m: Made)
    requires WellFormed(d) && Tight(d) && p in View(d).dirs && m == CreateDir(d, p, name)
    requires ValidName(name) && Ordinary(name) && name !in View(d).dirs[p]
    ensures m.ino != NONE <==> && FreeFrom(d.inodeBits, 0) != [] && |FreeBlockList(d)| >= Cost(View(d), p)
                               && |View(d).dirs[p]| < 64
    ensures m.ino != NONE ==> Created(d, p, name, m)
  {
    if FreeFrom(d.inodeBits, 0) != [] {
      CreateDirCosts(d, p, name, m);
      if m.ino != NONE {
        CreateDirGrows(d, p, name, FirstFree(d), m);
        CreateKeepsWellFormed(d, p, name, FirstFree(d), m.disk);
      }
    }
  }

  ghost predicate Created(d: Disk, p: nat, name: string, m: Made) {
    && p in View(d).dirs && m.ino !in View(d).kind && WellFormed(m.disk) && SameLayout(d.sb, m.disk.sb)
    && Tight(m.disk) && View(m.disk) == Create(View(d), p, name, m.ino, Dir)
    && |FreeFrom(m.disk.inodeBits, 0)| == |FreeFrom(d.inodeBits, 0)| - 1
    && |FreeBlockList(m.disk)| == |FreeBlockList(d)| - Cost(View(d), p)
  }

  // ---- which paths exist ----

  /** One step of a descent. */
  ghost function Below(ns: Namespace, p: nat, n: string): nat {
    if p in ns.dirs && n in ns.dirs[p] && Ordinary(n) then ns.dirs[p][n].ino else NONE
  }

  lemma BelowAfterCreate(ns: Namespace, p: nat, n: string, i: nat, q: nat, m: string)
    requires KindsAgree(ns) && p in ns.dirs && n !in ns.dirs[p] && Ordinary(n) && i !in ns.kind
    ensures var ns' := Create(ns, p, n, i, Dir);
            && (q == p && m == n ==> Below(ns', q, m) == i && Below(ns, q, m) == NONE)
            && (q != p || m != n ==> Below(ns', q, m) == Below(ns, q, m))
  {
    assert p != i;
  }

  /** Creating cs + [n] adds that one path. */
  lemma {:induction false} CreateAddsPath(ns: Namespace, cs: seq<string>, n: string, i: nat, path: seq<string>)
    requires TreeInv(ns) && Descend(ns, cs) in ns.dirs && n !in ns.dirs[Descend(ns, cs)] && Ordinary(n)
    requires i !in ns.kind && i != NONE
    ensures var ns' := Create(ns, Descend(ns, cs), n, i, Dir);
            && (path != cs + [n] ==> Descend(ns', path) == Descend(ns, path))
            && (path == cs + [n] ==> Descend(ns', path) == i && Descend(ns, path) == NONE)
  {
    if path != [] {
      var q, m := path[..|path| - 1], path[|path| - 1];
      assert path == q + [m];
      LastOfAppend(cs, n, q, m);
      CreateAddsPath(ns, cs, n, i, q);
      BelowStep(ns, cs, n, i, q, m, Descend(ns, cs), Create(ns, Descend(ns, cs), n, i, Dir));
    }
  }

  lemma LastOfAppend(cs: seq<string>, n: string, q: seq<string>, m: string)
    ensures q + [m] == cs + [n] <==> q == cs && m == n
    ensures cs != cs + [n]
  {
    assert (cs + [n])[..|cs|] == cs && (q + [m])[..|q|] == q;
    assert (cs + [n])[|cs|] == n && (q + [m])[|q|] == m;
  }

  lemma BelowStep(ns: Namespace, cs: seq<string>, n: string, i: nat, q: seq<string>, m: string, p: nat, ns': Namespace)
    requires TreeInv(ns) && p == Descend(ns, cs) && p in ns.dirs && n !in ns.dirs[p] && Ordinary(n)
    requires i !in ns.kind && i != NONE && ns' == Create(ns, p, n, i, Dir)
    requires q != cs + [n] ==> Descend(ns', q) == Descend(ns, q)
    requires q == cs + [n] ==> Descend(ns', q) == i && Descend(ns, q) == NONE
    ensures var before, after := Below(ns, Descend(ns, q), m), Below(ns', Descend(ns', q), m);
            if q == cs && m == n then after == i && before == NONE else after == before
  {
    LastOfAppend(cs, n, q, m);
    assert p != NONE;
    if Descend(ns, q) == p {
      DescendInjective(ns, q, cs);
    }
    BelowAfterCreate(ns, p, n, i, Descend(ns, q), m);
    BelowAfterCreate(ns, p, n, i, i, m);
  }

  lemma DescendIsLive(ns: Namespace, cs: seq<string>)
    requires TreeInv(ns)
    ensures Descend(ns, cs) == NONE || Descend(ns, cs) in ns.kind
  {
    if cs != [] && Descend(ns, cs) != NONE {
      assert EntryOk(ns, Descend(ns, cs[..|cs| - 1]), cs[|cs| - 1]);
    }
  }

  // ---- planting a list of paths, parents first ----

  /** cs is the root or one of the first k paths of the list. */
  ghost predicate Known(tree: seq<seq<string>>, k: nat, cs: seq<string>)
    requires k <= |tree|
  {
    cs == [] || cs in tree[..k]
  }

  ghost predicate InOrder(tree: seq<seq<string>>, k: nat)
    requires k < |tree|
  {
    && tree[k] != [] && Components(tree[k])
    && Known(tree, k, tree[k][..|tree[k]| - 1]) && !Known(tree, k, tree[k])
  }

  /** Proper names, parents before children, no path twice. */
  ghost predicate ParentsFirst(tree: seq<seq<string>>) {
    forall k: nat {:trigger InOrder(tree, k)} | k < |tree| :: InOrder(tree, k)
  }

  function ParentOf(path: seq<string>): seq<string> {
    if path == [] then [] else path[..|path| - 1]
  }

  /** How many of the first k paths lie directly below cs. */
  ghost function Children(tree: seq<seq<string>>, k: nat, cs: seq<string>): (n: nat)
    requires k <= |tree|
    ensures n <= k
  {
    if k == 0 then 0
    else Children(tree, k - 1, cs) + (if tree[k - 1] != [] && ParentOf(tree[k - 1]) == cs then 1 else 0)
  }

  /** The blocks the root and the first k paths take. */
  ghost function Spent(tree: seq<seq<string>>, k: nat): nat
    requires k <= |tree|
  {
    if k == 0 then 1
    else Spent(tree, k - 1) + 1 + Growth(2 + Children(tree, k - 1, ParentOf(tree[k - 1])))
  }

  /** The directory cs holds its dots and those of the first k paths that lie below it. */
  ghost predicate HoldsChildren(ns: Namespace, tree: seq<seq<string>>, k: nat, cs: seq<string>)
    requires k <= |tree|
  {
    Descend(ns, cs) in ns.dirs && |ns.dirs[Descend(ns, cs)]| == 2 + Children(tree, k, cs)
  }

  /** The tree holds exactly the first k paths, all of them directories. */
  ghost predicate Holds(ns: Namespace, tree: seq<seq<string>>, k: nat)
    requires k <= |tree|
  {
    && ns.files == map[]
    && (forall cs {:trigger Descend(ns, cs)} :: Descend(ns, cs) != NONE <==> Known(tree, k, cs))
    && (forall cs {:trigger HoldsChildren(ns, tree, k, cs)} | Known(tree, k, cs) :: HoldsChildren(ns, tree, k, cs))
  }

  /** After k paths the volume is well-formed, holds exactly them, and has spent k + 1 inodes and the blocks
    * they take. */
  ghost predicate Planted(sb: Superblock, d: Disk, tree: seq<seq<string>>, k: nat)
    requires k <= |tree|
  {
    && WellFormed(d) && SameLayout(sb, d.sb) && Holds(View(d), tree, k)
    && |FreeFrom(d.inodeBits, 0)| == sb.totalInodes - 1 - k
    && Tight(d) && |FreeBlockList(d)| == sb.freeBlocks - Spent(tree, k)
  }

  lemma ConsConcat(cs: seq<string>, rest: seq<string>)
    requires cs != []
    ensures cs + rest == [cs[0]] + (cs[1..] + rest)
  {
  }

  lemma PlantPasses(d: Disk, cur: nat, n: string, rest: seq<string>)
    requires Lookup(d, cur, n) != NONE
    ensures Plant(d, cur, [n] + rest) == Plant(d, Lookup(d, cur, n), rest)
  {
    assert ([n] + rest)[1..] == rest;
  }

  /** Planting follows the walk as far as the path exists. */
  lemma {:induction false} PlantWalks(d: Disk, cur: nat, cs: seq<string>, rest: seq<string>)
    requires Walk(d, cur, cs) != NONE
    ensures Plant(d, cur, cs + rest) == Plant(d, Walk(d, cur, cs), rest)
    decreases cs
  {
    if cs == [] {
      assert cs + rest == rest;
    } else {
      ConsConcat(cs, rest);
      PlantPasses(d, cur, cs[0], cs[1..] + rest);
      PlantWalks(d, Lookup(d, cur, cs[0]), cs[1..], rest);
    }
  }

  lemma PlantFollows(d: Disk, cs: seq<string>, rest: seq<string>)
    requires WellFormed(d) && Components(cs) && Descend(View(d), cs) != NONE
    ensures Plant(d, ROOT, cs + rest) == Plant(d, Descend(View(d), cs), rest)
  {
    DescendIsWalk(View(d), cs);
    RootIsLive(d);
    EntersOrNone(View(d), ROOT, cs);
    WalkAgrees(d, ROOT, cs);
    PlantWalks(d, ROOT, cs, rest);
  }

  lemma DescendInto(ns: Namespace, cs: seq<string>, n: string)
    requires TreeInv(ns) && Descend(ns, cs) in ns.dirs && n in ns.dirs[Descend(ns, cs)] && Ordinary(n)
    ensures Descend(ns, cs + [n]) != NONE
  {
    assert (cs + [n])[..|cs|] == cs;
    assert EntryOk(ns, Descend(ns, cs), n);
  }

  /** A path whose parent exists and which does not exist itself costs one create_dir. */
  lemma PlantCreates(d: Disk, cs: seq<string>, n: string)
    requires WellFormed(d) && Components(cs) && Ordinary(n)
    requires Descend(View(d), cs) in View(d).dirs && Descend(View(d), cs + [n]) == NONE
    ensures n !in View(d).dirs[Descend(View(d), cs)]
    ensures Plant(d, ROOT, cs + [n]) == CreateDir(d, Descend(View(d), cs), n)
  {
    var p := Descend(View(d), cs);
    if n in View(d).dirs[p] {
      DescendInto(View(d), cs, n);
    }
    PlantFollows(d, cs, [n]);
    LookupAgrees(d, p, n);
  }

  lemma KnownNext(tree: seq<seq<string>>, k: nat, path: seq<string>)
    requires k < |tree|
    ensures Known(tree, k + 1, path) <==> Known(tree, k, path) || path == tree[k]
  {
    assert tree[..k + 1] == tree[..k] + [tree[k]];
  }

  lemma InLongerPrefix(tree: seq<seq<string>>, a: nat, b: nat, path: seq<string>)
    requires a <= b <= |tree| && path in tree[..a]
    ensures path in tree[..b]
  {
    assert tree[..b][..a] == tree[..a];
  }

  /** What is listed later has no children yet. */
  lemma {:induction false} NoChildrenYet(tree: seq<seq<string>>, k: nat, j: nat, path: seq<string>)
    requires j <= k <= |tree| && ParentsFirst(tree) && path != [] && path !in tree[..k]
    ensures Children(tree, j, path) == 0
  {
    if j > 0 {
      NoChildrenYet(tree, k, j - 1, path);
      assert InOrder(tree, j - 1);
      if ParentOf(tree[j - 1]) != [] {
        InLongerPrefix(tree, j - 1, k, ParentOf(tree[j - 1]));
      }
    }
  }

  lemma ChildrenNext(tree: seq<seq<string>>, k: nat, cs: seq<string>, n: string, path: seq<string>)
    requires k < |tree| && tree[k] == cs + [n]
    ensures Children(tree, k + 1, path) == Children(tree, k, path) + if path == cs then 1 else 0
  {
    assert ParentOf(tree[k]) == cs;
  }

  /** The new directory has its dots only. */
  lemma BornWithDots(ns: Namespace, tree: seq<seq<string>>, k: nat, cs: seq<string>, n: string, i: nat)
    requires TreeInv(ns) && k < |tree| && ParentsFirst(tree) && tree[k] == cs + [n]
    requires Descend(ns, cs) in ns.dirs && n !in ns.dirs[Descend(ns, cs)] && Ordinary(n)
    requires i !in ns.kind && i != NONE
    ensures HoldsChildren(Create(ns, Descend(ns, cs), n, i, Dir), tree, k + 1, tree[k])
  {
    var ns' := Create(ns, Descend(ns, cs), n, i, Dir);
    CreateAddsPath(ns, cs, n, i, tree[k]);
    assert InOrder(tree, k);
    NoChildrenYet(tree, k, k, tree[k]);
    LastOfAppend(cs, n, cs, n);
    ChildrenNext(tree, k, cs, n, tree[k]);
    assert ns'.dirs[i] == map["." := Entry(i, Dir), ".." := Entry(Descend(ns, cs), Dir)];
  }

  /** The others keep theirs, the parent gets one more. */
  lemma GrowsByOne(ns: Namespace, tree: seq<seq<string>>, k: nat, cs: seq<string>, n: string, i: nat, path: seq<string>)
    requires TreeInv(ns) && k < |tree| && tree[k] == cs + [n] && path != tree[k] && HoldsChildren(ns, tree, k, path)
    requires Descend(ns, cs) in ns.dirs && n !in ns.dirs[Descend(ns, cs)] && Ordinary(n)
    requires i !in ns.kind && i != NONE
    ensures HoldsChildren(Create(ns, Descend(ns, cs), n, i, Dir), tree, k + 1, path)
  {
    CreateAddsPath(ns, cs, n, i, path);
    ChildrenNext(tree, k, cs, n, path);
    if Descend(ns, path) == Descend(ns, cs) {
      DescendInjective(ns, path, cs);
    }
  }

  lemma HoldsNext(ns: Namespace, tree: seq<seq<string>>, k: nat, cs: seq<string>, n: string, i: nat)
    requires TreeInv(ns) && k < |tree| && ParentsFirst(tree) && Holds(ns, tree, k) && tree[k] == cs + [n]
    requires Descend(ns, cs) in ns.dirs && n !in ns.dirs[Descend(ns, cs)] && Ordinary(n)
    requires i !in ns.kind && i != NONE
    ensures Holds(Create(ns, Descend(ns, cs), n, i, Dir), tree, k + 1)
  {
    var ns' := Create(ns, Descend(ns, cs), n, i, Dir);
    forall path ensures Descend(ns', path) != NONE <==> Known(tree, k + 1, path) {
      CreateAddsPath(ns, cs, n, i, path);
      KnownNext(tree, k, path);
    }
    var next := k + 1;
    forall path | Known(tree, next, path) ensures HoldsChildren(ns', tree, next, path) {
      KnownNext(tree, k, path);
      if path == tree[k] {
        BornWithDots(ns, tree, k, cs, n, i);
      } else {
        assert HoldsChildren(ns, tree, k, path);
        GrowsByOne(ns, tree, k, cs, n, i, path);
      }
    }
  }

  lemma PlantedNext(sb: Superblock, d: Disk, tree: seq<seq<string>>, k: nat, cs: seq<string>, n: string, m: Made)
    requires k < |tree| && ParentsFirst(tree) && Planted(sb, d, tree, k) && tree[k] == cs + [n] && Ordinary(n)
    requires Descend(View(d), cs) in View(d).dirs && n !in View(d).dirs[Descend(View(d), cs)] && m.ino != NONE
    requires Created(d, Descend(View(d), cs), n, m)
    ensures Planted(sb, m.disk, tree, k + 1)
  {
    HoldsNext(View(d), tree, k, cs, n, m.ino);
    NextCost(View(d), tree, k, cs, n);
  }

  lemma SpentNext(tree: seq<seq<string>>, k: nat, elder: nat)
    requires k < |tree| && Children(tree, k, ParentOf(tree[k])) == elder
    ensures Spent(tree, k + 1) == Spent(tree, k) + 1 + Growth(2 + elder)
  {
  }

  lemma ParentIsKnown(tree: seq<seq<string>>, k: nat, cs: seq<string>, n: string)
    requires k < |tree| && ParentsFirst(tree) && tree[k] == cs + [n]
    ensures Known(tree, k, cs) && ParentOf(tree[k]) == cs
  {
    assert InOrder(tree, k);
  }

  /** What the next path takes. */
  lemma NextCost(ns: Namespace, tree: seq<seq<string>>, k: nat, cs: seq<string>, n: string)
    requires k < |tree| && ParentsFirst(tree) && Holds(ns, tree, k) && tree[k] == cs + [n]
    requires Descend(ns, cs) in ns.dirs
    ensures Spent(tree, k + 1) == Spent(tree, k) + Cost(ns, Descend(ns, cs))
    ensures |ns.dirs[Descend(ns, cs)]| <= 2 + k
  {
    ParentIsKnown(tree, k, cs, n);
    assert HoldsChildren(ns, tree, k, cs);
    CostBelow(ns, tree, k, cs);
  }

  lemma CostBelow(ns: Namespace, tree: seq<seq<string>>, k: nat, cs: seq<string>)
    requires k < |tree| && ParentOf(tree[k]) == cs && HoldsChildren(ns, tree, k, cs)
    ensures Spent(tree, k + 1) == Spent(tree, k) + Cost(ns, Descend(ns, cs))
    ensures |ns.dirs[Descend(ns, cs)]| <= 2 + k
  {
    SpentNext(tree, k, Children(tree, k, cs));
  }

  lemma LastName(cs: seq<string>, n: string)
    ensures (cs + [n])[..|cs + [n]| - 1] == cs && (cs + [n])[|cs + [n]| - 1] == n
    ensures Components(cs + [n]) ==> Components(cs) && ValidName(n) && Ordinary(n)
  {
    assert (cs + [n])[|cs|] == n;
    assert forall k | 0 <= k < |cs| :: (cs + [n])[k] == cs[k];
  }

  /** With no regular file around, a path that exists names a directory. */
  lemma ExistingIsDir(ns: Namespace, cs: seq<string>)
    requires TreeInv(ns) && ns.files == map[] && Descend(ns, cs) != NONE
    ensures Descend(ns, cs) in ns.dirs
  {
    DescendIsLive(ns, cs);
    assert Descend(ns, cs) !in ns.files;
  }

  /** The parent of the next path is a directory that does not list it yet. */
  lemma NextParent(d: Disk, tree: seq<seq<string>>, k: nat, cs: seq<string>, n: string)
    requires k < |tree| && InOrder(tree, k) && WellFormed(d) && Holds(View(d), tree, k) && tree[k] == cs + [n]
    ensures Components(cs) && ValidName(n) && Ordinary(n)
    ensures Descend(View(d), cs) in View(d).dirs && Descend(View(d), cs + [n]) == NONE
  {
    LastName(cs, n);
    ExistingIsDir(View(d), cs);
  }

  /** The next create_dir, with what it needs and what it leaves. */
  lemma NextCreated(sb: Superblock, d: Disk, tree: seq<seq<string>>, k: nat, cs: seq<string>, n: string, p: nat,
                    m: Made)
    requires k < |tree| <= 61 && ParentsFirst(tree) && Planted(sb, d, tree, k) && tree[k] == cs + [n]
    requires p == Descend(View(d), cs) && p in View(d).dirs && n !in View(d).dirs[p] && ValidName(n) && Ordinary(n)
    requires m == CreateDir(d, p, n)
    ensures m.ino != NONE <==> sb.totalInodes >= k + 2 && sb.freeBlocks >= Spent(tree, k + 1)
    ensures m.ino != NONE ==> Planted(sb, m.disk, tree, k + 1)
  {
    CreateDirStep(d, p, n, m);
    NextCost(View(d), tree, k, cs, n);
    if m.ino != NONE {
      PlantedNext(sb, d, tree, k, cs, n, m);
    }
  }

  /** One path: it is planted exactly when there are an inode and the blocks it takes. */
  lemma PlantStep(sb: Superblock, d: Disk, tree: seq<seq<string>>, k: nat, cs: seq<string>, n: string, m: Made)
    requires k < |tree| <= 61 && ParentsFirst(tree) && Planted(sb, d, tree, k) && tree[k] == cs + [n]
    requires m == Plant(d, ROOT, cs + [n])
    ensures m.ino != NONE <==> sb.totalInodes >= k + 2 && sb.freeBlocks >= Spent(tree, k + 1)
    ensures m.ino != NONE ==> Planted(sb, m.disk, tree, k + 1)
  {
    assert InOrder(tree, k);
    NextParent(d, tree, k, cs, n);
    PlantCreates(d, cs, n);
    NextCreated(sb, d, tree, k, cs, n, Descend(View(d), cs), m);
  }

  lemma ParentAndName(path: seq<string>)
    requires path != []
    ensures path == path[..|path| - 1] + [path[|path| - 1]]
  {
  }

  lemma PlantPath(sb: Superblock, d: Disk, tree: seq<seq<string>>, k: nat, m: Made)
    requires k < |tree| <= 61 && ParentsFirst(tree) && Planted(sb, d, tree, k) && m == Plant(d, ROOT, tree[k])
    ensures m.ino != NONE <==> sb.totalInodes >= k + 2 && sb.freeBlocks >= Spent(tree, k + 1)
    ensures m.ino != NONE ==> Planted(sb, m.disk, tree, k + 1)
  {
    assert InOrder(tree, k);
    ParentAndName(tree[k]);
    PlantStep(sb, d, tree, k, tree[k][..|tree[k]| - 1], tree[k][|tree[k]| - 1], m);
  }

  /** The list of paths spells out the tree. */
  ghost predicate Spells(paths: seq<string>, tree: seq<seq<string>>) {
    |paths| == |tree| && forall j | 0 <= j < |tree| :: Tokens(TruncCopy(paths[j])) == tree[j]
  }

  /** What planting the first k paths of the list gives: it succeeds exactly when there are k + 1 inodes and the
    * blocks the root and these paths take, and then all of them are there. */
  ghost function PlantedSoFar(sb: Superblock, tree: seq<seq<string>>): (Step, nat) -> bool {
    (s: Step, k: nat) =>
      && k <= |tree|
      && (s.ok <==> sb.totalInodes >= k + 1 && sb.freeBlocks >= Spent(tree, k))
      && (s.ok ==> Planted(sb, s.disk, tree, k))
  }

  lemma PlantNext(sb: Superblock, s: Step, path: string, tree: seq<seq<string>>, k: nat)
    requires k < |tree| <= 61 && ParentsFirst(tree) && Tokens(TruncCopy(path)) == tree[k]
    requires PlantedSoFar(sb, tree)(s, k)
    ensures PlantedSoFar(sb, tree)(PlantOne(s, path), k + 1)
  {
    assert Spent(tree, k + 1) > Spent(tree, k);
    if s.ok {
      PlantPath(sb, s.disk, tree, k, Plant(s.disk, ROOT, tree[k]));
    }
  }

  /** What one more path keeps, planting any number of them keeps. */
  lemma {:induction false} PlantInduction(d: Disk, paths: seq<string>, k: nat, p: (Step, nat) -> bool)
    requires k <= |paths| && p(Step(d, true), 0)
    requires forall s, i: nat {:trigger p(s, i)} | i < |paths| && p(s, i) :: p(PlantOne(s, paths[i]), i + 1)
    ensures p(PlantAll(d, paths[..k]), k)
    decreases k
  {
    if k > 0 {
      PlantInduction(d, paths, k - 1, p);
      PlantAllNext(d, paths, k - 1);
    }
  }

  /** Any list of paths in order is planted exactly when there are inodes and blocks for it, and then
    * completely. */
  lemma AllPlanted(sb: Superblock, d: Disk, paths: seq<string>, tree: seq<seq<string>>, k: nat)
    requires k <= |tree| <= 61 && ParentsFirst(tree) && Spells(paths, tree)
    requires PlantedSoFar(sb, tree)(Step(d, true), 0)
    ensures PlantedSoFar(sb, tree)(PlantAll(d, paths[..k]), k)
  {
    var p := PlantedSoFar(sb, tree);
    forall s: Step, i: nat | i < |paths| && p(s, i) ensures p(PlantOne(s, paths[i]), i + 1) {
      PlantNext(sb, s, paths[i], tree, i);
    }
    PlantInduction(d, paths, k, p);
  }

  // ---- the initial tree ----

  /** The components of the initial directories, in the formatter's order. */
  const INITIAL_TREE := [
    ["sys"], ["sys", "kernel"], ["sys", "boot"], ["sys", "model"],
    ["sys", "model", "weights"], ["sys", "model", "cache"],
    ["bin"], ["etc"], ["home"], ["dock"],
    ["operator"], ["operator", "learned"], ["operator", "history"],
    ["log"], ["log", "system"], ["log", "dock"],
    ["tmp"], ["doc"],
    ["sys", "src"], ["sys", "src", "shell"], ["sys", "src", "fs"], ["sys", "src", "vm"]]

  lemma SlashedOne(a: string)
    ensures Slashed([a]) == "/" + a
  {
    assert [a][..0] == [] && Slashed([]) == "";
  }

  lemma SlashedTwo(a: string, b: string)
    ensures Slashed([a, b]) == "/" + a + "/" + b
  {
    assert [a, b][..1] == [a];
    SlashedOne(a);
  }

  lemma SlashedThree(a: string, b: string, c: string)
    ensures Slashed([a, b, c]) == "/" + a + "/" + b + "/" + c
  {
    assert [a, b, c][..2] == [a, b];
    SlashedTwo(a, b);
  }

  /** Where the parent of each path stands in the list; -1 for the root. */
  const PARENTS := [-1, 0, 0, 0, 3, 3, -1, -1, -1, -1, -1, 10, 10, -1, 13, 13, -1, -1, 0, 18, 18, 18]

  /** The path with these one, two or three components. */
  function Joined(cs: seq<string>): string
    requires 1 <= |cs| <= 3
  {
    "/" + cs[0] + (if |cs| > 1 then "/" + cs[1] else "") + (if |cs| > 2 then "/" + cs[2] else "")
  }

  lemma JoinedIsPath(cs: seq<string>)
    requires 1 <= |cs| <= 3
    ensures Joined(cs) == AbsPath(cs)
  {
    if |cs| == 1 {
      assert cs == [cs[0]];
      SlashedOne(cs[0]);
    } else if |cs| == 2 {
      assert cs == [cs[0], cs[1]];
      SlashedTwo(cs[0], cs[1]);
      Regrouped("/" + cs[0], cs[1], "");
    } else {
      assert cs == [cs[0], cs[1], cs[2]];
      SlashedThree(cs[0], cs[1], cs[2]);
      Regrouped("/" + cs[0], cs[1], "/" + cs[2]);
      Regrouped("/" + cs[0] + "/" + cs[1], cs[2], "");
    }
  }

  lemma Regrouped(a: string, b: string, c: string)
    ensures a + ("/" + b) + c == a + "/" + b + c
    ensures a + ("/" + b) + "" == a + "/" + b
    ensures a + ("/" + b) == a + "/" + b
  {
  }

  lemma FirstPaths(k: nat)
    requires k < 6
    ensures INITIAL_DIRS[k] == Joined(INITIAL_TREE[k])
  {
  }

  lemma MiddlePaths(k: nat)
    requires 6 <= k < 14
    ensures INITIAL_DIRS[k] == Joined(INITIAL_TREE[k])
  {
  }

  lemma LastPaths(k: nat)
    requires 14 <= k < |INITIAL_TREE|
    ensures INITIAL_DIRS[k] == Joined(INITIAL_TREE[k])
  {
  }

  lemma InitialPaths(k: nat)
    requires k < |INITIAL_TREE| == |INITIAL_DIRS|
    ensures INITIAL_DIRS[k] == AbsPath(INITIAL_TREE[k]) && Tokens(TruncCopy(INITIAL_DIRS[k])) == INITIAL_TREE[k]
  {
    if k < 6 { FirstPaths(k); } else if k < 14 { MiddlePaths(k); } else { LastPaths(k); }
    JoinedIsPath(INITIAL_TREE[k]);
    InitialOrder(k);
    TokensOfSlashed(INITIAL_TREE[k]);
  }

  lemma InitialParents(k: nat)
    requires k < |INITIAL_TREE|
    ensures Known(INITIAL_TREE, k, INITIAL_TREE[k][..|INITIAL_TREE[k]| - 1])
  {
    var cs, j := INITIAL_TREE[k], PARENTS[k];
    if j >= 0 {
      assert j < k && cs[..|cs| - 1] == INITIAL_TREE[j];
      assert INITIAL_TREE[..k][j] == INITIAL_TREE[j];
    }
  }

  lemma FirstNames(k: nat)
    requires k < 11
    ensures INITIAL_TREE[k] != [] && Components(INITIAL_TREE[k])
  {
  }

  lemma InitialNames(k: nat)
    requires k < |INITIAL_TREE|
    ensures INITIAL_TREE[k] != [] && Components(INITIAL_TREE[k])
  {
    if k < 11 {
      FirstNames(k);
    }
  }

  lemma InitialFresh(k: nat)
    requires k < |INITIAL_TREE|
    ensures !Known(INITIAL_TREE, k, INITIAL_TREE[k])
  {
  }

  lemma InitialOrder(k: nat)
    requires k < |INITIAL_TREE|
    ensures InOrder(INITIAL_TREE, k)
  {
    InitialNames(k);
    InitialParents(k);
    InitialFresh(k);
  }

  // ---- what the initial tree takes ----

  /** The path before each that has the same parent, -1 for the first. */
  const SIBLINGS := [-1, -1, 1, 2, -1, 4, 0, 6, 7, 8, 9, -1, 11, 10, -1, 14, 13, 16, 3, -1, 19, 20]

  /** How many there are. */
  const ELDER := [0, 0, 1, 2, 0, 1, 1, 2, 3, 4, 5, 0, 1, 6, 0, 1, 7, 8, 3, 0, 1, 2]

  lemma InitialParent(k: nat)
    requires k < |INITIAL_TREE|
    ensures -1 <= PARENTS[k] < k
    ensures ParentOf(INITIAL_TREE[k]) == if PARENTS[k] < 0 then [] else INITIAL_TREE[PARENTS[k]]
  {
  }

  lemma SameParent(j: nat, k: nat)
    requires j < |INITIAL_TREE| && k < |INITIAL_TREE|
    ensures ParentOf(INITIAL_TREE[j]) == ParentOf(INITIAL_TREE[k]) <==> PARENTS[j] == PARENTS[k]
  {
    InitialParent(j);
    InitialParent(k);
    if PARENTS[j] >= 0 {
      InitialNames(PARENTS[j]);
    }
    if PARENTS[k] >= 0 {
      InitialNames(PARENTS[k]);
    }
    if PARENTS[j] >= 0 && PARENTS[k] >= 0 && PARENTS[j] != PARENTS[k] {
      InitialDistinct(PARENTS[j], PARENTS[k]);
    }
  }

  lemma InitialDistinct(a: nat, b: nat)
    requires a < |INITIAL_TREE| && b < |INITIAL_TREE| && a != b
    ensures INITIAL_TREE[a] != INITIAL_TREE[b]
  {
    var m := if a < b then b else a;
    InitialFresh(m);
    assert INITIAL_TREE[..m][a + b - m] == INITIAL_TREE[a + b - m];
  }

  lemma SiblingTable(k: nat)
    requires k < |PARENTS|
    ensures |PARENTS| == |SIBLINGS| == |ELDER| == 22 && -1 <= SIBLINGS[k] < k
    ensures if SIBLINGS[k] < 0 then ELDER[k] == 0
            else PARENTS[SIBLINGS[k]] == PARENTS[k] && ELDER[k] == ELDER[SIBLINGS[k]] + 1
  {
  }

  lemma ElderTable(k: nat)
    requires k < |ELDER|
    ensures Growth(2 + ELDER[k]) == if k == 13 then 1 else 0
  {
    assert ELDER[k] == 6 <==> k == 13;
    assert ELDER[k] <= 8;
  }

  lemma NoSiblingBetween(k: nat, j: nat)
    requires k < |PARENTS| == |SIBLINGS| && SIBLINGS[k] < j < k
    ensures PARENTS[j] != PARENTS[k]
  {
  }

  /** Nothing is added to the count by paths that lie elsewhere. */
  lemma {:induction false} NoneBetween(tree: seq<seq<string>>, lo: nat, hi: nat, cs: seq<string>)
    requires lo <= hi <= |tree| && forall j | lo <= j < hi :: ParentOf(tree[j]) != cs
    ensures Children(tree, hi, cs) == Children(tree, lo, cs)
    decreases hi
  {
    if lo < hi {
      NoneBetween(tree, lo, hi - 1, cs);
    }
  }

  lemma OneMoreChild(tree: seq<seq<string>>, m: nat, k: nat, cs: seq<string>)
    requires m < k < |tree| && tree[m] != [] && ParentOf(tree[m]) == cs
    requires forall j | m < j < k :: ParentOf(tree[j]) != cs
    ensures Children(tree, k, cs) == Children(tree, m, cs) + 1
  {
    NoneBetween(tree, m + 1, k, cs);
  }

  lemma SiblingsApart(k: nat)
    requires k < |INITIAL_TREE| == |SIBLINGS|
    ensures forall j: nat | SIBLINGS[k] < j < k :: ParentOf(INITIAL_TREE[j]) != ParentOf(INITIAL_TREE[k])
  {
    forall j: nat | SIBLINGS[k] < j < k ensures ParentOf(INITIAL_TREE[j]) != ParentOf(INITIAL_TREE[k]) {
      NoSiblingBetween(k, j);
      SameParent(j, k);
    }
  }

  lemma {:induction false} ElderChildren(k: nat)
    requires k < |INITIAL_TREE|
    ensures Children(INITIAL_TREE, k, ParentOf(INITIAL_TREE[k])) == ELDER[k]
  {
    SiblingTable(k);
    SiblingsApart(k);
    var m := SIBLINGS[k];
    if m < 0 {
      NoneBetween(INITIAL_TREE, 0, k, ParentOf(INITIAL_TREE[k]));
    } else {
      SameParent(m, k);
      InitialNames(m);
      ElderChildren(m);
      OneMoreChild(INITIAL_TREE, m, k, ParentOf(INITIAL_TREE[k]));
    }
  }

  /** One block each, and one more where the root gets its ninth entry. */
  lemma {:induction false} InitialSpent(k: nat)
    requires k <= |INITIAL_TREE|
    ensures Spent(INITIAL_TREE, k) == 1 + k + if k > 13 then 1 else 0
  {
    if k > 0 {
      InitialSpent(k - 1);
      ElderChildren(k - 1);
      ElderTable(k - 1);
      SpentNext(INITIAL_TREE, k - 1, ELDER[k - 1]);
    }
  }

  lemma InitialList()
    ensures |INITIAL_TREE| == 22 && ParentsFirst(INITIAL_TREE) && Spells(INITIAL_DIRS, INITIAL_TREE)
  {
    forall k: nat | k < |INITIAL_TREE| ensures InOrder(INITIAL_TREE, k) {
      InitialOrder(k);
    }
    forall k | 0 <= k < |INITIAL_TREE| ensures Tokens(TruncCopy(INITIAL_DIRS[k])) == INITIAL_TREE[k] {
      InitialPaths(k);
    }
  }

  lemma RootPlanted(sb: Superblock, inodes: seq<Inode>, blocks: seq<Block>, d: Disk)
    requires Fresh(sb) && |inodes| == sb.totalInodes && |blocks| == sb.totalBlocks
    requires d == Blank(sb, inodes, blocks)
    ensures CreateDir(d, ROOT, "/").ino == ROOT && Planted(sb, CreateDir(d, ROOT, "/").disk, INITIAL_TREE, 0)
  {
    BlankIsPhysical(sb, inodes, blocks);
    RootMade(sb, d);
    RootIsPlanted(sb, CreateDir(d, ROOT, "/").disk);
  }

  lemma RootIsPlanted(sb: Superblock, d: Disk)
    requires RootOnly(sb, d)
    ensures Planted(sb, d, INITIAL_TREE, 0)
  {
    RootTree();
  }

  lemma TreePlanted(sb: Superblock, d: Disk, s: Step)
    requires |INITIAL_TREE| == 22 && Planted(sb, d, INITIAL_TREE, 0) && s == PlantAll(d, INITIAL_DIRS)
    ensures s.ok <==> sb.totalInodes >= 23 && sb.freeBlocks >= 24
    ensures s.ok ==> Planted(sb, s.disk, INITIAL_TREE, 22)
  {
    InitialList();
    InitialSpent(22);
    ListPlanted(sb, d, s, INITIAL_DIRS, INITIAL_TREE);
  }

  lemma ListPlanted(sb: Superblock, d: Disk, s: Step, paths: seq<string>, tree: seq<seq<string>>)
    requires |tree| <= 61 && ParentsFirst(tree) && Spells(paths, tree)
    requires Planted(sb, d, tree, 0) && s == PlantAll(d, paths)
    ensures s.ok <==> sb.totalInodes >= |tree| + 1 && sb.freeBlocks >= Spent(tree, |tree|)
    ensures s.ok ==> Planted(sb, s.disk, tree, |tree|)
  {
    assert paths[..|tree|] == paths;
    assert PlantedSoFar(sb, tree)(Step(d, true), 0);
    AllPlanted(sb, d, paths, tree, |tree|);
  }

  lemma PlantedIsFormatted(size: nat, sb: Superblock, img: Disk)
    requires sb == LayoutOf(size) && |INITIAL_TREE| == 22 && Planted(sb, img, INITIAL_TREE, 22)
    ensures FormattedOk(size, img)
  {
    assert INITIAL_TREE[..22] == INITIAL_TREE;
    InitialSpent(22);
  }

  // ---- main results ----

  /** What the formatter leaves on a device of this size. */
  ghost predicate FormattedOk(size: nat, img: Disk) {
    && WellFormed(img) && SameLayout(LayoutOf(size), img.sb)
    && View(img).files == map[]
    && (forall cs {:trigger Descend(View(img), cs)} ::
          Descend(View(img), cs) != NONE <==> cs == [] || cs in INITIAL_TREE)
    && Tight(img)
    && img.sb.freeInodes == LayoutOf(size).totalInodes - 23
    && img.sb.freeBlocks == LayoutOf(size).freeBlocks - 24
  }

  /** On every device formatting succeeds exactly when it has 64 KB, 23 inodes and 24 data blocks, and then the
    * image is well-formed, holds exactly the initial tree and has used that many. */
  lemma FormatExact(size: nat, inodes: seq<Inode>, blocks: seq<Block>)
    requires Device(size, inodes, blocks)
    ensures var r, sb := Format(size, inodes, blocks), LayoutOf(size);
            && (r.Done? <==> size >= 65536 && sb.totalInodes >= 23 && sb.freeBlocks >= 24)
            && (r.Done? ==> FormattedOk(size, r.img))
  {
    var sb := LayoutOf(size);
    if size >= MIN_DISK_SIZE && sb.dataStart < sb.totalBlocks {
      LayoutIsOk(size);
      FormattedTree(size, sb, inodes, blocks, Format(size, inodes, blocks));
    }
  }

  lemma FormattedTree(size: nat, sb: Superblock, inodes: seq<Inode>, blocks: seq<Block>, r: Formatted)
    requires Device(size, inodes, blocks) && sb == LayoutOf(size) && Fresh(sb) && size >= MIN_DISK_SIZE
    requires r == Format(size, inodes, blocks)
    ensures r.Done? <==> sb.totalInodes >= 23 && sb.freeBlocks >= 24
    ensures r.Done? ==> FormattedOk(size, r.img)
  {
    var root := CreateDir(Blank(sb, inodes, blocks), ROOT, "/").disk;
    RootPlanted(sb, inodes, blocks, Blank(sb, inodes, blocks));
    FromRoot(size, sb, root, PlantAll(root, INITIAL_DIRS));
  }

  lemma FromRoot(size: nat, sb: Superblock, root: Disk, s: Step)
    requires sb == LayoutOf(size) && |INITIAL_TREE| == 22 && Planted(sb, root, INITIAL_TREE, 0)
    requires s == PlantAll(root, INITIAL_DIRS)
    ensures s.ok <==> sb.totalInodes >= 23 && sb.freeBlocks >= 24
    ensures s.ok ==> FormattedOk(size, s.disk)
  {
    TreePlanted(sb, root, s);
    if s.ok {
      PlantedIsFormatted(size, sb, s.disk);
    }
  }

  /** From 64 KB, below 2^32/10 blocks, formatting always succeeds. */
  lemma FormatSucceeds(size: nat, inodes: seq<Inode>, blocks: seq<Block>)
    requires Device(size, inodes, blocks)
    requires size >= MIN_DISK_SIZE && size / BLOCK_SIZE * INODE_RATIO < TWO_32
    ensures Format(size, inodes, blocks).Done?
  {
    LayoutHasRoom(size);
    FormatExact(size, inodes, blocks);
  }

  /** One block above that bound the inode count wraps down to eight and formatting fails. */
  lemma FormatFailsAfterWrap(inodes: seq<Inode>, blocks: seq<Block>)
    requires Device(429_496_730 * BLOCK_SIZE, inodes, blocks)
    ensures Format(429_496_730 * BLOCK_SIZE, inodes, blocks) == Failed
  {
    LayoutWraps();
    FormatExact(429_496_730 * BLOCK_SIZE, inodes, blocks);
  }
}
