/** The whole-disk invariant, and path resolution seen through the abstract view. */
module FileSystem {
  import opened ZerosFs
  import opened Namespace
  import opened Volume
  import opened DirectorySteps
  import opened Paths
  import opened Operations
  import Dirents

  /** The regions computed by the formatter: in order, contiguous and large enough. */
  ghost predicate LayoutOk(sb: Superblock) {
    && sb.magic == MAGIC && sb.version == FS_VERSION && sb.blockSize == BLOCK_SIZE
    && sb.inodeBitmapStart == 1
    && sb.inodeBitmapBlocks >= 1 && sb.blockBitmapBlocks >= 1 && sb.inodeTableBlocks >= 1
    && sb.blockBitmapStart == sb.inodeBitmapStart + sb.inodeBitmapBlocks
    && sb.inodeTableStart == sb.blockBitmapStart + sb.blockBitmapBlocks
    && sb.dataStart == sb.inodeTableStart + sb.inodeTableBlocks
    && sb.dataStart < sb.totalBlocks
    && sb.totalInodes == sb.inodeTableBlocks * INODES_PER_BLOCK
    && (sb.inodeBitmapBlocks - 1) * BITS_PER_BLOCK < sb.totalInodes <= sb.inodeBitmapBlocks * BITS_PER_BLOCK
    && sb.totalBlocks <= sb.blockBitmapBlocks * BITS_PER_BLOCK
  }

  ghost predicate WellFormed(d: Disk) {
    Physical(d) && TreeInv(View(d)) && LayoutOk(d.sb)
  }

  ghost predicate MountOk(fs: Mounted) {
    WellFormed(fs.disk) && LiveDir(fs.disk, fs.cwd)
  }

  // ---- lookups and walks agree with the abstract view ----

  ghost function LookupNs(ns: Namespace, dir: nat, name: string): nat {
    if dir in ns.dirs && name in ns.dirs[dir] then ns.dirs[dir][name].ino else NONE
  }

  ghost function WalkNs(ns: Namespace, cur: nat, toks: seq<string>): nat
    decreases toks
  {
    if toks == [] then cur
    else
      var next := LookupNs(ns, cur, toks[0]);
      if next == NONE then NONE else WalkNs(ns, next, toks[1..])
  }

  lemma LookupAgrees(d: Disk, i: nat, name: string)
    requires LiveDir(d, i)
    ensures Lookup(d, i, name) == LookupNs(View(d), i, name)
  {
    LookupReads(d, i, name);
  }

  lemma LookupLive(ns: Namespace, i: nat, name: string)
    requires TreeInv(ns)
    ensures LookupNs(ns, i, name) == NONE || LookupNs(ns, i, name) in ns.kind
  {
    if i in ns.dirs && name in ns.dirs[i] {
      assert DotsOk(ns, i);
      assert Ordinary(name) ==> EntryOk(ns, i, name);
    }
  }

  /** Names are looked up in directories only. */
  ghost predicate Enters(ns: Namespace, cur: nat, toks: seq<string>)
    decreases toks
  {
    toks != [] ==>
      && cur in ns.dirs
      && (LookupNs(ns, cur, toks[0]) == NONE || Enters(ns, LookupNs(ns, cur, toks[0]), toks[1..]))
  }

  lemma {:induction false} WalkAgrees(d: Disk, cur: nat, toks: seq<string>)
    requires TreeInv(View(d)) && Live(d, cur) && Enters(View(d), cur, toks)
    ensures Walk(d, cur, toks) == WalkNs(View(d), cur, toks)
    ensures Walk(d, cur, toks) == NONE || Live(d, Walk(d, cur, toks))
    decreases toks
  {
    if toks != [] {
      LookupAgrees(d, cur, toks[0]);
      LookupLive(View(d), cur, toks[0]);
      var next := Lookup(d, cur, toks[0]);
      if next != NONE {
        WalkAgrees(d, next, toks[1..]);
      }
    }
  }

  /** A path that names something in the tree enters directories only. */
  lemma {:induction false} EntersOrNone(ns: Namespace, cur: nat, toks: seq<string>)
    ensures WalkNs(ns, cur, toks) != NONE ==> Enters(ns, cur, toks)
    decreases toks
  {
    if toks != [] && LookupNs(ns, cur, toks[0]) != NONE {
      EntersOrNone(ns, LookupNs(ns, cur, toks[0]), toks[1..]);
    }
  }

  /** What a path names in the abstract tree. */
  ghost function Names(ns: Namespace, cwd: nat, path: string): nat {
    WalkNs(ns, Start(cwd, path), Tokens(path))
  }

  /** The directory a path's last component lives in. */
  ghost function Holder(ns: Namespace, cwd: nat, path: string): nat {
    WalkNs(ns, Start(cwd, path), Tokens(Front(path)))
  }

  lemma RootIsLive(d: Disk)
    requires TreeInv(View(d))
    ensures LiveDir(d, ROOT)
  {
  }

  /** The path fits the buffers, and its components are looked up in directories only. */
  ghost predicate PathSound(fs: Mounted, path: string) {
    CPath(path) && Enters(View(fs.disk), Start(fs.cwd, path), Tokens(path))
  }

  lemma ResolveAgrees(fs: Mounted, path: string)
    requires TreeInv(View(fs.disk)) && LiveDir(fs.disk, fs.cwd) && PathSound(fs, path)
    ensures Resolve(fs.disk, fs.cwd, path) == Names(View(fs.disk), fs.cwd, path)
    ensures var i := Resolve(fs.disk, fs.cwd, path); i == NONE || Live(fs.disk, i)
  {
    RootIsLive(fs.disk);
    ResolveIsWalk(fs.disk, fs.cwd, path);
    WalkAgrees(fs.disk, Start(fs.cwd, path), Tokens(path));
  }

  lemma ParentAgrees(fs: Mounted, path: string)
    requires TreeInv(View(fs.disk)) && LiveDir(fs.disk, fs.cwd) && CPath(path)
    requires Enters(View(fs.disk), Start(fs.cwd, path), Tokens(Front(path)))
    ensures ResolveParent(fs.disk, fs.cwd, path).ino == Holder(View(fs.disk), fs.cwd, path)
    ensures var i := ResolveParent(fs.disk, fs.cwd, path).ino; i == NONE || Live(fs.disk, i)
  {
    RootIsLive(fs.disk);
    ResolveIsWalk(fs.disk, fs.cwd, path);
    WalkAgrees(fs.disk, Start(fs.cwd, path), Tokens(Front(path)));
  }

  /** What the tree names is found. */
  lemma NamedIsSound(fs: Mounted, path: string)
    requires CPath(path) && Names(View(fs.disk), fs.cwd, path) != NONE
    ensures PathSound(fs, path)
  {
    EntersOrNone(View(fs.disk), Start(fs.cwd, path), Tokens(path));
  }

  /** After k components the path has arrived at a regular file, f, and goes on. */
  ghost predicate RunsInto(fs: Mounted, path: string, k: nat, f: nat) {
    var toks := Tokens(path);
    k < |toks| && f in View(fs.disk).files && WalkNs(View(fs.disk), Start(fs.cwd, path), toks[..k]) == f
  }

  lemma {:induction false} WalkConcat(d: Disk, cur: nat, a: seq<string>, b: seq<string>)
    requires cur != NONE && Walk(d, cur, a) != NONE
    ensures Walk(d, cur, a + b) == Walk(d, Walk(d, cur, a), b)
    decreases |b|
  {
    if b == [] {
      assert a + b == a;
    } else {
      var init, last := b[..|b| - 1], b[|b| - 1];
      assert b == init + [last] && a + b == (a + init) + [last];
      WalkConcat(d, cur, a, init);
      WalkAppend(d, cur, a + init, last);
      WalkAppend(d, Walk(d, cur, a), init, last);
    }
  }

  lemma {:induction false} EntersRest(ns: Namespace, cur: nat, a: seq<string>, b: seq<string>)
    requires WalkNs(ns, cur, a) != NONE && Enters(ns, cur, a + b)
    ensures Enters(ns, WalkNs(ns, cur, a), b)
    decreases a
  {
    if a == [] {
      assert a + b == b;
    } else {
      assert (a + b)[0] == a[0] && (a + b)[1..] == a[1..] + b;
      EntersRest(ns, LookupNs(ns, cur, a[0]), a[1..], b);
    }
  }

  lemma FileOrDir(ns: Namespace, i: nat)
    requires KindsAgree(ns) && i in ns.kind
    ensures i in ns.dirs || i in ns.files
    ensures i in ns.files ==> i !in ns.dirs && i != NONE
  {
  }

  lemma PrefixNext(toks: seq<string>, k: nat)
    requires k < |toks|
    ensures toks[..k + 1][0] == toks[0] && toks[..k + 1][1..] == toks[1..][..k]
  {
  }

  /** A walk that does not keep to directories comes to a regular file first. */
  lemma {:induction false} FirstFile(ns: Namespace, cur: nat, toks: seq<string>) returns (k: nat, f: nat)
    requires TreeInv(ns) && cur in ns.kind && !Enters(ns, cur, toks)
    ensures k < |toks| && f in ns.files && WalkNs(ns, cur, toks[..k]) == f
    decreases toks
  {
    FileOrDir(ns, cur);
    if cur in ns.dirs {
      LookupLive(ns, cur, toks[0]);
      k, f := FirstFile(ns, LookupNs(ns, cur, toks[0]), toks[1..]);
      PrefixNext(toks, k);
      k := k + 1;
    } else {
      k, f := 0, cur;
      assert toks[..0] == [];
    }
  }

  lemma WalkArrives(d: Disk, cur: nat, a: seq<string>)
    requires TreeInv(View(d)) && Live(d, cur) && WalkNs(View(d), cur, a) != NONE
    ensures Walk(d, cur, a) == WalkNs(View(d), cur, a) && cur != NONE
  {
    EntersOrNone(View(d), cur, a);
    WalkAgrees(d, cur, a);
  }

  lemma WalkBeyond(d: Disk, cur: nat, a: seq<string>, b: seq<string>, f: nat)
    requires TreeInv(View(d)) && Live(d, cur) && WalkNs(View(d), cur, a) == f && f != NONE
    ensures Walk(d, cur, a + b) == Walk(d, f, b)
  {
    WalkArrives(d, cur, a);
    WalkConcat(d, cur, a, b);
  }

  lemma StopsAtFile(ns: Namespace, cur: nat, a: seq<string>, b: seq<string>, f: nat)
    requires KindsAgree(ns) && f in ns.files && WalkNs(ns, cur, a) == f && b != []
    ensures f != NONE && !Enters(ns, cur, a + b) && WalkNs(ns, cur, a + b) == NONE
  {
    FileOrDir(ns, f);
    if Enters(ns, cur, a + b) {
      EntersRest(ns, cur, a, b);
    }
    EntersOrNone(ns, cur, a + b);
  }

  lemma CutInTwo(toks: seq<string>, k: nat)
    requires k <= |toks|
    ensures toks == toks[..k] + toks[k..]
  {
  }

  lemma WalkSplits(d: Disk, cur: nat, toks: seq<string>, k: nat, f: nat)
    requires TreeInv(View(d)) && Live(d, cur) && k < |toks| && f in View(d).files
    requires WalkNs(View(d), cur, toks[..k]) == f
    ensures !Enters(View(d), cur, toks) && WalkNs(View(d), cur, toks) == NONE
    ensures Walk(d, cur, toks) == Walk(d, f, toks[k..])
  {
    CutInTwo(toks, k);
    StopsAtFile(View(d), cur, toks[..k], toks[k..], f);
    WalkBeyond(d, cur, toks[..k], toks[k..], f);
  }

  /** From a file on, the tree finds nothing and the resolver what the file's bytes spell. */
  lemma BeyondFile(fs: Mounted, path: string, k: nat, f: nat)
    requires TreeInv(View(fs.disk)) && LiveDir(fs.disk, fs.cwd) && CPath(path) && RunsInto(fs, path, k, f)
    ensures !PathSound(fs, path) && Names(View(fs.disk), fs.cwd, path) == NONE
    ensures Resolve(fs.disk, fs.cwd, path) == Walk(fs.disk, f, Tokens(path)[k..])
  {
    RootIsLive(fs.disk);
    ResolveIsWalk(fs.disk, fs.cwd, path);
    WalkSplits(fs.disk, Start(fs.cwd, path), Tokens(path), k, f);
  }

  /** The path runs into a regular file whose bytes, read as entries, do not spell the rest of it. */
  ghost predicate EndsInFile(fs: Mounted, path: string) {
    exists k: nat, f: nat :: RunsInto(fs, path, k, f) && Walk(fs.disk, f, Tokens(path)[k..]) == NONE
  }

  /** The resolver agrees with the tree exactly on paths that enter directories only, and on those that end in
    * a file so. */
  lemma ResolverExact(fs: Mounted, path: string)
    requires TreeInv(View(fs.disk)) && LiveDir(fs.disk, fs.cwd) && CPath(path)
    ensures Resolve(fs.disk, fs.cwd, path) == Names(View(fs.disk), fs.cwd, path) <==>
              PathSound(fs, path) || EndsInFile(fs, path)
  {
    if PathSound(fs, path) {
      ResolveAgrees(fs, path);
    } else {
      RootIsLive(fs.disk);
      var k, f := FirstFile(View(fs.disk), Start(fs.cwd, path), Tokens(path));
      BeyondFile(fs, path, k, f);
      if EndsInFile(fs, path) {
        var j: nat, g: nat :| RunsInto(fs, path, j, g) && Walk(fs.disk, g, Tokens(path)[j..]) == NONE;
        BeyondFile(fs, path, j, g);
      }
    }
  }

  /** A regular file is walked through: when its bytes read as an entry `name` of inode j, "path/name" is found
    * to be j, although the tree has no such name. */
  lemma FileIsWalkedThrough(fs: Mounted, path: string, long: string, name: string, f: nat)
    requires TreeInv(View(fs.disk)) && LiveDir(fs.disk, fs.cwd)
    requires path != "" && name != "" && '/' !in name && long == path + "/" + name && CPath(long)
    requires f == Names(View(fs.disk), fs.cwd, path) && f in View(fs.disk).files && Lookup(fs.disk, f, name) != NONE
    ensures Resolve(fs.disk, fs.cwd, long) == Lookup(fs.disk, f, name)
    ensures Names(View(fs.disk), fs.cwd, long) == NONE && !PathSound(fs, long)
  {
    LongerPath(path, long, name, fs.cwd);
    NamedIsSound(fs, path);
    ResolveAgrees(fs, path);
    ResolveIsWalk(fs.disk, fs.cwd, path);
    ResolveIsWalk(fs.disk, fs.cwd, long);
    WalkAppend(fs.disk, Start(fs.cwd, path), Tokens(path), name);
    WalkNsAppend(View(fs.disk), Start(fs.cwd, path), Tokens(path), name);
    assert Tokens(long)[..|Tokens(path)|] == Tokens(path);
    BeyondFile(fs, long, |Tokens(path)|, f);
  }

  lemma LongerPath(path: string, long: string, name: string, cwd: nat)
    requires path != "" && name != "" && '/' !in name && long == path + "/" + name && CPath(long)
    ensures CPath(path) && Start(cwd, long) == Start(cwd, path) && Tokens(long) == Tokens(path) + [name]
  {
    assert forall k | 0 <= k < |path| :: long[k] == path[k];
    TokensSplit(path, name);
  }

  /** The first block of f holds an entry for this inode number among its bytes. */
  ghost predicate Forged(d: Disk, f: nat, ino: Dirents.Four) {
    && f < |d.inodes| && BlocksOf(d, f) != [] && BlocksOf(d, f)[0] < |d.blocks|
    && d.blocks[BlocksOf(d, f)[0]].Bytes? && Dirents.IsForged(d.blocks[BlocksOf(d, f)[0]].data, ino)
  }

  /** Such bytes exist for every number: with them "x" is found in the file. */
  lemma ForgedLookup(d: Disk, f: nat, ino: Dirents.Four)
    requires Forged(d, f, ino) && Dirents.Number(ino) != NONE
    ensures Lookup(d, f, "x") == Dirents.Number(ino)
  {
    Dirents.ForgedReads(d.blocks[BlocksOf(d, f)[0]].data, ino);
    assert SlotsIn(d, f)[0] == Dirent(Dirents.Number(ino), Reg, "x");
  }

  lemma {:induction false} WalkNsAppend(ns: Namespace, cur: nat, toks: seq<string>, last: string)
    requires WalkNs(ns, cur, toks) != NONE
    ensures WalkNs(ns, cur, toks + [last]) == LookupNs(ns, WalkNs(ns, cur, toks), last)
    decreases toks
  {
    if toks == [] {
      assert toks + [last] == [last];
    } else {
      assert (toks + [last])[1..] == toks[1..] + [last];
      WalkNsAppend(ns, LookupNs(ns, cur, toks[0]), toks[1..], last);
    }
  }

  // ---- preconditions on paths ----

  /** Every inode the walk visits, its end included, is a directory. */
  ghost predicate ThroughDirs(ns: Namespace, cur: nat, toks: seq<string>)
    decreases toks
  {
    && cur in ns.dirs
    && (toks != [] ==>
          var next := LookupNs(ns, cur, toks[0]);
          next == NONE || ThroughDirs(ns, next, toks[1..]))
  }

  lemma {:induction false} ThroughDirsEnd(ns: Namespace, cur: nat, toks: seq<string>)
    requires ThroughDirs(ns, cur, toks)
    ensures WalkNs(ns, cur, toks) == NONE || WalkNs(ns, cur, toks) in ns.dirs
    decreases toks
  {
    if toks != [] {
      var next := LookupNs(ns, cur, toks[0]);
      if next != NONE {
        ThroughDirsEnd(ns, next, toks[1..]);
      }
    }
  }

  /** The path fits the buffers, and all of it but its last component names directories as far as it
    * names anything. */
  ghost predicate PathOk(fs: Mounted, path: string) {
    CPath(path) && ThroughDirs(View(fs.disk), Start(fs.cwd, path), Tokens(Front(path)))
  }

  lemma {:induction false} ThroughEnters(ns: Namespace, cur: nat, toks: seq<string>, last: string)
    ensures ThroughDirs(ns, cur, toks) <==> Enters(ns, cur, toks + [last])
    ensures ThroughDirs(ns, cur, toks) ==> Enters(ns, cur, toks)
    decreases toks
  {
    assert (toks + [last])[0] == if toks == [] then last else toks[0];
    if toks == [] {
      assert (toks + [last])[1..] == [];
    } else {
      assert (toks + [last])[1..] == toks[1..] + [last];
      ThroughEnters(ns, LookupNs(ns, cur, toks[0]), toks[1..], last);
    }
  }

  /** For a path with a last name the two conditions are one; a trailing slash asks for a directory
    * before it in PathOk only. */
  lemma PathOkIsSound(fs: Mounted, path: string)
    ensures PathOk(fs, path) ==> PathSound(fs, path)
    ensures PathOk(fs, path) ==> Enters(View(fs.disk), Start(fs.cwd, path), Tokens(Front(path)))
    ensures LastComponent(path) != "" ==> (PathOk(fs, path) <==> PathSound(fs, path))
  {
    ThroughEnters(View(fs.disk), Start(fs.cwd, path), Tokens(Front(path)), LastComponent(path));
    if LastComponent(path) == "" {
      TokensOfTrailingSlash(path);
    } else {
      TokensOfPath(path);
    }
  }

  lemma LastComponentValid(path: string)
    requires CPath(path)
    ensures var name := TruncName(LastComponent(path)); name != "" ==> ValidName(name)
  {
    var last := LastComponent(path);
    assert forall k | 0 <= k < |last| :: last[k] == path[LastSlash(path) + 1 + k];
  }

  lemma HolderIsDir(fs: Mounted, path: string)
    requires MountOk(fs) && PathOk(fs, path)
    ensures var p := ResolveParent(fs.disk, fs.cwd, path);
            && p.ino == Holder(View(fs.disk), fs.cwd, path)
            && (p.ino != NONE ==> LiveDir(fs.disk, p.ino) && p.ino in View(fs.disk).dirs)
            && p.name == TruncName(LastComponent(path))
            && (p.name != "" ==> ValidName(p.name))
  {
    PathOkIsSound(fs, path);
    ParentAgrees(fs, path);
    ThroughDirsEnd(View(fs.disk), Start(fs.cwd, path), Tokens(Front(path)));
    LastComponentValid(path);
  }
}
