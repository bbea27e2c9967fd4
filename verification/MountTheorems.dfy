/** Each public operation: its exact success condition and its effect on the abstract tree. */
module MountTheorems {
  import opened ZerosFs
  import opened Bitmap
  import opened Directory
  import opened Namespace
  import opened Volume
  import opened VolumeSteps
  import opened DirectorySteps
  import opened Creation
  import opened FileContents
  import opened Paths
  import opened Operations
  import opened FileSystem
  import opened Removal

  /** The mount after an operation that leaves the current directory alone. */
  function After(fs: Mounted, s: Step): Mounted {
    fs.(disk := s.disk)
  }

  lemma CwdInView(fs: Mounted)
    requires LiveDir(fs.disk, fs.cwd)
    ensures fs.cwd in View(fs.disk).dirs
  {
  }

  lemma MountOkAfter(fs: Mounted, d': Disk, ns': Namespace)
    requires LayoutOk(fs.disk.sb) && SameLayout(fs.disk.sb, d'.sb)
    requires Physical(d') && View(d') == ns' && TreeInv(ns') && fs.cwd in ns'.dirs
    ensures MountOk(fs.(disk := d'))
  {
  }

  // ---- mkdir ----

  /** mkdir succeeds iff the parent exists, the name is fresh and there is room. */
  lemma MkdirExact(fs: Mounted, path: string)
    requires MountOk(fs) && PathOk(fs, path)
    ensures var s, p := Mkdir(fs, path), ResolveParent(fs.disk, fs.cwd, path);
            s.ok <==> && p.ino != NONE && p.ino < |fs.disk.inodes|
                      && p.name !in Entries(SlotsIn(fs.disk, p.ino)) && RoomForDir(fs.disk, p.ino)
  {
    HolderIsDir(fs, path);
    var p := ResolveParent(fs.disk, fs.cwd, path);
    if p.ino != NONE {
      LookupReads(fs.disk, p.ino, p.name);
      if p.name !in Entries(SlotsIn(fs.disk, p.ino)) {
        MakeDirRefines(fs.disk, p.ino, p.name);
      }
    }
  }

  /** A successful mkdir creates that one directory; the tree survives iff the name is not empty. */
  lemma MkdirRefines(fs: Mounted, path: string)
    requires MountOk(fs) && PathOk(fs, path) && Mkdir(fs, path).ok
    ensures var s, p, ns := Mkdir(fs, path), ResolveParent(fs.disk, fs.cwd, path), View(fs.disk);
            && p.ino in ns.dirs && p.name !in ns.dirs[p.ino]
            && FreeFrom(fs.disk.inodeBits, 0) != [] && FirstFreeInode(fs.disk) !in ns.kind
            && View(s.disk) == Create(ns, p.ino, p.name, FirstFreeInode(fs.disk), Dir)
            && (p.name != "" ==> MountOk(After(fs, s)))
            && (p.name == "" ==> !WellFormed(s.disk))
  {
    HolderIsDir(fs, path);
    var s, p, d := Mkdir(fs, path), ResolveParent(fs.disk, fs.cwd, path), fs.disk;
    LookupReads(d, p.ino, p.name);
    MakeDirRefines(d, p.ino, p.name);
    assert DotsOk(View(d), p.ino);
    CreationOutcome(fs, s.disk, p.ino, p.name, FirstFreeInode(d), Dir);
  }

  /** Creating an entry keeps the mount well-formed exactly when its name is not empty. */
  lemma CreationOutcome(fs: Mounted, d': Disk, p: nat, name: string, i: nat, t: FileType)
    requires MountOk(fs) && Physical(d') && SameLayout(fs.disk.sb, d'.sb)
    requires p in View(fs.disk).dirs && !Live(fs.disk, i) && Live(d', i) && (t == Dir || t == Reg)
    requires View(d') == Create(View(fs.disk), p, name, i, t)
    requires name !in View(fs.disk).dirs[p] && (name != "" ==> ValidName(name) && Ordinary(name))
    ensures name != "" ==> MountOk(fs.(disk := d'))
    ensures name == "" ==> !WellFormed(d')
  {
    if name != "" {
      CreateKeepsTree(View(fs.disk), p, name, i, t);
      CwdInView(fs);
      CreateKeepsDirs(View(fs.disk), p, name, i, t, fs.cwd);
      MountOkAfter(fs, d', Create(View(fs.disk), p, name, i, t));
    } else {
      CreateNamelessBreaks(View(fs.disk), p, i, t);
    }
  }

  // ---- touch ----

  /** The name touch would store, cut to 119 characters, is not taken; only a longer name can fail this. */
  ghost predicate Storable(fs: Mounted, path: string) {
    var ns, p := View(fs.disk), Holder(View(fs.disk), fs.cwd, path);
    |LastComponent(path)| <= NAME_MAX || (p in ns.dirs ==> TruncName(LastComponent(path)) !in ns.dirs[p])
  }

  /** touch succeeds iff the path exists, or its parent does and there is room. */
  lemma TouchExact(fs: Mounted, path: string)
    requires MountOk(fs) && PathOk(fs, path)
    ensures var s, p := Touch(fs, path), ResolveParent(fs.disk, fs.cwd, path);
            s.ok <==> || Resolve(fs.disk, fs.cwd, path) != NONE
                      || (p.ino != NONE && p.ino < |fs.disk.inodes| && RoomForFile(fs.disk, p.ino))
  {
    HolderIsDir(fs, path);
    var p := ResolveParent(fs.disk, fs.cwd, path);
    if Resolve(fs.disk, fs.cwd, path) == NONE && p.ino != NONE {
      MakeFileExact(fs.disk, p.ino, p.name);
    }
  }

  /** An unresolved path with an existing parent has a non-empty last name; it is fresh there iff storable. */
  lemma FreshInParent(fs: Mounted, path: string)
    requires MountOk(fs) && PathOk(fs, path)
    requires Resolve(fs.disk, fs.cwd, path) == NONE && ResolveParent(fs.disk, fs.cwd, path).ino != NONE
    ensures var p := ResolveParent(fs.disk, fs.cwd, path);
            && p.name == TruncName(LastComponent(path)) && p.name != "" && p.ino in View(fs.disk).dirs
            && (p.name !in Entries(SlotsIn(fs.disk, p.ino)) <==> Storable(fs, path))
  {
    HolderIsDir(fs, path);
    PathOkIsSound(fs, path);
    ResolveAgrees(fs, path);
    var p := ResolveParent(fs.disk, fs.cwd, path);
    if LastComponent(path) == "" {
      TokensOfTrailingSlash(path);
    } else if |LastComponent(path)| <= NAME_MAX {
      SplitAgreesWithWalk(fs.disk, fs.cwd, path);
      LookupReads(fs.disk, p.ino, p.name);
    }
  }

  lemma TouchRefines(fs: Mounted, path: string)
    requires MountOk(fs) && PathOk(fs, path) && Storable(fs, path) && Touch(fs, path).ok
    ensures var s, p, ns := Touch(fs, path), ResolveParent(fs.disk, fs.cwd, path), View(fs.disk);
            && MountOk(After(fs, s))
            && (if Resolve(fs.disk, fs.cwd, path) != NONE then s.disk == fs.disk
                else
                  && p.ino in ns.dirs && p.name !in ns.dirs[p.ino]
                  && FreeFrom(fs.disk.inodeBits, 0) != [] && FirstFreeInode(fs.disk) !in ns.kind
                  && View(s.disk) == Create(ns, p.ino, p.name, FirstFreeInode(fs.disk), Reg))
  {
    var s, p, d := Touch(fs, path), ResolveParent(fs.disk, fs.cwd, path), fs.disk;
    if Resolve(d, fs.cwd, path) == NONE {
      HolderIsDir(fs, path);
      FreshInParent(fs, path);
      MakeFileRefines(d, p.ino, p.name);
      assert DotsOk(View(d), p.ino);
      CreationOutcome(fs, s.disk, p.ino, p.name, FirstFreeInode(d), Reg);
    }
  }

  /** A successful touch that creates keeps the volume well-formed iff the name it stores was not taken. */
  lemma TouchKeepsTreeIff(fs: Mounted, path: string)
    requires MountOk(fs) && PathOk(fs, path) && Touch(fs, path).ok && Resolve(fs.disk, fs.cwd, path) == NONE
    ensures MountOk(After(fs, Touch(fs, path))) <==> Storable(fs, path)
  {
    if Storable(fs, path) {
      TouchRefines(fs, path);
    } else {
      TouchDuplicates(fs, path);
    }
  }

  /** A cut name that is taken is listed twice. */
  lemma TouchDuplicates(fs: Mounted, path: string)
    requires MountOk(fs) && PathOk(fs, path) && Touch(fs, path).ok && Resolve(fs.disk, fs.cwd, path) == NONE
    requires !Storable(fs, path)
    ensures !Physical(Touch(fs, path).disk)
  {
    FreshInParent(fs, path);
    MakeFileDuplicates(fs.disk, ResolveParent(fs.disk, fs.cwd, path).ino, TruncName(LastComponent(path)));
  }

  /** Creating a file succeeds iff there is room, whether the name is taken or not. */
  lemma MakeFileExact(d: Disk, p: nat, name: string)
    requires Physical(d) && LiveDir(d, p)
    ensures MakeFile(d, p, name).ok <==> RoomForFile(d, p)
  {
    if FreeFrom(d.inodeBits, 0) != [] {
      EmptyFileStep(d, p);
      DirAddEffect(WithEmptyFile(d), p, name, FirstFreeInode(d), Reg);
    }
  }

  lemma MakeFileDuplicates(d: Disk, p: nat, name: string)
    requires Physical(d) && LiveDir(d, p) && TruncName(name) in Entries(SlotsIn(d, p)) && MakeFile(d, p, name).ok
    ensures !Physical(MakeFile(d, p, name).disk)
  {
    MakeFileExact(d, p, name);
    EmptyFileStep(d, p);
    DirAddDuplicates(WithEmptyFile(d), p, name, FirstFreeInode(d), Reg);
  }

  // ---- rm ----

  /** rm succeeds iff the path names a file or an empty directory other than the root and the cwd. */
  lemma RmExact(fs: Mounted, path: string)
    requires MountOk(fs) && PathSound(fs, path)
    ensures var i := Names(View(fs.disk), fs.cwd, path);
            Rm(fs, path).ok <==>
              i != ROOT && i != fs.cwd && (i in View(fs.disk).files || EmptyDir(View(fs.disk), i))
  {
    ResolveAgrees(fs, path);
    var i := Resolve(fs.disk, fs.cwd, path);
    if i != NONE {
      RemovableExact(fs.disk, i);
    }
  }

  lemma RemovableExact(d: Disk, i: nat)
    requires Owned(d) && Typed(d) && Live(d, i)
    ensures i != NONE && i < |d.inodes| && Readable(d.blocks, BlocksOf(d, i))
    ensures (d.inodes[i].ftype == Dir ==> OnlyDots(SlotsIn(d, i))) <==> i in View(d).files || EmptyDir(View(d), i)
  {
    OwnedIsReadable(d, i);
    KindIsKnown(d, i);
    if LiveDir(d, i) {
      OnlyDotsIsEmpty(d, i);
    }
  }

  /** A resolved path with a non-empty last name is an entry of its parent. */
  lemma ResolvedIsEntry(fs: Mounted, path: string)
    requires MountOk(fs) && PathOk(fs, path) && LastComponent(path) != ""
    requires Resolve(fs.disk, fs.cwd, path) != NONE
    ensures var p, ns := ResolveParent(fs.disk, fs.cwd, path), View(fs.disk);
            && p.ino in ns.dirs && p.name == LastComponent(path)
            && p.name in ns.dirs[p.ino] && ns.dirs[p.ino][p.name].ino == Resolve(fs.disk, fs.cwd, path)
  {
    var d, last := fs.disk, LastComponent(path);
    ResolveIsWalk(d, fs.cwd, path);
    TokensOfPath(path);
    WalkAppend(d, Start(fs.cwd, path), Tokens(Front(path)), last);
    HolderIsDir(fs, path);
    RootIsLive(d);
    var p := ResolveParent(d, fs.cwd, path).ino;
    assert p != NONE;
    LookupReads(d, p, last);
    assert Ordinary(last) ==> EntryOk(View(d), p, last);
  }

  /** With an ordinary last name, a successful rm unlinks exactly that entry. */
  lemma RmRefines(fs: Mounted, path: string)
    requires MountOk(fs) && PathOk(fs, path) && Rm(fs, path).ok
    requires LastComponent(path) != "" && Ordinary(LastComponent(path))
    ensures var s, p, ns := Rm(fs, path), ResolveParent(fs.disk, fs.cwd, path), View(fs.disk);
            && p.ino in ns.dirs && p.name in ns.dirs[p.ino]
            && ns.dirs[p.ino][p.name].ino == Names(ns, fs.cwd, path)
            && View(s.disk) == Unlink(ns, p.ino, p.name)
            && MountOk(After(fs, s))
  {
    var p, ns := ResolveParent(fs.disk, fs.cwd, path), View(fs.disk);
    RmTarget(fs, path);
    RmUnlinks(fs, path);
    UnlinkKeepsTree(ns, p.ino, p.name);
    CwdInView(fs);
    UnlinkKeepsOthers(ns, p.ino, p.name, fs.cwd);
    MountOkAfter(fs, Rm(fs, path).disk, Unlink(ns, p.ino, p.name));
  }

  lemma RmTarget(fs: Mounted, path: string)
    requires MountOk(fs) && PathOk(fs, path) && Rm(fs, path).ok
    requires LastComponent(path) != "" && Ordinary(LastComponent(path))
    ensures var p, ns, i := ResolveParent(fs.disk, fs.cwd, path), View(fs.disk), Names(View(fs.disk), fs.cwd, path);
            && p.ino in ns.dirs && p.name in ns.dirs[p.ino] && Ordinary(p.name)
            && ns.dirs[p.ino][p.name].ino == i && i == Resolve(fs.disk, fs.cwd, path)
            && i != p.ino && i != fs.cwd && (i in ns.files || EmptyDir(ns, i))
  {
    PathOkIsSound(fs, path);
    RmExact(fs, path);
    ResolveAgrees(fs, path);
    ResolvedIsEntry(fs, path);
    UnlinkDisowns(View(fs.disk), ResolveParent(fs.disk, fs.cwd, path).ino, LastComponent(path));
  }

  lemma RmUnlinks(fs: Mounted, path: string)
    requires MountOk(fs) && PathOk(fs, path) && Rm(fs, path).ok
    requires LastComponent(path) != "" && Ordinary(LastComponent(path))
    ensures var d', p, ns := Rm(fs, path).disk, ResolveParent(fs.disk, fs.cwd, path), View(fs.disk);
            && p.ino in ns.dirs && p.name in ns.dirs[p.ino]
            && Physical(d') && SameLayout(fs.disk.sb, d'.sb)
            && View(d') == Unlink(ns, p.ino, p.name)
  {
    var p := ResolveParent(fs.disk, fs.cwd, path);
    RmTarget(fs, path);
    DropThenRemove(fs.disk, Resolve(fs.disk, fs.cwd, path), p.ino, p.name);
    RmSteps(fs, path);
  }

  lemma RmSteps(fs: Mounted, path: string)
    requires CPath(path) && Rm(fs, path).ok
    requires ResolveParent(fs.disk, fs.cwd, path).ino != NONE
    ensures var i, p := Resolve(fs.disk, fs.cwd, path), ResolveParent(fs.disk, fs.cwd, path);
            && i < |fs.disk.inodes| && Readable(fs.disk.blocks, BlocksOf(fs.disk, i))
            && Rm(fs, path) == Step(DirRemove(Dropped(fs.disk, i), p.ino, p.name).disk, true)
  {
    ParentFrame(fs.disk, Dropped(fs.disk, Resolve(fs.disk, fs.cwd, path)), fs.cwd, path);
  }

  /** A path ending in ".." never names something rm would remove. */
  lemma RmRefusesDotDot(fs: Mounted, path: string)
    requires MountOk(fs) && PathOk(fs, path) && LastComponent(path) == ".."
    ensures !Rm(fs, path).ok
  {
    PathOkIsSound(fs, path);
    RmExact(fs, path);
    ResolveAgrees(fs, path);
    var i, ns := Resolve(fs.disk, fs.cwd, path), View(fs.disk);
    if i != NONE {
      ResolvedIsEntry(fs, path);
      var p := ResolveParent(fs.disk, fs.cwd, path).ino;
      assert DotsOk(ns, p);
      if p != ROOT {
        ParentHoldsChild(ns, p);
        var m :| Child(ns, i, m, p);
        assert m in ns.dirs[i] && Ordinary(m);
      }
    }
  }

  /** A path ending in "/" or "." names the inode its directory part names. */
  lemma DotIsItsHolder(fs: Mounted, path: string)
    requires MountOk(fs) && PathSound(fs, path) && Resolve(fs.disk, fs.cwd, path) != NONE
    requires LastComponent(path) == "" || LastComponent(path) == "."
    ensures ResolveParent(fs.disk, fs.cwd, path).ino == Resolve(fs.disk, fs.cwd, path)
  {
    ResolveAgrees(fs, path);
    PathOkIsSound(fs, path);
    if LastComponent(path) == "" {
      TokensOfTrailingSlash(path);
      ParentAgrees(fs, path);
    } else {
      ResolvedIsEntry(fs, path);
      assert DotsOk(View(fs.disk), ResolveParent(fs.disk, fs.cwd, path).ino);
    }
  }

  /** Every inode but the root is listed in some other directory. */
  lemma HasParent(ns: Namespace, i: nat) returns (q: nat, m: string)
    requires TreeInv(ns) && i in ns.kind && i != ROOT
    ensures Child(ns, q, m, i) && q != i
  {
    assert Reachable(ns, i);
    var path :| Descend(ns, path) == i;
    q, m := Descend(ns, path[..|path| - 1]), path[|path| - 1];
    if q == i {
      NoSelfChild(ns, path, m, i);
    }
  }

  /** Removing "x/." or "x/" frees x but leaves x's entry in its parent dangling. */
  lemma RmOfDotBreaks(fs: Mounted, path: string)
    requires MountOk(fs) && PathSound(fs, path) && Rm(fs, path).ok
    requires LastComponent(path) == "" || LastComponent(path) == "."
    ensures !WellFormed(Rm(fs, path).disk)
  {
    var d, i := fs.disk, Resolve(fs.disk, fs.cwd, path);
    ResolveAgrees(fs, path);
    DotIsItsHolder(fs, path);
    RmSteps(fs, path);
    var q, m := HasParent(View(d), i);
    RemovalInside(d, i, ResolveParent(d, fs.cwd, path).name, q);
    Dangling(Rm(fs, path).disk, q, m, i);
  }

  /** Removing an entry of the dropped inode itself leaves directories as they were. */
  lemma RemovalInside(d: Disk, i: nat, name: string, q: nat)
    requires Physical(d) && Live(d, i) && LiveDir(d, q) && q != i
    ensures Readable(d.blocks, BlocksOf(d, i))
    ensures var d' := DirRemove(Dropped(d, i), i, name).disk;
            !Live(d', i) && LiveDir(d', q) && SlotsIn(d', q) == SlotsIn(d, q)
  {
    DroppedKeepsPhysical(d, i);
    var e, bs := Dropped(d, i), BlocksOf(d, i);
    var k := Find(SlotsIn(e, i), Named(name));
    if k < |SlotsIn(e, i)| {
      SlotBlockReadable(e.blocks, bs, k);
      assert Owns(d, i, bs[k / 8]);
      BlockIsPrivate(d, i, bs[k / 8]);
    }
    SameNodeFrame(d, DirRemove(e, i, name).disk, q);
  }

  lemma Dangling(d: Disk, q: nat, m: string, i: nat)
    requires LiveDir(d, q) && !Live(d, i) && Ordinary(m)
    requires m in Entries(SlotsIn(d, q)) && Entries(SlotsIn(d, q))[m].ino == i
    ensures !TreeInv(View(d))
  {
    assert q in View(d).dirs && m in View(d).dirs[q];
    assert !EntryOk(View(d), q, m);
  }

  /** A successful rm keeps the file system well-formed iff the path does not end in "/" or ".". */
  lemma RmKeepsTreeIff(fs: Mounted, path: string)
    requires MountOk(fs) && PathSound(fs, path) && Rm(fs, path).ok
    ensures MountOk(After(fs, Rm(fs, path))) <==> LastComponent(path) != "" && LastComponent(path) != "."
  {
    PathOkIsSound(fs, path);
    if LastComponent(path) == "" || LastComponent(path) == "." {
      RmOfDotBreaks(fs, path);
    } else if LastComponent(path) == ".." {
      RmRefusesDotDot(fs, path);
    } else {
      RmRefines(fs, path);
    }
  }

  // ---- read ----

  /** Every block of an inode in use can be read. */
  lemma NeededIsReadable(d: Disk, i: nat, size: nat)
    requires Owned(d) && Live(d, i)
    ensures Readable(d.blocks, Needed(BlocksOf(d, i), size))
  {
    OwnedIsReadable(d, i);
  }

  /** A read returns the bytes of the file the path names, and nothing where the tree has no file. */
  lemma ReadAgrees(fs: Mounted, path: string)
    requires MountOk(fs) && PathSound(fs, path)
    ensures var i, ns := Names(View(fs.disk), fs.cwd, path), View(fs.disk);
            ReadFile(fs, path) == if i in ns.files then Some(ns.files[i]) else None
  {
    ResolveAgrees(fs, path);
    var i := Resolve(fs.disk, fs.cwd, path);
    if i != NONE {
      KindIsKnown(fs.disk, i);
      NeededIsReadable(fs.disk, i, fs.disk.inodes[i].size);
    }
  }

  lemma KindIsKnown(d: Disk, i: nat)
    requires Typed(d) && Live(d, i)
    ensures d.inodes[i].ftype == Reg || d.inodes[i].ftype == Dir
  {
    assert NodeOk(d.blocks, d.inodes[i]);
  }

  lemma {:induction false} WalkNsFrame(ns: Namespace, ns': Namespace, cur: nat, toks: seq<string>)
    requires ns.dirs == ns'.dirs
    ensures WalkNs(ns, cur, toks) == WalkNs(ns', cur, toks)
    decreases toks
  {
    if toks != [] && LookupNs(ns, cur, toks[0]) != NONE {
      WalkNsFrame(ns, ns', LookupNs(ns, cur, toks[0]), toks[1..]);
    }
  }

  // ---- write ----

  /** Writing to a directory fails and changes nothing. */
  lemma WriteToDirectoryFails(fs: Mounted, path: string, data: seq<byte>)
    requires MountOk(fs) && CPath(path) && Names(View(fs.disk), fs.cwd, path) in View(fs.disk).dirs
    ensures WriteFile(fs, path, data) == Step(fs.disk, false)
  {
    NamedIsSound(fs, path);
    ResolveAgrees(fs, path);
  }

  /** Writing to an existing file succeeds iff the data fits, and then replaces that file's
    * contents and nothing else, on the n lowest blocks free after releasing the old ones. */
  lemma WriteExisting(fs: Mounted, path: string, data: seq<byte>)
    requires MountOk(fs) && CPath(path) && |data| < TWO_32
    requires Names(View(fs.disk), fs.cwd, path) in View(fs.disk).files
    ensures var d, i, s, n := fs.disk, Names(View(fs.disk), fs.cwd, path), WriteFile(fs, path, data), BlocksFor(|data|);
            && Readable(d.blocks, BlocksOf(d, i))
            && (s.ok <==> Fits(BlocksForWrite(d, i), n))
            && (s.ok ==> && MountOk(After(fs, s))
                         && View(s.disk) == SetFile(View(d), i, data)
                         && WrittenShape(s.disk.inodes[i].extents, BlocksForWrite(d, i)[..n]))
  {
    NamedIsSound(fs, path);
    ResolveAgrees(fs, path);
    var d, i := fs.disk, Names(View(fs.disk), fs.cwd, path);
    OverwriteExact(d, i, data);
    if Overwrite(d, i, data).ok {
      OverwriteKeepsMount(fs, i, data);
    }
  }

  lemma OverwriteKeepsMount(fs: Mounted, i: nat, data: seq<byte>)
    requires MountOk(fs) && LiveFile(fs.disk, i) && |data| < TWO_32 && Overwrite(fs.disk, i, data).ok
    ensures MountOk(fs.(disk := Overwrite(fs.disk, i, data).disk))
    ensures View(Overwrite(fs.disk, i, data).disk) == SetFile(View(fs.disk), i, data)
  {
    OverwriteRefines(fs.disk, i, data);
    SetFileKeepsTree(View(fs.disk), i, data);
    CwdInView(fs);
    MountOkAfter(fs, Overwrite(fs.disk, i, data).disk, SetFile(View(fs.disk), i, data));
  }

  lemma {:induction false} EntersFrame(ns: Namespace, ns': Namespace, cur: nat, toks: seq<string>)
    requires ns.dirs == ns'.dirs
    ensures Enters(ns, cur, toks) <==> Enters(ns', cur, toks)
    decreases toks
  {
    if toks != [] {
      EntersFrame(ns, ns', LookupNs(ns, cur, toks[0]), toks[1..]);
    }
  }

  /** While the directories stay as they are, so do the names and what is a sound path. */
  lemma NamesFrame(fs: Mounted, fs': Mounted, path: string)
    requires fs'.cwd == fs.cwd && View(fs'.disk).dirs == View(fs.disk).dirs
    ensures Names(View(fs'.disk), fs'.cwd, path) == Names(View(fs.disk), fs.cwd, path)
    ensures PathSound(fs', path) <==> PathSound(fs, path)
  {
    WalkNsFrame(View(fs.disk), View(fs'.disk), Start(fs.cwd, path), Tokens(path));
    EntersFrame(View(fs.disk), View(fs'.disk), Start(fs.cwd, path), Tokens(path));
  }

  /** Reading back: the written path yields the data, every other file what it held before. */
  lemma WriteThenRead(fs: Mounted, path: string, data: seq<byte>, other: string)
    requires MountOk(fs) && CPath(path) && PathSound(fs, other) && |data| < TWO_32
    requires Names(View(fs.disk), fs.cwd, path) in View(fs.disk).files && WriteFile(fs, path, data).ok
    ensures var fs', ns := After(fs, WriteFile(fs, path, data)), View(fs.disk);
            && ReadFile(fs', path) == Some(data)
            && (Names(ns, fs.cwd, other) != Names(ns, fs.cwd, path) ==> ReadFile(fs', other) == ReadFile(fs, other))
  {
    WriteExisting(fs, path, data);
    NamedIsSound(fs, path);
    var fs' := After(fs, WriteFile(fs, path, data));
    ReadAfter(fs, fs', path, Names(View(fs.disk), fs.cwd, path), data);
    ReadAfter(fs, fs', other, Names(View(fs.disk), fs.cwd, path), data);
    ReadAgrees(fs, other);
  }

  /** Any read once file i holds `data`. */
  lemma ReadAfter(fs: Mounted, fs': Mounted, path: string, i: nat, data: seq<byte>)
    requires MountOk(fs') && PathSound(fs, path) && fs'.cwd == fs.cwd && i in View(fs.disk).files
    requires View(fs'.disk) == SetFile(View(fs.disk), i, data)
    ensures ReadFile(fs', path) ==
              var j, ns := Names(View(fs.disk), fs.cwd, path), View(fs.disk);
              if j == i then Some(data) else if j in ns.files then Some(ns.files[j]) else None
  {
    NamesFrame(fs, fs', path);
    ReadAgrees(fs', path);
  }

  // ---- write to a path that does not exist yet ----

  lemma {:induction false} WalkNsGrows(ns: Namespace, ns': Namespace, cur: nat, toks: seq<string>)
    requires forall p, n | p in ns.dirs && n in ns.dirs[p] ::
               p in ns'.dirs && n in ns'.dirs[p] && ns'.dirs[p][n] == ns.dirs[p][n]
    requires WalkNs(ns, cur, toks) != NONE
    ensures WalkNs(ns', cur, toks) == WalkNs(ns, cur, toks)
    decreases toks
  {
    if toks != [] {
      WalkNsGrows(ns, ns', LookupNs(ns, cur, toks[0]), toks[1..]);
    }
  }

  /** After touch has created it, the path resolves to the new inode. */
  lemma CreatedResolves(fs: Mounted, path: string)
    requires MountOk(fs) && PathOk(fs, path) && |LastComponent(path)| <= NAME_MAX && Touch(fs, path).ok
    requires Resolve(fs.disk, fs.cwd, path) == NONE
    ensures Storable(fs, path) && FreeFrom(fs.disk.inodeBits, 0) != []
    ensures Names(View(Touch(fs, path).disk), fs.cwd, path) == FirstFreeInode(fs.disk)
    ensures FirstFreeInode(fs.disk) in View(Touch(fs, path).disk).files
  {
    TouchRefines(fs, path);
    HolderIsDir(fs, path);
    FreshInParent(fs, path);
    TokensOfPath(path);
    var p := ResolveParent(fs.disk, fs.cwd, path);
    CreateIsFound(View(fs.disk), p.ino, p.name, FirstFreeInode(fs.disk), Start(fs.cwd, path), Tokens(Front(path)));
  }

  lemma CreateIsFound(ns: Namespace, p: nat, name: string, i: nat, cur: nat, front: seq<string>)
    requires KindsAgree(ns) && p in ns.dirs && i !in ns.kind && name !in ns.dirs[p]
    requires WalkNs(ns, cur, front) == p
    ensures WalkNs(Create(ns, p, name, i, Reg), cur, front + [name]) == i
  {
    WalkNsGrows(ns, Create(ns, p, name, i, Reg), cur, front);
    WalkNsAppend(Create(ns, p, name, i, Reg), cur, front, name);
  }

  /** Writing to a fresh path is touch followed by a write to the new, empty file. A last name that touch
    * has to cut is not found again: such a write fails, leaving the empty file. */
  lemma WriteFresh(fs: Mounted, path: string, data: seq<byte>)
    requires MountOk(fs) && PathOk(fs, path) && Storable(fs, path) && |data| < TWO_32
    requires Resolve(fs.disk, fs.cwd, path) == NONE
    ensures !Touch(fs, path).ok ==> WriteFile(fs, path, data) == Touch(fs, path)
    ensures Touch(fs, path).ok ==> MountOk(After(fs, Touch(fs, path)))
    ensures Touch(fs, path).ok && |LastComponent(path)| > NAME_MAX ==>
              WriteFile(fs, path, data) == Step(Touch(fs, path).disk, false)
    ensures Touch(fs, path).ok && |LastComponent(path)| <= NAME_MAX ==>
              var t := After(fs, Touch(fs, path));
              && Names(View(t.disk), t.cwd, path) in View(t.disk).files
              && WriteFile(fs, path, data) == WriteFile(t, path, data)
  {
    if Touch(fs, path).ok {
      var t := After(fs, Touch(fs, path));
      TouchRefines(fs, path);
      if |LastComponent(path)| <= NAME_MAX {
        CreatedResolves(fs, path);
        NamedIsSound(t, path);
        ResolveAgrees(t, path);
      } else {
        TouchKeepsPath(fs, path);
        LongNameIsLost(t, path);
      }
    }
  }

  /** The path stays one to resolve: it is found, or its last name was cut. */
  lemma TouchedIsSound(fs: Mounted, path: string)
    requires MountOk(fs) && PathOk(fs, path) && Storable(fs, path) && Touch(fs, path).ok
    ensures MountOk(After(fs, Touch(fs, path))) && PathSound(After(fs, Touch(fs, path)), path)
  {
    TouchRefines(fs, path);
    PathOkIsSound(fs, path);
    if Resolve(fs.disk, fs.cwd, path) == NONE {
      if |LastComponent(path)| <= NAME_MAX {
        CreatedResolves(fs, path);
        NamedIsSound(After(fs, Touch(fs, path)), path);
      } else {
        TouchKeepsPath(fs, path);
        PathOkIsSound(After(fs, Touch(fs, path)), path);
      }
    }
  }

  /** Names longer than 119 characters are in no directory. */
  lemma LongNameIsLost(fs: Mounted, path: string)
    requires MountOk(fs) && PathOk(fs, path) && |LastComponent(path)| > NAME_MAX
    ensures Resolve(fs.disk, fs.cwd, path) == NONE
  {
    var ns, last := View(fs.disk), LastComponent(path);
    PathOkIsSound(fs, path);
    ResolveAgrees(fs, path);
    TokensOfPath(path);
    if Names(ns, fs.cwd, path) != NONE {
      WalkNsPrefix(ns, Start(fs.cwd, path), Tokens(Front(path)), last);
      NamesAreShort(ns, Holder(ns, fs.cwd, path), last);
    }
  }

  lemma NamesAreShort(ns: Namespace, p: nat, n: string)
    requires TreeInv(ns) && p in ns.dirs && n in ns.dirs[p]
    ensures |n| <= NAME_MAX
  {
    assert Ordinary(n) ==> EntryOk(ns, p, n);
  }

  lemma {:induction false} WalkNsPrefix(ns: Namespace, cur: nat, toks: seq<string>, last: string)
    requires WalkNs(ns, cur, toks + [last]) != NONE
    ensures LookupNs(ns, WalkNs(ns, cur, toks), last) != NONE
    decreases toks
  {
    if toks == [] {
      assert toks + [last] == [last];
    } else {
      assert (toks + [last])[0] == toks[0] && (toks + [last])[1..] == toks[1..] + [last];
      WalkNsPrefix(ns, LookupNs(ns, cur, toks[0]), toks[1..], last);
    }
  }

  /** Creating a regular file makes no sound path unsound, its own included. */
  lemma TouchKeepsPath(fs: Mounted, path: string)
    requires MountOk(fs) && PathOk(fs, path) && Storable(fs, path) && Touch(fs, path).ok
    requires Resolve(fs.disk, fs.cwd, path) == NONE && |LastComponent(path)| > NAME_MAX
    ensures PathOk(After(fs, Touch(fs, path)), path)
  {
    HolderIsDir(fs, path);
    TouchRefines(fs, path);
    var p := ResolveParent(fs.disk, fs.cwd, path);
    CreateKeepsThrough(View(fs.disk), p.ino, p.name, FirstFreeInode(fs.disk), Start(fs.cwd, path), Tokens(Front(path)));
  }

  lemma CreateKeepsThrough(ns: Namespace, p: nat, n: string, i: nat, cur: nat, toks: seq<string>)
    requires p in ns.dirs && n !in ns.dirs[p] && ThroughDirs(ns, cur, toks) && WalkNs(ns, cur, toks) != NONE
    ensures ThroughDirs(Create(ns, p, n, i, Reg), cur, toks)
  {
    ThroughDirsGrows(ns, Create(ns, p, n, i, Reg), cur, toks);
  }

  /** A walk that arrives passes the same directories in a larger tree. */
  lemma {:induction false} ThroughDirsGrows(ns: Namespace, ns': Namespace, cur: nat, toks: seq<string>)
    requires forall p, n | p in ns.dirs && n in ns.dirs[p] ::
               p in ns'.dirs && n in ns'.dirs[p] && ns'.dirs[p][n] == ns.dirs[p][n]
    requires forall p | p in ns.dirs :: p in ns'.dirs
    requires ThroughDirs(ns, cur, toks) && WalkNs(ns, cur, toks) != NONE
    ensures ThroughDirs(ns', cur, toks)
    decreases toks
  {
    if toks != [] {
      ThroughDirsGrows(ns, ns', LookupNs(ns, cur, toks[0]), toks[1..]);
    }
  }

  /** Any successful write, to a new or an existing file, can be read back. */
  lemma WriteReadsBack(fs: Mounted, path: string, data: seq<byte>)
    requires MountOk(fs) && PathOk(fs, path) && Storable(fs, path) && |data| < TWO_32
    requires WriteFile(fs, path, data).ok
    ensures var fs' := After(fs, WriteFile(fs, path, data));
            MountOk(fs') && ReadFile(fs', path) == Some(data)
  {
    PathOkIsSound(fs, path);
    ResolveAgrees(fs, path);
    if Resolve(fs.disk, fs.cwd, path) == NONE {
      WriteFresh(fs, path, data);
      WriteReadsBackHere(After(fs, Touch(fs, path)), path, data);
    } else {
      KindIsKnown(fs.disk, Resolve(fs.disk, fs.cwd, path));
      WriteReadsBackHere(fs, path, data);
    }
  }

  lemma WriteReadsBackHere(fs: Mounted, path: string, data: seq<byte>)
    requires MountOk(fs) && CPath(path) && |data| < TWO_32 && WriteFile(fs, path, data).ok
    requires Names(View(fs.disk), fs.cwd, path) in View(fs.disk).files
    ensures var fs' := After(fs, WriteFile(fs, path, data));
            MountOk(fs') && ReadFile(fs', path) == Some(data)
  {
    NamedIsSound(fs, path);
    WriteExisting(fs, path, data);
    WriteThenRead(fs, path, data, path);
  }

  // ---- cd ----

  function Target(path: string): string {
    if path == "" then "/" else path
  }

  /** cd succeeds iff its target is a directory, and moves there without touching the volume. */
  lemma CdExact(fs: Mounted, path: string)
    requires MountOk(fs) && PathSound(fs, Target(path)) && fs.cwdPath != ""
    ensures var m, i := Cd(fs, path), Names(View(fs.disk), fs.cwd, Target(path));
            && (m.ok <==> i in View(fs.disk).dirs)
            && (m.ok ==> MountOk(m.fs) && m.fs.disk == fs.disk && m.fs.cwd == i)
            && (!m.ok ==> m.fs == fs)
  {
    ResolveAgrees(fs, Target(path));
  }
}
