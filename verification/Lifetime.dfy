/** From formatting to any later moment: what holds of every volume the system itself made. */
module Lifetime {
  import opened ZerosFs
  import opened Namespace
  import opened Volume
  import opened Directory
  import opened DirectorySteps
  import opened Paths
  import opened Operations
  import opened FileSystem
  import opened Prompt
  import opened Runs
  import opened TruePrompt
  import opened Strays
  import opened Lockstep
  import opened Failures
  import opened Checker
  import opened CheckerCompleteness
  import opened Formatting
  import opened FormatProofs
  import opened TightDirs
  import opened Records

  /** The mount zeros_mount_open makes of a formatted image. */
  function FirstMount(img: Disk): Mounted {
    Mounted(img, ROOT, "/")
  }

  lemma FormattedMounts(size: nat, inodes: seq<Inode>, blocks: seq<Block>)
    requires Device(size, inodes, blocks) && Format(size, inodes, blocks).Done?
    ensures var fs := FirstMount(Format(size, inodes, blocks).img); MountOk(fs) && PromptOk(fs)
  {
    FormatExact(size, inodes, blocks);
    var fs := FirstMount(Format(size, inodes, blocks).img);
    RootIsLive(fs.disk);
    assert Descend(View(fs.disk), []) == ROOT;
    assert NamesCwd(fs, []);
  }

  /** Whatever is done to a formatted volume with operations that succeed or fail harmlessly, it stays
    * well-formed and the checker reports nothing. */
  lemma FormattedStaysClean(size: nat, inodes: seq<Inode>, blocks: seq<Block>, ops: seq<Op>, fs: Mounted)
    requires Device(size, inodes, blocks) && Format(size, inodes, blocks).Done?
    requires MixedRun(FirstMount(Format(size, inodes, blocks).img), ops, fs)
    ensures MountOk(fs) && Clean(fs.disk)
  {
    FormattedMounts(size, inodes, blocks);
    MixedRunKeeps(FirstMount(Format(size, inodes, blocks).img), ops, fs);
    WellFormedIsClean(fs.disk);
  }

  /** ... and, when no cd spoils it (CdTargets.KeepsPrompt), the prompt names the current directory. */
  lemma FormattedPromptIsTrue(size: nat, inodes: seq<Inode>, blocks: seq<Block>, ops: seq<Op>, fs: Mounted)
    requires Device(size, inodes, blocks) && Format(size, inodes, blocks).Done?
    requires NormalRun(FirstMount(Format(size, inodes, blocks).img), ops, fs)
    ensures Resolve(fs.disk, fs.cwd, fs.cwdPath) == fs.cwd
  {
    FormattedMounts(size, inodes, blocks);
    PromptStaysTrue(FirstMount(Format(size, inodes, blocks).img), ops, fs);
  }

  /** ... and, in normal form or not, as long as no cd spoils it and nothing it comes past is removed. */
  lemma FormattedPromptTells(size: nat, inodes: seq<Inode>, blocks: seq<Block>, ops: seq<Op>, fs: Mounted)
    requires Device(size, inodes, blocks) && Format(size, inodes, blocks).Done?
    requires TrueRun(FirstMount(Format(size, inodes, blocks).img), ops, fs)
    ensures MountOk(fs) && TellsTruth(fs)
  {
    FormattedMounts(size, inodes, blocks);
    NormalTellsTruth(FirstMount(Format(size, inodes, blocks).img));
    RunTells(FirstMount(Format(size, inodes, blocks).img), ops, fs);
  }

  /** On a formatted volume the two programs stay in lockstep along all runs that stay clean. */
  lemma FormattedRunsAlike(size: nat, inodes: seq<Inode>, blocks: seq<Block>, calls: seq<Call>, fs: Mounted)
    requires Device(size, inodes, blocks) && Format(size, inodes, blocks).Done?
    requires MixedRun(FirstMount(Format(size, inodes, blocks).img), OpsOf(calls), fs)
    ensures AllReady(FirstMount(Format(size, inodes, blocks).img), calls)
  {
    FormattedMounts(size, inodes, blocks);
    MixedRunIsReady(FirstMount(Format(size, inodes, blocks).img), calls, fs);
  }

  lemma TightIsLinked(d: Disk)
    requires Tight(d) && View(d).files == map[] && Typed(d)
    ensures LinksOk(d)
  {
    forall x: nat | Live(d, x) ensures d.inodes[x].links == if d.inodes[x].ftype == Dir then 2 else 1 {
      assert NodeOk(d.blocks, d.inodes[x]);
      assert x !in View(d).files;
      assert TightDir(d, x);
    }
  }

  /** Along every run of successful operations on a formatted volume: directories have two links and files one; and
    * the size of a directory that was there from the start is 128 bytes for each name it has ever been given. */
  lemma FormattedRecords(size: nat, inodes: seq<Inode>, blocks: seq<Block>, ops: seq<Op>, fs: Mounted, x: nat)
    requires Device(size, inodes, blocks) && Format(size, inodes, blocks).Done?
    requires Run(FirstMount(Format(size, inodes, blocks).img), ops, fs)
    ensures LinksOk(fs.disk)
    ensures var img := Format(size, inodes, blocks).img;
            StaysDir(FirstMount(img), ops, x) ==>
              LiveDir(fs.disk, x)
              && fs.disk.inodes[x].size == 128 * (|Entries(SlotsIn(img, x))| + Listings(FirstMount(img), ops, x))
  {
    var img := Format(size, inodes, blocks).img;
    FormatExact(size, inodes, blocks);
    FormattedMounts(size, inodes, blocks);
    TightIsLinked(img);
    RunLinks(FirstMount(img), ops, fs);
    if StaysDir(FirstMount(img), ops, x) {
      RunSizes(FirstMount(img), ops, fs, x);
      assert TightDir(img, x);
    }
  }

  /** Every initial directory is where its path says. */
  lemma InitialDirsResolve(size: nat, inodes: seq<Inode>, blocks: seq<Block>, k: nat)
    requires Device(size, inodes, blocks) && Format(size, inodes, blocks).Done? && k < |INITIAL_DIRS|
    ensures var img := Format(size, inodes, blocks).img; LiveDir(img, Resolve(img, ROOT, INITIAL_DIRS[k]))
  {
    FormatExact(size, inodes, blocks);
    InitialPaths(k);
    InitialOrder(k);
    InitialPathFits(k);
    InitialPath(Format(size, inodes, blocks).img, INITIAL_DIRS[k], INITIAL_TREE[k]);
  }

  lemma InitialPathFits(k: nat)
    requires k < |INITIAL_DIRS|
    ensures CPath(INITIAL_DIRS[k])
  {
  }

  lemma InitialPath(img: Disk, path: string, cs: seq<string>)
    requires WellFormed(img) && View(img).files == map[] && Components(cs) && cs != []
    requires path == AbsPath(cs) && CPath(path) && Descend(View(img), cs) != NONE
    ensures LiveDir(img, Resolve(img, ROOT, path))
  {
    var fs := FirstMount(img);
    RootIsLive(img);
    TokensOfSlashed(cs);
    DescendIsWalk(View(img), cs);
    assert path[0] == '/' by { AbsPathShape(cs); }
    NamedIsSound(fs, path);
    ResolveAgrees(fs, path);
    var i := Resolve(img, ROOT, path);
    assert i in View(img).kind && i !in View(img).files;
  }
}
