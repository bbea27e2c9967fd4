/** Partial writes through the FUSE driver (fs/zeros_fuse.c), against the byte array that pwrite and
  * ftruncate of IEEE Std 1003.1-2017 leave behind. */
module FuseSpec {
  import opened ZerosFs
  import opened Directory
  import opened Namespace
  import opened Volume
  import opened DirectorySteps
  import opened Paths
  import opened Operations
  import opened FileSystem
  import opened FileContents
  import opened MountTheorems
  import opened Runs
  import opened Bitmap

  function Zeros(n: nat): seq<byte> {
    seq(n, _ => 0)
  }

  function Max(a: nat, b: nat): nat {
    if a < b then b else a
  }

  // ---- the reference: byte arrays ----

  /** The byte a gap-filled file holds at position k. */
  function ByteAt(content: seq<byte>, k: nat): byte {
    if k < |content| then content[k] else 0
  }

  /** pwrite: nothing for an empty buffer, otherwise the bytes replaced and any gap filled with zeros. */
  function PWrite(content: seq<byte>, buf: seq<byte>, offset: nat): seq<byte> {
    if buf == [] then content
    else
      seq(Max(|content|, offset + |buf|), k requires 0 <= k =>
            if offset <= k < offset + |buf| then buf[k - offset] else ByteAt(content, k))
  }

  /** ftruncate: cut, or extended with zeros. */
  function FTruncate(content: seq<byte>, size: nat): seq<byte> {
    seq(size, k requires 0 <= k => ByteAt(content, k))
  }

  /** pread: what is there of the `size` bytes from `offset`. */
  function PRead(content: seq<byte>, size: nat, offset: nat): seq<byte> {
    if offset >= |content| then []
    else if offset + size <= |content| then content[offset..offset + size]
    else content[offset..]
  }

  /** How many of the `size` bytes from `offset` a file of `length` bytes has. */
  function Left(length: nat, size: nat, offset: nat): nat {
    if length <= offset then 0 else if length - offset < size then length - offset else size
  }

  lemma PReadBytes(content: seq<byte>, size: nat, offset: nat)
    ensures |PRead(content, size, offset)| == Left(|content|, size, offset)
    ensures forall k | 0 <= k < Left(|content|, size, offset) :: PRead(content, size, offset)[k] == content[offset + k]
  {
  }

  // ---- the driver ----

  function OldBytes(prior: Option<seq<byte>>): seq<byte> {
    if prior.Some? then prior.value else []
  }

  /** memcpy of src into a buffer at `at`. */
  function Overlaid(data: seq<byte>, at: nat, src: seq<byte>): (r: seq<byte>)
    requires at + |src| <= |data|
    ensures |r| == |data|
  {
    data[..at] + src + data[at + |src|..]
  }

  /** The buffer zf_write builds: zeros, the old bytes over them, the new bytes over those. */
  function Patched(prior: seq<byte>, buf: seq<byte>, offset: nat): seq<byte> {
    Overlaid(Overlaid(Zeros(Max(|prior|, offset + |buf|)), 0, prior), offset, buf)
  }

  /** The buffer zf_truncate builds. */
  function Resized(prior: seq<byte>, size: nat): seq<byte> {
    if size < |prior| then prior[..size] else prior + Zeros(size - |prior|)
  }

  /** Lengths are passed on as 32-bit numbers. */
  function Cast32(data: seq<byte>): (sent: seq<byte>)
    ensures |sent| < TWO_32 && sent <= data
  {
    data[..|data| % TWO_32]
  }

  datatype FuseOp = FWrite(buf: seq<byte>, offset: nat) | FResize(size: nat)

  /** What the driver hands to zeros_write_file. */
  function Stored(content: seq<byte>, op: FuseOp): (sent: seq<byte>)
    ensures |sent| < TWO_32
  {
    match op
    case FWrite(buf, offset) => Cast32(Patched(content, buf, offset))
    case FResize(size) => Cast32(Resized(content, size))
  }

  function Reference(content: seq<byte>, op: FuseOp): seq<byte> {
    match op
    case FWrite(buf, offset) => PWrite(content, buf, offset)
    case FResize(size) => FTruncate(content, size)
  }

  function FuseApply(fs: Mounted, path: string, op: FuseOp): Step {
    WriteFile(fs, path, Stored(OldBytes(ReadFile(fs, path)), op))
  }

  lemma ApplyIsWrite(fs: Mounted, path: string, op: FuseOp, prior: Option<seq<byte>>, sent: seq<byte>)
    requires prior == ReadFile(fs, path) && sent == Stored(OldBytes(prior), op)
    ensures FuseApply(fs, path, op) == WriteFile(fs, path, sent)
  {
  }

  function FuseRead(fs: Mounted, path: string, size: nat, offset: nat): Option<seq<byte>> {
    var data := ReadFile(fs, path);
    if data == None then None else Some(PRead(data.value, size, offset))
  }

  // ---- when the driver writes what the standard says ----

  lemma PatchedAt(prior: seq<byte>, buf: seq<byte>, offset: nat, k: nat)
    requires k < Max(|prior|, offset + |buf|)
    ensures |Patched(prior, buf, offset)| == Max(|prior|, offset + |buf|)
    ensures Patched(prior, buf, offset)[k] == if offset <= k < offset + |buf| then buf[k - offset] else ByteAt(prior, k)
  {
  }

  lemma PatchedIsPWrite(prior: seq<byte>, buf: seq<byte>, offset: nat)
    requires buf != [] || offset <= |prior|
    ensures Patched(prior, buf, offset) == PWrite(prior, buf, offset)
  {
    var n := Max(|prior|, offset + |buf|);
    assert |Patched(prior, buf, offset)| == n;
    forall k | 0 <= k < n ensures Patched(prior, buf, offset)[k] == PWrite(prior, buf, offset)[k] {
      PatchedAt(prior, buf, offset, k);
    }
  }

  /** An empty write past the end pads the file with zeros up to the offset. */
  lemma EmptyWritePads(prior: seq<byte>, offset: nat)
    requires |prior| < offset
    ensures Patched(prior, [], offset) == prior + Zeros(offset - |prior|)
  {
  }

  /** The condition under which a partial write or truncation is what the standard says. The length must
    * survive the 32-bit cast, and an empty write must not start past the end. */
  predicate Faithful(content: seq<byte>, op: FuseOp) {
    match op
    case FWrite(buf, offset) =>
      if buf == [] then offset <= |content| || offset % TWO_32 == |content|
      else Max(|content|, offset + |buf|) < TWO_32
    case FResize(size) => size < TWO_32
  }

  /** The driver stores what pwrite or ftruncate would leave exactly under that condition. */
  lemma StoredExact(content: seq<byte>, op: FuseOp)
    requires |content| < TWO_32
    ensures Stored(content, op) == Reference(content, op) <==> Faithful(content, op)
  {
    match op
    case FWrite(buf, offset) =>
      if buf == [] && offset > |content| {
        EmptyWritePads(content, offset);
        EmptyWriteExact(content, offset);
      } else {
        PatchedIsPWrite(content, buf, offset);
      }
    case FResize(size) =>
      assert Resized(content, size) == FTruncate(content, size);
  }

  lemma EmptyWriteExact(content: seq<byte>, offset: nat)
    requires |content| < TWO_32 && |content| < offset
    ensures Cast32(content + Zeros(offset - |content|)) == content <==> offset % TWO_32 == |content|
  {
    var padded := content + Zeros(offset - |content|);
    assert |padded| == offset;
    if offset % TWO_32 == |content| {
      assert padded[..|content|] == content;
    }
  }

  // ---- runs ----

  /** A path the tree calls a file: what it reads as. */
  lemma FileReads(fs: Mounted, path: string)
    requires MountOk(fs) && CPath(path) && Names(View(fs.disk), fs.cwd, path) in View(fs.disk).files
    ensures PathSound(fs, path)
    ensures ReadFile(fs, path) == Some(View(fs.disk).files[Names(View(fs.disk), fs.cwd, path)])
    ensures |View(fs.disk).files[Names(View(fs.disk), fs.cwd, path)]| < TWO_32
  {
    NamedIsSound(fs, path);
    ReadAgrees(fs, path);
    FileSizeFits(fs.disk, Names(View(fs.disk), fs.cwd, path));
  }

  lemma FileSizeFits(d: Disk, i: nat)
    requires Typed(d) && LiveFile(d, i)
    ensures |Content(d, i)| < TWO_32
  {
    assert NodeOk(d.blocks, d.inodes[i]);
  }

  /** A call succeeds iff the blocks of what it stores fit once the old ones are released. */
  lemma FuseExact(fs: Mounted, path: string, op: FuseOp, i: nat, data: seq<byte>)
    requires MountOk(fs) && CPath(path) && i == Names(View(fs.disk), fs.cwd, path)
    requires i in View(fs.disk).files && data == Stored(View(fs.disk).files[i], op)
    ensures Readable(fs.disk.blocks, BlocksOf(fs.disk, i))
    ensures FuseApply(fs, path, op).ok <==> Fits(BlocksForWrite(fs.disk, i), BlocksFor(|data|))
  {
    FileReads(fs, path);
    ApplyIsWrite(fs, path, op, ReadFile(fs, path), data);
    WriteExisting(fs, path, data);
  }

  datatype FuseCall = FuseCall(path: string, op: FuseOp)

  /** The path names a file, or nothing yet. */
  ghost predicate OnFile(fs: Mounted, call: FuseCall) {
    var i := Names(View(fs.disk), fs.cwd, call.path);
    && CPath(call.path)
    && (i in View(fs.disk).files || (i == NONE && PathOk(fs, call.path) && Storable(fs, call.path)))
  }

  /** The bytes a call starts from: none for a path that names nothing. */
  ghost function Prior(ns: Namespace, cwd: nat, path: string): seq<byte> {
    var i := Names(ns, cwd, path);
    if i in ns.files then ns.files[i] else []
  }

  ghost predicate FaithfulCall(fs: Mounted, call: FuseCall) {
    Faithful(Prior(View(fs.disk), fs.cwd, call.path), call.op)
  }

  /** What a call does to a family of byte arrays; a new array gets the number `num`. */
  ghost function OnArrays(ns: Namespace, cwd: nat, call: FuseCall, num: nat): Namespace {
    var i, p := Names(ns, cwd, call.path), Holder(ns, cwd, call.path);
    var after := Reference(Prior(ns, cwd, call.path), call.op);
    if i in ns.files then SetFile(ns, i, after)
    else if p in ns.dirs then SetFile(Create(ns, p, TruncName(LastComponent(call.path)), num, Reg), num, after)
    else ns
  }

  lemma StoresReference(fs: Mounted, call: FuseCall, data: seq<byte>)
    requires MountOk(fs) && OnFile(fs, call) && FaithfulCall(fs, call)
    requires data == Reference(Prior(View(fs.disk), fs.cwd, call.path), call.op)
    ensures FuseApply(fs, call.path, call.op) == WriteFile(fs, call.path, data) && |data| < TWO_32
  {
    var prior := Prior(View(fs.disk), fs.cwd, call.path);
    if Names(View(fs.disk), fs.cwd, call.path) in View(fs.disk).files {
      FileReads(fs, call.path);
    } else {
      PathOkIsSound(fs, call.path);
      ReadAgrees(fs, call.path);
    }
    StoredExact(prior, call.op);
    ApplyIsWrite(fs, call.path, call.op, ReadFile(fs, call.path), data);
  }

  /** One successful faithful call: the file, new or not, holds the reference's bytes, nothing else changes. */
  lemma FuseStep(fs: Mounted, call: FuseCall)
    requires MountOk(fs) && OnFile(fs, call) && FaithfulCall(fs, call) && FuseApply(fs, call.path, call.op).ok
    ensures var fs' := After(fs, FuseApply(fs, call.path, call.op));
            && MountOk(fs')
            && View(fs'.disk) == OnArrays(View(fs.disk), fs.cwd, call, Fresh(fs))
  {
    var data := Reference(Prior(View(fs.disk), fs.cwd, call.path), call.op);
    StoresReference(fs, call, data);
    if Names(View(fs.disk), fs.cwd, call.path) in View(fs.disk).files {
      WriteExisting(fs, call.path, data);
    } else {
      PathOkIsSound(fs, call.path);
      ResolveAgrees(fs, call.path);
      WriteCreates(fs, call.path, data);
    }
  }

  /** The number a new file would get. */
  function Fresh(fs: Mounted): nat {
    var free := FreeFrom(fs.disk.inodeBits, 0);
    if free == [] then NONE else free[0]
  }

  /** fs' is reached from fs by these calls, all of them successful and faithful. */
  ghost predicate FuseRun(fs: Mounted, calls: seq<FuseCall>, fs': Mounted)
    decreases calls
  {
    if calls == [] then fs' == fs
    else
      && OnFile(fs, calls[0]) && FaithfulCall(fs, calls[0]) && FuseApply(fs, calls[0].path, calls[0].op).ok
      && FuseRun(After(fs, FuseApply(fs, calls[0].path, calls[0].op)), calls[1..], fs')
  }

  ghost function AllOnArrays(ns: Namespace, cwd: nat, calls: seq<FuseCall>, nums: seq<nat>): Namespace
    requires |nums| == |calls|
    decreases calls
  {
    if calls == [] then ns else AllOnArrays(OnArrays(ns, cwd, calls[0], nums[0]), cwd, calls[1..], nums[1..])
  }

  lemma OneMoreOnArrays(ns: Namespace, cwd: nat, calls: seq<FuseCall>, num: nat, rest: seq<nat>)
    requires |calls| == 1 + |rest|
    ensures AllOnArrays(ns, cwd, calls, [num] + rest)
         == AllOnArrays(OnArrays(ns, cwd, calls[0], num), cwd, calls[1..], rest)
  {
    assert ([num] + rest)[1..] == rest;
  }

  /** After any such run, on however many files, created along the way or not, the tree is what the same calls
    * make of byte arrays, numbered as the driver numbered them. */
  lemma {:induction false} FuseRunRefines(fs: Mounted, calls: seq<FuseCall>, fs': Mounted) returns (nums: seq<nat>)
    requires MountOk(fs) && FuseRun(fs, calls, fs')
    ensures MountOk(fs') && fs'.cwd == fs.cwd
    ensures |nums| == |calls| && View(fs'.disk) == AllOnArrays(View(fs.disk), fs.cwd, calls, nums)
    decreases calls
  {
    if calls == [] {
      nums := [];
    } else {
      FuseStep(fs, calls[0]);
      var rest := FuseRunRefines(After(fs, FuseApply(fs, calls[0].path, calls[0].op)), calls[1..], fs');
      nums := [Fresh(fs)] + rest;
      OneMoreOnArrays(View(fs.disk), fs.cwd, calls, Fresh(fs), rest);
    }
  }

  /** ... so a read of any path through directories returns the bytes of its array from `offset` on, as many
    * of the `size` asked for as there are. */
  lemma FuseRunReads(fs: Mounted, calls: seq<FuseCall>, fs': Mounted, path: string, size: nat, offset: nat)
    returns (nums: seq<nat>)
    requires MountOk(fs) && FuseRun(fs, calls, fs') && PathSound(fs', path)
    ensures |nums| == |calls|
    ensures var ns, got := AllOnArrays(View(fs.disk), fs.cwd, calls, nums), FuseRead(fs', path, size, offset);
            var i := Names(ns, fs.cwd, path);
            && (got.Some? <==> i in ns.files)
            && (got.Some? ==> |got.value| == Left(|ns.files[i]|, size, offset))
            && (got.Some? ==> forall k | 0 <= k < |got.value| :: got.value[k] == ns.files[i][offset + k])
  {
    nums := FuseRunRefines(fs, calls, fs');
    ReadAgrees(fs', path);
    var ns := AllOnArrays(View(fs.disk), fs.cwd, calls, nums);
    if Names(ns, fs.cwd, path) in ns.files {
      PReadBytes(ns.files[Names(ns, fs.cwd, path)], size, offset);
    }
  }

  /** What a successful faithful call leaves is what the file reads as. */
  lemma CallReadsBack(fs: Mounted, call: FuseCall)
    requires MountOk(fs) && OnFile(fs, call) && FaithfulCall(fs, call) && FuseApply(fs, call.path, call.op).ok
    ensures var fs' := After(fs, FuseApply(fs, call.path, call.op));
            ReadFile(fs', call.path) == Some(Reference(Prior(View(fs.disk), fs.cwd, call.path), call.op))
  {
    var data := Reference(Prior(View(fs.disk), fs.cwd, call.path), call.op);
    StoresReference(fs, call, data);
    if Names(View(fs.disk), fs.cwd, call.path) in View(fs.disk).files {
      WriteReadsBackHere(fs, call.path, data);
    } else {
      WriteReadsBack(fs, call.path, data);
    }
  }

  /** What a successful faithful call leaves is read in pieces. */
  lemma CallIsRead(fs: Mounted, call: FuseCall, size: nat, at: nat)
    requires MountOk(fs) && OnFile(fs, call) && FaithfulCall(fs, call) && FuseApply(fs, call.path, call.op).ok
    ensures FuseRead(After(fs, FuseApply(fs, call.path, call.op)), call.path, size, at)
         == Some(PRead(Reference(Prior(View(fs.disk), fs.cwd, call.path), call.op), size, at))
  {
    CallReadsBack(fs, call);
  }

  /** The bytes at `at` after buf was written at `offset`: the new ones where they went, the old ones elsewhere,
    * zeros in a gap. */
  ghost predicate ReadsWritten(got: Option<seq<byte>>, prior: seq<byte>, buf: seq<byte>, offset: nat, size: nat,
                               at: nat)
  {
    && got.Some?
    && |got.value| == Left(if |prior| < offset + |buf| then offset + |buf| else |prior|, size, at)
    && forall k | 0 <= k < |got.value| :: got.value[k] ==
         if offset <= at + k < offset + |buf| then buf[at + k - offset]
         else if at + k < |prior| then prior[at + k] else 0
  }

  lemma PWriteIsRead(prior: seq<byte>, buf: seq<byte>, offset: nat, size: nat, at: nat)
    requires buf != []
    ensures ReadsWritten(Some(PRead(PWrite(prior, buf, offset), size, at)), prior, buf, offset, size, at)
  {
    PReadBytes(PWrite(prior, buf, offset), size, at);
  }

  lemma SameRangeIsBuffer(got: Option<seq<byte>>, prior: seq<byte>, buf: seq<byte>, offset: nat)
    requires ReadsWritten(got, prior, buf, offset, |buf|, offset)
    ensures got == Some(buf)
  {
    assert |got.value| == |buf|;
    assert got.value == buf;
  }

  /** A read after a write, anywhere in the file; the range just written reads as the buffer. */
  lemma ReadAfterWrite(fs: Mounted, path: string, buf: seq<byte>, offset: nat, size: nat, at: nat)
    requires MountOk(fs) && OnFile(fs, FuseCall(path, FWrite(buf, offset))) && buf != []
    requires FaithfulCall(fs, FuseCall(path, FWrite(buf, offset))) && FuseApply(fs, path, FWrite(buf, offset)).ok
    ensures var fs' := After(fs, FuseApply(fs, path, FWrite(buf, offset)));
            && ReadsWritten(FuseRead(fs', path, size, at), Prior(View(fs.disk), fs.cwd, path), buf, offset, size, at)
            && FuseRead(fs', path, |buf|, offset) == Some(buf)
  {
    var prior := Prior(View(fs.disk), fs.cwd, path);
    CallIsRead(fs, FuseCall(path, FWrite(buf, offset)), size, at);
    CallIsRead(fs, FuseCall(path, FWrite(buf, offset)), |buf|, offset);
    PWriteIsRead(prior, buf, offset, size, at);
    PWriteIsRead(prior, buf, offset, |buf|, offset);
    SameRangeIsBuffer(Some(PRead(PWrite(prior, buf, offset), |buf|, offset)), prior, buf, offset);
  }

  /** The bytes at `at` after a truncation to n bytes: the old ones below n, and zeros up to n. */
  ghost predicate ReadsResized(got: Option<seq<byte>>, prior: seq<byte>, n: nat, size: nat, at: nat) {
    && got.Some? && |got.value| == Left(n, size, at)
    && forall k | 0 <= k < |got.value| :: got.value[k] == if at + k < |prior| then prior[at + k] else 0
  }

  lemma FTruncateIsRead(prior: seq<byte>, n: nat, size: nat, at: nat)
    ensures ReadsResized(Some(PRead(FTruncate(prior, n), size, at)), prior, n, size, at)
  {
    PReadBytes(FTruncate(prior, n), size, at);
  }

  /** A read after a truncation, anywhere in the file. */
  lemma ReadAfterTruncate(fs: Mounted, path: string, n: nat, size: nat, at: nat)
    requires MountOk(fs) && OnFile(fs, FuseCall(path, FResize(n)))
    requires FaithfulCall(fs, FuseCall(path, FResize(n))) && FuseApply(fs, path, FResize(n)).ok
    ensures var fs' := After(fs, FuseApply(fs, path, FResize(n)));
            ReadsResized(FuseRead(fs', path, size, at), Prior(View(fs.disk), fs.cwd, path), n, size, at)
  {
    CallIsRead(fs, FuseCall(path, FResize(n)), size, at);
    FTruncateIsRead(Prior(View(fs.disk), fs.cwd, path), n, size, at);
  }

  /** A path that names nothing is created by a successful call, and then holds what the call makes of
    * an empty file. */
  lemma FuseCreates(fs: Mounted, path: string, op: FuseOp)
    requires MountOk(fs) && PathOk(fs, path) && Storable(fs, path)
    requires Names(View(fs.disk), fs.cwd, path) == NONE && FuseApply(fs, path, op).ok && Faithful([], op)
    ensures var fs' := After(fs, FuseApply(fs, path, op));
            MountOk(fs') && ReadFile(fs', path) == Some(Reference([], op))
  {
    PathOkIsSound(fs, path);
    ResolveAgrees(fs, path);
    StoredExact([], op);
    WriteReadsBack(fs, path, Stored([], op));
  }
}
