/** fs/zeros_fuse.c as it runs: each call reads the whole file, patches a buffer and rewrites the file. */
module Fuse {
  import opened ZerosFs
  import opened Volume
  import opened Mount
  import opened FuseSpec
  import Ops = Operations

  const EIO := 5
  const ENOENT := 2
  const EINVAL := 22

  /** memcpy into a buffer. */
  method CopyInto(data: array<byte>, at: nat, src: seq<byte>)
    requires at + |src| <= data.Length
    modifies data
    ensures data[..] == Overlaid(old(data[..]), at, src)
  {
    for k := 0 to |src|
      invariant forall j | 0 <= j < data.Length ::
                  data[j] == if at <= j < at + k then src[j - at] else old(data[j])
    {
      data[at + k] := src[k];
    }
  }

  /** calloc: a buffer of zeros. */
  method Calloc(n: nat) returns (data: array<byte>)
    ensures fresh(data) && data[..] == Zeros(n)
  {
    data := new byte[n](_ => 0);
  }

  /** The buffer zf_write builds. */
  method PatchedBuffer(prior: Ops.Option<seq<byte>>, buf: seq<byte>, offset: nat) returns (data: array<byte>)
    ensures fresh(data) && data[..] == Patched(OldBytes(prior), buf, offset)
  {
    ghost var content := OldBytes(prior);
    var newLen := offset + |buf|;
    if prior.Some? && |prior.value| > newLen {
      newLen := |prior.value|;
    }
    data := Calloc(newLen);
    if prior.Some? {
      CopyInto(data, 0, prior.value);
    }
    assert data[..] == Overlaid(Zeros(newLen), 0, content);
    CopyInto(data, offset, buf);
  }

  /** The buffer zf_truncate builds; calloc is never asked for zero bytes. */
  method ResizedBuffer(prior: Ops.Option<seq<byte>>, size: nat) returns (data: array<byte>)
    ensures fresh(data) && size <= data.Length && data[..size] == Resized(OldBytes(prior), size)
  {
    data := Calloc(if size > 0 then size else 1);
    if prior.Some? {
      var copy := if size < |prior.value| then size else |prior.value|;
      CopyInto(data, 0, prior.value[..copy]);
    }
  }

  /** What zf_write passes on: the buffer, its length as a 32-bit number. */
  method BytesToWrite(prior: Ops.Option<seq<byte>>, buf: seq<byte>, offset: nat) returns (sent: seq<byte>)
    ensures sent == Stored(OldBytes(prior), FWrite(buf, offset))
  {
    var data := PatchedBuffer(prior, buf, offset);
    sent := Cast32(data[..]);
  }

  /** What zf_truncate passes on. */
  method BytesToKeep(prior: Ops.Option<seq<byte>>, size: nat) returns (sent: seq<byte>)
    ensures sent == Stored(OldBytes(prior), FResize(size))
  {
    var data := ResizedBuffer(prior, size);
    sent := Cast32(data[..size]);
  }

  class ZerosFuse {
    const mnt: ZerosMount

    constructor (mnt: ZerosMount)
      ensures this.mnt == mnt
    {
      this.mnt := mnt;
    }

    /** What the mount must offer for a call on this path. */
    ghost predicate Ready(path: string)
      reads mnt, mnt.inodeBits, mnt.blockBits
    {
      mnt.Valid() && '\0' !in path && TargetMapped(mnt.State(), path)
    }

    /** zf_read: ENOENT for what cannot be read, else the bytes from `offset` on, as many of the `size` asked
      * for as the file has. */
    method Read(path: string, size: nat, offset: nat) returns (r: int, bytes: seq<byte>)
      requires mnt.Valid() && '\0' !in path
      ensures var data := Ops.ReadFile(mnt.State(), path);
              && (data.None? ==> r == -2 && bytes == [])
              && (data.Some? && |data.value| <= offset ==> r == 0)
              && (data.Some? && offset < |data.value| ==>
                    r == if |data.value| - offset < size then |data.value| - offset else size)
              && (data.Some? ==> r == |bytes| && forall k | 0 <= k < r :: bytes[k] == data.value[offset + k])
      ensures match FuseRead(mnt.State(), path, size, offset)
              case None => r == -ENOENT && bytes == []
              case Some(data) => r == |data| && bytes == data
    {
      var data := mnt.ReadFile(path);
      if data == Ops.None {
        return -ENOENT, [];
      }
      var len := |data.value|;
      if offset >= len {
        return 0, [];
      }
      var n := len - offset;
      if n > size {
        n := size;
      }
      bytes := data.value[offset..offset + n];
      r := n;
    }

    /** zf_write: the number of bytes taken, or EIO. */
    method Write(path: string, buf: seq<byte>, offset: nat) returns (r: int)
      requires Ready(path)
      modifies mnt, mnt.inodeBits, mnt.blockBits
      ensures mnt.Valid() && (r == |buf| || r == -5)
      ensures Volume.Step(mnt.Vol(), r != -5) == FuseApply(old(mnt.State()), path, FWrite(buf, offset))
      ensures mnt.cwd == old(mnt.cwd) && mnt.cwdPath == old(mnt.cwdPath)
    {
      var prior := mnt.ReadFile(path);
      var sent := BytesToWrite(prior, buf, offset);
      ApplyIsWrite(mnt.State(), path, FWrite(buf, offset), prior, sent);
      var ok := mnt.WriteFile(path, sent);
      r := if ok then |buf| else -EIO;
    }

    /** zf_truncate: 0, EINVAL for a negative size, or EIO. */
    method Truncate(path: string, size: int) returns (r: int)
      requires Ready(path)
      modifies mnt, mnt.inodeBits, mnt.blockBits
      ensures mnt.Valid() && (r == -22 <==> size < 0) && (r == 0 || r == -22 || r == -5)
      ensures size < 0 ==> mnt.State() == old(mnt.State())
      ensures size >= 0 ==> Volume.Step(mnt.Vol(), r == 0) == FuseApply(old(mnt.State()), path, FResize(size))
      ensures mnt.cwd == old(mnt.cwd) && mnt.cwdPath == old(mnt.cwdPath)
    {
      if size < 0 {
        return -EINVAL;
      }
      var prior := mnt.ReadFile(path);
      var sent := BytesToKeep(prior, size);
      ApplyIsWrite(mnt.State(), path, FResize(size), prior, sent);
      var ok := mnt.WriteFile(path, sent);
      r := if ok then 0 else -EIO;
    }
  }
}
