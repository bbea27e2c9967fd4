/** Extents of an inode, and the blocks they cover in file order. */
module Extents {
  import opened ZerosFs

  /** The blocks of one extent; block numbers are 32-bit sums. */
  function Range(start: nat, len: nat): (r: seq<nat>)
    ensures |r| == len
    ensures forall i | 0 <= i < len :: r[i] == Add32(start, i)
  {
    seq(len, i requires 0 <= i < len => Add32(start, i))
  }

  /** Every block of the extents, in the order the nested loops visit them. */
  function Blocks(exts: seq<Extent>): seq<nat> {
    if exts == [] then []
    else
      var n := |exts| - 1;
      Blocks(exts[..n]) + Range(exts[n].start, exts[n].len)
  }

  ghost predicate NoDup(bs: seq<nat>) {
    forall i, j | 0 <= i < j < |bs| :: bs[i] != bs[j]
  }

  lemma BlocksAppend(exts: seq<Extent>, e: Extent)
    ensures Blocks(exts + [e]) == Blocks(exts) + Range(e.start, e.len)
  {
    assert (exts + [e])[..|exts|] == exts;
  }

  lemma {:induction false} BlocksConcat(a: seq<Extent>, b: seq<Extent>)
    ensures Blocks(a + b) == Blocks(a) + Blocks(b)
  {
    if b == [] {
      assert a + b == a;
    } else {
      var n := |b| - 1;
      assert (a + b)[..|a + b| - 1] == a + b[..n];
      BlocksConcat(a, b[..n]);
      Associative(Blocks(a), Blocks(b[..n]), Range(b[n].start, b[n].len));
    }
  }

  lemma Associative(a: seq<nat>, b: seq<nat>, c: seq<nat>)
    ensures (a + b) + c == a + (b + c)
  {
  }

  /** How many blocks the nested loops have passed when they reach block b of extent e. */
  function Position(exts: seq<Extent>, e: nat, b: nat): nat
    requires e <= |exts|
  {
    |Blocks(exts[..e])| + b
  }

  /** The nested loops over extents and their blocks visit the block list in order. */
  lemma VisitsInOrder(exts: seq<Extent>, e: nat)
    requires e < |exts|
    ensures Position(exts, e + 1, 0) == Position(exts, e, exts[e].len) <= |Blocks(exts)|
    ensures forall b | 0 <= b < exts[e].len :: Blocks(exts)[Position(exts, e, b)] == Add32(exts[e].start, b)
  {
    assert exts[..e + 1] == exts[..e] + [exts[e]];
    BlocksAppend(exts[..e], exts[e]);
    assert exts[..e + 1] + exts[e + 1..] == exts;
    BlocksConcat(exts[..e + 1], exts[e + 1..]);
  }

  /** One block of the visit. */
  lemma VisitsAt(exts: seq<Extent>, e: nat, b: nat, n: nat)
    requires e < |exts| && b < exts[e].len && n == Position(exts, e, b)
    ensures n < |Blocks(exts)| && Blocks(exts)[n] == Add32(exts[e].start, b) && Position(exts, e, b + 1) == n + 1
  {
    VisitsInOrder(exts, e);
  }

  lemma VisitsAll(exts: seq<Extent>)
    ensures Position(exts, 0, 0) == 0 && Position(exts, |exts|, 0) == |Blocks(exts)|
  {
    assert exts[..0] == [] && exts[..|exts|] == exts;
  }

  /** Adding one block to a file: grow the last extent if the block follows it,
    * otherwise open a new extent (fs/zeros_mount.c:637-649). */
  function AddBlock(exts: seq<Extent>, b: nat): seq<Extent> {
    var n := |exts| - 1;
    if exts != [] && Add32(exts[n].start, exts[n].len) == b then
      exts[n := Extent(exts[n].start, exts[n].len + 1)]
    else
      exts + [Extent(b, 1)]
  }

  lemma AddBlockAppends(exts: seq<Extent>, b: nat)
    requires b < TWO_32
    ensures Blocks(AddBlock(exts, b)) == Blocks(exts) + [b]
  {
    var n := |exts| - 1;
    if exts != [] && Add32(exts[n].start, exts[n].len) == b {
      var e := exts[n];
      assert AddBlock(exts, b) == exts[..n] + [Extent(e.start, e.len + 1)];
      BlocksAppend(exts[..n], Extent(e.start, e.len + 1));
      assert Range(e.start, e.len + 1) == Range(e.start, e.len) + [b];
    } else {
      BlocksAppend(exts, Extent(b, 1));
      assert Range(b, 1) == [b];
    }
  }

  /** Extents are ascending, non-empty and no two neighbours could be merged. */
  ghost predicate Maximal(exts: seq<Extent>) {
    && (forall k | 0 <= k < |exts| :: exts[k].len >= 1)
    && (forall k | 0 <= k < |exts| - 1 :: exts[k].start + exts[k].len < exts[k + 1].start)
  }

  /** Number of maximal contiguous runs of an ascending block list. */
  function RunCount(bs: seq<nat>): nat {
    if |bs| == 0 then 0
    else if |bs| == 1 then 1
    else RunCount(bs[..|bs| - 1]) + (if bs[|bs| - 1] == bs[|bs| - 2] + 1 then 0 else 1)
  }
}
