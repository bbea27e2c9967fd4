/** Bitmaps as the kernel port keeps them: on disk, in blocks of 8192 bits (kernel/kzeros.c). */
module BitBlocks {
  import opened ZerosFs
  import opened Bitmap

  type BitBlock = s: seq<bool> | |s| == BITS_PER_BLOCK
    witness seq(BITS_PER_BLOCK, _ => false)

  /** The first `total` bits of the blocks, in order. */
  function Bits(store: seq<BitBlock>, total: nat): (bits: seq<bool>)
    requires total <= |store| * BITS_PER_BLOCK
    ensures |bits| == total
  {
    seq(total, i requires 0 <= i < total => store[i / BITS_PER_BLOCK][i % BITS_PER_BLOCK])
  }

  lemma BitAt(store: seq<BitBlock>, total: nat, b: nat, i: nat)
    requires total <= |store| * BITS_PER_BLOCK && b < |store| && i < BITS_PER_BLOCK
    requires b * BITS_PER_BLOCK + i < total
    ensures Bits(store, total)[b * BITS_PER_BLOCK + i] == store[b][i]
  {
  }

  /** Rewriting one block with one bit changed changes that bit of the whole. */
  lemma BitWritten(store: seq<BitBlock>, total: nat, at: nat, v: bool)
    requires total <= |store| * BITS_PER_BLOCK && at < total
    ensures var b, i := at / BITS_PER_BLOCK, at % BITS_PER_BLOCK;
            Bits(store[b := store[b][i := v]], total) == Bits(store, total)[at := v]
  {
    var b, i := at / BITS_PER_BLOCK, at % BITS_PER_BLOCK;
    var after := Bits(store[b := store[b][i := v]], total);
    forall j | 0 <= j < total ensures after[j] == Bits(store, total)[at := v][j] {
      assert j == (j / BITS_PER_BLOCK) * BITS_PER_BLOCK + j % BITS_PER_BLOCK;
    }
  }

  /** Unsigned 32-bit subtraction. */
  function Sub32(a: nat, b: nat): nat {
    (a - b) % TWO_32
  }

  /** How far alloc_inode scans the block whose first bit is `base`. */
  function InodeLimit(total: nat, base: nat): nat {
    if Sub32(total, base) > BITS_PER_BLOCK then BITS_PER_BLOCK else Sub32(total, base)
  }

  /** alloc_block guards the subtraction that alloc_inode does not. */
  function BlockLimit(total: nat, base: nat): nat {
    var left := if total > base then total - base else 0;
    if left > BITS_PER_BLOCK then BITS_PER_BLOCK else left
  }

  /** The unguarded limit is right exactly when no bitmap block starts past the last inode. */
  lemma InodeLimitExact(total: nat, base: nat)
    requires total < TWO_32 && base < TWO_32
    ensures InodeLimit(total, base) == BlockLimit(total, base) <==> base <= total
  {
  }

  /** The inner loop of both allocators: the first clear bit in [start, lim), or lim. */
  method ScanBlock(buf: BitBlock, start: nat, lim: nat) returns (i: nat)
    requires lim <= BITS_PER_BLOCK
    ensures start <= i && (i < lim ==> !buf[i]) && (start <= lim ==> i <= lim)
    ensures forall j | start <= j < i && j < lim :: buf[j]
  {
    i := start;
    while i < lim && buf[i]
      invariant start <= i && (start <= lim ==> i <= lim)
      invariant forall j | start <= j < i && j < lim :: buf[j]
    {
      i := i + 1;
    }
  }

  /** Bits from `from` up to the end of the first n blocks are set. */
  ghost predicate FullUpTo(bits: seq<bool>, from: nat, n: nat) {
    forall j | from <= j < n * BITS_PER_BLOCK && j < |bits| :: bits[j]
  }

  lemma FullNext(store: seq<BitBlock>, total: nat, from: nat, n: nat, start: nat, lim: nat)
    requires total <= |store| * BITS_PER_BLOCK && n < |store|
    requires FullUpTo(Bits(store, total), from, n)
    requires start == (if from > n * BITS_PER_BLOCK then from - n * BITS_PER_BLOCK else 0)
    requires lim == BlockLimit(total, n * BITS_PER_BLOCK)
    requires forall j | start <= j < lim :: store[n][j]
    ensures FullUpTo(Bits(store, total), from, n + 1)
  {
    var bits := Bits(store, total);
    forall j | from <= j < (n + 1) * BITS_PER_BLOCK && j < |bits| ensures bits[j] {
      if j >= n * BITS_PER_BLOCK {
        BitAt(store, total, n, j - n * BITS_PER_BLOCK);
      }
    }
  }

  /** The bit the block-by-block scan stops at is the one the linear scan stops at. */
  lemma StopsAtLowest(store: seq<BitBlock>, total: nat, from: nat, n: nat, start: nat, lim: nat, i: nat)
    requires total <= |store| * BITS_PER_BLOCK && n < |store|
    requires FullUpTo(Bits(store, total), from, n)
    requires start == (if from > n * BITS_PER_BLOCK then from - n * BITS_PER_BLOCK else 0)
    requires lim == BlockLimit(total, n * BITS_PER_BLOCK)
    requires start <= i < lim && !store[n][i] && forall j | start <= j < i :: store[n][j]
    ensures var at := n * BITS_PER_BLOCK + i;
            && at < total && FreeFrom(Bits(store, total), from) != [] && FreeFrom(Bits(store, total), from)[0] == at
            && at / BITS_PER_BLOCK == n && at % BITS_PER_BLOCK == i
  {
    var bits, at := Bits(store, total), n * BITS_PER_BLOCK + i;
    BitAt(store, total, n, i);
    forall j | from <= j < at ensures bits[j] {
      if j >= n * BITS_PER_BLOCK {
        BitAt(store, total, n, j - n * BITS_PER_BLOCK);
      }
    }
    FreeHeadIsLowest(bits, from, at);
  }
}
