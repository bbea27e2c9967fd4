/** The bit scans of the allocators, as the ascending list of clear bits. */
module Bitmap {

  /** The clear bits at or above `from`, in ascending order. */
  function FreeFrom(bits: seq<bool>, from: nat): (free: seq<nat>)
    ensures forall j | 0 <= j < |free| :: from <= free[j] < |bits| && !bits[free[j]]
    ensures forall i, j | 0 <= i < j < |free| :: free[i] < free[j]
    decreases |bits| - from
  {
    if from >= |bits| then []
    else if bits[from] then FreeFrom(bits, from + 1)
    else [from] + FreeFrom(bits, from + 1)
  }

  lemma {:induction false} FreeComplete(bits: seq<bool>, from: nat, b: nat)
    requires from <= b < |bits| && !bits[b]
    ensures b in FreeFrom(bits, from)
    decreases |bits| - from
  {
    if b != from {
      FreeComplete(bits, from + 1, b);
    }
  }

  /** Bits below the scanned region do not matter. */
  lemma {:induction false} FreeIgnoresBelow(bits: seq<bool>, from: nat, b: nat, v: bool)
    requires b < |bits| && b < from
    ensures FreeFrom(bits[b := v], from) == FreeFrom(bits, from)
    decreases |bits| - from
  {
    if from < |bits| {
      FreeIgnoresBelow(bits, from + 1, b, v);
    }
  }

  /** A first-fit allocation takes the head of the free list and nothing else. */
  lemma {:induction false} FreeAfterAlloc(bits: seq<bool>, from: nat)
    requires FreeFrom(bits, from) != []
    ensures FreeFrom(bits[FreeFrom(bits, from)[0] := true], from) == FreeFrom(bits, from)[1..]
    decreases |bits| - from
  {
    if bits[from] {
      FreeAfterAlloc(bits, from + 1);
    } else {
      FreeIgnoresBelow(bits, from + 1, from, true);
    }
  }

  lemma {:induction false} FreeAfterRelease(bits: seq<bool>, from: nat, b: nat)
    requires from <= b < |bits| && bits[b]
    ensures |FreeFrom(bits[b := false], from)| == |FreeFrom(bits, from)| + 1
    decreases |bits| - from
  {
    if b == from {
      FreeIgnoresBelow(bits, from + 1, from, false);
    } else {
      FreeAfterRelease(bits, from + 1, b);
    }
  }

  lemma {:induction false} FreeCountBound(bits: seq<bool>, from: nat)
    requires from <= |bits|
    ensures |FreeFrom(bits, from)| <= |bits| - from
    decreases |bits| - from
  {
    if from < |bits| {
      FreeCountBound(bits, from + 1);
    }
  }

  /** The scan stops at the lowest clear bit: everything before it is set. */
  lemma {:induction false} FreeHeadIsLowest(bits: seq<bool>, from: nat, at: nat)
    requires from <= at < |bits| && !bits[at]
    requires forall b | from <= b < at :: bits[b]
    ensures FreeFrom(bits, from) != [] && FreeFrom(bits, from)[0] == at
    decreases |bits| - from
  {
    if from < at {
      FreeHeadIsLowest(bits, from + 1, at);
    }
  }

  lemma {:induction false} FreeEmpty(bits: seq<bool>, from: nat)
    requires forall b | from <= b < |bits| :: bits[b]
    ensures FreeFrom(bits, from) == []
    decreases |bits| - from
  {
    if from < |bits| {
      FreeEmpty(bits, from + 1);
    }
  }
}
