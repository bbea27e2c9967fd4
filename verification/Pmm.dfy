/** The page allocator underneath the heap and the scheduler (kernel/pmm.c). */
module Pmm {
  import opened Bitmap

  const PAGE_SIZE := 4096
  const MAX_PAGES := 512 * 1024 * 8
  const WORD := 32

  const TWO_32 := 0x1_0000_0000

  /** The page an address computed in 32 bits lies in. */
  function PagesTo(address: nat): nat {
    address % TWO_32 / PAGE_SIZE
  }

  /** A range comes out empty exactly when it ends in the page it starts in or beyond the address space: what
    * reaches the very top is marked neither free nor used. */
  lemma EmptyRangeIff(base: nat, end: nat)
    requires base < TWO_32 && base <= end < base + TWO_32
    ensures PagesTo(end) <= base / PAGE_SIZE <==> end / PAGE_SIZE == base / PAGE_SIZE || end >= TWO_32
  {
    if end >= TWO_32 {
      assert end % TWO_32 == end - TWO_32 <= base;
    } else {
      assert end % TWO_32 == end;
    }
  }

  /** The pages pmm_alloc looks at: whole 32-bit words of the bitmap. */
  function Scanned(total: nat): nat {
    total / WORD * WORD
  }

  /** The free pages pmm_alloc can hand out, in the order in which it does. */
  function Supply(used: seq<bool>, total: nat): seq<nat>
    requires total <= |used|
  {
    FreeFrom(used[..Scanned(total)], 0)
  }

  /** Every free page, the up to 31 pages of the last partial word included. */
  function AllFree(used: seq<bool>, total: nat): seq<nat>
    requires total <= |used|
  {
    FreeFrom(used[..total], 0)
  }

  lemma PrefixUpdated(used: seq<bool>, n: nat, p: nat, v: bool)
    requires n <= |used| && p < |used|
    ensures used[p := v][..n] == if p < n then used[..n][p := v] else used[..n]
  {
  }

  /** Taking a page counts one down, giving one back counts one up. */
  lemma CountChanges(used: seq<bool>, total: nat, p: nat, v: bool)
    requires p < total <= |used| && used[p] != v
    ensures |AllFree(used[p := v], total)| == |AllFree(used, total)| + (if v then -1 else 1)
  {
    PrefixUpdated(used, total, p, v);
    if v {
      FreeAfterRelease(used[p := v][..total], 0, p);
      assert used[p := v][..total][p := false] == used[..total];
    } else {
      FreeAfterRelease(used[..total], 0, p);
    }
  }

  /** An allocation takes the head of the supply and nothing else. */
  lemma AllocTakesHead(used: seq<bool>, total: nat)
    requires total <= |used| && Supply(used, total) != []
    ensures var p := Supply(used, total)[0];
            p < total && !used[p] && Supply(used[p := true], total) == Supply(used, total)[1..]
  {
    var p := Supply(used, total)[0];
    assert !used[..Scanned(total)][p];
    PrefixUpdated(used, Scanned(total), p, true);
    FreeAfterAlloc(used[..Scanned(total)], 0);
  }

  /** What can be handed out are the free pages of the whole words, in ascending order. Free pages can be left when
    * nothing is handed out any more: only in the last partial word, so fewer than 32. */
  lemma ExhaustedMeans(used: seq<bool>, total: nat)
    requires total <= |used|
    ensures forall p: nat :: p in Supply(used, total) <==> p < total / 32 * 32 && !used[p]
    ensures forall i, j | 0 <= i < j < |Supply(used, total)| :: Supply(used, total)[i] < Supply(used, total)[j]
    ensures Supply(used, total) == [] <==> forall p | p in AllFree(used, total) :: total / 32 * 32 <= p
    ensures Supply(used, total) == [] ==> |AllFree(used, total)| < 32
  {
    var n := Scanned(total);
    forall p: nat | p < n && !used[p] ensures p in Supply(used, total) && p in AllFree(used, total) {
      FreeComplete(used[..n], 0, p);
      FreeComplete(used[..total], 0, p);
    }
    forall p | p in Supply(used, total) ensures p in AllFree(used, total) && p < n {
      assert !used[..n][p];
      FreeComplete(used[..total], 0, p);
    }
    if Supply(used, total) == [] {
      FullBelow(used[..total], 0, n);
      FreeCountBound(used[..total], n);
    } else {
      assert Supply(used, total)[0] in Supply(used, total);
    }
  }

  lemma {:induction false} FullBelow(used: seq<bool>, from: nat, n: nat)
    requires from <= n <= |used| && forall p: nat | from <= p < n :: used[p]
    ensures FreeFrom(used, from) == FreeFrom(used, n)
    decreases n - from
  {
    if from < n {
      FullBelow(used, from + 1, n);
    }
  }

  class PageAllocator {
    const used: array<bool>
    var totalPages: nat
    var freePages: nat

    /** The counter is the number of clear bits below totalPages. */
    ghost predicate Valid()
      reads this, used
    {
      && used.Length == MAX_PAGES && totalPages <= MAX_PAGES
      && freePages == |AllFree(used[..], totalPages)|
    }

    ghost function Pages(): seq<nat>
      requires Valid()
      reads this, used
    {
      Supply(used[..], totalPages)
    }

    /** pmm_init: everything in use until the memory map says otherwise. The byte total is a 32-bit
      * number, so that the cap at MAX_PAGES is out of reach. */
    constructor (totalKb: nat)
      ensures Valid() && freePages == 0 && fresh(used)
      ensures totalPages == totalKb * 1024 % 0x1_0000_0000 / PAGE_SIZE < MAX_PAGES
    {
      used := new bool[MAX_PAGES](_ => true);
      totalPages := totalKb * 1024 % 0x1_0000_0000 / PAGE_SIZE;
      freePages := 0;
      new;
      FreeEmpty(used[..totalPages], 0);
      assert used[..][..totalPages] == used[..totalPages];
    }

    /** Clearing or setting one bit below totalPages, with its counter. */
    method SetBit(p: nat, v: bool)
      requires Valid() && p < totalPages && used[p] != v
      modifies this`freePages, used
      ensures Valid() && used[..] == old(used[..])[p := v] && freePages == old(freePages) + (if v then -1 else 1)
    {
      CountChanges(used[..], totalPages, p, v);
      used[p] := v;
      if v {
        freePages := freePages - 1;
      } else {
        freePages := freePages + 1;
      }
    }

    /** pmm_mark_free: the pages up to the last one wholly inside, the first one even if only partly. */
    method MarkFree(base: nat, len: nat)
      requires Valid() && base < TWO_32 && len < TWO_32
      modifies this`freePages, used
      ensures Valid()
      ensures forall p | 0 <= p < MAX_PAGES ::
                used[p] == (old(used[p]) && !(base / PAGE_SIZE <= p < PagesTo(base + len) && p < totalPages))
    {
      var first, last := base / PAGE_SIZE, PagesTo(base + len);
      var p := first;
      while p < last && p < totalPages
        invariant first <= p && Valid()
        invariant forall q | 0 <= q < MAX_PAGES ::
                    used[q] == (old(used[q]) && !(first <= q < p && q < last && q < totalPages))
        decreases last - p
      {
        if used[p] {
          SetBit(p, false);
        }
        p := p + 1;
      }
    }

    /** pmm_mark_used: every page the range touches. */
    method MarkUsed(base: nat, len: nat)
      requires Valid() && base < TWO_32 && len < TWO_32
      modifies this`freePages, used
      ensures Valid()
      ensures forall p | 0 <= p < MAX_PAGES ::
                used[p] == (old(used[p]) ||
                            (base / PAGE_SIZE <= p < PagesTo(base + len + PAGE_SIZE - 1) && p < totalPages))
    {
      var first, last := base / PAGE_SIZE, PagesTo(base + len + PAGE_SIZE - 1);
      var p := first;
      while p < last && p < totalPages
        invariant first <= p && Valid()
        invariant forall q | 0 <= q < MAX_PAGES ::
                    used[q] == (old(used[q]) || (first <= q < p && q < last && q < totalPages))
        decreases last - p
      {
        if !used[p] {
          SetBit(p, true);
        }
        p := p + 1;
      }
    }

    /** The test bitmap[i] == 0xFFFFFFFF and the first clear bit otherwise: the first free page of the
      * word, or the page after the word. */
    method ScanWord(i: nat) returns (page: nat)
      requires used.Length == MAX_PAGES && i * WORD + WORD <= MAX_PAGES
      ensures i * WORD <= page <= (i + 1) * WORD && (page < (i + 1) * WORD ==> !used[page])
      ensures forall p | i * WORD <= p < page :: used[p]
    {
      page := i * WORD;
      while page < (i + 1) * WORD && used[page]
        invariant i * WORD <= page <= (i + 1) * WORD && forall p | i * WORD <= p < page :: used[p]
      {
        page := page + 1;
      }
    }

    /** pmm_alloc: the address of the lowest page of the supply. Address 0 means that there is none, but
      * is also what page 0 looks like. */
    method Alloc() returns (addr: nat)
      requires Valid()
      modifies this`freePages, used
      ensures Valid()
      ensures if old(Pages()) == [] then addr == 0 && used[..] == old(used[..])
              else addr == old(Pages())[0] * PAGE_SIZE && used[..] == old(used[..])[old(Pages())[0] := true]
      ensures Pages() == if old(Pages()) == [] then [] else old(Pages())[1..]
    {
      ghost var n := Scanned(totalPages);
      for i := 0 to totalPages / WORD
        invariant Valid() && used[..] == old(used[..]) && freePages == old(freePages)
        invariant forall p | 0 <= p < i * WORD :: used[p]
      {
        var page := ScanWord(i);
        if page < (i + 1) * WORD {
          assert page < n && forall p | 0 <= p < page :: used[..][..n][p];
          FreeHeadIsLowest(used[..][..n], 0, page);
          AllocTakesHead(used[..], totalPages);
          SetBit(page, true);
          return page * PAGE_SIZE;
        }
      }
      FreeEmpty(used[..][..n], 0);
      addr := 0;
    }

    /** pmm_free: ignores pages outside memory and pages that are free already. */
    method Free(addr: nat)
      requires Valid()
      modifies this`freePages, used
      ensures Valid()
      ensures var p := addr / PAGE_SIZE;
              if p < totalPages then used[..] == old(used[..])[p := false] else used[..] == old(used[..])
    {
      var page := addr / PAGE_SIZE;
      if page < totalPages && used[page] {
        SetBit(page, false);
      }
    }
  }
}
