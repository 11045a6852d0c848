/** Page states and the page allocator (msf/src/pages.rs). */
module Pages {
  import opened Bytes
  import opened Arith
  import opened Paging

  // ---------------------------------------------------------------- special pages

  /** Each interval of `ps` pages reserves its pages 1 and 2 for the two Free Page Maps. */
  predicate IsFpmPage(ps: nat, p: nat)
    requires 0 < ps
  {
    p % ps == 1 || p % ps == 2
  }

  predicate IsSpecial(ps: nat, p: nat)
    requires 0 < ps
  {
    p == 0 || IsFpmPage(ps, p)
  }

  function NumPagesForStreamSize(size: nat, ps: nat): nat
    requires 0 < ps
  {
    if size == NIL_STREAM_SIZE then 0 else CeilDiv(size, ps)
  }

  // ---------------------------------------------------------------- page states

  /** The three parallel bit vectors of the allocator; `fpm` is true for a free page. */
  datatype PageState = PageState(fpm: seq<bool>, freed: seq<bool>, freshPages: seq<bool>)

  ghost predicate WellFormed(a: PageState, ps: nat)
    requires 0 < ps
  {
    && 0 < |a.fpm| == |a.freed| == |a.freshPages|
    && (forall p :: 0 <= p < |a.fpm| && IsSpecial(ps, p) ==> !a.fpm[p] && !a.freed[p])
    && (forall p :: 0 <= p < |a.fpm| ==> !(a.fpm[p] && a.freed[p]))
  }

  /** Neither special, nor free, nor freed: some stream must own this page. */
  ghost predicate Busy(a: PageState, ps: nat, p: nat)
    requires 0 < ps
  {
    p < |a.fpm| && p < |a.freed| && !IsSpecial(ps, p) && !a.fpm[p] && !a.freed[p]
  }

  ghost predicate NoDup(s: seq<nat>) {
    forall i, j :: 0 <= i < j < |s| ==> s[i] != s[j]
  }

  /** The busy pages are exactly the pages of one list, each listed once, and those of a disjoint set. */
  ghost predicate Partition(a: PageState, ps: nat, pages: seq<nat>, rest: set<nat>)
    requires 0 < ps
  {
    && WellFormed(a, ps)
    && NoDup(pages)
    && (forall i :: 0 <= i < |pages| ==> Busy(a, ps, pages[i]) && pages[i] !in rest)
    && (forall p :: p in rest ==> Busy(a, ps, p))
    && (forall p :: Busy(a, ps, p) ==> p in rest || p in pages)
  }

  /** The pages in `prot` can neither be handed out nor written: they are special, or not free and not fresh. */
  ghost predicate Guarded(a: PageState, ps: nat, prot: iset<nat>)
    requires 0 < ps
  {
    forall p :: p in prot ==> IsSpecial(ps, p) || (p < |a.fpm| && p < |a.freshPages| && !a.fpm[p] && !a.freshPages[p])
  }

  /** The pages that a stream writer must not touch: those of other streams, and the protected ones. */
  ghost function KeepSet(rest: set<nat>, prot: iset<nat>): iset<nat> {
    iset p: nat | p in rest || p in prot
  }

  /** What a stream writer relies on: it owns `pages`, other streams own `rest`, and `prot` is out of reach. */
  ghost predicate Owned(a: PageState, ps: nat, pages: seq<nat>, rest: set<nat>, prot: iset<nat>)
    requires 0 < ps
  {
    Partition(a, ps, pages, rest) && Guarded(a, ps, prot)
  }

  /**
   * `a1` is `a0` with the `n` pages from `first` taken, and possibly special pages stepped over. The file has grown only
   * if no page was free, and then just up to the last of these pages.
   */
  ghost predicate Allocated(a0: PageState, a1: PageState, ps: nat, first: nat, n: nat)
    requires 0 < ps && WellFormed(a0, ps)
  {
    && |a0.fpm| <= |a1.fpm| == |a1.freed| == |a1.freshPages|
    && first + n <= |a1.fpm|
    && (forall p :: first <= p < first + n ==>
          !IsSpecial(ps, p) && !a1.fpm[p] && !a1.freed[p] && a1.freshPages[p] && (p < |a0.fpm| ==> a0.fpm[p]))
    && (forall p :: 0 <= p < |a0.fpm| && !(first <= p < first + n) ==>
          a1.fpm[p] == a0.fpm[p] && a1.freed[p] == a0.freed[p] && a1.freshPages[p] == a0.freshPages[p])
    && (forall p :: |a0.fpm| <= p < |a1.fpm| && !(first <= p < first + n) ==>
          IsSpecial(ps, p) && !a1.fpm[p] && !a1.freed[p])
    && (|a1.fpm| == |a0.fpm| || (|a1.fpm| == first + n && forall p :: 0 <= p < |a0.fpm| ==> !a0.fpm[p]))
  }

  lemma AllocatedKeepsPartition(a0: PageState, a1: PageState, ps: nat, first: nat, n: nat, pages: seq<nat>, rest: set<nat>)
    requires 0 < ps && Partition(a0, ps, pages, rest) && Allocated(a0, a1, ps, first, n)
    ensures Partition(a1, ps, pages + PageRun(first, n), rest)
  {
    var pages' := pages + PageRun(first, n);
    forall p: nat | Busy(a1, ps, p) ensures p in rest || p in pages' {
      if first <= p < first + n {
        assert PageRun(first, n)[p - first] == p;
      } else {
        assert Busy(a0, ps, p);
      }
    }
    forall i | 0 <= i < |pages| ensures Busy(a1, ps, pages[i]) && !(first <= pages[i] < first + n) {
      assert Busy(a0, ps, pages[i]);
    }
    forall p | p in rest ensures Busy(a1, ps, p) && !(first <= p < first + n) {
      assert Busy(a0, ps, p);
    }
  }

  lemma AllocatedKeepsGuarded(a0: PageState, a1: PageState, ps: nat, first: nat, n: nat, rest: set<nat>, prot: iset<nat>)
    requires 0 < ps && WellFormed(a0, ps) && Guarded(a0, ps, prot) && Allocated(a0, a1, ps, first, n)
    requires forall p :: p in rest ==> Busy(a0, ps, p)
    ensures Guarded(a1, ps, prot)
    ensures forall p :: p in KeepSet(rest, prot) ==> p < first || first + n <= p
  {
  }

  lemma AllocatedKeepsOwned(a0: PageState, a1: PageState, ps: nat, first: nat, n: nat,
                            pages: seq<nat>, rest: set<nat>, prot: iset<nat>)
    requires 0 < ps && Owned(a0, ps, pages, rest, prot) && Allocated(a0, a1, ps, first, n)
    ensures Owned(a1, ps, pages + PageRun(first, n), rest, prot)
    ensures forall p :: p in KeepSet(rest, prot) ==> p < first || first + n <= p
    ensures forall i :: 0 <= i < |pages| ==> pages[i] < first || first + n <= pages[i]
  {
    AllocatedKeepsPartition(a0, a1, ps, first, n, pages, rest);
    AllocatedKeepsGuarded(a0, a1, ps, first, n, rest, prot);
    forall i | 0 <= i < |pages| ensures pages[i] < first || first + n <= pages[i] {
      assert Busy(a0, ps, pages[i]);
    }
  }

  /** A fresh page of the stream is not one of the pages to keep. */
  lemma FreshNotKept(a: PageState, ps: nat, pages: seq<nat>, rest: set<nat>, prot: iset<nat>, i: nat)
    requires 0 < ps && Owned(a, ps, pages, rest, prot)
    requires i < |pages| && pages[i] < |a.freshPages| && a.freshPages[pages[i]]
    ensures pages[i] !in KeepSet(rest, prot)
  {
    assert Busy(a, ps, pages[i]);
  }

  function Take(a: PageState, p: nat): PageState
    requires p < |a.fpm| && p < |a.freshPages|
  {
    a.(fpm := a.fpm[p := false], freshPages := a.freshPages[p := true])
  }

  lemma TakeNext(a0: PageState, a: PageState, ps: nat, first: nat, n: nat)
    requires 0 < ps && WellFormed(a0, ps) && WellFormed(a, ps) && Allocated(a0, a, ps, first, n)
    requires first + n < |a.fpm| && a.fpm[first + n]
    ensures var a' := Take(a, first + n);
            WellFormed(a', ps) && Allocated(a0, a', ps, first, n + 1)
  {
  }

  lemma NothingTaken(a: PageState, ps: nat, first: nat)
    requires 0 < ps && WellFormed(a, ps) && first <= |a.fpm|
    ensures Allocated(a, a, ps, first, 0) && |a.freed| == |a.freshPages| == |a.fpm|
  {
  }

  /** Nothing below the end of the run is free; everything above is as it was. */
  lemma TakenBelow(a0: PageState, a: PageState, ps: nat, first: nat, n: nat)
    requires 0 < ps && WellFormed(a0, ps) && Allocated(a0, a, ps, first, n) && |a.fpm| == |a0.fpm|
    requires forall p :: 0 <= p < first ==> !a0.fpm[p]
    ensures forall p :: 0 <= p < first + n ==> !a.fpm[p]
    ensures first + n < |a.fpm| ==> a.fpm[first + n] == a0.fpm[first + n]
  {
  }

  lemma RunWasFree(a0: PageState, a: PageState, ps: nat, first: nat, n: nat)
    requires 0 < ps && WellFormed(a0, ps) && Allocated(a0, a, ps, first, n) && |a.fpm| == |a0.fpm|
    ensures forall p :: first <= p < first + n ==> a0.fpm[p]
  {
  }

  function Falses(n: nat): (r: seq<bool>)
    ensures |r| == n && forall i :: 0 <= i < n ==> !r[i]
  {
    seq(n, _ => false)
  }

  lemma FalsesAdd(s: seq<bool>, m: nat, n: nat)
    ensures s + Falses(m) + Falses(n) == s + Falses(m + n)
  {
  }

  /** The bit vectors after the file has grown to `np` pages. */
  function Grown(a: PageState, np: nat): PageState
    requires |a.fpm| == |a.freed| == |a.freshPages| <= np
  {
    var n := np - |a.fpm|;
    PageState(a.fpm + Falses(n), a.freed + Falses(n), a.freshPages + seq(n, _ => true))
  }

  lemma GrownAllocates(a: PageState, ps: nat, start: nat, n: nat)
    requires 0 < ps && WellFormed(a, ps) && |a.fpm| <= start && forall p :: 0 <= p < |a.fpm| ==> !a.fpm[p]
    requires forall p :: |a.fpm| <= p < start ==> IsFpmPage(ps, p)
    requires forall p :: start <= p < start + n ==> !IsSpecial(ps, p)
    ensures var a' := Grown(a, start + n);
            WellFormed(a', ps) && Allocated(a, a', ps, start, n) && forall p :: 0 <= p < |a'.fpm| && a'.fpm[p] ==> p < |a.fpm| && a.fpm[p]
  {
  }

  /** Freeing a page of the list moves it from "owned" to "freed". */
  function MarkFreed(a: PageState, p: nat): PageState
    requires p < |a.freed|
  {
    a.(freed := a.freed[p := true])
  }

  /** The freed bits after every page of `tail` has been freed. */
  ghost predicate TailFreed(a: PageState, a': PageState, tail: seq<nat>) {
    && a'.fpm == a.fpm && a'.freshPages == a.freshPages && |a'.freed| == |a.freed|
    && forall p :: 0 <= p < |a.freed| ==> a'.freed[p] == (a.freed[p] || p in tail)
  }

  lemma FreeTailKeepsOwned(a: PageState, a': PageState, ps: nat, pages: seq<nat>, n: nat, rest: set<nat>, prot: iset<nat>)
    requires 0 < ps && n <= |pages| && Owned(a, ps, pages, rest, prot) && TailFreed(a, a', pages[n..])
    ensures Owned(a', ps, pages[..n], rest, prot)
  {
    var tail := pages[n..];
    forall i | 0 <= i < |tail| ensures Busy(a, ps, tail[i]) && tail[i] !in rest {
      assert tail[i] == pages[n + i];
    }
    forall p: nat | Busy(a', ps, p) ensures p in rest || p in pages[..n] {
      assert Busy(a, ps, p) && p !in tail;
      if p !in rest {
        var k :| 0 <= k < |pages| && pages[k] == p;
        assert pages == pages[..n] + tail;
      }
    }
    forall p | p in rest ensures Busy(a', ps, p) {
      assert Busy(a, ps, p);
    }
    forall i | 0 <= i < n ensures Busy(a', ps, pages[i]) {
      assert Busy(a, ps, pages[i]);
      forall k | 0 <= k < |tail| ensures tail[k] != pages[i] {
        assert tail[k] == pages[n + k];
      }
    }
  }

  /** Copy-on-write: `a1` is `a0` with `newPage` taken in place of `page`, which is freed. Fresh pages stay. */
  ghost predicate Replaced(a0: PageState, a1: PageState, ps: nat, page: nat, newPage: nat)
    requires 0 < ps && WellFormed(a0, ps)
  {
    && page < |a0.freed| <= |a1.freed| && page < |a0.freshPages|
    && if a0.freshPages[page] then newPage == page && a1 == a0
       else a1.freed[page] && Allocated(a0, a1.(freed := a1.freed[page := false]), ps, newPage, 1)
  }

  /** Freeing a page while its place in the list goes to the page at the end. */
  lemma SwapKeepsPartition(a: PageState, ps: nat, pages: seq<nat>, i: nat, newPage: nat, rest: set<nat>)
    requires 0 < ps && i < |pages| && Partition(a, ps, pages + [newPage], rest)
    ensures pages[i] < |a.freed| && Partition(MarkFreed(a, pages[i]), ps, pages[i := newPage], rest)
  {
    var all, pages' := pages + [newPage], pages[i := newPage];
    assert all[i] == pages[i] && Busy(a, ps, all[i]);
    var a' := MarkFreed(a, pages[i]);
    forall p: nat | Busy(a', ps, p) ensures p in rest || p in pages' {
      SwapFinds(a, ps, pages, i, newPage, rest, p);
    }
    forall p | p in rest ensures Busy(a', ps, p) {
      assert Busy(a, ps, p) && p != all[i];
    }
    forall k | 0 <= k < |pages'| ensures Busy(a', ps, pages'[k]) && pages'[k] !in rest {
      var k' := if k == i then |pages| else k;
      assert pages'[k] == all[k'] && Busy(a, ps, all[k']) && all[k'] != all[i];
    }
    forall j, k | 0 <= j < k < |pages'| ensures pages'[j] != pages'[k] {
      assert pages'[j] == all[if j == i then |pages| else j] && pages'[k] == all[if k == i then |pages| else k];
    }
  }

  lemma SwapFinds(a: PageState, ps: nat, pages: seq<nat>, i: nat, newPage: nat, rest: set<nat>, p: nat)
    requires 0 < ps && i < |pages| && Partition(a, ps, pages + [newPage], rest)
    requires Busy(a, ps, p) && p != pages[i]
    ensures p in rest || p in pages[i := newPage]
  {
    if p !in rest {
      var all := pages + [newPage];
      var k :| 0 <= k < |all| && all[k] == p;
      assert pages[i := newPage][if k < |pages| then k else i] == p;
    }
  }

  lemma ReplacedKeepsOwned(a0: PageState, a1: PageState, ps: nat, newPage: nat,
                           pages: seq<nat>, i: nat, rest: set<nat>, prot: iset<nat>)
    requires 0 < ps && i < |pages| && Owned(a0, ps, pages, rest, prot) && Replaced(a0, a1, ps, pages[i], newPage)
    ensures Owned(a1, ps, pages[i := newPage], rest, prot)
    ensures newPage < |a1.freshPages| && a1.freshPages[newPage] && newPage !in KeepSet(rest, prot)
    ensures |a0.freshPages| <= |a1.freshPages|
    ensures forall p :: 0 <= p < |a0.freshPages| && a0.freshPages[p] ==> a1.freshPages[p]
  {
    var page := pages[i];
    if !a0.freshPages[page] {
      var a := a1.(freed := a1.freed[page := false]);
      AllocatedKeepsOwned(a0, a, ps, newPage, 1, pages, rest, prot);
      assert PageRun(newPage, 1) == [newPage];
      SwapKeepsPartition(a, ps, pages, i, newPage, rest);
      assert MarkFreed(a, page) == a1;
    } else {
      assert pages[i := newPage] == pages;
      FreshNotKept(a0, ps, pages, rest, prot, i);
    }
  }

  // ---------------------------------------------------------------- the allocator

  /** How far the file can grow in one step: the first usable page, and how many follow it without a gap. */
  function Growth(np: nat, ps: nat): (r: (nat, nat))
    requires 512 <= ps
  {
    var phase := np % ps;
    if phase == 0 then (np, 1)
    else if phase == 1 then (np + 2, ps - 2)
    else if phase == 2 then (np + 1, ps - 2)
    else (np, ps - phase + 1)
  }

  /** Growing never runs into a special page before its limit, and stops exactly at the next FPM page. */
  lemma GrowthAvoidsSpecial(np: nat, ps: nat)
    requires 512 <= ps && 0 < np
    ensures var (start, count) := Growth(np, ps);
            && np <= start && 0 < count <= ps
            && (forall p :: np <= p < start ==> IsFpmPage(ps, p))
            && (forall p :: start <= p < start + count ==> !IsSpecial(ps, p))
            && IsFpmPage(ps, start + count)
  {
    var (start, count) := Growth(np, ps);
    forall p | np <= p < start ensures IsFpmPage(ps, p) {
      ModAdd(np, p - np, ps);
    }
    forall p | start <= p < start + count ensures !IsSpecial(ps, p) {
      GrowthPhase(np, ps, p - np);
    }
    GrowthPhase(np, ps, start + count - np);
  }

  lemma GrowthPhase(np: nat, ps: nat, i: nat)
    requires 512 <= ps && 0 < np && i <= ps
    ensures (np + i) % ps == (if np % ps + i < ps then np % ps + i else np % ps + i - ps)
  {
    if i < ps {
      ModAdd(np, i, ps);
    } else {
      DivModUnique(np + ps, ps, np / ps + 1, np % ps);
    }
  }

  /** The lowest free page from `i` on; the page count if there is none. */
  function FirstFreeFrom(fpm: seq<bool>, i: nat): (r: nat)
    requires i <= |fpm|
    ensures i <= r <= |fpm| && (r < |fpm| ==> fpm[r]) && forall p :: i <= p < r ==> !fpm[p]
    decreases |fpm| - i
  {
    if i == |fpm| || fpm[i] then i else FirstFreeFrom(fpm, i + 1)
  }

  /** How many pages from `at` on are free, up to `wanted`. */
  function FreeRun(fpm: seq<bool>, at: nat, wanted: nat): (r: nat)
    requires at <= |fpm|
    ensures r <= wanted && at + r <= |fpm| && forall p :: at <= p < at + r ==> fpm[p]
    ensures r < wanted ==> at + r == |fpm| || !fpm[at + r]
    decreases wanted
  {
    if wanted == 0 || at == |fpm| || !fpm[at] then 0 else 1 + FreeRun(fpm, at + 1, wanted - 1)
  }

  /** What one allocation yields: the first run of free pages, or what fits between two pairs of FPM pages. */
  function RunLength(fpm: seq<bool>, ps: nat, wanted: nat): nat
    requires 512 <= ps
  {
    var p := FirstFreeFrom(fpm, 0);
    if p < |fpm| then FreeRun(fpm, p, wanted) else Min(wanted, Growth(|fpm|, ps).1)
  }

  lemma RunLengthFree(fpm: seq<bool>, ps: nat, first: nat, wanted: nat)
    requires 512 <= ps && first < |fpm| && fpm[first] && forall q :: 0 <= q < first ==> !fpm[q]
    ensures RunLength(fpm, ps, wanted) == FreeRun(fpm, first, wanted)
  {
    assert FirstFreeFrom(fpm, 0) == first;
  }

  lemma RunLengthFull(fpm: seq<bool>, ps: nat, wanted: nat)
    requires 512 <= ps && forall q :: 0 <= q < |fpm| ==> !fpm[q]
    ensures RunLength(fpm, ps, wanted) == Min(wanted, Growth(|fpm|, ps).1)
  {
  }

  lemma FreeRunIs(fpm: seq<bool>, first: nat, n: nat, wanted: nat)
    requires n <= wanted && first + n <= |fpm| && forall p :: first <= p < first + n ==> fpm[p]
    requires n < wanted ==> first + n == |fpm| || !fpm[first + n]
    ensures FreeRun(fpm, first, wanted) == n
  {
  }

  class PageAllocator {
    var fpm: seq<bool>
    var fpmFreed: seq<bool>
    var freshPages: seq<bool>
    var nextFreePageHint: nat
    var numPages: nat
    const pageSize: nat

    ghost function State(): PageState
      reads this
    {
      PageState(fpm, fpmFreed, freshPages)
    }

    ghost predicate Valid()
      reads this
    {
      && IsPageSize(pageSize)
      && WellFormed(State(), pageSize)
      && numPages == |fpm|
      && nextFreePageHint <= numPages
      && (forall p :: 0 <= p < nextFreePageHint ==> !fpm[p])
    }

    /** Every page is free, except page 0 and the FPM pages of every interval. */
    constructor (numPages: nat, pageSize: nat)
      requires IsPageSize(pageSize) && 0 < numPages
      ensures Valid() && this.numPages == numPages && this.pageSize == pageSize && nextFreePageHint == 0
      ensures |fpm| == numPages
      ensures forall p :: 0 <= p < numPages ==> fpm[p] == !IsSpecial(pageSize, p)
      ensures forall p :: 0 <= p < numPages ==> !fpmFreed[p] && !freshPages[p]
    {
      var bits := seq(numPages, p => p != 0);
      var interval := 0;
      while true
        invariant |bits| == numPages
        invariant forall p :: 0 <= p < numPages && p < interval * pageSize ==> bits[p] == !IsSpecial(pageSize, p)
        invariant forall p :: 0 <= p < numPages && interval * pageSize <= p ==> bits[p] == (p != 0)
        decreases numPages - interval * pageSize
      {
        var fpm1 := interval * pageSize + 1;
        var fpm2 := fpm1 + 1;
        IntervalPhases(pageSize, interval);
        if fpm1 < numPages {
          bits := bits[fpm1 := false];
        }
        if fpm2 < numPages {
          bits := bits[fpm2 := false];
        } else {
          break;
        }
        interval := interval + 1;
      }
      fpm := bits;
      fpmFreed := seq(numPages, _ => false);
      freshPages := seq(numPages, _ => false);
      nextFreePageHint := 0;
      this.numPages := numPages;
      this.pageSize := pageSize;
    }

    /** Takes a page of the stream directory out of the free pages; it becomes free again after the next commit. */
    method InitMarkStreamDirPageBusy(page: nat) returns (ok: bool)
      requires Valid() && nextFreePageHint == 0
      modifies this`fpm, this`fpmFreed
      ensures Valid()
      ensures ok <==> page < numPages && old(fpm)[page]
      ensures ok ==> fpm == old(fpm)[page := false] && fpmFreed == old(fpmFreed)[page := true]
      ensures !ok ==> fpm == old(fpm) && fpmFreed == old(fpmFreed)
    {
      if numPages <= page {
        return false;
      }
      if !fpm[page] {
        return false;
      }
      if fpmFreed[page] {
        return false;
      }
      fpm := fpm[page := false];
      fpmFreed := fpmFreed[page := true];
      ok := true;
    }

    /** The first free page at or after `from`, if there is one. */
    method FirstFree(from: nat) returns (found: bool, page: nat)
      requires from <= |fpm|
      ensures found ==> from <= page < |fpm| && fpm[page] && forall q :: from <= q < page ==> !fpm[q]
      ensures !found ==> forall q :: from <= q < |fpm| ==> !fpm[q]
    {
      page := from;
      while page < |fpm|
        invariant from <= page <= |fpm|
        invariant forall q :: from <= q < page ==> !fpm[q]
      {
        if fpm[page] {
          return true, page;
        }
        page := page + 1;
      }
      found := false;
    }

    /** Takes the lowest free page and the free pages right after it, up to `wanted` pages. */
    method AllocFree(p0: nat, wanted: nat) returns (runLen: nat)
      requires Valid() && 0 < wanted
      requires nextFreePageHint <= p0 < numPages && fpm[p0]
      requires forall q :: 0 <= q < p0 ==> !fpm[q]
      modifies this
      ensures Valid() && numPages == old(numPages)
      ensures 1 <= runLen <= wanted
      ensures Allocated(old(State()), State(), pageSize, p0, runLen)
      ensures runLen == FreeRun(old(fpm), p0, wanted)
    {
      hide WellFormed;
      hide Allocated;
      ghost var a0 := State();
      NothingTaken(a0, pageSize, p0);
      TakeNext(a0, a0, pageSize, p0, 0);
      fpm := fpm[p0 := false];
      freshPages := freshPages[p0 := true];
      nextFreePageHint := p0 + 1;
      runLen := 1;
      while runLen < wanted && p0 + runLen < numPages && fpm[nextFreePageHint]
        invariant WellFormed(State(), pageSize) && numPages == |fpm| == |freshPages| == |a0.fpm|
        invariant 1 <= runLen <= wanted && nextFreePageHint == p0 + runLen <= numPages
        invariant Allocated(a0, State(), pageSize, p0, runLen)
      {
        ghost var a := State();
        TakeNext(a0, a, pageSize, p0, runLen);
        fpm := fpm[nextFreePageHint := false];
        freshPages := freshPages[nextFreePageHint := true];
        assert State() == Take(a, p0 + runLen);
        nextFreePageHint := nextFreePageHint + 1;
        runLen := runLen + 1;
      }
      TakenBelow(a0, State(), pageSize, p0, runLen);
      RunWasFree(a0, State(), pageSize, p0, runLen);
      FreeRunIs(a0.fpm, p0, runLen, wanted);
    }

    /** Steps over the FPM pages at the end of the file; returns how many pages can follow without a gap. */
    method StepOverFpm() returns (available: nat)
      requires 512 <= pageSize
      requires |fpm| == |fpmFreed| == numPages == nextFreePageHint
      modifies this
      ensures (numPages, available) == Growth(old(numPages), pageSize) && old(numPages) <= numPages
      ensures nextFreePageHint == numPages && freshPages == old(freshPages)
      ensures fpm == old(fpm) + Falses(numPages - old(numPages))
      ensures fpmFreed == old(fpmFreed) + Falses(numPages - old(numPages))
    {
      var phase := numPages % pageSize;
      if phase == 0 {
        available := 1;
      } else if phase == 1 {
        fpmFreed := fpmFreed + [false] + [false];
        fpm := fpm + [false] + [false];
        numPages := numPages + 2;
        nextFreePageHint := nextFreePageHint + 2;
        available := pageSize - 2;
      } else if phase == 2 {
        fpmFreed := fpmFreed + [false];
        fpm := fpm + [false];
        numPages := numPages + 1;
        nextFreePageHint := nextFreePageHint + 1;
        available := pageSize - 2;
      } else {
        available := pageSize - phase + 1;
      }
    }

    /** Adds pages to the file, when none is free. The FPM pages stepped over are marked fresh, too. */
    method AllocGrow(wanted: nat) returns (startPage: nat, runLen: nat)
      requires Valid() && 0 < wanted && nextFreePageHint == numPages
      modifies this
      ensures Valid()
      ensures 1 <= runLen <= wanted
      ensures Allocated(old(State()), State(), pageSize, startPage, runLen)
      ensures old(numPages) <= startPage && numPages == startPage + runLen
      ensures forall p :: old(numPages) <= p < startPage ==> IsFpmPage(pageSize, p)
      ensures startPage == Growth(old(numPages), pageSize).0 && runLen == Min(wanted, Growth(old(numPages), pageSize).1)
      ensures runLen < wanted ==> IsFpmPage(pageSize, startPage + runLen)
    {
      hide Allocated;
      hide IsSpecial;
      hide IsFpmPage;
      hide Growth;
      ghost var a0 := State();
      GrowthAvoidsSpecial(numPages, pageSize);
      var available := StepOverFpm();
      runLen := if available < wanted then available else wanted;
      startPage := numPages;
      GrownAllocates(a0, pageSize, startPage, runLen);
      numPages := numPages + runLen;
      fpmFreed := fpmFreed + Falses(runLen);
      fpm := fpm + Falses(runLen);
      freshPages := freshPages + seq(numPages - |freshPages|, _ => true);
      nextFreePageHint := numPages;
      FalsesAdd(a0.fpm, startPage - |a0.fpm|, runLen);
      FalsesAdd(a0.freed, startPage - |a0.fpm|, runLen);
      assert State() == Grown(a0, numPages);
    }

    /** Allocates a run of consecutive pages: the lowest free ones, or new ones when none is free. */
    method AllocPages(wanted: nat) returns (first: nat, runLen: nat)
      requires Valid() && 0 < wanted
      modifies this
      ensures Valid()
      ensures 1 <= runLen <= wanted
      ensures Allocated(old(State()), State(), pageSize, first, runLen)
      ensures runLen == RunLength(old(fpm), pageSize, wanted)
      ensures (exists p :: 0 <= p < old(numPages) && old(fpm)[p]) ==>
                && numPages == old(numPages)
                && (forall q :: 0 <= q < first ==> !old(fpm)[q])
                && (runLen < wanted ==> first + runLen == numPages || !old(fpm)[first + runLen])
      ensures (forall p :: 0 <= p < old(numPages) ==> !old(fpm)[p]) ==>
                && old(numPages) <= first && numPages == first + runLen
                && (forall q :: old(numPages) <= q < first ==> IsFpmPage(pageSize, q))
                && (runLen < wanted ==> IsFpmPage(pageSize, first + runLen))
    {
      hide Allocated;
      hide RunLength;
      hide FreeRun;
      hide Growth;
      if nextFreePageHint < numPages {
        var found, p0 := FirstFree(nextFreePageHint);
        if found {
          first := p0;
          RunLengthFree(fpm, pageSize, p0, wanted);
          runLen := AllocFree(p0, wanted);
          return;
        }
        nextFreePageHint := numPages;
      }
      RunLengthFull(fpm, pageSize, wanted);
      first, runLen := AllocGrow(wanted);
    }

    method AllocPage() returns (page: nat)
      requires Valid()
      modifies this
      ensures Valid()
      ensures Allocated(old(State()), State(), pageSize, page, 1)
    {
      var n;
      page, n := AllocPages(1);
    }

    /** Copy-on-write of one page number: a page that is not fresh is freed and replaced. */
    method MakePageFresh(page: nat) returns (newPage: nat)
      requires Valid() && page < numPages && Busy(State(), pageSize, page)
      modifies this
      ensures Valid()
      ensures Replaced(old(State()), State(), pageSize, page, newPage)
    {
      ghost var a0 := State();
      if freshPages[page] {
        return page;
      }
      newPage := AllocPage();
      ghost var a := State();
      assert !a.freed[page];
      fpmFreed := fpmFreed[page := true];
      assert State().(freed := fpmFreed[page := false]) == a;
    }

    /** The freed pages become free. Part of the commit protocol. */
    method MergeFreedIntoFree()
      requires 0 < pageSize && WellFormed(State(), pageSize)
      modifies this
      ensures |fpm| == |fpmFreed| == old(|fpm|) && freshPages == old(freshPages) && numPages == old(numPages)
      ensures nextFreePageHint == old(nextFreePageHint)
      ensures forall p :: 0 <= p < |fpm| ==> fpm[p] == (old(fpm)[p] || old(fpmFreed)[p]) && !fpmFreed[p]
    {
      var free, freed := fpm, fpmFreed;
      for i := 0 to |fpm|
        invariant |free| == |freed| == |fpm|
        invariant forall p :: 0 <= p < i ==> free[p] == (fpm[p] || fpmFreed[p]) && !freed[p]
        invariant forall p :: i <= p < |fpm| ==> free[p] == fpm[p] && freed[p] == fpmFreed[p]
      {
        free := free[i := free[i] || freed[i]];
        freed := freed[i := false];
      }
      fpm, fpmFreed := free, freed;
    }
  }

  lemma IntervalPhases(ps: nat, k: nat)
    requires 512 <= ps
    ensures (k + 1) * ps == k * ps + ps
    ensures forall p :: k * ps <= p < k * ps + ps ==> (IsFpmPage(ps, p) <==> p == k * ps + 1 || p == k * ps + 2)
  {
    forall p | k * ps <= p < k * ps + ps
      ensures IsFpmPage(ps, p) <==> p == k * ps + 1 || p == k * ps + 2
    {
      DivModUnique(p, ps, k, p - k * ps);
    }
  }
}
