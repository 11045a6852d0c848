/** How many pages are in use, and how far that makes the file grow (msf/src/pages.rs). */
module Usage {
  import opened Bytes
  import opened Arith
  import opened Paging
  import opened Pages

  function Max(a: nat, b: nat): (r: nat)
    ensures a <= r && b <= r && (r == a || r == b)
  {
    if a < b then b else a
  }

  // ---------------------------------------------------------------- counting pages

  /** The ordinary pages that are not free: owned by a stream or by the new directory, or freed. */
  ghost function TakenSet(a: PageState, ps: nat): set<nat>
    requires 0 < ps
  {
    set p: nat | p < |a.fpm| && !IsSpecial(ps, p) && !a.fpm[p]
  }

  ghost function Taken(a: PageState, ps: nat): nat
    requires 0 < ps
  {
    |TakenSet(a, ps)|
  }

  /** The number of pages below `np` that are not special. */
  function OrdinaryBelow(np: nat, ps: nat): nat
    requires 0 < ps
  {
    if np == 0 then 0 else OrdinaryBelow(np - 1, ps) + if IsSpecial(ps, np - 1) then 0 else 1
  }

  /** The size of a file whose last page is its `n`-th ordinary one: page 0, and two FPM pages for each interval begun. */
  function Spread(n: nat, ps: nat): nat
    requires 2 < ps
  {
    if n == 0 then 0 else n + 3 + 2 * ((n - 1) / (ps - 2))
  }

  lemma SpreadMono(m: nat, n: nat, ps: nat)
    requires 2 < ps && m <= n
    ensures Spread(m, ps) <= Spread(n, ps)
  {
    if 0 < m {
      DivMono(m - 1, n - 1, ps - 2);
    }
  }

  /** The count in closed form: each interval has two FPM pages, and the first one also page 0. */
  function OrdinaryIn(q: nat, r: nat, ps: nat): int
    requires 512 <= ps
  {
    q * (ps - 2) + (if r == 0 then -1 else if r <= 3 then 0 else r - 3)
  }

  lemma {:induction false} OrdinaryCount(np: nat, ps: nat)
    requires 512 <= ps && 0 < np
    ensures OrdinaryBelow(np, ps) == OrdinaryIn(np / ps, np % ps, ps)
  {
    if np == 1 {
      DivModUnique(1, ps, 0, 1);
    } else {
      OrdinaryCount(np - 1, ps);
      ModAdd(np - 1, 1, ps);
      var q, r := (np - 1) / ps, (np - 1) % ps;
      if r == ps - 1 {
        assert (q + 1) * (ps - 2) == q * (ps - 2) + (ps - 2);
      }
    }
  }

  lemma SpreadAt(q: nat, r: nat, k: nat, ps: nat)
    requires 512 <= ps && r < ps - 2 && k == q * (ps - 2) + r
    ensures Spread(k + 1, ps) == q * ps + 3 + r + 1
  {
    DivModUnique(k, ps - 2, q, r);
    assert q * ps == q * (ps - 2) + 2 * q;
  }

  /** A file that ends with an ordinary page is exactly as long as its ordinary pages demand. */
  lemma EndsOrdinary(np: nat, ps: nat)
    requires 512 <= ps && 0 < np && !IsSpecial(ps, np - 1)
    ensures np == Spread(OrdinaryBelow(np, ps), ps)
  {
    hide *;
    var p := np - 1;
    OneMoreOrdinary(np, ps);
    OrdinaryCount(p, ps);
    DivModUnique(p, ps, p / ps, p % ps);
    EndsAt(p / ps, p % ps, OrdinaryBelow(p, ps), ps);
  }

  lemma OneMoreOrdinary(np: nat, ps: nat)
    requires 512 <= ps && 0 < np && !IsSpecial(ps, np - 1)
    ensures OrdinaryBelow(np, ps) == OrdinaryBelow(np - 1, ps) + 1 && 0 < np - 1
    ensures (np - 1) % ps != 1 && (np - 1) % ps != 2 && ((np - 1) % ps == 0 ==> 0 < (np - 1) / ps)
    ensures np == (np - 1) / ps * ps + (np - 1) % ps + 1
  {
  }

  lemma EndsAt(q: nat, r: nat, k: nat, ps: nat)
    requires 512 <= ps && r < ps && r != 1 && r != 2 && (r == 0 ==> 0 < q) && k == OrdinaryIn(q, r, ps)
    ensures Spread(k + 1, ps) == q * ps + r + 1
  {
    hide Spread;
    if r == 0 {
      PeelOne(q, ps - 2);
      PeelOne(q, ps);
      SpreadAt(q - 1, ps - 3, k, ps);
    } else {
      SpreadAt(q, r - 3, k, ps);
    }
  }

  /** No file is shorter than its ordinary pages demand. */
  lemma {:induction false} SpreadFits(np: nat, ps: nat)
    requires 512 <= ps
    ensures Spread(OrdinaryBelow(np, ps), ps) <= np
  {
    if np != 0 {
      if IsSpecial(ps, np - 1) {
        SpreadFits(np - 1, ps);
      } else {
        EndsOrdinary(np, ps);
      }
    }
  }

  lemma {:induction false} OrdinarySet(np: nat, ps: nat)
    requires 0 < ps
    ensures |set p: nat | p < np && !IsSpecial(ps, p)| == OrdinaryBelow(np, ps)
  {
    var s := set p: nat | p < np && !IsSpecial(ps, p);
    if np == 0 {
      assert s == {};
    } else {
      OrdinarySet(np - 1, ps);
      var t := set p: nat | p < np - 1 && !IsSpecial(ps, p);
      assert s == t + if IsSpecial(ps, np - 1) then {} else {np - 1};
    }
  }

  lemma {:induction false} SubsetSize(a: set<nat>, b: set<nat>)
    requires a <= b
    ensures |a| <= |b|
  {
    if x :| x in a {
      SubsetSize(a - {x}, b - {x});
    }
  }

  /** The pages in use are never more than the file has, and all of them when none is free. */
  lemma TakenFits(a: PageState, ps: nat)
    requires 512 <= ps
    ensures Taken(a, ps) <= OrdinaryBelow(|a.fpm|, ps) && Spread(Taken(a, ps), ps) <= |a.fpm|
    ensures (forall p :: 0 <= p < |a.fpm| ==> !a.fpm[p]) ==> Taken(a, ps) == OrdinaryBelow(|a.fpm|, ps)
  {
    var all := set p: nat | p < |a.fpm| && !IsSpecial(ps, p);
    OrdinarySet(|a.fpm|, ps);
    SubsetSize(TakenSet(a, ps), all);
    SpreadFits(|a.fpm|, ps);
    SpreadMono(Taken(a, ps), OrdinaryBelow(|a.fpm|, ps), ps);
    if forall p :: 0 <= p < |a.fpm| ==> !a.fpm[p] {
      assert TakenSet(a, ps) == all;
    }
  }

  ghost function FreeSet(a: PageState): set<nat> {
    set p: nat | p < |a.fpm| && a.fpm[p]
  }

  ghost function FreedSet(a: PageState): set<nat> {
    set p: nat | p < |a.freed| && a.freed[p]
  }

  /** Every ordinary page is free, freed, or in the list of busy pages. */
  lemma CountPages(a: PageState, ps: nat, busy: seq<nat>)
    requires 0 < ps && WellFormed(a, ps) && NoDup(busy) && forall p :: p in busy <==> Busy(a, ps, p)
    ensures Taken(a, ps) == |FreedSet(a)| + |busy|
    ensures |FreeSet(a)| + |FreedSet(a)| + |busy| == OrdinaryBelow(|a.fpm|, ps)
  {
    hide *;
    ListSize(busy);
    TakenParts(a, ps, busy);
    DisjointSize(FreedSet(a), Elements(busy));
    OrdinaryParts(a, ps);
    DisjointSize(FreeSet(a), TakenSet(a, ps));
    TakenIs(a, ps);
  }

  lemma DisjointSize(a: set<nat>, b: set<nat>)
    requires a !! b
    ensures |a + b| == |a| + |b|
  {
  }

  lemma TakenIs(a: PageState, ps: nat)
    requires 0 < ps
    ensures Taken(a, ps) == |TakenSet(a, ps)|
  {
  }

  lemma TakenParts(a: PageState, ps: nat, busy: seq<nat>)
    requires 0 < ps && WellFormed(a, ps) && forall p :: p in busy <==> Busy(a, ps, p)
    ensures TakenSet(a, ps) == FreedSet(a) + Elements(busy) && FreedSet(a) !! Elements(busy)
  {
    forall p ensures p in Elements(busy) <==> Busy(a, ps, p) {}
  }

  lemma OrdinaryParts(a: PageState, ps: nat)
    requires 0 < ps && WellFormed(a, ps)
    ensures FreeSet(a) !! TakenSet(a, ps) && |FreeSet(a) + TakenSet(a, ps)| == OrdinaryBelow(|a.fpm|, ps)
  {
    OrdinarySet(|a.fpm|, ps);
    assert FreeSet(a) + TakenSet(a, ps) == set p: nat | p < |a.fpm| && !IsSpecial(ps, p);
  }

  // ---------------------------------------------------------------- allocation

  /** Pages have been taken, and the file has grown exactly as far as that made necessary. */
  ghost predicate SizedBy(a0: PageState, a1: PageState, ps: nat)
    requires 2 < ps
  {
    && TakenSet(a0, ps) <= TakenSet(a1, ps)
    && |a1.fpm| == Max(|a0.fpm|, Spread(Taken(a1, ps), ps))
  }

  lemma SizedBySelf(a: PageState, ps: nat)
    requires 512 <= ps
    ensures SizedBy(a, a, ps)
  {
    TakenFits(a, ps);
  }

  lemma SizedByTrans(a0: PageState, a1: PageState, a2: PageState, ps: nat)
    requires 2 < ps && SizedBy(a0, a1, ps) && SizedBy(a1, a2, ps)
    ensures SizedBy(a0, a2, ps)
  {
    SubsetSize(TakenSet(a1, ps), TakenSet(a2, ps));
    SpreadMono(Taken(a1, ps), Taken(a2, ps), ps);
  }

  ghost function Elements(s: seq<nat>): set<nat> {
    set p | p in s
  }

  lemma {:induction false} ListSize(s: seq<nat>)
    ensures |Elements(s)| <= |s| && (NoDup(s) ==> |Elements(s)| == |s|)
  {
    if s == [] {
      assert Elements(s) == {};
    } else {
      var n := |s| - 1;
      ListSize(s[..n]);
      assert s == s[..n] + [s[n]];
      assert Elements(s) == Elements(s[..n]) + {s[n]};
    }
  }

  lemma AllocatedSet(a0: PageState, a1: PageState, ps: nat, first: nat, n: nat)
    requires 0 < ps && WellFormed(a0, ps) && Allocated(a0, a1, ps, first, n)
    ensures TakenSet(a1, ps) == TakenSet(a0, ps) + Elements(PageRun(first, n)) && TakenSet(a0, ps) !! Elements(PageRun(first, n))
  {
    forall p | first <= p < first + n ensures p in Elements(PageRun(first, n)) {
      assert PageRun(first, n)[p - first] == p;
    }
  }

  lemma AllocatedTaken(a0: PageState, a1: PageState, ps: nat, first: nat, n: nat)
    requires 0 < ps && WellFormed(a0, ps) && Allocated(a0, a1, ps, first, n)
    ensures TakenSet(a1, ps) == TakenSet(a0, ps) + Elements(PageRun(first, n))
    ensures Taken(a1, ps) == Taken(a0, ps) + n
  {
    AllocatedSet(a0, a1, ps, first, n);
    hide TakenSet;
    hide Elements;
    var more := Elements(PageRun(first, n));
    ListSize(PageRun(first, n));
    assert |TakenSet(a0, ps) + more| == Taken(a0, ps) + n;
  }

  /** The file grows only when no page is free, and then ends with the page that was taken last. */
  lemma AllocatedSized(a0: PageState, a1: PageState, ps: nat, first: nat, n: nat)
    requires 512 <= ps && WellFormed(a0, ps) && Allocated(a0, a1, ps, first, n) && 0 < n
    ensures SizedBy(a0, a1, ps) && Taken(a1, ps) == Taken(a0, ps) + n
  {
    AllocatedTaken(a0, a1, ps, first, n);
    TakenFits(a1, ps);
    if |a1.fpm| != |a0.fpm| {
      forall p | 0 <= p < |a1.fpm| ensures !a1.fpm[p] {}
      EndsOrdinary(|a1.fpm|, ps);
    }
  }

  /** Exactly `n` more pages are in use, and the file has grown exactly as far as that made necessary. */
  ghost predicate UsedExactly(a0: PageState, a1: PageState, ps: nat, n: nat)
    requires 2 < ps
  {
    SizedBy(a0, a1, ps) && Taken(a1, ps) == Taken(a0, ps) + n
  }

  lemma UsedExactlyMore(a0: PageState, a1: PageState, a2: PageState, ps: nat, m: nat, n: nat)
    requires 2 < ps && UsedExactly(a0, a1, ps, m) && UsedExactly(a1, a2, ps, n)
    ensures UsedExactly(a0, a2, ps, m + n)
  {
    SizedByTrans(a0, a1, a2, ps);
  }

  lemma UsedNone(a: PageState, ps: nat)
    requires 512 <= ps
    ensures UsedExactly(a, a, ps, 0)
  {
    SizedBySelf(a, ps);
  }

  /** The size of a file of `np` pages when `taken` pages are in use. */
  function FileSize(np: nat, taken: nat, ps: nat): (r: nat)
    requires 2 < ps
    ensures np <= r
  {
    Max(np, Spread(taken, ps))
  }

  lemma UsedSize(a0: PageState, a1: PageState, ps: nat, n: nat)
    requires 2 < ps && UsedExactly(a0, a1, ps, n)
    ensures |a1.fpm| == FileSize(|a0.fpm|, Taken(a0, ps) + n, ps)
  {
  }

  // ---------------------------------------------------------------- one stream at work

  /**
   * What a stream writer has taken since `start`: only pages that are fresh and not freed, so that they are in its page
   * list; the pages in `rest` belong to other streams. The file has grown exactly as far as that made necessary.
   */
  ghost predicate Accounted(start: PageState, a: PageState, ps: nat, rest: set<nat>)
    requires 0 < ps
  {
    && 512 <= ps && SizedBy(start, a, ps)
    && (forall p :: p in rest ==> Busy(start, ps, p))
    && |a.fpm| <= |a.freed| && |a.fpm| <= |a.freshPages|
    && forall p :: p in TakenSet(a, ps) && p !in TakenSet(start, ps) ==> a.freshPages[p] && !a.freed[p]
  }

  lemma AccountedSelf(a: PageState, ps: nat, pages: seq<nat>, rest: set<nat>)
    requires 512 <= ps && Partition(a, ps, pages, rest)
    ensures Accounted(a, a, ps, rest)
  {
    SizedBySelf(a, ps);
  }

  lemma AccountedAlloc(start: PageState, a0: PageState, a1: PageState, ps: nat, rest: set<nat>, first: nat, n: nat)
    requires 0 < ps && WellFormed(a0, ps) && Accounted(start, a0, ps, rest)
    requires Allocated(a0, a1, ps, first, n) && SizedBy(a0, a1, ps)
    ensures Accounted(start, a1, ps, rest)
  {
    SizedByTrans(start, a0, a1, ps);
    AllocatedTaken(a0, a1, ps, first, n);
  }

  /** Copy-on-write takes one page; the page that it frees was not fresh, so it was taken before. */
  lemma AccountedReplaced(start: PageState, a0: PageState, a1: PageState, ps: nat, rest: set<nat>, page: nat, newPage: nat)
    requires 0 < ps && WellFormed(a0, ps) && Accounted(start, a0, ps, rest) && Busy(a0, ps, page)
    requires Replaced(a0, a1, ps, page, newPage)
    ensures Accounted(start, a1, ps, rest)
  {
    if !a0.freshPages[page] {
      var a := a1.(freed := a1.freed[page := false]);
      AllocatedSized(a0, a, ps, newPage, 1);
      AccountedAlloc(start, a0, a, ps, rest, newPage, 1);
      OldPage(start, a0, ps, rest, page);
      assert TakenSet(a1, ps) == TakenSet(a, ps);
    }
  }

  lemma OldPage(start: PageState, a0: PageState, ps: nat, rest: set<nat>, page: nat)
    requires 0 < ps && WellFormed(a0, ps) && Accounted(start, a0, ps, rest) && Busy(a0, ps, page)
    requires page < |a0.freshPages| && !a0.freshPages[page]
    ensures page in TakenSet(start, ps)
  {
    assert page in TakenSet(a0, ps);
  }

  /** At most `n` more pages are in use, and the file has grown exactly as far as that made necessary. */
  ghost predicate UsedAtMost(a0: PageState, a1: PageState, ps: nat, n: nat)
    requires 2 < ps
  {
    SizedBy(a0, a1, ps) && Taken(a1, ps) <= Taken(a0, ps) + n
  }

  lemma NothingUsed(a0: PageState, a1: PageState, ps: nat)
    requires 512 <= ps && a0.fpm == a1.fpm
    ensures UsedAtMost(a0, a1, ps, 0)
  {
    assert TakenSet(a0, ps) == TakenSet(a1, ps);
    SizedBySelf(a0, ps);
  }

  /** Freeing pages is not counted before the next commit. */
  lemma UsedByFpm(a0: PageState, b0: PageState, b1: PageState, a1: PageState, ps: nat, n: nat)
    requires 2 < ps && UsedAtMost(b0, b1, ps, n) && a0.fpm == b0.fpm && b1.fpm == a1.fpm
    ensures UsedAtMost(a0, a1, ps, n)
  {
    assert TakenSet(a0, ps) == TakenSet(b0, ps) && TakenSet(a1, ps) == TakenSet(b1, ps);
  }

  /** Everything that was taken is in the page list: at most as many pages as the stream has now. */
  lemma TakenByStream(start: PageState, a: PageState, ps: nat, pages: seq<nat>, rest: set<nat>)
    requires 2 < ps && Accounted(start, a, ps, rest) && Partition(a, ps, pages, rest)
    ensures UsedAtMost(start, a, ps, |pages|)
  {
    var s, own := TakenSet(start, ps), Elements(pages);
    forall p | p in TakenSet(a, ps) ensures p in s + own {
      if p !in s {
        TakenIsListed(start, a, ps, pages, rest, p);
      }
    }
    SubsetSize(TakenSet(a, ps), s + own);
    ListSize(pages);
    assert |s + own| <= |s| + |own|;
  }

  lemma TakenIsListed(start: PageState, a: PageState, ps: nat, pages: seq<nat>, rest: set<nat>, p: nat)
    requires 0 < ps && Accounted(start, a, ps, rest) && Partition(a, ps, pages, rest)
    requires p in TakenSet(a, ps) && p !in TakenSet(start, ps)
    ensures p in pages
  {
    hide SizedBy;
    assert Busy(a, ps, p);
    assert p in rest ==> Busy(start, ps, p);
  }
}
