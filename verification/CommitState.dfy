/** Why a commit leaves the page states and the directory in step: the state that reopening the file rebuilds. */
module CommitState {
  import opened Bytes
  import opened Arith
  import opened Paging
  import opened Pages
  import opened Read
  import opened Directory
  import opened Codec
  import opened StreamWriters
  import opened CommitSteps
  import opened Tables
  import opened Usage

  // ---------------------------------------------------------------- the pages of all streams, as one list

  lemma {:induction false} AllPagesMember(view: seq<seq<nat>>, p: nat)
    ensures p in AllPages(view) <==> exists s :: 0 <= s < |view| && p in view[s]
  {
    if view != [] {
      var n := |view| - 1;
      AllPagesMember(view[..n], p);
      if p in AllPages(view[..n]) {
        var s :| 0 <= s < n && p in view[..n][s];
        assert p in view[s];
      }
      if s :| 0 <= s < |view| && p in view[s] {
        assert s < n ==> p in view[..n][s];
      }
    }
  }

  lemma {:induction false} AllPagesNoDup(view: seq<seq<nat>>, owner: map<nat, nat>)
    requires forall s :: 0 <= s < |view| ==> NoDup(view[s])
    requires forall s, i :: 0 <= s < |view| && 0 <= i < |view[s]| ==> view[s][i] in owner && owner[view[s][i]] == s
    ensures NoDup(AllPages(view))
  {
    if view != [] {
      var n := |view| - 1;
      AllPagesNoDup(view[..n], owner);
      var a, b := AllPages(view[..n]), view[n];
      forall i, j | 0 <= i < |a| && 0 <= j < |b| ensures a[i] != b[j] {
        AllPagesMember(view[..n], a[i]);
        var s :| 0 <= s < n && a[i] in view[..n][s];
        var k :| 0 <= k < |view[s]| && view[s][k] == a[i];
        assert owner[view[s][k]] == s && owner[view[n][j]] == n;
      }
      NoDupConcat(a, b);
    }
  }

  lemma NoDupConcat(a: seq<nat>, b: seq<nat>)
    requires NoDup(a) && NoDup(b) && forall i, j :: 0 <= i < |a| && 0 <= j < |b| ==> a[i] != b[j]
    ensures NoDup(a + b)
  {
    var ab := a + b;
    forall i, j | 0 <= i < j < |ab| ensures ab[i] != ab[j] {
      if i < |a| && |a| <= j {
        assert ab[i] == a[i] && ab[j] == b[j - |a|];
      } else if |a| <= i {
        assert ab[i] == b[i - |a|] && ab[j] == b[j - |a|];
      }
    }
  }

  /** Stream 0 has no pages; every other page list belongs to its stream. */
  lemma AllPagesOwned(a: PageState, ps: nat, view: seq<seq<nat>>, owner: map<nat, nat>)
    requires 0 < ps && Ownership(a, ps, view, owner) && 1 <= |view| && view[0] == []
    ensures NoDup(AllPages(view)) && forall p :: p in AllPages(view) <==> p in owner
  {
    AllPagesNoDup(view, owner);
    forall p ensures p in AllPages(view) <==> p in owner {
      PageHasOwner(view, owner, p);
    }
  }

  lemma PageHasOwner(view: seq<seq<nat>>, owner: map<nat, nat>, p: nat)
    requires forall s, i :: 0 <= s < |view| && 0 <= i < |view[s]| ==> view[s][i] in owner && owner[view[s][i]] == s
    requires forall p :: p in owner ==> 1 <= owner[p] < |view| && p in view[owner[p]]
    ensures p in AllPages(view) <==> p in owner
  {
    hide *;
    AllPagesMember(view, p);
    if p in owner {
      assert p in view[owner[p]];
    } else {
      forall s | 0 <= s < |view| ensures p !in view[s] {
        forall i | 0 <= i < |view[s]| ensures view[s][i] != p {}
      }
    }
  }

  /** Before the new directory is allocated, the streams own all busy pages. */
  lemma NothingOwned(a: PageState, ps: nat, view: seq<seq<nat>>, owner: map<nat, nat>, prot: iset<nat>)
    requires 0 < ps && Ownership(a, ps, view, owner) && Guarded(a, ps, prot)
    ensures Owned(a, ps, [], owner.Keys, prot)
  {
  }

  // ---------------------------------------------------------------- the state after a commit

  /** The committed state that results from the given tables, directory pages and map pages. */
  function NewSnapshot(h: Header, mapPages: seq<nat>, dirPages: seq<nat>, sizes: seq<nat>, view: seq<seq<nat>>): Snapshot
    requires 0 < h.pageSize
  {
    Snapshot(h, mapPages, dirPages, ViewTable(sizes, view, h.pageSize))
  }

  /** The freed pages have become free; only the new directory and its map are freed; nothing is fresh. */
  ghost predicate AfterCommit(a: PageState, a': PageState, dir: seq<nat>) {
    && |a.fpm| == |a.freed| == |a'.fpm| == |a'.freed| == |a'.freshPages|
    && (forall p :: 0 <= p < |a.fpm| ==> a'.fpm[p] == (a.fpm[p] || a.freed[p]))
    && (forall p :: 0 <= p < |a.fpm| ==> a'.freed[p] == (p in dir))
    && (forall p :: 0 <= p < |a.fpm| ==> !a'.freshPages[p])
  }

  lemma LiveIsAll(h: Header, mapPages: seq<nat>, dirPages: seq<nat>, sizes: seq<nat>, view: seq<seq<nat>>)
    requires 0 < h.pageSize && ViewFits(sizes, view, h.pageSize) && sizes != [] && sizes[0] == 0
    ensures var s := NewSnapshot(h, mapPages, dirPages, sizes, view);
            && s.table.Valid() && s.table.LivePages() == AllPages(view)
            && UsedPages(s) == mapPages + dirPages + AllPages(view)
  {
    ViewTableValid(sizes, view, h.pageSize);
    CeilDivBounds(0, h.pageSize);
    var starts := PageStarts(sizes, h.pageSize);
    assert starts[0 + 1] == starts[0] + NumPagesForStreamSize(sizes[0], h.pageSize);
    assert AllPages(view)[0..] == AllPages(view);
  }

  /** The page states after a commit are those that follow from the new directory. */
  lemma CommitConsistent(a: PageState, a': PageState, ps: nat, dirPages: seq<nat>, mapPages: seq<nat>,
                         live: seq<nat>, rest: set<nat>, prot: iset<nat>)
    requires 0 < ps && Owned(a, ps, dirPages + mapPages, rest, prot) && AfterCommit(a, a', mapPages + dirPages)
    requires NoDup(live) && forall p :: p in live <==> p in rest
    ensures PagesAcceptable(ps, |a.fpm|, mapPages + dirPages + live)
    ensures OpenedState(a', ps, |a.fpm|, mapPages + dirPages + live, mapPages + dirPages)
  {
    var dm, md := dirPages + mapPages, mapPages + dirPages;
    SwapNoDup(dirPages, mapPages);
    forall i | 0 <= i < |md| ensures md[i] in dm {
      assert md[i] == dm[if i < |mapPages| then |dirPages| + i else i - |mapPages|];
    }
    forall i | 0 <= i < |dm| ensures dm[i] in md {
      assert dm[i] == md[if i < |dirPages| then |mapPages| + i else i - |dirPages|];
    }
    forall i, j | 0 <= i < |md| && 0 <= j < |live| ensures md[i] != live[j] {
      assert live[j] in rest;
    }
    NoDupConcat(md, live);
    var used := md + live;
    forall i | 0 <= i < |used| ensures Busy(a, ps, used[i]) {
      if i < |md| {
        assert used[i] in dm;
      } else {
        assert used[i] == live[i - |md|] && used[i] in rest;
      }
    }
    forall p | 0 <= p < |a.fpm| ensures a'.fpm[p] == ComputedFpm(ps, |a.fpm|, used)[p] {
      ConsistentBit(a, ps, dm, used, rest, prot, p);
    }
  }

  lemma ConsistentBit(a: PageState, ps: nat, dm: seq<nat>, used: seq<nat>, rest: set<nat>, prot: iset<nat>, p: nat)
    requires 0 < ps && Owned(a, ps, dm, rest, prot) && p < |a.fpm|
    requires forall i :: 0 <= i < |used| ==> Busy(a, ps, used[i])
    requires p in dm || p in rest ==> p in used
    ensures (a.fpm[p] || a.freed[p]) == (!IsSpecial(ps, p) && p !in used)
  {
    if p in used {
      var i :| 0 <= i < |used| && used[i] == p;
      assert Busy(a, ps, used[i]);
    } else {
      assert !Busy(a, ps, p);
    }
  }

  lemma SwapNoDup(a: seq<nat>, b: seq<nat>)
    requires NoDup(a + b)
    ensures NoDup(b + a)
  {
    var ab, ba := a + b, b + a;
    forall i, j | 0 <= i < j < |ba| ensures ba[i] != ba[j] {
      var i', j' := if i < |b| then |a| + i else i - |b|, if j < |b| then |a| + j else j - |b|;
      assert ba[i] == ab[i'] && ba[j] == ab[j'];
      assert i' < j' || j' < i';
    }
  }

  /** All words of the directory fit into 32 bits as long as the page numbers do. */
  lemma DirWordsFit(sizes: seq<nat>, view: seq<seq<nat>>, np: nat)
    requires |sizes| < U32_LIMIT && np <= U32_LIMIT
    requires forall s :: 0 <= s < |sizes| ==> sizes[s] <= NIL_STREAM_SIZE
    requires forall i :: 0 <= i < |AllPages(view)| ==> AllPages(view)[i] < np
    ensures AllU32(DirWords(sizes, view))
  {
  }

  // ---------------------------------------------------------------- the file after a commit

  /** The two images agree on all pages that are not special. */
  ghost predicate SameOnOrdinary(a: Image, b: Image, ps: nat)
    requires 0 < ps
  {
    forall p: nat :: !IsSpecial(ps, p) ==> ((p in a) == (p in b)) && (p in a ==> a[p] == b[p])
  }

  lemma OrdinaryFlat(a: Image, b: Image, ps: nat, pages: seq<nat>)
    requires 0 < ps && SameOnOrdinary(a, b, ps) && forall i :: 0 <= i < |pages| ==> !IsSpecial(ps, pages[i])
    ensures Flat(a, ps, pages) == Flat(b, ps, pages)
    ensures HasPages(a, ps, pages) ==> HasPages(b, ps, pages)
  {
    FlatSame(a, b, ps, pages);
  }

  lemma OrdinaryStores(a: Image, b: Image, ps: nat, pages: seq<nat>, ws: seq<nat>)
    requires 0 < ps && SameOnOrdinary(a, b, ps) && Stores(a, ps, pages, ws)
    requires forall i :: 0 <= i < |pages| ==> !IsSpecial(ps, pages[i])
    ensures Stores(b, ps, pages, ws)
  {
    OrdinaryFlat(a, b, ps, pages);
  }

  /** The FPM and page 0 are written to special pages only. */
  lemma SpecialWrites(img1: Image, img2: Image, ps: nat, number: nat, page0: seq<u8>)
    requires 512 <= ps && (number == 1 || number == 2) && SameOffFpm(img1, img2, ps, number)
    ensures SameOnOrdinary(img1, img2[0 := page0], ps)
  {
  }

  lemma Page0KeepsFpm(img: Image, ps: nat, number: nat, n: nat, page0: seq<u8>)
    requires number == 1 || number == 2
    ensures Flat(img[0 := page0], ps, FpmPages(number, ps, n)) == Flat(img, ps, FpmPages(number, ps, n))
    ensures HasPages(img, ps, FpmPages(number, ps, n)) ==> HasPages(img[0 := page0], ps, FpmPages(number, ps, n))
  {
    FlatSame(img, img[0 := page0], ps, FpmPages(number, ps, n));
  }

  /** The streams do not change when only special pages are written. */
  lemma OrdinaryStreams(a: Image, b: Image, ps: nat, sizes: seq<nat>, view: seq<seq<nat>>)
    requires 0 < ps && SameOnOrdinary(a, b, ps) && |sizes| == |view| && AllPresent(a, ps, view)
    requires forall s, i :: 1 <= s < |view| && 0 <= i < |view[s]| ==> !IsSpecial(ps, view[s][i])
    ensures AllPresent(b, ps, view) && StreamsOf(b, ps, sizes, view) == StreamsOf(a, ps, sizes, view)
  {
    forall s | 1 <= s < |view| ensures HasPages(b, ps, view[s]) && Flat(a, ps, view[s]) == Flat(b, ps, view[s]) {
      OrdinaryFlat(a, b, ps, view[s]);
    }
  }

  /** Nor when only pages outside `keep` are written, for streams whose pages are in `keep`. */
  lemma KeptStreams(a: Image, b: Image, keep: iset<nat>, ps: nat, sizes: seq<nat>, view: seq<seq<nat>>)
    requires SameOn(a, b, keep) && |sizes| == |view| && AllPresent(a, ps, view)
    requires forall s, i :: 1 <= s < |view| && 0 <= i < |view[s]| ==> view[s][i] in keep
    ensures AllPresent(b, ps, view) && StreamsOf(b, ps, sizes, view) == StreamsOf(a, ps, sizes, view)
  {
    forall s | 1 <= s < |view| ensures HasPages(b, ps, view[s]) && Flat(a, ps, view[s]) == Flat(b, ps, view[s]) {
      SameFlat(a, b, keep, ps, view[s]);
    }
  }

  /** The limits within which a directory can be written and read back: 32-bit fields. */
  predicate FitsU32(h: Header) {
    h.numPages < U32_LIMIT && h.dirSize < U32_LIMIT
  }

  /** The new state reads back from the file: exactly when the opener can see all map pages. */
  lemma CommittedFile(img: Image, h: Header, mapPages: seq<nat>, dirPages: seq<nat>, sizes: seq<nat>, view: seq<seq<nat>>, fpm: seq<bool>)
    requires IsPageSize(h.pageSize) && (h.activeFpm == 1 || h.activeFpm == 2) && 0 < h.numPages && FitsU32(h)
    requires ViewFits(sizes, view, h.pageSize) && 0 < |sizes| < U32_LIMIT && sizes[0] == 0
    requires forall s :: 0 <= s < |sizes| ==> sizes[s] <= NIL_STREAM_SIZE
    requires MSF_HEADER_LEN + 4 * |mapPages| <= h.pageSize
    requires 0 in img && img[0] == EncodePage0(h, mapPages)
    requires Prepared(img, NewSnapshot(h, mapPages, dirPages, sizes, view), DirWords(sizes, view), fpm)
    requires PagesAcceptable(h.pageSize, h.numPages, mapPages + dirPages + AllPages(view))
    requires fpm == ComputedFpm(h.pageSize, h.numPages, mapPages + dirPages + AllPages(view))
    requires HasPages(img, h.pageSize, AllPages(view))
    ensures var s := NewSnapshot(h, mapPages, dirPages, sizes, view);
            if |mapPages| <= MAX_MAP_PAGES
            then Decode(img) == Some(s) && ReadAll(img) == Some(StreamsOf(img, h.pageSize, sizes, view))
            else Decode(img) == None
  {
    hide Decode;
    hide Prepared;
    hide PagesAcceptable;
    hide ComputedFpm;
    hide ParseDir;
    hide DirWords;
    hide StreamsOf;
    hide AllU32;
    hide EncodePage0;
    var s := NewSnapshot(h, mapPages, dirPages, sizes, view);
    LiveIsAll(h, mapPages, dirPages, sizes, view);
    ParseBuiltDir(sizes, view, h.pageSize);
    UsedBelow(h, mapPages, dirPages, AllPages(view));
    DirWordsFit(sizes, view, h.numPages);
    WholeWords(img, s, DirWords(sizes, view), fpm);
    CommitDecodes(img, s, DirWords(sizes, view), fpm);
    NewStreamsAre(img, h, mapPages, dirPages, sizes, view);
  }

  lemma WholeWords(img: Image, s: Snapshot, words: seq<nat>, fpm: seq<bool>)
    requires 0 < s.header.pageSize && Prepared(img, s, words, fpm)
    ensures s.header.dirSize % 4 == 0
  {
  }

  /** The snapshot stands for the streams it was made from. */
  lemma NewStreamsAre(img: Image, h: Header, mapPages: seq<nat>, dirPages: seq<nat>, sizes: seq<nat>, view: seq<seq<nat>>)
    requires 0 < h.pageSize && ViewFits(sizes, view, h.pageSize) && sizes != []
    ensures var s := NewSnapshot(h, mapPages, dirPages, sizes, view);
            s.table.Valid() && SnapshotStreams(img, s) == StreamsOf(img, h.pageSize, sizes, view)
  {
    ViewTableValid(sizes, view, h.pageSize);
    assert SnapshotView(ViewTable(sizes, view, h.pageSize)) == view;
  }

  lemma UsedBelow(h: Header, mapPages: seq<nat>, dirPages: seq<nat>, live: seq<nat>)
    requires 0 < h.pageSize && PagesAcceptable(h.pageSize, h.numPages, mapPages + dirPages + live) && FitsU32(h)
    ensures AllU32(mapPages) && AllU32(dirPages) && forall i :: 0 <= i < |live| ==> live[i] < h.numPages
  {
    var used := mapPages + dirPages + live;
    forall i | 0 <= i < |mapPages| ensures mapPages[i] < U32_LIMIT {
      assert used[i] == mapPages[i];
    }
    forall i | 0 <= i < |dirPages| ensures dirPages[i] < U32_LIMIT {
      assert used[|mapPages| + i] == dirPages[i];
    }
    forall i | 0 <= i < |live| ensures live[i] < h.numPages {
      assert used[|mapPages| + |dirPages| + i] == live[i];
    }
  }

  // ---------------------------------------------------------------- building the directory, stream by stream

  /** How many map pages the directory of these streams needs. */
  function MapPagesNeeded(sizes: seq<nat>, view: seq<seq<nat>>, ps: nat): nat
    requires 0 < ps
  {
    CeilDiv(4 * CeilDiv(4 * |DirWords(sizes, view)|, ps), ps)
  }

  /** How many pages the directory of these streams needs. */
  function DirPagesNeeded(sizes: seq<nat>, view: seq<seq<nat>>, ps: nat): nat
    requires 0 < ps
  {
    CeilDiv(4 * |DirWords(sizes, view)|, ps)
  }

  lemma DirStep(sizes: seq<nat>, view: seq<seq<nat>>, ps: nat, s: nat)
    requires 0 < ps && ViewFits(sizes, view, ps) && s < |view|
    ensures AllPages(view[..s + 1]) == AllPages(view[..s]) + view[s]
    ensures PageStarts(sizes[..s + 1], ps)[..s + 1] == PageStarts(sizes[..s], ps)[..s] + [|AllPages(view[..s])|]
    ensures sizes[s] == NIL_STREAM_SIZE ==> view[s] == []
  {
    assert view[..s + 1][..s] == view[..s] && sizes[..s + 1][..s] == sizes[..s];
    AllPagesLength(sizes[..s], view[..s], ps);
    var p := PageStarts(sizes[..s], ps);
    assert p[..s + 1] == p && p == p[..s] + [p[s]];
    assert SizeFits(sizes[s], view[s], ps);
  }

  lemma DirEnd(sizes: seq<nat>, view: seq<seq<nat>>, ps: nat)
    requires 0 < ps && ViewFits(sizes, view, ps)
    ensures AllPages(view[..|view|]) == AllPages(view)
    ensures PageStarts(sizes[..|sizes|], ps)[..|sizes|] + [|AllPages(view)|] == PageStarts(sizes, ps)
  {
    assert view[..|view|] == view && sizes[..|sizes|] == sizes;
    AllPagesLength(sizes, view, ps);
    var p := PageStarts(sizes, ps);
    assert p == p[..|sizes|] + [p[|sizes|]];
  }

  lemma CurrentFits(t: Tables, ps: nat)
    requires 0 < ps && t.Valid(ps)
    ensures ViewFits(t.sizes, t.View(), ps)
  {
    CeilDivBounds(0, ps);
  }

  // ---------------------------------------------------------------- writing it

  /** Pages that were written earlier keep what they store. */
  lemma StoresKept(a: Image, b: Image, ps: nat, pages: seq<nat>, ws: seq<nat>, others: seq<nat>)
    requires 0 < ps && Stores(a, ps, pages, ws) && SameOffList(a, b, others) && NoDup(pages + others)
    ensures Stores(b, ps, pages, ws)
  {
    forall i | 0 <= i < |pages| ensures pages[i] !in others {
      forall j | 0 <= j < |others| ensures others[j] != pages[i] {
        assert (pages + others)[i] == pages[i] && (pages + others)[|pages| + j] == others[j];
      }
    }
    FlatSame(a, b, ps, pages);
  }

  lemma StoresMade(img: Image, ps: nat, pages: seq<nat>, ws: seq<nat>)
    requires 0 < ps && |pages| == CeilDiv(|EncodeWords(ws)|, ps) && HasPages(img, ps, pages)
    requires exists n :: Flat(img, ps, pages) == EncodeWords(ws) + Zeros(n)
    ensures Stores(img, ps, pages, ws)
  {
  }

  lemma OwnedNoDup(a: PageState, ps: nat, pages: seq<nat>, rest: set<nat>, prot: iset<nat>)
    requires 0 < ps && Owned(a, ps, pages, rest, prot)
    ensures WellFormed(a, ps) && NoDup(pages)
    ensures forall i :: 0 <= i < |pages| ==> Busy(a, ps, pages[i])
  {
  }

  lemma DecodedFacts(img: Image, s: Snapshot)
    requires Decode(img) == Some(s)
    ensures 512 <= s.header.pageSize && (s.header.activeFpm == 1 || s.header.activeFpm == 2)
    ensures forall i :: 0 <= i < |UsedPages(s)| ==> !IsSpecial(s.header.pageSize, UsedPages(s)[i])
  {
  }

  /** The pages of the committed state are not part of the inactive FPM. */
  lemma FootprintOffFpm(img: Image, s: Snapshot, number: nat)
    requires Decode(img) == Some(s) && (number == 1 || number == 2) && number != s.header.activeFpm
    ensures forall p :: p in Footprint(s) ==> p % s.header.pageSize != number
  {
    hide *;
    DecodedFacts(img, s);
    forall p | p in Footprint(s) ensures p % s.header.pageSize != number {
      OffFpm(s, p, number);
    }
  }

  lemma OffFpm(s: Snapshot, p: nat, number: nat)
    requires 512 <= s.header.pageSize && s.table.Valid() && p in Footprint(s)
    requires (number == 1 || number == 2) && number != s.header.activeFpm
    requires forall i :: 0 <= i < |UsedPages(s)| ==> !IsSpecial(s.header.pageSize, UsedPages(s)[i])
    ensures p % s.header.pageSize != number
  {
    assert InFootprint(s, p);
    hide UsedPages;
    if p == 0 {
      DivModUnique(0, s.header.pageSize, 0, 0);
    } else if p in UsedPages(s) {
      var i :| 0 <= i < |UsedPages(s)| && UsedPages(s)[i] == p;
    }
  }

  // ---------------------------------------------------------------- after the write of page 0

  /** What is on disk before page 0 is written, and what the page states were before the freed pages became free. */
  ghost predicate ReadyToCommit(img: Image, a: PageState, h: Header, mapPages: seq<nat>, dirPages: seq<nat>,
                                sizes: seq<nat>, view: seq<seq<nat>>, owner: map<nat, nat>, prot: iset<nat>)
    requires 0 < h.pageSize
  {
    && Owned(a, h.pageSize, dirPages + mapPages, owner.Keys, prot)
    && |a.fpm| == h.numPages && h.dirSize == 4 * |DirWords(sizes, view)|
    && Stores(img, h.pageSize, dirPages, DirWords(sizes, view)) && Stores(img, h.pageSize, mapPages, dirPages)
    && AllPresent(img, h.pageSize, view)
  }

  lemma SplitBusy(a: PageState, ps: nat, x: seq<nat>, y: seq<nat>)
    requires 0 < ps && forall i :: 0 <= i < |x + y| ==> Busy(a, ps, (x + y)[i])
    ensures forall i :: 0 <= i < |x| ==> !IsSpecial(ps, x[i])
    ensures forall i :: 0 <= i < |y| ==> !IsSpecial(ps, y[i])
  {
    forall i | 0 <= i < |x| ensures !IsSpecial(ps, x[i]) {
      assert (x + y)[i] == x[i];
    }
    forall i | 0 <= i < |y| ensures !IsSpecial(ps, y[i]) {
      assert (x + y)[|x| + i] == y[i];
    }
  }

  /** Neither the FPM nor page 0 overwrites the directory. */
  lemma CommittedPrepared(img1: Image, img2: Image, a: PageState, h: Header, mapPages: seq<nat>, dirPages: seq<nat>,
                          sizes: seq<nat>, view: seq<seq<nat>>, owner: map<nat, nat>, prot: iset<nat>, fpm: seq<bool>, page0: seq<u8>)
    requires 512 <= h.pageSize && (h.activeFpm == 1 || h.activeFpm == 2)
    requires ReadyToCommit(img1, a, h, mapPages, dirPages, sizes, view, owner, prot)
    requires SameOffFpm(img1, img2, h.pageSize, h.activeFpm)
    requires HasPages(img2, h.pageSize, FpmPages(h.activeFpm, h.pageSize, CeilDiv(h.numPages, h.pageSize)))
    requires Flat(img2, h.pageSize, FpmPages(h.activeFpm, h.pageSize, CeilDiv(h.numPages, h.pageSize)))
          == FpmBytes(fpm, CeilDiv(h.numPages, h.pageSize) * h.pageSize)
    ensures Prepared(img2[0 := page0], NewSnapshot(h, mapPages, dirPages, sizes, view), DirWords(sizes, view), fpm)
  {
    hide Stores;
    hide FpmByte;
    var ps, img3 := h.pageSize, img2[0 := page0];
    SpecialWrites(img1, img2, ps, h.activeFpm, page0);
    OwnedNoDup(a, ps, dirPages + mapPages, owner.Keys, prot);
    SplitBusy(a, ps, dirPages, mapPages);
    OrdinaryStores(img1, img3, ps, dirPages, DirWords(sizes, view));
    OrdinaryStores(img1, img3, ps, mapPages, dirPages);
    Page0KeepsFpm(img2, ps, h.activeFpm, CeilDiv(h.numPages, ps), page0);
  }

  lemma AllPagesPresent(img: Image, ps: nat, view: seq<seq<nat>>)
    requires AllPresent(img, ps, view) && 1 <= |view| && view[0] == []
    ensures HasPages(img, ps, AllPages(view))
  {
    var all := AllPages(view);
    forall i | 0 <= i < |all| ensures HasPage(img, ps, all[i]) {
      AllPagesMember(view, all[i]);
      var s :| 0 <= s < |view| && all[i] in view[s];
      assert HasPages(img, ps, view[s]);
    }
  }

  /** The stream tables that the directory describes. */
  function CommittedTables(t: Tables, ps: nat): Tables
    requires 0 < ps
  {
    Tables(t.sizes, map[], PageStarts(t.sizes, ps), AllPages(t.View()))
  }

  lemma CommittedTablesValid(t: Tables, ps: nat)
    requires 0 < ps && t.Valid(ps)
    ensures CommittedTables(t, ps).Valid(ps) && CommittedTables(t, ps).View() == t.View()
  {
    CurrentFits(t, ps);
    ViewTableValid(t.sizes, t.View(), ps);
    var t', table := CommittedTables(t, ps), ViewTable(t.sizes, t.View(), ps);
    forall s | 1 <= s < |t.sizes| ensures t'.PagesOf(s) == t.PagesOf(s) {
      assert table.Pages(s) == t.View()[s];
    }
    assert t'.View() == t.View();
  }

  /** The page states match the new directory: the partition holds, and the new committed pages are out of reach. */
  lemma CommitOwnership(a0: PageState, a: PageState, a': PageState, h: Header, mapPages: seq<nat>, dirPages: seq<nat>,
                        sizes: seq<nat>, view: seq<seq<nat>>, owner: map<nat, nat>, prot: iset<nat>)
    requires IsPageSize(h.pageSize) && (h.activeFpm == 1 || h.activeFpm == 2) && |a.fpm| == h.numPages
    requires ViewFits(sizes, view, h.pageSize) && sizes != [] && sizes[0] == 0
    requires Ownership(a0, h.pageSize, view, owner)
    requires Owned(a, h.pageSize, dirPages + mapPages, owner.Keys, prot) && AfterCommit(a, a', mapPages + dirPages)
    ensures var s := NewSnapshot(h, mapPages, dirPages, sizes, view);
            && s.table.Valid() && UsedPages(s) == mapPages + dirPages + AllPages(view)
            && PagesAcceptable(h.pageSize, h.numPages, UsedPages(s))
            && OpenedState(a', h.pageSize, h.numPages, UsedPages(s), mapPages + dirPages)
            && Ownership(a', h.pageSize, view, TableOwner(s.table))
            && Guarded(a', h.pageSize, Footprint(s))
  {
    hide PagesAcceptable;
    hide OpenedState;
    hide Guarded;
    hide AfterCommit;
    var s := NewSnapshot(h, mapPages, dirPages, sizes, view);
    LiveIsAll(h, mapPages, dirPages, sizes, view);
    Stream0Empty(sizes, view, h.pageSize);
    AllPagesOwned(a0, h.pageSize, view, owner);
    OwnedWellFormed(a, h.pageSize, dirPages + mapPages, owner.Keys, prot);
    hide Ownership;
    hide Owned;
    CommitConsistent(a, a', h.pageSize, dirPages, mapPages, AllPages(view), owner.Keys, prot);
    ViewTableValid(sizes, view, h.pageSize);
    TableOwnership(a', h.pageSize, h.numPages, s, view);
  }

  /** Right after opening or committing, the pages in use are those that the directory lists, and its own. */
  lemma OpenedTaken(a: PageState, ps: nat, np: nat, used: seq<nat>, dir: seq<nat>)
    requires 0 < ps && PagesAcceptable(ps, np, used) && OpenedState(a, ps, np, used, dir)
    ensures Taken(a, ps) == |used|
  {
    assert TakenSet(a, ps) == Elements(used) by {
      forall p | p in used ensures p in TakenSet(a, ps) {
        var i :| 0 <= i < |used| && used[i] == p;
      }
    }
    ListSize(used);
  }

  lemma OwnedWellFormed(a: PageState, ps: nat, pages: seq<nat>, rest: set<nat>, prot: iset<nat>)
    requires 0 < ps && Owned(a, ps, pages, rest, prot)
    ensures 0 < |a.fpm|
  {
  }

  lemma Stream0Empty(sizes: seq<nat>, view: seq<seq<nat>>, ps: nat)
    requires 0 < ps && ViewFits(sizes, view, ps) && sizes != [] && sizes[0] == 0
    ensures 1 <= |view| && view[0] == []
  {
    CeilDivBounds(0, ps);
  }

  /** Writing the directory, the FPM and page 0 leaves the contents of all streams as they are. */
  lemma CommitKeepsStreams(img0: Image, img1: Image, img2: Image, page0: seq<u8>, ps: nat, number: nat, a0: PageState,
                           sizes: seq<nat>, view: seq<seq<nat>>, owner: map<nat, nat>, prot: iset<nat>)
    requires 512 <= ps && (number == 1 || number == 2) && |sizes| == |view|
    requires Ownership(a0, ps, view, owner) && AllPresent(img0, ps, view)
    requires SameOn(img0, img1, KeepSet(owner.Keys, prot)) && SameOffFpm(img1, img2, ps, number)
    ensures AllPresent(img1, ps, view) && AllPresent(img2[0 := page0], ps, view)
    ensures StreamsOf(img2[0 := page0], ps, sizes, view) == StreamsOf(img0, ps, sizes, view)
  {
    KeptStreams(img0, img1, KeepSet(owner.Keys, prot), ps, sizes, view);
    SpecialWrites(img1, img2, ps, number, page0);
    forall s, i | 1 <= s < |view| && 0 <= i < |view[s]| ensures !IsSpecial(ps, view[s][i]) {
      assert view[s][i] in owner;
    }
    OrdinaryStreams(img1, img2[0 := page0], ps, sizes, view);
  }

  /** The tables and page states in memory are exactly those that an opener would build from the file. */
  ghost predicate Synced(s: Snapshot, t: Tables, a: PageState, ps: nat, np: nat, activeFpm: nat) {
    && 0 < ps == s.header.pageSize && np == s.header.numPages && activeFpm == s.header.activeFpm
    && s.table.Valid() && t == Tables(s.table.sizes, map[], s.table.starts, s.table.pages)
    && OpenedState(a, ps, np, UsedPages(s), s.mapPages + s.dirPages)
  }

  /** There is only one such state. */
  lemma SyncedUnique(s: Snapshot, t1: Tables, a1: PageState, t2: Tables, a2: PageState,
                     ps: nat, np: nat, fpm1: nat, fpm2: nat)
    requires Synced(s, t1, a1, ps, np, fpm1) && Synced(s, t2, a2, ps, np, fpm2)
    ensures t1 == t2 && a1 == a2 && fpm1 == fpm2
  {
    assert a1.freed == a2.freed && a1.freshPages == a2.freshPages;
  }
}
