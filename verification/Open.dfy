/** Opening a file for modification, step by step (msf/src/open.rs). */
module Open {
  import opened Bytes
  import opened Arith
  import opened Paging
  import opened Pages
  import opened Read
  import opened Directory
  import opened DiskLayout
  import opened Tables

  datatype OpenError =
    | ReadFailed
    | BadHeader
    | BadDirectoryPage
    | BadDirectory
    | BadStreamPage
    | BadFpm

  datatype Result<+T> = Success(value: T) | Failure(error: OpenError)

  // ---------------------------------------------------------------- acceptable page lists

  lemma AcceptableInsert(ps: nat, np: nat, a: seq<nat>, x: nat, b: seq<nat>)
    requires 0 < ps && PagesAcceptable(ps, np, a + b)
    ensures PagesAcceptable(ps, np, a + [x] + b) <==> x < np && !IsSpecial(ps, x) && x !in a && x !in b
  {
    var ab, axb := a + b, a + [x] + b;
    if PagesAcceptable(ps, np, axb) {
      assert axb[|a|] == x;
      forall i | 0 <= i < |a| ensures a[i] != x { assert axb[i] == a[i]; }
      forall i | 0 <= i < |b| ensures b[i] != x { assert axb[|a| + 1 + i] == b[i]; }
    } else if x < np && !IsSpecial(ps, x) && x !in a && x !in b {
      forall i | 0 <= i < |axb| ensures axb[i] < np && !IsSpecial(ps, axb[i]) {
        assert i < |a| ==> axb[i] == ab[i];
        assert |a| < i ==> axb[i] == ab[i - 1];
      }
      forall i, j | 0 <= i < j < |axb| ensures axb[i] != axb[j] {
        InsertDistinct(a, x, b, i, j);
      }
    }
  }

  lemma InsertDistinct(a: seq<nat>, x: nat, b: seq<nat>, i: nat, j: nat)
    requires NoDup(a + b) && x !in a && x !in b && i < j < |a| + 1 + |b|
    ensures (a + [x] + b)[i] != (a + [x] + b)[j]
  {
    var ab := a + b;
    if i != |a| && j != |a| {
      var i', j' := if i < |a| then i else i - 1, if j < |a| then j else j - 1;
      assert ab[i'] != ab[j'];
    }
  }

  /** A part of an acceptable list is acceptable. */
  lemma AcceptablePart(ps: nat, np: nat, m: seq<nat>, d: seq<nat>, l: seq<nat>, i: nat, j: nat, k: nat)
    requires 0 < ps && i <= |m| && j <= |d| && k <= |l|
    requires PagesAcceptable(ps, np, m + d + l) && (k == 0 || (i == |m| && j == |d|))
    ensures PagesAcceptable(ps, np, m[..i] + d[..j] + l[..k])
  {
    var all, part := m + d + l, m[..i] + d[..j] + l[..k];
    forall a | 0 <= a < |part| ensures part[a] == all[PartIndex(|m|, i, a)] && PartIndex(|m|, i, a) < |all| {
    }
    forall a, b | 0 <= a < b < |part| ensures part[a] != part[b] {
      assert PartIndex(|m|, i, a) < PartIndex(|m|, i, b);
    }
  }

  function PartIndex(m: nat, i: nat, a: nat): nat {
    if a < i then a else a - i + m
  }

  // ---------------------------------------------------------------- marking pages

  /** Marks one page of the directory or its map. */
  method MarkDirPage(alloc: PageAllocator, page: nat, ghost a: seq<nat>, ghost b: seq<nat>) returns (ok: bool)
    requires alloc.Valid() && alloc.nextFreePageHint == 0
    requires PagesAcceptable(alloc.pageSize, alloc.numPages, a + b)
    requires OpenedState(alloc.State(), alloc.pageSize, alloc.numPages, a + b, a + b)
    modifies alloc`fpm, alloc`fpmFreed
    ensures alloc.Valid()
    ensures ok <==> PagesAcceptable(alloc.pageSize, alloc.numPages, a + [page] + b)
    ensures ok ==> OpenedState(alloc.State(), alloc.pageSize, alloc.numPages, a + [page] + b, a + [page] + b)
  {
    AcceptableInsert(alloc.pageSize, alloc.numPages, a, page, b);
    ghost var ps, np, used := alloc.pageSize, alloc.numPages, a + [page] + b;
    ok := alloc.InitMarkStreamDirPageBusy(page);
    if ok {
      assert forall p: nat :: p in used <==> p in a + b || p == page;
      assert alloc.fpm == ComputedFpm(ps, np, used);
    }
    if ok && IsSpecial(alloc.pageSize, page) {
      return false;
    }
  }

  // ---------------------------------------------------------------- building the stream table

  /**
   * Cuts the directory into streams; the incremental form of `ParseDir`. Every stream gets the pages that are listed for
   * it, stream 0 included.
   */
  method BuildTable(words: seq<nat>, ps: nat) returns (r: Option<StreamTable>)
    requires 0 < ps
    ensures r == ParseDir(words, ps)
    ensures r.Some? <==> exists t :: Listed(words, ps, t)
    ensures r.Some? ==> Listed(words, ps, r.value)
  {
    hide *;
    ListedWhenParsed(words, ps);
    ParseDirIs(words, ps);
    if words == [] || words[0] == 0 || |words| < 1 + words[0] {
      return None;
    }
    var n := words[0];
    var raw := words[1..1 + n];
    var rest := words[1 + n..];
    ghost var all, starts0 := rest, PageStarts(raw, ps);
    var starts, pages: seq<nat> := [], [];
    for s := 0 to n
      invariant |starts| == s && (forall i :: 0 <= i < s ==> starts[i] == starts0[i])
      invariant starts0[s] <= |all| && pages == all[..starts0[s]] && rest == all[starts0[s]..]
    {
      starts := starts + [|pages|];
      var numStreamPages := NumPagesForStreamSize(raw[s], ps);
      assert starts0[s + 1] == starts0[s] + numStreamPages;
      if |rest| < numStreamPages {
        StartsMonotone(raw, ps, s + 1, n);
        return None;
      }
      AppendSlice(all, starts0[s], numStreamPages);
      pages := pages + rest[..numStreamPages];
      rest := rest[numStreamPages..];
    }
    starts := starts + [|pages|];
    assert starts == starts0;
    SliceOfSlice(words, 1 + n, starts0[n]);
    r := Some(StreamTable(raw[0 := 0], starts, pages));
  }

  lemma ParseDirIs(words: seq<nat>, ps: nat)
    requires 0 < ps
    ensures words == [] || words[0] == 0 || |words| < 1 + words[0] ==> ParseDir(words, ps) == None
    ensures words != [] && words[0] != 0 && 1 + words[0] <= |words| ==>
              var n := words[0];
              var raw := words[1..1 + n];
              var starts := PageStarts(raw, ps);
              && (|words| - 1 - n < starts[n] ==> ParseDir(words, ps) == None)
              && (starts[n] <= |words| - 1 - n ==>
                    ParseDir(words, ps) == Some(StreamTable(raw[0 := 0], starts, words[1 + n..1 + n + starts[n]])))
  {
    hide PageStarts;
  }

  lemma ListedWhenParsed(words: seq<nat>, ps: nat)
    requires 0 < ps
    ensures ParseDir(words, ps).Some? <==> exists t :: Listed(words, ps, t)
    ensures ParseDir(words, ps).Some? ==> Listed(words, ps, ParseDir(words, ps).value)
  {
    hide *;
    if t :| Listed(words, ps, t) {
      ParseIff(words, ps, t);
    }
    if ParseDir(words, ps).Some? {
      ParseIff(words, ps, ParseDir(words, ps).value);
    }
  }

  lemma AppendSlice(all: seq<nat>, i: nat, n: nat)
    requires i + n <= |all|
    ensures all[..i] + all[i..][..n] == all[..i + n] && all[i..][n..] == all[i + n..]
  {
  }

  // ---------------------------------------------------------------- the two-level loop

  lemma PageWord(flat: seq<u8>, base: nat, ps: nat, j: nat, n: nat)
    requires base + ps <= |flat| && 4 * j + 4 <= ps && base + 4 * j + 4 <= n <= |flat|
    ensures U32At(flat[base..base + ps], 4 * j) == U32At(flat[..n], base + 4 * j)
  {
  }

  /** Word `j` of map page `i` is entry `at` of the list of directory pages. */
  lemma MapWord(img: Image, h: Header, mapPages: seq<nat>, i: nat, j: nat, at: nat)
    requires IsPageSize(h.pageSize) && |mapPages| == NumMapPages(h)
    requires i < |mapPages| && 4 * j + 4 <= h.pageSize && 4 * at == i * h.pageSize + 4 * j && at < NumDirPages(h)
    ensures U32At(PageOf(img, h.pageSize, mapPages[i]), 4 * j) == ReadDirPages(img, h, mapPages)[at]
  {
    hide Flat;
    hide PageOf;
    hide U32At;
    hide CeilDiv;
    PageSlice(img, h.pageSize, mapPages, i);
    FlatLength(img, h.pageSize, mapPages);
    CeilDivBounds(4 * NumDirPages(h), h.pageSize);
    PageWord(Flat(img, h.pageSize, mapPages), i * h.pageSize, h.pageSize, j, 4 * NumDirPages(h));
  }

  /** The opener has dealt with `mi` map pages and read `di` directory pages. */
  ghost predicate DirLoaded(img: Image, h: Header, mapPages: seq<nat>, mi: nat, di: nat, dirBytes: seq<u8>, a: PageState)
    requires 0 < h.pageSize && |mapPages| == NumMapPages(h)
  {
    var d := ReadDirPages(img, h, mapPages);
    && mi <= |mapPages| && di <= |d|
    && PagesAcceptable(h.pageSize, h.numPages, mapPages[..mi] + d[..di])
    && OpenedState(a, h.pageSize, h.numPages, mapPages[..mi] + d[..di], mapPages[..mi] + d[..di])
    && HasPages(img, h.pageSize, mapPages[..mi])
    && HasPages(img, h.pageSize, d[..di])
    && dirBytes == Flat(img, h.pageSize, d[..di])
  }

  /** The pages of the directory and its map cannot be accepted. */
  ghost predicate DirBroken(img: Image, h: Header, mapPages: seq<nat>)
    requires 0 < h.pageSize && |mapPages| == NumMapPages(h)
  {
    var d := ReadDirPages(img, h, mapPages);
    || !PagesAcceptable(h.pageSize, h.numPages, mapPages + d)
    || !HasPages(img, h.pageSize, mapPages)
    || !HasPages(img, h.pageSize, d)
  }

  lemma PartBroken(img: Image, h: Header, mapPages: seq<nat>, mi: nat, di: nat)
    requires 0 < h.pageSize && |mapPages| == NumMapPages(h)
    requires mi <= |mapPages| && di <= NumDirPages(h)
    requires !PagesAcceptable(h.pageSize, h.numPages, mapPages[..mi] + ReadDirPages(img, h, mapPages)[..di])
    ensures DirBroken(img, h, mapPages)
  {
    var d := ReadDirPages(img, h, mapPages);
    assert mapPages + d + [] == mapPages + d;
    assert mapPages[..mi] + d[..di] + [] == mapPages[..mi] + d[..di];
    if PagesAcceptable(h.pageSize, h.numPages, mapPages + d) {
      AcceptablePart(h.pageSize, h.numPages, mapPages, d, [], mi, di, 0);
    }
  }

  lemma TakeOneMore(m: seq<nat>, d: seq<nat>, mi: nat, di: nat)
    requires mi <= |m| && di <= |d|
    ensures di < |d| ==> m[..mi] + d[..di + 1] == m[..mi] + d[..di] + [d[di]] + [] && d[..di + 1] == d[..di] + [d[di]]
    ensures mi < |m| ==> m[..mi + 1] + d[..di] == m[..mi] + [m[mi]] + d[..di] && m[..mi + 1] == m[..mi] + [m[mi]]
    ensures m[..mi] + d[..di] + [] == m[..mi] + d[..di]
  {
  }

  /** Marks and reads one directory page. */
  method LoadDirPage(file: BlockFile, h: Header, mapPages: seq<nat>, ghost mi: nat, ghost di: nat, dirBytes0: seq<u8>,
                     page: nat, alloc: PageAllocator)
    returns (ok: bool, dirBytes: seq<u8>)
    requires 0 < h.pageSize && |mapPages| == NumMapPages(h)
    requires alloc.Valid() && alloc.nextFreePageHint == 0 && alloc.pageSize == h.pageSize && alloc.numPages == h.numPages
    requires DirLoaded(file.image, h, mapPages, mi, di, dirBytes0, alloc.State())
    requires di < NumDirPages(h) && page == ReadDirPages(file.image, h, mapPages)[di]
    modifies alloc`fpm, alloc`fpmFreed
    ensures alloc.Valid()
    ensures ok ==> DirLoaded(file.image, h, mapPages, mi, di + 1, dirBytes, alloc.State())
    ensures !ok ==> DirBroken(file.image, h, mapPages)
  {
    ghost var d := ReadDirPages(file.image, h, mapPages);
    ghost var a := mapPages[..mi] + d[..di];
    TakeOneMore(mapPages, d, mi, di);
    dirBytes := dirBytes0;
    var marked := MarkDirPage(alloc, page, a, []);
    if !marked {
      PartBroken(file.image, h, mapPages, mi, di + 1);
      return false, dirBytes;
    }
    if !HasPage(file.image, h.pageSize, page) {
      return false, dirBytes;
    }
    FlatSnoc(file.image, h.pageSize, d[..di], page);
    dirBytes := dirBytes + PageOf(file.image, h.pageSize, page);
    ok := true;
  }

  /** Marks one map page and makes sure that it can be read. */
  method LoadMapPage(file: BlockFile, h: Header, mapPages: seq<nat>, mi: nat, ghost di: nat, ghost dirBytes: seq<u8>,
                     alloc: PageAllocator)
    returns (ok: bool)
    requires 0 < h.pageSize && |mapPages| == NumMapPages(h)
    requires alloc.Valid() && alloc.nextFreePageHint == 0 && alloc.pageSize == h.pageSize && alloc.numPages == h.numPages
    requires DirLoaded(file.image, h, mapPages, mi, di, dirBytes, alloc.State()) && mi < |mapPages|
    modifies alloc`fpm, alloc`fpmFreed
    ensures alloc.Valid()
    ensures ok ==> DirLoaded(file.image, h, mapPages, mi + 1, di, dirBytes, alloc.State())
    ensures !ok ==> DirBroken(file.image, h, mapPages)
  {
    ghost var d := ReadDirPages(file.image, h, mapPages);
    TakeOneMore(mapPages, d, mi, di);
    var marked := MarkDirPage(alloc, mapPages[mi], mapPages[..mi], d[..di]);
    if !marked {
      PartBroken(file.image, h, mapPages, mi + 1, di);
      return false;
    }
    ok := HasPage(file.image, h.pageSize, mapPages[mi]);
  }

  /** The inner loop: the directory pages listed on one map page, as long as the directory has more pages. */
  method LoadListedPages(file: BlockFile, h: Header, mapPages: seq<nat>, mi: nat, di0: nat, dirBytes0: seq<u8>, alloc: PageAllocator)
    returns (ok: bool, di: nat, dirBytes: seq<u8>)
    requires IsPageSize(h.pageSize) && |mapPages| == NumMapPages(h) && mi < |mapPages|
    requires alloc.Valid() && alloc.nextFreePageHint == 0 && alloc.pageSize == h.pageSize && alloc.numPages == h.numPages
    requires DirLoaded(file.image, h, mapPages, mi + 1, di0, dirBytes0, alloc.State())
    requires 4 * di0 == mi * h.pageSize
    modifies alloc`fpm, alloc`fpmFreed
    ensures alloc.Valid()
    ensures ok ==> DirLoaded(file.image, h, mapPages, mi + 1, di, dirBytes, alloc.State())
    ensures ok ==> di0 <= di <= di0 + h.pageSize / 4 && (di == NumDirPages(h) || di == di0 + h.pageSize / 4)
    ensures !ok ==> DirBroken(file.image, h, mapPages)
  {
    hide DirLoaded;
    hide DirBroken;
    var l1Page := PageOf(file.image, h.pageSize, mapPages[mi]);
    di, dirBytes := di0, dirBytes0;
    for j := 0 to h.pageSize / 4
      invariant alloc.Valid() && di == di0 + j
      invariant DirLoaded(file.image, h, mapPages, mi + 1, di, dirBytes, alloc.State())
    {
      if NumDirPages(h) <= di {
        LoadedBounds(file.image, h, mapPages, mi + 1, di, dirBytes, alloc.State());
        return true, di, dirBytes;
      }
      MapWord(file.image, h, mapPages, mi, j, di);
      ok, dirBytes := LoadDirPage(file, h, mapPages, mi + 1, di, dirBytes, U32At(l1Page, 4 * j), alloc);
      if !ok {
        return;
      }
      di := di + 1;
    }
    ok := true;
  }

  lemma LoadedBounds(img: Image, h: Header, mapPages: seq<nat>, mi: nat, di: nat, dirBytes: seq<u8>, a: PageState)
    requires 0 < h.pageSize && |mapPages| == NumMapPages(h)
    requires DirLoaded(img, h, mapPages, mi, di, dirBytes, a)
    ensures mi <= |mapPages| && di <= NumDirPages(h)
  {
  }

  lemma NextMapPage(h: Header, mi: nat, di: nat)
    requires IsPageSize(h.pageSize) && 4 * di == mi * h.pageSize
    ensures 4 * (di + h.pageSize / 4) == (mi + 1) * h.pageSize
  {
    PeelOne(mi + 1, h.pageSize);
  }

  /** While there are map pages left, there are directory pages left. */
  lemma MoreToRead(h: Header, mi: nat)
    requires IsPageSize(h.pageSize) && mi < NumMapPages(h)
    ensures mi * h.pageSize < 4 * NumDirPages(h)
  {
    CeilDivBounds(4 * NumDirPages(h), h.pageSize);
    MulMono(mi, NumMapPages(h) - 1, h.pageSize);
  }

  lemma NothingLoaded(img: Image, h: Header, mapPages: seq<nat>, a: PageState)
    requires IsPageSize(h.pageSize) && |mapPages| == NumMapPages(h) && OpenedState(a, h.pageSize, h.numPages, [], [])
    ensures 512 <= h.pageSize && h.pageSize % 4 == 0 && DirLoaded(img, h, mapPages, 0, 0, [], a)
    ensures NumMapPages(h) == CeilDiv(4 * NumDirPages(h), h.pageSize)
  {
    var d := ReadDirPages(img, h, mapPages);
    assert mapPages[..0] + d[..0] == [];
  }

  /** The outer loop: reads the whole stream directory and marks its pages and those of its map. */
  method LoadDirectory(file: BlockFile, h: Header, mapPages: seq<nat>, alloc: PageAllocator)
    returns (ok: bool, dirBytes: seq<u8>)
    requires IsPageSize(h.pageSize) && |mapPages| == NumMapPages(h)
    requires alloc.Valid() && alloc.nextFreePageHint == 0 && alloc.pageSize == h.pageSize && alloc.numPages == h.numPages
    requires OpenedState(alloc.State(), h.pageSize, h.numPages, [], [])
    modifies alloc`fpm, alloc`fpmFreed
    ensures alloc.Valid()
    ensures ok ==> DirLoaded(file.image, h, mapPages, |mapPages|, NumDirPages(h), dirBytes, alloc.State())
    ensures !ok ==> DirBroken(file.image, h, mapPages)
  {
    hide *;
    NothingLoaded(file.image, h, mapPages, alloc.State());
    var di: nat := 0;
    dirBytes := [];
    for mi := 0 to |mapPages|
      invariant alloc.Valid()
      invariant DirLoaded(file.image, h, mapPages, mi, di, dirBytes, alloc.State())
      invariant 4 * di <= mi * h.pageSize && (di < NumDirPages(h) ==> 4 * di == mi * h.pageSize)
    {
      MoreToRead(h, mi);
      ok := LoadMapPage(file, h, mapPages, mi, di, dirBytes, alloc);
      if !ok {
        return;
      }
      NextMapPage(h, mi, di);
      ok, di, dirBytes := LoadListedPages(file, h, mapPages, mi, di, dirBytes, alloc);
      if !ok {
        return;
      }
      LoadedBounds(file.image, h, mapPages, mi + 1, di, dirBytes, alloc.State());
    }
    LoadedBounds(file.image, h, mapPages, |mapPages|, di, dirBytes, alloc.State());
    CeilDivBounds(4 * NumDirPages(h), h.pageSize);
    ok := true;
  }

  // ---------------------------------------------------------------- the pages of the streams

  /** The first `k` stream pages are marked busy on top of the directory pages `base`. */
  ghost predicate StreamsMarked(a: PageState, ps: nat, np: nat, base: seq<nat>, live: seq<nat>, k: nat)
    requires 0 < ps
  {
    k <= |live| && PagesAcceptable(ps, np, base + live[..k]) && OpenedState(a, ps, np, base + live[..k], base)
  }

  /** Marks one stream page, with the checks in the order of the source. */
  method MarkStreamPage(alloc: PageAllocator, page: nat, ghost base: seq<nat>, ghost live: seq<nat>, ghost k: nat) returns (ok: bool)
    requires alloc.Valid() && alloc.nextFreePageHint == 0
    requires StreamsMarked(alloc.State(), alloc.pageSize, alloc.numPages, base, live, k)
    requires k < |live| && page == live[k]
    modifies alloc`fpm
    ensures alloc.Valid()
    ensures ok ==> StreamsMarked(alloc.State(), alloc.pageSize, alloc.numPages, base, live, k + 1)
    ensures !ok ==> !PagesAcceptable(alloc.pageSize, alloc.numPages, base + live)
  {
    ghost var used := base + live[..k];
    TakeOneMore(base, live, |base|, k);
    assert base[..|base|] == base;
    AcceptableInsert(alloc.pageSize, alloc.numPages, used, page, []);
    if page == 0 || IsFpmPage(alloc.pageSize, page) || alloc.numPages <= page || !alloc.fpm[page] {
      StreamPartBroken(alloc.pageSize, alloc.numPages, base, live, k + 1);
      return false;
    }
    alloc.fpm := alloc.fpm[page := false];
    ghost var used' := used + [page] + [];
    assert forall p: nat :: p in used' <==> p in used || p == page;
    assert alloc.fpm == ComputedFpm(alloc.pageSize, alloc.numPages, used');
    ok := true;
  }

  lemma StreamPartBroken(ps: nat, np: nat, base: seq<nat>, live: seq<nat>, k: nat)
    requires 0 < ps && k <= |live| && !PagesAcceptable(ps, np, base + live[..k])
    ensures !PagesAcceptable(ps, np, base + live)
  {
    assert base + [] + live == base + live && base[..|base|] + [][..0] + live[..k] == base + live[..k];
    if PagesAcceptable(ps, np, base + live) {
      AcceptablePart(ps, np, base, [], live, |base|, 0, k);
    }
  }

  /** Marks the pages of every stream but stream 0. */
  method MarkStreamPagesBusy(alloc: PageAllocator, t: StreamTable, ghost base: seq<nat>) returns (ok: bool)
    requires alloc.Valid() && alloc.nextFreePageHint == 0 && t.Valid()
    requires PagesAcceptable(alloc.pageSize, alloc.numPages, base)
    requires OpenedState(alloc.State(), alloc.pageSize, alloc.numPages, base, base)
    modifies alloc`fpm
    ensures alloc.Valid()
    ensures ok <==> PagesAcceptable(alloc.pageSize, alloc.numPages, base + t.LivePages())
    ensures ok ==> OpenedState(alloc.State(), alloc.pageSize, alloc.numPages, base + t.LivePages(), base)
  {
    ghost var live := t.LivePages();
    assert base + live[..0] == base;
    assert StreamsMarked(alloc.State(), alloc.pageSize, alloc.numPages, base, live, 0);
    hide StreamsMarked;
    for s := 1 to |t.sizes|
      invariant alloc.Valid()
      invariant StreamsMarked(alloc.State(), alloc.pageSize, alloc.numPages, base, live, t.starts[s] - t.starts[1])
    {
      for i := t.starts[s] to t.starts[s + 1]
        invariant alloc.Valid()
        invariant StreamsMarked(alloc.State(), alloc.pageSize, alloc.numPages, base, live, i - t.starts[1])
      {
        ok := MarkStreamPage(alloc, t.pages[i], base, live, i - t.starts[1]);
        if !ok {
          return;
        }
      }
    }
    AllMarked(alloc.State(), alloc.pageSize, alloc.numPages, base, live);
    ok := true;
  }

  lemma AllMarked(a: PageState, ps: nat, np: nat, base: seq<nat>, live: seq<nat>)
    requires 0 < ps && StreamsMarked(a, ps, np, base, live, |live|)
    ensures PagesAcceptable(ps, np, base + live) && OpenedState(a, ps, np, base + live, base)
  {
    assert live[..|live|] == live;
  }

  // ---------------------------------------------------------------- the FPM on disk

  /** Reads the active FPM, one page from each interval that holds a part of it. */
  method ReadFpmPages(file: BlockFile, activeFpm: nat, numPages: nat, ps: nat) returns (ok: bool, bytes: seq<u8>)
    requires 512 <= ps
    ensures ok <==> HasPages(file.image, ps, FpmPages(activeFpm, ps, NumFpmChunks(numPages, ps)))
    ensures ok ==> bytes == Flat(file.image, ps, FpmPages(activeFpm, ps, NumFpmChunks(numPages, ps)))
  {
    bytes := [];
    for interval := 0 to NumFpmChunks(numPages, ps)
      invariant HasPages(file.image, ps, FpmPages(activeFpm, ps, interval))
      invariant bytes == Flat(file.image, ps, FpmPages(activeFpm, ps, interval))
    {
      var page := interval * ps + activeFpm;
      if !HasPage(file.image, ps, page) {
        assert FpmPages(activeFpm, ps, NumFpmChunks(numPages, ps))[interval] == page;
        return false, bytes;
      }
      assert FpmPages(activeFpm, ps, interval + 1) == FpmPages(activeFpm, ps, interval) + [page];
      FlatSnoc(file.image, ps, FpmPages(activeFpm, ps, interval), page);
      bytes := bytes + PageOf(file.image, ps, page);
    }
    ok := true;
  }

  /** Checks that page 0 and the FPM pages of every interval are busy. */
  method CheckSpecialBusy(fpm: seq<bool>, ps: nat) returns (ok: bool)
    requires 512 <= ps && 0 < |fpm|
    ensures ok <==> forall p :: 0 <= p < |fpm| && IsSpecial(ps, p) ==> !fpm[p]
  {
    if fpm[0] {
      return false;
    }
    var interval := 0;
    while true
      invariant forall p :: 0 <= p < |fpm| && p < interval * ps && IsSpecial(ps, p) ==> !fpm[p]
      decreases |fpm| - interval * ps
    {
      IntervalPhases(ps, interval);
      var fpm1 := interval * ps + 1;
      var fpm2 := interval * ps + 2;
      if fpm1 < |fpm| && fpm[fpm1] {
        return false;
      }
      if fpm2 < |fpm| {
        if fpm[fpm2] {
          return false;
        }
        interval := interval + 1;
      } else {
        break;
      }
    }
    ok := true;
  }

  method ReadFpmBigMsf(file: BlockFile, activeFpm: nat, numPages: nat, ps: nat) returns (r: Result<seq<bool>>)
    requires 512 <= ps && 0 < numPages
    ensures r.Success? ==> HasPages(file.image, ps, FpmPages(activeFpm, ps, NumFpmChunks(numPages, ps)))
                           && r.value == ReadFpm(file.image, ps, activeFpm, numPages)
    ensures r.Failure? ==> !HasPages(file.image, ps, FpmPages(activeFpm, ps, NumFpmChunks(numPages, ps)))
                           || exists p :: 0 <= p < numPages && IsSpecial(ps, p) && ReadFpm(file.image, ps, activeFpm, numPages)[p]
  {
    var ok, bytes := ReadFpmPages(file, activeFpm, numPages, ps);
    if !ok {
      return Failure(ReadFailed);
    }
    FlatLength(file.image, ps, FpmPages(activeFpm, ps, NumFpmChunks(numPages, ps)));
    FpmChunksHoldAll(numPages, ps);
    var fpm := seq(numPages, p requires 0 <= p < numPages => Bit(bytes[p / 8] as nat, p % 8));
    assert fpm == ReadFpm(file.image, ps, activeFpm, numPages);
    ok := CheckSpecialBusy(fpm, ps);
    if !ok {
      return Failure(BadFpm);
    }
    return Success(fpm);
  }

  // ---------------------------------------------------------------- opening

  /** The strict opener succeeds exactly on the files that decode, and rebuilds the allocator's view of them. */
  method OpenForModify(file: BlockFile) returns (r: Result<Snapshot>, alloc: PageAllocator?)
    ensures r.Success? <==> Decode(file.image).Some?
    ensures r.Success? <==> exists s, words :: OnDisk(file.image, s, words)
    ensures r.Success? ==> exists words :: OnDisk(file.image, r.value, words)
    ensures r.Success? ==> alloc != null && fresh(alloc) && alloc.Valid() && r.value == Decode(file.image).value
    ensures r.Success? ==>
              var s := r.value;
              && alloc.pageSize == s.header.pageSize && alloc.numPages == s.header.numPages && alloc.nextFreePageHint == 0
              && PagesAcceptable(alloc.pageSize, alloc.numPages, UsedPages(s))
              && OpenedState(alloc.State(), alloc.pageSize, alloc.numPages, UsedPages(s), s.mapPages + s.dirPages)
  {
    hide *;
    OpensWhenStored(file.image);
    HeaderDecodes(file.image);
    alloc := null;
    var header := ReadHeader(file.image);
    if header.None? {
      return Failure(BadHeader), null;
    }
    var h := header.value;
    alloc := new PageAllocator(h.numPages, h.pageSize);
    NothingOpened(alloc);
    var mapPages := ReadMapPages(file.image[0], NumMapPages(h));
    var ok, dirBytes := LoadDirectory(file, h, mapPages, alloc);
    if !ok {
      BrokenDirFails(file.image, h, mapPages);
      return Failure(BadDirectoryPage), null;
    }
    ghost var base := mapPages + ReadDirPages(file.image, h, mapPages);
    LoadedAll(file.image, h, mapPages, dirBytes, alloc.State());
    DecodeFrom(file.image, h, mapPages);
    var words := DecodeWords(dirBytes[..h.dirSize]);
    var table := BuildTable(words, h.pageSize);
    if table.None? {
      return Failure(BadDirectory), null;
    }
    ok := MarkStreamPagesBusy(alloc, table.value, base);
    if !ok {
      return Failure(BadStreamPage), null;
    }
    var onDisk := ReadFpmBigMsf(file, h.activeFpm, h.numPages, h.pageSize);
    SpecialNotFree(h.pageSize, h.numPages, base + table.value.LivePages());
    if onDisk.Failure? {
      return Failure(onDisk.error), null;
    }
    OpenedFpm(alloc, base + table.value.LivePages(), base);
    if onDisk.value != alloc.fpm {
      return Failure(BadFpm), null;
    }
    // The page lists are known from reading the directory; the snapshot names them.
    var dirPages := ReadDirPages(file.image, h, mapPages);
    return Success(Snapshot(h, mapPages, dirPages, table.value)), alloc;
  }

  lemma HeaderDecodes(img: Image)
    ensures ReadHeader(img).None? ==> Decode(img).None?
    ensures ReadHeader(img).Some? ==>
              var h := ReadHeader(img).value;
              && IsPageSize(h.pageSize) && 512 <= h.pageSize && 0 < h.numPages && 0 in img
              && MSF_HEADER_LEN + 4 * NumMapPages(h) <= |img[0]|
  {
  }

  lemma NothingOpened(alloc: PageAllocator)
    requires alloc.Valid() && |alloc.fpm| == alloc.numPages
    requires forall p :: 0 <= p < alloc.numPages ==> alloc.fpm[p] == !IsSpecial(alloc.pageSize, p)
    requires forall p :: 0 <= p < alloc.numPages ==> !alloc.fpmFreed[p] && !alloc.freshPages[p]
    ensures OpenedState(alloc.State(), alloc.pageSize, alloc.numPages, [], [])
  {
    assert alloc.fpm == ComputedFpm(alloc.pageSize, alloc.numPages, []);
  }

  lemma OpenedFpm(alloc: PageAllocator, used: seq<nat>, dir: seq<nat>)
    requires 0 < alloc.pageSize && OpenedState(alloc.State(), alloc.pageSize, alloc.numPages, used, dir)
    ensures alloc.fpm == ComputedFpm(alloc.pageSize, alloc.numPages, used)
  {
  }

  lemma SpecialNotFree(ps: nat, numPages: nat, used: seq<nat>)
    requires 0 < ps
    ensures forall p :: 0 <= p < numPages && IsSpecial(ps, p) ==> !ComputedFpm(ps, numPages, used)[p]
  {
  }

  /** What remains to be checked once the directory is loaded. */
  lemma DecodeFrom(img: Image, h: Header, mapPages: seq<nat>)
    requires ReadHeader(img) == Some(h) && IsPageSize(h.pageSize) && 0 < h.pageSize && 0 in img
    requires MSF_HEADER_LEN + 4 * NumMapPages(h) <= |img[0]| && mapPages == ReadMapPages(img[0], NumMapPages(h))
    requires HasPages(img, h.pageSize, mapPages) && HasPages(img, h.pageSize, ReadDirPages(img, h, mapPages))
    ensures var ps, d := h.pageSize, ReadDirPages(img, h, mapPages);
            match ParseDir(ReadDirWords(img, h, d), ps)
            case None => Decode(img).None?
            case Some(t) =>
              var s := Snapshot(h, mapPages, d, t);
              && s.table.Valid() && UsedPages(s) == mapPages + d + t.LivePages()
              && Decode(img)
                 == if PagesAcceptable(ps, h.numPages, UsedPages(s))
                       && HasPages(img, ps, FpmPages(h.activeFpm, ps, NumFpmChunks(h.numPages, ps)))
                       && ReadFpm(img, ps, h.activeFpm, h.numPages) == ComputedFpm(ps, h.numPages, UsedPages(s))
                    then Some(s) else None
  {
    hide ReadHeader;
    hide ReadMapPages;
    hide NumMapPages;
    hide ReadDirPages;
    hide ReadDirWords;
    hide ParseDir;
    hide HasPages;
    hide ReadFpm;
    hide ComputedFpm;
    hide PagesAcceptable;
  }

  lemma BrokenDirFails(img: Image, h: Header, mapPages: seq<nat>)
    requires ReadHeader(img) == Some(h) && mapPages == ReadMapPages(img[0], NumMapPages(h))
    requires DirBroken(img, h, mapPages)
    ensures Decode(img) == None
  {
    var d := ReadDirPages(img, h, mapPages);
    if Decode(img).Some? {
      var live := Decode(img).value.table.LivePages();
      assert UsedPages(Decode(img).value) == mapPages + d + live;
      BaseAcceptable(h.pageSize, h.numPages, mapPages + d, live);
    }
  }

  lemma BaseAcceptable(ps: nat, np: nat, base: seq<nat>, live: seq<nat>)
    requires 0 < ps && PagesAcceptable(ps, np, base + live)
    ensures PagesAcceptable(ps, np, base)
  {
    assert live[..0] == [] && base + [] == base;
    if !PagesAcceptable(ps, np, base) {
      StreamPartBroken(ps, np, base, live, 0);
    }
  }

  lemma LoadedAll(img: Image, h: Header, mapPages: seq<nat>, dirBytes: seq<u8>, a: PageState)
    requires IsPageSize(h.pageSize) && |mapPages| == NumMapPages(h)
    requires DirLoaded(img, h, mapPages, |mapPages|, NumDirPages(h), dirBytes, a)
    ensures var d := ReadDirPages(img, h, mapPages);
            && PagesAcceptable(h.pageSize, h.numPages, mapPages + d)
            && OpenedState(a, h.pageSize, h.numPages, mapPages + d, mapPages + d)
            && HasPages(img, h.pageSize, mapPages) && HasPages(img, h.pageSize, d)
            && h.dirSize <= |dirBytes| && DecodeWords(dirBytes[..h.dirSize]) == ReadDirWords(img, h, d)
  {
    var d := ReadDirPages(img, h, mapPages);
    assert mapPages[..|mapPages|] == mapPages && d[..NumDirPages(h)] == d;
    FlatLength(img, h.pageSize, d);
    CeilDivBounds(h.dirSize, h.pageSize);
  }
}
