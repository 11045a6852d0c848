/** Writing to one stream: copy-on-write, zero extension, overwrite and append (msf/src/write.rs, msf/src/stream_writer.rs). */
module StreamWriters {
  import opened Bytes
  import opened Arith
  import opened Paging
  import opened Pages
  import opened Read
  import opened StreamSpec
  import opened Usage

  lemma AppendedFlat(img: Image, img': Image, ps: nat, pages: seq<nat>, first: nat, n: nat)
    requires SameOutside(img, img', first, n)
    requires forall i :: 0 <= i < |pages| ==> pages[i] < first || first + n <= pages[i]
    ensures Flat(img', ps, pages + PageRun(first, n)) == Flat(img, ps, pages) + Flat(img', ps, PageRun(first, n))
    ensures HasPages(img, ps, pages) && HasPages(img', ps, PageRun(first, n)) ==> HasPages(img', ps, pages + PageRun(first, n))
  {
    FlatSame(img, img', ps, pages);
    FlatConcat(img', ps, pages, PageRun(first, n));
  }

  lemma ReplacedFlat(img: Image, ps: nat, pages: seq<nat>, i: nat, newPage: nat, data: seq<u8>)
    requires i < |pages| && |data| == ps && NoDup(pages[i := newPage])
    ensures var img' := img[newPage := data];
            && i * ps + ps <= |Flat(img, ps, pages)|
            && Flat(img', ps, pages[i := newPage]) == Splice(Flat(img, ps, pages), i * ps, data)
            && (HasPages(img, ps, pages) ==> HasPages(img', ps, pages[i := newPage]))
  {
    var img', pages' := img[newPage := data], pages[i := newPage];
    FlatSplit(img, ps, pages, i);
    FlatSplit(img', ps, pages', i);
    assert pages'[..i] == pages[..i] && pages'[i + 1..] == pages[i + 1..];
    forall k | 0 <= k < |pages'| && k != i ensures pages'[k] != newPage {
      assert pages'[i] == newPage;
    }
    WriteOffList(img, ps, pages[..i], newPage, data);
    WriteOffList(img, ps, pages[i + 1..], newPage, data);
    SpliceMiddle(Flat(img, ps, pages[..i]), PageOf(img, ps, pages[i]), Flat(img, ps, pages[i + 1..]), data);
    ConcatAssoc(Flat(img, ps, pages[..i]), PageOf(img, ps, pages[i]), Flat(img, ps, pages[i + 1..]));
    ConcatAssoc(Flat(img, ps, pages[..i]), data, Flat(img, ps, pages[i + 1..]));
  }

  lemma WriteOffList(img: Image, ps: nat, pages: seq<nat>, p: nat, data: seq<u8>)
    requires p !in pages
    ensures Flat(img[p := data], ps, pages) == Flat(img, ps, pages)
  {
    FlatSame(img, img[p := data], ps, pages);
  }

  /** The length of the prefix of `pages` that is numbered sequentially. */
  method FindLongestPageRun(pages: seq<nat>) returns (i: nat)
    ensures i <= |pages| && (pages != [] ==> 0 < i && pages[..i] == PageRun(pages[0], i))
    ensures 0 < i < |pages| ==> pages[i] != pages[i - 1] + 1
  {
    if pages == [] {
      return 0;
    }
    var prev := pages[0];
    i := 1;
    while i < |pages| && pages[i] == prev + 1
      invariant 1 <= i <= |pages| && prev == pages[i - 1]
      invariant pages[..i] == PageRun(pages[0], i)
    {
      prev := pages[i];
      i := i + 1;
    }
  }

  /** The two images agree on every page that is not in the list. */
  ghost predicate SameOffList(a: Image, b: Image, pages: seq<nat>) {
    forall p: nat :: p !in pages ==> ((p in a) == (p in b)) && (p in a ==> a[p] == b[p])
  }

  /** The first `k` pages have been written, nothing else has, and `left` remains of the data. */
  ghost predicate WrittenUpTo(img0: Image, img: Image, ps: nat, pages: seq<nat>, k: nat, data: seq<u8>, left: seq<u8>) {
    && k <= |pages|
    && SameOffList(img0, img, pages[..k])
    && HasPages(img, ps, pages[..k])
    && Flat(img, ps, pages[..k]) + left == data
  }

  lemma RunWritten(img0: Image, img: Image, img': Image, ps: nat, pages: seq<nat>, k: nat, n: nat,
                   data: seq<u8>, head: seq<u8>, tail: seq<u8>)
    requires k + n <= |pages| && NoDup(pages) && 0 < n
    requires pages[k..k + n] == PageRun(pages[k], n)
    requires WrittenUpTo(img0, img, ps, pages, k, data, head + tail)
    requires SameOutside(img, img', pages[k], n) && HasPages(img', ps, PageRun(pages[k], n))
    requires Flat(img', ps, PageRun(pages[k], n)) == head
    ensures WrittenUpTo(img0, img', ps, pages, k + n, data, tail)
  {
    var a, r := pages[..k], PageRun(pages[k], n);
    assert pages[..k + n] == a + r;
    forall i | 0 <= i < k ensures a[i] < pages[k] || pages[k] + n <= a[i] {
      RunMember(pages, k, n, a[i]);
    }
    AppendedFlat(img, img', ps, a, pages[k], n);
    ConcatAssoc(Flat(img, ps, a), head, tail);
    OffListRun(img0, img, img', pages, k, n);
  }

  lemma OffListRun(img0: Image, img: Image, img': Image, pages: seq<nat>, k: nat, n: nat)
    requires k + n <= |pages| && 0 < n
    requires pages[k..k + n] == PageRun(pages[k], n)
    requires SameOffList(img0, img, pages[..k]) && SameOutside(img, img', pages[k], n)
    ensures SameOffList(img0, img', pages[..k + n])
  {
    var a, r := pages[..k], PageRun(pages[k], n);
    assert pages[..k + n] == a + r;
    forall p: nat | p !in a + r
      ensures ((p in img0) == (p in img')) && (p in img0 ==> img0[p] == img'[p])
    {
      assert p !in a && p !in r;
      RunMember(pages, k, n, p);
    }
  }

  lemma RunMember(pages: seq<nat>, k: nat, n: nat, p: nat)
    requires 0 < n && k + n <= |pages| && pages[k..k + n] == PageRun(pages[k], n)
    ensures pages[k] <= p < pages[k] + n ==> exists j :: k <= j < k + n && pages[j] == p && p in PageRun(pages[k], n)
  {
    if pages[k] <= p < pages[k] + n {
      assert PageRun(pages[k], n)[p - pages[k]] == p;
      assert pages[k + (p - pages[k])] == pages[k..k + n][p - pages[k]];
    }
  }

  /** Writes `data` to a list of pages, one write for each run of consecutive pages. */
  method WriteRuns(file: BlockFile, data: seq<u8>, pages: seq<nat>, ps: nat, ghost keep: iset<nat>)
    requires file.Valid() && NoDup(pages) && IsWhole(data, |pages|, ps)
    requires forall p :: p in keep ==> p !in pages
    modifies file
    ensures file.Valid() && HasPages(file.image, ps, pages) && Flat(file.image, ps, pages) == data
    ensures SameOffList(old(file.image), file.image, pages)
    ensures Extends(old(file.history), file.history, keep)
  {
    var k, left := 0, data;
    while k < |pages|
      invariant 0 <= k <= |pages| && IsWhole(left, |pages| - k, ps)
      invariant file.Valid()
      invariant WrittenUpTo(old(file.image), file.image, ps, pages, k, data, left)
      invariant Extends(old(file.history), file.history, keep)
    {
      k, left := WriteFirstRun(file, data, left, pages, k, ps, keep, old(file.image), old(file.history));
    }
    assert pages[..k] == pages;
  }

  method WriteFirstRun(file: BlockFile, ghost data: seq<u8>, left: seq<u8>, pages: seq<nat>, k: nat, ps: nat,
                       ghost keep: iset<nat>, ghost img0: Image, ghost h0: seq<Image>)
    returns (k': nat, tail: seq<u8>)
    requires file.Valid() && NoDup(pages) && k < |pages| && IsWhole(left, |pages| - k, ps)
    requires WrittenUpTo(img0, file.image, ps, pages, k, data, left)
    requires forall p :: p in keep ==> p !in pages
    requires Extends(h0, file.history, keep)
    modifies file
    ensures k < k' <= |pages| && IsWhole(tail, |pages| - k', ps)
    ensures file.Valid() && WrittenUpTo(img0, file.image, ps, pages, k', data, tail)
    ensures Extends(h0, file.history, keep)
  {
    hide *;
    var n := FindLongestPageRun(pages[k..]);
    SliceOfSlice(pages, k, n);
    var head;
    head, tail := SplitWhole(left, n, |pages| - k, ps);
    ghost var img, h := file.image, file.history;
    forall p | p in keep ensures p < pages[k] || pages[k] + n <= p {
      RunMember(pages, k, n, p);
    }
    file.WriteRun(pages[k], n, ps, head, keep);
    RunWritten(img0, img, file.image, ps, pages, k, n, data, head, tail);
    ExtendsTrans(h0, h, file.history, keep);
    k' := k + n;
  }

  /** Splits off the first `n` of `total` pages. */
  method SplitWhole(data: seq<u8>, n: nat, total: nat, ps: nat) returns (head: seq<u8>, tail: seq<u8>)
    requires n <= total && IsWhole(data, total, ps)
    ensures data == head + tail && IsWhole(head, n, ps) && IsWhole(tail, total - n, ps)
  {
    WholeSplit(data, n, total, ps);
    head, tail := data[..n * ps], data[n * ps..];
  }

  lemma {:induction false} WholeSplit(data: seq<u8>, n: nat, total: nat, ps: nat)
    requires n <= total && IsWhole(data, total, ps)
    ensures n * ps <= |data|
    ensures IsWhole(data[..n * ps], n, ps) && IsWhole(data[n * ps..], total - n, ps)
  {
    WholeLength(data, total, ps);
    MulMono(n, total, ps);
    WholeLength(data[..n * ps], n, ps);
    assert (total - n) * ps == total * ps - n * ps;
    WholeLength(data[n * ps..], total - n, ps);
  }

  lemma MiddleReplaced(img: Image, img': Image, ps: nat, pages: seq<nat>, pages': seq<nat>, lo: nat, n: nat, data: seq<u8>)
    requires lo + n <= |pages| == |pages'| && NoDup(pages')
    requires pages'[..lo] == pages[..lo] && pages'[lo + n..] == pages[lo + n..]
    requires SameOffList(img, img', pages'[lo..lo + n])
    requires Flat(img', ps, pages'[lo..lo + n]) == data && |data| == n * ps
    ensures lo * ps + n * ps <= |Flat(img, ps, pages)|
    ensures Flat(img', ps, pages') == Splice(Flat(img, ps, pages), lo * ps, data)
  {
    ThreeParts(img, ps, pages, lo, n);
    ThreeParts(img', ps, pages', lo, n);
    OffListSame(img, img', ps, pages', lo, n);
    SpliceMiddle(Flat(img, ps, pages[..lo]), Flat(img, ps, pages[lo..lo + n]), Flat(img, ps, pages[lo + n..]), data);
  }

  lemma ThreeParts(img: Image, ps: nat, pages: seq<nat>, lo: nat, n: nat)
    requires lo + n <= |pages|
    ensures Flat(img, ps, pages)
         == Flat(img, ps, pages[..lo]) + (Flat(img, ps, pages[lo..lo + n]) + Flat(img, ps, pages[lo + n..]))
    ensures |Flat(img, ps, pages[..lo])| == lo * ps && |Flat(img, ps, pages[lo..lo + n])| == n * ps
  {
    SplitInThree(pages, lo, n);
    FlatConcat(img, ps, pages[..lo], pages[lo..lo + n] + pages[lo + n..]);
    FlatConcat(img, ps, pages[lo..lo + n], pages[lo + n..]);
    FlatLength(img, ps, pages[..lo]);
    FlatLength(img, ps, pages[lo..lo + n]);
  }

  /** The first pages hold the first bytes. */
  lemma PrefixFlat(img: Image, ps: nat, pages: seq<nat>, n: nat, len: nat, size: nat)
    requires n <= |pages| && len <= n * ps && len <= size <= |Flat(img, ps, pages)|
    ensures |Flat(img, ps, pages[..n])| == n * ps
    ensures Flat(img, ps, pages[..n])[..len] == Flat(img, ps, pages)[..size][..len]
  {
    hide Flat;
    ThreeParts(img, ps, pages, n, |pages| - n);
  }

  lemma OffListSame(img: Image, img': Image, ps: nat, pages: seq<nat>, lo: nat, n: nat)
    requires lo + n <= |pages| && NoDup(pages)
    requires SameOffList(img, img', pages[lo..lo + n])
    ensures Flat(img, ps, pages[..lo]) == Flat(img', ps, pages[..lo])
    ensures Flat(img, ps, pages[lo + n..]) == Flat(img', ps, pages[lo + n..])
    ensures (HasPages(img, ps, pages[..lo]) && HasPages(img, ps, pages[lo + n..]) && HasPages(img', ps, pages[lo..lo + n]))
            ==> HasPages(img', ps, pages)
  {
    var a, b, c := pages[..lo], pages[lo..lo + n], pages[lo + n..];
    forall i | 0 <= i < |pages| && !(lo <= i < lo + n) ensures pages[i] !in b {
      forall j | 0 <= j < n ensures b[j] != pages[i] {
        assert b[j] == pages[lo + j];
      }
    }
    forall i | 0 <= i < |a| ensures PageOf(img, ps, a[i]) == PageOf(img', ps, a[i]) {
      assert a[i] == pages[i];
    }
    forall i | 0 <= i < |c| ensures PageOf(img, ps, c[i]) == PageOf(img', ps, c[i]) {
      assert c[i] == pages[lo + n + i];
    }
    FlatSame(img, img', ps, a);
    FlatSame(img, img', ps, c);
    forall i | 0 <= i < |pages| && HasPages(img, ps, a) && HasPages(img, ps, c) && HasPages(img', ps, b)
      ensures HasPage(img', ps, pages[i])
    {
      if i < lo {
        assert a[i] == pages[i];
      } else if i < lo + n {
        assert b[i - lo] == pages[i];
      } else {
        assert c[i - lo - n] == pages[i];
      }
    }
  }

  /** What `set_len` fills up in the last page of a stream that it grows. */
  function ZeroedBytes(size: nat, len: nat, ps: nat): nat
    requires 0 < ps && size < len
  {
    if size % ps == 0 then 0 else Min(ps - size % ps, len - size)
  }

  /** Where growing goes on with whole pages; elsewhere an assertion fails or an integer overflows. */
  predicate GoesOn(size: nat, more: nat, ps: nat)
    requires 0 < ps
  {
    size % ps == 0 && size < more && size + more < U32_LIMIT
  }

  /**
   * The size that `set_len` arrives at when it grows a stream; `None` for a panic. The number of bytes that were zeroed
   * in the last page is taken off the target length, which is then added to the size.
   */
  function GrownSize(size: nat, len: nat, ps: nat): Option<nat>
    requires 0 < ps && size < len
  {
    var zeroed := ZeroedBytes(size, len, ps);
    var size', len' := size + zeroed, len - zeroed;
    if size % ps != 0 && len' == 0 then Some(size') else
    if GoesOn(size', len', ps) then Some(size' + len') else None
  }

  lemma GrownSizeIs(size: nat, len: nat, ps: nat)
    requires 512 <= ps && size < len
    ensures var zeroed := ZeroedBytes(size, len, ps);
            var size', len' := size + zeroed, len - zeroed;
            && zeroed < len && size' <= len
            && GrownSize(size, len, ps) == if GoesOn(size', len', ps) then Some(size' + len') else None
    ensures GrownSize(size, len, ps) == Some(len) ==> size == 0
    ensures GrownSize(size, len, ps).Some? ==> GrownSize(size, len, ps).value <= NIL_STREAM_SIZE
    ensures size == 0 && len <= NIL_STREAM_SIZE ==> ZeroedBytes(size, len, ps) == 0 && GrownSize(size, len, ps) == Some(len)
  {
    DivModUnique(0, ps, 0, 0);
  }

  class StreamWriter {
    const file: BlockFile
    const alloc: PageAllocator
    /** The stream number. */
    const stream: nat
    /** The pages of the other streams, and the pages that the committed state uses. */
    ghost const rest: set<nat>
    ghost const prot: iset<nat>
    ghost const keep: iset<nat>
    /** The page states that the pages taken since are counted from. */
    ghost var start: PageState
    var size: nat
    var pages: seq<nat>
    var pos: nat

    constructor (file: BlockFile, alloc: PageAllocator, stream: nat, size: nat, pages: seq<nat>,
                 ghost rest: set<nat>, ghost prot: iset<nat>)
      ensures start == alloc.State()
      ensures this.file == file && this.alloc == alloc && this.stream == stream
      ensures this.size == size && this.pages == pages && pos == 0
      ensures this.rest == rest && this.prot == prot && keep == KeepSet(rest, prot)
    {
      this.file, this.alloc, this.stream := file, alloc, stream;
      this.size, this.pages, pos := size, pages, 0;
      this.rest, this.prot, keep := rest, prot, KeepSet(rest, prot);
      start := alloc.State();
    }

    ghost predicate OwnsPages()
      reads this, file, alloc
    {
      && alloc.Valid() && file.Valid() && keep == KeepSet(rest, prot)
      && Owned(alloc.State(), alloc.pageSize, pages, rest, prot)
      && Accounted(start, alloc.State(), alloc.pageSize, rest)
    }

    /**
     * The pages hold the stream, and there are as many as the size needs. A write may end exactly at the size that
     * stands for a nil stream.
     */
    ghost predicate Consistent()
      reads this, file, alloc
    {
      && OwnsPages()
      && HasPages(file.image, alloc.pageSize, pages)
      && size <= NIL_STREAM_SIZE
      && Covers(size, pages, alloc.pageSize)
    }

    /** Between operations: the stream is not nil either. */
    ghost predicate Valid()
      reads this, file, alloc
    {
      Consistent() && size < NIL_STREAM_SIZE
    }

    /** What a valid writer guarantees before its first call. */
    lemma Usable()
      requires Consistent() || Valid()
      ensures 512 <= alloc.pageSize && OwnsPages() && HasPages(file.image, alloc.pageSize, pages)
      ensures size <= NIL_STREAM_SIZE && Covers(size, pages, alloc.pageSize) && |Data()| == size
      ensures size < NIL_STREAM_SIZE <==> Valid()
      ensures Valid() ==> SizeFits(size, pages, alloc.pageSize)
    {
      SizeMeasured();
    }

    ghost function AllBytes(): seq<u8>
      reads this`pages, file
    {
      Flat(file.image, alloc.pageSize, pages)
    }

    /** The contents of the stream. */
    ghost function Data(): seq<u8>
      reads this, file
      requires 0 < alloc.pageSize
    {
      Contents(file.image, alloc.pageSize, size, pages)
    }

    /** The parts of a consistent writer, in bytes. */
    lemma Unfolded()
      requires Consistent()
      ensures OwnsPages() && HasPages(file.image, alloc.pageSize, pages) && 512 <= alloc.pageSize && size <= NIL_STREAM_SIZE
      ensures size <= |AllBytes()| < size + alloc.pageSize && Data() == AllBytes()[..size] && |Data()| == size
      ensures AllBytes() == Flat(file.image, alloc.pageSize, pages)
    {
      SizeMeasured();
    }

    lemma Folded()
      requires OwnsPages() && HasPages(file.image, alloc.pageSize, pages) && size <= NIL_STREAM_SIZE
      requires size <= |AllBytes()| < size + alloc.pageSize
      ensures Consistent() && Data() == AllBytes()[..size] && |Data()| == size && (size < NIL_STREAM_SIZE <==> Valid())
    {
      SizeMeasured();
    }

    // -------------------------------------------------------------- new pages

    method AllocAndPush(wanted: nat) returns (first: nat, runLen: nat)
      requires OwnsPages() && 0 < wanted
      modifies this`pages, alloc
      ensures OwnsPages()
      ensures 1 <= runLen <= wanted && pages == old(pages) + PageRun(first, runLen)
      ensures runLen == RunLength(old(alloc.fpm), alloc.pageSize, wanted)
      ensures forall p :: p in keep ==> p < first || first + runLen <= p
      ensures forall i :: 0 <= i < |old(pages)| ==> old(pages)[i] < first || first + runLen <= old(pages)[i]
    {
      hide Accounted;
      hide Allocated;
      hide RunLength;
      ghost var a0 := alloc.State();
      first, runLen := alloc.AllocPages(wanted);
      AllocatedSized(a0, alloc.State(), alloc.pageSize, first, runLen);
      AccountedAlloc(start, a0, alloc.State(), alloc.pageSize, rest, first, runLen);
      AllocatedKeepsOwned(a0, alloc.State(), alloc.pageSize, first, runLen, pages, rest, prot);
      PushRun(first, runLen);
    }

    method PushRun(first: nat, n: nat)
      modifies this`pages
      ensures pages == old(pages) + PageRun(first, n)
    {
      for i := 0 to n
        invariant pages == old(pages) + PageRun(first, i)
      {
        pages := pages + [first + i];
        assert PageRun(first, i) + [first + i] == PageRun(first, i + 1);
      }
    }

    /** Writes the run of new pages at the end of the page list. */
    method StoreRun(ghost before: seq<nat>, first: nat, n: nat, data: seq<u8>)
      requires OwnsPages() && pages == before + PageRun(first, n)
      requires HasPages(file.image, alloc.pageSize, before) && IsWhole(data, n, alloc.pageSize)
      requires forall p :: p in keep ==> p < first || first + n <= p
      requires forall i :: 0 <= i < |before| ==> before[i] < first || first + n <= before[i]
      modifies file
      ensures OwnsPages() && HasPages(file.image, alloc.pageSize, pages)
      ensures AllBytes() == old(Flat(file.image, alloc.pageSize, before)) + data
      ensures Extends(old(file.history), file.history, keep)
    {
      ghost var img := file.image;
      file.WriteRun(first, n, alloc.pageSize, data, keep);
      AppendedFlat(img, file.image, alloc.pageSize, before, first, n);
    }

    // -------------------------------------------------------------- copy-on-write

    method CowPage(spage: nat) returns (page: nat)
      requires OwnsPages() && spage < |pages|
      modifies this`pages, alloc
      ensures OwnsPages() && page !in keep
      ensures pages == old(pages)[spage := page]
      ensures page < |alloc.freshPages| && alloc.freshPages[page]
      ensures |old(alloc.freshPages)| <= |alloc.freshPages|
      ensures forall p :: 0 <= p < |old(alloc.freshPages)| && old(alloc.freshPages)[p] ==> alloc.freshPages[p]
    {
      hide Accounted;
      ghost var a0 := alloc.State();
      assert Busy(a0, alloc.pageSize, pages[spage]);
      page := alloc.MakePageFresh(pages[spage]);
      AccountedReplaced(start, a0, alloc.State(), alloc.pageSize, rest, pages[spage], page);
      ReplacedKeepsOwned(a0, alloc.State(), alloc.pageSize, page, pages, spage, rest, prot);
      pages := pages[spage := page];
    }

    /** Rewrites one page of the stream, on a page that the committed state does not use. */
    method CowPageAndWrite(spage: nat, data: seq<u8>)
      requires OwnsPages() && spage < |pages| && HasPages(file.image, alloc.pageSize, pages)
      requires |data| == alloc.pageSize
      modifies this`pages, alloc, file
      ensures OwnsPages() && HasPages(file.image, alloc.pageSize, pages) && |pages| == |old(pages)|
      ensures spage * alloc.pageSize + alloc.pageSize <= |old(AllBytes())|
      ensures AllBytes() == Splice(old(AllBytes()), spage * alloc.pageSize, data)
      ensures Extends(old(file.history), file.history, keep)
    {
      var page := CowPage(spage);
      ReplacedFlat(file.image, alloc.pageSize, old(pages), spage, page, data);
      ExtendsWrite(file.history, file.history, file.image, page, data, keep);
      file.WritePage(page, data);
    }

    /** The size and the page list fit together exactly when the size ends on the last page. */
    lemma SizeMeasured()
      requires 0 < alloc.pageSize
      ensures Covers(size, pages, alloc.pageSize) <==> size <= |AllBytes()| < size + alloc.pageSize
      ensures size != NIL_STREAM_SIZE ==> (Covers(size, pages, alloc.pageSize) <==> SizeFits(size, pages, alloc.pageSize))
      ensures size <= |AllBytes()| ==> Data() == AllBytes()[..size] && |Data()| == size
    {
      CoversFlat(file.image, size, pages, alloc.pageSize);
    }

    lemma AlignedSize()
      requires Consistent()
      ensures size % alloc.pageSize == 0 <==> size == |AllBytes()|
    {
      AlignedFlat(file.image, size, pages, alloc.pageSize);
    }

    /** Reads one page of the stream, lays `head` over part of it, and writes it copy-on-write. */
    method CowOverlay(at: nat, head: seq<u8>)
      requires OwnsPages() && HasPages(file.image, alloc.pageSize, pages) && at < |AllBytes()|
      requires at % alloc.pageSize + |head| <= alloc.pageSize
      modifies this`pages, alloc, file
      ensures OwnsPages() && HasPages(file.image, alloc.pageSize, pages) && |pages| == |old(pages)|
      ensures at + |head| <= |old(AllBytes())| && AllBytes() == Splice(old(AllBytes()), at, head)
      ensures Extends(old(file.history), file.history, keep)
    {
      hide Owned;
      hide Accounted;
      hide Splice;
      var spage, phase := at / alloc.pageSize, at % alloc.pageSize;
      ghost var flat := AllBytes();
      ghost var base := PageAt(file.image, alloc.pageSize, pages, at);
      var page := PageOf(file.image, alloc.pageSize, pages[spage]);
      var data := page[..phase] + head + page[phase + |head|..];
      OverlayPage(flat, base, page, phase, head);
      CowPageAndWrite(spage, data);
    }

    /** Lays `head` over part of one page that the stream already has. The stream may grow within its last page. */
    method RewritePage(at: nat, head: seq<u8>)
      requires Consistent() && at <= size && at < |AllBytes()|
      requires at % alloc.pageSize + |head| <= alloc.pageSize && at + |head| <= NIL_STREAM_SIZE
      modifies this`pages, this`size, alloc, file
      ensures Consistent()
      ensures Data() == WriteSpec(old(Data()), head, at)
      ensures size == if old(size) < at + |head| then at + |head| else old(size)
      ensures Extends(old(file.history), file.history, keep)
    {
      hide Owned;
      hide Accounted;
      hide WriteSpec;
      hide Splice;
      ghost var flat := AllBytes();
      SizeMeasured();
      CowOverlay(at, head);
      SpliceIsWrite(flat, size, at, head);
      if size < at + |head| {
        size := at + |head|;
      }
      SizeMeasured();
    }

    // -------------------------------------------------------------- append

    lemma WholePages(len: nat, ps: nat)
      requires 0 < ps <= len
      ensures 0 < len / ps
    {
    }

    /** Appends as many whole pages as one allocation yields. */
    method AppendOneRun(buf0: seq<u8>) returns (buf: seq<u8>, ghost done: seq<u8>)
      requires Consistent() && size == |AllBytes()| && alloc.pageSize <= |buf0| && size + |buf0| <= NIL_STREAM_SIZE
      modifies this`pages, this`size, alloc, file
      ensures Consistent() && size == |AllBytes()| == old(size) + |done|
      ensures buf0 == done + buf && |buf| < |buf0|
      ensures AllBytes() == old(AllBytes()) + done
      ensures Extends(old(file.history), file.history, keep)
    {
      hide *;
      Unfolded();
      WholePages(|buf0|, alloc.pageSize);
      var numPagesWanted := |buf0| / alloc.pageSize;
      ghost var before := pages;
      var first, runLen := AllocAndPush(numPagesWanted);
      WholePagesFit(runLen, |buf0|, alloc.pageSize);
      MulMono(1, runLen, alloc.pageSize);
      var xferLen := runLen * alloc.pageSize;
      done, buf := buf0[..xferLen], buf0[xferLen..];
      WholeLength(buf0[..xferLen], runLen, alloc.pageSize);
      StoreRun(before, first, runLen, buf0[..xferLen]);
      size := size + xferLen;
      Folded();
    }

    method WriteAppendCompletePages(buf0: seq<u8>) returns (buf: seq<u8>, ghost done: seq<u8>)
      requires Consistent() && size == |AllBytes()| && size + |buf0| <= NIL_STREAM_SIZE
      modifies this`pages, this`size, alloc, file
      ensures Consistent() && size == |AllBytes()| == old(size) + |done|
      ensures buf0 == done + buf && |buf| < alloc.pageSize
      ensures AllBytes() == old(AllBytes()) + done
      ensures Extends(old(file.history), file.history, keep)
    {
      hide Owned;
      hide Accounted;
      buf, done := buf0, [];
      ghost var flat0 := AllBytes();
      while alloc.pageSize <= |buf|
        invariant Consistent() && size == |AllBytes()| == old(size) + |done|
        invariant buf0 == done + buf
        invariant AllBytes() == flat0 + done
        invariant Extends(old(file.history), file.history, keep)
      {
        ghost var h, more := file.history, done;
        buf, more := AppendOneRun(buf);
        ExtendsTrans(old(file.history), h, file.history, keep);
        ConcatAssoc(flat0, done, more);
        ConcatAssoc(done, more, buf);
        done := done + more;
      }
    }

    /** Appends less than a page, as a new page padded with zeros. */
    method AppendPartialPage(zeros: nat, head: seq<u8>)
      requires Consistent() && size == |AllBytes()|
      requires 0 < zeros + |head| <= alloc.pageSize && size + zeros + |head| <= NIL_STREAM_SIZE
      modifies this`pages, this`size, alloc, file
      ensures Consistent() && size == old(size) + zeros + |head|
      ensures Data() == old(Data()) + Zeros(zeros) + head
      ensures Extends(old(file.history), file.history, keep)
    {
      hide *;
      Unfolded();
      ghost var before, flat := pages, AllBytes();
      var data := Zeros(zeros) + head + Zeros(alloc.pageSize - zeros - |head|);
      var page, n := AllocAndPush(1);
      WholeLength(data, 1, alloc.pageSize);
      StoreRun(before, page, 1, data);
      size := size + zeros + |head|;
      Folded();
      assert (flat + data)[..size] == flat + Zeros(zeros) + head;
    }

    // -------------------------------------------------------------- overwrite

    /** Makes the pages from `lo` to `lo + n` writable. Their contents are not copied. */
    method MakePagesFresh(lo: nat, n: nat)
      requires OwnsPages() && lo + n <= |pages|
      modifies this`pages, alloc
      ensures OwnsPages() && |pages| == |old(pages)|
      ensures pages[..lo] == old(pages)[..lo] && pages[lo + n..] == old(pages)[lo + n..]
      ensures forall p :: p in keep ==> p !in pages[lo..lo + n]
    {
      for i := 0 to n
        invariant OwnsPages() && |pages| == |old(pages)|
        invariant forall k :: 0 <= k < |pages| && !(lo <= k < lo + i) ==> pages[k] == old(pages)[k]
        invariant forall k :: lo <= k < lo + i ==> pages[k] !in keep
      {
        var _ := CowPage(lo + i);
      }
    }

    /** Replaces `n` whole pages of the stream. */
    method OverwriteRuns(lo: nat, n: nat, data: seq<u8>)
      requires OwnsPages() && HasPages(file.image, alloc.pageSize, pages)
      requires lo + n <= |pages| && IsWhole(data, n, alloc.pageSize)
      modifies this`pages, alloc, file
      ensures OwnsPages() && HasPages(file.image, alloc.pageSize, pages) && |pages| == |old(pages)|
      ensures lo * alloc.pageSize + |data| <= |old(AllBytes())|
      ensures AllBytes() == Splice(old(AllBytes()), lo * alloc.pageSize, data)
      ensures Extends(old(file.history), file.history, keep)
    {
      ghost var img, ps := file.image, alloc.pageSize;
      HasParts(img, ps, pages, lo, n);
      MakePagesFresh(lo, n);
      SliceNoDup(pages, lo, n);
      WriteRuns(file, data, pages[lo..lo + n], alloc.pageSize, keep);
      WholeLength(data, n, ps);
      OffListSame(img, file.image, ps, pages, lo, n);
      MiddleReplaced(img, file.image, ps, old(pages), pages, lo, n, data);
    }

    method WriteOverwriteUnalignedStart(buf0: seq<u8>, at0: nat) returns (buf: seq<u8>, at: nat, ghost done: seq<u8>)
      requires Consistent() && at0 <= size && buf0 != [] && at0 + |buf0| <= NIL_STREAM_SIZE
      modifies this`pages, this`size, alloc, file
      ensures Consistent() && buf0 == done + buf && at == at0 + |done| <= size
      ensures buf != [] ==> at % alloc.pageSize == 0
      ensures at0 % alloc.pageSize != 0 ==> done != []
      ensures Data() == WriteSpec(old(Data()), done, at0)
      ensures Extends(old(file.history), file.history, keep)
    {
      hide Owned;
      hide Accounted;
      hide WriteSpec;
      SizeMeasured();
      var posPhase := at0 % alloc.pageSize;
      if posPhase == 0 {
        WriteNothing(Data(), at0);
        return buf0, at0, [];
      }
      FlatIsWhole(file.image, alloc.pageSize, pages);
      AlignUp(at0, alloc.pageSize);
      var newDataLen := Min(alloc.pageSize - posPhase, |buf0|);
      done, buf := buf0[..newDataLen], buf0[newDataLen..];
      RewritePage(at0, buf0[..newDataLen]);
      at := at0 + newDataLen;
    }

    /** Overwrites the whole pages that both the buffer and the stream have left. The stream may grow to the page end. */
    method OverwriteWholePages(buf0: seq<u8>, at0: nat) returns (buf: seq<u8>, at: nat, ghost done: seq<u8>)
      requires Consistent() && at0 < size && at0 % alloc.pageSize == 0 && at0 + |buf0| <= NIL_STREAM_SIZE
      modifies this`pages, this`size, alloc, file
      ensures Consistent() && buf0 == done + buf && at == at0 + |done| <= size && at % alloc.pageSize == 0
      ensures at < size ==> |buf| < alloc.pageSize
      ensures Data() == WriteSpec(old(Data()), done, at0)
      ensures Extends(old(file.history), file.history, keep)
    {
      hide Owned;
      hide Accounted;
      hide WriteSpec;
      hide Splice;
      ghost var flat := AllBytes();
      SizeMeasured();
      done, buf := OverwriteOwnedPages(buf0, at0);
      at := at0 + (|buf0| - |buf|);
      SpliceIsWrite(flat, size, at0, done);
      if size < at {
        size := at;
      }
      SizeMeasured();
    }

    method OverwriteOwnedPages(buf0: seq<u8>, at0: nat) returns (ghost done: seq<u8>, buf: seq<u8>)
      requires OwnsPages() && HasPages(file.image, alloc.pageSize, pages)
      requires at0 < |AllBytes()| && at0 % alloc.pageSize == 0
      modifies this`pages, alloc, file
      ensures OwnsPages() && HasPages(file.image, alloc.pageSize, pages) && |pages| == |old(pages)|
      ensures buf0 == done + buf && (at0 + |done|) % alloc.pageSize == 0
      ensures at0 + |done| <= |old(AllBytes())| && AllBytes() == Splice(old(AllBytes()), at0, done)
      ensures |buf| < alloc.pageSize || at0 + |done| == |old(AllBytes())|
      ensures Extends(old(file.history), file.history, keep)
    {
      hide *;
      OwnedBytes();
      ghost var flat, ps := AllBytes(), alloc.pageSize;
      var spage := at0 / alloc.pageSize;
      ghost var base := PageAt(file.image, ps, pages, at0);
      var numXferPages := Min(|pages| - spage, |buf0| / alloc.pageSize);
      WholePagesFit(numXferPages, |buf0|, ps);
      AddMultiple(at0, numXferPages, ps);
      LastOwnedPage(spage, numXferPages);
      var xferLen := numXferPages * alloc.pageSize;
      done, buf := buf0[..xferLen], buf0[xferLen..];
      WholeLength(buf0[..xferLen], numXferPages, ps);
      OverwriteRuns(spage, numXferPages, buf0[..xferLen]);
    }

    lemma OwnedBytes()
      requires OwnsPages()
      ensures 512 <= alloc.pageSize && AllBytes() == Flat(file.image, alloc.pageSize, pages)
      ensures |AllBytes()| == |pages| * alloc.pageSize
    {
      FlatLength(file.image, alloc.pageSize, pages);
    }

    lemma LastOwnedPage(spage: nat, n: nat)
      requires 0 < alloc.pageSize && spage + n <= |pages|
      ensures spage + n == |pages| ==> spage * alloc.pageSize + n * alloc.pageSize == |AllBytes()|
    {
      FlatLength(file.image, alloc.pageSize, pages);
      assert (spage + n) * alloc.pageSize == spage * alloc.pageSize + n * alloc.pageSize;
    }

    /** Overwrites the start of one more page; if that covers the rest of the stream, the old bytes are not read. */
    method OverwritePartialPage(buf: seq<u8>, at: nat)
      requires Consistent() && at < size && at % alloc.pageSize == 0
      requires 0 < |buf| < alloc.pageSize && at + |buf| <= NIL_STREAM_SIZE
      modifies this`pages, this`size, alloc, file
      ensures Consistent()
      ensures Data() == WriteSpec(old(Data()), buf, at)
      ensures Extends(old(file.history), file.history, keep)
    {
      hide *;
      Unfolded();
      if |buf| < size - at {
        RewritePage(at, buf);
      } else {
        ghost var flat := AllBytes();
        ghost var base := PageAt(file.image, alloc.pageSize, pages, at);
        CowPageAndWrite(at / alloc.pageSize, buf + Zeros(alloc.pageSize - |buf|));
        OverwriteTail(flat, size, at, buf, Zeros(alloc.pageSize - |buf|));
        size := at + |buf|;
        Folded();
      }
    }

    method WriteOverwriteAlignedPages(buf0: seq<u8>, at0: nat) returns (buf: seq<u8>, at: nat, ghost done: seq<u8>)
      requires Consistent() && at0 <= size && at0 % alloc.pageSize == 0 && buf0 != [] && at0 + |buf0| <= NIL_STREAM_SIZE
      modifies this`pages, this`size, alloc, file
      ensures Consistent() && buf0 == done + buf && at == at0 + |done|
      ensures buf != [] ==> at == size && size % alloc.pageSize == 0
      ensures Data() == WriteSpec(old(Data()), done, at0)
      ensures Extends(old(file.history), file.history, keep)
    {
      hide Owned;
      hide Accounted;
      hide WriteSpec;
      if at0 == size {
        SizeMeasured();
        WriteNothing(Data(), at0);
        return buf0, at0, [];
      }
      buf, at, done := OverwriteWholePages(buf0, at0);
      if buf != [] && at < size {
        ghost var h := file.history;
        WriteInPieces(old(Data()), done, buf, at0);
        OverwritePartialPage(buf, at);
        ExtendsTrans(old(file.history), h, file.history, keep);
        done := buf0;
        at, buf := at + |buf|, [];
      }
    }

    method WriteOverwrite(buf0: seq<u8>, at0: nat) returns (buf: seq<u8>, at: nat, ghost done: seq<u8>)
      requires Consistent() && at0 < size && buf0 != [] && at0 + |buf0| <= NIL_STREAM_SIZE
      modifies this`pages, this`size, alloc, file
      ensures Consistent() && buf0 == done + buf && at == at0 + |done|
      ensures buf != [] ==> at == size && size % alloc.pageSize == 0
      ensures Data() == WriteSpec(old(Data()), done, at0)
      ensures Extends(old(file.history), file.history, keep)
    {
      hide Owned;
      hide Accounted;
      hide WriteSpec;
      buf, at, done := WriteOverwriteUnalignedStart(buf0, at0);
      if buf == [] {
        return;
      }
      ghost var h, done1 := file.history, done;
      buf, at, done := WriteOverwriteAlignedPages(buf, at);
      WriteInPieces(old(Data()), done1, done, at0);
      ConcatAssoc(done1, done, buf);
      ExtendsTrans(old(file.history), h, file.history, keep);
      done := done1 + done;
    }

    // -------------------------------------------------------------- zero extension

    /** Rebuilds the last, partial page: its old bytes, then zeros, then `head`, then zeros again. */
    method ZeroFillLastPage(zeros: nat, head: seq<u8>)
      requires Consistent() && size % alloc.pageSize != 0 && size + zeros + |head| <= NIL_STREAM_SIZE
      requires size % alloc.pageSize + zeros + |head| <= alloc.pageSize
      modifies this`pages, this`size, alloc, file
      ensures Consistent() && size == old(size) + zeros + |head|
      ensures Data() == WriteSpec(old(Data()), head, old(size) + zeros)
      ensures Extends(old(file.history), file.history, keep)
    {
      hide Splice;
      hide WriteSpec;
      hide Owned;
      hide Accounted;
      var endSpage, endPhase := size / alloc.pageSize, size % alloc.pageSize;
      ghost var flat := AllBytes();
      ghost var base := LastPage();
      var oldData := PageOf(file.image, alloc.pageSize, pages[endSpage])[..endPhase];
      var pad := Zeros(alloc.pageSize - endPhase - zeros - |head|);
      CowPageAndWrite(endSpage, oldData + Zeros(zeros) + head + pad);
      ZeroExtendLastPage(flat, base, oldData, zeros, head, pad);
      size := size + zeros + |head|;
      SizeMeasured();
    }

    /** The partial page at the end of a stream. */
    lemma LastPage() returns (base: nat)
      requires Consistent() && size % alloc.pageSize != 0
      ensures size / alloc.pageSize < |pages| && base == size / alloc.pageSize * alloc.pageSize
      ensures base + size % alloc.pageSize == size && |AllBytes()| == base + alloc.pageSize
      ensures PageOf(file.image, alloc.pageSize, pages[size / alloc.pageSize])[..size % alloc.pageSize] == AllBytes()[base..size]
      ensures Data() == AllBytes()[..size]
    {
      SizeMeasured();
      AlignedSize();
      base := PageAt(file.image, alloc.pageSize, pages, size);
      FlatEndsAfter(size / alloc.pageSize, size);
      StartOfSlice(AllBytes(), base, size % alloc.pageSize, alloc.pageSize);
    }

    lemma FlatEndsAfter(k: nat, end: nat)
      requires 0 < alloc.pageSize && end < k * alloc.pageSize + alloc.pageSize <= |AllBytes()| < end + alloc.pageSize
      ensures |AllBytes()| == k * alloc.pageSize + alloc.pageSize
    {
      var ps := alloc.pageSize;
      FlatLength(file.image, ps, pages);
      assert (k + 2) * ps == k * ps + ps + ps && (k + 1) * ps == k * ps + ps;
      if k + 2 <= |pages| {
        MulMono(k + 2, |pages|, ps);
      } else {
        MulMono(|pages|, k + 1, ps);
      }
    }

    method WriteZeroExtendUnalignedStart(buf0: seq<u8>, at0: nat) returns (buf: seq<u8>, at: nat, ghost done: seq<u8>)
      requires Consistent() && size < at0 && buf0 != [] && at0 + |buf0| <= NIL_STREAM_SIZE
      modifies this`pages, this`size, alloc, file
      ensures Consistent() && buf0 == done + buf && at == at0 + |done|
      ensures done == [] ==> size <= at && size % alloc.pageSize == 0 && Data() == ZeroExtend(old(Data()), size)
      ensures done != [] ==> size == at && Data() == WriteSpec(old(Data()), done, at0)
      ensures done != [] && buf != [] ==> size % alloc.pageSize == 0
      ensures Extends(old(file.history), file.history, keep)
    {
      hide Owned;
      hide Accounted;
      hide WriteSpec;
      SizeMeasured();
      var endSpage, endPhase := size / alloc.pageSize, size % alloc.pageSize;
      var posSpage, posPhase := at0 / alloc.pageSize, at0 % alloc.pageSize;
      if endPhase != 0 && endSpage == posSpage {
        // Old data, zeros and new data share one page.
        SamePage(size, at0, alloc.pageSize);
        AlignUp(at0, alloc.pageSize);
        var headLen := Min(alloc.pageSize - posPhase, |buf0|);
        done, buf := buf0[..headLen], buf0[headLen..];
        ZeroFillLastPage(at0 - size, buf0[..headLen]);
        at := at0 + headLen;
      } else {
        buf, at, done := buf0, at0, [];
        if endPhase != 0 {
          ZeroFillToPageEnd(at0);
        }
      }
    }

    method ZeroFillToPageEnd(at: nat)
      requires Consistent() && size < at <= NIL_STREAM_SIZE
      requires size % alloc.pageSize != 0 && size / alloc.pageSize != at / alloc.pageSize
      modifies this`pages, this`size, alloc, file
      ensures Consistent() && size <= at && size % alloc.pageSize == 0
      ensures Data() == ZeroExtend(old(Data()), size)
      ensures Extends(old(file.history), file.history, keep)
    {
      hide Owned;
      hide Accounted;
      hide WriteSpec;
      var zeros := alloc.pageSize - size % alloc.pageSize;
      AlignUp(size, alloc.pageSize);
      LaterPage(size, at, alloc.pageSize);
      WriteNothing(Data(), size + zeros);
      ZeroFillLastPage(zeros, []);
    }

    lemma SamePage(a: nat, b: nat, ps: nat)
      requires 0 < ps && a <= b && a / ps == b / ps
      ensures a % ps + (b - a) == b % ps
    {
    }

    lemma LaterPage(a: nat, b: nat, ps: nat)
      requires 0 < ps && a < b && a / ps != b / ps
      ensures a + (ps - a % ps) <= b
    {
      DivMono(a, b, ps);
      MulMono(a / ps + 1, b / ps, ps);
      assert (a / ps + 1) * ps == a / ps * ps + ps;
    }

    /** Adds as many pages of zeros as one allocation yields. */
    method AppendZeroRun(at: nat)
      requires Consistent() && size == |AllBytes()| && size + alloc.pageSize <= at <= NIL_STREAM_SIZE
      modifies this`pages, this`size, alloc, file
      ensures Consistent() && old(size) < size == |AllBytes()| <= at
      ensures AllBytes() == old(AllBytes()) + Zeros(size - old(size))
      ensures Extends(old(file.history), file.history, keep)
    {
      hide Owned;
      hide Accounted;
      var numPagesWanted := (at - size) / alloc.pageSize;
      ghost var before := pages;
      var first, runLen := AllocAndPush(numPagesWanted);
      WholePagesFit(runLen, at - size, alloc.pageSize);
      MulMono(1, runLen, alloc.pageSize);
      var runSizeBytes := runLen * alloc.pageSize;
      WholeLength(Zeros(runSizeBytes), runLen, alloc.pageSize);
      StoreRun(before, first, runLen, Zeros(runSizeBytes));
      size := size + runSizeBytes;
      SizeMeasured();
    }

    /** Adds whole pages of zeros while a whole page fits before `at`. */
    method WriteZeroExtendWholePages(at: nat)
      requires Consistent() && size <= at <= NIL_STREAM_SIZE && size % alloc.pageSize == 0
      modifies this`pages, this`size, alloc, file
      ensures Consistent() && size <= at < size + alloc.pageSize && size % alloc.pageSize == 0
      ensures Data() == ZeroExtend(old(Data()), size) && old(size) <= size
      ensures Extends(old(file.history), file.history, keep)
    {
      hide Owned;
      hide Accounted;
      SizeMeasured();
      AlignedSize();
      ghost var data0, size0 := Data(), size;
      while alloc.pageSize <= at - size
        invariant Consistent() && size0 <= size == |AllBytes()| && size <= at
        invariant AllBytes() == ZeroExtend(data0, size) && |data0| == size0
        invariant Extends(old(file.history), file.history, keep)
        decreases at - size
      {
        ghost var h, n := file.history, size;
        AppendZeroRun(at);
        ZerosAdd(data0, n - size0, size - n);
        ExtendsTrans(old(file.history), h, file.history, keep);
      }
      SizeMeasured();
      AlignedSize();
    }

    /** The page that ends the zeros and starts the new data. */
    method WriteZeroExtendUnalignedEnd(buf0: seq<u8>, at0: nat) returns (buf: seq<u8>, at: nat, ghost done: seq<u8>)
      requires Consistent() && size % alloc.pageSize == 0 && size <= at0 < size + alloc.pageSize
      requires buf0 != [] && at0 + |buf0| <= NIL_STREAM_SIZE
      modifies this`pages, this`size, alloc, file
      ensures Consistent() && buf0 == done + buf && at == at0 + |done| == size
      ensures buf != [] ==> size % alloc.pageSize == 0
      ensures Data() == WriteSpec(old(Data()), done, at0)
      ensures Extends(old(file.history), file.history, keep)
    {
      hide Owned;
      hide Accounted;
      SizeMeasured();
      AlignedSize();
      var numZxBytes := at0 - size;
      if numZxBytes == 0 {
        WriteNothing(Data(), at0);
        return buf0, at0, [];
      }
      var numDataLen := Min(|buf0|, alloc.pageSize - numZxBytes);
      AddMultiple(size, 1, alloc.pageSize);
      done, buf := buf0[..numDataLen], buf0[numDataLen..];
      WriteAfterZeros(Data(), numZxBytes, done);
      AppendPartialPage(numZxBytes, buf0[..numDataLen]);
      at := at0 + numDataLen;
    }

    /** Zero-extends to the write position; a prefix of the buffer may be written along with the zeros. */
    method WriteZeroExtend(buf0: seq<u8>, at0: nat) returns (buf: seq<u8>, at: nat, ghost done: seq<u8>)
      requires Consistent() && size < at0 && buf0 != [] && at0 + |buf0| <= NIL_STREAM_SIZE
      modifies this`pages, this`size, alloc, file
      ensures Consistent() && buf0 == done + buf && at == at0 + |done|
      ensures buf != [] ==> at == size && size % alloc.pageSize == 0
      ensures Data() == WriteSpec(old(Data()), done, at0)
      ensures Extends(old(file.history), file.history, keep)
    {
      hide Owned;
      hide Accounted;
      hide WriteSpec;
      buf, at, done := WriteZeroExtendUnalignedStart(buf0, at0);
      if buf == [] {
        return;
      }
      if size < at {
        ghost var h, n := file.history, size;
        buf, at, done := WriteZeroExtendAligned(buf, at);
        WriteAfterPartialZeros(old(Data()), n, done, at0);
        ExtendsTrans(old(file.history), h, file.history, keep);
      } else {
        ZeroExtendsTo(old(Data()), size, at);
      }
    }

    /** Whole pages of zeros, then the page where the new data starts, if it starts inside a page. */
    method WriteZeroExtendAligned(buf0: seq<u8>, at0: nat) returns (buf: seq<u8>, at: nat, ghost done: seq<u8>)
      requires Consistent() && size < at0 && size % alloc.pageSize == 0 && buf0 != [] && at0 + |buf0| <= NIL_STREAM_SIZE
      modifies this`pages, this`size, alloc, file
      ensures Consistent() && buf0 == done + buf && at == at0 + |done|
      ensures buf != [] ==> at == size && size % alloc.pageSize == 0
      ensures Data() == WriteSpec(old(Data()), done, at0)
      ensures Extends(old(file.history), file.history, keep)
    {
      hide Owned;
      hide Accounted;
      hide WriteSpec;
      buf, at, done := buf0, at0, [];
      WriteZeroExtendWholePages(at);
      ZeroExtendsTo(old(Data()), size, at);
      if size < at {
        ghost var h, n := file.history, size;
        buf, at, done := WriteZeroExtendUnalignedEnd(buf, at);
        WriteAfterPartialZeros(old(Data()), n, done, at0);
        ExtendsTrans(old(file.history), h, file.history, keep);
      }
    }

    lemma ZeroExtendsTo(data0: seq<u8>, n: nat, at: nat)
      ensures n == at ==> ZeroExtend(data0, n) == WriteSpec(data0, [], at)
    {
      WriteNothing(data0, at);
    }

    // -------------------------------------------------------------- the driver

    /** The page at the end of the stream gets the first bytes of an unaligned append. */
    method WriteUnalignedStartPage(buf0: seq<u8>) returns (buf: seq<u8>, at: nat, ghost done: seq<u8>)
      requires Consistent() && size % alloc.pageSize != 0 && buf0 != [] && size + |buf0| <= NIL_STREAM_SIZE
      modifies this`pages, this`size, alloc, file
      ensures Consistent() && buf0 == done + buf && at == old(size) + |done| == size
      ensures buf != [] ==> size % alloc.pageSize == 0
      ensures Data() == WriteSpec(old(Data()), done, old(size))
      ensures Extends(old(file.history), file.history, keep)
    {
      hide Owned;
      hide Accounted;
      SizeMeasured();
      AlignedSize();
      AlignUp(size, alloc.pageSize);
      var newDataLen := Min(alloc.pageSize - size % alloc.pageSize, |buf0|);
      done, buf := buf0[..newDataLen], buf0[newDataLen..];
      at := size + newDataLen;
      RewritePage(size, buf0[..newDataLen]);
    }

    /** Appends the rest of the buffer at the aligned end of the stream. */
    method WriteAppend(buf0: seq<u8>)
      requires Consistent() && size % alloc.pageSize == 0 && size + |buf0| <= NIL_STREAM_SIZE
      modifies this`pages, this`size, alloc, file
      ensures Consistent()
      ensures Data() == WriteSpec(old(Data()), buf0, old(size))
      ensures Extends(old(file.history), file.history, keep)
    {
      hide Owned;
      hide Accounted;
      hide WriteSpec;
      SizeMeasured();
      AlignedSize();
      WriteAtEnd(Data(), buf0);
      ghost var data0 := Data();
      ghost var done;
      var buf;
      buf, done := WriteAppendCompletePages(buf0);
      SizeMeasured();
      AlignedSize();
      assert Data() == data0 + done;
      if buf != [] {
        ghost var h := file.history;
        AppendPartialPage(0, buf);
        NoZeros(data0, done, buf);
        ExtendsTrans(old(file.history), h, file.history, keep);
      } else {
        assert done == buf0;
      }
    }

    lemma NoZeros(a: seq<u8>, b: seq<u8>, c: seq<u8>)
      ensures a + b + Zeros(0) + c == a + (b + c)
    {
    }

    /**
     * Writes `buf` at stream offset `offset`: the new contents are the old ones, padded with zeros to `offset`, with
     * `buf` spliced in. Nothing but pages that are free, new, or already fresh in this stream is written. A write that
     * ends at the largest 32-bit number is carried out, too, but the size is then that of a nil stream.
     */
    method WriteCore(buf0: seq<u8>, offset: nat) returns (ok: bool)
      requires OwnsPages() && HasPages(file.image, alloc.pageSize, pages) && SizeFits(size, pages, alloc.pageSize)
      requires size <= NIL_STREAM_SIZE
      modifies this`pages, this`size, alloc, file
      ensures ok <==> buf0 == [] || offset + |buf0| <= NIL_STREAM_SIZE
      ensures buf0 == [] ==> size == old(size) && pages == old(pages) && file.history == old(file.history)
      ensures !ok ==> size == (if old(size) == NIL_STREAM_SIZE then 0 else old(size)) && pages == old(pages)
      ensures old(size) != NIL_STREAM_SIZE || buf0 != [] ==> Consistent()
      ensures old(size) != NIL_STREAM_SIZE && buf0 == [] ==> Valid()
      ensures buf0 != [] ==> (Valid() <==> offset + |buf0| != NIL_STREAM_SIZE)
      ensures ok && buf0 != [] ==> Data() == WriteSpec(old(Data()), buf0, offset)
      ensures !ok || buf0 == [] ==> Data() == old(Data())
      ensures Extends(old(file.history), file.history, keep)
    {
      hide Owned;
      hide Accounted;
      if buf0 == [] {
        return true;
      }
      if size == NIL_STREAM_SIZE {
        NilData();
        size := 0;
        NilData();
      }
      if NIL_STREAM_SIZE < offset + |buf0| {
        return false;
      }
      SizeMeasured();
      WriteAll(buf0, offset);
      SizeMeasured();
      ok := true;
    }

    /** A stream without pages has no contents, nil or not. */
    lemma NilData()
      requires 512 <= alloc.pageSize && SizeFits(size, pages, alloc.pageSize)
      requires size == NIL_STREAM_SIZE || (size == 0 && pages == [])
      ensures pages == [] && Data() == [] && SizeFits(0, pages, alloc.pageSize)
    {
      CeilDivBounds(0, alloc.pageSize);
    }

    method WriteAll(buf0: seq<u8>, offset: nat)
      requires Consistent() && buf0 != [] && offset + |buf0| <= NIL_STREAM_SIZE
      modifies this`pages, this`size, alloc, file
      ensures Consistent()
      ensures Data() == WriteSpec(old(Data()), buf0, offset)
      ensures Extends(old(file.history), file.history, keep)
    {
      hide *;
      Usable();
      ghost var data0, h0 := Data(), file.history;
      var buf, at := buf0, offset;
      ghost var done: seq<u8> := [];
      if size < at {
        buf, at, done := WriteZeroExtend(buf, at);
        if buf == [] {
          NothingLeft(buf0, done);
          return;
        }
      } else {
        NothingDone(offset);
      }
      ghost var more, h := [], file.history;
      if at < size {
        buf, at, more := WriteOverwrite(buf, at);
        Progress(data0, done, more, buf, offset, h0, h, file.history);
        done := done + more;
        if buf == [] {
          NothingLeft(buf0, done);
          return;
        }
      }
      h := file.history;
      if at % alloc.pageSize != 0 {
        buf, at, more := WriteUnalignedStartPage(buf);
        Progress(data0, done, more, buf, offset, h0, h, file.history);
        done := done + more;
        if buf == [] {
          NothingLeft(buf0, done);
          return;
        }
      }
      h := file.history;
      WriteAppend(buf);
      Progress(data0, done, buf, [], offset, h0, h, file.history);
      assert buf0 == done + buf;
    }

    lemma NothingLeft(buf: seq<u8>, done: seq<u8>)
      requires buf == done + []
      ensures done == buf
    {
    }

    /** Where the stream reaches the write position, there is nothing to extend. */
    lemma NothingDone(offset: nat)
      requires Consistent() && offset <= size
      ensures Data() == WriteSpec(Data(), [], offset) && Extends(file.history, file.history, keep)
    {
      SizeMeasured();
      WriteNothing(Data(), offset);
    }

    /** One more piece of the buffer has been written. */
    lemma Progress(data0: seq<u8>, done: seq<u8>, more: seq<u8>, buf: seq<u8>, offset: nat,
                   h0: seq<Image>, h1: seq<Image>, h2: seq<Image>)
      requires Extends(h0, h1, keep) && Extends(h1, h2, keep)
      ensures Extends(h0, h2, keep)
      ensures WriteSpec(WriteSpec(data0, done, offset), more, offset + |done|) == WriteSpec(data0, done + more, offset)
      ensures done + more + buf == done + (more + buf)
    {
      WriteInPieces(data0, done, more, offset);
      ConcatAssoc(done, more, buf);
      ExtendsTrans(h0, h1, h2, keep);
    }

    // -------------------------------------------------------------- length and whole contents

    /** Frees the pages from `n` on. The count starts again, with the same pages in use. */
    method FreeTail(n: nat)
      requires OwnsPages() && n <= |pages|
      modifies this`pages, this`start, alloc`fpmFreed
      ensures OwnsPages() && pages == old(pages)[..n] && start == alloc.State()
      ensures TailFreed(old(alloc.State()), alloc.State(), old(pages)[n..])
    {
      ghost var a0 := alloc.State();
      ghost var tail := pages[n..];
      for i := n to |pages|
        invariant pages == old(pages) && |tail| == |pages| - n
        invariant TailFreed(a0, alloc.State(), tail[..i - n])
      {
        assert Busy(a0, alloc.pageSize, pages[i]) && tail[i - n] == pages[i];
        alloc.fpmFreed := alloc.fpmFreed[pages[i] := true];
        assert tail[..i + 1 - n] == tail[..i - n] + [pages[i]];
      }
      assert tail[..|pages| - n] == tail;
      FreeTailKeepsOwned(a0, alloc.State(), alloc.pageSize, pages, n, rest, prot);
      pages, start := pages[..n], alloc.State();
      AccountedSelf(start, alloc.pageSize, pages, rest);
    }

    /** Shortens the stream, or leaves it as it is. The dropped pages become freed; nothing is written. */
    method Shrink(len: nat)
      requires Valid() && len <= size
      modifies this`pages, this`size, this`start, alloc`fpmFreed
      ensures Valid() && size == len && start == alloc.State()
      ensures len <= |old(Data())| && Data() == old(Data())[..len]
      ensures pages == old(pages)[..|pages|] && |pages| <= |old(pages)|
      ensures TailFreed(old(alloc.State()), alloc.State(), old(pages)[|pages|..])
    {
      hide Accounted;
      SizeMeasured();
      if len == size {
        assert pages[|pages|..] == [];
        start := alloc.State();
        AccountedSelf(start, alloc.pageSize, pages, rest);
        return;
      }
      var numPagesNew := NumPagesForStreamSize(len, alloc.pageSize);
      ShorterPrefix(len);
      FreeTail(numPagesNew);
      size := len;
      SizeMeasured();
    }

    lemma ShorterPrefix(len: nat)
      requires Valid() && len <= size
      ensures var n := NumPagesForStreamSize(len, alloc.pageSize);
              && n <= |pages| && HasPages(file.image, alloc.pageSize, pages[..n])
              && SizeFits(len, pages[..n], alloc.pageSize)
              && len <= |Flat(file.image, alloc.pageSize, pages[..n])| && len <= |Data()|
              && Flat(file.image, alloc.pageSize, pages[..n])[..len] == Data()[..len]
    {
      var n := NumPagesForStreamSize(len, alloc.pageSize);
      SizeMeasured();
      CeilDivMono(len, size, alloc.pageSize);
      CeilDivBounds(len, alloc.pageSize);
      hide Flat;
      hide CeilDiv;
      hide Owned;
      hide Accounted;
      PrefixFlat(file.image, alloc.pageSize, pages, n, len, size);
    }

    /** Zeros the rest of the last page, if it is partial; a part of these zeros becomes part of the stream. */
    method ZeroPartialPage(len: nat)
      requires Valid() && size < len <= NIL_STREAM_SIZE
      modifies this`pages, this`size, alloc, file
      ensures Consistent() && size == old(size) + ZeroedBytes(old(size), len, alloc.pageSize) && Data() == ZeroExtend(old(Data()), size)
      ensures old(size) == 0 ==> pages == [] && alloc.fpm == old(alloc.fpm)
      ensures Extends(old(file.history), file.history, keep)
    {
      hide Owned;
      hide Accounted;
      hide WriteSpec;
      SizeMeasured();
      if size % alloc.pageSize == 0 {
        CeilDivBounds(0, alloc.pageSize);
        ExtendsSelf(file.history, keep);
        return;
      }
      DivModUnique(0, alloc.pageSize, 0, 0);
      var zeroed := ZeroedBytes(size, len, alloc.pageSize);
      WriteNothing(Data(), size + zeroed);
      ZeroFillLastPage(zeroed, []);
    }

    /**
     * Appends one run of zero pages, and adds `more` to the size. The pages hold as many bytes exactly if there were
     * none before, and the run is as long as it should be.
     */
    method GrowByRun(more: nat)
      requires Consistent() && size == |AllBytes()| && size < more
      modifies this`pages, this`size, alloc, file
      ensures OwnsPages() && HasPages(file.image, alloc.pageSize, pages) && size == old(size) + more && pages != []
      ensures var wanted := CeilDiv(more - old(size), alloc.pageSize);
              && |pages| == |old(pages)| + RunLength(old(alloc.fpm), alloc.pageSize, wanted)
              && (size <= |AllBytes()| <==> old(size) == 0 && RunLength(old(alloc.fpm), alloc.pageSize, wanted) == wanted)
      ensures |old(AllBytes())| <= |AllBytes()| && AllBytes() == ZeroExtend(old(AllBytes()), |AllBytes()|)
      ensures Extends(old(file.history), file.history, keep)
    {
      hide Owned;
      hide Accounted;
      hide RunLength;
      CeilDivBounds(more - size, alloc.pageSize);
      var numZxPagesWanted := CeilDiv(more - size, alloc.pageSize);
      ghost var before := pages;
      var first, runLen := AllocAndPush(numZxPagesWanted);
      WholeLength(Zeros(runLen * alloc.pageSize), runLen, alloc.pageSize);
      FlatLength(file.image, alloc.pageSize, before);
      RunCovers(size, more, |before|, runLen, numZxPagesWanted, alloc.pageSize);
      StoreRun(before, first, runLen, Zeros(runLen * alloc.pageSize));
      size := size + more;
    }

    lemma RunCovers(size: nat, more: nat, n: nat, runLen: nat, wanted: nat, ps: nat)
      requires 0 < ps && size == n * ps < more && runLen <= wanted == CeilDiv(more - size, ps)
      ensures size + more <= size + runLen * ps <==> size == 0 && runLen == wanted
    {
      CeilDivBounds(more - size, ps);
      MulMono(runLen, wanted, ps);
      if runLen < wanted {
        MulMono(runLen, wanted - 1, ps);
      }
      if 0 < n {
        PeelOne(n, ps);
      }
    }

    /**
     * Grows the stream, as `set_len` does it; `ok` is false for a panic. The pages hold the old bytes followed by zeros,
     * but the stream is what was asked for exactly if it was empty and one allocation yields all the pages. Otherwise
     * its size promises more bytes than there are.
     */
    method Grow(len: nat) returns (ok: bool)
      requires Valid() && size < len <= NIL_STREAM_SIZE
      modifies this`pages, this`size, alloc, file
      ensures OwnsPages() && HasPages(file.image, alloc.pageSize, pages)
      ensures ok <==> GrownSize(old(size), len, alloc.pageSize).Some?
      ensures ok ==> GrownSize(old(size), len, alloc.pageSize) == Some(size)
      ensures ok ==> old(size) <= |AllBytes()| && AllBytes() == ZeroExtend(old(Data()), |AllBytes()|)
      ensures ok ==> (size <= |AllBytes()| <==> old(GrowsRight(len))) && pages != []
      ensures ok && Consistent() && Data() == ZeroExtend(old(Data()), len) <==> old(GrowsRight(len))
      ensures size < NIL_STREAM_SIZE && Consistent() ==> Valid()
      ensures Extends(old(file.history), file.history, keep)
    {
      hide *;
      Usable();
      ghost var data0, h0 := Data(), file.history;
      GrownSizeIs(size, len, alloc.pageSize);
      GrowsRightIs(len);
      var more := len - ZeroedBytes(size, len, alloc.pageSize);
      ZeroPartialPage(len);
      Usable();
      if !GoesOn(size, more, alloc.pageSize) {
        return false;
      }
      AlignedData(more);
      ghost var size1, h1 := size, file.history;
      GrowByRun(more);
      ZeroExtendTwice(data0, size1, |AllBytes()|);
      ExtendsTrans(h0, h1, file.history, keep);
      GrownData(data0, len);
      ok := true;
    }

    /** Where the size is a multiple of the page size, the pages hold the stream and nothing else. */
    lemma AlignedData(more: nat)
      requires Consistent() && GoesOn(size, more, alloc.pageSize)
      ensures size == |AllBytes()| && Data() == AllBytes() && size < more
    {
      AlignedSize();
      SizeMeasured();
    }

    lemma GrowsRightIs(len: nat)
      requires 512 <= alloc.pageSize
      ensures GrowsRight(len)
              <==> size == 0 && RunLength(alloc.fpm, alloc.pageSize, CeilDiv(len, alloc.pageSize)) == CeilDiv(len, alloc.pageSize)
    {
    }

    /** Whether growing the stream to `len` bytes gives that. */
    predicate GrowsRight(len: nat)
      reads this, alloc
      requires 512 <= alloc.pageSize
    {
      var wanted := CeilDiv(len, alloc.pageSize);
      size == 0 && RunLength(alloc.fpm, alloc.pageSize, wanted) == wanted
    }

    lemma NoBytesNoSize()
      requires Valid()
      ensures Data() == [] <==> size == 0
    {
      SizeMeasured();
    }

    lemma FileIsValid()
      requires OwnsPages()
      ensures file.Valid() && 512 <= alloc.pageSize
    {
    }

    /** Whether the size fits the page list, in bytes. */
    lemma Measured()
      requires OwnsPages()
      ensures |AllBytes()| == |pages| * alloc.pageSize
      ensures Valid() ==> size <= |AllBytes()|
      ensures pages != [] && (|AllBytes()| < size || size == NIL_STREAM_SIZE) ==> !SizeFits(size, pages, alloc.pageSize)
    {
      SizeMeasured();
      FlatLength(file.image, alloc.pageSize, pages);
    }

    /** A write has ended at the size of a nil stream: there are pages for it. */
    lemma LostStream()
      requires Consistent() && size == NIL_STREAM_SIZE
      ensures |pages| == CeilDiv(NIL_STREAM_SIZE, alloc.pageSize) && pages != []
      ensures Data() == Contents(file.image, alloc.pageSize, NIL_STREAM_SIZE, pages) && |Data()| == NIL_STREAM_SIZE
    {
      SizeMeasured();
      CeilDivBounds(NIL_STREAM_SIZE, alloc.pageSize);
    }

    lemma ZeroExtendTwice(c: seq<u8>, m: nat, n: nat)
      requires m <= n
      ensures ZeroExtend(ZeroExtend(c, m), n) == ZeroExtend(c, n)
    {
    }

    /** With a wrong size the stream is wrong; with the right one, it has the zeros if it has the pages. */
    lemma GrownData(data0: seq<u8>, len: nat)
      requires OwnsPages() && HasPages(file.image, alloc.pageSize, pages) && |data0| <= len <= NIL_STREAM_SIZE
      requires |data0| <= |AllBytes()| && AllBytes() == ZeroExtend(data0, |AllBytes()|)
      ensures Consistent() && Data() == ZeroExtend(data0, len) <==> size == len && |pages| == CeilDiv(len, alloc.pageSize)
      ensures size < NIL_STREAM_SIZE && Consistent() ==> Valid()
    {
      hide Owned;
      hide Accounted;
      SizeMeasured();
    }

    /** Sets the length of the stream; `ok` is false for a panic. */
    method SetLen(len: nat) returns (ok: bool)
      requires Valid() && len <= NIL_STREAM_SIZE
      modifies this`pages, this`size, this`start, alloc, file
      ensures OwnsPages() && HasPages(file.image, alloc.pageSize, pages)
      ensures len <= old(size) ==>
                && ok && Valid() && size == len && start == alloc.State() && alloc.fpm == old(alloc.fpm)
                && len <= |old(Data())| && Data() == old(Data())[..len]
                && |pages| <= |old(pages)| && pages == old(pages)[..|pages|]
                && TailFreed(old(alloc.State()), alloc.State(), old(pages)[|pages|..])
                && file.image == old(file.image) && file.history == old(file.history)
      ensures old(size) < len ==>
                && start == old(start) && (ok <==> GrownSize(old(size), len, alloc.pageSize).Some?)
                && (ok ==> GrownSize(old(size), len, alloc.pageSize) == Some(size))
                && (ok ==> old(size) <= |AllBytes()| && AllBytes() == ZeroExtend(old(Data()), |AllBytes()|))
                && (ok ==> (size <= |AllBytes()| <==> old(GrowsRight(len))) && pages != [])
                && (ok && Consistent() && Data() == ZeroExtend(old(Data()), len) <==> old(GrowsRight(len)))
      ensures size < NIL_STREAM_SIZE && Consistent() ==> Valid()
      ensures Extends(old(file.history), file.history, keep)
    {
      hide Owned;
      hide Accounted;
      if len <= size {
        Shrink(len);
        ExtendsSelf(file.history, keep);
        ok := true;
      } else {
        ok := Grow(len);
      }
    }

    /** Replaces the contents of the stream, whatever they were. */
    method SetContents(data: seq<u8>) returns (ok: bool)
      requires Valid()
      modifies this`pages, this`size, this`start, alloc, file
      ensures Valid()
      ensures ok <==> |data| < NIL_STREAM_SIZE
      ensures Data() == if ok then data else old(Data())
      ensures Extends(old(file.history), file.history, keep)
      ensures UsedAtMost(old(alloc.State()), alloc.State(), alloc.pageSize, |pages|)
    {
      hide *;
      Usable();
      ghost var a0, h0 := alloc.State(), file.history;
      NothingMoreUsed();
      FpmOf();
      if NIL_STREAM_SIZE <= |data| {
        return false;
      }
      StartOver();
      if |data| < size {
        var _ := SetLen(|data|);
        FpmOf();
      }
      Usable();
      ghost var b0, h1, data1 := start, file.history, Data();
      ok := WriteCore(data, 0);
      Usable();
      StartsWith(data1, data);
      ExtendsTrans(h0, h1, file.history, keep);
      Spent();
      FpmOf();
      ghost var b1, list := alloc.State(), pages;
      var _ := SetLen(|data|);
      Usable();
      CoversAlike(size, list, pages, alloc.pageSize);
      FpmOf();
      UsedByFpm(a0, b0, b1, alloc.State(), alloc.pageSize, |pages|);
    }

    /** Data that is not shorter is the start of the stream once it has been written there. */
    lemma StartsWith(data0: seq<u8>, data: seq<u8>)
      ensures |data| <= |WriteSpec(data0, data, 0)| && WriteSpec(data0, data, 0)[..|data|] == data
      ensures |data0| <= |data| ==> WriteSpec(data0, data, 0) == data
    {
    }

    lemma CoversAlike(n: nat, a: seq<nat>, b: seq<nat>, ps: nat)
      requires 0 < ps && Covers(n, a, ps) && Covers(n, b, ps)
      ensures |a| == |b|
    {
    }

    lemma FpmOf()
      ensures alloc.State().fpm == alloc.fpm
    {
    }

    /** Starts counting pages from here on. */
    ghost method StartOver()
      requires Valid()
      modifies this`start
      ensures Valid() && start == alloc.State()
    {
      start := alloc.State();
      AccountedSelf(start, alloc.pageSize, pages, rest);
    }

    lemma Spent()
      requires OwnsPages()
      ensures UsedAtMost(start, alloc.State(), alloc.pageSize, |pages|)
    {
      TakenByStream(start, alloc.State(), alloc.pageSize, pages, rest);
    }

    lemma NothingMoreUsed()
      requires OwnsPages()
      ensures UsedAtMost(alloc.State(), alloc.State(), alloc.pageSize, |pages|) && Extends(file.history, file.history, keep)
    {
      ExtendsSelf(file.history, keep);
      NothingUsed(alloc.State(), alloc.State(), alloc.pageSize);
    }

    /** The `Write` interface: writes at the seek position and moves it past the data. */
    method Write(buf: seq<u8>) returns (ok: bool)
      requires Valid()
      modifies this, alloc, file
      ensures Consistent() && (Valid() <==> buf == [] || old(pos) + |buf| != NIL_STREAM_SIZE)
      ensures ok <==> buf == [] || old(pos) + |buf| <= NIL_STREAM_SIZE
      ensures pos == if ok then old(pos) + |buf| else old(pos)
      ensures Data() == if ok && buf != [] then WriteSpec(old(Data()), buf, old(pos)) else old(Data())
      ensures Extends(old(file.history), file.history, keep)
    {
      hide Owned;
      hide Accounted;
      ok := WriteCore(buf, pos);
      if ok {
        pos := pos + |buf|;
      }
    }

    /** The `Read` interface. */
    method Read(len: nat) returns (data: seq<u8>)
      requires Valid()
      modifies this`pos
      ensures Valid() && pos == old(pos) + |data|
      ensures data == Window(Data(), old(pos), Low32(len))
      ensures data == Window(Data(), old(pos), len) <==> len < U32_LIMIT || |Data()| <= old(pos) + Low32(len)
    {
      hide Owned;
      hide Accounted;
      SizeMeasured();
      data, pos := ReadStreamCore(file, alloc.pageSize, size, pages, pos, len);
    }
  }

  lemma NewPages(a: PageState)
    requires |a.fpm| == |a.freed| == |a.freshPages| == 3
    requires forall p :: 0 <= p < 3 ==> a.fpm[p] == !IsSpecial(512, p) && !a.freed[p] && !a.freshPages[p]
    ensures Owned(a, 512, [], {}, iset{}) && Accounted(a, a, 512, {}) && a.fpm == [false, false, false]
  {
    AccountedSelf(a, 512, [], {});
  }

  lemma OneRunOfNewPages(len: nat)
    requires 0 < len
    ensures RunLength([false, false, false], 512, CeilDiv(len, 512)) == CeilDiv(len, 512) <==> len <= 510 * 512
  {
    RunLengthFull([false, false, false], 512, CeilDiv(len, 512));
    CeilDivBounds(len, 512);
  }

  /** The first stream of a new file with pages of 512 bytes can be grown to 261120 bytes, but not further at once. */
  method GrowNewStream(file: BlockFile, len: nat) returns (w: StreamWriter, ok: bool)
    requires file.Valid() && 0 < len < NIL_STREAM_SIZE
    modifies file
    ensures fresh(w) && w.file == file
    ensures ok && w.Valid() && w.Data() == Zeros(len) <==> len <= 510 * 512
  {
    hide Owned;
    hide Accounted;
    hide RunLength;
    var alloc := new PageAllocator(3, 512);
    NewPages(alloc.State());
    w := new StreamWriter(file, alloc, 1, 0, [], {}, iset{});
    w.NilData();
    OneRunOfNewPages(len);
    ok := w.SetLen(len);
  }

  /**
   * The first stream of a new file with pages of 512 bytes, once it has some data, cannot be grown: either the original
   * panics, as it does from 10 bytes to 20, or the size is wrong, and there are fewer bytes. From 512 bytes to 2048, the
   * size is 2560.
   */
  method GrowWritten(file: BlockFile, data: seq<u8>, len: nat) returns (w: StreamWriter, ok: bool)
    requires file.Valid() && 0 < |data| < len <= NIL_STREAM_SIZE
    modifies file
    ensures fresh(w) && w.file == file
    ensures ok <==> GrownSize(|data|, len, 512).Some?
    ensures ok ==>
              && GrownSize(|data|, len, 512) == Some(w.size)
              && |data| <= |w.AllBytes()| < w.size && w.AllBytes() == ZeroExtend(data, |w.AllBytes()|)
    ensures |data| == 512 && len == 2048 ==> ok && w.size == 2560
    ensures |data| == 10 && len == 20 ==> !ok
  {
    hide Owned;
    hide Accounted;
    hide RunLength;
    var alloc := new PageAllocator(3, 512);
    NewPages(alloc.State());
    w := new StreamWriter(file, alloc, 1, 0, [], {}, iset{});
    w.NilData();
    var written := w.WriteCore(data, 0);
    w.Usable();
    FirstData(data);
    ok := w.SetLen(len);
  }

  lemma FirstData(data: seq<u8>)
    ensures WriteSpec([], data, 0) == data
  {
  }

  lemma SliceNoDup(pages: seq<nat>, lo: nat, n: nat)
    requires lo + n <= |pages| && NoDup(pages)
    ensures NoDup(pages[lo..lo + n])
  {
    var s := pages[lo..lo + n];
    forall i, j | 0 <= i < j < n ensures s[i] != s[j] {
      assert s[i] == pages[lo + i] && s[j] == pages[lo + j];
    }
  }

  lemma HasParts(img: Image, ps: nat, pages: seq<nat>, lo: nat, n: nat)
    requires lo + n <= |pages| && HasPages(img, ps, pages)
    ensures HasPages(img, ps, pages[..lo]) && HasPages(img, ps, pages[lo + n..])
  {
    var s := pages[lo + n..];
    forall i | 0 <= i < |s| ensures HasPage(img, ps, s[i]) {
      assert s[i] == pages[lo + n + i];
    }
  }
}
