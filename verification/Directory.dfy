/** The on-disk form of a committed state, and what a strict opener makes of a file (msf/src/open.rs, msf/src/commit.rs). */
module Directory {
  import opened Bytes
  import opened Arith
  import opened Paging
  import opened Pages
  import opened Read

  // ---------------------------------------------------------------- page 0

  /** "Microsoft C/C++ MSF 7.00", CR, LF, 0x1a, "DS", and three zeros. */
  const MSF_BIG_MAGIC: seq<u8> :=
    [77, 105, 99, 114, 111, 115, 111, 102, 116, 32, 67, 47, 67, 43, 43, 32,
     77, 83, 70, 32, 55, 46, 48, 48, 13, 10, 26, 68, 83, 0, 0, 0]

  const MSF_HEADER_LEN: nat := 52
  const MIN_PAGE_SIZE: nat := 512
  /** What the opener reads of page 0 leaves room for this many pointers to map pages. */
  const MAX_MAP_PAGES: nat := 115

  datatype Header = Header(pageSize: nat, activeFpm: nat, numPages: nat, dirSize: nat)

  function EncodePage0(h: Header, mapPages: seq<nat>): (r: seq<u8>)
    requires MSF_HEADER_LEN + 4 * |mapPages| <= h.pageSize
    ensures |r| == h.pageSize
  {
    MSF_BIG_MAGIC + EncodeWords([h.pageSize, h.activeFpm, h.numPages, h.dirSize, 0])
    + EncodeWords(mapPages) + Zeros(h.pageSize - MSF_HEADER_LEN - 4 * |mapPages|)
  }

  function NumDirPages(h: Header): nat
    requires 0 < h.pageSize
  {
    CeilDiv(h.dirSize, h.pageSize)
  }

  function NumMapPages(h: Header): nat
    requires 0 < h.pageSize
  {
    CeilDiv(4 * NumDirPages(h), h.pageSize)
  }

  /** The header checks. The page size must be one that files are created with. */
  function ReadHeader(img: Image): (r: Option<Header>)
    ensures r.Some? ==> IsPageSize(r.value.pageSize)
  {
    if 0 !in img || |img[0]| < MIN_PAGE_SIZE || img[0][..|MSF_BIG_MAGIC|] != MSF_BIG_MAGIC then None else
    var p0 := img[0];
    var h := Header(U32At(p0, 32), U32At(p0, 36), U32At(p0, 40), U32At(p0, 44));
    if (h.activeFpm == 1 || h.activeFpm == 2) && IsPageSize(h.pageSize) && |p0| == h.pageSize
       && h.numPages != 0 && h.dirSize % 4 == 0 && NumMapPages(h) <= MAX_MAP_PAGES
    then Some(h) else None
  }

  function ReadMapPages(p0: seq<u8>, n: nat): (r: seq<nat>)
    requires MSF_HEADER_LEN + 4 * n <= |p0|
    ensures |r| == n
  {
    DecodeWords(p0[MSF_HEADER_LEN..MSF_HEADER_LEN + 4 * n])
  }

  // ---------------------------------------------------------------- the stream directory

  /** Where the pages of each stream start in the list of all pages; one more entry than there are streams. */
  function PageStarts(sizes: seq<nat>, ps: nat): (r: seq<nat>)
    requires 0 < ps
    ensures |r| == |sizes| + 1 && r[0] == 0
    ensures forall i :: 0 <= i < |sizes| ==> r[i + 1] == r[i] + NumPagesForStreamSize(sizes[i], ps)
  {
    if sizes == [] then [0] else
    var n := |sizes| - 1;
    var p := PageStarts(sizes[..n], ps);
    p + [p[n] + NumPagesForStreamSize(sizes[n], ps)]
  }

  datatype StreamTable = StreamTable(sizes: seq<nat>, starts: seq<nat>, pages: seq<nat>) {
    /** The starts are increasing offsets into the page list, and there is one more of them than there are streams. */
    predicate Valid() {
      && 0 < |sizes| && |starts| == |sizes| + 1
      && (forall i, j :: 0 <= i <= j < |starts| ==> starts[i] <= starts[j])
      && starts[|sizes|] == |pages|
    }

    /** The pages of stream `s`, in stream order. */
    function Pages(s: nat): seq<nat>
      requires Valid() && s < |sizes|
    {
      pages[starts[s]..starts[s + 1]]
    }

    /** The pages of all streams but stream 0, which is never read. */
    function LivePages(): seq<nat>
      requires Valid()
    {
      pages[starts[1]..]
    }
  }

  lemma {:induction false} StartsMonotone(sizes: seq<nat>, ps: nat, i: nat, j: nat)
    requires 0 < ps && i <= j <= |sizes|
    ensures PageStarts(sizes, ps)[i] <= PageStarts(sizes, ps)[j]
    decreases j - i
  {
    if i < j {
      StartsMonotone(sizes, ps, i, j - 1);
      assert PageStarts(sizes, ps)[j - 1 + 1] >= PageStarts(sizes, ps)[j - 1];
    }
  }

  /** Parses the words of the stream directory. The size of stream 0 reads as zero. */
  function ParseDir(words: seq<nat>, ps: nat): (r: Option<StreamTable>)
    requires 0 < ps
    ensures r.Some? ==> r.value.Valid()
  {
    if words == [] || words[0] == 0 || |words| < 1 + words[0] then None else
    var n := words[0];
    var raw := words[1..1 + n];
    var starts := PageStarts(raw, ps);
    if |words| - 1 - n < starts[n] then None else
    var t := StreamTable(raw[0 := 0], starts, words[1 + n..1 + n + starts[n]]);
    assert forall i, j :: 0 <= i <= j < |starts| ==> starts[i] <= starts[j] by {
      forall i, j | 0 <= i <= j < |starts| ensures starts[i] <= starts[j] { StartsMonotone(raw, ps, i, j); }
    }
    Some(t)
  }

  /** The page lists of all streams, one after the other. */
  function AllPages(view: seq<seq<nat>>): seq<nat> {
    if view == [] then [] else AllPages(view[..|view| - 1]) + view[|view| - 1]
  }

  /** Each stream has the number of pages that its size demands. */
  predicate ViewFits(sizes: seq<nat>, view: seq<seq<nat>>, ps: nat)
    requires 0 < ps
  {
    |sizes| == |view| && forall s :: 0 <= s < |view| ==> SizeFits(sizes[s], view[s], ps)
  }

  function DirWords(sizes: seq<nat>, view: seq<seq<nat>>): seq<nat> {
    [|sizes|] + sizes + AllPages(view)
  }

  function ViewTable(sizes: seq<nat>, view: seq<seq<nat>>, ps: nat): StreamTable
    requires 0 < ps
  {
    StreamTable(sizes, PageStarts(sizes, ps), AllPages(view))
  }

  lemma {:induction false} AllPagesLength(sizes: seq<nat>, view: seq<seq<nat>>, ps: nat)
    requires 0 < ps && ViewFits(sizes, view, ps)
    ensures |AllPages(view)| == PageStarts(sizes, ps)[|sizes|]
  {
    if sizes != [] {
      var n := |sizes| - 1;
      AllPagesLength(sizes[..n], view[..n], ps);
      assert SizeFits(sizes[n], view[n], ps);
    }
  }

  /** The table cuts the concatenation back into the page lists. */
  lemma {:induction false} ViewTablePages(sizes: seq<nat>, view: seq<seq<nat>>, ps: nat, s: nat)
    requires 0 < ps && ViewFits(sizes, view, ps) && s < |view|
    ensures var starts := PageStarts(sizes, ps);
            starts[s] <= starts[s + 1] <= |AllPages(view)| && AllPages(view)[starts[s]..starts[s + 1]] == view[s]
  {
    var n := |view| - 1;
    var starts, starts' := PageStarts(sizes, ps), PageStarts(sizes[..n], ps);
    AllPagesLength(sizes, view, ps);
    AllPagesLength(sizes[..n], view[..n], ps);
    assert starts == starts' + [starts[n + 1]];
    if s < n {
      ViewTablePages(sizes[..n], view[..n], ps, s);
      SliceOfConcat(AllPages(view[..n]), view[n], starts[s], starts[s + 1]);
    } else {
      SliceOfConcat(AllPages(view[..n]), view[n], 0, 0);
    }
  }

  lemma ViewTableValid(sizes: seq<nat>, view: seq<seq<nat>>, ps: nat)
    requires 0 < ps && ViewFits(sizes, view, ps) && sizes != []
    ensures ViewTable(sizes, view, ps).Valid()
    ensures forall s :: 0 <= s < |view| ==> ViewTable(sizes, view, ps).Pages(s) == view[s]
  {
    AllPagesLength(sizes, view, ps);
    var starts := PageStarts(sizes, ps);
    forall i, j | 0 <= i <= j < |starts| ensures starts[i] <= starts[j] {
      StartsMonotone(sizes, ps, i, j);
    }
    forall s | 0 <= s < |view| ensures ViewTable(sizes, view, ps).Pages(s) == view[s] {
      ViewTablePages(sizes, view, ps, s);
    }
  }

  /** Parsing undoes building the directory. The size of stream 0 reads as zero. */
  lemma ParseBuilt(sizes: seq<nat>, view: seq<seq<nat>>, ps: nat)
    requires 0 < ps && sizes != [] && ViewFits(sizes, view, ps)
    ensures ParseDir(DirWords(sizes, view), ps) == Some(ViewTable(sizes, view, ps).(sizes := sizes[0 := 0]))
  {
    var words, n := DirWords(sizes, view), |sizes|;
    AllPagesLength(sizes, view, ps);
    assert words[1..1 + n] == sizes;
    assert words[1 + n..] == AllPages(view);
    assert words[1 + n..1 + n + |AllPages(view)|] == AllPages(view);
  }

  /** Every stream gets its size and its pages back. Stream 0 keeps its pages in the list, but not its size. */
  lemma ParseBuiltDir(sizes: seq<nat>, view: seq<seq<nat>>, ps: nat)
    requires 0 < ps && sizes != [] && ViewFits(sizes, view, ps)
    ensures ParseDir(DirWords(sizes, view), ps).Some?
    ensures var t := ParseDir(DirWords(sizes, view), ps).value;
            |t.sizes| == |sizes| && t.sizes[0] == 0 && forall s :: 0 <= s < |view| ==>
              t.Pages(s) == view[s] && (0 < s ==> t.sizes[s] == sizes[s])
    ensures sizes[0] == 0 ==> ParseDir(DirWords(sizes, view), ps) == Some(ViewTable(sizes, view, ps))
  {
    hide ParseDir;
    hide PageStarts;
    hide AllPages;
    hide DirWords;
    hide ViewFits;
    SameSize(sizes, view, ps);
    ParseBuilt(sizes, view, ps);
    ViewTableValid(sizes, view, ps);
    var t, v := ParseDir(DirWords(sizes, view), ps).value, ViewTable(sizes, view, ps);
    assert sizes[0] == 0 ==> sizes[0 := 0] == sizes;
    forall s | 0 <= s < |view| ensures t.Pages(s) == view[s] && (0 < s ==> t.sizes[s] == sizes[s]) {
      assert v.Pages(s) == view[s];
    }
  }

  lemma SameSize(sizes: seq<nat>, view: seq<seq<nat>>, ps: nat)
    requires 0 < ps && ViewFits(sizes, view, ps)
    ensures |sizes| == |view|
  {
  }

  /** The words of the directory: the number of streams, their sizes, and the pages of all streams in order. */
  lemma DirWordsAre(sizes: seq<nat>, view: seq<seq<nat>>, ps: nat, s: nat)
    requires 0 < ps && ViewFits(sizes, view, ps) && s < |sizes|
    ensures var words, starts := DirWords(sizes, view), PageStarts(sizes, ps);
            var first := 1 + |sizes| + starts[s];
            && |words| == 1 + |sizes| + starts[|sizes|] && words[0] == |sizes| && words[1 + s] == sizes[s]
            && first + |view[s]| <= |words| && words[first..first + |view[s]|] == view[s]
  {
    var words, n, starts := DirWords(sizes, view), |sizes|, PageStarts(sizes, ps);
    AllPagesLength(sizes, view, ps);
    assert words[1 + n..1 + n + |AllPages(view)|] == AllPages(view);
    ViewTablePages(sizes, view, ps, s);
    SliceInside(words, 1 + n, |AllPages(view)|, starts[s], starts[s + 1] - starts[s]);
  }

  // ---------------------------------------------------------------- the Free Page Map

  /** Bits `8 * j` to `8 * j + 7`; the bits past the last page are set: they read as free. */
  function FpmBits(fpm: seq<bool>, j: nat): (r: seq<bool>)
    ensures |r| == 8
    ensures forall i :: 0 <= i < 8 ==> r[i] == (|fpm| <= 8 * j + i || fpm[8 * j + i])
  {
    seq(8, i requires 0 <= i < 8 => |fpm| <= 8 * j + i || fpm[8 * j + i])
  }

  /** Byte `j` of the FPM on disk. */
  function FpmByte(fpm: seq<bool>, j: nat): u8 {
    PackByte(FpmBits(fpm, j))
  }

  function FpmBytes(fpm: seq<bool>, n: nat): (r: seq<u8>)
    ensures |r| == n
    ensures forall j :: 0 <= j < n ==> r[j] == FpmByte(fpm, j)
  {
    seq(n, j requires 0 <= j < n => FpmByte(fpm, j))
  }

  lemma FpmBit(fpm: seq<bool>, p: nat)
    requires p < |fpm|
    ensures Bit(FpmByte(fpm, p / 8) as nat, p % 8) == fpm[p]
  {
    assert 8 * (p / 8) + p % 8 == p;
    assert Bit(PackByte(FpmBits(fpm, p / 8)) as nat, p % 8) == FpmBits(fpm, p / 8)[p % 8];
  }

  /** The pages that hold FPM number `number`, one in each interval. */
  function FpmPages(number: nat, ps: nat, n: nat): (r: seq<nat>)
    ensures |r| == n
    ensures forall k :: 0 <= k < n ==> r[k] == k * ps + number
  {
    seq(n, k requires 0 <= k < n => k * ps + number)
  }

  /** The number of FPM pages that the opener reads: 32-bit words of bits, in page-sized chunks. */
  function NumFpmChunks(numPages: nat, ps: nat): nat
    requires 0 < ps
  {
    CeilDiv(4 * CeilDiv(numPages, 32), ps)
  }

  lemma FpmChunksHoldAll(numPages: nat, ps: nat)
    requires 0 < ps
    ensures numPages <= 8 * (NumFpmChunks(numPages, ps) * ps)
  {
    CeilDivBounds(numPages, 32);
    CeilDivBounds(4 * CeilDiv(numPages, 32), ps);
  }

  /** There is an interval for every chunk. */
  lemma FpmChunksFit(numPages: nat, ps: nat)
    requires 512 <= ps && 0 < numPages
    ensures NumFpmChunks(numPages, ps) <= CeilDiv(numPages, ps)
  {
    var bytes := 4 * CeilDiv(numPages, 32);
    CeilDivBounds(numPages, 32);
    if numPages < 4 {
      CeilDivIs(bytes, ps, 1);
      CeilDivIs(numPages, ps, 1);
    } else {
      CeilDivMono(bytes, numPages, ps);
    }
  }

  /** The free bits that the opener reads from FPM number `number`. */
  function ReadFpm(img: Image, ps: nat, number: nat, numPages: nat): (r: seq<bool>)
    requires 0 < ps
    ensures |r| == numPages
  {
    var n := NumFpmChunks(numPages, ps);
    var flat := Flat(img, ps, FpmPages(number, ps, n));
    FlatLength(img, ps, FpmPages(number, ps, n));
    FpmChunksHoldAll(numPages, ps);
    seq(numPages, p requires 0 <= p < numPages => Bit(flat[p / 8] as nat, p % 8))
  }

  /** Writing the FPM and reading it back gives the same bits, for any number of intervals. */
  lemma FpmRoundTrip(img: Image, ps: nat, number: nat, fpm: seq<bool>, n: nat)
    requires 512 <= ps && 0 < |fpm| && NumFpmChunks(|fpm|, ps) <= n
    requires Flat(img, ps, FpmPages(number, ps, n)) == FpmBytes(fpm, n * ps)
    ensures ReadFpm(img, ps, number, |fpm|) == fpm
  {
    var c := NumFpmChunks(|fpm|, ps);
    var all, some := FpmPages(number, ps, n), FpmPages(number, ps, c);
    assert all == some + all[c..];
    FlatConcat(img, ps, some, all[c..]);
    FlatLength(img, ps, some);
    FpmChunksHoldAll(|fpm|, ps);
    MulMono(c, n, ps);
    var r := ReadFpm(img, ps, number, |fpm|);
    forall p | 0 <= p < |fpm| ensures r[p] == fpm[p] {
      FpmBit(fpm, p);
      assert Flat(img, ps, some)[p / 8] == FpmBytes(fpm, n * ps)[p / 8];
    }
  }

  // ---------------------------------------------------------------- opening a file

  /** A committed state: what the header and the stream directory of a file say, and which pages they occupy. */
  datatype Snapshot = Snapshot(header: Header, mapPages: seq<nat>, dirPages: seq<nat>, table: StreamTable)

  /** The pages that the committed state uses. */
  function UsedPages(s: Snapshot): seq<nat>
    requires s.table.Valid()
  {
    s.mapPages + s.dirPages + s.table.LivePages()
  }

  /** The FPM that follows from the directory: all pages are free but the special and the used ones. */
  function ComputedFpm(ps: nat, numPages: nat, used: seq<nat>): (r: seq<bool>)
    requires 0 < ps
    ensures |r| == numPages
  {
    seq(numPages, p requires 0 <= p < numPages => !IsSpecial(ps, p) && p !in used)
  }

  /** The checks on page numbers: in range, not special, and used once. */
  ghost predicate PagesAcceptable(ps: nat, numPages: nat, used: seq<nat>)
    requires 0 < ps
  {
    NoDup(used) && forall i :: 0 <= i < |used| ==> used[i] < numPages && !IsSpecial(ps, used[i])
  }

  function ReadDirPages(img: Image, h: Header, mapPages: seq<nat>): (r: seq<nat>)
    requires 0 < h.pageSize && |mapPages| == NumMapPages(h)
    ensures |r| == NumDirPages(h)
  {
    FlatLength(img, h.pageSize, mapPages);
    CeilDivBounds(4 * NumDirPages(h), h.pageSize);
    DecodeWords(Flat(img, h.pageSize, mapPages)[..4 * NumDirPages(h)])
  }

  function ReadDirWords(img: Image, h: Header, dirPages: seq<nat>): (r: seq<nat>)
    requires 0 < h.pageSize && |dirPages| == NumDirPages(h)
    ensures |r| == h.dirSize / 4
  {
    FlatLength(img, h.pageSize, dirPages);
    CeilDivBounds(h.dirSize, h.pageSize);
    DecodeWords(Flat(img, h.pageSize, dirPages)[..h.dirSize])
  }

  /** Opening a file for modification: every strict check must pass. */
  ghost function Decode(img: Image): (r: Option<Snapshot>)
    ensures r.Some? ==> IsPageSize(r.value.header.pageSize) && r.value.table.Valid()
  {
    var h0 := ReadHeader(img);
    if h0.None? then None else
    var h := h0.value;
    var ps := h.pageSize;
    var mapPages := ReadMapPages(img[0], NumMapPages(h));
    var dirPages := ReadDirPages(img, h, mapPages);
    if !HasPages(img, ps, mapPages) || !HasPages(img, ps, dirPages) then None else
    var t := ParseDir(ReadDirWords(img, h, dirPages), ps);
    if t.None? then None else
    var s := Snapshot(h, mapPages, dirPages, t.value);
    if PagesAcceptable(ps, h.numPages, UsedPages(s))
       && HasPages(img, ps, FpmPages(h.activeFpm, ps, NumFpmChunks(h.numPages, ps)))
       && ReadFpm(img, ps, h.activeFpm, h.numPages) == ComputedFpm(ps, h.numPages, UsedPages(s))
    then Some(s) else None
  }

  ghost predicate InFootprint(s: Snapshot, p: nat)
    requires 0 < s.header.pageSize && s.table.Valid()
  {
    p == 0 || p % s.header.pageSize == s.header.activeFpm || p in UsedPages(s)
  }

  /** The pages that reading the committed state depends on. */
  ghost function Footprint(s: Snapshot): iset<nat>
    requires 0 < s.header.pageSize && s.table.Valid()
  {
    iset p: nat | InFootprint(s, p)
  }

  /** What a file opens as does not depend on any page outside the footprint. */
  lemma DecodeFrame(a: Image, b: Image)
    requires Decode(a).Some? && SameOn(a, b, Footprint(Decode(a).value))
    ensures Decode(b) == Decode(a)
  {
    hide PagesAcceptable;
    hide ComputedFpm;
    hide ParseDir;
    hide DecodeWords;
    var s := Decode(a).value;
    var h := s.header;
    var ps, keep := h.pageSize, Footprint(s);
    assert InFootprint(s, 0);
    forall i | 0 <= i < |s.mapPages| ensures s.mapPages[i] in keep {
      assert UsedPages(s)[i] == s.mapPages[i];
    }
    SameFlat(a, b, keep, ps, s.mapPages);
    forall i | 0 <= i < |s.dirPages| ensures s.dirPages[i] in keep {
      assert UsedPages(s)[|s.mapPages| + i] == s.dirPages[i];
    }
    SameFlat(a, b, keep, ps, s.dirPages);
    FpmPagesKept(s, NumFpmChunks(h.numPages, ps));
    SameFlat(a, b, keep, ps, FpmPages(h.activeFpm, ps, NumFpmChunks(h.numPages, ps)));
  }

  lemma FpmPagesKept(s: Snapshot, n: nat)
    requires 512 <= s.header.pageSize && s.table.Valid() && (s.header.activeFpm == 1 || s.header.activeFpm == 2)
    ensures forall k :: 0 <= k < n ==> FpmPages(s.header.activeFpm, s.header.pageSize, n)[k] in Footprint(s)
  {
    forall k | 0 <= k < n ensures FpmPages(s.header.activeFpm, s.header.pageSize, n)[k] in Footprint(s) {
      DivModUnique(k * s.header.pageSize + s.header.activeFpm, s.header.pageSize, k, s.header.activeFpm);
      assert InFootprint(s, FpmPages(s.header.activeFpm, s.header.pageSize, n)[k]);
    }
  }
}
