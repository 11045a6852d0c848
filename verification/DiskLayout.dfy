/** A committed file, byte by byte: what the opener accepts, in terms of pages, bytes and bits (msf/src/lib.rs, msf/src/open.rs). */
module DiskLayout {
  import opened Bytes
  import opened Arith
  import opened Paging
  import opened Pages
  import opened Read
  import opened Directory

  /** The signature and the four fields at the start of page 0. */
  predicate HeaderStored(p0: seq<u8>, h: Header) {
    && |p0| == h.pageSize && MSF_HEADER_LEN <= |p0| && p0[..32] == MSF_BIG_MAGIC
    && StoredAt(p0, 32, h.pageSize) && StoredAt(p0, 36, h.activeFpm) && StoredAt(p0, 40, h.numPages) && StoredAt(p0, 44, h.dirSize)
  }

  /** Number `k` of a list that fills the given pages one after the other. */
  ghost predicate WordStored(img: Image, ps: nat, pages: seq<nat>, k: nat, w: nat) {
    && 0 < ps && 4 * k / ps < |pages| && w < U32_LIMIT
    && StoredAt(PageOf(img, ps, pages[4 * k / ps]), 4 * k % ps, w)
  }

  ghost predicate WordsStoredIn(img: Image, ps: nat, pages: seq<nat>, ws: seq<nat>) {
    HasPages(img, ps, pages) && forall k :: 0 <= k < |ws| ==> WordStored(img, ps, pages, k, ws[k])
  }

  /** The bit of page `p` in the FPM with the given number: one FPM page for each `8 * ps` pages. */
  ghost predicate FreeOnDisk(img: Image, ps: nat, number: nat, p: nat)
    requires 0 < ps
  {
    Bit(PageOf(img, ps, p / 8 / ps * ps + number)[p / 8 % ps] as nat, p % 8)
  }

  /**
   * The words of the stream directory: the number of streams, their sizes, and the pages of all streams in order. The
   * pages of stream 0 are listed like all others, but its size counts as zero.
   */
  ghost predicate Listed(words: seq<nat>, ps: nat, t: StreamTable)
    requires 0 < ps
  {
    var n := |t.sizes|;
    && t.Valid() && 1 + n + |t.pages| <= |words| && words[0] == n
    && t.sizes[0] == 0 && (forall s :: 1 <= s < n ==> t.sizes[s] == words[1 + s])
    && t.starts[0] == 0
    && (forall s :: 0 <= s < n ==> t.starts[s + 1] == t.starts[s] + NumPagesForStreamSize(words[1 + s], ps))
    && t.pages == words[1 + n..1 + n + |t.pages|]
  }

  /** The header, and behind it the pointers to the map pages. */
  ghost predicate Page0Stored(img: Image, h: Header, mapPages: seq<nat>) {
    && IsPageSize(h.pageSize) && 0 in img && HeaderStored(img[0], h)
    && (h.activeFpm == 1 || h.activeFpm == 2) && 0 < h.numPages < U32_LIMIT && h.dirSize % 4 == 0 && h.dirSize < U32_LIMIT
    && |mapPages| == CeilDiv(4 * CeilDiv(h.dirSize, h.pageSize), h.pageSize) <= MAX_MAP_PAGES
    && forall i :: 0 <= i < |mapPages| ==> mapPages[i] < U32_LIMIT && StoredAt(img[0], MSF_HEADER_LEN + 4 * i, mapPages[i])
  }

  /** The map pages list the directory pages, and these hold the words of the directory. */
  ghost predicate DirStored(img: Image, s: Snapshot, words: seq<nat>)
    requires 0 < s.header.pageSize
  {
    var ps := s.header.pageSize;
    && |s.dirPages| == CeilDiv(s.header.dirSize, ps) && 4 * |words| == s.header.dirSize
    && WordsStoredIn(img, ps, s.mapPages, s.dirPages) && WordsStoredIn(img, ps, s.dirPages, words)
  }

  /** The active FPM has the bits that follow from the directory: exactly the pages that nothing uses are free. */
  ghost predicate FpmStored(img: Image, h: Header, used: seq<nat>)
    requires 0 < h.pageSize
  {
    && (forall k :: 0 <= k < NumFpmChunks(h.numPages, h.pageSize) ==> HasPage(img, h.pageSize, k * h.pageSize + h.activeFpm))
    && forall p :: 0 <= p < h.numPages ==>
         (FreeOnDisk(img, h.pageSize, h.activeFpm, p) <==> !IsSpecial(h.pageSize, p) && p !in used)
  }

  /** The file holds this committed state, with every number where it belongs and every bit of the active FPM right. */
  ghost predicate OnDisk(img: Image, s: Snapshot, words: seq<nat>) {
    && Page0Stored(img, s.header, s.mapPages)
    && DirStored(img, s, words)
    && Listed(words, s.header.pageSize, s.table)
    && PagesAcceptable(s.header.pageSize, s.header.numPages, UsedPages(s))
    && FpmStored(img, s.header, UsedPages(s))
  }

  /** The signature as text. */
  lemma MagicText()
    ensures |MSF_BIG_MAGIC| == 32
    ensures forall i :: 0 <= i < 32 ==> MSF_BIG_MAGIC[i] as int == "Microsoft C/C++ MSF 7.00\r\n\U{1A}DS\0\0\0"[i] as int
  {
  }

  /** What a commit writes to page 0, byte by byte. */
  lemma HeaderWritten(h: Header, mapPages: seq<nat>)
    requires MSF_HEADER_LEN + 4 * |mapPages| <= h.pageSize
    ensures HeaderStored(EncodePage0(h, mapPages), h)
    ensures forall i :: 0 <= i < |mapPages| ==> StoredAt(EncodePage0(h, mapPages), MSF_HEADER_LEN + 4 * i, mapPages[i])
  {
    hide EncodeWords;
    hide StoredAt;
    hide Zeros;
    var fields := [h.pageSize, h.activeFpm, h.numPages, h.dirSize, 0];
    var pad, p0 := Zeros(h.pageSize - MSF_HEADER_LEN - 4 * |mapPages|), EncodePage0(h, mapPages);
    var first := MSF_BIG_MAGIC + EncodeWords(fields);
    ConcatAssoc(first, EncodeWords(mapPages), pad);
    WordsStored(fields, MSF_BIG_MAGIC, EncodeWords(mapPages) + pad, 0);
    WordsStored(fields, MSF_BIG_MAGIC, EncodeWords(mapPages) + pad, 1);
    WordsStored(fields, MSF_BIG_MAGIC, EncodeWords(mapPages) + pad, 2);
    WordsStored(fields, MSF_BIG_MAGIC, EncodeWords(mapPages) + pad, 3);
    forall i | 0 <= i < |mapPages| ensures StoredAt(p0, MSF_HEADER_LEN + 4 * i, mapPages[i]) {
      WordsStored(mapPages, first, pad, i);
    }
  }

  // ---------------------------------------------------------------- words in pages

  lemma WordInside(k: nat, ps: nat)
    requires IsPageSize(ps)
    ensures 4 * k % ps + 4 <= ps && 4 * k / ps * ps + 4 * k % ps == 4 * k
  {
  }

  lemma StoredSame(a: seq<u8>, i: nat, b: seq<u8>, j: nat, w: nat)
    requires i + 4 <= |a| && j + 4 <= |b| && a[i..i + 4] == b[j..j + 4]
    ensures StoredAt(a, i, w) <==> StoredAt(b, j, w)
  {
    var x, y := a[i..i + 4], b[j..j + 4];
    assert x[0] == a[i] && x[1] == a[i + 1] && x[2] == a[i + 2] && x[3] == a[i + 3];
    assert y[0] == b[j] && y[1] == b[j + 1] && y[2] == b[j + 2] && y[3] == b[j + 3];
  }

  /** Word `k` of the concatenated pages is stored in one of them. */
  lemma FlatWord(img: Image, ps: nat, pages: seq<nat>, k: nat)
    requires IsPageSize(ps) && 4 * k + 4 <= |pages| * ps
    ensures |Flat(img, ps, pages)| == |pages| * ps && 4 * k / ps < |pages| && 4 * k % ps + 4 <= ps
    ensures Flat(img, ps, pages)[4 * k..4 * k + 4] == PageOf(img, ps, pages[4 * k / ps])[4 * k % ps..4 * k % ps + 4]
  {
    WordInside(k, ps);
    hide *;
    PageSizePositive(ps);
    FlatLength(img, ps, pages);
    var base := PageAt(img, ps, pages, 4 * k);
    SliceInside(Flat(img, ps, pages), base, ps, 4 * k % ps, 4);
  }

  lemma PageSizePositive(ps: nat)
    requires IsPageSize(ps)
    ensures 512 <= ps
  {
  }

  lemma OneWord(img: Image, ps: nat, pages: seq<nat>, n: nat, k: nat, w: nat)
    requires IsPageSize(ps) && 4 * n <= |pages| * ps == |Flat(img, ps, pages)| && k < n
    ensures var r := U32At(Flat(img, ps, pages)[..4 * n], 4 * k);
            WordStored(img, ps, pages, k, r) && (WordStored(img, ps, pages, k, w) ==> w == r)
  {
    hide *;
    var flat := Flat(img, ps, pages)[..4 * n];
    FlatWord(img, ps, pages, k);
    PageSizePositive(ps);
    WordOfBytes(flat, 4 * k);
    var page, at, r := PageOf(img, ps, pages[4 * k / ps]), 4 * k % ps, U32At(flat, 4 * k);
    assert flat[4 * k..4 * k + 4] == Flat(img, ps, pages)[4 * k..4 * k + 4];
    StoredSame(flat, 4 * k, page, at, r);
    StoredSame(flat, 4 * k, page, at, w);
    WordStoredIs(img, ps, pages, k, r);
    WordStoredIs(img, ps, pages, k, w);
    if WordStored(img, ps, pages, k, w) {
      BytesOfWord(flat, 4 * k, w);
    }
  }

  lemma WordStoredIs(img: Image, ps: nat, pages: seq<nat>, k: nat, w: nat)
    requires 0 < ps && 4 * k / ps < |pages|
    ensures WordStored(img, ps, pages, k, w) <==> w < U32_LIMIT && StoredAt(PageOf(img, ps, pages[4 * k / ps]), 4 * k % ps, w)
  {
  }

  /** Exactly the list that is decoded from the concatenated pages is stored in them. */
  lemma WordsDecoded(img: Image, ps: nat, pages: seq<nat>, n: nat, ws: seq<nat>)
    requires IsPageSize(ps) && HasPages(img, ps, pages) && 4 * n <= |pages| * ps && |ws| == n
    ensures |Flat(img, ps, pages)| == |pages| * ps
    ensures WordsStoredIn(img, ps, pages, ws) <==> ws == DecodeWords(Flat(img, ps, pages)[..4 * n])
  {
    hide Flat;
    hide IsPageSize;
    hide U32At;
    hide WordStored;
    hide HasPages;
    FlatLength(img, ps, pages);
    var read := DecodeWords(Flat(img, ps, pages)[..4 * n]);
    forall k | 0 <= k < n
      ensures WordStored(img, ps, pages, k, read[k]) && (WordStored(img, ps, pages, k, ws[k]) ==> ws[k] == read[k])
    {
      OneWord(img, ps, pages, n, k, ws[k]);
    }
  }

  // ---------------------------------------------------------------- page 0

  lemma HeaderRead(img: Image, h: Header)
    requires ReadHeader(img) == Some(h)
    ensures 0 in img && HeaderStored(img[0], h) && IsPageSize(h.pageSize) && (h.activeFpm == 1 || h.activeFpm == 2)
    ensures 0 < h.numPages < U32_LIMIT && h.dirSize % 4 == 0 && h.dirSize < U32_LIMIT && NumMapPages(h) <= MAX_MAP_PAGES
  {
    hide U32At;
    hide StoredAt;
    hide NumMapPages;
    var p0 := img[0];
    WordOfBytes(p0, 32);
    WordOfBytes(p0, 36);
    WordOfBytes(p0, 40);
    WordOfBytes(p0, 44);
  }

  lemma HeaderFound(img: Image, h: Header)
    requires 0 in img && HeaderStored(img[0], h) && IsPageSize(h.pageSize) && (h.activeFpm == 1 || h.activeFpm == 2)
    requires 0 < h.numPages < U32_LIMIT && h.dirSize % 4 == 0 && h.dirSize < U32_LIMIT && NumMapPages(h) <= MAX_MAP_PAGES
    ensures ReadHeader(img) == Some(h)
  {
    hide U32At;
    hide StoredAt;
    hide NumMapPages;
    var p0 := img[0];
    BytesOfWord(p0, 32, h.pageSize);
    BytesOfWord(p0, 36, h.activeFpm);
    BytesOfWord(p0, 40, h.numPages);
    BytesOfWord(p0, 44, h.dirSize);
  }

  lemma MapPointer(p0: seq<u8>, n: nat, i: nat, w: nat)
    requires MSF_HEADER_LEN + 4 * n <= |p0| && i < n
    ensures ReadMapPages(p0, n)[i] < U32_LIMIT && StoredAt(p0, MSF_HEADER_LEN + 4 * i, ReadMapPages(p0, n)[i])
    ensures w < U32_LIMIT && StoredAt(p0, MSF_HEADER_LEN + 4 * i, w) ==> w == ReadMapPages(p0, n)[i]
  {
    hide U32At;
    hide StoredAt;
    var b := p0[MSF_HEADER_LEN..MSF_HEADER_LEN + 4 * n];
    WordOfBytes(b, 4 * i);
    SliceInside(p0, MSF_HEADER_LEN, 4 * n, 4 * i, 4);
    StoredSame(b, 4 * i, p0, MSF_HEADER_LEN + 4 * i, U32At(b, 4 * i));
    StoredSame(b, 4 * i, p0, MSF_HEADER_LEN + 4 * i, w);
    if w < U32_LIMIT && StoredAt(p0, MSF_HEADER_LEN + 4 * i, w) {
      BytesOfWord(b, 4 * i, w);
    }
  }

  /** Page 0 is read as what is stored there. */
  lemma Page0Iff(img: Image, h: Header, mapPages: seq<nat>)
    ensures Page0Stored(img, h, mapPages) <==>
              ReadHeader(img) == Some(h) && |img[0]| == h.pageSize && NumMapPages(h) <= MAX_MAP_PAGES
              && mapPages == ReadMapPages(img[0], NumMapPages(h))
  {
    hide StoredAt;
    hide U32At;
    hide ReadMapPages;
    if ReadHeader(img) == Some(h) {
      HeaderRead(img, h);
    } else if Page0Stored(img, h, mapPages) {
      HeaderFound(img, h);
    }
    if ReadHeader(img) == Some(h) && |mapPages| == NumMapPages(h) {
      forall i | 0 <= i < |mapPages|
        ensures var read := ReadMapPages(img[0], |mapPages|)[i];
                && read < U32_LIMIT && StoredAt(img[0], MSF_HEADER_LEN + 4 * i, read)
                && (mapPages[i] < U32_LIMIT && StoredAt(img[0], MSF_HEADER_LEN + 4 * i, mapPages[i]) ==> mapPages[i] == read)
      {
        MapPointer(img[0], |mapPages|, i, mapPages[i]);
      }
    }
  }

  // ---------------------------------------------------------------- the directory

  lemma DirIff(img: Image, s: Snapshot, words: seq<nat>)
    requires IsPageSize(s.header.pageSize) && |s.mapPages| == NumMapPages(s.header) && s.header.dirSize % 4 == 0
    ensures DirStored(img, s, words) <==>
              && HasPages(img, s.header.pageSize, s.mapPages) && HasPages(img, s.header.pageSize, s.dirPages)
              && s.dirPages == ReadDirPages(img, s.header, s.mapPages)
              && words == ReadDirWords(img, s.header, s.dirPages)
  {
    hide IsPageSize;
    hide Flat;
    hide WordStored;
    hide HasPages;
    hide CeilDiv;
    hide DecodeWords;
    var h, ps := s.header, s.header.pageSize;
    PageSizePositive(ps);
    CeilDivBounds(4 * NumDirPages(h), ps);
    CeilDivBounds(h.dirSize, ps);
    if HasPages(img, ps, s.mapPages) && |s.dirPages| == NumDirPages(h) {
      WordsDecoded(img, ps, s.mapPages, |s.dirPages|, s.dirPages);
      if HasPages(img, ps, s.dirPages) && 4 * |words| == h.dirSize {
        WordsDecoded(img, ps, s.dirPages, |words|, words);
      }
    }
  }

  /** The words are parsed as what they list. */
  lemma ParseIff(words: seq<nat>, ps: nat, t: StreamTable)
    requires 0 < ps
    ensures ParseDir(words, ps) == Some(t) <==> Listed(words, ps, t)
  {
    if ParseDir(words, ps) == Some(t) {
      ParsedListed(words, ps, t);
    }
    if Listed(words, ps, t) {
      ListedParsed(words, ps, t);
    }
  }

  lemma ParsedListed(words: seq<nat>, ps: nat, t: StreamTable)
    requires 0 < ps && ParseDir(words, ps) == Some(t)
    ensures Listed(words, ps, t)
  {
    hide NumPagesForStreamSize;
    hide PageStarts;
    var n := words[0];
    var raw := words[1..1 + n];
    assert forall s :: 0 <= s < n ==> raw[s] == words[1 + s];
  }

  lemma ListedParsed(words: seq<nat>, ps: nat, t: StreamTable)
    requires 0 < ps && Listed(words, ps, t)
    ensures ParseDir(words, ps) == Some(t)
  {
    hide NumPagesForStreamSize;
    hide PageStarts;
    var n := words[0];
    var raw := words[1..1 + n];
    SameStarts(words, ps, t, n);
    assert raw[0 := 0] == t.sizes;
    assert PageStarts(raw, ps) == t.starts;
  }

  lemma {:induction false} SameStarts(words: seq<nat>, ps: nat, t: StreamTable, k: nat)
    requires 0 < ps && Listed(words, ps, t) && k <= words[0]
    ensures forall i :: 0 <= i <= k ==> PageStarts(words[1..1 + words[0]], ps)[i] == t.starts[i]
  {
    hide NumPagesForStreamSize;
    hide PageStarts;
    var raw := words[1..1 + words[0]];
    if 0 < k {
      SameStarts(words, ps, t, k - 1);
      assert raw[k - 1] == words[1 + (k - 1)];
      assert PageStarts(raw, ps)[k - 1 + 1] == PageStarts(raw, ps)[k - 1] + NumPagesForStreamSize(raw[k - 1], ps);
      assert t.starts[k - 1 + 1] == t.starts[k - 1] + NumPagesForStreamSize(words[1 + (k - 1)], ps);
    }
  }

  // ---------------------------------------------------------------- the Free Page Map

  lemma ChunkOfPage(p: nat, numPages: nat, ps: nat)
    requires IsPageSize(ps) && p < numPages
    ensures p / 8 / ps < NumFpmChunks(numPages, ps) && p / 8 < NumFpmChunks(numPages, ps) * ps
  {
    hide NumFpmChunks;
    FpmChunksHoldAll(numPages, ps);
    InList(p / 8, NumFpmChunks(numPages, ps), ps);
  }

  /** The bit that the opener reads for a page. */
  lemma BitRead(img: Image, ps: nat, number: nat, numPages: nat, p: nat)
    requires IsPageSize(ps) && p < numPages
    ensures ReadFpm(img, ps, number, numPages)[p] <==> FreeOnDisk(img, ps, number, p)
  {
    ChunkOfPage(p, numPages, ps);
    hide Flat;
    hide PageOf;
    hide NumFpmChunks;
    hide IsPageSize;
    hide Bit;
    ByteOfPages(img, ps, FpmPages(number, ps, NumFpmChunks(numPages, ps)), p / 8);
  }

  lemma ChunkPages(img: Image, h: Header, n: nat)
    requires 0 < h.pageSize
    ensures HasPages(img, h.pageSize, FpmPages(h.activeFpm, h.pageSize, n)) <==>
              forall k :: 0 <= k < n ==> HasPage(img, h.pageSize, k * h.pageSize + h.activeFpm)
  {
    hide HasPage;
    var pages := FpmPages(h.activeFpm, h.pageSize, n);
    if HasPages(img, h.pageSize, pages) {
      forall k | 0 <= k < n ensures HasPage(img, h.pageSize, k * h.pageSize + h.activeFpm) {
        assert HasPage(img, h.pageSize, pages[k]);
      }
    }
  }

  lemma FpmIff(img: Image, h: Header, used: seq<nat>)
    requires IsPageSize(h.pageSize)
    ensures FpmStored(img, h, used) <==>
              && HasPages(img, h.pageSize, FpmPages(h.activeFpm, h.pageSize, NumFpmChunks(h.numPages, h.pageSize)))
              && ReadFpm(img, h.pageSize, h.activeFpm, h.numPages) == ComputedFpm(h.pageSize, h.numPages, used)
  {
    hide IsPageSize;
    hide ReadFpm;
    hide FreeOnDisk;
    hide IsSpecial;
    hide NumFpmChunks;
    hide HasPages;
    hide HasPage;
    PageSizePositive(h.pageSize);
    ChunkPages(img, h, NumFpmChunks(h.numPages, h.pageSize));
    var read, computed := ReadFpm(img, h.pageSize, h.activeFpm, h.numPages), ComputedFpm(h.pageSize, h.numPages, used);
    forall p | 0 <= p < h.numPages
      ensures read[p] <==> FreeOnDisk(img, h.pageSize, h.activeFpm, p)
      ensures computed[p] <==> !IsSpecial(h.pageSize, p) && p !in used
    {
      BitRead(img, h.pageSize, h.activeFpm, h.numPages, p);
    }
    assert read == computed <==> forall p :: 0 <= p < h.numPages ==> read[p] == computed[p];
  }

  // ---------------------------------------------------------------- the whole file

  /** A file opens as a committed state exactly if it holds that state, byte by byte. */
  lemma OpensIff(img: Image, s: Snapshot)
    ensures Decode(img) == Some(s) <==> exists words :: OnDisk(img, s, words)
  {
    if words :| OnDisk(img, s, words) {
      StoredOpens(img, s, words);
    }
    if Decode(img) == Some(s) {
      var words := OpenedStored(img, s);
    }
  }

  /** A file opens exactly if it holds some committed state. */
  lemma OpensWhenStored(img: Image)
    ensures Decode(img).Some? <==> exists s, words :: OnDisk(img, s, words)
    ensures Decode(img).Some? ==> exists words :: OnDisk(img, Decode(img).value, words)
  {
    hide *;
    if s, words :| OnDisk(img, s, words) {
      StoredOpens(img, s, words);
    }
    if Decode(img).Some? {
      var words := OpenedStored(img, Decode(img).value);
    }
  }

  /** Each stream has the pages that are listed for it, behind those of the streams before it. */
  lemma ListedPages(words: seq<nat>, ps: nat, t: StreamTable, s: nat)
    requires 0 < ps && Listed(words, ps, t) && s < |t.sizes|
    ensures var first := 1 + |t.sizes| + t.starts[s];
            && t.starts[s + 1] == t.starts[s] + NumPagesForStreamSize(words[1 + s], ps) <= |t.pages|
            && t.Pages(s) == words[first..first + NumPagesForStreamSize(words[1 + s], ps)]
  {
    hide NumPagesForStreamSize;
    var n := |t.sizes|;
    SliceInside(words, 1 + n, |t.pages|, t.starts[s], t.starts[s + 1] - t.starts[s]);
  }

  lemma StoredOpens(img: Image, s: Snapshot, words: seq<nat>)
    requires OnDisk(img, s, words)
    ensures Decode(img) == Some(s)
  {
    Page0Iff(img, s.header, s.mapPages);
    OnDiskTable(img, s, words);
    hide Page0Stored;
    hide ReadHeader;
    hide ReadMapPages;
    hide NumMapPages;
    hide ReadDirPages;
    hide ReadDirWords;
    hide ParseDir;
    hide HasPages;
    hide ReadFpm;
    hide DirStored;
    hide FpmStored;
    hide PagesAcceptable;
    hide Listed;
    HeaderRead(img, s.header);
    DirIff(img, s, words);
    ParseIff(words, s.header.pageSize, s.table);
    FpmIff(img, s.header, UsedPages(s));
  }

  lemma OnDiskTable(img: Image, s: Snapshot, words: seq<nat>)
    requires OnDisk(img, s, words)
    ensures 0 < s.header.pageSize && s.table.Valid()
  {
  }

  lemma OpenedStored(img: Image, s: Snapshot) returns (words: seq<nat>)
    requires Decode(img) == Some(s)
    ensures OnDisk(img, s, words)
    ensures |s.dirPages| == NumDirPages(s.header) && words == ReadDirWords(img, s.header, s.dirPages)
  {
    hide ReadHeader;
    hide ReadMapPages;
    hide NumMapPages;
    hide ReadDirPages;
    hide ReadDirWords;
    hide ParseDir;
    hide HasPages;
    hide ReadFpm;
    hide DirStored;
    hide FpmStored;
    hide PagesAcceptable;
    hide Listed;
    hide Page0Stored;
    HeaderRead(img, s.header);
    Page0Iff(img, s.header, s.mapPages);
    words := ReadDirWords(img, s.header, s.dirPages);
    DirIff(img, s, words);
    ParseIff(words, s.header.pageSize, s.table);
    FpmIff(img, s.header, UsedPages(s));
  }
}
