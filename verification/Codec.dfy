/** What a commit writes is what an opener reads: page 0, the three-level directory, and the FPM. */
module Codec {
  import opened Bytes
  import opened Arith
  import opened Paging
  import opened Pages
  import opened Read
  import opened Directory

  lemma Page0Words(h: Header, mapPages: seq<nat>, i: nat)
    requires MSF_HEADER_LEN + 4 * |mapPages| <= h.pageSize && i < 5
    ensures U32At(EncodePage0(h, mapPages), 32 + 4 * i) == [h.pageSize, h.activeFpm, h.numPages, h.dirSize, 0][i] % U32_LIMIT
  {
    var ws := [h.pageSize, h.activeFpm, h.numPages, h.dirSize, 0];
    var post := EncodeWords(mapPages) + Zeros(h.pageSize - MSF_HEADER_LEN - 4 * |mapPages|);
    ConcatAssoc(MSF_BIG_MAGIC + EncodeWords(ws), EncodeWords(mapPages), Zeros(h.pageSize - MSF_HEADER_LEN - 4 * |mapPages|));
    WordAt(ws, MSF_BIG_MAGIC, post, i);
  }

  lemma Page0Magic(h: Header, mapPages: seq<nat>)
    requires MSF_HEADER_LEN + 4 * |mapPages| <= h.pageSize
    ensures EncodePage0(h, mapPages)[..32] == MSF_BIG_MAGIC
  {
  }

  predicate HeaderInRange(h: Header) {
    && IsPageSize(h.pageSize) && (h.activeFpm == 1 || h.activeFpm == 2)
    && 0 < h.numPages < U32_LIMIT && h.dirSize < U32_LIMIT && h.dirSize % 4 == 0
  }

  /** The header comes back, unless the directory needs more map pages than the opener can see. */
  lemma HeaderRoundTrip(img: Image, h: Header, mapPages: seq<nat>)
    requires HeaderInRange(h) && MSF_HEADER_LEN + 4 * |mapPages| <= h.pageSize
    requires 0 in img && img[0] == EncodePage0(h, mapPages)
    ensures ReadHeader(img) == if NumMapPages(h) <= MAX_MAP_PAGES then Some(h) else None
  {
    hide EncodePage0;
    hide U32At;
    hide NumMapPages;
    Page0Magic(h, mapPages);
    Page0Words(h, mapPages, 0);
    Page0Words(h, mapPages, 1);
    Page0Words(h, mapPages, 2);
    Page0Words(h, mapPages, 3);
  }

  lemma MapPointersRoundTrip(h: Header, mapPages: seq<nat>)
    requires MSF_HEADER_LEN + 4 * |mapPages| <= h.pageSize && AllU32(mapPages)
    ensures ReadMapPages(EncodePage0(h, mapPages), |mapPages|) == mapPages
  {
    var pre := MSF_BIG_MAGIC + EncodeWords([h.pageSize, h.activeFpm, h.numPages, h.dirSize, 0]);
    var post := Zeros(h.pageSize - MSF_HEADER_LEN - 4 * |mapPages|);
    MiddleSlice(pre, EncodeWords(mapPages), post);
    ConcatAssoc(pre, EncodeWords(mapPages), post);
    WordsRoundTripExact(mapPages);
  }

  /** Words that were stored in pages and padded come back when exactly their bytes are read. */
  lemma StoredWords(flat: seq<u8>, ws: seq<nat>, pad: seq<u8>)
    requires AllU32(ws) && flat == EncodeWords(ws) + pad
    ensures 4 * |ws| <= |flat| && DecodeWords(flat[..4 * |ws|]) == ws
  {
    assert flat[..4 * |ws|] == EncodeWords(ws);
    WordsRoundTripExact(ws);
  }

  /** The pages hold the words, followed by zeros up to the end of the last page. */
  ghost predicate Stores(img: Image, ps: nat, pages: seq<nat>, ws: seq<nat>)
    requires 0 < ps
  {
    && |pages| == CeilDiv(4 * |ws|, ps) && HasPages(img, ps, pages)
    && exists n :: Flat(img, ps, pages) == EncodeWords(ws) + Zeros(n)
  }

  /** The file holds a complete committed state, except that nothing is said of page 0. */
  ghost predicate Prepared(img: Image, s: Snapshot, words: seq<nat>, fpm: seq<bool>)
    requires 0 < s.header.pageSize
  {
    var h := s.header;
    && Stores(img, h.pageSize, s.dirPages, words) && h.dirSize == 4 * |words|
    && Stores(img, h.pageSize, s.mapPages, s.dirPages)
    && HasPages(img, h.pageSize, FpmPages(h.activeFpm, h.pageSize, CeilDiv(h.numPages, h.pageSize)))
    && Flat(img, h.pageSize, FpmPages(h.activeFpm, h.pageSize, CeilDiv(h.numPages, h.pageSize)))
       == FpmBytes(fpm, CeilDiv(h.numPages, h.pageSize) * h.pageSize)
  }

  lemma PreparedFpm(img: Image, s: Snapshot, words: seq<nat>, fpm: seq<bool>)
    requires HeaderInRange(s.header) && Prepared(img, s, words, fpm) && |fpm| == s.header.numPages
    ensures var h := s.header;
            && ReadFpm(img, h.pageSize, h.activeFpm, h.numPages) == fpm
            && HasPages(img, h.pageSize, FpmPages(h.activeFpm, h.pageSize, NumFpmChunks(h.numPages, h.pageSize)))
  {
    var h := s.header;
    var n, c := CeilDiv(h.numPages, h.pageSize), NumFpmChunks(h.numPages, h.pageSize);
    FpmChunksFit(h.numPages, h.pageSize);
    FpmRoundTrip(img, h.pageSize, h.activeFpm, fpm, n);
    forall k | 0 <= k < c ensures HasPage(img, h.pageSize, FpmPages(h.activeFpm, h.pageSize, c)[k]) {
      assert FpmPages(h.activeFpm, h.pageSize, c)[k] == FpmPages(h.activeFpm, h.pageSize, n)[k];
    }
  }

  lemma PreparedDir(img: Image, s: Snapshot, words: seq<nat>, fpm: seq<bool>)
    requires HeaderInRange(s.header) && Prepared(img, s, words, fpm) && AllU32(words) && AllU32(s.dirPages)
    ensures |s.mapPages| == NumMapPages(s.header) && |s.dirPages| == NumDirPages(s.header)
    ensures ReadDirPages(img, s.header, s.mapPages) == s.dirPages
    ensures ReadDirWords(img, s.header, s.dirPages) == words
  {
    var h := s.header;
    var m :| Flat(img, h.pageSize, s.mapPages) == EncodeWords(s.dirPages) + Zeros(m);
    StoredWords(Flat(img, h.pageSize, s.mapPages), s.dirPages, Zeros(m));
    var d :| Flat(img, h.pageSize, s.dirPages) == EncodeWords(words) + Zeros(d);
    StoredWords(Flat(img, h.pageSize, s.dirPages), words, Zeros(d));
  }

  /**
   * Once page 0 is written, the file opens as the new state, with every strict check passed: exactly when the map
   * pages fit into the part of page 0 that the opener reads.
   */
  lemma CommitDecodes(img: Image, s: Snapshot, words: seq<nat>, fpm: seq<bool>)
    requires HeaderInRange(s.header) && s.table.Valid()
    requires Prepared(img, s, words, fpm) && AllU32(words) && AllU32(s.dirPages) && AllU32(s.mapPages)
    requires MSF_HEADER_LEN + 4 * |s.mapPages| <= s.header.pageSize
    requires 0 in img && img[0] == EncodePage0(s.header, s.mapPages)
    requires ParseDir(words, s.header.pageSize) == Some(s.table)
    requires PagesAcceptable(s.header.pageSize, s.header.numPages, UsedPages(s))
    requires fpm == ComputedFpm(s.header.pageSize, s.header.numPages, UsedPages(s))
    ensures |s.mapPages| <= MAX_MAP_PAGES ==> Decode(img) == Some(s)
    ensures |s.mapPages| > MAX_MAP_PAGES ==> Decode(img) == None
  {
    HeaderRoundTrip(img, s.header, s.mapPages);
    PreparedDir(img, s, words, fpm);
    if |s.mapPages| <= MAX_MAP_PAGES {
      MapPointersRoundTrip(s.header, s.mapPages);
      PreparedFpm(img, s, words, fpm);
    }
  }
}
