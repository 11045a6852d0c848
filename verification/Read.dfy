/** Mapping stream ranges to file ranges, and reading streams (msf/src/pages.rs, msf/src/read.rs). */
module Read {
  import opened Bytes
  import opened Arith
  import opened Paging
  import opened Pages

  /** The bytes of a stream: the start of its pages. A nil stream has none. */
  function Contents(img: Image, ps: nat, size: nat, pages: seq<nat>): seq<u8> {
    var flat := Flat(img, ps, pages);
    if size <= |flat| then flat[..size] else []
  }

  /** The page list of a stream is as long as its size demands; nil streams have no pages. */
  predicate SizeFits(size: nat, pages: seq<nat>, ps: nat)
    requires 0 < ps
  {
    |pages| == NumPagesForStreamSize(size, ps)
  }

  lemma SizeFitsBounds(img: Image, size: nat, pages: seq<nat>, ps: nat)
    requires 0 < ps && SizeFits(size, pages, ps) && size != NIL_STREAM_SIZE
    ensures size <= |pages| * ps < size + ps
    ensures |Flat(img, ps, pages)| == |pages| * ps
    ensures |Contents(img, ps, size, pages)| == size
  {
    CeilDivBounds(size, ps);
    FlatLength(img, ps, pages);
  }

  /** There are as many pages as `size` bytes need. For all sizes but that of a nil stream, this is `SizeFits`. */
  predicate Covers(size: nat, pages: seq<nat>, ps: nat)
    requires 0 < ps
  {
    |pages| == CeilDiv(size, ps)
  }

  /** The same, measured on the bytes of the pages. */
  lemma CoversFlat(img: Image, size: nat, pages: seq<nat>, ps: nat)
    requires 0 < ps
    ensures Covers(size, pages, ps) <==> size <= |Flat(img, ps, pages)| < size + ps
  {
    FlatLength(img, ps, pages);
    CeilDivBounds(size, ps);
    var n := |pages|;
    if size <= n * ps < size + ps {
      if n > 0 {
        PeelOne(n, ps);
      }
      CeilDivIs(size, ps, n);
    }
  }

  /** A stream whose size is a multiple of the page size fills its pages. */
  lemma AlignedFlat(img: Image, size: nat, pages: seq<nat>, ps: nat)
    requires 0 < ps && Covers(size, pages, ps)
    ensures size % ps == 0 <==> size == |Flat(img, ps, pages)|
  {
    CoversFlat(img, size, pages, ps);
    FlatLength(img, ps, pages);
    MultipleMod(|pages|, ps);
    var k, n := size / ps, |pages|;
    if size % ps == 0 && size < n * ps {
      PeelOne(n, ps);
      assert k * ps == size;
      if k < n {
        MulMono(k, n - 1, ps);
      } else {
        MulMono(n, k, ps);
      }
    }
  }

  lemma InList(at: nat, n: nat, ps: nat)
    requires 0 < ps && at < n * ps
    ensures at / ps < n
  {
    if n <= at / ps {
      MulMono(n, at / ps, ps);
    }
  }

  /** The number of bytes in the pages is a multiple of the page size. */
  lemma FlatIsWhole(img: Image, ps: nat, pages: seq<nat>)
    requires 0 < ps
    ensures |Flat(img, ps, pages)| % ps == 0
  {
    FlatLength(img, ps, pages);
    MultipleMod(|pages|, ps);
  }

  lemma PageSlice(img: Image, ps: nat, pages: seq<nat>, i: nat)
    requires i < |pages|
    ensures i * ps + ps <= |Flat(img, ps, pages)|
    ensures PageOf(img, ps, pages[i]) == Flat(img, ps, pages)[i * ps..i * ps + ps]
  {
    FlatSplit(img, ps, pages, i);
    MiddleSlice(Flat(img, ps, pages[..i]), PageOf(img, ps, pages[i]), Flat(img, ps, pages[i + 1..]));
  }

  /** The page that holds byte `at` of the flattened pages, and its place among them. */
  lemma PageAt(img: Image, ps: nat, pages: seq<nat>, at: nat) returns (base: nat)
    requires 0 < ps && at < |Flat(img, ps, pages)|
    ensures at / ps < |pages| && base == at / ps * ps && at == base + at % ps
    ensures base + ps <= |Flat(img, ps, pages)|
    ensures PageOf(img, ps, pages[at / ps]) == Flat(img, ps, pages)[base..base + ps]
  {
    hide *;
    FlatLength(img, ps, pages);
    InList(at, |pages|, ps);
    base := at / ps * ps;
    PageSlice(img, ps, pages, at / ps);
  }

  /** Byte `at` of the pages together. */
  lemma ByteOfPages(img: Image, ps: nat, pages: seq<nat>, at: nat)
    requires 0 < ps && at < |pages| * ps
    ensures |Flat(img, ps, pages)| == |pages| * ps && at / ps < |pages|
    ensures Flat(img, ps, pages)[at] == PageOf(img, ps, pages[at / ps])[at % ps]
  {
    hide *;
    FlatLength(img, ps, pages);
    var base := PageAt(img, ps, pages, at);
    assert Flat(img, ps, pages)[base..base + ps][at % ps] == Flat(img, ps, pages)[base + at % ps];
  }

  /** Byte `i` of a stream is in page `i / ps` of its list. */
  lemma ContentsAt(img: Image, ps: nat, size: nat, pages: seq<nat>, i: nat)
    requires 0 < ps && i < size <= |pages| * ps && HasPages(img, ps, pages)
    ensures |Contents(img, ps, size, pages)| == size && i / ps < |pages|
    ensures pages[i / ps] in img && |img[pages[i / ps]]| == ps && Contents(img, ps, size, pages)[i] == img[pages[i / ps]][i % ps]
  {
    hide Flat;
    ByteOfPages(img, ps, pages, i);
  }

  /** One byte of the file, addressed by its offset from the start of the file. */
  function FileByte(img: Image, ps: nat, at: nat): u8
    requires 0 < ps
  {
    PageOf(img, ps, at / ps)[at % ps]
  }

  function FileBytes(img: Image, ps: nat, at: nat, n: nat): (r: seq<u8>)
    requires 0 < ps
    ensures |r| == n
  {
    seq(n, k requires 0 <= k < n => FileByte(img, ps, at + k))
  }

  /** Pages `i` to `j - 1` of the list are numbered consecutively. */
  ghost predicate Consecutive(pages: seq<nat>, i: nat, j: nat) {
    i < j <= |pages| && forall k :: i <= k < j ==> pages[k] == pages[i] + (k - i)
  }

  lemma StreamByte(img: Image, ps: nat, pages: seq<nat>, i: nat, o: nat, at: nat)
    requires i < |pages| && o < ps && at == i * ps + o
    ensures at < |Flat(img, ps, pages)| && Flat(img, ps, pages)[at] == FileByte(img, ps, pages[i] * ps + o)
  {
    FlatByte(img, ps, pages, i, o);
    DivModUnique(pages[i] * ps + o, ps, pages[i], o);
  }

  /** Moving `k` bytes on from offset `o` of a page is moving `d` pages on, to offset `r`. */
  lemma SameStep(a: nat, b: nat, o: nat, k: nat, j: nat, ps: nat) returns (d: nat, r: nat)
    requires 0 < ps && a * ps + o + k < j * ps
    ensures r < ps && a + d < j
    ensures (a + d) * ps + r == a * ps + o + k && (b + d) * ps + r == b * ps + o + k
  {
    d, r := (o + k) / ps, (o + k) % ps;
    assert (a + d) * ps == a * ps + d * ps && (b + d) * ps == b * ps + d * ps;
    if j <= a + d {
      MulMono(j, a + d, ps);
    }
  }

  /** Where the pages are consecutive, stepping through the stream is stepping through the file. */
  lemma ConsecutiveByte(img: Image, ps: nat, pages: seq<nat>, i: nat, o: nat, j: nat, k: nat)
    requires 0 < ps && Consecutive(pages, i, j) && i * ps + o + k < j * ps
    ensures i * ps + o + k < |Flat(img, ps, pages)|
    ensures FileByte(img, ps, pages[i] * ps + o + k) == Flat(img, ps, pages)[i * ps + o + k]
  {
    var d, r := SameStep(i, pages[i], o, k, j, ps);
    assert pages[i + d] == pages[i] + d;
    StreamByte(img, ps, pages, i + d, r, i * ps + o + k);
  }

  lemma ConsecutiveBytes(img: Image, ps: nat, pages: seq<nat>, i: nat, o: nat, j: nat, n: nat)
    requires 0 < ps && Consecutive(pages, i, j) && i * ps + o + n <= j * ps
    ensures i * ps + o + n <= |Flat(img, ps, pages)|
    ensures FileBytes(img, ps, pages[i] * ps + o, n) == Flat(img, ps, pages)[i * ps + o..i * ps + o + n]
  {
    MulMono(j, |pages|, ps);
    FlatLength(img, ps, pages);
    var a, b := FileBytes(img, ps, pages[i] * ps + o, n), Flat(img, ps, pages)[i * ps + o..i * ps + o + n];
    forall k | 0 <= k < n ensures a[k] == b[k] {
      ConsecutiveByte(img, ps, pages, i, o, j, k);
    }
  }

  /** `pages[j]` does not continue the run that ends with `pages[j - 1]`. */
  predicate RunBreaksAt(pages: seq<nat>, j: nat) {
    0 < j < |pages| && pages[j] != pages[j - 1] + 1
  }

  /** In any file, the `n` bytes at file offset `at` are the stream bytes at `pos`. */
  ghost predicate MapsTo(pages: seq<nat>, ps: nat, pos: nat, at: nat, n: nat)
    requires 0 < ps
  {
    forall img: Image :: pos + n <= |Flat(img, ps, pages)|
      && FileBytes(img, ps, at, n) == Flat(img, ps, pages)[pos..pos + n]
  }

  datatype StreamPageMapper = StreamPageMapper(pages: seq<nat>, pageSize: nat, streamSize: nat) {

    ghost predicate Valid() {
      0 < pageSize && SizeFits(streamSize, pages, pageSize)
    }

    lemma PageInList(pos: nat)
      requires Valid() && streamSize != NIL_STREAM_SIZE && pos < streamSize
      ensures pos / pageSize < |pages|
    {
      CeilDivBounds(streamSize, pageSize);
      InList(pos, |pages|, pageSize);
    }

    /** Advances over consecutive pages, from the start of page `first + 1`, until `pos + max` is reached. */
    method FindRunEnd(pos: nat, first: nat, offset: nat, max: nat) returns (p: nat, ghost j: nat)
      requires Valid() && streamSize != NIL_STREAM_SIZE
      requires first < |pages| && offset < pageSize && pos == first * pageSize + offset
      requires pageSize - offset < max && pos + max <= streamSize
      ensures Consecutive(pages, first, j) && pos < p <= pos + max && p <= j * pageSize
      ensures p == pos + max || (p == j * pageSize && RunBreaksAt(pages, j))
    {
      p := pos + (pageSize - offset);
      j := first + 1;
      PeelOne(j, pageSize);
      var lastPtr := pages[first];
      while true
        invariant first < j && Consecutive(pages, first, j) && lastPtr == pages[j - 1]
        invariant pos < p <= pos + max && p <= j * pageSize
        invariant p < pos + max ==> p == j * pageSize
        decreases pos + max - p
      {
        var want := max - (p - pos);
        if p - pos == max {
          break;
        }
        DivModUnique(p, pageSize, j, 0);
        PageInList(p);
        if pages[p / pageSize] != lastPtr + 1 {
          break;
        }
        PeelOne(j + 1, pageSize);
        p := p + Min(want, pageSize);
        lastPtr := lastPtr + 1;
        j := j + 1;
      }
    }

    lemma RunMaps(pos: nat, first: nat, offset: nat, j: nat, n: nat)
      requires Valid() && Consecutive(pages, first, j)
      requires pos == first * pageSize + offset && pos + n <= j * pageSize
      ensures MapsTo(pages, pageSize, pos, pages[first] * pageSize + offset, n)
    {
      forall img: Image
        ensures pos + n <= |Flat(img, pageSize, pages)|
             && FileBytes(img, pageSize, pages[first] * pageSize + offset, n) == Flat(img, pageSize, pages)[pos..pos + n]
      {
        ConsecutiveBytes(img, pageSize, pages, first, offset, j, n);
      }
    }

    /**
     * The longest range of the file that holds the stream bytes at `pos`: it ends at the requested end, at the end
     * of the stream, or at the first page that is not numbered consecutively.
     */
    method Map(pos: nat, bytesWanted: nat) returns (r: Option<(nat, nat)>)
      requires Valid()
      ensures r.None? <==> streamSize == NIL_STREAM_SIZE || streamSize <= pos || bytesWanted == 0
      ensures r.Some? ==>
                var (at, n) := r.value;
                && 0 < n <= Min(bytesWanted, streamSize - pos)
                && MapsTo(pages, pageSize, pos, at, n)
                && (n == Min(bytesWanted, streamSize - pos)
                    || exists j :: pos + n == j * pageSize && RunBreaksAt(pages, j))
    {
      if streamSize == NIL_STREAM_SIZE || streamSize <= pos {
        return None;
      }
      var maxTransfer := Min(streamSize - pos, bytesWanted);
      if maxTransfer == 0 {
        return None;
      }
      var first, offset := pos / pageSize, pos % pageSize;
      PageInList(pos);
      var transfer := maxTransfer;
      ghost var j := first + 1;
      PeelOne(j, pageSize);
      if pageSize - offset < maxTransfer {
        var p;
        p, j := FindRunEnd(pos, first, offset, maxTransfer);
        transfer := p - pos;
      }
      RunMaps(pos, first, offset, j, transfer);
      return Some((pages[first] * pageSize + offset, transfer));
    }
  }

  /** The low 32 bits of a length, when less than that has been taken off. */
  lemma LowBits(len: nat, n: nat)
    requires n <= Low32(len)
    ensures n <= len && Low32(len - n) == Low32(len) - n
  {
  }

  /** Taking only the low 32 bits of a length is harmless for short requests, and where the stream ends before. */
  lemma LowWindow(all: seq<u8>, pos: nat, len: nat)
    ensures Window(all, pos, Low32(len)) == Window(all, pos, len) <==> len < U32_LIMIT || |all| <= pos + Low32(len)
  {
    var a, b := Window(all, pos, Low32(len)), Window(all, pos, len);
    if U32_LIMIT <= len && pos + Low32(len) < |all| {
      assert |a| < |b|;
    }
  }

  /** A request for exactly 2^32 bytes returns nothing, wherever it starts in the stream. */
  lemma HugeReadIsEmpty(all: seq<u8>, pos: nat)
    requires pos < |all|
    ensures Window(all, pos, Low32(U32_LIMIT)) == [] != Window(all, pos, U32_LIMIT)
  {
    LowWindow(all, pos, U32_LIMIT);
  }

  /** What the mapper found are the next bytes of the stream. */
  lemma MappedBytes(img: Image, ps: nat, size: nat, pages: seq<nat>, from: nat, pos: nat, at: nat, n: nat)
    requires 0 < ps && SizeFits(size, pages, ps) && size != NIL_STREAM_SIZE && from <= pos && pos + n <= size
    requires MapsTo(pages, ps, pos, at, n)
    ensures var all := Contents(img, ps, size, pages);
            |all| == size && all[from..pos] + FileBytes(img, ps, at, n) == all[from..pos + n]
  {
    SizeFitsBounds(img, size, pages, ps);
    var all, flat := Contents(img, ps, size, pages), Flat(img, ps, pages);
    assert FileBytes(img, ps, at, n) == flat[pos..pos + n] == all[pos..pos + n];
  }

  lemma StreamEnds(img: Image, ps: nat, size: nat, pages: seq<nat>)
    requires 0 < ps && SizeFits(size, pages, ps)
    ensures |Contents(img, ps, size, pages)| == if size == NIL_STREAM_SIZE then 0 else size
  {
    if size == NIL_STREAM_SIZE {
      assert pages == [];
    } else {
      SizeFitsBounds(img, size, pages, ps);
    }
  }

  lemma WindowIs(all: seq<u8>, pos: nat, len: nat, end: nat)
    requires pos <= end <= |all| && end <= pos + len && (end == |all| || end == pos + len)
    ensures Window(all, pos, len) == all[pos..end]
  {
  }

  lemma WindowPastEnd(all: seq<u8>, pos: nat, len: nat)
    requires |all| <= pos
    ensures Window(all, pos, len) == []
  {
  }

  /**
   * Reads up to `len` bytes of a stream at `streamPos`; returns them and the position after them. The mapper is asked
   * for the low 32 bits of the remaining length, so that a longer request can end early.
   */
  method ReadStreamCore(file: BlockFile, pageSize: nat, streamSize: nat, pages: seq<nat>, streamPos: nat, len: nat)
    returns (data: seq<u8>, newPos: nat)
    requires 0 < pageSize && SizeFits(streamSize, pages, pageSize)
    ensures var all := Contents(file.image, pageSize, streamSize, pages);
            && data == Window(all, streamPos, Low32(len)) && newPos == streamPos + |data|
            && (data == Window(all, streamPos, len) <==> len < U32_LIMIT || |all| <= streamPos + Low32(len))
  {
    hide *;
    var img := file.image;
    ghost var all, wanted := Contents(img, pageSize, streamSize, pages), Low32(len);
    StreamEnds(img, pageSize, streamSize, pages);
    LowWindow(all, streamPos, len);
    data, newPos := [], streamPos;
    if streamSize <= streamPos {
      WindowPastEnd(all, streamPos, wanted);
      return;
    }
    var mapper := StreamPageMapper(pages, pageSize, streamSize);
    assert mapper.Valid() by { MapperValid(mapper); }
    while |data| < len && newPos < streamSize
      invariant newPos == streamPos + |data| <= streamSize && |data| <= wanted
      invariant streamSize == NIL_STREAM_SIZE ==> data == []
      invariant streamSize != NIL_STREAM_SIZE ==> data == all[streamPos..newPos]
      decreases len - |data|
    {
      LowBits(len, |data|);
      var range := mapper.Map(newPos, Low32(len - |data|));
      if range.None? {
        break;
      }
      var (at, n) := range.value;
      MappedBytes(img, pageSize, streamSize, pages, streamPos, newPos, at, n);
      data := data + FileBytes(img, pageSize, at, n);
      newPos := newPos + n;
    }
    LowBits(len, |data|);
    if streamSize == NIL_STREAM_SIZE {
      WindowPastEnd(all, streamPos, wanted);
    } else {
      WindowIs(all, streamPos, wanted, newPos);
    }
  }

  lemma MapperValid(m: StreamPageMapper)
    requires 0 < m.pageSize && SizeFits(m.streamSize, m.pages, m.pageSize)
    ensures m.Valid()
  {
  }
}
