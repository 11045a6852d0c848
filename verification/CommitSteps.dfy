/** The steps of a commit before page 0 is written (msf/src/commit.rs). */
module CommitSteps {
  import opened Bytes
  import opened Arith
  import opened Paging
  import opened Pages
  import opened Read
  import opened StreamWriters
  import opened Directory
  import opened Codec
  import opened Usage

  // ---------------------------------------------------------------- directory and map pages

  /** Some pages have been filled with the start of the bytes; when all are written, zeros pad the last page. */
  ghost predicate ChunksWritten(img0: Image, img: Image, ps: nat, pages: seq<nat>, bytes: seq<u8>, left: seq<u8>) {
    && HasPages(img, ps, pages)
    && SameOffList(img0, img, pages)
    && exists n :: Flat(img, ps, pages) + left == bytes + Zeros(n) && (left != [] ==> n == 0)
  }

  lemma NoChunks(img: Image, ps: nat, bytes: seq<u8>)
    ensures ChunksWritten(img, img, ps, [], bytes, bytes)
  {
    assert Flat(img, ps, []) + bytes == bytes + Zeros(0);
  }

  lemma ConcatNothing(pages: seq<nat>)
    ensures pages + [] == pages
  {
  }

  lemma ChunkStep(img0: Image, img: Image, ps: nat, pages: seq<nat>, bytes: seq<u8>, left: seq<u8>, page: nat)
    requires 0 < ps && left != [] && page !in pages
    requires ChunksWritten(img0, img, ps, pages, bytes, left)
    ensures var n := Min(ps, |left|);
            ChunksWritten(img0, img[page := left[..n] + Zeros(ps - n)], ps, pages + [page], bytes, left[n..])
  {
    var n := Min(ps, |left|);
    var data, tail := left[..n] + Zeros(ps - n), left[n..];
    var img' := img[page := data];
    FlatSame(img, img', ps, pages);
    FlatSnoc(img', ps, pages, page);
    assert bytes + Zeros(0) == bytes;
    ChunkBytes(Flat(img, ps, pages), left, n, ps);
    OffListWrite(img0, img, pages, page, data);
  }

  lemma ChunkBytes(flat: seq<u8>, left: seq<u8>, n: nat, ps: nat)
    requires n == Min(ps, |left|)
    ensures flat + (left[..n] + Zeros(ps - n)) + left[n..] == flat + left + Zeros(ps - n)
    ensures left[n..] != [] ==> n == ps
  {
    if n == ps {
      assert left[..n] + left[n..] == left;
      assert Zeros(0) == [];
    } else {
      assert left[n..] == [] && left[..n] == left;
    }
  }

  lemma OffListWrite(img0: Image, img: Image, pages: seq<nat>, page: nat, data: seq<u8>)
    requires SameOffList(img0, img, pages)
    ensures SameOffList(img0, img[page := data], pages + [page])
  {
    var img' := img[page := data];
    forall p: nat | p !in pages + [page] ensures ((p in img0) == (p in img')) && (p in img0 ==> img0[p] == img'[p]) {
      assert p !in pages && p != page;
    }
  }

  lemma AllChunks(img0: Image, img: Image, ps: nat, pages: seq<nat>, bytes: seq<u8>)
    requires 0 < ps && ChunksWritten(img0, img, ps, pages, bytes, [])
    ensures HasPages(img, ps, pages) && SameOffList(img0, img, pages)
    ensures exists n :: Flat(img, ps, pages) == bytes + Zeros(n)
  {
    var n :| Flat(img, ps, pages) + [] == bytes + Zeros(n);
    assert Flat(img, ps, pages) + [] == Flat(img, ps, pages);
  }

  /** Stores `bytes` in newly allocated pages, one at a time; the last one is padded with zeros. */
  method WriteChunks(file: BlockFile, alloc: PageAllocator, bytes: seq<u8>,
                     ghost before: seq<nat>, ghost rest: set<nat>, ghost prot: iset<nat>)
    returns (pages: seq<nat>)
    requires alloc.Valid() && file.Valid() && Owned(alloc.State(), alloc.pageSize, before, rest, prot)
    modifies file, alloc
    ensures alloc.Valid() && file.Valid() && Owned(alloc.State(), alloc.pageSize, before + pages, rest, prot)
    ensures |pages| == CeilDiv(|bytes|, alloc.pageSize) && HasPages(file.image, alloc.pageSize, pages)
    ensures exists n :: Flat(file.image, alloc.pageSize, pages) == bytes + Zeros(n)
    ensures SameOffList(old(file.image), file.image, pages)
    ensures Extends(old(file.history), file.history, KeepSet(rest, prot))
    ensures 2 < alloc.pageSize && UsedExactly(old(alloc.State()), alloc.State(), alloc.pageSize, |pages|)
  {
    hide *;
    ghost var img0, ps, h0, a0 := file.image, alloc.pageSize, file.history, alloc.State();
    pages := [];
    var left := bytes;
    ReadyToWrite(file, alloc);
    NoChunks(img0, ps, bytes);
    ConcatNothing(before);
    ChunkCount(|bytes|, 0, ps);
    ExtendsSelf(h0, KeepSet(rest, prot));
    UsedNone(a0, ps);
    while left != []
      invariant alloc.Valid() && file.Valid() && Owned(alloc.State(), ps, before + pages, rest, prot)
      invariant ChunksWritten(img0, file.image, ps, pages, bytes, left)
      invariant |pages| + CeilDiv(|left|, ps) == CeilDiv(|bytes|, ps)
      invariant Extends(h0, file.history, KeepSet(rest, prot))
      invariant UsedExactly(a0, alloc.State(), ps, |pages|)
      decreases |left|
    {
      ghost var img, h, a := file.image, file.history, alloc.State();
      var n := Min(alloc.pageSize, |left|);
      ChunkCount(|left|, n, ps);
      var page := AllocAndWrite(file, alloc, left[..n] + Zeros(alloc.pageSize - n), before + pages, rest, prot);
      ExtendsTrans(h0, h, file.history, KeepSet(rest, prot));
      UsedExactlyMore(a0, a, alloc.State(), ps, |pages|, 1);
      ConcatAssoc(before, pages, [page]);
      ChunkStep(img0, img, ps, pages, bytes, left, page);
      pages, left := pages + [page], left[n..];
    }
    AllChunks(img0, file.image, ps, pages, bytes);
  }

  lemma ReadyToWrite(file: BlockFile, alloc: PageAllocator)
    requires file.Valid() && alloc.Valid()
    ensures 0 < |file.history| && 512 <= alloc.pageSize
  {
  }

  /** Allocates one page and fills it. */
  method AllocAndWrite(file: BlockFile, alloc: PageAllocator, data: seq<u8>,
                       ghost before: seq<nat>, ghost rest: set<nat>, ghost prot: iset<nat>)
    returns (page: nat)
    requires alloc.Valid() && file.Valid() && Owned(alloc.State(), alloc.pageSize, before, rest, prot)
    requires |data| == alloc.pageSize
    modifies file, alloc
    ensures alloc.Valid() && file.Valid() && Owned(alloc.State(), alloc.pageSize, before + [page], rest, prot)
    ensures page !in before && file.image == old(file.image)[page := data]
    ensures Extends(old(file.history), file.history, KeepSet(rest, prot))
    ensures UsedExactly(old(alloc.State()), alloc.State(), alloc.pageSize, 1)
  {
    ghost var a0 := alloc.State();
    page := alloc.AllocPage();
    AllocatedSized(a0, alloc.State(), alloc.pageSize, page, 1);
    AllocatedKeepsOwned(a0, alloc.State(), alloc.pageSize, page, 1, before, rest, prot);
    assert PageRun(page, 1) == [page];
    ExtendsWrite(file.history, file.history, file.image, page, data, KeepSet(rest, prot));
    file.WritePage(page, data);
  }

  lemma ChunkCount(left: nat, n: nat, ps: nat)
    requires 0 < ps && n == (if left == 0 then 0 else n) && (n == 0 || n == Min(ps, left))
    ensures n <= left && n <= ps && (0 < left ==> 0 < Min(ps, left))
    ensures 0 < n ==> CeilDiv(left, ps) == 1 + CeilDiv(left - n, ps)
    ensures CeilDiv(0, ps) == 0
  {
    CeilDivBounds(0, ps);
    if 0 < n {
      var k := CeilDiv(left - n, ps);
      CeilDivBounds(left - n, ps);
      PeelOne(k + 1, ps);
      if k > 0 {
        PeelOne(k, ps);
      }
      CeilDivIs(left, ps, k + 1);
    }
  }

  // ---------------------------------------------------------------- the Free Page Map

  lemma FpmTail(fpm: seq<bool>, j: nat)
    requires |fpm| <= 8 * j
    ensures FpmByte(fpm, j) == 0xff
  {
    PackOnes(FpmBits(fpm, j));
    assert Pow2(8) == 2 * 2 * 2 * 2 * Pow2(4) == 0x100;
  }

  lemma {:induction false} PackOnes(bits: seq<bool>)
    requires forall i :: 0 <= i < |bits| ==> bits[i]
    ensures Pack(bits) + 1 == Pow2(|bits|)
  {
    if bits != [] {
      PackOnes(bits[1..]);
    }
  }

  function Ones(n: nat): (r: seq<u8>)
    ensures |r| == n && forall i :: 0 <= i < n ==> r[i] == 0xff
  {
    seq(n, _ => 0xff)
  }

  /** The chunk for one interval: the next bytes of the bit vector, filled up with free bits. */
  lemma FpmChunk(fpm: seq<bool>, at: nat, ps: nat, left: seq<u8>, n: nat)
    requires n == if ps < |left| then ps else |left|
    requires left == FpmBytes(fpm, at + |left|)[at..] && |fpm| <= 8 * (at + |left|)
    ensures && FpmBytes(fpm, at) + (left[..n] + Ones(ps - n)) == FpmBytes(fpm, at + ps)
            && |fpm| <= 8 * (at + ps + |left[n..]|)
            && left[n..] == FpmBytes(fpm, at + ps + |left[n..]|)[at + ps..]
  {
    hide FpmByte;
    var data := left[..n] + Ones(ps - n);
    forall k | 0 <= k < ps ensures data[k] == FpmByte(fpm, at + k) {
      if n <= k {
        FpmTail(fpm, at + k);
      } else {
        assert left[k] == FpmBytes(fpm, at + |left|)[at + k];
      }
    }
    var tail := left[n..];
    forall k | 0 <= k < |tail| ensures tail[k] == FpmByte(fpm, at + ps + k) {
      assert tail[k] == left[n + k] == FpmBytes(fpm, at + |left|)[at + n + k];
    }
  }

  /** The two images agree outside the pages of one FPM. */
  ghost predicate SameOffFpm(a: Image, b: Image, ps: nat, number: nat)
    requires 0 < ps
  {
    forall p: nat :: p % ps != number ==> ((p in a) == (p in b)) && (p in a ==> a[p] == b[p])
  }

  /** Writes the FPM to the pages of FPM number `number`: one chunk for each interval. */
  method WriteFpm(file: BlockFile, fpm: seq<bool>, number: nat, ps: nat, ghost keep: iset<nat>)
    requires file.Valid() && 512 <= ps && number < ps
    requires forall p :: p in keep ==> p % ps != number
    modifies file
    ensures file.Valid()
    ensures var n := CeilDiv(|fpm|, ps);
            && HasPages(file.image, ps, FpmPages(number, ps, n))
            && Flat(file.image, ps, FpmPages(number, ps, n)) == FpmBytes(fpm, n * ps)
    ensures SameOffFpm(old(file.image), file.image, ps, number)
    ensures Extends(old(file.history), file.history, keep)
  {
    hide *;
    FpmStart(file.image, fpm, number, ps);
    LastImage(file);
    ExtendsSelf(file.history, keep);
    var numIntervals := CeilDiv(|fpm|, ps);
    var left := FpmBytes(fpm, 4 * CeilDiv(|fpm|, 32));
    ghost var at: nat := 0;
    for interval := 0 to numIntervals
      invariant file.Valid() && at == interval * ps
      invariant left == FpmBytes(fpm, at + |left|)[at..] && |fpm| <= 8 * (at + |left|)
      invariant HasPages(file.image, ps, FpmPages(number, ps, interval))
      invariant Flat(file.image, ps, FpmPages(number, ps, interval)) == FpmBytes(fpm, at)
      invariant SameOffFpm(old(file.image), file.image, ps, number)
      invariant Extends(old(file.history), file.history, keep)
    {
      var n := if ps < |left| then ps else |left|;
      var data := left[..n] + Ones(ps - n);
      FpmChunk(fpm, at, ps, left, n);
      FpmPageStep(file.image, ps, number, interval, data);
      LastImage(file);
      ExtendsWrite(old(file.history), file.history, file.image, interval * ps + number, data, keep);
      SameOffStep(old(file.image), file.image, ps, number, interval * ps + number, data);
      file.WritePage(interval * ps + number, data);
      left := left[n..];
      PeelOne(interval + 1, ps);
      at := at + ps;
    }
  }

  lemma FpmStart(img: Image, fpm: seq<bool>, number: nat, ps: nat)
    requires 512 <= ps && number < ps
    ensures HasPages(img, ps, FpmPages(number, ps, 0)) && SameOffFpm(img, img, ps, number)
    ensures Flat(img, ps, FpmPages(number, ps, 0)) == FpmBytes(fpm, 0)
    ensures |fpm| <= 8 * (4 * CeilDiv(|fpm|, 32))
  {
    CeilDivBounds(|fpm|, 32);
  }

  lemma SameOffStep(img0: Image, img: Image, ps: nat, number: nat, page: nat, data: seq<u8>)
    requires 0 < ps && SameOffFpm(img0, img, ps, number) && page % ps == number
    ensures SameOffFpm(img0, img[page := data], ps, number)
  {
  }

  lemma FpmPageStep(img: Image, ps: nat, number: nat, interval: nat, data: seq<u8>)
    requires number < ps && |data| == ps && HasPages(img, ps, FpmPages(number, ps, interval))
    ensures var img' := img[interval * ps + number := data];
            && (interval * ps + number) % ps == number
            && HasPages(img', ps, FpmPages(number, ps, interval + 1))
            && Flat(img', ps, FpmPages(number, ps, interval + 1)) == Flat(img, ps, FpmPages(number, ps, interval)) + data
  {
    var page := interval * ps + number;
    var img' := img[page := data];
    var done := FpmPages(number, ps, interval);
    DivModUnique(page, ps, interval, number);
    forall k | 0 <= k < interval ensures done[k] != page {
      MulMono(k + 1, interval, ps);
      PeelOne(k + 1, ps);
    }
    FlatSame(img, img', ps, done);
    FlatSnoc(img', ps, done, page);
    assert done + [page] == FpmPages(number, ps, interval + 1);
  }
}
