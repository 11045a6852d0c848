/** The file as the MSF code sees it: numbered pages, and the history of every single page write. */
module Paging {
  import opened Bytes
  import opened Arith

  /** The pages that have been stored in the file. */
  type Image = map<nat, seq<u8>>

  predicate IsPageSize(ps: nat) {
    ps == 512 || ps == 1024 || ps == 2048 || ps == 4096 || ps == 8192 || ps == 16384 || ps == 32768 || ps == 65536
  }

  predicate HasPage(img: Image, ps: nat, p: nat) {
    p in img && |img[p]| == ps
  }

  predicate HasPages(img: Image, ps: nat, pages: seq<nat>) {
    forall i :: 0 <= i < |pages| ==> HasPage(img, ps, pages[i])
  }

  /** The bytes of page `p`; zeros when the file does not hold it. */
  function PageOf(img: Image, ps: nat, p: nat): (r: seq<u8>)
    ensures |r| == ps
  {
    if HasPage(img, ps, p) then img[p] else Zeros(ps)
  }

  /** The bytes of a list of pages, in list order. */
  function Flat(img: Image, ps: nat, pages: seq<nat>): seq<u8> {
    if pages == [] then [] else PageOf(img, ps, pages[0]) + Flat(img, ps, pages[1..])
  }

  lemma {:induction false} FlatLength(img: Image, ps: nat, pages: seq<nat>)
    ensures |Flat(img, ps, pages)| == |pages| * ps
  {
    if pages != [] {
      FlatLength(img, ps, pages[1..]);
      assert |pages| * ps == ps + |pages[1..]| * ps;
    }
  }

  /** The `n` consecutive page numbers starting at `first`. */
  function PageRun(first: nat, n: nat): (r: seq<nat>)
    ensures |r| == n
    ensures forall i :: 0 <= i < n ==> r[i] == first + i
  {
    seq(n, i requires 0 <= i < n => first + i)
  }

  lemma {:induction false} FlatConcat(img: Image, ps: nat, a: seq<nat>, b: seq<nat>)
    ensures Flat(img, ps, a + b) == Flat(img, ps, a) + Flat(img, ps, b)
  {
    if a == [] {
      assert a + b == b;
    } else {
      assert (a + b)[1..] == a[1..] + b;
      FlatConcat(img, ps, a[1..], b);
    }
  }

  lemma FlatOne(img: Image, ps: nat, p: nat)
    ensures Flat(img, ps, [p]) == PageOf(img, ps, p)
  {
    assert [p][1..] == [];
    assert Flat(img, ps, []) == [];
  }

  lemma FlatSnoc(img: Image, ps: nat, a: seq<nat>, p: nat)
    ensures Flat(img, ps, a + [p]) == Flat(img, ps, a) + PageOf(img, ps, p)
  {
    FlatConcat(img, ps, a, [p]);
    FlatOne(img, ps, p);
  }

  lemma {:induction false} FlatSame(a: Image, b: Image, ps: nat, pages: seq<nat>)
    requires forall i :: 0 <= i < |pages| ==> PageOf(a, ps, pages[i]) == PageOf(b, ps, pages[i])
    ensures Flat(a, ps, pages) == Flat(b, ps, pages)
  {
    if pages != [] {
      forall i | 0 <= i < |pages[1..]|
        ensures PageOf(a, ps, pages[1..][i]) == PageOf(b, ps, pages[1..][i])
      {
        assert pages[1..][i] == pages[i + 1];
      }
      FlatSame(a, b, ps, pages[1..]);
    }
  }

  lemma FlatSplit(img: Image, ps: nat, pages: seq<nat>, i: nat)
    requires i < |pages|
    ensures |Flat(img, ps, pages[..i])| == i * ps
    ensures Flat(img, ps, pages) == Flat(img, ps, pages[..i]) + PageOf(img, ps, pages[i]) + Flat(img, ps, pages[i + 1..])
  {
    FlatLength(img, ps, pages[..i]);
    assert pages == pages[..i] + ([pages[i]] + pages[i + 1..]);
    FlatConcat(img, ps, pages[..i], [pages[i]] + pages[i + 1..]);
    FlatConcat(img, ps, [pages[i]], pages[i + 1..]);
    FlatOne(img, ps, pages[i]);
  }

  /** One byte of the flattened pages. */
  lemma FlatByte(img: Image, ps: nat, pages: seq<nat>, i: nat, o: nat)
    requires i < |pages| && o < ps
    ensures i * ps + o < |Flat(img, ps, pages)|
    ensures Flat(img, ps, pages)[i * ps + o] == PageOf(img, ps, pages[i])[o]
  {
    FlatSplit(img, ps, pages, i);
  }

  lemma MiddleSlice(a: seq<u8>, b: seq<u8>, c: seq<u8>)
    ensures (a + (b + c))[|a|..|a| + |b|] == b
  {
  }

  // ---------------------------------------------------------------- write histories

  /** The two images agree on every page but the `n` pages from `first`. */
  ghost predicate SameOutside(a: Image, b: Image, first: nat, n: nat) {
    forall p: nat :: p < first || first + n <= p ==> ((p in a) == (p in b)) && (p in a ==> a[p] == b[p])
  }

  /** The two images agree on every page in `keep`. */
  ghost predicate SameOn(a: Image, b: Image, keep: iset<nat>) {
    forall p :: p in keep ==> ((p in a) == (p in b)) && (p in a ==> a[p] == b[p])
  }

  /** `h1` continues the write history `h0`, and none of the new writes touched a page in `keep`. */
  ghost predicate Extends(h0: seq<Image>, h1: seq<Image>, keep: iset<nat>) {
    && 0 < |h0| <= |h1|
    && (forall k :: 0 <= k < |h0| ==> h1[k] == h0[k])
    && forall k :: |h0| <= k < |h1| ==> SameOn(h0[|h0| - 1], h1[k], keep)
  }

  lemma ExtendsSelf(h: seq<Image>, keep: iset<nat>)
    requires 0 < |h|
    ensures Extends(h, h, keep)
  {
  }

  lemma ExtendsTrans(h0: seq<Image>, h1: seq<Image>, h2: seq<Image>, keep: iset<nat>)
    requires Extends(h0, h1, keep) && Extends(h1, h2, keep)
    ensures Extends(h0, h2, keep)
  {
    ExtendsLast(h0, h1, keep);
    forall k | |h0| <= k < |h2| ensures SameOn(h0[|h0| - 1], h2[k], keep) {
      if k < |h1| {
        assert h2[k] == h1[k];
      }
    }
  }

  lemma ExtendsLast(h0: seq<Image>, h1: seq<Image>, keep: iset<nat>)
    requires Extends(h0, h1, keep)
    ensures SameOn(h0[|h0| - 1], h1[|h1| - 1], keep)
  {
    if |h1| == |h0| {
      assert h1[|h1| - 1] == h0[|h0| - 1];
    }
  }

  lemma ExtendsWrite(h0: seq<Image>, h1: seq<Image>, img: Image, p: nat, data: seq<u8>, keep: iset<nat>)
    requires Extends(h0, h1, keep) && p !in keep && img == h1[|h1| - 1]
    ensures Extends(h0, h1 + [img[p := data]], keep)
  {
    var h2 := h1 + [img[p := data]];
    assert SameOn(img, img[p := data], keep);
    assert Extends(h1, h2, keep);
    ExtendsTrans(h0, h1, h2, keep);
  }

  lemma ExtendsWeaken(h0: seq<Image>, h1: seq<Image>, keep: iset<nat>, less: iset<nat>)
    requires Extends(h0, h1, keep) && forall p :: p in less ==> p in keep
    ensures Extends(h0, h1, less)
  {
    forall k | |h0| <= k < |h1| ensures SameOn(h0[|h0| - 1], h1[k], less) {
      assert SameOn(h0[|h0| - 1], h1[k], keep);
    }
  }

  lemma SameFlat(a: Image, b: Image, keep: iset<nat>, ps: nat, pages: seq<nat>)
    requires SameOn(a, b, keep)
    requires forall i :: 0 <= i < |pages| ==> pages[i] in keep
    ensures Flat(a, ps, pages) == Flat(b, ps, pages)
    ensures HasPages(a, ps, pages) ==> HasPages(b, ps, pages)
  {
    FlatSame(a, b, ps, pages);
  }

  /** `data` is exactly `n` pages long. */
  predicate IsWhole(data: seq<u8>, n: nat, ps: nat) {
    if n == 0 then data == [] else ps <= |data| && IsWhole(data[ps..], n - 1, ps)
  }

  lemma {:induction false} WholeLength(data: seq<u8>, n: nat, ps: nat)
    ensures IsWhole(data, n, ps) <==> |data| == n * ps
  {
    if n > 0 {
      PeelOne(n, ps);
      if ps <= |data| {
        WholeLength(data[ps..], n - 1, ps);
      }
    }
  }

  lemma RunStep(img: Image, ps: nat, first: nat, i: nat, data: seq<u8>, rest: seq<u8>)
    requires ps <= |rest|
    requires Flat(img, ps, PageRun(first, i)) + rest == data && HasPages(img, ps, PageRun(first, i))
    ensures var img' := img[first + i := rest[..ps]];
            Flat(img', ps, PageRun(first, i + 1)) + rest[ps..] == data && HasPages(img', ps, PageRun(first, i + 1))
  {
    var img' := img[first + i := rest[..ps]];
    var done := PageRun(first, i);
    FlatSame(img, img', ps, done);
    FlatSnoc(img', ps, done, first + i);
    assert done + [first + i] == PageRun(first, i + 1);
    assert rest == rest[..ps] + rest[ps..];
  }

  /** A file that is read and written in whole pages. */
  class BlockFile {
    var image: Image
    ghost var history: seq<Image>

    ghost predicate Valid()
      reads this
    {
      |history| > 0 && history[|history| - 1] == image
    }

    constructor (contents: Image)
      ensures Valid() && image == contents && history == [contents]
    {
      image := contents;
      history := [contents];
    }

    /** One page-sized write at the start of page `p`. */
    method WritePage(p: nat, data: seq<u8>)
      requires Valid()
      modifies this
      ensures Valid()
      ensures image == old(image)[p := data]
      ensures history == old(history) + [image]
    {
      image := image[p := data];
      history := history + [image];
    }

    /** One write that covers `n` consecutive pages. It reaches the disk page by page, in order. */
    method WriteRun(first: nat, n: nat, ps: nat, data: seq<u8>, ghost keep: iset<nat>)
      requires Valid()
      requires IsWhole(data, n, ps)
      requires forall p :: p in keep ==> p < first || first + n <= p
      modifies this
      ensures Valid()
      ensures HasPages(image, ps, PageRun(first, n)) && Flat(image, ps, PageRun(first, n)) == data
      ensures SameOutside(old(image), image, first, n)
      ensures Extends(old(history), history, keep)
    {
      var i, rest := 0, data;
      ghost var h0 := history;
      while i < n
        invariant 0 <= i <= n && IsWhole(rest, n - i, ps)
        invariant Valid()
        invariant HasPages(image, ps, PageRun(first, i)) && Flat(image, ps, PageRun(first, i)) + rest == data
        invariant SameOutside(old(image), image, first, n)
        invariant Extends(h0, history, keep)
      {
        RunStep(image, ps, first, i, data, rest);
        var chunk := rest[..ps];
        ExtendsWrite(h0, history, image, first + i, chunk, keep);
        ghost var h1 := history + [image[first + i := chunk]];
        WritePage(first + i, chunk);
        assert history == h1;
        i, rest := i + 1, rest[ps..];
      }
      assert rest == [];
    }
  }

  lemma LastImage(file: BlockFile)
    requires file.Valid()
    ensures 0 < |file.history| && file.history[|file.history| - 1] == file.image
  {
  }
}
