/** Writing and reading the streams of an MSFZ file (msfz/src/writer.rs, msfz/src/reader.rs). */
module MsfzStreams {
  import opened Bytes
  import opened MsfzFormat

  // ---------------------------------------------------------------- compression

  /** A compression algorithm: decompressing undoes compressing. */
  datatype Compression = Compression(compress: seq<u8> -> seq<u8>, decompress: (seq<u8>, nat) -> Option<seq<u8>>)

  /** The algorithms by their codes. A code that is not known is an error. */
  type Algorithms = nat -> Option<Compression>

  const COMPRESSION_NONE: nat := 0

  ghost predicate Inverse(codecs: Algorithms) {
    forall code, data :: codecs(code).Some? ==>
      codecs(code).value.decompress(codecs(code).value.compress(data), |data|) == Some(data)
  }

  predicate IsAlgorithm(codecs: Algorithms, code: nat) {
    code != COMPRESSION_NONE && code < U32_LIMIT && codecs(code).Some?
  }

  function CompressWith(codecs: Algorithms, code: nat, data: seq<u8>): seq<u8> {
    if IsAlgorithm(codecs, code) then codecs(code).value.compress(data) else data
  }

  function DecompressWith(codecs: Algorithms, code: nat, data: seq<u8>, n: nat): Option<seq<u8>> {
    if code == COMPRESSION_NONE then Some(data) else
    var codec :- codecs(code);
    codec.decompress(data, n)
  }

  lemma DecompressBack(codecs: Algorithms, code: nat, data: seq<u8>)
    requires Inverse(codecs) && (code == COMPRESSION_NONE || IsAlgorithm(codecs, code))
    ensures DecompressWith(codecs, code, CompressWith(codecs, code, data), |data|) == Some(data)
  {
  }

  datatype ChunkEntry = ChunkEntry(fileOffset: nat, compression: nat, compressedSize: nat, uncompressedSize: nat)

  // ---------------------------------------------------------------- reading

  /** What a reader works on: the file, its chunk table, and the known algorithms. */
  datatype Source = Source(file: seq<u8>, chunks: seq<ChunkEntry>, codecs: Algorithms)

  function ChunkSizes(chunks: seq<ChunkEntry>): (r: seq<nat>)
    ensures |r| == |chunks| && forall i :: 0 <= i < |chunks| ==> r[i] == chunks[i].uncompressedSize
  {
    seq(|chunks|, i requires 0 <= i < |chunks| => chunks[i].uncompressedSize)
  }

  function Slice(b: seq<u8>, at: nat, n: nat): (r: Option<seq<u8>>)
    ensures r.Some? ==> |r.value| == n
  {
    if at + n <= |b| then Some(b[at..at + n]) else None
  }

  /** Loads and decompresses a chunk. */
  function ChunkData(src: Source, chunk: nat): Option<seq<u8>> {
    if |src.chunks| <= chunk then None else
    var entry := src.chunks[chunk];
    var data :- Slice(src.file, entry.fileOffset, entry.compressedSize);
    DecompressWith(src.codecs, entry.compression, data, entry.uncompressedSize)
  }

  /** `n` bytes of a fragment, from offset `at` within the fragment on. */
  function FragmentPart(src: Source, l: Location, at: nat, n: nat): (r: Option<seq<u8>>)
    ensures r.Some? ==> |r.value| == n
  {
    match l
    case Compressed(chunk, offset) =>
      var data :- ChunkData(src, chunk);
      Slice(data, offset + at, n)
    case Uncompressed(fileOffset) => Slice(src.file, fileOffset + at, n)
  }

  function FragmentBytes(src: Source, f: Fragment): (r: Option<seq<u8>>)
    ensures r.Some? ==> |r.value| == f.size
  {
    FragmentPart(src, f.location, 0, f.size)
  }

  /** The bytes of a stream: those of its fragments, in order. */
  function StreamBytes(src: Source, fs: seq<Fragment>): Option<seq<u8>> {
    if fs == [] then Some([]) else
    var init :- StreamBytes(src, fs[..|fs| - 1]);
    var last :- FragmentBytes(src, fs[|fs| - 1]);
    Some(init + last)
  }

  function TotalSize(fs: seq<Fragment>): nat {
    if fs == [] then 0 else TotalSize(fs[..|fs| - 1]) + fs[|fs| - 1].size
  }

  lemma {:induction false} StreamBytesLength(src: Source, fs: seq<Fragment>)
    ensures StreamBytes(src, fs).Some? ==> |StreamBytes(src, fs).value| == TotalSize(fs)
  {
    if fs != [] {
      StreamBytesLength(src, fs[..|fs| - 1]);
    }
  }

  lemma {:induction false} StreamBytesFail(src: Source, fs: seq<Fragment>, k: nat)
    requires k <= |fs| && StreamBytes(src, fs[..k]) == None
    ensures StreamBytes(src, fs) == None
    decreases |fs| - k
  {
    if k == |fs| {
      assert fs[..k] == fs;
    } else {
      assert fs[..k + 1][..k] == fs[..k];
      StreamBytesFail(src, fs, k + 1);
    }
  }

  /** A stream in a single compressed fragment is read as a slice of its chunk, without adding up any sizes. */
  predicate InOneChunk(fs: seq<Fragment>) {
    |fs| == 1 && fs[0].location.Compressed?
  }

  lemma {:induction false} BytesOfOne(src: Source, fs: seq<Fragment>)
    requires |fs| == 1
    ensures StreamBytes(src, fs) == FragmentBytes(src, fs[0])
  {
    assert fs[..0] == [];
    assert FragmentBytes(src, fs[0]).Some? ==> [] + FragmentBytes(src, fs[0]).value == FragmentBytes(src, fs[0]).value;
  }

  /** One more fragment: its size, and what its bytes mean for the whole stream. */
  lemma OneMore(src: Source, fs: seq<Fragment>, k: nat)
    requires k < |fs|
    ensures TotalSize(fs[..k + 1]) == TotalSize(fs[..k]) + fs[k].size
    ensures FragmentBytes(src, fs[k]) == None ==> StreamBytes(src, fs) == None
    ensures StreamBytes(src, fs[..k]).Some? && FragmentBytes(src, fs[k]).Some? ==>
              StreamBytes(src, fs[..k + 1]) == Some(StreamBytes(src, fs[..k]).value + FragmentBytes(src, fs[k]).value)
  {
    assert fs[..k + 1][..k] == fs[..k];
    if FragmentBytes(src, fs[k]) == None {
      StreamBytesFail(src, fs, k + 1);
    }
  }

  lemma {:induction false} TotalGrows(fs: seq<Fragment>, k: nat)
    requires k <= |fs|
    ensures TotalSize(fs[..k]) <= TotalSize(fs)
    decreases |fs|
  {
    if k == |fs| {
      assert fs[..k] == fs;
    } else {
      assert fs[..|fs| - 1][..k] == fs[..k];
      TotalGrows(fs[..|fs| - 1], k);
    }
  }

  lemma LowSum(a: nat, n: nat)
    ensures Low32(Low32(a) + n) == Low32(a + n)
  {
  }

  lemma Ends(src: Source, fs: seq<Fragment>)
    ensures fs[..|fs|] == fs && TotalSize(fs[..0]) == 0 && StreamBytes(src, fs[..0]) == Some([])
    ensures Low32(0) == 0
  {
  }

  /**
   * Reads a whole stream; `None` stands for an error and for a panic. The sizes are added up in 32 bits: where the sum
   * overflows, the original panics, either there or when a fragment does not fit into what is left of the buffer. So
   * the stream is returned exactly if it has less than 2^32 bytes or lies in a single chunk.
   */
  method ReadStream(src: Source, fs: seq<Fragment>) returns (r: Option<seq<u8>>)
    ensures r == if InOneChunk(fs) || TotalSize(fs) < U32_LIMIT then StreamBytes(src, fs) else None
    ensures r == StreamBytes(src, fs) <==> InOneChunk(fs) || TotalSize(fs) < U32_LIMIT || StreamBytes(src, fs) == None
  {
    hide StreamBytes;
    hide TotalSize;
    hide FragmentBytes;
    hide ChunkData;
    Ends(src, fs);
    if fs == [] {
      return Some([]);
    }
    if |fs| == 1 && fs[0].location.Compressed? {
      BytesOfOne(src, fs);
      r := ReadOneChunk(src, fs[0]);
      return;
    }
    var total: nat := 0;
    for k := 0 to |fs|
      invariant total == Low32(TotalSize(fs[..k]))
    {
      OneMore(src, fs, k);
      LowSum(TotalSize(fs[..k]), fs[k].size);
      total := Low32(total + fs[k].size);
    }
    assert total == Low32(TotalSize(fs));
    var out, left: nat := [], total;
    for k := 0 to |fs|
      invariant StreamBytes(src, fs[..k]) == Some(out) && left + TotalSize(fs[..k]) == total
    {
      OneMore(src, fs, k);
      TotalGrows(fs, k + 1);
      if left < fs[k].size {
        return None;
      }
      left := left - fs[k].size;
      var part := FragmentBytes(src, fs[k]);
      if part.None? {
        return None;
      }
      out := out + part.value;
    }
    assert StreamBytes(src, fs) == Some(out);
    assert left + TotalSize(fs) == total;
    r := Some(out);
  }

  method ReadOneChunk(src: Source, f: Fragment) returns (r: Option<seq<u8>>)
    requires f.location.Compressed?
    ensures r == FragmentBytes(src, f)
  {
    var data := ChunkData(src, f.location.chunk);
    if data.None? || |data.value| < f.location.offset + f.size {
      return None;
    }
    r := Some(data.value[f.location.offset..f.location.offset + f.size]);
  }

  /** A part of a fragment is a part of its bytes. */
  lemma PartOfFragment(src: Source, f: Fragment, at: nat, n: nat)
    requires FragmentBytes(src, f).Some? && at + n <= f.size
    ensures FragmentPart(src, f.location, at, n) == Some(FragmentBytes(src, f).value[at..at + n])
  {
    match f.location
    case Compressed(chunk, offset) => SliceInside(ChunkData(src, chunk).value, offset, f.size, at, n);
    case Uncompressed(fileOffset) => SliceInside(src.file, fileOffset, f.size, at, n);
  }

  lemma ConcatEnd(a: seq<u8>, b: seq<u8>)
    ensures (a + b)[|a|..|a| + |b|] == b
  {
  }

  /** Where the bytes of fragment `k` are within the stream. */
  lemma {:induction false} AtFragment(src: Source, fs: seq<Fragment>, k: nat)
    requires StreamBytes(src, fs).Some? && k < |fs|
    ensures var all, p := StreamBytes(src, fs).value, TotalSize(fs[..k]);
            && p + fs[k].size <= |all| && FragmentBytes(src, fs[k]) == Some(all[p..p + fs[k].size])
            && TotalSize(fs[..k + 1]) == p + fs[k].size
  {
    hide *;
    var n := |fs| - 1;
    StreamBytesLength(src, fs[..n]);
    BytesOneMore(src, fs);
    assert fs[..k + 1][..k] == fs[..k];
    if k == n {
      assert fs[..k + 1] == fs;
      ConcatEnd(StreamBytes(src, fs[..n]).value, FragmentBytes(src, fs[n]).value);
    } else {
      AtFragment(src, fs[..n], k);
      var p := TotalSize(fs[..n][..k]);
      SliceOfConcat(StreamBytes(src, fs[..n]).value, FragmentBytes(src, fs[n]).value, p, p + fs[k].size);
      assert fs[..n][..k] == fs[..k] && fs[..n][..k + 1] == fs[..k + 1];
    }
  }

  lemma BytesOneMore(src: Source, fs: seq<Fragment>)
    requires fs != []
    ensures var n := |fs| - 1;
            && TotalSize(fs) == TotalSize(fs[..n]) + fs[n].size
            && (StreamBytes(src, fs).Some? <==> StreamBytes(src, fs[..n]).Some? && FragmentBytes(src, fs[n]).Some?)
            && (StreamBytes(src, fs).Some? ==>
                  StreamBytes(src, fs).value == StreamBytes(src, fs[..n]).value + FragmentBytes(src, fs[n]).value)
  {
  }

  /** Either nothing has been read yet, or everything from `offset` to the end of the fragments that were passed. */
  predicate Reading(all: seq<u8>, passed: nat, current: nat, offset: nat, len: nat, out: seq<u8>) {
    && passed <= |all|
    && ((out == [] && passed <= offset && current == offset - passed)
        || (offset < passed && current == 0 && out == all[offset..Min(offset + len, passed)]))
  }

  lemma SkipStep(all: seq<u8>, passed: nat, current: nat, offset: nat, len: nat, out: seq<u8>, size: nat)
    requires Reading(all, passed, current, offset, len, out) && size <= current && passed + size <= |all|
    ensures Reading(all, passed + size, current - size, offset, len, out)
  {
  }

  lemma CopyStep(all: seq<u8>, passed: nat, current: nat, offset: nat, len: nat, out: seq<u8>, size: nat, n: nat)
    requires Reading(all, passed, current, offset, len, out) && current < size && passed + size <= |all| && |out| < len
    requires n == if len - |out| < size - current then len - |out| else size - current
    ensures Reading(all, passed + size, 0, offset, len, out + all[passed + current..passed + current + n])
  {
    if out == [] {
      assert out + all[passed + current..passed + current + n] == all[passed + current..passed + current + n];
    } else {
      assert all[offset..passed] + all[passed..passed + n] == all[offset..passed + n];
    }
  }

  lemma ReadingDone(all: seq<u8>, passed: nat, current: nat, offset: nat, len: nat, out: seq<u8>)
    requires Reading(all, passed, current, offset, len, out) && (passed == |all| || |out| == len) && 0 < len
    ensures out == Window(all, offset, len)
  {
  }

  /** Reads up to `len` bytes at `offset`: exactly that part of the whole stream, and nothing past its end. */
  method ReadAt(src: Source, fs: seq<Fragment>, offset: nat, len: nat) returns (r: Option<seq<u8>>)
    ensures StreamBytes(src, fs).Some? ==> r == Some(Window(StreamBytes(src, fs).value, offset, len))
    ensures r.Some? ==> |r.value| <= len
  {
    hide *;
    ghost var ok := StreamBytes(src, fs).Some?;
    ghost var all := if ok then StreamBytes(src, fs).value else [];
    EmptyWindow(all, offset);
    if len == 0 {
      return Some([]);
    }
    var out: seq<u8>, current: nat, k := [], offset, 0;
    ReadingStart(src, fs, offset, len);
    while k < |fs| && |out| < len
      invariant 0 <= k <= |fs| && |out| <= len
      invariant ok ==> Reading(all, TotalSize(fs[..k]), current, offset, len, out)
    {
      var f := fs[k];
      if ok {
        AtFragment(src, fs, k);
      }
      ghost var passed := TotalSize(fs[..k]);
      if f.size <= current {
        if ok {
          SkipStep(all, passed, current, offset, len, out, f.size);
        }
        current := current - f.size;
      } else {
        var n := if len - |out| < f.size - current then len - |out| else f.size - current;
        if ok {
          PartOfFragment(src, f, current, n);
          SliceInside(all, passed, f.size, current, n);
          CopyStep(all, passed, current, offset, len, out, f.size, n);
        }
        var part := FragmentPart(src, f.location, current, n);
        if part.None? {
          return None;
        }
        out, current := out + part.value, 0;
      }
      k := k + 1;
    }
    if ok {
      StreamBytesLength(src, fs);
      assert fs[..|fs|] == fs;
      ReadingDone(all, TotalSize(fs[..k]), current, offset, len, out);
    }
    r := Some(out);
  }

  /** Two fragments of 2^31 bytes, both in the file: the whole stream cannot be read, any part of it can. */
  method HugeStreamFails(src: Source, offset: nat, len: nat) returns (whole: Option<seq<u8>>, part: Option<seq<u8>>)
    requires U32_LIMIT <= |src.file|
    ensures whole == None && part == Some(Window(src.file[..U32_LIMIT], offset, len))
  {
    var half := 0x8000_0000;
    var fs := [Fragment(half, Uncompressed(0)), Fragment(half, Uncompressed(half))];
    assert fs[..1] == [fs[0]] && fs[..1][..0] == [] && fs[..0] == [];
    assert StreamBytes(src, fs[..1]) == Some([] + src.file[..half]);
    assert src.file[..half] + src.file[half..U32_LIMIT] == src.file[..U32_LIMIT];
    OneMore(src, fs, 0);
    OneMore(src, fs, 1);
    assert fs[..2] == fs && StreamBytes(src, fs[..0]) == Some([]);
    assert FragmentBytes(src, fs[0]) == Some(src.file[..half]) && FragmentBytes(src, fs[1]) == Some(src.file[half..U32_LIMIT]);
    whole := ReadStream(src, fs);
    assert StreamBytes(src, fs).value == src.file[..U32_LIMIT];
    part := ReadAt(src, fs, offset, len);
  }

  lemma EmptyWindow(all: seq<u8>, offset: nat)
    ensures Window(all, offset, 0) == []
  {
  }

  lemma ReadingStart(src: Source, fs: seq<Fragment>, offset: nat, len: nat)
    ensures StreamBytes(src, fs).Some? ==> Reading(StreamBytes(src, fs).value, TotalSize(fs[..0]), offset, offset, len, [])
  {
    assert fs[..0] == [];
  }
}
