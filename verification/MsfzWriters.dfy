/** Writing streams into compressed chunks and uncompressed fragments (msfz/src/writer.rs). */
module MsfzWriters {
  import opened Bytes
  import opened Arith
  import opened MsfzFormat
  import opened MsfzStreams

  const MAX_CHUNK_SIZE: nat := 0x4000_0000

  /** The header is written last, over the zeros that a new file starts with. */
  const MSFZ_HEADER_LEN: nat := 80

  // ---------------------------------------------------------------- fragment lists

  /** The new fragment continues the last one, as far as the writer's test goes. */
  predicate SeemsNext(last: Fragment, size: nat, l: Location) {
    match last.location
    case Compressed(chunk, offset) => l.Compressed? && l.chunk == chunk && offset + size == l.offset
    case Uncompressed(fileOffset) => l.Uncompressed? && fileOffset + size == l.fileOffset
  }

  /** Extends the last fragment if the new one seems to continue it; otherwise appends. */
  function AddFragment(fs: seq<Fragment>, size: nat, l: Location): seq<Fragment> {
    if fs != [] && SeemsNext(fs[|fs| - 1], size, l)
    then fs[..|fs| - 1] + [Fragment(fs[|fs| - 1].size + size, fs[|fs| - 1].location)]
    else fs + [Fragment(size, l)]
  }

  /** The test compares against the size of the new fragment where it should use that of the last one. */
  predicate WrongMerge(fs: seq<Fragment>, size: nat, l: Location) {
    fs != [] && SeemsNext(fs[|fs| - 1], size, l) && fs[|fs| - 1].size != size
  }

  function Moved(l: Location, i: nat): Location {
    match l
    case Compressed(chunk, offset) => Compressed(chunk, offset + i)
    case Uncompressed(fileOffset) => Uncompressed(fileOffset + i)
  }

  /** The place of every byte of a fragment. */
  function Places(f: Fragment): (r: seq<Location>)
    ensures |r| == f.size && forall i :: 0 <= i < f.size ==> r[i] == Moved(f.location, i)
  {
    seq(f.size, i requires 0 <= i < f.size => Moved(f.location, i))
  }

  function PlacesOf(fs: seq<Fragment>): seq<Location> {
    if fs == [] then [] else PlacesOf(fs[..|fs| - 1]) + Places(fs[|fs| - 1])
  }

  /** Adding a fragment adds exactly its bytes to the stream, unless the merge is wrong. */
  lemma AddFragmentExact(fs: seq<Fragment>, size: nat, l: Location)
    requires 0 < size
    ensures PlacesOf(AddFragment(fs, size, l)) == PlacesOf(fs) + Places(Fragment(size, l)) <==> !WrongMerge(fs, size, l)
  {
    var fs' := AddFragment(fs, size, l);
    if fs != [] && SeemsNext(fs[|fs| - 1], size, l) {
      var n := |fs| - 1;
      var init, last := fs[..n], fs[n];
      assert fs'[..n] == init && fs'[n] == Fragment(last.size + size, last.location);
      MergeExact(last, size, l);
      ConcatAssoc(PlacesOf(init), Places(last), Places(Fragment(size, l)));
      SamePrefix(PlacesOf(init), Places(fs'[n]), Places(last) + Places(Fragment(size, l)));
    } else {
      assert fs'[..|fs|] == fs;
    }
  }

  lemma MergeExact(last: Fragment, size: nat, l: Location)
    requires 0 < size && SeemsNext(last, size, l)
    ensures Places(Fragment(last.size + size, last.location)) == Places(last) + Places(Fragment(size, l)) <==> last.size == size
  {
    var merged, both := Places(Fragment(last.size + size, last.location)), Places(last) + Places(Fragment(size, l));
    assert merged[last.size] == Moved(last.location, last.size) && both[last.size] == Moved(l, 0);
  }

  lemma SamePrefix<T>(a: seq<T>, b: seq<T>, c: seq<T>)
    ensures a + b == a + c <==> b == c
  {
    if a + b == a + c {
      assert b == (a + b)[|a|..];
      assert c == (a + c)[|a|..];
    }
  }

  // ---------------------------------------------------------------- what is held

  /** The file, and the contents of all chunks; the last one is the chunk that is being filled. */
  datatype Store = Store(out: seq<u8>, chunks: seq<seq<u8>>)

  function Held(st: Store, f: Fragment): (r: Option<seq<u8>>)
    ensures r.Some? ==> |r.value| == f.size
  {
    match f.location
    case Compressed(chunk, offset) => if chunk < |st.chunks| then Slice(st.chunks[chunk], offset, f.size) else None
    case Uncompressed(fileOffset) => Slice(st.out, fileOffset, f.size)
  }

  function HeldStream(st: Store, fs: seq<Fragment>): Option<seq<u8>> {
    if fs == [] then Some([]) else
    var init :- HeldStream(st, fs[..|fs| - 1]);
    var last :- Held(st, fs[|fs| - 1]);
    Some(init + last)
  }

  /** Nothing that was stored has changed. */
  predicate Grows(a: Store, b: Store) {
    && a.out <= b.out && |a.chunks| <= |b.chunks|
    && forall i :: 0 <= i < |a.chunks| ==> a.chunks[i] <= b.chunks[i]
  }

  lemma SliceOfPrefix(a: seq<u8>, b: seq<u8>, at: nat, n: nat)
    requires a <= b && Slice(a, at, n).Some?
    ensures Slice(b, at, n) == Slice(a, at, n)
  {
    assert b == a + b[|a|..];
    SliceOfConcat(a, b[|a|..], at, at + n);
  }

  lemma HeldGrows(a: Store, b: Store, f: Fragment)
    requires Grows(a, b) && Held(a, f).Some?
    ensures Held(b, f) == Held(a, f)
  {
    match f.location
    case Compressed(chunk, offset) => SliceOfPrefix(a.chunks[chunk], b.chunks[chunk], offset, f.size);
    case Uncompressed(fileOffset) => SliceOfPrefix(a.out, b.out, fileOffset, f.size);
  }

  lemma {:induction false} HeldStreamGrows(a: Store, b: Store, fs: seq<Fragment>)
    requires Grows(a, b) && HeldStream(a, fs).Some?
    ensures HeldStream(b, fs) == HeldStream(a, fs)
  {
    if fs != [] {
      HeldStreamGrows(a, b, fs[..|fs| - 1]);
      HeldGrows(a, b, fs[|fs| - 1]);
    }
  }

  lemma GrowsTrans(a: Store, b: Store, c: Store)
    requires Grows(a, b) && Grows(b, c)
    ensures Grows(a, c)
  {
    forall i | 0 <= i < |a.chunks| ensures a.chunks[i] <= c.chunks[i] {
      assert a.chunks[i] <= b.chunks[i] && b.chunks[i] <= c.chunks[i];
    }
  }

  lemma AdjacentSlices(b: seq<u8>, at: nat, m: nat, n: nat)
    requires at + m + n <= |b|
    ensures Slice(b, at, m + n) == Some(b[at..at + m] + b[at + m..at + m + n])
  {
    assert b[at..at + (m + n)] == b[at..at + m] + b[at + m..at + m + n];
  }

  lemma HeldOneMore(st: Store, init: seq<Fragment>, f: Fragment)
    requires HeldStream(st, init).Some? && Held(st, f).Some?
    ensures HeldStream(st, init + [f]) == Some(HeldStream(st, init).value + Held(st, f).value)
  {
    assert (init + [f])[..|init|] == init;
  }

  lemma HeldParts(st: Store, fs: seq<Fragment>)
    requires fs != [] && HeldStream(st, fs).Some?
    ensures var n := |fs| - 1;
            && HeldStream(st, fs[..n]).Some? && Held(st, fs[n]).Some?
            && HeldStream(st, fs).value == HeldStream(st, fs[..n]).value + Held(st, fs[n]).value
  {
  }

  /** After a write that does not merge wrongly, the stream has the new bytes at its end. */
  lemma AddFragmentHeld(st: Store, fs: seq<Fragment>, buf: seq<u8>, l: Location)
    requires HeldStream(st, fs).Some? && Held(st, Fragment(|buf|, l)) == Some(buf) && !WrongMerge(fs, |buf|, l)
    ensures HeldStream(st, AddFragment(fs, |buf|, l)) == Some(HeldStream(st, fs).value + buf)
  {
    hide *;
    AddFragmentIs(fs, |buf|, l);
    if fs != [] && SeemsNext(fs[|fs| - 1], |buf|, l) {
      var n := |fs| - 1;
      HeldParts(st, fs);
      NotWrong(fs, |buf|, l);
      MergedHeld(st, fs[n], buf, l);
      HeldOneMore(st, fs[..n], Fragment(fs[n].size + |buf|, fs[n].location));
      ConcatAssoc(HeldStream(st, fs[..n]).value, Held(st, fs[n]).value, buf);
    } else {
      HeldOneMore(st, fs, Fragment(|buf|, l));
    }
  }

  lemma AddFragmentIs(fs: seq<Fragment>, size: nat, l: Location)
    ensures AddFragment(fs, size, l)
         == if fs != [] && SeemsNext(fs[|fs| - 1], size, l)
            then fs[..|fs| - 1] + [Fragment(fs[|fs| - 1].size + size, fs[|fs| - 1].location)]
            else fs + [Fragment(size, l)]
  {
  }

  lemma NotWrong(fs: seq<Fragment>, size: nat, l: Location)
    requires fs != [] && SeemsNext(fs[|fs| - 1], size, l) && !WrongMerge(fs, size, l)
    ensures fs[|fs| - 1].size == size
  {
  }

  lemma MergedHeld(st: Store, last: Fragment, buf: seq<u8>, l: Location)
    requires Held(st, last).Some? && Held(st, Fragment(|buf|, l)) == Some(buf)
    requires SeemsNext(last, |buf|, l) && last.size == |buf|
    ensures Held(st, Fragment(last.size + |buf|, last.location)) == Some(Held(st, last).value + buf)
  {
    match last.location
    case Compressed(chunk, offset) => AdjacentSlices(st.chunks[chunk], offset, last.size, |buf|);
    case Uncompressed(fileOffset) => AdjacentSlices(st.out, fileOffset, last.size, |buf|);
  }

  // ---------------------------------------------------------------- consecutive writes

  /** The last fragment ends where the next byte of its kind would go: nothing was written since. */
  predicate AtEnd(st: Store, fs: seq<Fragment>) {
    fs != [] ==>
      var last := fs[|fs| - 1];
      && 0 < last.size && 0 < |st.chunks|
      && match last.location
         case Compressed(chunk, offset) =>
           chunk < |st.chunks| && (chunk == |st.chunks| - 1 ==> offset + last.size == |st.chunks[chunk]|)
         case Uncompressed(fileOffset) => fileOffset + last.size == |st.out|
  }

  // ---------------------------------------------------------------- the writer's state

  /** The chunk table entry leads to the compressed chunk. */
  ghost predicate ChunkStored(out: seq<u8>, e: ChunkEntry, data: seq<u8>, codecs: Algorithms) {
    && MSFZ_HEADER_LEN <= e.fileOffset && Slice(out, e.fileOffset, e.compressedSize) == Some(CompressWith(codecs, e.compression, data))
    && IsAlgorithm(codecs, e.compression) && e.uncompressedSize == |data| < U32_LIMIT
  }

  ghost predicate ChunksStored(out: seq<u8>, chunks: seq<ChunkEntry>, contents: seq<seq<u8>>, codecs: Algorithms) {
    |contents| == |chunks| && forall i :: 0 <= i < |chunks| ==> ChunkStored(out, chunks[i], contents[i], codecs)
  }

  lemma ChunksStoredGrows(out: seq<u8>, out': seq<u8>, chunks: seq<ChunkEntry>, contents: seq<seq<u8>>, codecs: Algorithms)
    requires ChunksStored(out, chunks, contents, codecs) && out <= out'
    ensures ChunksStored(out', chunks, contents, codecs)
  {
    forall i | 0 <= i < |chunks| ensures ChunkStored(out', chunks[i], contents[i], codecs) {
      assert ChunkStored(out, chunks[i], contents[i], codecs);
      SliceOfPrefix(out, out', chunks[i].fileOffset, chunks[i].compressedSize);
    }
  }

  lemma ChunkAdded(out: seq<u8>, chunks: seq<ChunkEntry>, contents: seq<seq<u8>>, codecs: Algorithms, mode: nat, data: seq<u8>)
    requires ChunksStored(out, chunks, contents, codecs) && |data| < U32_LIMIT && MSFZ_HEADER_LEN <= |out| && IsAlgorithm(codecs, mode)
    ensures var z := CompressWith(codecs, mode, data);
            ChunksStored(out + z, chunks + [ChunkEntry(|out|, mode, |z|, |data|)], contents + [data], codecs)
  {
    var z := CompressWith(codecs, mode, data);
    ChunksStoredGrows(out, out + z, chunks, contents, codecs);
    ConcatEnd(out, z);
    var e := ChunkEntry(|out|, mode, |z|, |data|);
    assert ChunkStored(out + z, e, data, codecs);
    forall i | 0 <= i < |chunks + [e]| ensures ChunkStored(out + z, (chunks + [e])[i], (contents + [data])[i], codecs) {
      if i < |chunks| {
        assert ChunkStored(out + z, chunks[i], contents[i], codecs);
      }
    }
  }

  /** Behind the header, and where the directory can still say so. */
  predicate InReach(l: Location) {
    l.Uncompressed? ==> MSFZ_HEADER_LEN <= l.fileOffset < FILE_OFFSET_LIMIT
  }

  /** The fragments of a stream can all be read, and fit into the directory. */
  ghost predicate Sound(st: Store, fs: seq<Fragment>) {
    && HeldStream(st, fs).Some? && TotalSize(fs) < NIL_STREAM_SIZE
    && forall k :: 0 <= k < |fs| ==> 0 < fs[k].size && InReach(fs[k].location)
  }

  lemma TotalAdded(fs: seq<Fragment>, size: nat, l: Location)
    ensures TotalSize(AddFragment(fs, size, l)) == TotalSize(fs) + size
  {
    var fs' := AddFragment(fs, size, l);
    if fs != [] && SeemsNext(fs[|fs| - 1], size, l) {
      assert fs'[..|fs| - 1] == fs[..|fs| - 1];
    } else {
      assert fs'[..|fs|] == fs;
    }
  }

  /** A correct write keeps the stream sound, and the next write can follow it. */
  lemma SoundAdded(st0: Store, st: Store, fs: seq<Fragment>, buf: seq<u8>, l: Location)
    requires Sound(st0, fs) && Grows(st0, st) && buf != [] && TotalSize(fs) + |buf| < NIL_STREAM_SIZE
    requires Held(st, Fragment(|buf|, l)) == Some(buf) && !WrongMerge(fs, |buf|, l)
    requires InReach(l)
    ensures Sound(st, AddFragment(fs, |buf|, l))
    ensures HeldStream(st, AddFragment(fs, |buf|, l)) == Some(HeldStream(st0, fs).value + buf)
  {
    HeldStreamGrows(st0, st, fs);
    AddFragmentHeld(st, fs, buf, l);
    TotalAdded(fs, |buf|, l);
  }

  lemma SoundGrows(a: Store, b: Store, fs: seq<Fragment>)
    requires Sound(a, fs) && Grows(a, b)
    ensures Sound(b, fs) && HeldStream(b, fs) == HeldStream(a, fs)
  {
    HeldStreamGrows(a, b, fs);
  }

  /** The fragment that was just written is the last one, and ends where the next one would start. */
  lemma AtEndAfter(st: Store, fs: seq<Fragment>, size: nat, l: Location)
    requires 0 < size && 0 < |st.chunks| && !WrongMerge(fs, size, l)
    requires match l
             case Compressed(chunk, offset) => chunk == |st.chunks| - 1 && offset + size == |st.chunks[chunk]|
             case Uncompressed(fileOffset) => fileOffset + size == |st.out|
    ensures AtEnd(st, AddFragment(fs, size, l))
  {
  }

  // ---------------------------------------------------------------- what a write does, step by step

  /** One write: whether it is compressed, and its bytes. */
  datatype Piece = Piece(compressed: bool, data: seq<u8>)

  /** All that decides about a write: the end of the file, the finished chunks, the current chunk, the size of the stream. */
  datatype Cursor = Cursor(fileEnd: nat, numChunks: nat, chunk: seq<u8>, size: nat)

  function RoundUp(pos: nat, alignment: nat): nat
    requires 0 < alignment
  {
    if pos % alignment == 0 then pos else pos + (alignment - pos % alignment)
  }

  /** The least multiple of the alignment that is not smaller. */
  lemma RoundUpIs(pos: nat, alignment: nat)
    requires 0 < alignment
    ensures RoundUp(pos, alignment) % alignment == 0 && pos <= RoundUp(pos, alignment) < pos + alignment
  {
    var q, r := pos / alignment, pos % alignment;
    if r != 0 {
      assert pos + (alignment - r) == (q + 1) * alignment;
      MultipleMod(q + 1, alignment);
    }
  }

  /** The chunk that is being filled is full: the data would reach the threshold. */
  predicate StartsChunk(c: Cursor, threshold: nat, data: seq<u8>) {
    threshold <= |data| + |c.chunk|
  }

  /** Where a piece goes. Only the first uncompressed data of a stream is aligned. */
  function LocationFor(c: Cursor, threshold: nat, alignment: nat, p: Piece): Location
    requires 0 < alignment
  {
    if !p.compressed then Uncompressed(if c.size == 0 then RoundUp(c.fileEnd, alignment) else c.fileEnd) else
    if StartsChunk(c, threshold, p.data) then Compressed(c.numChunks + if c.chunk == [] then 0 else 1, 0) else
    Compressed(c.numChunks, |c.chunk|)
  }

  /** A piece is written unless the stream would get too large, or the file offset does not fit into the directory. */
  predicate CanWrite(c: Cursor, threshold: nat, alignment: nat, p: Piece)
    requires 0 < alignment
  {
    p.data != [] ==>
      && c.size + |p.data| < NIL_STREAM_SIZE
      && var l := LocationFor(c, threshold, alignment, p); l.Uncompressed? ==> l.fileOffset < FILE_OFFSET_LIMIT
  }

  function Advance(c: Cursor, threshold: nat, alignment: nat, codecs: Algorithms, mode: nat, p: Piece): Cursor
    requires 0 < alignment
  {
    if p.data == [] then c else
    var size := c.size + |p.data|;
    if !p.compressed then Cursor(LocationFor(c, threshold, alignment, p).fileOffset + |p.data|, c.numChunks, c.chunk, size) else
    if !StartsChunk(c, threshold, p.data) then Cursor(c.fileEnd, c.numChunks, c.chunk + p.data, size) else
    if c.chunk == [] then Cursor(c.fileEnd, c.numChunks, p.data, size) else
    Cursor(c.fileEnd + |CompressWith(codecs, mode, c.chunk)|, c.numChunks + 1, p.data, size)
  }

  function AdvanceAll(c: Cursor, threshold: nat, alignment: nat, codecs: Algorithms, mode: nat, pieces: seq<Piece>): Cursor
    requires 0 < alignment
  {
    if pieces == [] then c else
    var n := |pieces| - 1;
    Advance(AdvanceAll(c, threshold, alignment, codecs, mode, pieces[..n]), threshold, alignment, codecs, mode, pieces[n])
  }

  /** Piece `k` can be written once those before it are. */
  predicate CanWriteAt(c: Cursor, threshold: nat, alignment: nat, codecs: Algorithms, mode: nat, pieces: seq<Piece>, k: nat)
    requires 0 < alignment && k < |pieces|
  {
    CanWrite(AdvanceAll(c, threshold, alignment, codecs, mode, pieces[..k]), threshold, alignment, pieces[k])
  }

  lemma AdvanceNext(c: Cursor, threshold: nat, alignment: nat, codecs: Algorithms, mode: nat, pieces: seq<Piece>, k: nat)
    requires 0 < alignment && k < |pieces|
    ensures AdvanceAll(c, threshold, alignment, codecs, mode, pieces[..k + 1])
         == Advance(AdvanceAll(c, threshold, alignment, codecs, mode, pieces[..k]), threshold, alignment, codecs, mode, pieces[k])
  {
    assert pieces[..k + 1][..k] == pieces[..k];
  }

  /** The stream grows by the pieces, however they are stored. */
  lemma {:induction false} AdvancedSize(c: Cursor, threshold: nat, alignment: nat, codecs: Algorithms, mode: nat, pieces: seq<Piece>)
    requires 0 < alignment
    ensures AdvanceAll(c, threshold, alignment, codecs, mode, pieces).size == c.size + |Joined(pieces)|
  {
    if pieces != [] {
      AdvancedSize(c, threshold, alignment, codecs, mode, pieces[..|pieces| - 1]);
    }
  }

  lemma {:induction false} JoinedPrefix(pieces: seq<Piece>, k: nat)
    requires k <= |pieces|
    ensures |Joined(pieces[..k])| <= |Joined(pieces)|
    decreases |pieces|
  {
    if k == |pieces| {
      assert pieces[..k] == pieces;
    } else {
      assert pieces[..|pieces| - 1][..k] == pieces[..k];
      JoinedPrefix(pieces[..|pieces| - 1], k);
    }
  }

  lemma {:induction false} LastBytes(pieces: seq<Piece>) returns (k: nat)
    requires Joined(pieces) != []
    ensures k < |pieces| && pieces[k].data != [] && |Joined(pieces[..k + 1])| == |Joined(pieces)|
  {
    var n := |pieces| - 1;
    if pieces[n].data != [] {
      k := n;
      assert pieces[..n + 1] == pieces;
    } else {
      k := LastBytes(pieces[..n]);
      assert pieces[..n][..k + 1] == pieces[..k + 1];
    }
  }

  /** Compressed pieces can all be written exactly if the stream does not get too large, whatever happens to the chunks. */
  lemma CompressedFit(c: Cursor, threshold: nat, alignment: nat, codecs: Algorithms, mode: nat, pieces: seq<Piece>)
    requires 0 < alignment && forall k :: 0 <= k < |pieces| ==> pieces[k].compressed
    ensures (forall k :: 0 <= k < |pieces| ==> CanWriteAt(c, threshold, alignment, codecs, mode, pieces, k))
            <==> Joined(pieces) == [] || c.size + |Joined(pieces)| < NIL_STREAM_SIZE
  {
    forall k | 0 <= k < |pieces|
      ensures CanWriteAt(c, threshold, alignment, codecs, mode, pieces, k)
              <==> pieces[k].data == [] || c.size + |Joined(pieces[..k + 1])| < NIL_STREAM_SIZE
      ensures |Joined(pieces[..k + 1])| <= |Joined(pieces)| && (Joined(pieces) == [] ==> pieces[k].data == [])
    {
      AdvancedSize(c, threshold, alignment, codecs, mode, pieces[..k]);
      assert pieces[..k + 1][..k] == pieces[..k];
      JoinedPrefix(pieces, k + 1);
    }
    if Joined(pieces) != [] {
      var k := LastBytes(pieces);
      assert CanWriteAt(c, threshold, alignment, codecs, mode, pieces, k) <==> c.size + |Joined(pieces)| < NIL_STREAM_SIZE;
    }
  }

  /** Where uncompressed pieces go: one after the other, the first one aligned if it starts the stream. */
  lemma {:induction false} UncompressedCursor(c: Cursor, threshold: nat, alignment: nat, codecs: Algorithms, mode: nat, pieces: seq<Piece>)
    requires 0 < alignment && forall k :: 0 <= k < |pieces| ==> !pieces[k].compressed
    ensures var start, n := if c.size == 0 then RoundUp(c.fileEnd, alignment) else c.fileEnd, |Joined(pieces)|;
            AdvanceAll(c, threshold, alignment, codecs, mode, pieces)
            == if n == 0 then c else Cursor(start + n, c.numChunks, c.chunk, c.size + n)
  {
    hide RoundUp;
    if pieces != [] {
      UncompressedCursor(c, threshold, alignment, codecs, mode, pieces[..|pieces| - 1]);
    }
  }

  /** Uncompressed pieces can be written as long as the stream does not get too large, and its end is within 48 bits. */
  lemma UncompressedFit(c: Cursor, threshold: nat, alignment: nat, codecs: Algorithms, mode: nat, pieces: seq<Piece>, k: nat)
    requires 0 < alignment && k < |pieces| && forall i :: 0 <= i < |pieces| ==> !pieces[i].compressed
    ensures var start := if c.size == 0 then RoundUp(c.fileEnd, alignment) else c.fileEnd;
            CanWriteAt(c, threshold, alignment, codecs, mode, pieces, k) <==>
              pieces[k].data == []
              || (c.size + |Joined(pieces[..k + 1])| < NIL_STREAM_SIZE && start + |Joined(pieces[..k])| < FILE_OFFSET_LIMIT)
  {
    hide RoundUp;
    hide AdvanceAll;
    UncompressedCursor(c, threshold, alignment, codecs, mode, pieces[..k]);
    assert pieces[..k + 1][..k] == pieces[..k];
  }

  class MsfzWriter {
    const codecs: Algorithms
    /** The code of the algorithm for the next chunk. */
    var mode: nat
    var threshold: nat
    /** The chunk that is being filled, the finished chunks, and the file. */
    var chunkData: seq<u8>
    var chunks: seq<ChunkEntry>
    var out: seq<u8>
    var streams: seq<StreamEntry>

    ghost var contents: seq<seq<u8>>

    ghost function Now(): Store
      reads this`out, this`contents, this`chunkData
    {
      Store(out, contents + [chunkData])
    }

    /** What decides about the next write to a stream. */
    ghost function At(s: nat): Cursor
      requires s < |streams| && streams[s].Some?
      reads this
    {
      Cursor(|out|, |contents|, chunkData, TotalSize(streams[s].value))
    }

    ghost predicate Stored()
      reads this`out, this`chunks, this`contents, this`chunkData, this`threshold, this`mode
    {
      && threshold <= MAX_CHUNK_SIZE && |chunkData| < U32_LIMIT && MSFZ_HEADER_LEN <= |out|
      && IsAlgorithm(codecs, mode) && ChunksStored(out, chunks, contents, codecs)
    }

    ghost predicate Valid()
      reads this
    {
      Stored() && forall s :: 0 <= s < |streams| && streams[s].Some? ==> Sound(Now(), streams[s].value)
    }

    /** The bytes written to a stream so far. */
    ghost function Written(s: nat): (r: seq<u8>)
      requires s < |streams| && streams[s].Some?
      reads this
    {
      if HeldStream(Now(), streams[s].value).Some? then HeldStream(Now(), streams[s].value).value else []
    }

    /** A file with room for its header. Stream 0 is reserved and empty. */
    constructor (codecs: Algorithms, mode: nat, threshold: nat)
      requires threshold <= MAX_CHUNK_SIZE && IsAlgorithm(codecs, mode)
      ensures Valid() && this.codecs == codecs && this.mode == mode && this.threshold == threshold && streams == [Some([])]
      ensures chunkData == [] && chunks == [] && contents == [] && out == Zeros(MSFZ_HEADER_LEN)
    {
      this.codecs, this.mode, this.threshold := codecs, mode, threshold;
      chunkData, chunks, contents := [], [], [];
      out := Zeros(MSFZ_HEADER_LEN);
      streams := [Some([])];
    }

    /** Selects the algorithm for the chunks that are finished from now on. */
    method SetChunkCompressionMode(mode: nat)
      requires Valid() && IsAlgorithm(codecs, mode)
      modifies this`mode
      ensures Valid() && this.mode == mode
    {
      this.mode := mode;
    }

    /** Compresses and writes the current chunk, if there is anything in it. */
    method FinishCurrentChunk()
      requires Stored()
      modifies this`chunkData, this`chunks, this`out, this`contents
      ensures Stored() && chunkData == [] && Grows(old(Now()), Now())
      ensures old(chunkData) == [] ==>
                Now() == old(Now()) && contents == old(contents) && out == old(out) && chunks == old(chunks)
      ensures old(chunkData) != [] ==>
                && contents == old(contents) + [old(chunkData)] && out == old(out) + CompressWith(codecs, mode, old(chunkData))
                && out == old(out) + codecs(mode).value.compress(old(chunkData))
                && chunks == old(chunks) + [ChunkEntry(|old(out)|, mode, |CompressWith(codecs, mode, old(chunkData))|, |old(chunkData)|)]
    {
      if chunkData == [] {
        return;
      }
      var compressed := CompressWith(codecs, mode, chunkData);
      ChunkAdded(out, chunks, contents, codecs, mode, chunkData);
      chunks := chunks + [ChunkEntry(|out|, mode, |compressed|, |chunkData|)];
      out := out + compressed;
      contents := contents + [chunkData];
      chunkData := [];
    }

    /** Adds data to a chunk. All of it goes into the same chunk, which is a new one if the current one would get too large. */
    method WriteToChunks(data: seq<u8>) returns (chunk: nat, offset: nat)
      requires Stored() && data != [] && |data| < NIL_STREAM_SIZE
      modifies this`chunkData, this`chunks, this`out, this`contents
      ensures Stored() && Grows(old(Now()), Now())
      ensures chunk == |contents| && offset + |data| == |chunkData|
      ensures Held(Now(), Fragment(|data|, Compressed(chunk, offset))) == Some(data)
      ensures if |data| + |old(chunkData)| < threshold
              then chunk == |old(contents)| && offset == |old(chunkData)| && out == old(out)
                   && contents == old(contents) && chunkData == old(chunkData) + data
              else offset == 0 && chunkData == data
                   && (if old(chunkData) == [] then contents == old(contents) && out == old(out)
                       else contents == old(contents) + [old(chunkData)] && out == old(out) + CompressWith(codecs, mode, old(chunkData)))
    {
      if threshold <= |data| + |chunkData| {
        FinishCurrentChunk();
      }
      chunk, offset := |chunks|, |chunkData|;
      ghost var before := Now();
      chunkData := chunkData + data;
      assert Grows(before, Now());
      GrowsTrans(old(Now()), before, Now());
      ConcatEnd(before.chunks[chunk], data);
    }

    /** Moves on to a multiple of `alignment`; the file reads as zeros in between. */
    method WriteAlign(alignment: nat) returns (pos: nat)
      requires Stored() && 0 < alignment
      modifies this`out
      ensures Stored() && Grows(old(Now()), Now()) && old(out) <= out
      ensures pos == |out| == RoundUp(|old(out)|, alignment) && pos % alignment == 0 && pos < |old(out)| + alignment
    {
      RoundUpIs(|out|, alignment);
      if |out| % alignment != 0 {
        ghost var before := out;
        out := out + Zeros(alignment - |out| % alignment);
        ChunksStoredGrows(before, out, chunks, contents, codecs);
      }
      pos := |out|;
    }

    /** Appends to the file without compression. */
    method WriteOut(data: seq<u8>)
      requires Stored()
      modifies this`out
      ensures Stored() && Grows(old(Now()), Now()) && out == old(out) + data
      ensures Held(Now(), Fragment(|data|, Uncompressed(|old(out)|))) == Some(data)
    {
      ChunksStoredGrows(out, out + data, chunks, contents, codecs);
      ConcatEnd(out, data);
      out := out + data;
    }

    /** Adds an empty stream. */
    method NewStream() returns (s: nat)
      requires Valid()
      modifies this`streams
      ensures Valid() && s == |old(streams)| && streams == old(streams) + [Some([])]
    {
      s := |streams|;
      streams := streams + [Some([])];
      assert Sound(Now(), []);
    }

    /** Starts writing to a stream. A nil stream becomes an empty one. */
    method OpenStream(s: nat)
      requires Valid() && s < |streams|
      modifies this`streams
      ensures Valid() && |streams| == |old(streams)| && streams[s].Some?
      ensures streams == old(streams)[s := Some(if old(streams)[s].Some? then old(streams)[s].value else [])]
    {
      if streams[s].None? {
        streams := streams[s := Some([])];
      }
      assert streams == old(streams)[s := Some(if old(streams)[s].Some? then old(streams)[s].value else [])];
    }

    /**
     * Writes to a stream, either into the current chunk or directly into the file.
     *
     * The state before decides whether the bytes are written, and at which place `l`. They are at the end of the stream
     * unless the fragment list is merged wrongly, which does not happen if nothing else was written since the last write
     * to this stream.
     */
    method Write(s: nat, buf: seq<u8>, compressed: bool, alignment: nat) returns (ok: bool, ghost l: Location)
      requires Valid() && s < |streams| && streams[s].Some? && 0 < alignment
      modifies this`chunkData, this`chunks, this`out, this`contents, this`streams
      ensures Stored() && Grows(old(Now()), Now())
      ensures buf == [] ==> ok && Now() == old(Now())
      ensures !ok || buf == [] ==> Valid() && streams == old(streams)
      ensures ok <==> CanWrite(old(At(s)), threshold, alignment, Piece(compressed, buf))
      ensures |streams| == |old(streams)| && streams[s].Some?
      ensures ok ==> At(s) == Advance(old(At(s)), threshold, alignment, codecs, mode, Piece(compressed, buf))
      ensures ok && buf != [] ==> l == LocationFor(old(At(s)), threshold, alignment, Piece(compressed, buf))
      ensures ok && buf != [] ==>
                && streams == old(streams)[s := Some(AddFragment(old(streams[s].value), |buf|, l))]
                && Held(Now(), Fragment(|buf|, l)) == Some(buf) && (l.Compressed? <==> compressed)
      ensures ok && buf != [] && !WrongMerge(old(streams[s].value), |buf|, l) ==>
                && Valid() && Written(s) == old(Written(s)) + buf && AtEnd(Now(), streams[s].value)
      ensures ok && buf != [] && AtEnd(old(Now()), old(streams[s].value)) ==> !WrongMerge(old(streams[s].value), |buf|, l)
      ensures ok <==>
                || buf == []
                || (TotalSize(old(streams[s].value)) + |buf| < NIL_STREAM_SIZE
                    && (compressed || (if TotalSize(old(streams[s].value)) == 0 then RoundUp(|old(out)|, alignment) else |old(out)|)
                                      < FILE_OFFSET_LIMIT))
      ensures ok && buf != [] && !compressed ==>
                && contents == old(contents) && chunkData == old(chunkData) && chunks == old(chunks)
                && |out| == l.fileOffset + |buf|
                && l.fileOffset == if TotalSize(old(streams[s].value)) == 0 then RoundUp(|old(out)|, alignment) else |old(out)|
      ensures ok && buf != [] && compressed ==>
                && l.chunk == |contents| && l.offset + |buf| == |chunkData|
                && if |buf| + |old(chunkData)| < threshold
                   then contents == old(contents) && chunkData == old(chunkData) + buf && out == old(out)
                   else chunkData == buf && (if old(chunkData) == [] then contents == old(contents) && out == old(out)
                                             else contents == old(contents) + [old(chunkData)]
                                                  && out == old(out) + CompressWith(codecs, mode, old(chunkData)))
    {
      hide *;
      ghost var fs, st0, all := streams[s].value, Now(), streams;
      ghost var c, piece := At(s), Piece(compressed, buf);
      WriteDecided(s, piece, alignment);
      l := Uncompressed(0);
      WriteStart(s);
      if buf == [] {
        return true, l;
      }
      if NIL_STREAM_SIZE - TotalSize(streams[s].value) <= |buf| {
        return false, l;
      }
      if compressed {
        var chunk, offset := WriteToChunks(buf);
        l := Compressed(chunk, offset);
        streams := streams[s := Some(AddFragment(streams[s].value, |buf|, Compressed(chunk, offset)))];
      } else {
        var at := |out|;
        if TotalSize(streams[s].value) == 0 {
          at := WriteAlign(alignment);
        }
        l := Uncompressed(at);
        if FILE_OFFSET_LIMIT <= at {
          StillValid(st0, all);
          return false, l;
        }
        ghost var st1 := Now();
        WriteOut(buf);
        GrowsTrans(st0, st1, Now());
        streams := streams[s := Some(AddFragment(streams[s].value, |buf|, Uncompressed(at)))];
      }
      ok := true;
      TotalAdded(fs, |buf|, l);
      Advanced(s, c, piece, alignment);
      if AtEnd(st0, fs) {
        NextIsRight(st0, fs, |buf|, l);
      }
      if !WrongMerge(fs, |buf|, l) {
        WriteDone(st0, all, s, fs, buf, l);
      }
    }

    /** The cursor in the terms of the writer. */
    lemma WriteDecided(s: nat, p: Piece, alignment: nat)
      requires 0 < alignment && s < |streams| && streams[s].Some?
      ensures At(s) == Cursor(|out|, |contents|, chunkData, TotalSize(streams[s].value))
      ensures p.data == [] ==> CanWrite(At(s), threshold, alignment, p) && Advance(At(s), threshold, alignment, codecs, mode, p) == At(s)
      ensures p.data != [] ==>
                var at := if TotalSize(streams[s].value) == 0 then RoundUp(|out|, alignment) else |out|;
                && (CanWrite(At(s), threshold, alignment, p) <==>
                      TotalSize(streams[s].value) + |p.data| < NIL_STREAM_SIZE && (!p.compressed ==> at < FILE_OFFSET_LIMIT))
                && LocationFor(At(s), threshold, alignment, p)
                   == if !p.compressed then Uncompressed(at)
                      else if |p.data| + |chunkData| < threshold then Compressed(|contents|, |chunkData|)
                      else Compressed(|contents| + if chunkData == [] then 0 else 1, 0)
      ensures Stored() && p.data != [] && CanWrite(At(s), threshold, alignment, p) ==>
                InReach(LocationFor(At(s), threshold, alignment, p))
    {
    }

    lemma Advanced(s: nat, c: Cursor, p: Piece, alignment: nat)
      requires 0 < alignment && s < |streams| && streams[s].Some? && p.data != []
      requires TotalSize(streams[s].value) == c.size + |p.data|
      requires if !p.compressed then
                 && |contents| == c.numChunks && chunkData == c.chunk
                 && |out| == (if c.size == 0 then RoundUp(c.fileEnd, alignment) else c.fileEnd) + |p.data|
               else if |p.data| + |c.chunk| < threshold then
                 |contents| == c.numChunks && chunkData == c.chunk + p.data && |out| == c.fileEnd
               else
                 && chunkData == p.data && |contents| == c.numChunks + (if c.chunk == [] then 0 else 1)
                 && |out| == c.fileEnd + (if c.chunk == [] then 0 else |CompressWith(codecs, mode, c.chunk)|)
      ensures At(s) == Advance(c, threshold, alignment, codecs, mode, p)
    {
    }

    lemma WriteStart(s: nat)
      requires Valid() && s < |streams| && streams[s].Some?
      ensures Stored() && Grows(Now(), Now()) && Now() == Store(out, contents + [chunkData])
      ensures |Now().chunks| == |contents| + 1 && |Now().chunks[|contents|]| == |chunkData|
      ensures HeldStream(Now(), streams[s].value) == Some(Written(s))
      ensures forall t :: 0 <= t < |streams| && streams[t].Some? ==> Sound(Now(), streams[t].value)
      ensures TotalSize(streams[s].value) < NIL_STREAM_SIZE && TotalSize(streams[s].value) < U32_LIMIT
    {
      assert Sound(Now(), streams[s].value);
    }

    lemma Unfinished()
      requires Valid()
      ensures Stored() && MSFZ_HEADER_LEN <= |out| && Grows(Now(), Now())
      ensures forall t :: 0 <= t < |streams| && streams[t].Some? ==>
                Sound(Now(), streams[t].value) && HeldStream(Now(), streams[t].value) == Some(Written(t))
    {
      forall t | 0 <= t < |streams| && streams[t].Some?
        ensures Sound(Now(), streams[t].value) && HeldStream(Now(), streams[t].value) == Some(Written(t))
      {
        assert Sound(Now(), streams[t].value);
      }
    }

    /** What is appended after the streams changes none of them. */
    lemma Finished(st0: Store)
      requires Stored() && Grows(st0, Now())
      requires forall t :: 0 <= t < |streams| && streams[t].Some? ==> Sound(st0, streams[t].value)
      ensures Valid()
      ensures forall t :: 0 <= t < |streams| && streams[t].Some? ==> HeldStream(st0, streams[t].value) == Some(Written(t))
    {
      forall t | 0 <= t < |streams| && streams[t].Some?
        ensures Sound(Now(), streams[t].value) && HeldStream(st0, streams[t].value) == Some(Written(t))
      {
        SoundGrows(st0, Now(), streams[t].value);
      }
    }

    lemma StillValid(st0: Store, all: seq<StreamEntry>)
      requires Stored() && streams == all && Grows(st0, Now())
      requires forall t :: 0 <= t < |all| && all[t].Some? ==> Sound(st0, all[t].value)
      ensures Valid()
    {
      forall t | 0 <= t < |streams| && streams[t].Some? ensures Sound(Now(), streams[t].value) {
        SoundGrows(st0, Now(), all[t].value);
      }
    }

    lemma WriteDone(st0: Store, all: seq<StreamEntry>, s: nat, fs: seq<Fragment>, buf: seq<u8>, l: Location)
      requires Stored() && Grows(st0, Now()) && s < |all| && all[s] == Some(fs) && buf != [] && HeldStream(st0, fs).Some?
      requires streams == all[s := Some(AddFragment(fs, |buf|, l))]
      requires forall t :: 0 <= t < |all| && all[t].Some? ==> Sound(st0, all[t].value)
      requires TotalSize(fs) + |buf| < NIL_STREAM_SIZE && Held(Now(), Fragment(|buf|, l)) == Some(buf) && !WrongMerge(fs, |buf|, l)
      requires match l
               case Compressed(chunk, offset) => chunk == |contents| && offset + |buf| == |chunkData|
               case Uncompressed(fileOffset) => fileOffset + |buf| == |out|
      requires InReach(l)
      ensures Valid() && Written(s) == HeldStream(st0, fs).value + buf && AtEnd(Now(), streams[s].value)
    {
      hide *;
      EndsNow(|buf|, l);
      SoundAdded(st0, Now(), fs, buf, l);
      AtEndAfter(Now(), fs, |buf|, l);
      forall t | 0 <= t < |streams| && streams[t].Some? ensures Sound(Now(), streams[t].value) {
        if t != s {
          assert streams[t] == all[t];
          SoundGrows(st0, Now(), all[t].value);
        }
      }
      AllSound(s, HeldStream(st0, fs).value + buf);
    }

    lemma EndsNow(size: nat, l: Location)
      requires match l
               case Compressed(chunk, offset) => chunk == |contents| && offset + size == |chunkData|
               case Uncompressed(fileOffset) => fileOffset + size == |out|
      ensures 0 < |Now().chunks|
      ensures match l
              case Compressed(chunk, offset) => chunk == |Now().chunks| - 1 && offset + size == |Now().chunks[chunk]|
              case Uncompressed(fileOffset) => fileOffset + size == |Now().out|
    {
    }

    lemma AllSound(s: nat, written: seq<u8>)
      requires Stored() && forall t :: 0 <= t < |streams| && streams[t].Some? ==> Sound(Now(), streams[t].value)
      requires s < |streams| && streams[s].Some? && HeldStream(Now(), streams[s].value) == Some(written)
      ensures Valid() && Written(s) == written
    {
      hide Sound, HeldStream, ChunksStored;
    }

    /**
     * Writes the pieces one after the other; nothing else is written in between. All pieces before the first one that
     * cannot be written are in the stream then, in order, and nothing else.
     */
    method WritePieces(s: nat, pieces: seq<Piece>, alignment: nat) returns (ok: bool, ghost done: nat)
      requires Valid() && s < |streams| && streams[s].Some? && 0 < alignment && AtEnd(Now(), streams[s].value)
      modifies this`chunkData, this`chunks, this`out, this`contents, this`streams
      ensures Valid() && Grows(old(Now()), Now()) && |streams| == |old(streams)| && streams[s].Some?
      ensures forall t :: 0 <= t < |streams| && t != s ==> streams[t] == old(streams)[t]
      ensures ok <==> forall k :: 0 <= k < |pieces| ==> CanWriteAt(old(At(s)), threshold, alignment, codecs, mode, pieces, k)
      ensures (forall k :: 0 <= k < |pieces| ==> pieces[k].compressed) ==>
                (ok <==> Joined(pieces) == [] || TotalSize(old(streams[s].value)) + |Joined(pieces)| < NIL_STREAM_SIZE)
      ensures done <= |pieces| && (ok <==> done == |pieces|)
      ensures forall k :: 0 <= k < done ==> CanWriteAt(old(At(s)), threshold, alignment, codecs, mode, pieces, k)
      ensures !ok ==> !CanWriteAt(old(At(s)), threshold, alignment, codecs, mode, pieces, done)
      ensures Written(s) == old(Written(s)) + Joined(pieces[..done])
      ensures ok ==> At(s) == AdvanceAll(old(At(s)), threshold, alignment, codecs, mode, pieces)
    {
      hide *;
      ok, done := true, 0;
      ghost var before, st0, all, c := Written(s), Now(), streams, At(s);
      WriteStart(s);
      NothingJoined(pieces, before);
      NothingAdvanced(c, threshold, alignment, codecs, mode, pieces);
      if forall k :: 0 <= k < |pieces| ==> pieces[k].compressed {
        WriteDecided(s, Piece(true, []), alignment);
        CompressedFit(c, threshold, alignment, codecs, mode, pieces);
      }
      for k := 0 to |pieces|
        invariant Valid() && |streams| == |all| && streams[s].Some? && AtEnd(Now(), streams[s].value) && done == k
        invariant Grows(st0, Now()) && forall t :: 0 <= t < |streams| && t != s ==> streams[t] == all[t]
        invariant Written(s) == before + Joined(pieces[..k])
        invariant At(s) == AdvanceAll(c, threshold, alignment, codecs, mode, pieces[..k])
        invariant forall j :: 0 <= j < k ==> CanWriteAt(c, threshold, alignment, codecs, mode, pieces, j)
      {
        ghost var st1 := Now();
        WriteStart(s);
        ghost var l;
        CanWriteIs(c, threshold, alignment, codecs, mode, pieces, k);
        AdvanceNext(c, threshold, alignment, codecs, mode, pieces, k);
        ok, l := Write(s, pieces[k].data, pieces[k].compressed, alignment);
        GrowsTrans(st0, st1, Now());
        if !ok {
          StillWritten(s, st1);
          assert !CanWriteAt(c, threshold, alignment, codecs, mode, pieces, k);
          return;
        }
        if pieces[k].data == [] {
          StillWritten(s, st1);
        }
        JoinedMore(pieces, k, before);
        done := k + 1;
      }
      assert pieces[..|pieces|] == pieces;
      ok := true;
    }

    lemma StillWritten(s: nat, st0: Store)
      requires Valid() && s < |streams| && streams[s].Some? && Grows(st0, Now()) && HeldStream(st0, streams[s].value).Some?
      ensures Written(s) == HeldStream(st0, streams[s].value).value
    {
      HeldStreamGrows(st0, Now(), streams[s].value);
    }

    // -------------------------------------------------------------- finishing

    function Reader(): Source
      reads this`out, this`chunks
    {
      Source(out, chunks, codecs)
    }

    /** Once the last chunk is finished, a reader finds every chunk as it was written. */
    lemma ChunkReads(chunk: nat)
      requires Inverse(codecs) && Stored() && chunk < |contents|
      ensures ChunkData(Reader(), chunk) == Some(contents[chunk])
    {
      assert ChunkStored(out, chunks[chunk], contents[chunk], codecs);
    }

    lemma FragmentReads(f: Fragment)
      requires Inverse(codecs) && Stored() && chunkData == [] && 0 < f.size && Held(Now(), f).Some?
      ensures FragmentBytes(Reader(), f) == Held(Now(), f)
      ensures InChunkTable(f.location, ChunkSizes(chunks))
    {
      if f.location.Compressed? {
        ChunkReads(f.location.chunk);
        assert ChunkStored(out, chunks[f.location.chunk], contents[f.location.chunk], codecs);
      }
    }

    lemma {:induction false} StreamReads(fs: seq<Fragment>)
      requires Inverse(codecs) && Stored() && chunkData == [] && HeldStream(Now(), fs).Some?
      requires forall k :: 0 <= k < |fs| ==> 0 < fs[k].size
      ensures StreamBytes(Reader(), fs) == HeldStream(Now(), fs)
      ensures forall k :: 0 <= k < |fs| ==> InChunkTable(fs[k].location, ChunkSizes(chunks)) && fs[k].size <= TotalSize(fs)
    {
      hide *;
      if fs != [] {
        var n := |fs| - 1;
        HeldParts(Now(), fs);
        StreamReads(fs[..n]);
        FragmentReads(fs[n]);
        BytesOneMore(Reader(), fs);
        forall k | 0 <= k < |fs| ensures InChunkTable(fs[k].location, ChunkSizes(chunks)) && fs[k].size <= TotalSize(fs) {
          if k < n {
            assert fs[..n][k] == fs[k];
          }
        }
      } else {
        NoBytes(Reader(), Now());
      }
    }

    /** The directory that is written describes streams that an opener accepts, as long as chunk numbers fit into 31 bits. */
    lemma DirectoryReads()
      requires Inverse(codecs) && Valid() && chunkData == [] && |chunks| <= CHUNK_BIT
      ensures ReadDirectory(DirectoryWords(streams), |streams|, ChunkSizes(chunks)) == Some(streams)
      ensures ChunkSizesFit(ChunkSizes(chunks)) && forall s :: 0 <= s < |streams| ==> StreamFits(streams[s], ChunkSizes(chunks))
      ensures forall s :: 0 <= s < |streams| && streams[s].Some? ==> StreamBytes(Reader(), streams[s].value) == Some(Written(s))
    {
      forall s | 0 <= s < |streams| && streams[s].Some?
        ensures StreamFits(streams[s], ChunkSizes(chunks)) && StreamBytes(Reader(), streams[s].value) == Some(Written(s))
      {
        assert Sound(Now(), streams[s].value);
        StreamReads(streams[s].value);
      }
      forall i | 0 <= i < |chunks| ensures ChunkSizes(chunks)[i] < U32_LIMIT {
        assert ChunkStored(out, chunks[i], contents[i], codecs);
      }
      DirectoryRoundTrip(streams, ChunkSizes(chunks), []);
      assert DirectoryWords(streams) + [] == DirectoryWords(streams);
    }
  }

  /**
   * Two streams that take turns: `x` and then `z` are written to one, `y` in between to the other. When `z` is as long
   * as `x` and `y` together, it is merged with `x`, and the first stream reads as `x`, `y`, and the start of `z`.
   */
  method InterleavedWritesGoWrong(codecs: Algorithms, mode: nat, threshold: nat, x: seq<u8>, y: seq<u8>, z: seq<u8>) returns (w: MsfzWriter)
    requires x != [] && y != [] && |z| == |x| + |y| && |x| + |y| + |z| < threshold <= MAX_CHUNK_SIZE
    requires IsAlgorithm(codecs, mode)
    ensures |w.streams| == 3 && w.streams[1].Some? && HeldStream(w.Now(), w.streams[1].value) == Some(x + (y + z[..|x|]))
    ensures x + (y + z[..|x|]) == x + z <==> z == y + z[..|x|]
  {
    hide *;
    w := new MsfzWriter(codecs, mode, threshold);
    var s1 := w.NewStream();
    var s2 := w.NewStream();
    Short(threshold, x, y, z);
    var ok;
    ghost var l;
    w.WriteDecided(s1, Piece(true, x), 4);
    ok, l := w.Write(s1, x, true, 4);
    OneFragment([], |x|, l);
    Unmerged([], |x|, l);
    w.WriteDecided(s2, Piece(true, y), 4);
    ok, l := w.Write(s2, y, true, 4);
    OneFragment([], |y|, l);
    Unmerged([], |y|, l);
    w.WriteDecided(s1, Piece(true, z), 4);
    ok, l := w.Write(s1, z, true, 4);
    MergedTo(|x|, |z|, l);
    AllHeld(w, x, y, z);
    SamePrefix(x, y + z[..|x|], z);
  }

  lemma Short(threshold: nat, x: seq<u8>, y: seq<u8>, z: seq<u8>)
    requires |x| + |y| + |z| < threshold <= MAX_CHUNK_SIZE
    ensures |x| < threshold && |y| + |x| < threshold && |z| + |x + y| < threshold && |x + y| == |x| + |y|
    ensures TotalSize([]) == 0 && |x| < NIL_STREAM_SIZE && |y| < NIL_STREAM_SIZE && |x| + |z| < NIL_STREAM_SIZE
    ensures TotalSize([Fragment(|x|, Compressed(0, 0))]) == |x| && [] + x == x && [] + [x] == [x]
  {
    assert [Fragment(|x|, Compressed(0, 0))][..0] == [];
  }

  lemma OneFragment(fs: seq<Fragment>, size: nat, l: Location)
    requires fs == []
    ensures AddFragment(fs, size, l) == [Fragment(size, l)]
  {
  }

  lemma Unmerged(fs: seq<Fragment>, size: nat, l: Location)
    requires fs == []
    ensures !WrongMerge(fs, size, l)
  {
  }

  lemma MergedTo(a: nat, b: nat, l: Location)
    requires a < b && l == Compressed(0, b)
    ensures AddFragment([Fragment(a, Compressed(0, 0))], b, l) == [Fragment(a + b, Compressed(0, 0))]
  {
  }

  lemma AllHeld(w: MsfzWriter, x: seq<u8>, y: seq<u8>, z: seq<u8>)
    requires w.contents == [] && w.chunkData == x + y + z && |y| <= |z|
    ensures HeldStream(w.Now(), [Fragment(|x| + |z|, Compressed(0, 0))]) == Some(x + (y + z[..|z| - |y|]))
  {
    var fs := [Fragment(|x| + |z|, Compressed(0, 0))];
    assert fs[..0] == [];
    assert (x + y + z)[0..|x| + |z|] == x + (y + z[..|z| - |y|]);
    assert [] + (x + (y + z[..|z| - |y|])) == x + (y + z[..|z| - |y|]);
  }

  lemma NoBytes(src: Source, st: Store)
    ensures StreamBytes(src, []) == HeldStream(st, [])
  {
  }

  lemma HoldsFits(t: FragmentTables, streams: seq<StreamEntry>, s: nat)
    requires Holds(t, streams) && s < |streams|
    ensures s + 1 < |t.starts| && t.starts[s] <= t.starts[s + 1] <= |t.slots|
  {
    assert HoldsAt(t, s, streams[s]);
  }

  function Joined(pieces: seq<Piece>): seq<u8> {
    if pieces == [] then [] else Joined(pieces[..|pieces| - 1]) + pieces[|pieces| - 1].data
  }

  lemma NothingJoined(pieces: seq<Piece>, before: seq<u8>)
    ensures before == before + Joined(pieces[..0])
  {
    assert pieces[..0] == [];
    assert before + [] == before;
  }

  lemma NothingAdvanced(c: Cursor, threshold: nat, alignment: nat, codecs: Algorithms, mode: nat, pieces: seq<Piece>)
    requires 0 < alignment
    ensures AdvanceAll(c, threshold, alignment, codecs, mode, pieces[..0]) == c
  {
  }

  lemma CanWriteIs(c: Cursor, threshold: nat, alignment: nat, codecs: Algorithms, mode: nat, pieces: seq<Piece>, k: nat)
    requires 0 < alignment && k < |pieces|
    ensures CanWriteAt(c, threshold, alignment, codecs, mode, pieces, k)
            <==> CanWrite(AdvanceAll(c, threshold, alignment, codecs, mode, pieces[..k]), threshold, alignment, pieces[k])
    ensures Piece(pieces[k].compressed, pieces[k].data) == pieces[k]
  {
  }

  lemma JoinedMore(pieces: seq<Piece>, k: nat, before: seq<u8>)
    requires k < |pieces|
    ensures before + Joined(pieces[..k + 1]) == before + Joined(pieces[..k]) + pieces[k].data
    ensures pieces[k].data == [] ==> before + Joined(pieces[..k + 1]) == before + Joined(pieces[..k])
  {
    assert pieces[..k + 1][..k] == pieces[..k];
    ConcatAssoc(before, Joined(pieces[..k]), pieces[k].data);
    assert pieces[k].data == [] ==> Joined(pieces[..k]) + pieces[k].data == Joined(pieces[..k]);
  }

  /** Right after the last write, the next one is recognised correctly: in the same chunk, in a later one, or in the file. */
  lemma NextIsRight(st: Store, fs: seq<Fragment>, size: nat, l: Location)
    requires AtEnd(st, fs) && 0 < |st.chunks|
    requires match l
             case Compressed(chunk, offset) =>
               chunk == |st.chunks| || (chunk == |st.chunks| - 1 && offset == |st.chunks[chunk]|)
             case Uncompressed(fileOffset) => TotalSize(fs) == 0 || fileOffset == |st.out|
    ensures !WrongMerge(fs, size, l)
  {
  }
}
