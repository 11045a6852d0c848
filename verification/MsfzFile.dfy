/** A whole MSFZ file: header, directory and chunk table, written and opened again (msfz/src/writer.rs, msfz/src/reader.rs). */
module MsfzFile {
  import opened Bytes
  import opened Parsing
  import opened MsfzFormat
  import opened MsfzStreams
  import opened MsfzWriters

  /** "Microsoft MSFZ Container", CR, LF, 0x1a, "ALD", and two zeros. */
  const SIGNATURE: seq<u8> := [
    0x4d, 0x69, 0x63, 0x72, 0x6f, 0x73, 0x6f, 0x66, 0x74, 0x20, 0x4d, 0x53, 0x46, 0x5a, 0x20, 0x43,
    0x6f, 0x6e, 0x74, 0x61, 0x69, 0x6e, 0x65, 0x72, 0x0d, 0x0a, 0x1a, 0x41, 0x4c, 0x44, 0x00, 0x00]

  const CHUNK_ENTRY_LEN: nat := 20
  const U64_LIMIT: nat := 0x1_0000_0000_0000_0000

  // ---------------------------------------------------------------- the header

  datatype FileHeader = FileHeader(dirOffset: nat, tableOffset: nat, numStreams: nat, dirCompression: nat,
                                   dirStored: nat, dirSize: nat, numChunks: nat, tableSize: nat)

  function HeaderWords(h: FileHeader): (ws: seq<nat>)
    ensures |ws| == 12
  {
    [0, 0, h.dirOffset % U32_LIMIT, h.dirOffset / U32_LIMIT, h.tableOffset % U32_LIMIT, h.tableOffset / U32_LIMIT,
     h.numStreams, h.dirCompression, h.dirStored, h.dirSize, h.numChunks, h.tableSize]
  }

  function EncodeHeader(h: FileHeader): (r: seq<u8>)
    ensures |r| == MSFZ_HEADER_LEN
  {
    SIGNATURE + EncodeWords(HeaderWords(h))
  }

  function HeaderOf(ws: seq<nat>): FileHeader
    requires |ws| == 12
  {
    FileHeader(ws[2] + U32_LIMIT * ws[3], ws[4] + U32_LIMIT * ws[5], ws[6], ws[7], ws[8], ws[9], ws[10], ws[11])
  }

  /** The version, in the first two words, must be zero. */
  function ReadFileHeader(file: seq<u8>): Option<FileHeader> {
    var signature :- TakeBytes(file, 32);
    var words :- TakeWords(signature.rest, 12);
    if signature.value != SIGNATURE || words.value[0] != 0 || words.value[1] != 0 then None else Some(HeaderOf(words.value))
  }

  predicate HeaderFits(h: FileHeader) {
    && h.dirOffset < U64_LIMIT && h.tableOffset < U64_LIMIT && h.numStreams < U32_LIMIT && h.dirCompression < U32_LIMIT
    && h.dirStored < U32_LIMIT && h.dirSize < U32_LIMIT && h.numChunks < U32_LIMIT && h.tableSize < U32_LIMIT
  }

  lemma FileHeaderRoundTrip(h: FileHeader, rest: seq<u8>)
    requires HeaderFits(h)
    ensures ReadFileHeader(EncodeHeader(h) + rest) == Some(h)
  {
    hide HeaderWords;
    hide HeaderOf;
    hide EncodeWords;
    hide TakeWords;
    hide TakeBytes;
    hide AllU32;
    var words := EncodeWords(HeaderWords(h));
    HeaderOfWords(h);
    ConcatAssoc(SIGNATURE, words, rest);
    TakeBytesOf(SIGNATURE, words + rest);
    TakeWordsOf(HeaderWords(h), rest);
  }

  lemma HeaderOfWords(h: FileHeader)
    requires HeaderFits(h)
    ensures AllU32(HeaderWords(h)) && HeaderOf(HeaderWords(h)) == h && HeaderWords(h)[0] == 0 == HeaderWords(h)[1]
  {
  }

  /** The header as it is stored, number by number. Offsets have two words. */
  predicate HeaderStored(b: seq<u8>, h: FileHeader) {
    && MSFZ_HEADER_LEN <= |b| && b[..32] == SIGNATURE && StoredAt(b, 32, 0) && StoredAt(b, 36, 0)
    && StoredAt(b, 40, h.dirOffset) && StoredAt(b, 44, h.dirOffset / U32_LIMIT)
    && StoredAt(b, 48, h.tableOffset) && StoredAt(b, 52, h.tableOffset / U32_LIMIT)
    && StoredAt(b, 56, h.numStreams) && StoredAt(b, 60, h.dirCompression) && StoredAt(b, 64, h.dirStored)
    && StoredAt(b, 68, h.dirSize) && StoredAt(b, 72, h.numChunks) && StoredAt(b, 76, h.tableSize)
  }

  lemma HeaderLayout(h: FileHeader)
    ensures HeaderStored(EncodeHeader(h), h)
  {
    hide EncodeWords;
    hide StoredAt;
    var b, ws := EncodeHeader(h), HeaderWords(h);
    assert b[32..32 + 48] == EncodeWords(ws) && b[..32] == SIGNATURE;
    forall i | 0 <= i < 12 ensures StoredAt(b, 32 + 4 * i, ws[i]) {
      WordsHere(b, 32, ws, i);
    }
    assert StoredAt(b, 32 + 4 * 2, ws[2]) && StoredAt(b, 32 + 4 * 4, ws[4]);
    LowWord(b, 40, h.dirOffset);
    LowWord(b, 48, h.tableOffset);
    assert StoredAt(b, 32 + 4 * 0, ws[0]) && StoredAt(b, 32 + 4 * 1, ws[1]) && StoredAt(b, 32 + 4 * 3, ws[3]);
    assert StoredAt(b, 32 + 4 * 5, ws[5]) && StoredAt(b, 32 + 4 * 6, ws[6]) && StoredAt(b, 32 + 4 * 7, ws[7]);
    assert StoredAt(b, 32 + 4 * 8, ws[8]) && StoredAt(b, 32 + 4 * 9, ws[9]) && StoredAt(b, 32 + 4 * 10, ws[10]);
    assert StoredAt(b, 32 + 4 * 11, ws[11]);
  }

  /** A header is found exactly if one is stored: any other signature or version is refused. */
  lemma HeaderIff(file: seq<u8>, h: FileHeader)
    requires HeaderFits(h)
    ensures ReadFileHeader(file) == Some(h) <==> HeaderStored(file, h)
  {
    hide *;
    if HeaderStored(file, h) {
      HeaderFound(file, h);
    }
    if ReadFileHeader(file) == Some(h) {
      HeaderThere(file, h);
    }
  }

  lemma WordOfHeader(file: seq<u8>, i: nat)
    requires MSFZ_HEADER_LEN <= |file| && i < 12
    ensures DecodeWords(file[32..][..48])[i] == U32At(file, 32 + 4 * i) && StoredAt(file, 32 + 4 * i, U32At(file, 32 + 4 * i))
  {
    WordOfBytes(file, 32 + 4 * i);
    hide StoredAt;
  }

  lemma HeaderFields(file: seq<u8>)
    ensures MSFZ_HEADER_LEN <= |file| ==>
              ReadFileHeader(file)
              == if file[..32] != SIGNATURE || U32At(file, 32) != 0 || U32At(file, 36) != 0 then None
                 else Some(FileHeader(U32At(file, 40) + U32_LIMIT * U32At(file, 44), U32At(file, 48) + U32_LIMIT * U32At(file, 52),
                                      U32At(file, 56), U32At(file, 60), U32At(file, 64), U32At(file, 68), U32At(file, 72), U32At(file, 76)))
    ensures |file| < MSFZ_HEADER_LEN ==> ReadFileHeader(file) == None
  {
    hide U32At;
    hide DecodeWords;
    if MSFZ_HEADER_LEN <= |file| {
      forall i | 0 <= i < 12 ensures DecodeWords(file[32..][..48])[i] == U32At(file, 32 + 4 * i) {
        WordOfHeader(file, i);
      }
    }
  }

  lemma HeaderThere(file: seq<u8>, h: FileHeader)
    requires ReadFileHeader(file) == Some(h)
    ensures HeaderStored(file, h)
  {
    hide U32At;
    hide StoredAt;
    hide ReadFileHeader;
    HeaderFields(file);
    forall i | 0 <= i < 12 ensures StoredAt(file, 32 + 4 * i, U32At(file, 32 + 4 * i)) {
      WordOfHeader(file, i);
    }
    assert StoredAt(file, 32 + 4 * 0, 0) && StoredAt(file, 32 + 4 * 1, 0);
    assert StoredAt(file, 32 + 4 * 2, h.dirOffset % U32_LIMIT) && StoredAt(file, 32 + 4 * 3, h.dirOffset / U32_LIMIT);
    assert StoredAt(file, 32 + 4 * 4, h.tableOffset % U32_LIMIT) && StoredAt(file, 32 + 4 * 5, h.tableOffset / U32_LIMIT);
    LowWord(file, 40, h.dirOffset);
    LowWord(file, 48, h.tableOffset);
    assert StoredAt(file, 32 + 4 * 6, h.numStreams) && StoredAt(file, 32 + 4 * 7, h.dirCompression);
    assert StoredAt(file, 32 + 4 * 8, h.dirStored) && StoredAt(file, 32 + 4 * 9, h.dirSize);
    assert StoredAt(file, 32 + 4 * 10, h.numChunks) && StoredAt(file, 32 + 4 * 11, h.tableSize);
  }

  lemma LowWordBack(b: seq<u8>, at: nat, w: nat)
    requires StoredAt(b, at, w)
    ensures U32At(b, at) == w % U32_LIMIT
  {
    SplitWord(w);
  }

  lemma HeaderFound(file: seq<u8>, h: FileHeader)
    requires HeaderStored(file, h) && HeaderFits(h)
    ensures ReadFileHeader(file) == Some(h)
  {
    hide U32At;
    hide StoredAt;
    hide ReadFileHeader;
    HeaderFields(file);
    LowWordBack(file, 32, 0);
    LowWordBack(file, 36, 0);
    LowWordBack(file, 40, h.dirOffset);
    LowWordBack(file, 44, h.dirOffset / U32_LIMIT);
    LowWordBack(file, 48, h.tableOffset);
    LowWordBack(file, 52, h.tableOffset / U32_LIMIT);
    LowWordBack(file, 56, h.numStreams);
    LowWordBack(file, 60, h.dirCompression);
    LowWordBack(file, 64, h.dirStored);
    LowWordBack(file, 68, h.dirSize);
    LowWordBack(file, 72, h.numChunks);
    LowWordBack(file, 76, h.tableSize);
  }

  /** The signature as text. */
  lemma SignatureText()
    ensures |SIGNATURE| == 32
    ensures forall i :: 0 <= i < 32 ==> SIGNATURE[i] as int == "Microsoft MSFZ Container\r\n\U{1A}ALD\0\0"[i] as int
  {
  }

  // ---------------------------------------------------------------- the chunk table

  function ChunkWords(e: ChunkEntry): (ws: seq<nat>)
    ensures |ws| == 5
  {
    [e.fileOffset % U32_LIMIT, e.fileOffset / U32_LIMIT, e.compression, e.compressedSize, e.uncompressedSize]
  }

  function TableWords(chunks: seq<ChunkEntry>): (ws: seq<nat>)
    ensures |ws| == 5 * |chunks|
  {
    if chunks == [] then [] else ChunkWords(chunks[0]) + TableWords(chunks[1..])
  }

  function ReadTable(ws: seq<nat>, n: nat): Option<seq<ChunkEntry>>
    decreases n
  {
    if n == 0 then Some([]) else
    if |ws| < 5 then None else
    var more :- ReadTable(ws[5..], n - 1);
    Some([ChunkEntry(ws[0] + U32_LIMIT * ws[1], ws[2], ws[3], ws[4])] + more)
  }

  predicate ChunkFits(e: ChunkEntry) {
    e.fileOffset < U64_LIMIT && e.compression < U32_LIMIT && e.compressedSize < U32_LIMIT && e.uncompressedSize < U32_LIMIT
  }

  lemma {:induction false} TableRoundTrip(chunks: seq<ChunkEntry>)
    requires forall i :: 0 <= i < |chunks| ==> ChunkFits(chunks[i])
    ensures AllU32(TableWords(chunks)) && ReadTable(TableWords(chunks), |chunks|) == Some(chunks)
  {
    if chunks != [] {
      var e, tail := chunks[0], chunks[1..];
      assert ChunkFits(chunks[0]) && chunks == [e] + tail && forall i :: 0 <= i < |tail| ==> tail[i] == chunks[i + 1];
      TableRoundTrip(tail);
      var ws := TableWords(chunks);
      assert ws[5..] == TableWords(tail);
      forall i | 0 <= i < |ws| ensures ws[i] < U32_LIMIT {
        if 5 <= i {
          assert ws[i] == TableWords(tail)[i - 5];
        }
      }
    }
  }

  /** The chunk table as it is stored: twenty bytes for each chunk. */
  lemma {:induction false} TableLayout(chunks: seq<ChunkEntry>, pre: seq<u8>, post: seq<u8>, i: nat)
    requires i < |chunks|
    ensures var b, at, e := pre + EncodeWords(TableWords(chunks)) + post, |pre| + 20 * i, chunks[i];
            && StoredAt(b, at, e.fileOffset) && StoredAt(b, at + 4, e.fileOffset / U32_LIMIT)
            && StoredAt(b, at + 8, e.compression) && StoredAt(b, at + 12, e.compressedSize) && StoredAt(b, at + 16, e.uncompressedSize)
  {
    hide EncodeWords;
    hide StoredAt;
    hide TableWords;
    var ws, b, at, e := TableWords(chunks), pre + EncodeWords(TableWords(chunks)) + post, |pre| + 20 * i, chunks[i];
    TableWordsAt(chunks, i);
    WordsStored(ws, pre, post, 5 * i);
    WordsStored(ws, pre, post, 5 * i + 1);
    WordsStored(ws, pre, post, 5 * i + 2);
    WordsStored(ws, pre, post, 5 * i + 3);
    WordsStored(ws, pre, post, 5 * i + 4);
    assert |pre| + 4 * (5 * i) == at && |pre| + 4 * (5 * i + 1) == at + 4 && |pre| + 4 * (5 * i + 2) == at + 8;
    assert |pre| + 4 * (5 * i + 3) == at + 12 && |pre| + 4 * (5 * i + 4) == at + 16;
    LowWord(b, at, e.fileOffset);
  }

  lemma {:induction false} TableWordsAt(chunks: seq<ChunkEntry>, i: nat)
    requires i < |chunks|
    ensures var ws, e := TableWords(chunks), chunks[i];
            && ws[5 * i] == e.fileOffset % U32_LIMIT && ws[5 * i + 1] == e.fileOffset / U32_LIMIT
            && ws[5 * i + 2] == e.compression && ws[5 * i + 3] == e.compressedSize && ws[5 * i + 4] == e.uncompressedSize
  {
    if 0 < i {
      TableWordsAt(chunks[1..], i - 1);
      hide *;
      TableWordsFirst(chunks);
      FiveLater(ChunkWords(chunks[0]), TableWords(chunks[1..]), 5 * (i - 1));
    }
  }

  lemma TableWordsFirst(chunks: seq<ChunkEntry>)
    requires chunks != []
    ensures TableWords(chunks) == ChunkWords(chunks[0]) + TableWords(chunks[1..])
  {
  }

  lemma FiveLater(a: seq<nat>, b: seq<nat>, i: nat)
    requires |a| == 5 && i + 5 <= |b|
    ensures (a + b)[i + 5] == b[i] && (a + b)[i + 6] == b[i + 1] && (a + b)[i + 7] == b[i + 2] && (a + b)[i + 8] == b[i + 3]
    ensures (a + b)[i + 9] == b[i + 4]
  {
  }

  // ---------------------------------------------------------------- opening

  /** What an opener makes of a file: where to read from, and the streams of the directory. */
  datatype Opened = Opened(src: Source, streams: seq<StreamEntry>)

  function ReadDirBytes(file: seq<u8>, h: FileHeader, codecs: Algorithms): Option<seq<u8>> {
    var stored :- Slice(file, h.dirOffset, h.dirStored);
    if h.dirCompression == COMPRESSION_NONE && h.dirSize != h.dirStored then None else
    DecompressWith(codecs, h.dirCompression, stored, h.dirSize)
  }

  /** Without chunks, nothing is read: the file may not even reach to the table. */
  function ReadTableBytes(file: seq<u8>, h: FileHeader): Option<seq<u8>> {
    if h.tableSize != CHUNK_ENTRY_LEN * h.numChunks then None else
    if h.numChunks == 0 then Some([]) else Slice(file, h.tableOffset, h.tableSize)
  }

  /** Opens a file. The algorithms of the chunks are looked up when a chunk is read. */
  function OpenFile(file: seq<u8>, codecs: Algorithms): Option<Opened> {
    var h :- ReadFileHeader(file);
    if h.numStreams == 0 then None else
    var dir :- ReadDirBytes(file, h, codecs);
    var table :- ReadTableBytes(file, h);
    var chunks :- ReadTable(DecodeWords(table), h.numChunks);
    var streams :- ReadDirectory(DecodeWords(dir), h.numStreams, ChunkSizes(chunks));
    Some(Opened(Source(file, chunks, codecs), streams))
  }

  /** The same, with the reader's tables, as the opener builds them. */
  method OpenTables(file: seq<u8>, codecs: Algorithms) returns (r: Option<(Source, FragmentTables)>)
    ensures r.Some? <==> OpenFile(file, codecs).Some?
    ensures r.Some? ==> r.value.0 == OpenFile(file, codecs).value.src
                        && Holds(r.value.1, OpenFile(file, codecs).value.streams)
  {
    hide ReadFileHeader;
    hide ReadDirBytes;
    hide ReadTableBytes;
    hide ReadTable;
    hide ReadDirectory;
    hide Holds;
    var header := ReadFileHeader(file);
    if header.None? || header.value.numStreams == 0 {
      return None;
    }
    var h := header.value;
    var dir := ReadDirBytes(file, h, codecs);
    var table := ReadTableBytes(file, h);
    if dir.None? || table.None? {
      return None;
    }
    var chunks := ReadTable(DecodeWords(table.value), h.numChunks);
    if chunks.None? {
      return None;
    }
    var tables := DecodeStreamDir(DecodeWords(dir.value), h.numStreams, ChunkSizes(chunks.value));
    if tables.None? {
      return None;
    }
    r := Some((Source(file, chunks.value, codecs), tables.value));
  }

  // ---------------------------------------------------------------- the header is written last

  /** The file with its header in place of the first bytes. */
  function Patched(out: seq<u8>, h: FileHeader): (r: seq<u8>)
    requires MSFZ_HEADER_LEN <= |out|
    ensures |r| == |out|
  {
    EncodeHeader(h) + out[MSFZ_HEADER_LEN..]
  }

  lemma PatchedSlice(out: seq<u8>, h: FileHeader, at: nat, n: nat)
    requires MSFZ_HEADER_LEN <= |out| && MSFZ_HEADER_LEN <= at
    ensures Slice(Patched(out, h), at, n) == Slice(out, at, n)
  {
    if at + n <= |out| {
      var x, y := Patched(out, h)[at..at + n], out[at..at + n];
      forall i | 0 <= i < n ensures x[i] == y[i] {
        assert x[i] == Patched(out, h)[at + i] == out[MSFZ_HEADER_LEN..][at + i - MSFZ_HEADER_LEN];
      }
      assert x == y;
    }
  }

  lemma PatchedFragment(src: Source, h: FileHeader, f: Fragment)
    requires MSFZ_HEADER_LEN <= |src.file| && InReach(f.location)
    requires forall i :: 0 <= i < |src.chunks| ==> MSFZ_HEADER_LEN <= src.chunks[i].fileOffset
    ensures FragmentBytes(src.(file := Patched(src.file, h)), f) == FragmentBytes(src, f)
  {
    hide Patched;
    hide Slice;
    match f.location
    case Compressed(chunk, offset) =>
      if chunk < |src.chunks| {
        PatchedSlice(src.file, h, src.chunks[chunk].fileOffset, src.chunks[chunk].compressedSize);
      }
    case Uncompressed(fileOffset) => PatchedSlice(src.file, h, fileOffset, f.size);
  }

  /** No stream is touched by writing the header. */
  lemma {:induction false} PatchedStream(src: Source, h: FileHeader, fs: seq<Fragment>)
    requires MSFZ_HEADER_LEN <= |src.file| && forall k :: 0 <= k < |fs| ==> InReach(fs[k].location)
    requires forall i :: 0 <= i < |src.chunks| ==> MSFZ_HEADER_LEN <= src.chunks[i].fileOffset
    ensures StreamBytes(src.(file := Patched(src.file, h)), fs) == StreamBytes(src, fs)
  {
    hide Patched;
    if fs != [] {
      PatchedStream(src, h, fs[..|fs| - 1]);
      PatchedFragment(src, h, fs[|fs| - 1]);
    }
  }

  // ---------------------------------------------------------------- finishing a file

  /** Everything that a finished file says about itself fits into its fields. */
  ghost predicate FileFits(h: FileHeader, chunks: seq<ChunkEntry>) {
    HeaderFits(h) && forall i :: 0 <= i < |chunks| ==> ChunkFits(chunks[i])
  }

  /** The directory and the chunk table are where the header says. */
  ghost predicate Described(out: seq<u8>, h: FileHeader, chunks: seq<ChunkEntry>, streams: seq<StreamEntry>, codecs: Algorithms) {
    && MSFZ_HEADER_LEN <= |out| && MSFZ_HEADER_LEN <= h.dirOffset && MSFZ_HEADER_LEN <= h.tableOffset
    && h.numStreams == |streams| && h.numChunks == |chunks| && h.tableSize == CHUNK_ENTRY_LEN * |chunks|
    && Slice(out, h.tableOffset, h.tableSize) == Some(EncodeWords(TableWords(chunks)))
    && h.dirSize == 4 * |DirectoryWords(streams)|
    && Slice(out, h.dirOffset, h.dirStored) == Some(CompressWith(codecs, h.dirCompression, EncodeWords(DirectoryWords(streams))))
    && (h.dirCompression == COMPRESSION_NONE || IsAlgorithm(codecs, h.dirCompression))
  }

  lemma DirBytesRead(out: seq<u8>, h: FileHeader, chunks: seq<ChunkEntry>, streams: seq<StreamEntry>, codecs: Algorithms)
    requires Described(out, h, chunks, streams, codecs) && Inverse(codecs)
    ensures ReadDirBytes(Patched(out, h), h, codecs) == Some(EncodeWords(DirectoryWords(streams)))
  {
    hide Patched;
    hide DirectoryWords;
    hide EncodeWords;
    PatchedSlice(out, h, h.dirOffset, h.dirStored);
    var dir := EncodeWords(DirectoryWords(streams));
    DecompressBack(codecs, h.dirCompression, dir);
  }

  lemma TableBytesRead(out: seq<u8>, h: FileHeader, chunks: seq<ChunkEntry>, streams: seq<StreamEntry>, codecs: Algorithms)
    requires Described(out, h, chunks, streams, codecs)
    ensures ReadTableBytes(Patched(out, h), h) == Some(EncodeWords(TableWords(chunks)))
  {
    hide Patched;
    PatchedSlice(out, h, h.tableOffset, h.tableSize);
  }

  /** A file that is described by its header opens as what was written. */
  lemma FileRoundTrip(out: seq<u8>, h: FileHeader, chunks: seq<ChunkEntry>, streams: seq<StreamEntry>, codecs: Algorithms)
    requires Described(out, h, chunks, streams, codecs) && Inverse(codecs) && FileFits(h, chunks)
    requires streams != [] && AllU32(DirectoryWords(streams))
    requires ReadDirectory(DirectoryWords(streams), |streams|, ChunkSizes(chunks)) == Some(streams)
    ensures OpenFile(Patched(out, h), codecs) == Some(Opened(Source(Patched(out, h), chunks, codecs), streams))
  {
    hide *;
    HeaderRead(out, h, chunks, streams, codecs);
    DirBytesRead(out, h, chunks, streams, codecs);
    TableBytesRead(out, h, chunks, streams, codecs);
    TableRead(h, chunks);
    WordsRoundTripExact(DirectoryWords(streams));
    OpensAs(Patched(out, h), h, EncodeWords(DirectoryWords(streams)), EncodeWords(TableWords(chunks)), chunks, streams, codecs);
  }

  lemma HeaderRead(out: seq<u8>, h: FileHeader, chunks: seq<ChunkEntry>, streams: seq<StreamEntry>, codecs: Algorithms)
    requires Described(out, h, chunks, streams, codecs) && FileFits(h, chunks)
    ensures MSFZ_HEADER_LEN <= |out| && ReadFileHeader(Patched(out, h)) == Some(h)
    ensures h.numStreams == |streams| && h.numChunks == |chunks|
  {
    FileHeaderRoundTrip(h, out[MSFZ_HEADER_LEN..]);
  }

  lemma TableRead(h: FileHeader, chunks: seq<ChunkEntry>)
    requires FileFits(h, chunks)
    ensures ReadTable(DecodeWords(EncodeWords(TableWords(chunks))), |chunks|) == Some(chunks)
  {
    TableRoundTrip(chunks);
    WordsRoundTripExact(TableWords(chunks));
  }

  lemma OpensAs(file: seq<u8>, h: FileHeader, dir: seq<u8>, table: seq<u8>, chunks: seq<ChunkEntry>, streams: seq<StreamEntry>,
                codecs: Algorithms)
    requires ReadFileHeader(file) == Some(h) && h.numStreams == |streams| != 0 && h.numChunks == |chunks|
    requires ReadDirBytes(file, h, codecs) == Some(dir) && ReadTableBytes(file, h) == Some(table)
    requires ReadTable(DecodeWords(table), |chunks|) == Some(chunks)
    requires ReadDirectory(DecodeWords(dir), |streams|, ChunkSizes(chunks)) == Some(streams)
    ensures OpenFile(file, codecs) == Some(Opened(Source(file, chunks, codecs), streams))
  {
    hide ReadFileHeader;
    hide ReadDirBytes;
    hide ReadTableBytes;
    hide ReadTable;
    hide ReadDirectory;
    hide DecodeWords;
  }

  lemma {:induction false} FragmentsWords32(fs: seq<Fragment>, sizes: seq<nat>)
    requires ChunkSizesFit(sizes) && forall k :: 0 <= k < |fs| ==> FragmentFits(fs[k], sizes)
    ensures AllU32(FragmentsWords(fs))
  {
    if fs != [] {
      assert FragmentFits(fs[0], sizes);
      FragmentsWords32(fs[1..], sizes);
      var a, b := FragmentWords(fs[0]), FragmentsWords(fs[1..]);
      assert a[0] < U32_LIMIT && a[1] < U32_LIMIT && a[2] < U32_LIMIT;
      forall i | 0 <= i < |a + b| ensures (a + b)[i] < U32_LIMIT {
        if 3 <= i {
          assert (a + b)[i] == b[i - 3];
        }
      }
    }
  }

  lemma {:induction false} DirectoryWords32(streams: seq<StreamEntry>, sizes: seq<nat>)
    requires ChunkSizesFit(sizes) && forall s :: 0 <= s < |streams| ==> StreamFits(streams[s], sizes)
    ensures AllU32(DirectoryWords(streams))
  {
    if streams != [] {
      assert StreamFits(streams[0], sizes);
      if streams[0].Some? {
        FragmentsWords32(streams[0].value, sizes);
      }
      DirectoryWords32(streams[1..], sizes);
      var a, b := StreamWords(streams[0]), DirectoryWords(streams[1..]);
      assert AllU32(a) && DirectoryWords(streams) == a + b;
    }
  }

  /** The chunk table of the finished file. */
  ghost function FinalChunks(w: MsfzWriter): seq<ChunkEntry>
    reads w
  {
    if w.chunkData == [] then w.chunks else
    w.chunks + [ChunkEntry(|w.out|, w.mode, |CompressWith(w.codecs, w.mode, w.chunkData)|, |w.chunkData|)]
  }

  /** The header of the finished file: it follows from the writer, before anything is finished. */
  ghost function FinalHeader(w: MsfzWriter, dirCompression: nat): FileHeader
    reads w
  {
    var end := |w.out| + if w.chunkData == [] then 0 else |CompressWith(w.codecs, w.mode, w.chunkData)|;
    var dir := EncodeWords(DirectoryWords(w.streams));
    var stored := CompressWith(w.codecs, dirCompression, dir);
    var dirOffset := RoundUp(end, 16);
    FileHeader(dirOffset, RoundUp(dirOffset + |stored|, 16), |w.streams|, dirCompression, |stored|, |dir|,
               |FinalChunks(w)|, CHUNK_ENTRY_LEN * |FinalChunks(w)|)
  }

  lemma FinalIs(w: MsfzWriter, dirCompression: nat)
    ensures FinalChunks(w) == if w.chunkData == [] then w.chunks else
              w.chunks + [ChunkEntry(|w.out|, w.mode, |CompressWith(w.codecs, w.mode, w.chunkData)|, |w.chunkData|)]
    ensures var end := |w.out| + if w.chunkData == [] then 0 else |CompressWith(w.codecs, w.mode, w.chunkData)|;
            var dir := EncodeWords(DirectoryWords(w.streams));
            var stored := CompressWith(w.codecs, dirCompression, dir);
            FinalHeader(w, dirCompression)
            == FileHeader(RoundUp(end, 16), RoundUp(RoundUp(end, 16) + |stored|, 16), |w.streams|, dirCompression,
                          |stored|, |dir|, |FinalChunks(w)|, CHUNK_ENTRY_LEN * |FinalChunks(w)|)
    ensures U32_LIMIT <= FinalHeader(w, dirCompression).dirSize || U32_LIMIT <= FinalHeader(w, dirCompression).tableSize
            ==> !FileFits(FinalHeader(w, dirCompression), FinalChunks(w))
  {
  }

  /** Everything fits if the chunk table starts before 2^32, and directory and table are smaller than that. */
  lemma SmallFileFits(w: MsfzWriter, dirCompression: nat)
    requires w.Valid() && (dirCompression == COMPRESSION_NONE || IsAlgorithm(w.codecs, dirCompression))
    requires FinalHeader(w, dirCompression).tableOffset < U32_LIMIT && |w.streams| < U32_LIMIT
    requires 4 * |DirectoryWords(w.streams)| < U32_LIMIT && CHUNK_ENTRY_LEN * (|w.chunks| + 1) < U32_LIMIT
    ensures FileFits(FinalHeader(w, dirCompression), FinalChunks(w))
  {
    hide DirectoryWords;
    hide CompressWith;
    forall i | 0 <= i < |w.chunks| ensures ChunkFits(w.chunks[i]) {
      assert ChunkStored(w.out, w.chunks[i], w.contents[i], w.codecs);
    }
  }

  /**
   * Finishes a file: the last chunk, the directory, the chunk table, and at last the header. `None` for a directory or a
   * chunk table that is too large.
   */
  method Finish(w: MsfzWriter, dirCompression: nat) returns (r: Option<seq<u8>>)
    requires w.Valid() && (dirCompression == COMPRESSION_NONE || IsAlgorithm(w.codecs, dirCompression))
    modifies w`chunkData, w`chunks, w`out, w`contents
    ensures w.Valid() && w.chunkData == []
    ensures forall s :: 0 <= s < |w.streams| && w.streams[s].Some? ==> w.Written(s) == old(w.Written(s))
    ensures w.chunks == old(FinalChunks(w))
    ensures var h := old(FinalHeader(w, dirCompression));
            && (r.Some? <==> h.dirSize < U32_LIMIT && h.tableSize < U32_LIMIT)
            && (r.Some? ==> Described(w.out, h, w.chunks, w.streams, w.codecs) && r.value == Patched(w.out, h))
  {
    hide *;
    FinalIs(w, dirCompression);
    ghost var st0, h := w.Now(), FinalHeader(w, dirCompression);
    w.Unfinished();
    w.FinishCurrentChunk();
    ghost var st1 := w.Now();
    var dirOffset := w.WriteAlign(16);
    ghost var st2, out2 := w.Now(), w.out;
    var words := EncodeStreamDir(w.streams);
    var dir := EncodeWords(words);
    TableLength(w.chunks, w.streams);
    if U32_LIMIT <= |dir| {
      GrowsTrans(st0, st1, st2);
      w.Finished(st0);
      return None;
    }
    var stored := CompressWith(w.codecs, dirCompression, dir);
    w.WriteOut(stored);
    ghost var st3 := w.Now();
    var tableOffset := w.WriteAlign(16);
    ghost var st4, out4 := w.Now(), w.out;
    GrowsTrans(st0, st1, st2);
    GrowsTrans(st0, st2, st3);
    GrowsTrans(st0, st3, st4);
    var table := EncodeWords(TableWords(w.chunks));
    TableLength(w.chunks, w.streams);
    if U32_LIMIT <= |table| {
      w.Finished(st0);
      return None;
    }
    w.WriteOut(table);
    GrowsTrans(st0, st4, w.Now());
    w.Finished(st0);
    var header := FileHeader(dirOffset, tableOffset, |w.streams|, dirCompression, |stored|, |dir|,
                             |w.chunks|, |table|);
    assert header == h;
    Placed(out2, out4, w.out, stored, table);
    DescribedBy(w.out, h, w.chunks, w.streams, w.codecs, dir, stored, table);
    r := Some(Patched(w.out, header));
  }

  /** Both parts are where they were appended. */
  lemma Placed(out2: seq<u8>, out4: seq<u8>, out: seq<u8>, stored: seq<u8>, table: seq<u8>)
    requires out2 + stored <= out4 && out == out4 + table
    ensures Slice(out, |out2|, |stored|) == Some(stored) && Slice(out, |out4|, |table|) == Some(table)
  {
    ConcatEnd(out2, stored);
    ConcatEnd(out4, table);
    assert Slice(out2 + stored, |out2|, |stored|) == Some(stored);
    SliceOfPrefix(out2 + stored, out, |out2|, |stored|);
  }

  lemma DescribedBy(out: seq<u8>, h: FileHeader, chunks: seq<ChunkEntry>, streams: seq<StreamEntry>, codecs: Algorithms,
                    dir: seq<u8>, stored: seq<u8>, table: seq<u8>)
    requires MSFZ_HEADER_LEN <= h.dirOffset && MSFZ_HEADER_LEN <= h.tableOffset && MSFZ_HEADER_LEN <= |out|
    requires h.numStreams == |streams| && h.numChunks == |chunks| && h.tableSize == |table| && h.dirSize == |dir|
    requires dir == EncodeWords(DirectoryWords(streams)) && stored == CompressWith(codecs, h.dirCompression, dir) && h.dirStored == |stored|
    requires table == EncodeWords(TableWords(chunks)) && (h.dirCompression == COMPRESSION_NONE || IsAlgorithm(codecs, h.dirCompression))
    requires Slice(out, h.dirOffset, |stored|) == Some(stored) && Slice(out, h.tableOffset, |table|) == Some(table)
    ensures Described(out, h, chunks, streams, codecs)
  {
    hide Slice;
    hide CompressWith;
    hide EncodeWords;
    hide DirectoryWords;
    hide TableWords;
  }

  lemma TableLength(chunks: seq<ChunkEntry>, streams: seq<StreamEntry>)
    ensures |EncodeWords(TableWords(chunks))| == CHUNK_ENTRY_LEN * |chunks|
    ensures |EncodeWords(DirectoryWords(streams))| == 4 * |DirectoryWords(streams)|
  {
  }

  /** The streams of a finished file decode, and no stream is touched by the header. */
  lemma FinishedReads(w: MsfzWriter, h: FileHeader)
    requires w.Valid() && w.chunkData == [] && Inverse(w.codecs) && w.streams != []
    requires Described(w.out, h, w.chunks, w.streams, w.codecs) && FileFits(h, w.chunks)
    ensures MSFZ_HEADER_LEN <= |w.out|
    ensures var file := Patched(w.out, h);
            && OpenFile(file, w.codecs) == Some(Opened(Source(file, w.chunks, w.codecs), w.streams))
            && forall s :: 0 <= s < |w.streams| && w.streams[s].Some? ==>
                 StreamBytes(Source(file, w.chunks, w.codecs), w.streams[s].value) == Some(w.Written(s))
  {
    hide *;
    w.Unfinished();
    ChunksFew(h, w.out, w.chunks, w.streams, w.codecs);
    w.DirectoryReads();
    DirectoryWords32(w.streams, ChunkSizes(w.chunks));
    FileRoundTrip(w.out, h, w.chunks, w.streams, w.codecs);
    forall s | 0 <= s < |w.streams| && w.streams[s].Some?
      ensures StreamBytes(Source(Patched(w.out, h), w.chunks, w.codecs), w.streams[s].value) == Some(w.Written(s))
    {
      ReaderIs(w);
      BehindHeader(w, w.streams[s].value);
      PatchedStream(w.Reader(), h, w.streams[s].value);
    }
  }

  lemma ReaderIs(w: MsfzWriter)
    ensures w.Reader() == Source(w.out, w.chunks, w.codecs)
  {
  }

  lemma ChunksFew(h: FileHeader, out: seq<u8>, chunks: seq<ChunkEntry>, streams: seq<StreamEntry>, codecs: Algorithms)
    requires Described(out, h, chunks, streams, codecs) && FileFits(h, chunks)
    ensures |chunks| <= CHUNK_BIT
  {
  }

  lemma BehindHeader(w: MsfzWriter, fs: seq<Fragment>)
    requires w.Stored() && Sound(w.Now(), fs)
    ensures forall k :: 0 <= k < |fs| ==> InReach(fs[k].location)
    ensures forall i :: 0 <= i < |w.chunks| ==> MSFZ_HEADER_LEN <= w.chunks[i].fileOffset
  {
    forall i | 0 <= i < |w.chunks| ensures MSFZ_HEADER_LEN <= w.chunks[i].fileOffset {
      assert ChunkStored(w.out, w.chunks[i], w.contents[i], w.codecs);
    }
  }

  /**
   * From writer to reader: a file is finished and opened again, and a stream is read from it, as a whole and in part.
   * What comes back is what was written, if the numbers fit into the fields of the header and of the chunk table, which
   * is known before anything is finished.
   */
  method FinishAndRead(w: MsfzWriter, s: nat, offset: nat, len: nat, dirCompression: nat)
    returns (file: Option<seq<u8>>, whole: Option<seq<u8>>, part: Option<seq<u8>>)
    requires w.Valid() && Inverse(w.codecs) && s < |w.streams| && w.streams[s].Some?
    requires dirCompression == COMPRESSION_NONE || IsAlgorithm(w.codecs, dirCompression)
    modifies w`chunkData, w`chunks, w`out, w`contents
    ensures var h := old(FinalHeader(w, dirCompression));
            && (file.Some? <==> h.dirSize < U32_LIMIT && h.tableSize < U32_LIMIT)
            && (file.Some? ==> Described(w.out, h, w.chunks, w.streams, w.codecs) && file.value == Patched(w.out, h))
    ensures old(FileFits(FinalHeader(w, dirCompression), FinalChunks(w))) ==>
              file.Some? && whole == Some(old(w.Written(s))) && part == Some(Window(old(w.Written(s)), offset, len))
  {
    hide *;
    FinalIs(w, dirCompression);
    ghost var h := FinalHeader(w, dirCompression);
    file := Finish(w, dirCompression);
    w.WriteStart(s);
    whole, part := None, None;
    if file.None? {
      return;
    }
    var reopened := OpenTables(file.value, w.codecs);
    if FileFits(h, w.chunks) {
      FinishedReads(w, h);
    }
    if reopened.None? {
      return;
    }
    var (src, tables) := reopened.value;
    if FileFits(h, w.chunks) {
      HoldsFits(tables, w.streams, s);
    }
    if |tables.starts| <= s + 1 || tables.starts[s + 1] < tables.starts[s] || |tables.slots| < tables.starts[s + 1] {
      return;
    }
    var fs := StreamFragments(tables, s);
    whole := MsfzStreams.ReadStream(src, fs);
    part := ReadAt(src, fs, offset, len);
    if FileFits(h, w.chunks) {
      FragmentsHeld(tables, w.streams, s);
    }
  }
}
