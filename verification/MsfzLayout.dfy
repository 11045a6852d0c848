/** What an MSFZ file must look like to be opened, byte by byte, without the functions that read it (msfz/src/lib.rs). */
module MsfzLayout {
  import opened Bytes
  import opened MsfzFormat
  import opened MsfzStreams
  import opened MsfzFile

  /** A chunk as it is stored: its place in eight bytes, then three words. */
  predicate ChunkListed(b: seq<u8>, at: nat, e: ChunkEntry) {
    && e.fileOffset < 0x1_0000_0000_0000_0000
    && e.compression < U32_LIMIT && e.compressedSize < U32_LIMIT && e.uncompressedSize < U32_LIMIT
    && StoredAt(b, at, e.fileOffset) && StoredAt(b, at + 4, e.fileOffset / 0x1_0000_0000)
    && StoredAt(b, at + 8, e.compression) && StoredAt(b, at + 12, e.compressedSize) && StoredAt(b, at + 16, e.uncompressedSize)
  }

  /** The chunk table: twenty bytes for each chunk. Without chunks it may start behind the end of the file. */
  ghost predicate ChunksListed(file: seq<u8>, h: FileHeader, chunks: seq<ChunkEntry>) {
    && h.tableSize == 20 * h.numChunks && |chunks| == h.numChunks
    && forall i :: 0 <= i < |chunks| ==> ChunkListed(file, h.tableOffset + 20 * i, chunks[i])
  }

  /** The bytes of the directory: those of the file, or what they decompress to. */
  ghost predicate DirectoryStored(file: seq<u8>, h: FileHeader, codecs: Algorithms, dir: seq<u8>) {
    && h.dirOffset + h.dirStored <= |file|
    && var stored := file[h.dirOffset..h.dirOffset + h.dirStored];
       if h.dirCompression == 0 then h.dirSize == h.dirStored && dir == stored
       else codecs(h.dirCompression).Some? && codecs(h.dirCompression).value.decompress(stored, h.dirSize) == Some(dir)
  }

  /** A file with these chunks and these streams. */
  ghost predicate OnDisk(file: seq<u8>, codecs: Algorithms, h: FileHeader, dir: seq<u8>, words: seq<nat>,
                         chunks: seq<ChunkEntry>, streams: seq<StreamEntry>) {
    && HeaderStored(file, h) && HeaderFits(h)
    && DirectoryStored(file, h, codecs, dir) && WordsOf(dir, words)
    && ChunksListed(file, h, chunks)
    && 0 < |streams| == h.numStreams && DirectoryRead(words, 0, streams, ChunkSizes(chunks))
  }

  // ---------------------------------------------------------------- the directory bytes

  lemma DirBytesIff(file: seq<u8>, h: FileHeader, codecs: Algorithms, dir: seq<u8>)
    ensures ReadDirBytes(file, h, codecs) == Some(dir) <==> DirectoryStored(file, h, codecs, dir)
  {
  }

  // ---------------------------------------------------------------- the chunk table

  /** The entry in five words. */
  function ChunkOf(ws: seq<nat>, at: nat): ChunkEntry
    requires at + 5 <= |ws|
  {
    ChunkEntry(ws[at] + U32_LIMIT * ws[at + 1], ws[at + 2], ws[at + 3], ws[at + 4])
  }

  lemma {:induction false} TableIs(ws: seq<nat>, n: nat)
    requires 5 * n <= |ws|
    ensures var r := ReadTable(ws, n);
            r.Some? && |r.value| == n && forall i :: 0 <= i < n ==> r.value[i] == ChunkOf(ws, 5 * i)
    decreases n
  {
    if 0 < n {
      TableIs(ws[5..], n - 1);
      hide ReadTable;
      var more := ReadTable(ws[5..], n - 1).value;
      TableUnfold(ws, n);
      forall i | 0 <= i < n ensures ReadTable(ws, n).value[i] == ChunkOf(ws, 5 * i) {
        if 0 < i {
          assert ReadTable(ws, n).value[i] == more[i - 1] == ChunkOf(ws[5..], 5 * (i - 1));
          ChunkLater(ws, 5 * (i - 1));
        }
      }
    }
  }

  lemma TableUnfold(ws: seq<nat>, n: nat)
    requires 5 <= |ws| && 0 < n && ReadTable(ws[5..], n - 1).Some?
    ensures ReadTable(ws, n) == Some([ChunkOf(ws, 0)] + ReadTable(ws[5..], n - 1).value)
  {
  }

  lemma ChunkLater(ws: seq<nat>, at: nat)
    requires at + 10 <= |ws|
    ensures ChunkOf(ws[5..], at) == ChunkOf(ws, 5 + at)
  {
  }

  lemma TableBytes(file: seq<u8>, at: nat, n: nat, i: nat)
    requires at + 20 * n <= |file| && i < n
    ensures var table := file[at..at + 20 * n];
            |DecodeWords(table)| == 5 * n && ChunkListed(file, at + 20 * i, ChunkOf(DecodeWords(table), 5 * i))
  {
    hide StoredAt;
    var table, p := file[at..at + 20 * n], at + 20 * i;
    var ws := DecodeWords(table);
    assert |ws| == 5 * n;
    WordInTable(file, at, n, 5 * i);
    WordInTable(file, at, n, 5 * i + 1);
    WordInTable(file, at, n, 5 * i + 2);
    WordInTable(file, at, n, 5 * i + 3);
    WordInTable(file, at, n, 5 * i + 4);
    assert at + 4 * (5 * i) == p && at + 4 * (5 * i + 1) == p + 4 && at + 4 * (5 * i + 2) == p + 8;
    assert at + 4 * (5 * i + 3) == p + 12 && at + 4 * (5 * i + 4) == p + 16;
    OffsetHalves(ws[5 * i], ws[5 * i + 1]);
    LowWord(file, p, ws[5 * i] + U32_LIMIT * ws[5 * i + 1]);
  }

  lemma OffsetHalves(lo: nat, hi: nat)
    requires lo < U32_LIMIT && hi < U32_LIMIT
    ensures var w := lo + U32_LIMIT * hi;
            w < 0x1_0000_0000_0000_0000 && w % U32_LIMIT == lo && w / 0x1_0000_0000 == hi
  {
  }

  lemma WordInTable(file: seq<u8>, at: nat, n: nat, k: nat)
    requires at + 20 * n <= |file| && k < 5 * n
    ensures var ws := DecodeWords(file[at..at + 20 * n]);
            k < |ws| && ws[k] < U32_LIMIT && StoredAt(file, at + 4 * k, ws[k])
  {
    hide StoredAt;
    WordOfBytes(file, at + 4 * k);
  }

  /** Two chunks that are listed at the same place are the same. */
  lemma ChunkUnique(b: seq<u8>, at: nat, e: ChunkEntry, f: ChunkEntry)
    requires ChunkListed(b, at, e) && ChunkListed(b, at, f)
    ensures e == f
  {
    hide StoredAt;
    hide U32At;
    LowWordBack(b, at, e.fileOffset);
    LowWordBack(b, at, f.fileOffset);
    LowWordBack(b, at + 4, e.fileOffset / U32_LIMIT);
    LowWordBack(b, at + 4, f.fileOffset / U32_LIMIT);
    BytesOfWord(b, at + 8, e.compression);
    BytesOfWord(b, at + 8, f.compression);
    BytesOfWord(b, at + 12, e.compressedSize);
    BytesOfWord(b, at + 12, f.compressedSize);
    BytesOfWord(b, at + 16, e.uncompressedSize);
    BytesOfWord(b, at + 16, f.uncompressedSize);
  }

  ghost function TableOf(file: seq<u8>, h: FileHeader): Option<seq<ChunkEntry>> {
    var table :- ReadTableBytes(file, h);
    ReadTable(DecodeWords(table), h.numChunks)
  }

  lemma TableFits(file: seq<u8>, h: FileHeader, chunks: seq<ChunkEntry>)
    requires ChunksListed(file, h, chunks) && 0 < h.numChunks
    ensures h.tableOffset + h.tableSize <= |file|
  {
    var n := |chunks| - 1;
    assert ChunkListed(file, h.tableOffset + 20 * n, chunks[n]);
  }

  /** The chunk table is read exactly if it is there. */
  lemma TableIff(file: seq<u8>, h: FileHeader, chunks: seq<ChunkEntry>)
    ensures TableOf(file, h) == Some(chunks) <==> ChunksListed(file, h, chunks)
  {
    hide ChunkListed;
    hide ReadTable;
    hide ChunkOf;
    var n, at := h.numChunks, h.tableOffset;
    if ChunksListed(file, h, chunks) && 0 < n {
      TableFits(file, h, chunks);
    }
    if h.tableSize == 20 * n && n == 0 {
      NoTable(file, h);
    }
    if h.tableSize == 20 * n && 0 < n && at + 20 * n <= |file| {
      var ws := DecodeWords(file[at..at + 20 * n]);
      assert |ws| == 5 * n;
      TableIs(ws, n);
      assert TableOf(file, h) == ReadTable(ws, n);
      forall i | 0 <= i < n ensures ChunkListed(file, at + 20 * i, ReadTable(ws, n).value[i]) {
        TableBytes(file, at, n, i);
      }
      if ChunksListed(file, h, chunks) {
        forall i | 0 <= i < n ensures chunks[i] == ReadTable(ws, n).value[i] {
          ChunkUnique(file, at + 20 * i, chunks[i], ReadTable(ws, n).value[i]);
        }
        assert chunks == ReadTable(ws, n).value;
      }
    }
  }

  lemma NoTable(file: seq<u8>, h: FileHeader)
    requires h.tableSize == 0 == h.numChunks
    ensures TableOf(file, h) == Some([])
  {
  }

  // ---------------------------------------------------------------- the whole file

  lemma HeaderAlwaysFits(file: seq<u8>)
    ensures ReadFileHeader(file).Some? ==> HeaderFits(ReadFileHeader(file).value)
  {
    hide ReadFileHeader;
    hide U32At;
    HeaderFields(file);
  }

  lemma OpenIs(file: seq<u8>, codecs: Algorithms, chunks: seq<ChunkEntry>, streams: seq<StreamEntry>)
    ensures OpenFile(file, codecs) == Some(Opened(Source(file, chunks, codecs), streams))
            <==> && ReadFileHeader(file).Some?
                 && var h := ReadFileHeader(file).value;
                    && h.numStreams != 0 && ReadDirBytes(file, h, codecs).Some? && TableOf(file, h) == Some(chunks)
                    && ReadDirectory(DecodeWords(ReadDirBytes(file, h, codecs).value), h.numStreams, ChunkSizes(chunks)) == Some(streams)
  {
    hide ReadFileHeader;
    hide ReadDirBytes;
    hide ReadTableBytes;
    hide ReadTable;
    hide ReadDirectory;
  }

  /**
   * A file opens exactly if everything is where its header says, and well formed. Every other file is refused: one with
   * another signature or version, without streams, with a table of the wrong size, or with a fragment outside its chunk.
   */
  lemma OpensIff(file: seq<u8>, codecs: Algorithms, chunks: seq<ChunkEntry>, streams: seq<StreamEntry>)
    ensures OpenFile(file, codecs) == Some(Opened(Source(file, chunks, codecs), streams))
            <==> exists h, dir, words :: OnDisk(file, codecs, h, dir, words, chunks, streams)
  {
    hide *;
    OpenIs(file, codecs, chunks, streams);
    HeaderAlwaysFits(file);
    if exists h, dir, words :: OnDisk(file, codecs, h, dir, words, chunks, streams) {
      var h, dir, words :| OnDisk(file, codecs, h, dir, words, chunks, streams);
      StoredOpens(file, codecs, h, dir, words, chunks, streams);
    }
    if ReadFileHeader(file).Some? && ReadDirBytes(file, ReadFileHeader(file).value, codecs).Some? {
      var h := ReadFileHeader(file).value;
      OpenedStored(file, codecs, h, ReadDirBytes(file, h, codecs).value, chunks, streams);
    }
  }

  lemma StoredOpens(file: seq<u8>, codecs: Algorithms, h: FileHeader, dir: seq<u8>, words: seq<nat>,
                    chunks: seq<ChunkEntry>, streams: seq<StreamEntry>)
    requires OnDisk(file, codecs, h, dir, words, chunks, streams)
    ensures ReadFileHeader(file) == Some(h) && h.numStreams != 0 && ReadDirBytes(file, h, codecs) == Some(dir)
    ensures TableOf(file, h) == Some(chunks)
    ensures ReadDirectory(DecodeWords(dir), h.numStreams, ChunkSizes(chunks)) == Some(streams)
  {
    PartsOf(file, codecs, h, dir, words, chunks, streams);
    hide *;
    HeaderIff(file, h);
    DirBytesIff(file, h, codecs, dir);
    WordsIff(dir, words);
    TableIff(file, h, chunks);
    DirectoryIff(words, h.numStreams, streams, ChunkSizes(chunks));
  }

  lemma PartsOf(file: seq<u8>, codecs: Algorithms, h: FileHeader, dir: seq<u8>, words: seq<nat>,
                chunks: seq<ChunkEntry>, streams: seq<StreamEntry>)
    ensures OnDisk(file, codecs, h, dir, words, chunks, streams)
            <==> && HeaderStored(file, h) && HeaderFits(h)
                 && DirectoryStored(file, h, codecs, dir) && WordsOf(dir, words) && ChunksListed(file, h, chunks)
                 && 0 < |streams| == h.numStreams && DirectoryRead(words, 0, streams, ChunkSizes(chunks))
    ensures WordsOf(dir, words) ==> AllU32(words)
  {
    hide HeaderStored;
    hide HeaderFits;
    hide DirectoryStored;
    hide ChunksListed;
    hide DirectoryRead;
  }

  lemma OpenedStored(file: seq<u8>, codecs: Algorithms, h: FileHeader, dir: seq<u8>,
                     chunks: seq<ChunkEntry>, streams: seq<StreamEntry>)
    requires ReadFileHeader(file) == Some(h) && HeaderFits(h) && ReadDirBytes(file, h, codecs) == Some(dir)
    ensures h.numStreams != 0 && TableOf(file, h) == Some(chunks)
            && ReadDirectory(DecodeWords(dir), h.numStreams, ChunkSizes(chunks)) == Some(streams)
            ==> OnDisk(file, codecs, h, dir, DecodeWords(dir), chunks, streams)
  {
    PartsOf(file, codecs, h, dir, DecodeWords(dir), chunks, streams);
    hide *;
    HeaderIff(file, h);
    DirBytesIff(file, h, codecs, dir);
    WordsIff(dir, DecodeWords(dir));
    TableIff(file, h, chunks);
    DirectoryIff(DecodeWords(dir), h.numStreams, streams, ChunkSizes(chunks));
  }
}
