/** The stream directory of an MSFZ file (msfz/src/writer.rs, msfz/src/reader.rs). */
module MsfzFormat {
  import opened Bytes

  const CHUNK_BIT: nat := 0x8000_0000
  const FILE_OFFSET_LIMIT: nat := 0x1_0000_0000_0000

  datatype Location = Uncompressed(fileOffset: nat) | Compressed(chunk: nat, offset: nat)

  datatype Fragment = Fragment(size: nat, location: Location)

  /** The fragments of a stream; `None` for a nil stream. */
  type StreamEntry = Option<seq<Fragment>>

  // ---------------------------------------------------------------- packed locations

  /** The low and high half of a packed location. The top bit says that the fragment is compressed. */
  function LocationWords(l: Location): (nat, nat) {
    match l
    case Compressed(chunk, offset) => (offset, if chunk < CHUNK_BIT then chunk + CHUNK_BIT else chunk)
    case Uncompressed(fileOffset) => (fileOffset % U32_LIMIT, fileOffset / U32_LIMIT)
  }

  function LocationOf(lo: nat, hi: nat): Location {
    if CHUNK_BIT <= hi then Compressed(hi - CHUNK_BIT, lo) else Uncompressed((hi * U32_LIMIT + lo) % FILE_OFFSET_LIMIT)
  }

  /** The fields that a location can hold: 31 bits for the chunk, 48 bits for the file offset. */
  predicate LocationFits(l: Location) {
    match l
    case Compressed(chunk, offset) => chunk < CHUNK_BIT
    case Uncompressed(fileOffset) => fileOffset < FILE_OFFSET_LIMIT
  }

  /** A location survives packing exactly when its fields fit. */
  lemma LocationRoundTrip(l: Location)
    ensures LocationOf(LocationWords(l).0, LocationWords(l).1) == l <==> LocationFits(l)
  {
    if l.Uncompressed? {
      var x := l.fileOffset;
      assert x / U32_LIMIT * U32_LIMIT + x % U32_LIMIT == x;
    }
  }

  // ---------------------------------------------------------------- encoding

  function FragmentWords(f: Fragment): (ws: seq<nat>)
    ensures |ws| == 3
  {
    [f.size, LocationWords(f.location).0, LocationWords(f.location).1]
  }

  /** The fragments, and a zero to end the list. */
  function FragmentsWords(fs: seq<Fragment>): (ws: seq<nat>)
    ensures 0 < |ws|
  {
    if fs == [] then [0] else FragmentWords(fs[0]) + FragmentsWords(fs[1..])
  }

  function StreamWords(s: StreamEntry): (ws: seq<nat>)
    ensures 0 < |ws|
  {
    match s
    case None => [NIL_STREAM_SIZE]
    case Some(fs) => FragmentsWords(fs)
  }

  function DirectoryWords(streams: seq<StreamEntry>): seq<nat> {
    if streams == [] then [] else StreamWords(streams[0]) + DirectoryWords(streams[1..])
  }

  lemma {:induction false} FragmentsWordsSplit(fs: seq<Fragment>, k: nat)
    requires k < |fs|
    ensures FragmentsWords(fs[k..]) == FragmentWords(fs[k]) + FragmentsWords(fs[k + 1..])
  {
    assert fs[k..][1..] == fs[k + 1..];
  }

  /** A fragment: its size, then the chunk offset and the chunk with the top bit set, or the two halves of the file offset. */
  lemma FragmentLayout(f: Fragment)
    requires LocationFits(f.location)
    ensures var ws := FragmentWords(f);
            && |ws| == 3 && ws[0] == f.size
            && match f.location
               case Compressed(chunk, offset) => ws[1] == offset && ws[2] == 0x8000_0000 + chunk
               case Uncompressed(fileOffset) => ws[1] + 0x1_0000_0000 * ws[2] == fileOffset && ws[1] < 0x1_0000_0000 && ws[2] < 0x1_0000
  {
  }

  /** The top bit of the second word decides what a location is; a file offset has 48 bits. */
  lemma LocationRead(lo: nat, hi: nat)
    requires lo < U32_LIMIT && hi < U32_LIMIT
    ensures 0x8000_0000 <= hi ==> LocationOf(lo, hi) == Compressed(hi - 0x8000_0000, lo)
    ensures hi < 0x8000_0000 ==> LocationOf(lo, hi) == Uncompressed(lo + 0x1_0000_0000 * (hi % 0x1_0000))
  {
    var q, r := hi / 0x1_0000, hi % 0x1_0000;
    assert hi * U32_LIMIT + lo == q * FILE_OFFSET_LIMIT + (lo + U32_LIMIT * r);
  }

  /** A stream: three words for each fragment and a zero, or a single word for a nil stream. */
  lemma {:induction false} FragmentsLayout(fs: seq<Fragment>, k: nat)
    requires k < |fs|
    ensures |FragmentsWords(fs)| == 3 * |fs| + 1 && FragmentsWords(fs)[3 * |fs|] == 0
    ensures FragmentsWords(fs)[3 * k..3 * k + 3] == FragmentWords(fs[k])
  {
    var a, b := FragmentWords(fs[0]), FragmentsWords(fs[1..]);
    if 1 < |fs| {
      FragmentsLayout(fs[1..], if k == 0 then 0 else k - 1);
    } else {
      assert fs[1..] == [];
    }
    assert FragmentsWords(fs) == a + b;
    if k == 0 {
      assert (a + b)[..3] == a;
    } else {
      assert (a + b)[3 * k..3 * k + 3] == b[3 * k - 3..3 * k];
    }
  }

  /** The directory: the streams in order. */
  lemma {:induction false} DirectoryLayout(streams: seq<StreamEntry>, s: nat)
    requires s < |streams|
    ensures StreamWords(None) == [0xffff_ffff] && StreamWords(Some([])) == [0]
    ensures var ws, at := DirectoryWords(streams), |DirectoryWords(streams[..s])|;
            at + |StreamWords(streams[s])| <= |ws| && ws[at..at + |StreamWords(streams[s])|] == StreamWords(streams[s])
  {
    hide StreamWords;
    StreamWordsAre();
    var a, b := StreamWords(streams[0]), DirectoryWords(streams[1..]);
    if 0 < s {
      DirectoryLayout(streams[1..], s - 1);
      assert streams[..s][1..] == streams[1..][..s - 1];
      var at, n := |DirectoryWords(streams[1..][..s - 1])|, |StreamWords(streams[s])|;
      assert (a + b)[|a| + at..|a| + at + n] == b[at..at + n];
    } else {
      assert streams[..0] == [] && (a + b)[0..|a|] == a;
    }
  }

  lemma StreamWordsAre()
    ensures StreamWords(None) == [0xffff_ffff] && StreamWords(Some([])) == [0]
  {
  }

  lemma DirectoryWordsSplit(streams: seq<StreamEntry>, k: nat)
    requires k < |streams|
    ensures DirectoryWords(streams[k..]) == StreamWords(streams[k]) + DirectoryWords(streams[k + 1..])
  {
    assert streams[k..][1..] == streams[k + 1..];
  }

  /** Writes the directory, fragment by fragment. A nil stream is a single word. */
  method EncodeStreamDir(streams: seq<StreamEntry>) returns (words: seq<nat>)
    ensures words == DirectoryWords(streams)
  {
    words := [];
    assert streams[0..] == streams;
    for s := 0 to |streams|
      invariant words + DirectoryWords(streams[s..]) == DirectoryWords(streams)
    {
      DirectoryWordsSplit(streams, s);
      ghost var before := words;
      if streams[s].Some? {
        var fs := streams[s].value;
        assert fs[0..] == fs;
        for k := 0 to |fs|
          invariant words + FragmentsWords(fs[k..]) == before + FragmentsWords(fs)
        {
          FragmentsWordsSplit(fs, k);
          ConcatAssoc(words, FragmentWords(fs[k]), FragmentsWords(fs[k + 1..]));
          words := words + FragmentWords(fs[k]);
        }
        assert fs[|fs|..] == [];
        words := words + [0];
      } else {
        words := words + [NIL_STREAM_SIZE];
      }
      ConcatAssoc(before, StreamWords(streams[s]), DirectoryWords(streams[s + 1..]));
    }
    assert streams[|streams|..] == [];
  }

  // ---------------------------------------------------------------- decoding

  /** A compressed fragment starts inside an existing chunk. */
  predicate InChunkTable(l: Location, chunkSizes: seq<nat>) {
    l.Compressed? ==> l.chunk < |chunkSizes| && l.offset < chunkSizes[l.chunk]
  }

  datatype Part<T> = Part(value: T, rest: seq<nat>)

  /** Reads fragments up to the terminating zero. */
  function ReadFragments(ws: seq<nat>, chunkSizes: seq<nat>): (r: Option<Part<seq<Fragment>>>)
    ensures r.Some? ==> |r.value.rest| < |ws|
  {
    if ws == [] then None else
    if ws[0] == 0 then Some(Part([], ws[1..])) else
    if |ws| < 4 || (ws[1] == U32_LIMIT - 1 && ws[2] == U32_LIMIT - 1) then None else
    var l := LocationOf(ws[1], ws[2]);
    if !InChunkTable(l, chunkSizes) || ws[3] == NIL_STREAM_SIZE then None else
    var more :- ReadFragments(ws[3..], chunkSizes);
    Some(Part([Fragment(ws[0], l)] + more.value, more.rest))
  }

  function ReadEntry(ws: seq<nat>, chunkSizes: seq<nat>): (r: Option<Part<StreamEntry>>)
    ensures r.Some? ==> |r.value.rest| < |ws|
  {
    if ws == [] then None else
    if ws[0] == NIL_STREAM_SIZE then Some(Part(None, ws[1..])) else
    var fs :- ReadFragments(ws, chunkSizes);
    Some(Part(Some(fs.value), fs.rest))
  }

  function ReadDirectory(ws: seq<nat>, n: nat, chunkSizes: seq<nat>): Option<seq<StreamEntry>>
    decreases n
  {
    if n == 0 then Some([]) else
    var s :- ReadEntry(ws, chunkSizes);
    var more :- ReadDirectory(s.rest, n - 1, chunkSizes);
    Some([s.value] + more)
  }

  predicate FragmentFits(f: Fragment, chunkSizes: seq<nat>) {
    0 < f.size < NIL_STREAM_SIZE && LocationFits(f.location) && InChunkTable(f.location, chunkSizes)
  }

  predicate StreamFits(s: StreamEntry, chunkSizes: seq<nat>) {
    s.Some? ==> forall k :: 0 <= k < |s.value| ==> FragmentFits(s.value[k], chunkSizes)
  }

  /** No chunk is larger than a 32-bit size field can say. */
  predicate ChunkSizesFit(chunkSizes: seq<nat>) {
    forall i :: 0 <= i < |chunkSizes| ==> chunkSizes[i] < U32_LIMIT
  }

  lemma {:induction false} FragmentsRoundTrip(fs: seq<Fragment>, chunkSizes: seq<nat>, rest: seq<nat>)
    requires ChunkSizesFit(chunkSizes) && StreamFits(Some(fs), chunkSizes)
    ensures ReadFragments(FragmentsWords(fs) + rest, chunkSizes) == Some(Part(fs, rest))
  {
    var ws := FragmentsWords(fs) + rest;
    if fs == [] {
      assert ws[1..] == rest;
    } else {
      var f, tail := fs[0], fs[1..];
      assert FragmentFits(fs[0], chunkSizes);
      LocationRoundTrip(f.location);
      assert forall k :: 0 <= k < |tail| ==> tail[k] == fs[k + 1];
      FragmentsRoundTrip(tail, chunkSizes, rest);
      ConcatAssoc(FragmentWords(f), FragmentsWords(tail), rest);
      assert ws[3..] == FragmentsWords(tail) + rest;
      NextSize(tail, chunkSizes, rest);
      assert fs == [f] + tail;
    }
  }

  lemma NextSize(fs: seq<Fragment>, chunkSizes: seq<nat>, rest: seq<nat>)
    requires StreamFits(Some(fs), chunkSizes)
    ensures (FragmentsWords(fs) + rest)[0] != NIL_STREAM_SIZE
  {
    if fs != [] {
      assert FragmentFits(fs[0], chunkSizes);
    }
  }

  /** Decoding an encoded directory gives the same fragments and the same nil streams. */
  lemma {:induction false} DirectoryRoundTrip(streams: seq<StreamEntry>, chunkSizes: seq<nat>, rest: seq<nat>)
    requires ChunkSizesFit(chunkSizes) && forall s :: 0 <= s < |streams| ==> StreamFits(streams[s], chunkSizes)
    ensures ReadDirectory(DirectoryWords(streams) + rest, |streams|, chunkSizes) == Some(streams)
  {
    if streams != [] {
      var s, tail := streams[0], streams[1..];
      assert streams == [s] + tail && forall k :: 0 <= k < |tail| ==> tail[k] == streams[k + 1];
      DirectoryWordsSplit(streams, 0);
      hide StreamFits;
      hide ChunkSizesFit;
      hide StreamWords;
      hide ReadEntry;
      assert streams[0..] == streams;
      ConcatAssoc(StreamWords(s), DirectoryWords(tail), rest);
      StreamRoundTrip(s, chunkSizes, DirectoryWords(tail) + rest);
      DirectoryRoundTrip(tail, chunkSizes, rest);
    }
  }

  lemma StreamRoundTrip(s: StreamEntry, chunkSizes: seq<nat>, rest: seq<nat>)
    requires ChunkSizesFit(chunkSizes) && StreamFits(s, chunkSizes)
    ensures ReadEntry(StreamWords(s) + rest, chunkSizes) == Some(Part(s, rest))
  {
    match s
    case None =>
      assert (StreamWords(s) + rest)[1..] == rest;
    case Some(fs) =>
      FragmentsRoundTrip(fs, chunkSizes, rest);
      NextSize(fs, chunkSizes, rest);
  }

  // ---------------------------------------------------------------- the reader's tables

  /** An entry of the reader's fragment list: nil streams have an entry of their own. */
  datatype Slot = NilMark | Used(fragment: Fragment)

  /** The fragments of all streams, and where those of each stream start; one more start than there are streams. */
  datatype FragmentTables = FragmentTables(slots: seq<Slot>, starts: seq<nat>)

  function UsedSlots(fs: seq<Fragment>): (r: seq<Slot>)
    ensures |r| == |fs| && forall i :: 0 <= i < |fs| ==> r[i] == Used(fs[i])
  {
    seq(|fs|, i requires 0 <= i < |fs| => Used(fs[i]))
  }

  function SlotsOf(s: StreamEntry): seq<Slot> {
    match s
    case None => [NilMark]
    case Some(fs) => UsedSlots(fs)
  }

  predicate HoldsAt(t: FragmentTables, i: nat, s: StreamEntry) {
    && i + 1 < |t.starts| && t.starts[i] <= t.starts[i + 1] <= |t.slots|
    && t.slots[t.starts[i]..t.starts[i + 1]] == SlotsOf(s)
  }

  /** The tables hold these streams. */
  predicate Holds(t: FragmentTables, streams: seq<StreamEntry>) {
    |t.starts| == |streams| + 1 && forall i :: 0 <= i < |streams| ==> HoldsAt(t, i, streams[i])
  }

  function PrependFragments(fs: seq<Fragment>, r: Option<Part<seq<Fragment>>>): Option<Part<seq<Fragment>>> {
    if r.None? then None else Some(Part(fs + r.value.value, r.value.rest))
  }

  lemma PrependNothing(r: Option<Part<seq<Fragment>>>)
    ensures PrependFragments([], r) == r
  {
    if r.Some? {
      assert [] + r.value.value == r.value.value;
    }
  }

  lemma PrependNext(fs: seq<Fragment>, f: Fragment, r: Option<Part<seq<Fragment>>>)
    ensures PrependFragments(fs, PrependFragments([f], r)) == PrependFragments(fs + [f], r)
  {
    if r.Some? {
      ConcatAssoc(fs, [f], r.value.value);
    }
  }

  method DecodeFragments(ws0: seq<nat>, chunkSizes: seq<nat>) returns (r: Option<Part<seq<Fragment>>>)
    ensures r == ReadFragments(ws0, chunkSizes)
  {
    var ws, fs: seq<Fragment> := ws0, [];
    PrependNothing(ReadFragments(ws, chunkSizes));
    while ws != [] && ws[0] != 0
      invariant ReadFragments(ws0, chunkSizes) == PrependFragments(fs, ReadFragments(ws, chunkSizes))
      decreases |ws|
    {
      if |ws| < 4 || (ws[1] == U32_LIMIT - 1 && ws[2] == U32_LIMIT - 1) {
        return None;
      }
      var l := LocationOf(ws[1], ws[2]);
      if l.Compressed? && (|chunkSizes| <= l.chunk || chunkSizes[l.chunk] <= l.offset) {
        return None;
      }
      if ws[3] == NIL_STREAM_SIZE {
        return None;
      }
      PrependNext(fs, Fragment(ws[0], l), ReadFragments(ws[3..], chunkSizes));
      fs, ws := fs + [Fragment(ws[0], l)], ws[3..];
    }
    if ws == [] {
      return None;
    }
    assert fs + [] == fs;
    r := Some(Part(fs, ws[1..]));
  }

  // ---------------------------------------------------------------- what is read

  /** A fragment as it is read from three words. The word behind it must not be that of a nil stream. */
  predicate FragmentRead(ws: seq<nat>, at: nat, f: Fragment, chunkSizes: seq<nat>) {
    && at + 4 <= |ws| && f.size == ws[at] != 0
    && !(ws[at + 1] == ws[at + 2] == 0xffff_ffff) && ws[at + 3] != 0xffff_ffff
    && match f.location
       case Compressed(chunk, offset) =>
         && ws[at + 2] == 0x8000_0000 + chunk && ws[at + 1] == offset
         && chunk < |chunkSizes| && offset < chunkSizes[chunk]
       case Uncompressed(fileOffset) =>
         ws[at + 2] < 0x8000_0000 && fileOffset == ws[at + 1] + 0x1_0000_0000 * (ws[at + 2] % 0x1_0000)
  }

  ghost predicate FragmentsRead(ws: seq<nat>, at: nat, fs: seq<Fragment>, chunkSizes: seq<nat>) {
    && at + 3 * |fs| < |ws| && ws[at + 3 * |fs|] == 0
    && forall k :: 0 <= k < |fs| ==> FragmentRead(ws, at + 3 * k, fs[k], chunkSizes)
  }

  /** A stream as it is read from the words between `at` and `end`. */
  ghost predicate EntryRead(ws: seq<nat>, at: nat, end: nat, s: StreamEntry, chunkSizes: seq<nat>) {
    && at < end <= |ws|
    && match s
       case None => ws[at] == 0xffff_ffff && end == at + 1
       case Some(fs) => ws[at] != 0xffff_ffff && end == at + 3 * |fs| + 1 && FragmentsRead(ws, at, fs, chunkSizes)
  }

  /** The streams as they are read, each where the one before it ends. */
  ghost predicate EntriesRead(ws: seq<nat>, starts: seq<nat>, streams: seq<StreamEntry>, chunkSizes: seq<nat>) {
    && |starts| == |streams| + 1
    && forall s :: 0 <= s < |streams| ==> EntryRead(ws, starts[s], starts[s + 1], streams[s], chunkSizes)
  }

  lemma FragmentIff(ws: seq<nat>, at: nat, f: Fragment, chunkSizes: seq<nat>)
    requires AllU32(ws) && at + 4 <= |ws|
    ensures FragmentRead(ws, at, f, chunkSizes) <==>
            && ws[at] != 0 && !(ws[at + 1] == U32_LIMIT - 1 && ws[at + 2] == U32_LIMIT - 1) && ws[at + 3] != NIL_STREAM_SIZE
            && f == Fragment(ws[at], LocationOf(ws[at + 1], ws[at + 2])) && InChunkTable(f.location, chunkSizes)
  {
    LocationRead(ws[at + 1], ws[at + 2]);
    hide LocationOf;
  }

  lemma FragmentsUnfold(ws: seq<nat>, at: nat, chunkSizes: seq<nat>)
    requires at <= |ws|
    ensures at == |ws| ==> ReadFragments(ws[at..], chunkSizes) == None
    ensures at < |ws| && ws[at] == 0 ==> ReadFragments(ws[at..], chunkSizes) == Some(Part([], ws[at + 1..]))
    ensures at < |ws| < at + 4 && ws[at] != 0 ==> ReadFragments(ws[at..], chunkSizes) == None
    ensures at + 4 <= |ws| && ws[at] != 0 ==>
              var f := Fragment(ws[at], LocationOf(ws[at + 1], ws[at + 2]));
              ReadFragments(ws[at..], chunkSizes)
              == if (ws[at + 1] == U32_LIMIT - 1 && ws[at + 2] == U32_LIMIT - 1) || ws[at + 3] == NIL_STREAM_SIZE
                    || !InChunkTable(f.location, chunkSizes) then None else
                 PrependFragments([f], ReadFragments(ws[at + 3..], chunkSizes))
  {
    hide LocationOf;
    hide InChunkTable;
    var rest := ws[at..];
    if rest != [] {
      assert rest[1..] == ws[at + 1..];
    }
    if 4 <= |rest| {
      assert rest[3..] == ws[at + 3..];
    }
  }

  lemma FragmentsReadNext(ws: seq<nat>, at: nat, fs: seq<Fragment>, chunkSizes: seq<nat>)
    requires fs != []
    ensures FragmentsRead(ws, at, fs, chunkSizes)
            <==> FragmentRead(ws, at, fs[0], chunkSizes) && FragmentsRead(ws, at + 3, fs[1..], chunkSizes)
  {
    hide FragmentRead;
    var n, tail := |fs|, fs[1..];
    if FragmentsRead(ws, at, fs, chunkSizes) {
      assert FragmentRead(ws, at + 3 * 0, fs[0], chunkSizes);
      forall k | 0 <= k < n - 1 ensures FragmentRead(ws, at + 3 + 3 * k, tail[k], chunkSizes) {
        assert FragmentRead(ws, at + 3 * (k + 1), fs[k + 1], chunkSizes);
      }
    }
    if FragmentRead(ws, at, fs[0], chunkSizes) && FragmentsRead(ws, at + 3, tail, chunkSizes) {
      forall k | 0 <= k < n ensures FragmentRead(ws, at + 3 * k, fs[k], chunkSizes) {
        if 0 < k {
          assert FragmentRead(ws, at + 3 + 3 * (k - 1), tail[k - 1], chunkSizes);
        }
      }
    }
  }

  lemma PrependIs(f: Fragment, r: Option<Part<seq<Fragment>>>, fs: seq<Fragment>, rest: seq<nat>)
    requires fs != []
    ensures PrependFragments([f], r) == Some(Part(fs, rest)) <==> f == fs[0] && r == Some(Part(fs[1..], rest))
  {
    if r.Some? {
      assert ([f] + r.value.value)[1..] == r.value.value;
      assert fs == [fs[0]] + fs[1..];
    }
  }

  lemma FragmentsOnce(ws: seq<nat>, at: nat, fs: seq<Fragment>, chunkSizes: seq<nat>)
    ensures FragmentsRead(ws, at, fs, chunkSizes) ==>
              at < |ws| && (fs == [] <==> ws[at] == 0) && (fs != [] ==> at + 4 <= |ws| && FragmentRead(ws, at, fs[0], chunkSizes))
  {
    if fs != [] {
      FragmentsReadNext(ws, at, fs, chunkSizes);
    }
  }

  /** A list of fragments is read exactly if it is there: all fragments are well formed, and a zero ends the list. */
  lemma {:induction false} FragmentsIff(ws: seq<nat>, at: nat, fs: seq<Fragment>, chunkSizes: seq<nat>, rest: seq<nat>)
    requires AllU32(ws) && at <= |ws|
    ensures ReadFragments(ws[at..], chunkSizes) == Some(Part(fs, rest))
            <==> FragmentsRead(ws, at, fs, chunkSizes) && rest == ws[at + 3 * |fs| + 1..]
    decreases |ws| - at
  {
    FragmentsUnfold(ws, at, chunkSizes);
    FragmentsOnce(ws, at, fs, chunkSizes);
    hide ReadFragments;
    hide FragmentRead;
    hide PrependFragments;
    hide LocationOf;
    hide InChunkTable;
    if at + 4 <= |ws| && ws[at] != 0 {
      var f := Fragment(ws[at], LocationOf(ws[at + 1], ws[at + 2]));
      FragmentIff(ws, at, f, chunkSizes);
      if fs != [] {
        FragmentIff(ws, at, fs[0], chunkSizes);
        FragmentsReadNext(ws, at, fs, chunkSizes);
        FragmentsIff(ws, at + 3, fs[1..], chunkSizes, rest);
        PrependIs(f, ReadFragments(ws[at + 3..], chunkSizes), fs, rest);
        hide FragmentsRead;
      } else {
        PrependNotEmpty(f, ReadFragments(ws[at + 3..], chunkSizes), rest);
      }
    }
  }

  lemma PrependNotEmpty(f: Fragment, r: Option<Part<seq<Fragment>>>, rest: seq<nat>)
    ensures PrependFragments([f], r) != Some(Part([], rest))
  {
    if r.Some? {
      assert |[f] + r.value.value| != 0;
    }
  }

  /** The words of a stream: one for a nil stream, otherwise three for each fragment and one more. */
  function EntryEnd(at: nat, s: StreamEntry): nat {
    at + 1 + if s.Some? then 3 * |s.value| else 0
  }

  /** A stream is read exactly if its words are there. */
  lemma EntryIff(ws: seq<nat>, at: nat, s: StreamEntry, chunkSizes: seq<nat>, rest: seq<nat>)
    requires AllU32(ws) && at <= |ws|
    ensures ReadEntry(ws[at..], chunkSizes) == Some(Part(s, rest))
            <==> EntryRead(ws, at, EntryEnd(at, s), s, chunkSizes) && rest == ws[EntryEnd(at, s)..]
  {
    hide ReadFragments;
    if s.Some? {
      FragmentsIff(ws, at, s.value, chunkSizes, rest);
      FragmentsOnce(ws, at, s.value, chunkSizes);
    }
    hide FragmentsRead;
    if at < |ws| {
      assert ws[at..][0] == ws[at] && ws[at..][1..] == ws[at + 1..];
    }
  }

  lemma EntryEnds(ws: seq<nat>, at: nat, end: nat, s: StreamEntry, chunkSizes: seq<nat>)
    requires EntryRead(ws, at, end, s, chunkSizes)
    ensures end == EntryEnd(at, s) <= |ws|
  {
    hide FragmentsRead;
  }

  lemma EntriesReadNext(ws: seq<nat>, starts: seq<nat>, streams: seq<StreamEntry>, chunkSizes: seq<nat>)
    requires streams != [] && |starts| == |streams| + 1
    ensures EntriesRead(ws, starts, streams, chunkSizes)
            <==> EntryRead(ws, starts[0], starts[1], streams[0], chunkSizes) && EntriesRead(ws, starts[1..], streams[1..], chunkSizes)
  {
    hide EntryRead;
    var more, tail := starts[1..], streams[1..];
    if EntryRead(ws, starts[0], starts[1], streams[0], chunkSizes) && EntriesRead(ws, more, tail, chunkSizes) {
      forall s | 0 <= s < |streams| ensures EntryRead(ws, starts[s], starts[s + 1], streams[s], chunkSizes) {
        if 0 < s {
          assert EntryRead(ws, more[s - 1], more[s], tail[s - 1], chunkSizes);
        }
      }
    }
  }

  ghost predicate DirectoryRead(ws: seq<nat>, at: nat, streams: seq<StreamEntry>, chunkSizes: seq<nat>) {
    exists starts :: 0 < |starts| && starts[0] == at && EntriesRead(ws, starts, streams, chunkSizes)
  }

  lemma DirectoryReadNext(ws: seq<nat>, at: nat, streams: seq<StreamEntry>, chunkSizes: seq<nat>)
    requires streams != []
    ensures DirectoryRead(ws, at, streams, chunkSizes)
            <==> && EntryRead(ws, at, EntryEnd(at, streams[0]), streams[0], chunkSizes)
                 && DirectoryRead(ws, EntryEnd(at, streams[0]), streams[1..], chunkSizes)
  {
    hide EntriesRead;
    hide EntryRead;
    var next := EntryEnd(at, streams[0]);
    if DirectoryRead(ws, at, streams, chunkSizes) {
      var starts :| 0 < |starts| && starts[0] == at && EntriesRead(ws, starts, streams, chunkSizes);
      StartsLength(ws, starts, streams, chunkSizes);
      EntriesReadNext(ws, starts, streams, chunkSizes);
      EntryEnds(ws, at, starts[1], streams[0], chunkSizes);
      assert starts[1..][0] == next;
    }
    if EntryRead(ws, at, next, streams[0], chunkSizes) && DirectoryRead(ws, next, streams[1..], chunkSizes) {
      var more :| 0 < |more| && more[0] == next && EntriesRead(ws, more, streams[1..], chunkSizes);
      StartsLength(ws, more, streams[1..], chunkSizes);
      assert ([at] + more)[1..] == more;
      EntriesReadNext(ws, [at] + more, streams, chunkSizes);
      assert ([at] + more)[0] == at;
    }
  }

  lemma StartsLength(ws: seq<nat>, starts: seq<nat>, streams: seq<StreamEntry>, chunkSizes: seq<nat>)
    requires EntriesRead(ws, starts, streams, chunkSizes)
    ensures |starts| == |streams| + 1
  {
  }

  lemma DirectoryUnfold(ws: seq<nat>, streams: seq<StreamEntry>, chunkSizes: seq<nat>)
    requires streams != []
    ensures ReadDirectory(ws, |streams|, chunkSizes) == Some(streams)
            <==> && ReadEntry(ws, chunkSizes).Some? && ReadEntry(ws, chunkSizes).value.value == streams[0]
                 && ReadDirectory(ReadEntry(ws, chunkSizes).value.rest, |streams| - 1, chunkSizes) == Some(streams[1..])
  {
    hide ReadEntry;
    assert streams == [streams[0]] + streams[1..];
    if ReadEntry(ws, chunkSizes).Some? {
      var r := ReadDirectory(ReadEntry(ws, chunkSizes).value.rest, |streams| - 1, chunkSizes);
      assert r.Some? ==> ([ReadEntry(ws, chunkSizes).value.value] + r.value)[1..] == r.value;
    }
  }

  lemma {:induction false} DirectoryFrom(ws: seq<nat>, at: nat, streams: seq<StreamEntry>, chunkSizes: seq<nat>)
    requires AllU32(ws) && at <= |ws|
    ensures ReadDirectory(ws[at..], |streams|, chunkSizes) == Some(streams) <==> DirectoryRead(ws, at, streams, chunkSizes)
    decreases |streams|
  {
    if streams == [] {
      assert EntriesRead(ws, [at], [], chunkSizes) && [at][0] == at;
    } else {
      var s, next := streams[0], EntryEnd(at, streams[0]);
      DirectoryUnfold(ws[at..], streams, chunkSizes);
      DirectoryReadNext(ws, at, streams, chunkSizes);
      hide *;
      var r := ReadEntry(ws[at..], chunkSizes);
      if r.Some? {
        EntryIff(ws, at, r.value.value, chunkSizes, r.value.rest);
      }
      if EntryRead(ws, at, next, s, chunkSizes) {
        EntryIff(ws, at, s, chunkSizes, ws[next..]);
        EntryEnds(ws, at, next, s, chunkSizes);
        DirectoryFrom(ws, next, streams[1..], chunkSizes);
      }
    }
  }

  lemma {:induction false} DirectoryCount(ws: seq<nat>, n: nat, chunkSizes: seq<nat>)
    ensures var r := ReadDirectory(ws, n, chunkSizes); r.Some? ==> |r.value| == n
    decreases n
  {
    hide ReadEntry;
    if 0 < n && ReadEntry(ws, chunkSizes).Some? {
      DirectoryCount(ReadEntry(ws, chunkSizes).value.rest, n - 1, chunkSizes);
    }
  }

  /** The directory is read exactly if all its streams are there, one behind the other; what follows does not matter. */
  lemma DirectoryIff(ws: seq<nat>, n: nat, streams: seq<StreamEntry>, chunkSizes: seq<nat>)
    requires AllU32(ws)
    ensures ReadDirectory(ws, n, chunkSizes) == Some(streams) <==> |streams| == n && DirectoryRead(ws, 0, streams, chunkSizes)
  {
    hide *;
    assert ws[0..] == ws;
    DirectoryCount(ws, n, chunkSizes);
    if |streams| == n {
      DirectoryFrom(ws, 0, streams, chunkSizes);
    }
  }

  /** The tables after one more stream has been read. */
  function AddStream(t: FragmentTables, s: StreamEntry): FragmentTables {
    FragmentTables(t.slots + SlotsOf(s), t.starts + [|t.slots| + |SlotsOf(s)|])
  }

  predicate EndsAtEnd(t: FragmentTables) {
    t.starts != [] && t.starts[|t.starts| - 1] == |t.slots|
  }

  lemma HoldsOneMore(t: FragmentTables, streams: seq<StreamEntry>, s: StreamEntry)
    requires Holds(t, streams) && EndsAtEnd(t)
    ensures Holds(AddStream(t, s), streams + [s]) && EndsAtEnd(AddStream(t, s))
  {
    var t', n := AddStream(t, s), |streams|;
    forall i | 0 <= i < n + 1 ensures HoldsAt(t', i, (streams + [s])[i]) {
      if i < n {
        assert HoldsAt(t, i, streams[i]);
        assert t'.slots[t.starts[i]..t.starts[i + 1]] == t.slots[t.starts[i]..t.starts[i + 1]];
      } else {
        assert t'.slots[|t.slots|..] == SlotsOf(s);
      }
    }
  }

  function Prepend(done: seq<StreamEntry>, r: Option<seq<StreamEntry>>): Option<seq<StreamEntry>> {
    if r.None? then None else Some(done + r.value)
  }

  lemma PrependStream(done: seq<StreamEntry>, s: StreamEntry, r: Option<seq<StreamEntry>>)
    ensures Prepend(done, Prepend([s], r)) == Prepend(done + [s], r)
    ensures Prepend([], r) == r
  {
    if r.Some? {
      ConcatAssoc(done, [s], r.value);
      assert [] + r.value == r.value;
    }
  }

  lemma ReadOne(ws: seq<nat>, n: nat, chunkSizes: seq<nat>)
    requires 0 < n
    ensures ReadDirectory(ws, n, chunkSizes)
         == match ReadEntry(ws, chunkSizes) case None => None case Some(p) => Prepend([p.value], ReadDirectory(p.rest, n - 1, chunkSizes))
  {
  }

  method DecodeStream(ws: seq<nat>, chunkSizes: seq<nat>) returns (r: Option<Part<StreamEntry>>)
    ensures r == ReadEntry(ws, chunkSizes)
  {
    if ws == [] {
      return None;
    }
    if ws[0] == NIL_STREAM_SIZE {
      return Some(Part(None, ws[1..]));
    }
    var fs := DecodeFragments(ws, chunkSizes);
    if fs.None? {
      return None;
    }
    r := Some(Part(Some(fs.value.value), fs.value.rest));
  }

  /** Builds the reader's tables, stream by stream. */
  method DecodeStreamDir(words: seq<nat>, numStreams: nat, chunkSizes: seq<nat>) returns (r: Option<FragmentTables>)
    ensures r.Some? <==> ReadDirectory(words, numStreams, chunkSizes).Some?
    ensures r.Some? ==> Holds(r.value, ReadDirectory(words, numStreams, chunkSizes).value)
  {
    var slots: seq<Slot>, starts: seq<nat>, ws := [], [0], words;
    ghost var done: seq<StreamEntry> := [];
    PrependStream([], None, ReadDirectory(words, numStreams, chunkSizes));
    for s := 0 to numStreams
      invariant |done| == s && Holds(FragmentTables(slots, starts), done) && EndsAtEnd(FragmentTables(slots, starts))
      invariant ReadDirectory(words, numStreams, chunkSizes) == Prepend(done, ReadDirectory(ws, numStreams - s, chunkSizes))
    {
      ReadOne(ws, numStreams - s, chunkSizes);
      var part := DecodeStream(ws, chunkSizes);
      if part.None? {
        return None;
      }
      HoldsOneMore(FragmentTables(slots, starts), done, part.value.value);
      PrependStream(done, part.value.value, ReadDirectory(part.value.rest, numStreams - s - 1, chunkSizes));
      slots := slots + if part.value.value.None? then [NilMark] else UsedSlots(part.value.value.value);
      starts := starts + [|slots|];
      done, ws := done + [part.value.value], part.value.rest;
    }
    assert done + [] == done;
    r := Some(FragmentTables(slots, starts));
  }

  /** The fragments of one stream, as a reader finds them in its tables. */
  function StreamFragments(t: FragmentTables, s: nat): seq<Fragment>
    requires s + 1 < |t.starts| && t.starts[s] <= t.starts[s + 1] <= |t.slots|
  {
    var part := t.slots[t.starts[s]..t.starts[s + 1]];
    if part != [] && part[0].NilMark? then [] else
    seq(|part|, i requires 0 <= i < |part| => if part[i].Used? then part[i].fragment else Fragment(0, Uncompressed(0)))
  }

  /** A reader gets the fragments of the stream, and none for a nil stream. */
  lemma FragmentsHeld(t: FragmentTables, streams: seq<StreamEntry>, s: nat)
    requires Holds(t, streams) && s < |streams|
    ensures HoldsAt(t, s, streams[s])
    ensures StreamFragments(t, s) == if streams[s].Some? then streams[s].value else []
  {
    assert HoldsAt(t, s, streams[s]);
  }
}
