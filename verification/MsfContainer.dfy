/** An MSF file open for modification (msf/src/lib.rs, msf/src/write.rs, msf/src/commit.rs, msf/src/open.rs). */
module MsfContainer {
  import opened Bytes
  import opened Arith
  import opened Paging
  import opened Pages
  import opened Read
  import opened StreamSpec
  import opened StreamWriters
  import opened Directory
  import opened DiskLayout
  import opened Codec
  import opened CommitSteps
  import opened Tables
  import opened CommitState
  import opened Usage
  import Open

  const MAX_STREAM: nat := 0xfffe

  // ---------------------------------------------------------------- invariants, on values

  /** The pages that the committed state, if any, depends on. */
  ghost function FootprintOf(committed: Option<Snapshot>): iset<nat> {
    if committed.Some? && 0 < committed.value.header.pageSize && committed.value.table.Valid()
    then Footprint(committed.value) else iset{}
  }

  /** The pages of the committed state are out of the allocator's reach. */
  ghost predicate CommittedGuarded(committed: Option<Snapshot>, a: PageState, ps: nat, activeFpm: nat)
    requires 0 < ps
  {
    committed.Some? ==>
      var s := committed.value;
      && s.header.pageSize == ps && s.header.activeFpm == activeFpm && s.table.Valid()
      && Guarded(a, ps, Footprint(s))
  }

  /** The invariants that tie the tables, the page states, the file and the committed state together. */
  ghost predicate Inv(t: Tables, a: PageState, ps: nat, owner: map<nat, nat>, img: Image,
                      committed: Option<Snapshot>, activeFpm: nat)
    requires 0 < ps
  {
    && (activeFpm == 1 || activeFpm == 2)
    && t.Valid(ps)
    && Ownership(a, ps, t.View(), owner)
    && AllPresent(img, ps, t.View())
    && CommittedGuarded(committed, a, ps, activeFpm)
  }

  /** Since write number `since`, every image of the file opens as the committed state. */
  ghost predicate CommittedReadable(committed: Option<Snapshot>, since: nat, history: seq<Image>) {
    committed.Some? ==>
      && since < |history| && Decode(history[since]) == committed && ReadAll(history[since]).Some?
      && forall k :: since <= k < |history| ==> SameOn(history[since], history[k], Footprint(committed.value))
  }

  /** Crash atomicity: stopping after any write since the last commit leaves exactly the committed streams. */
  lemma ReadableAnytime(s: Snapshot, since: nat, history: seq<Image>, k: nat)
    requires CommittedReadable(Some(s), since, history) && since <= k < |history|
    ensures Decode(history[k]) == Some(s) && ReadAll(history[k]) == ReadAll(history[since])
  {
    DecodeFrame(history[since], history[k]);
    ReadAllFrame(history[since], history[k], s);
  }

  // ---------------------------------------------------------------- stream operations, abstractly

  function PadNil(st: seq<Stream>, n: nat): (r: seq<Stream>)
    ensures |r| == if |st| < n then n else |st|
  {
    if |st| < n then st + seq(n - |st|, _ => Nil) else st
  }

  /** A stream that is opened for writing exists and is not nil. */
  function Promote(st: seq<Stream>, stream: nat): (r: seq<Stream>)
    requires stream < |st|
    ensures |r| == |st| && r[stream].Data?
  {
    if st[stream].Nil? then st[stream := Data([])] else st
  }

  /** What a stream holds when it is opened for writing. */
  function OpenedBytes(st: seq<Stream>, stream: nat): seq<u8> {
    Promote(PadNil(st, stream + 1), stream)[stream].bytes
  }

  /**
   * The effect of writing `buf` at `offset` of a stream that may not exist yet. A write that ends at the largest 32-bit
   * number leaves a nil stream.
   */
  function ApplyWrite(st: seq<Stream>, maxStreams: nat, stream: nat, buf: seq<u8>, offset: nat): seq<Stream> {
    if stream < |st| || stream < maxStreams then
      var p := Promote(PadNil(st, stream + 1), stream);
      if buf == [] || NIL_STREAM_SIZE < offset + |buf| then p else
      p[stream := if offset + |buf| == NIL_STREAM_SIZE then Nil else Data(WriteSpec(p[stream].bytes, buf, offset))]
    else PadNil(st, maxStreams)
  }

  /** The stream is lost: its bytes are written, but its size says that there is no stream. */
  predicate EndsAtNil(st: seq<Stream>, maxStreams: nat, stream: nat, buf: seq<u8>, offset: nat) {
    (stream < |st| || stream < maxStreams) && buf != [] && offset + |buf| == NIL_STREAM_SIZE
  }

  function ApplySet(st: seq<Stream>, maxStreams: nat, stream: nat, data: seq<u8>): seq<Stream> {
    if stream < |st| || stream < maxStreams then
      var p := Promote(PadNil(st, stream + 1), stream);
      if |data| < NIL_STREAM_SIZE then p[stream := Data(data)] else p
    else PadNil(st, maxStreams)
  }

  /** The effect of `set_len`, where it works. */
  function ApplySetLen(st: seq<Stream>, maxStreams: nat, stream: nat, len: nat): seq<Stream> {
    if stream < |st| || stream < maxStreams then
      var p := Promote(PadNil(st, stream + 1), stream);
      p[stream := Data(if len <= |p[stream].bytes| then p[stream].bytes[..len] else ZeroExtend(p[stream].bytes, len))]
    else PadNil(st, maxStreams)
  }

  /** Where `set_len` works: for a length that is not greater, or from nothing to what a single allocation yields. */
  predicate LenWorks(st: seq<Stream>, stream: nat, len: nat, fpm: seq<bool>, ps: nat)
    requires 512 <= ps
  {
    var bytes := OpenedBytes(st, stream);
    len <= |bytes| || (bytes == [] && len < NIL_STREAM_SIZE && RunLength(fpm, ps, CeilDiv(len, ps)) == CeilDiv(len, ps))
  }

  /** What a stream held, in the list as it is; a missing stream and a nil stream hold nothing. */
  function BytesBefore(st: seq<Stream>, stream: nat): seq<u8> {
    if stream < |st| && st[stream].Data? then st[stream].bytes else []
  }

  /** All streams but one are as before, and those that are new are nil. */
  ghost predicate OthersKept(st: seq<Stream>, st': seq<Stream>, stream: nat) {
    |st| <= |st'| && forall t :: 0 <= t < |st'| && t != stream ==> st'[t] == if t < |st| then st[t] else Nil
  }

  /** The list is just as long as it must be: `stream` exists, unless too many streams are needed. */
  ghost predicate LongEnough(st: seq<Stream>, st': seq<Stream>, stream: nat, maxStreams: nat) {
    var n := if stream < |st| || stream < maxStreams then stream + 1 else maxStreams;
    |st'| == if |st| < n then n else |st|
  }

  lemma SameBytes(st: seq<Stream>, st': seq<Stream>, stream: nat)
    requires stream < |st'| && st'[stream] == Data(BytesBefore(st, stream))
    ensures BytesBefore(st', stream) == BytesBefore(st, stream) == st'[stream].bytes
  {
  }

  /** All streams but one are the same. */
  ghost predicate SameBut(st: seq<Stream>, st': seq<Stream>, stream: nat) {
    |st'| == |st| && forall t :: 0 <= t < |st| && t != stream ==> st'[t] == st[t]
  }

  lemma SameButOne(st: seq<Stream>, stream: nat, x: Stream)
    requires stream < |st|
    ensures SameBut(st, st[stream := x], stream)
  {
  }

  lemma OthersStillKept(st: seq<Stream>, st1: seq<Stream>, st2: seq<Stream>, stream: nat, maxStreams: nat)
    requires OthersKept(st, st1, stream) && LongEnough(st, st1, stream, maxStreams) && SameBut(st1, st2, stream)
    ensures OthersKept(st, st2, stream) && LongEnough(st, st2, stream, maxStreams)
  {
  }

  /** Opening a stream for writing, stream by stream. */
  lemma OpenedStreams(st: seq<Stream>, maxStreams: nat, stream: nat)
    ensures stream < |st| || stream < maxStreams ==>
              var p := Promote(PadNil(st, stream + 1), stream);
              && OthersKept(st, p, stream) && LongEnough(st, p, stream, maxStreams)
              && stream < |p| && p[stream] == Data(BytesBefore(st, stream))
              && OpenedBytes(st, stream) == BytesBefore(st, stream)
    ensures !(stream < |st| || stream < maxStreams) ==>
              OthersKept(st, PadNil(st, maxStreams), stream) && LongEnough(st, PadNil(st, maxStreams), stream, maxStreams)
  {
  }

  /** The effect of a write, stream by stream. */
  lemma WrittenStreams(st: seq<Stream>, maxStreams: nat, stream: nat, buf: seq<u8>, offset: nat)
    ensures var w := ApplyWrite(st, maxStreams, stream, buf, offset);
            && OthersKept(st, w, stream) && LongEnough(st, w, stream, maxStreams)
            && (stream < |w| && (buf == [] || NIL_STREAM_SIZE < offset + |buf|) ==> w[stream] == Data(BytesBefore(st, stream)))
            && (stream < |w| && buf != [] && offset + |buf| == NIL_STREAM_SIZE ==> w[stream] == Nil)
            && (stream < |w| && buf != [] && offset + |buf| < NIL_STREAM_SIZE ==>
                  w[stream] == Data(WriteSpec(BytesBefore(st, stream), buf, offset)))
  {
    OpenedStreams(st, maxStreams, stream);
    hide WriteSpec;
    hide PadNil;
    hide Promote;
  }

  /** The effect of replacing the contents, stream by stream. */
  lemma ReplacedStreams(st: seq<Stream>, maxStreams: nat, stream: nat, data: seq<u8>)
    ensures var r := ApplySet(st, maxStreams, stream, data);
            && OthersKept(st, r, stream) && LongEnough(st, r, stream, maxStreams)
            && (stream < |r| ==> r[stream] == Data(if |data| < NIL_STREAM_SIZE then data else BytesBefore(st, stream)))
  {
    OpenedStreams(st, maxStreams, stream);
    hide PadNil;
    hide Promote;
  }

  /** The effect of setting the length, stream by stream. */
  lemma LengthSetStreams(st: seq<Stream>, maxStreams: nat, stream: nat, len: nat)
    ensures var l, before := ApplySetLen(st, maxStreams, stream, len), BytesBefore(st, stream);
            && OthersKept(st, l, stream) && LongEnough(st, l, stream, maxStreams)
            && (stream < |l| ==> l[stream] == Data(if len <= |before| then before[..len] else before + Zeros(len - |before|)))
  {
    OpenedStreams(st, maxStreams, stream);
    hide PadNil;
    hide Promote;
  }

  lemma ApplySetLenIs(st: seq<Stream>, maxStreams: nat, stream: nat, len: nat, fpm: seq<bool>, ps: nat)
    requires 512 <= ps
    ensures !(stream < |st| || stream < maxStreams) ==> ApplySetLen(st, maxStreams, stream, len) == PadNil(st, maxStreams)
    ensures stream < |st| || stream < maxStreams ==>
              var p := Promote(PadNil(st, stream + 1), stream);
              && stream < |p| && p[stream].Data? && OpenedBytes(st, stream) == p[stream].bytes
              && (LenWorks(st, stream, len, fpm, ps) <==>
                    || len <= |p[stream].bytes|
                    || (p[stream].bytes == [] && len < NIL_STREAM_SIZE
                        && RunLength(fpm, ps, CeilDiv(len, ps)) == CeilDiv(len, ps)))
              && ApplySetLen(st, maxStreams, stream, len)
                 == p[stream := Data(if len <= |p[stream].bytes| then p[stream].bytes[..len] else ZeroExtend(p[stream].bytes, len))]
  {
  }

  lemma ApplyWriteIs(st: seq<Stream>, maxStreams: nat, stream: nat, buf: seq<u8>, offset: nat)
    ensures !(stream < |st| || stream < maxStreams) ==> ApplyWrite(st, maxStreams, stream, buf, offset) == PadNil(st, maxStreams)
    ensures EndsAtNil(st, maxStreams, stream, buf, offset) <==>
              (stream < |st| || stream < maxStreams) && buf != [] && offset + |buf| == NIL_STREAM_SIZE
    ensures stream < |st| || stream < maxStreams ==>
              var p := Promote(PadNil(st, stream + 1), stream);
              && stream < |p| && p[stream].Data? && OpenedBytes(st, stream) == p[stream].bytes
              && ApplyWrite(st, maxStreams, stream, buf, offset)
                 == if buf == [] || NIL_STREAM_SIZE < offset + |buf| then p else
                    p[stream := if offset + |buf| == NIL_STREAM_SIZE then Nil else Data(WriteSpec(p[stream].bytes, buf, offset))]
  {
  }

  lemma ApplySetIs(st: seq<Stream>, maxStreams: nat, stream: nat, data: seq<u8>)
    ensures !(stream < |st| || stream < maxStreams) ==> ApplySet(st, maxStreams, stream, data) == PadNil(st, maxStreams)
    ensures stream < |st| || stream < maxStreams ==>
              var p := Promote(PadNil(st, stream + 1), stream);
              && stream < |p| && p[stream].Data?
              && ApplySet(st, maxStreams, stream, data) == if |data| < NIL_STREAM_SIZE then p[stream := Data(data)] else p
  {
  }

  lemma SameEntry(st: seq<Stream>, stream: nat)
    requires stream < |st|
    ensures st[stream := st[stream]] == st
  {
  }

  lemma ReadableExtends(committed: Option<Snapshot>, since: nat, h0: seq<Image>, h1: seq<Image>, keep: iset<nat>)
    requires CommittedReadable(committed, since, h0) && Extends(h0, h1, keep)
    requires committed.Some? ==> committed.value.table.Valid() && 0 < committed.value.header.pageSize
    requires forall p :: p in FootprintOf(committed) ==> p in keep
    ensures CommittedReadable(committed, since, h1)
  {
    if committed.Some? {
      var f := Footprint(committed.value);
      forall k | since <= k < |h1| ensures SameOn(h1[since], h1[k], f) {
        assert h1[since] == h0[since];
        if k < |h0| {
          assert h1[k] == h0[k];
        } else {
          assert SameOn(h0[|h0| - 1], h1[k], keep);
          assert SameOn(h0[since], h0[|h0| - 1], f);
        }
      }
    }
  }

  /**
   * What `commit` reports, with the header that it wrote and the number of map pages that the header is followed by.
   * The last case is a panic of the original: the map does not even fit into page 0.
   */
  datatype CommitResult = NothingToDo | Committed(header: Header, numMapPages: nat) | MapTooLarge

  /** What `set_len` has come to: the length that was asked for, or not; `Panicked` stands for a panic of the original. */
  datatype LenResult = Done | NoSuchStream | WrongSize | Panicked

  class Msf {
    const file: BlockFile
    const pages: PageAllocator
    const maxStreams: nat
    var activeFpm: nat
    /** The sizes of all streams, committed and uncommitted changes combined. */
    var streamSizes: seq<nat>
    var committedStreamPages: seq<nat>
    var committedStreamPageStarts: seq<nat>
    /** The page lists of the streams that were modified since the last commit. */
    var modifiedStreams: map<nat, seq<nat>>

    /** Which stream owns which page; what the file opens as, and since which write. */
    ghost var owner: map<nat, nat>
    ghost var committed: Option<Snapshot>
    ghost var since: nat

    ghost function Tabs(): Tables
      reads this`streamSizes, this`modifiedStreams, this`committedStreamPageStarts, this`committedStreamPages
    {
      Tables(streamSizes, modifiedStreams, committedStreamPageStarts, committedStreamPages)
    }

    ghost function View(): (r: seq<seq<nat>>)
      reads this`streamSizes, this`modifiedStreams, this`committedStreamPageStarts, this`committedStreamPages
      ensures |r| == |streamSizes|
    {
      Tabs().View()
    }

    ghost predicate Valid()
      reads this, file, pages
    {
      && pages.Valid() && file.Valid() && maxStreams < U32_LIMIT
      && Inv(Tabs(), pages.State(), pages.pageSize, owner, file.image, committed, activeFpm)
      && CommittedReadable(committed, since, file.history)
    }

    /** Nothing has been modified since the last commit. */
    ghost predicate Clean()
      reads this`modifiedStreams
    {
      modifiedStreams == map[]
    }

    /** The current contents of all streams. */
    ghost function Streams(): (r: seq<Stream>)
      reads this`streamSizes, this`modifiedStreams, this`committedStreamPageStarts, this`committedStreamPages, file`image
      ensures |r| == |streamSizes|
    {
      StreamsOf(file.image, pages.pageSize, streamSizes, View())
    }

    // -------------------------------------------------------------- creating and opening

    /** A file without streams. Nothing is written until the first commit. */
    constructor Create(file: BlockFile, pageSize: nat, maxStreams: nat)
      requires file.Valid() && IsPageSize(pageSize) && maxStreams < U32_LIMIT
      ensures Valid() && fresh(pages) && this.file == file && pages.pageSize == pageSize && this.maxStreams == maxStreams
      ensures committed == None && Streams() == [Data([])] && owner == map[] && pages.numPages == 3 && InUse() == 0
      ensures activeFpm == 2 && streamSizes == [0]
    {
      hide Inv;
      hide StreamsOf;
      hide Taken;
      this.file, this.maxStreams := file, maxStreams;
      pages := new PageAllocator(3, pageSize);
      activeFpm := 2;
      streamSizes, committedStreamPages, committedStreamPageStarts := [0], [], [0, 0];
      modifiedStreams := map[];
      owner, committed, since := map[], None, 0;
      new;
      NewFile(pages.State(), pageSize, file.image);
    }

    /** The state that the opener has read from the file. */
    constructor FromSnapshot(file: BlockFile, s: Snapshot, pages: PageAllocator, maxStreams: nat)
      requires file.Valid() && s.table.Valid()
      ensures this.file == file && this.pages == pages && this.maxStreams == maxStreams
      ensures owner == TableOwner(s.table) && committed == Some(s) && since == |file.history| - 1 && Clean()
      ensures activeFpm == s.header.activeFpm && Tabs() == Tables(s.table.sizes, map[], s.table.starts, s.table.pages)
    {
      this.file, this.pages, this.maxStreams := file, pages, maxStreams;
      activeFpm := s.header.activeFpm;
      streamSizes, committedStreamPages, committedStreamPageStarts := s.table.sizes, s.table.pages, s.table.starts;
      modifiedStreams := map[];
      owner, committed, since := TableOwner(s.table), Some(s), |file.history| - 1;
    }

    /**
     * Opens a file for modification. Succeeds exactly if every strict check of the file passes. The checks do not read
     * the pages of the streams; if those are in the file, too, the editor is in order.
     */
    static method ModifyWithFile(file: BlockFile) returns (r: Open.Result<Msf>)
      requires file.Valid()
      ensures r.Success? <==> Decode(file.image).Some?
      ensures r.Success? <==> exists s, words :: OnDisk(file.image, s, words)
      ensures r.Success? ==>
                var m := r.value;
                && m.committed.Some? && (exists words :: OnDisk(file.image, m.committed.value, words))
                && m.committed.value.table.Valid() && m.committed.value.table.sizes == m.streamSizes
                && forall s :: 1 <= s < |m.streamSizes| ==> m.View()[s] == m.committed.value.table.Pages(s)
      ensures r.Success? ==>
                var m := r.value;
                && fresh(m) && m.file == file && fresh(m.pages) && m.maxStreams == 0xfffe && m.Clean()
                && m.committed == Decode(file.image) && m.since == |file.history| - 1
                && Synced(m.committed.value, m.Tabs(), m.pages.State(), m.pages.pageSize, m.pages.numPages, m.activeFpm)
      ensures r.Success? && ReadAll(file.image).Some? ==> r.value.Valid() && ReadAll(file.image) == Some(r.value.Streams())
    {
      hide *;
      var result, alloc := Open.OpenForModify(file);
      if result.Failure? {
        return Open.Failure(result.error);
      }
      ghost var s := result.value;
      OpenedSynced(file.image, s, alloc.State(), alloc.pageSize, alloc.numPages);
      var m := new Msf.FromSnapshot(file, result.value, alloc, 0xfffe);
      m.SyncedPages(s, alloc.State());
      if ReadAll(file.image).Some? {
        m.JustOpened(s);
      }
      r := Open.Success(m);
    }

    lemma JustOpened(s: Snapshot)
      requires s.table.Valid() && owner == TableOwner(s.table) && committed == Some(s)
      requires file.Valid() && pages.Valid() && maxStreams == 0xfffe
      requires since == |file.history| - 1 && Decode(file.image) == Some(s) && ReadAll(file.image).Some?
      requires PagesAcceptable(pages.pageSize, pages.numPages, UsedPages(s))
      requires Synced(s, Tabs(), pages.State(), pages.pageSize, pages.numPages, activeFpm)
      ensures Valid() && ReadAll(file.image) == Some(Streams())
    {
      OpenedInvariants(file.history, s, pages.State(), pages.pageSize, pages.numPages, Tabs());
      hide Inv;
      hide CommittedReadable;
      hide StreamsOf;
      hide OpenedState;
      hide PagesAcceptable;
      hide Decode;
    }

    // -------------------------------------------------------------- adding streams

    method AddStream(size: nat) returns (r: Option<nat>)
      requires Valid() && (size == 0 || size == NIL_STREAM_SIZE)
      modifies this`streamSizes, this`modifiedStreams
      ensures Valid()
      ensures r == if |old(streamSizes)| < maxStreams then Some(|old(streamSizes)|) else None
      ensures r.None? ==> Tabs() == old(Tabs())
      ensures r.Some? ==> Tabs() == old(Tabs()).Append(size) && !Clean()
      ensures Streams() == if r.None? then old(Streams()) else old(Streams()) + [if size == 0 then Data([]) else Nil]
      ensures Clean() ==> old(Clean()) && Streams() == old(Streams())
    {
      hide Inv;
      hide StreamsOf;
      hide CommittedReadable;
      if maxStreams <= |streamSizes| {
        return None;
      }
      AppendInv(Tabs(), pages.State(), pages.pageSize, owner, file.image, committed, activeFpm, size);
      ghost var t := Tabs().Append(size);
      r := Some(|streamSizes|);
      modifiedStreams := modifiedStreams[|streamSizes| := []];
      assert |streamSizes| in modifiedStreams;
      streamSizes := streamSizes + [size];
      assert Tabs() == t;
    }

    /** Adds a nil stream. Fails when the maximum number of streams is reached. */
    method NilStream() returns (r: Option<nat>)
      requires Valid()
      modifies this`streamSizes, this`modifiedStreams
      ensures Valid()
      ensures r == if |old(streamSizes)| < maxStreams then Some(|old(streamSizes)|) else None
      ensures r.None? ==> Tabs() == old(Tabs())
      ensures r.Some? ==> Tabs() == old(Tabs()).Append(NIL_STREAM_SIZE) && !Clean()
      ensures Streams() == if r.None? then old(Streams()) else old(Streams()) + [Nil]
      ensures Clean() ==> old(Clean()) && Streams() == old(Streams())
    {
      r := AddStream(NIL_STREAM_SIZE);
    }

    /** Adds an empty stream. */
    method NewStream() returns (r: Option<nat>)
      requires Valid()
      modifies this`streamSizes, this`modifiedStreams
      ensures Valid()
      ensures r == if |old(streamSizes)| < maxStreams then Some(|old(streamSizes)|) else None
      ensures r.None? ==> Tabs() == old(Tabs())
      ensures r.Some? ==> Tabs() == old(Tabs()).Append(0)
      ensures Streams() == if r.None? then old(Streams()) else old(Streams()) + [Data([])]
      ensures Clean() ==> old(Clean()) && Streams() == old(Streams())
    {
      r := AddStream(0);
    }

    /** Creates a file with its four fixed streams, all nil. */
    static method CreateFor(file: BlockFile, pageSize: nat, maxStreams: nat) returns (m: Msf?)
      requires file.Valid() && IsPageSize(pageSize) && maxStreams < U32_LIMIT
      ensures m == null <==> maxStreams < 5
      ensures m != null ==> fresh(m) && fresh(m.pages) && m.file == file && m.Valid() && m.committed == None
                            && m.pages.pageSize == pageSize && m.maxStreams == maxStreams
                            && m.Streams() == [Data([]), Nil, Nil, Nil, Nil] && !m.Clean()
                            && m.pages.numPages == 3 && m.InUse() == 0 && m.activeFpm == 2
    {
      hide Inv;
      hide StreamsOf;
      var msf := new Msf.Create(file, pageSize, maxStreams);
      for i := 0 to 4
        invariant fresh(msf) && fresh(msf.pages) && msf.file == file && msf.Valid() && msf.committed == None
        invariant msf.pages.pageSize == pageSize && msf.maxStreams == maxStreams && (0 < i ==> !msf.Clean())
        invariant msf.pages.numPages == 3 && msf.InUse() == 0 && msf.activeFpm == 2
        invariant msf.Streams() == [Data([])] + seq(i, _ => Nil) && i <= maxStreams && (0 < i ==> i + 1 <= maxStreams)
      {
        var r := msf.NilStream();
        if r.None? {
          return null;
        }
      }
      m := msf;
    }

    // -------------------------------------------------------------- writing a stream

    /** Makes stream `stream` exist, non-nil, and listed as modified. Fails when too many streams would be needed. */
    method PrepareStream(stream: nat) returns (ok: bool)
      requires Valid() && 1 <= stream <= MAX_STREAM
      modifies this`streamSizes, this`modifiedStreams
      ensures Valid()
      ensures ok <==> stream < |old(streamSizes)| || stream < maxStreams
      ensures !ok ==> Streams() == PadNil(old(Streams()), maxStreams)
      ensures ok ==> stream < |streamSizes| && stream in modifiedStreams && streamSizes[stream] != NIL_STREAM_SIZE
      ensures ok ==> Streams() == Promote(PadNil(old(Streams()), stream + 1), stream)
      ensures OthersKept(old(Streams()), Streams(), stream) && LongEnough(old(Streams()), Streams(), stream, maxStreams)
      ensures ok ==> Streams()[stream] == Data(BytesBefore(old(Streams()), stream))
      ensures Clean() ==> old(Clean()) && Streams() == old(Streams())
    {
      hide Inv;
      hide StreamsOf;
      hide OthersKept;
      hide LongEnough;
      hide BytesBefore;
      OpenedStreams(Streams(), maxStreams, stream);
      while |streamSizes| <= stream
        invariant Valid()
        invariant |old(streamSizes)| <= |streamSizes|
        invariant |streamSizes| <= stream + 1 || |streamSizes| == |old(streamSizes)|
        invariant |streamSizes| == |old(streamSizes)| || |streamSizes| <= maxStreams
        invariant Streams() == PadNil(old(Streams()), |streamSizes|)
        invariant Clean() ==> old(Clean()) && Streams() == old(Streams())
      {
        var r := NilStream();
        if r.None? {
          return false;
        }
      }
      PromoteEntry(stream);
      ok := true;
    }

    method PromoteEntry(stream: nat)
      requires Valid() && 1 <= stream < |streamSizes|
      modifies this`streamSizes, this`modifiedStreams
      ensures Valid() && View() == old(View())
      ensures |streamSizes| == |old(streamSizes)| && stream in modifiedStreams && streamSizes[stream] != NIL_STREAM_SIZE
      ensures Streams() == Promote(old(Streams()), stream)
    {
      PromoteInv(Tabs(), pages.State(), pages.pageSize, owner, file.image, committed, activeFpm, stream);
      hide Inv;
      hide StreamsOf;
      ghost var t := Promoted(Tabs(), stream);
      var entry := if stream in modifiedStreams then modifiedStreams[stream] else CommittedPagesOf(stream);
      if streamSizes[stream] == NIL_STREAM_SIZE {
        streamSizes := streamSizes[stream := 0];
      }
      modifiedStreams := modifiedStreams[stream := entry];
      assert Tabs() == t;
    }

    /** The committed page list of a stream that has not been modified. */
    function CommittedPagesOf(stream: nat): (r: seq<nat>)
      reads this
      requires stream !in modifiedStreams && 1 <= stream < |streamSizes|
      ensures r == Tabs().PagesOf(stream)
    {
      if stream + 1 < |committedStreamPageStarts|
         && committedStreamPageStarts[stream] <= committedStreamPageStarts[stream + 1] <= |committedStreamPages|
      then committedStreamPages[committedStreamPageStarts[stream]..committedStreamPageStarts[stream + 1]]
      else []
    }

    /** A writer for a stream. While the writer is in use, nothing else touches the file. */
    method Borrow(stream: nat) returns (w: StreamWriter)
      requires Valid() && 1 <= stream < |streamSizes| && stream in modifiedStreams && streamSizes[stream] != NIL_STREAM_SIZE
      ensures fresh(w) && w.Valid() && w.file == file && w.alloc == pages && w.stream == stream
      ensures w.rest == Others(owner, stream) && w.prot == FootprintOf(committed)
      ensures w.size == streamSizes[stream] && w.pages == Tabs().PagesOf(stream) && w.pos == 0
      ensures Streams()[stream] == Data(w.Data())
      ensures w.keep == KeepSet(w.rest, w.prot) && w.start == pages.State()
      ensures 0 < |file.history| && maxStreams < U32_LIMIT && CommittedReadable(committed, since, file.history)
      ensures Inv(Tabs(), pages.State(), pages.pageSize, owner, file.history[|file.history| - 1], committed, activeFpm)
      ensures Streams() == StreamsOf(file.history[|file.history| - 1], pages.pageSize, streamSizes, View())
    {
      hide CommittedReadable;
      BorrowInv(Tabs(), pages.State(), pages.pageSize, owner, file.image, committed, activeFpm, stream);
      hide Inv;
      hide Owned;
      hide Accounted;
      w := new StreamWriter(file, pages, stream, streamSizes[stream], modifiedStreams[stream],
                            Others(owner, stream), FootprintOf(committed));
    }

    /**
     * Takes back what a writer has done to the file and to the allocator, the size and the page list of its stream. No
     * other stream has changed, and every invariant holds again exactly if the size and the page list fit together.
     */
    method Release(w: StreamWriter, ghost a0: PageState, ghost h0: seq<Image>, ghost st: seq<Stream>)
      requires w.OwnsPages() && HasPages(file.image, pages.pageSize, w.pages) && w.size <= NIL_STREAM_SIZE
      requires w.file == file && w.alloc == pages && 1 <= w.stream < |streamSizes|
      requires 0 < pages.pageSize && 0 < |h0| && Inv(Tabs(), a0, pages.pageSize, owner, h0[|h0| - 1], committed, activeFpm)
      requires CommittedReadable(committed, since, h0) && maxStreams < U32_LIMIT
      requires w.rest == Others(owner, w.stream) && w.prot == FootprintOf(committed)
      requires Extends(h0, file.history, w.keep) && st == StreamsOf(h0[|h0| - 1], pages.pageSize, streamSizes, View())
      modifies this`streamSizes, this`modifiedStreams, this`owner
      ensures Valid() <==> SizeFits(w.size, w.pages, pages.pageSize)
      ensures !Clean() && Tabs() == old(Tabs()).Put(w.stream, w.size, w.pages)
      ensures streamSizes == old(streamSizes)[w.stream := w.size] && modifiedStreams == old(modifiedStreams)[w.stream := w.pages]
      ensures |st| == |old(streamSizes)| && Streams() == st[w.stream := StreamAt(file.image, pages.pageSize, w.size, w.pages)]
      ensures w.Valid() ==> Valid() && Streams() == st[w.stream := Data(w.Data())]
    {
      hide Inv;
      hide Owned;
      hide Accounted;
      hide StreamsOf;
      hide StreamAt;
      hide CommittedReadable;
      hide Extends;
      hide KeepSet;
      hide Reown;
      ghost var t := Tabs().Put(w.stream, w.size, w.pages);
      ReleaseInv(Tabs(), a0, pages.State(), pages.pageSize, owner, h0, file.history, committed, since, activeFpm,
                 w.stream, w.size, w.pages, w.keep);
      owner := Reown(owner, w.stream, w.pages);
      streamSizes := streamSizes[w.stream := w.size];
      modifiedStreams := modifiedStreams[w.stream := w.pages];
      assert w.stream in modifiedStreams;
      assert Tabs() == t;
      WrittenStream(w);
    }

    lemma WrittenStream(w: StreamWriter)
      requires w.file == file && w.alloc == pages && 0 < pages.pageSize
      ensures w.Valid() ==>
                && SizeFits(w.size, w.pages, pages.pageSize)
                && StreamAt(file.image, pages.pageSize, w.size, w.pages) == Data(w.Data())
    {
    }

    lemma NothingWritten()
      requires Valid()
      ensures file.Valid() && Extends(file.history, file.history, FootprintOf(committed))
    {
      ExtendsSelf(file.history, FootprintOf(committed));
    }

    lemma KeepsFootprint(w: StreamWriter, h: seq<Image>)
      requires w.keep == KeepSet(w.rest, w.prot) && w.prot == FootprintOf(committed) && Extends(h, file.history, w.keep)
      ensures Extends(h, file.history, FootprintOf(committed))
    {
      ExtendsWeaken(h, file.history, w.keep, FootprintOf(committed));
    }

    lemma PagesOfWritten(w: StreamWriter, st: seq<Stream>, stream: nat)
      requires w.Valid() && stream < |st|
      ensures 0 < w.alloc.pageSize && PagesAt(st[stream := Data(w.Data())], stream, w.alloc.pageSize) == |w.pages|
    {
      w.SizeMeasured();
    }

    lemma SameFpm(a0: PageState, fpm: seq<bool>, n: nat)
      requires 512 <= pages.pageSize && a0.fpm == fpm == pages.fpm
      ensures UsedAtMost(a0, pages.State(), pages.pageSize, n)
    {
      NothingUsed(a0, pages.State(), pages.pageSize);
    }

    lemma FpmOf()
      ensures pages.State().fpm == pages.fpm
    {
    }

    /** A stream of the size of a nil stream is a nil stream, whatever its pages. */
    lemma Lost(w: StreamWriter)
      requires w.Consistent() && w.size == NIL_STREAM_SIZE
      ensures 0 < w.alloc.pageSize && StreamAt(file.image, w.alloc.pageSize, w.size, w.pages) == Nil
      ensures |w.pages| == CeilDiv(NIL_STREAM_SIZE, w.alloc.pageSize) && !SizeFits(w.size, w.pages, w.alloc.pageSize)
      ensures w.Data() == Contents(w.file.image, w.alloc.pageSize, NIL_STREAM_SIZE, w.pages)
    {
      w.LostStream();
      w.Measured();
    }

    lemma SameWrong(st: seq<Stream>, st': seq<Stream>, stream: nat, len: nat)
      requires 0 < pages.pageSize && GrownWrong(st', stream, len) && BytesBefore(st, stream) == BytesBefore(st', stream)
      ensures GrownWrong(st, stream, len)
    {
    }

    lemma BytesOpened(stream: nat)
      requires Valid() && stream < |streamSizes|
      ensures |Streams()| == |streamSizes| && stream < |Streams()|
      ensures Streams()[stream].Data? ==> BytesBefore(Streams(), stream) == Streams()[stream].bytes
    {
    }

    lemma WronglyGrown(st: seq<Stream>, stream: nat, len: nat, w: StreamWriter)
      requires 0 < pages.pageSize && stream < |streamSizes| && streamSizes[stream] == w.size
      requires stream in modifiedStreams && modifiedStreams[stream] == w.pages && w.file == file && w.alloc == pages
      requires |BytesBefore(st, stream)| < len && GrownSize(|BytesBefore(st, stream)|, len, pages.pageSize) == Some(w.size)
      requires |BytesBefore(st, stream)| <= |w.AllBytes()| && w.AllBytes() == ZeroExtend(BytesBefore(st, stream), |w.AllBytes()|)
      requires |w.AllBytes()| < w.size || w.size == NIL_STREAM_SIZE
      ensures GrownWrong(st, stream, len)
    {
    }

    lemma NothingUsedYet()
      requires Valid()
      ensures 512 <= pages.pageSize
      ensures forall st: seq<Stream>, stream: nat ::
                UsedAtMost(pages.State(), pages.State(), pages.pageSize, PagesAt(st, stream, pages.pageSize))
    {
      NothingUsed(pages.State(), pages.State(), pages.pageSize);
    }

    /**
     * Opens a stream for writing and writes `buf` at `offset`. A write that ends at the largest 32-bit number loses the
     * stream: all its bytes are in its pages, but no stream is there, and the page list does not fit the size.
     */
    method WriteAt(stream: nat, buf: seq<u8>, offset: nat) returns (ok: bool)
      requires Valid() && 1 <= stream <= MAX_STREAM
      modifies this`streamSizes, this`modifiedStreams, this`owner, pages, file
      ensures Valid() <==> !EndsAtNil(old(Streams()), maxStreams, stream, buf, offset)
      ensures Streams() == ApplyWrite(old(Streams()), maxStreams, stream, buf, offset)
      ensures OthersKept(old(Streams()), Streams(), stream) && LongEnough(old(Streams()), Streams(), stream, maxStreams)
      ensures stream < |Streams()| ==>
                Streams()[stream]
                == if buf == [] || NIL_STREAM_SIZE < offset + |buf| then Data(BytesBefore(old(Streams()), stream))
                   else if offset + |buf| == NIL_STREAM_SIZE then Nil
                   else Data(WriteSpec(BytesBefore(old(Streams()), stream), buf, offset))
      ensures ok <==> (stream < |old(streamSizes)| || stream < maxStreams) && (buf == [] || offset + |buf| <= NIL_STREAM_SIZE)
      ensures Clean() ==> old(Clean()) && Streams() == old(Streams()) && pages.State() == old(pages.State())
      ensures 512 <= pages.pageSize && file.Valid()
      ensures Valid() ==> UsedAtMost(old(pages.State()), pages.State(), pages.pageSize, PagesAt(Streams(), stream, pages.pageSize))
      ensures EndsAtNil(old(Streams()), maxStreams, stream, buf, offset) ==>
                && stream in modifiedStreams && |modifiedStreams[stream]| == CeilDiv(NIL_STREAM_SIZE, pages.pageSize)
                && Contents(file.image, pages.pageSize, NIL_STREAM_SIZE, modifiedStreams[stream])
                   == WriteSpec(BytesBefore(old(Streams()), stream), buf, offset)
      ensures Extends(old(file.history), file.history, FootprintOf(committed))
    {
      hide *;
      NothingUsedYet();
      ApplyWriteIs(Streams(), maxStreams, stream, buf, offset);
      WrittenStreams(Streams(), maxStreams, stream, buf, offset);
      OpenedStreams(Streams(), maxStreams, stream);
      ok := PrepareStream(stream);
      if !ok {
        NothingWritten();
        return;
      }
      var w := Borrow(stream);
      ghost var a0, h0, st := pages.State(), file.history, Streams();
      w.Usable();
      ok := w.WriteCore(buf, offset);
      w.Usable();
      w.Spent();
      KeepsFootprint(w, h0);
      w.FileIsValid();
      Release(w, a0, h0, st);
      SameEntry(st, stream);
      if w.Valid() {
        PagesOfWritten(w, st, stream);
      } else {
        Lost(w);
      }
    }

    /** Opens a stream for writing and replaces its contents. */
    method SetContents(stream: nat, data: seq<u8>) returns (ok: bool)
      requires Valid() && 1 <= stream <= MAX_STREAM
      modifies this`streamSizes, this`modifiedStreams, this`owner, pages, file
      ensures Valid()
      ensures Streams() == ApplySet(old(Streams()), maxStreams, stream, data)
      ensures OthersKept(old(Streams()), Streams(), stream) && LongEnough(old(Streams()), Streams(), stream, maxStreams)
      ensures stream < |Streams()| ==> Streams()[stream] == Data(if ok then data else BytesBefore(old(Streams()), stream))
      ensures ok <==> (stream < |old(streamSizes)| || stream < maxStreams) && |data| < NIL_STREAM_SIZE
      ensures Clean() ==> old(Clean()) && Streams() == old(Streams()) && pages.State() == old(pages.State())
      ensures UsedAtMost(old(pages.State()), pages.State(), pages.pageSize, PagesAt(Streams(), stream, pages.pageSize))
      ensures Extends(old(file.history), file.history, FootprintOf(committed))
    {
      hide *;
      NothingUsedYet();
      ReplacedStreams(Streams(), maxStreams, stream, data);
      OpenedStreams(Streams(), maxStreams, stream);
      ok := PrepareStream(stream);
      ApplySetIs(old(Streams()), maxStreams, stream, data);
      if !ok {
        NothingWritten();
        return;
      }
      var w := Borrow(stream);
      ghost var a0, h0, st := pages.State(), file.history, Streams();
      w.Usable();
      ok := w.SetContents(data);
      w.Usable();
      KeepsFootprint(w, h0);
      Release(w, a0, h0, st);
      SameEntry(st, stream);
      PagesOfWritten(w, st, stream);
    }

    /** What is left of a stream that was not grown right: its bytes, some zeros, and a size that claims more than that. */
    ghost predicate GrownWrong(st: seq<Stream>, stream: nat, len: nat)
      reads this`streamSizes, this`modifiedStreams, file`image
      requires 0 < pages.pageSize
    {
      var bytes := BytesBefore(st, stream);
      && stream < |streamSizes| && stream in modifiedStreams && |bytes| < len
      && GrownSize(|bytes|, len, pages.pageSize) == Some(streamSizes[stream])
      && var held := Flat(file.image, pages.pageSize, modifiedStreams[stream]);
         && |bytes| <= |held| && held == ZeroExtend(bytes, |held|)
         && (|held| < streamSizes[stream] || streamSizes[stream] == NIL_STREAM_SIZE)
    }

    /**
     * Opens a stream for writing and sets its length, where that works. Elsewhere the stream is not what was asked for,
     * or the original has panicked: the editor is of no more use then, but the other streams are as they were, and so is
     * the committed state.
     */
    method SetLen(stream: nat, len: nat) returns (r: LenResult)
      requires Valid() && 1 <= stream <= MAX_STREAM && len <= NIL_STREAM_SIZE
      modifies this`streamSizes, this`modifiedStreams, this`owner, pages, file
      ensures 512 <= pages.pageSize && file.Valid()
      ensures r.NoSuchStream? <==> !(stream < |old(streamSizes)| || stream < maxStreams)
      ensures !r.NoSuchStream? ==> (r.Done? <==> LenWorks(old(Streams()), stream, len, old(pages.fpm), pages.pageSize))
      ensures r.Panicked? ==>
                var bytes := BytesBefore(old(Streams()), stream);
                |bytes| < len && GrownSize(|bytes|, len, pages.pageSize).None?
      ensures !r.Panicked? ==>
                OthersKept(old(Streams()), Streams(), stream) && LongEnough(old(Streams()), Streams(), stream, maxStreams)
      ensures r.Done? ==>
                var before := BytesBefore(old(Streams()), stream);
                && stream < |Streams()|
                && Streams()[stream] == Data(if len <= |before| then before[..len] else before + Zeros(len - |before|))
      ensures r.Done? || r.NoSuchStream? ==>
                && Valid() && Streams() == ApplySetLen(old(Streams()), maxStreams, stream, len)
                && UsedAtMost(old(pages.State()), pages.State(), pages.pageSize, PagesAt(Streams(), stream, pages.pageSize))
                && (Clean() ==> old(Clean()) && Streams() == old(Streams()) && pages.State() == old(pages.State()))
      ensures r.WrongSize? ==>
                !Valid() && GrownWrong(old(Streams()), stream, len)
      ensures Extends(old(file.history), file.history, FootprintOf(committed))
    {
      hide *;
      NothingUsedYet();
      ApplySetLenIs(Streams(), maxStreams, stream, len, pages.fpm, pages.pageSize);
      LengthSetStreams(Streams(), maxStreams, stream, len);
      OpenedStreams(Streams(), maxStreams, stream);
      var ok := PrepareStream(stream);
      if !ok {
        NothingWritten();
        return NoSuchStream;
      }
      ghost var st := Streams();
      SameBytes(old(Streams()), st, stream);
      r := Resize(stream, len);
      if r.WrongSize? {
        SameWrong(old(Streams()), st, stream, len);
        OthersStillKept(old(Streams()), st, Streams(), stream, maxStreams);
      }
    }

    /** Sets the length of a stream that is open for writing. */
    method Resize(stream: nat, len: nat) returns (r: LenResult)
      requires Valid() && 1 <= stream < |streamSizes| && stream in modifiedStreams && streamSizes[stream] != NIL_STREAM_SIZE
      requires len <= NIL_STREAM_SIZE
      modifies this`streamSizes, this`modifiedStreams, this`owner, pages, file
      ensures 512 <= pages.pageSize && file.Valid() && !r.NoSuchStream?
      ensures |old(Streams())| == |old(streamSizes)| && old(Streams())[stream].Data?
      ensures var bytes := BytesBefore(old(Streams()), stream);
              && (r.Done? <==> len <= |bytes|
                               || (bytes == [] && len < NIL_STREAM_SIZE
                                   && RunLength(old(pages.fpm), pages.pageSize, CeilDiv(len, pages.pageSize))
                                      == CeilDiv(len, pages.pageSize)))
              && (r.Panicked? ==> |bytes| < len && GrownSize(|bytes|, len, pages.pageSize).None?)
              && (r.Done? ==> Streams() == old(Streams())[stream := Data(if len <= |bytes| then bytes[..len] else ZeroExtend(bytes, len))])
      ensures r.Done? ==>
                && Valid() && !Clean()
                && UsedAtMost(old(pages.State()), pages.State(), pages.pageSize, PagesAt(Streams(), stream, pages.pageSize))
      ensures r.WrongSize? ==> !Valid() && GrownWrong(old(Streams()), stream, len) && SameBut(old(Streams()), Streams(), stream)
      ensures Extends(old(file.history), file.history, FootprintOf(committed))
    {
      hide *;
      BytesOpened(stream);
      var w := Borrow(stream);
      ghost var a0, h0, st, size0 := pages.State(), file.history, Streams(), w.size;
      w.Usable();
      w.GrowsRightIs(len);
      w.NoBytesNoSize();
      FpmOf();
      if w.size < len {
        GrownSizeIs(w.size, len, pages.pageSize);
      }
      var ok := w.SetLen(len);
      KeepsFootprint(w, h0);
      w.FileIsValid();
      if !ok {
        return Panicked;
      }
      r := if w.size < NIL_STREAM_SIZE && w.size <= |w.pages| * pages.pageSize then Done else WrongSize;
      w.Measured();
      Release(w, a0, h0, st);
      if r.Done? {
        w.Spent();
        PagesOfWritten(w, st, stream);
        if len <= size0 {
          SameFpm(a0, pages.fpm, |w.pages|);
        }
      } else {
        WronglyGrown(st, stream, len, w);
        SameButOne(st, stream, StreamAt(file.image, pages.pageSize, w.size, w.pages));
      }
    }

    // -------------------------------------------------------------- committing

    /** The page list of a stream, taken from where the source takes it. */
    function CurrentPages(stream: nat): (r: seq<nat>)
      requires 0 < pages.pageSize && Tabs().Valid(pages.pageSize) && stream < |streamSizes|
      reads this, pages
      ensures r == Tabs().PagesOf(stream)
    {
      CeilDivBounds(0, pages.pageSize);
      if stream in modifiedStreams then modifiedStreams[stream] else
      var start := committedStreamPageStarts[stream];
      assert stream == 0 || SizeFits(streamSizes[stream], Tabs().PagesOf(stream), pages.pageSize);
      committedStreamPages[start..start + NumPagesForStreamSize(streamSizes[stream], pages.pageSize)]
    }

    /** The words of the new stream directory. */
    method BuildNewStreamDir() returns (words: seq<nat>)
      requires 0 < pages.pageSize && Tabs().Valid(pages.pageSize)
      ensures words == DirWords(streamSizes, View())
    {
      CurrentFits(Tabs(), pages.pageSize);
      hide PageStarts;
      hide Tables.Valid;
      hide ViewFits;
      words := DirSizes();
      ghost var head := words;
      for s := 0 to |streamSizes|
        invariant words == head + AllPages(View()[..s])
      {
        DirStep(streamSizes, View(), pages.pageSize, s);
        ConcatAssoc(head, AllPages(View()[..s]), View()[s]);
        if streamSizes[s] != NIL_STREAM_SIZE {
          words := words + CurrentPages(s);
        }
      }
      DirEnd(streamSizes, View(), pages.pageSize);
    }

    /** The number of streams and their sizes. The size of stream 0 is written as zero. */
    method DirSizes() returns (words: seq<nat>)
      requires streamSizes != [] && streamSizes[0] == 0
      ensures words == [|streamSizes|] + streamSizes
    {
      words := [|streamSizes|, 0];
      for i := 1 to |streamSizes|
        invariant words == [|streamSizes|] + streamSizes[..i]
      {
        words := words + [streamSizes[i]];
      }
    }

    /** Writes the new stream directory to new pages, and the list of these pages to further new pages. */
    method WriteNewStreamDir() returns (dirSize: nat, dirPages: seq<nat>, mapPages: seq<nat>)
      requires Valid()
      modifies file, pages
      ensures pages.Valid() && file.Valid()
      ensures dirSize == 4 * |DirWords(streamSizes, View())|
      ensures Owned(pages.State(), pages.pageSize, dirPages + mapPages, owner.Keys, FootprintOf(committed))
      ensures Stores(file.image, pages.pageSize, dirPages, DirWords(streamSizes, View()))
      ensures Stores(file.image, pages.pageSize, mapPages, dirPages)
      ensures Extends(old(file.history), file.history, KeepSet(owner.Keys, FootprintOf(committed)))
      ensures UsedExactly(old(pages.State()), pages.State(), pages.pageSize, |dirPages| + |mapPages|)
    {
      ghost var a0 := pages.State();
      hide UsedExactly;
      StartCommit(Tabs(), pages.State(), pages.pageSize, owner, file.image, committed, activeFpm);
      hide Inv;
      hide Owned;
      hide Stores;
      hide KeepSet;
      hide Extends;
      hide CommittedReadable;
      hide DirWords;
      var words := BuildNewStreamDir();
      ghost var h0, keep := file.history, KeepSet(owner.Keys, FootprintOf(committed));
      dirSize := |EncodeWords(words)|;
      dirPages := WriteChunks(file, pages, EncodeWords(words), [], owner.Keys, FootprintOf(committed));
      ghost var h1, img1, a1 := file.history, file.image, pages.State();
      assert [] + dirPages == dirPages;
      StoresMade(img1, pages.pageSize, dirPages, words);
      mapPages := WriteChunks(file, pages, EncodeWords(dirPages), dirPages, owner.Keys, FootprintOf(committed));
      StoresMade(file.image, pages.pageSize, mapPages, dirPages);
      OwnedNoDup(pages.State(), pages.pageSize, dirPages + mapPages, owner.Keys, FootprintOf(committed));
      StoresKept(img1, file.image, pages.pageSize, dirPages, words, mapPages);
      ExtendsTrans(h0, h1, file.history, keep);
      UsedExactlyMore(a0, a1, pages.State(), pages.pageSize, |dirPages|, |mapPages|);
    }

    /** Builds the stream tables that match the new stream directory. */
    method RebuildTables() returns (streamPages: seq<nat>, starts: seq<nat>)
      requires 0 < pages.pageSize && Tabs().Valid(pages.pageSize)
      ensures Tables(streamSizes, map[], starts, streamPages) == CommittedTables(Tabs(), pages.pageSize)
    {
      CurrentFits(Tabs(), pages.pageSize);
      streamPages, starts := [], [];
      for s := 0 to |streamSizes|
        invariant streamPages == AllPages(View()[..s])
        invariant starts == PageStarts(streamSizes[..s], pages.pageSize)[..s]
      {
        DirStep(streamSizes, View(), pages.pageSize, s);
        starts := starts + [|streamPages|];
        if streamSizes[s] != NIL_STREAM_SIZE {
          streamPages := streamPages + CurrentPages(s);
        }
      }
      DirEnd(streamSizes, View(), pages.pageSize);
      starts := starts + [|streamPages|];
    }

    /** Marks the pages of the new directory as freed: they become free again after the next commit. */
    method MarkListFreed(list: seq<nat>)
      requires |pages.fpmFreed| == |pages.fpm| && NoDup(list)
      requires forall i :: 0 <= i < |list| ==> list[i] < |pages.fpm| && !pages.fpm[list[i]] && !pages.fpmFreed[list[i]]
      modifies pages`fpmFreed
      ensures |pages.fpmFreed| == |pages.fpm|
      ensures forall p :: 0 <= p < |pages.fpm| ==> pages.fpmFreed[p] == (old(pages.fpmFreed)[p] || p in list)
    {
      for i := 0 to |list|
        invariant |pages.fpmFreed| == |pages.fpm|
        invariant forall p :: 0 <= p < |pages.fpm| ==> pages.fpmFreed[p] == (old(pages.fpmFreed)[p] || p in list[..i])
      {
        assert !pages.fpm[list[i]];
        assert !pages.fpmFreed[list[i]];
        pages.fpmFreed := pages.fpmFreed[list[i] := true];
        assert list[..i + 1] == list[..i] + [list[i]];
      }
      assert list[..|list|] == list;
    }

    /** The update of the state in memory after the write of page 0. */
    method Cleanup(dirPages: seq<nat>, mapPages: seq<nat>, newFpm: nat, ghost a: PageState)
      requires IsPageSize(pages.pageSize) && Tabs().Valid(pages.pageSize) && 3 < pages.numPages == |pages.fpm|
      requires WellFormed(a, pages.pageSize) && NoDup(dirPages + mapPages)
      requires forall i :: 0 <= i < |dirPages + mapPages| ==> Busy(a, pages.pageSize, (dirPages + mapPages)[i])
      requires Merged(a, pages.State())
      modifies this`committedStreamPages, this`committedStreamPageStarts, this`modifiedStreams, this`activeFpm, pages
      ensures Tabs() == old(CommittedTables(Tabs(), pages.pageSize)) && activeFpm == newFpm
      ensures AfterCommit(a, pages.State(), mapPages + dirPages)
      ensures pages.State().fpm == pages.fpm
      ensures pages.Valid() && pages.nextFreePageHint == 3 && pages.numPages == old(pages.numPages) && pages.fpm == old(pages.fpm)
    {
      hide Tables.Valid;
      hide WellFormed;
      hide CommittedTables;
      hide AfterCommit;
      var streamPages, starts := RebuildTables();
      CleanupLists(a, pages.pageSize, dirPages, mapPages);
      MarkListFreed(dirPages);
      MarkListFreed(mapPages);
      committedStreamPages, committedStreamPageStarts, modifiedStreams := streamPages, starts, map[];
      pages.freshPages := seq(|pages.freshPages|, _ => false);
      pages.nextFreePageHint := 3;
      activeFpm := newFpm;
      CleanedUp(a, pages.State(), pages.pageSize, dirPages, mapPages);
    }

    ghost function MapPages(): nat
      requires 0 < pages.pageSize
      reads this, pages
    {
      MapPagesNeeded(streamSizes, View(), pages.pageSize)
    }

    ghost function DirPages(): nat
      requires 0 < pages.pageSize
      reads this, pages
    {
      DirPagesNeeded(streamSizes, View(), pages.pageSize)
    }

    /** The number of pages in use: owned by streams, or freed since the last commit. */
    ghost function InUse(): nat
      requires 0 < pages.pageSize
      reads this, pages
    {
      Taken(pages.State(), pages.pageSize)
    }

    /**
     * Commits all changes: writes the new directory and the inactive FPM, and switches over with one write of page 0.
     *
     * Every write before that one stays off the pages of the committed state. The file then reads back as the current
     * streams if and only if the map pages fit into what an opener reads of page 0 and no 32-bit field overflows.
     */
    method Commit() returns (r: CommitResult)
      requires Valid()
      modifies this, pages, file
      ensures r.NothingToDo? <==> old(Clean())
      ensures r.MapTooLarge? <==>
                !old(Clean()) && pages.pageSize < MSF_HEADER_LEN + 4 * old(MapPages())
      ensures r.NothingToDo? ==> Valid() && Tabs() == old(Tabs()) && pages.State() == old(pages.State())
                                 && pages.numPages == old(pages.numPages)
      ensures r.NothingToDo? ==> committed == old(committed) && since == old(since)
                                 && file.image == old(file.image) && file.history == old(file.history)
      ensures r.MapTooLarge? ==> file.Valid() && Extends(old(file.history), file.history, FootprintOf(old(committed)))
      ensures r.Committed? ==> Valid() && 1 < |file.history| && since == |file.history| - 1
                               && Extends(old(file.history), file.history[..since], FootprintOf(old(committed)))
      ensures r.Committed? ==> Clean() && View() == old(View()) && activeFpm == 3 - old(activeFpm)
      ensures !r.MapTooLarge? ==> Streams() == old(Streams())
      ensures r.Committed? ==>
                && r.header == Header(pages.pageSize, activeFpm, pages.numPages, 4 * |DirWords(old(streamSizes), old(View()))|)
                && r.numMapPages == old(MapPages())
                && (committed.Some? <==> Reopenable(r.header, r.numMapPages))
                && (FitsU32(r.header) && MAX_MAP_PAGES < r.numMapPages ==> Decode(file.image) == None)
      ensures r.Committed? ==> 0 in file.image && HeaderStored(file.image[0], r.header)
      ensures r.Committed? && committed.Some? ==>
                && (exists words :: OnDisk(file.image, committed.value, words))
                && committed.value.table.Valid() && committed.value.table.sizes == streamSizes
                && forall s :: 1 <= s < |streamSizes| ==> committed.value.table.Pages(s) == View()[s]
      ensures r.Committed? ==>
                && pages.numPages == FileSize(old(pages.numPages), old(InUse() + DirPages() + MapPages()), pages.pageSize)
                && InUse() == old(DirPages() + MapPages() + |AllPages(View())|)
      ensures r.Committed? && committed.Some? ==>
                && ReadAll(file.image) == Some(Streams()) && Decode(file.image) == committed
                && Synced(committed.value, Tabs(), pages.State(), pages.pageSize, pages.numPages, activeFpm)
    {
      hide *;
      CommitStart();
      if modifiedStreams == map[] {
        return NothingToDo;
      }
      ghost var t, a0, img0, st := Tabs(), pages.State(), file.image, Streams();
      ghost var prot := FootprintOf(committed);
      var header, mapPages, dirPages;
      ghost var a, img1;
      header, mapPages, dirPages, a, img1 := Stage();
      ghost var img2, h2 := file.image, file.history;
      StagedFacts(t, a0, a, owner, img0, img1, header, mapPages, dirPages, prot);
      if pages.pageSize < MSF_HEADER_LEN + 4 * |mapPages| {
        return MapTooLarge;
      }
      file.WritePage(0, EncodePage0(header, mapPages));
      assert file.history[..|h2|] == h2;
      UsedSize(a0, a, pages.pageSize, |dirPages| + |mapPages|);
      HeaderWritten(header, mapPages);
      SwitchOver(header, mapPages, dirPages, t, a0, a, img0, img1, img2, st);
      InUseIs();
      if committed.Some? {
        OpensWhenStored(file.image);
        SyncedPages(committed.value, pages.State());
      }
      r := Committed(header, |mapPages|);
    }

    /** In step with the file, the page lists are those of the committed directory. */
    lemma SyncedPages(s: Snapshot, a: PageState)
      requires Synced(s, Tabs(), a, pages.pageSize, pages.numPages, activeFpm)
      ensures s.table.Valid() && s.table.sizes == streamSizes
      ensures forall k :: 1 <= k < |streamSizes| ==> s.table.Pages(k) == View()[k]
    {
    }

    lemma InUseIs()
      requires 0 < pages.pageSize
      ensures InUse() == Taken(pages.State(), pages.pageSize)
    {
    }

    lemma CommitStart()
      requires Valid()
      ensures maxStreams < U32_LIMIT && (Clean() <==> modifiedStreams == map[])
      ensures Tabs().sizes == streamSizes && Tabs().View() == View() && MapPages() == MapPagesNeeded(streamSizes, View(), pages.pageSize)
      ensures Streams() == StreamsOf(file.image, pages.pageSize, Tabs().sizes, Tabs().View())
      ensures 512 <= pages.pageSize && InUse() == Taken(pages.State(), pages.pageSize) && |pages.State().fpm| == pages.numPages
      ensures DirPages() == DirPagesNeeded(streamSizes, View(), pages.pageSize)
    {
    }

    /** The first phase: the directory, its map, and the inactive FPM. Page 0 is not touched. */
    method Stage() returns (header: Header, mapPages: seq<nat>, dirPages: seq<nat>, ghost a: PageState, ghost img1: Image)
      requires Valid()
      modifies pages, file
      ensures file.Valid() && 0 < |file.history| && header.pageSize == pages.pageSize && header.numPages == pages.numPages
      ensures header.activeFpm == 3 - activeFpm
      ensures Staged(Tabs(), old(pages.State()), a, owner, old(file.image), img1, header, mapPages, dirPages, FootprintOf(committed))
      ensures Merged(a, pages.State())
      ensures FpmWritten(img1, file.image, header, pages.fpm)
      ensures Extends(old(file.history), file.history, FootprintOf(committed))
      ensures 512 <= pages.pageSize && UsedExactly(old(pages.State()), a, pages.pageSize, |dirPages| + |mapPages|)
    {
      hide UsedExactly;
      ghost var t, a0, h0 := Tabs(), pages.State(), file.history;
      ghost var prot := FootprintOf(committed);
      var newFpm := 3 - activeFpm;
      StartFpm(t, a0, pages.pageSize, owner, committed, activeFpm, file.history, since);
      hide Inv;
      hide CommittedReadable;
      hide Ownership;
      hide Owned;
      hide Stores;
      hide KeepSet;
      hide Extends;
      hide FpmByte;
      hide AllPresent;
      hide Tables.Valid;
      var dirSize;
      dirSize, dirPages, mapPages := WriteNewStreamDir();
      a, img1 := pages.State(), file.image;
      ghost var h1 := file.history;
      OwnedNoDup(a, pages.pageSize, dirPages + mapPages, owner.Keys, prot);
      pages.MergeFreedIntoFree();
      WriteFpm(file, pages.fpm, newFpm, pages.pageSize, prot);
      ExtendsDir(h0, h1, file.history, owner.Keys, prot);
      header := Header(pages.pageSize, newFpm, pages.numPages, dirSize);
    }

    /** The second phase, after the write of page 0: nothing can fail any more. */
    method SwitchOver(header: Header, mapPages: seq<nat>, dirPages: seq<nat>, ghost t: Tables, ghost a0: PageState, ghost a: PageState,
                      ghost img0: Image, ghost img1: Image, ghost img2: Image, ghost st: seq<Stream>)
      requires st == StreamsOf(img0, header.pageSize, t.sizes, t.View())
      requires file.Valid() && maxStreams < U32_LIMIT && t == Tabs()
      requires header.pageSize == pages.pageSize && header.numPages == pages.numPages
      requires Staged(t, a0, a, owner, img0, img1, header, mapPages, dirPages, FootprintOf(committed))
      requires Merged(a, pages.State())
      requires FpmWritten(img1, img2, header, pages.fpm)
      requires MSF_HEADER_LEN + 4 * |mapPages| <= pages.pageSize && file.image == img2[0 := EncodePage0(header, mapPages)]
      modifies this, pages
      ensures Valid() && since == |file.history| - 1 && Clean() && View() == t.View() && activeFpm == header.activeFpm
      ensures committed == if Reopenable(header, |mapPages|)
                           then Some(NewSnapshot(header, mapPages, dirPages, t.sizes, t.View())) else None
      ensures pages.numPages == header.numPages
      ensures Taken(pages.State(), pages.pageSize) == |mapPages| + |dirPages| + |AllPages(t.View())|
      ensures Streams() == st
      ensures var s := NewSnapshot(header, mapPages, dirPages, t.sizes, t.View());
              && (Reopenable(header, |mapPages|) ==> Decode(file.image) == Some(s) && ReadAll(file.image) == Some(st))
              && (FitsU32(header) && MAX_MAP_PAGES < |mapPages| ==> Decode(file.image) == None)
              && Synced(s, Tabs(), pages.State(), pages.pageSize, pages.numPages, activeFpm)
    {
      hide *;
      ghost var prot := FootprintOf(committed);
      StagedFacts(t, a0, a, owner, img0, img1, header, mapPages, dirPages, prot);
      LastImage(file);
      StateIs(a);
      Cleanup(dirPages, mapPages, header.activeFpm, a);
      CommitInv(t, a0, a, pages.State(), owner, img0, img1, img2, header, mapPages, dirPages, prot, file.history);
      Adopt(TableOwner(NewSnapshot(header, mapPages, dirPages, t.sizes, t.View()).table), NowCommitted(header, mapPages, dirPages, t));
      NowClean(t, header, mapPages, dirPages);
    }

    lemma StateIs(a: PageState)
      requires Merged(a, pages.State())
      ensures |pages.fpm| == |a.fpm| && pages.State().fpm == pages.fpm
    {
    }

    /** The new tables describe the same streams, all of them committed. */
    lemma NowClean(t: Tables, h: Header, mapPages: seq<nat>, dirPages: seq<nat>)
      requires 0 < h.pageSize && Tabs() == CommittedTables(t, h.pageSize) && CommittedTables(t, h.pageSize).View() == t.View()
      ensures Clean() && View() == t.View() && streamSizes == t.sizes
      ensures Streams() == StreamsOf(file.image, pages.pageSize, t.sizes, t.View())
      ensures NowCommitted(h, mapPages, dirPages, t)
           == if Reopenable(h, |mapPages|) then Some(NewSnapshot(h, mapPages, dirPages, t.sizes, t.View())) else None
    {
    }

    /** From here on, what the file holds now is the committed state. */
    ghost method Adopt(newOwner: map<nat, nat>, c: Option<Snapshot>)
      requires pages.Valid() && file.Valid() && maxStreams < U32_LIMIT
      requires Inv(Tabs(), pages.State(), pages.pageSize, newOwner, file.image, c, activeFpm)
      requires CommittedReadable(c, |file.history| - 1, file.history)
      modifies this`owner, this`committed, this`since
      ensures Valid() && owner == newOwner && committed == c && since == |file.history| - 1
    {
      hide Inv;
      hide CommittedReadable;
      owner, committed, since := newOwner, c, |file.history| - 1;
    }
  }

  /** A new file has special pages only, and no streams but the reserved one. */
  lemma NewFile(a: PageState, ps: nat, img: Image)
    requires IsPageSize(ps) && WellFormed(a, ps) && |a.fpm| == 3
    requires forall p :: 0 <= p < 3 ==> a.fpm[p] == !IsSpecial(ps, p)
    ensures var t := Tables([0], map[], [0, 0], []);
            && Inv(t, a, ps, map[], img, None, 2) && StreamsOf(img, ps, t.sizes, t.View()) == [Data([])]
    ensures Taken(a, ps) == 0
  {
    forall p | 0 <= p < 3 ensures IsSpecial(ps, p) {
      DivModUnique(p, ps, 0, p);
    }
    assert TakenSet(a, ps) == {};
  }

  lemma AppendInv(t: Tables, a: PageState, ps: nat, owner: map<nat, nat>, img: Image,
                  committed: Option<Snapshot>, activeFpm: nat, size: nat)
    requires 0 < ps && Inv(t, a, ps, owner, img, committed, activeFpm)
    requires (size == 0 || size == NIL_STREAM_SIZE) && |t.sizes| + 1 < U32_LIMIT
    ensures Inv(t.Append(size), a, ps, owner, img, committed, activeFpm)
    ensures StreamsOf(img, ps, t.Append(size).sizes, t.Append(size).View())
         == StreamsOf(img, ps, t.sizes, t.View()) + [if size == 0 then Data([]) else Nil]
  {
    AppendValid(t, ps, size);
    OwnershipAppend(a, ps, t.View(), owner);
    AppendStreams(img, ps, t.sizes, t.View(), size);
  }

  function Promoted(t: Tables, s: nat): Tables
    requires s < |t.sizes|
  {
    t.Put(s, if t.sizes[s] == NIL_STREAM_SIZE then 0 else t.sizes[s], t.PagesOf(s))
  }

  lemma PromoteInv(t: Tables, a: PageState, ps: nat, owner: map<nat, nat>, img: Image,
                   committed: Option<Snapshot>, activeFpm: nat, s: nat)
    requires 0 < ps && Inv(t, a, ps, owner, img, committed, activeFpm) && 1 <= s < |t.sizes|
    ensures Inv(Promoted(t, s), a, ps, owner, img, committed, activeFpm)
    ensures Promoted(t, s).View() == t.View()
    ensures StreamsOf(img, ps, Promoted(t, s).sizes, t.View()) == Promote(StreamsOf(img, ps, t.sizes, t.View()), s)
  {
    PromoteValid(t, ps, s);
    PromoteStreams(img, ps, t.sizes, t.View(), s);
  }

  lemma BorrowInv(t: Tables, a: PageState, ps: nat, owner: map<nat, nat>, img: Image,
                  committed: Option<Snapshot>, activeFpm: nat, s: nat)
    requires 0 < ps && Inv(t, a, ps, owner, img, committed, activeFpm) && 1 <= s < |t.sizes|
    requires t.sizes[s] != NIL_STREAM_SIZE
    ensures Owned(a, ps, t.PagesOf(s), Others(owner, s), FootprintOf(committed))
    ensures 512 <= ps ==> Accounted(a, a, ps, Others(owner, s))
    ensures HasPages(img, ps, t.PagesOf(s)) && t.sizes[s] < NIL_STREAM_SIZE && SizeFits(t.sizes[s], t.PagesOf(s), ps)
    ensures StreamsOf(img, ps, t.sizes, t.View())[s] == Data(Contents(img, ps, t.sizes[s], t.PagesOf(s)))
  {
    OwnershipToPartition(a, ps, t.View(), owner, s);
    assert HasPages(img, ps, t.View()[s]);
    if 512 <= ps {
      AccountedSelf(a, ps, t.PagesOf(s), Others(owner, s));
    }
  }

  lemma ReleaseInv(t: Tables, a0: PageState, a: PageState, ps: nat, owner: map<nat, nat>, h0: seq<Image>, h: seq<Image>,
                   committed: Option<Snapshot>, since: nat, activeFpm: nat, s: nat, size: nat, pages: seq<nat>, keep: iset<nat>)
    requires 0 < ps && 0 < |h0| && Inv(t, a0, ps, owner, h0[|h0| - 1], committed, activeFpm) && 1 <= s < |t.sizes|
    requires CommittedReadable(committed, since, h0)
    requires Owned(a, ps, pages, Others(owner, s), FootprintOf(committed)) && keep == KeepSet(Others(owner, s), FootprintOf(committed))
    requires Extends(h0, h, keep) && HasPages(h[|h| - 1], ps, pages) && size <= NIL_STREAM_SIZE
    ensures Inv(t.Put(s, size, pages), a, ps, Reown(owner, s, pages), h[|h| - 1], committed, activeFpm) <==> SizeFits(size, pages, ps)
    ensures CommittedReadable(committed, since, h)
    ensures StreamsOf(h[|h| - 1], ps, t.Put(s, size, pages).sizes, t.Put(s, size, pages).View())
         == StreamsOf(h0[|h0| - 1], ps, t.sizes, t.View())[s := StreamAt(h[|h| - 1], ps, size, pages)]
  {
    PutValid(t, ps, s, size, pages);
    PartitionToOwnership(a0, a, ps, t.View(), owner, s, pages);
    ExtendsLast(h0, h, keep);
    PutStreams(h0[|h0| - 1], h[|h| - 1], ps, t.sizes, t.View(), owner, s, size, pages, keep);
    ReadableExtends(committed, since, h0, h, keep);
  }

  /** What the opener builds is what the snapshot says. */
  lemma OpenedSynced(img: Image, s: Snapshot, a: PageState, ps: nat, np: nat)
    requires Decode(img) == Some(s) && ps == s.header.pageSize && np == s.header.numPages
    requires OpenedState(a, ps, np, UsedPages(s), s.mapPages + s.dirPages)
    ensures Synced(s, Tables(s.table.sizes, map[], s.table.starts, s.table.pages), a, ps, np, s.header.activeFpm)
    ensures s.table.Valid()
  {
  }

  /** Everything that holds of a file that has just been opened. */
  lemma OpenedInvariants(history: seq<Image>, s: Snapshot, a: PageState, ps: nat, np: nat, t: Tables)
    requires |history| > 0
    requires Decode(history[|history| - 1]) == Some(s) && ReadAll(history[|history| - 1]).Some?
    requires ps == s.header.pageSize && np == s.header.numPages && PagesAcceptable(ps, np, UsedPages(s))
    requires OpenedState(a, ps, np, UsedPages(s), s.mapPages + s.dirPages)
    requires t == Tables(s.table.sizes, map[], s.table.starts, s.table.pages)
    ensures Inv(t, a, ps, TableOwner(s.table), history[|history| - 1], Some(s), s.header.activeFpm)
    ensures CommittedReadable(Some(s), |history| - 1, history)
    ensures StreamsOf(history[|history| - 1], ps, t.sizes, t.View()) == SnapshotStreams(history[|history| - 1], s)
  {
    hide PagesAcceptable;
    hide OpenedState;
    hide Guarded;
    hide Ownership;
    hide AllPresent;
    hide Decode;
    hide StreamsOf;
    var img := history[|history| - 1];
    SnapshotTables(img, s);
    SnapshotPresent(img, s);
    TableOwnership(a, ps, np, s, t.View());
    SnapshotStreamsAre(img, s, t);
  }

  lemma SnapshotStreamsAre(img: Image, s: Snapshot, t: Tables)
    requires s.table.Valid() && t.sizes == s.table.sizes
    requires forall k :: 1 <= k < |s.table.sizes| ==> t.PagesOf(k) == s.table.Pages(k)
    ensures StreamsOf(img, s.header.pageSize, t.sizes, t.View()) == SnapshotStreams(img, s)
  {
  }

  lemma SnapshotTables(img: Image, s: Snapshot)
    requires Decode(img) == Some(s)
    ensures Tables(s.table.sizes, map[], s.table.starts, s.table.pages).Valid(s.header.pageSize)
    ensures (s.header.activeFpm == 1 || s.header.activeFpm == 2) && 0 < s.header.numPages
    ensures forall k :: 1 <= k < |s.table.sizes| ==>
              Tables(s.table.sizes, map[], s.table.starts, s.table.pages).PagesOf(k) == s.table.Pages(k)
  {
    ParsedTables(ReadDirWords(img, s.header, s.dirPages), s.header.pageSize);
  }

  lemma SnapshotPresent(img: Image, s: Snapshot)
    requires Decode(img) == Some(s) && HasPages(img, s.header.pageSize, s.table.LivePages())
    ensures AllPresent(img, s.header.pageSize, Tables(s.table.sizes, map[], s.table.starts, s.table.pages).View())
  {
    SnapshotTables(img, s);
    var t := s.table;
    forall k, i | 1 <= k < |t.sizes| && 0 <= i < |t.Pages(k)| ensures HasPage(img, s.header.pageSize, t.Pages(k)[i]) {
      LivePage(t, k, i);
    }
  }

  // ---------------------------------------------------------------- committing, on values

  lemma StartCommit(t: Tables, a: PageState, ps: nat, owner: map<nat, nat>, img: Image,
                    committed: Option<Snapshot>, activeFpm: nat)
    requires 0 < ps && Inv(t, a, ps, owner, img, committed, activeFpm)
    ensures Owned(a, ps, [], owner.Keys, FootprintOf(committed))
    ensures t.Valid(ps)
  {
    NothingOwned(a, ps, t.View(), owner, FootprintOf(committed));
  }

  lemma CleanupLists(a: PageState, ps: nat, dirPages: seq<nat>, mapPages: seq<nat>)
    requires 0 < ps && WellFormed(a, ps) && NoDup(dirPages + mapPages)
    requires forall i :: 0 <= i < |dirPages + mapPages| ==> Busy(a, ps, (dirPages + mapPages)[i])
    ensures NoDup(dirPages) && NoDup(mapPages)
    ensures forall p :: p in dirPages ==> p !in mapPages
    ensures forall i :: 0 <= i < |dirPages| ==> Busy(a, ps, dirPages[i])
    ensures forall i :: 0 <= i < |mapPages| ==> Busy(a, ps, mapPages[i])
  {
    var dm := dirPages + mapPages;
    forall i | 0 <= i < |dirPages| ensures dm[i] == dirPages[i] {}
    forall i | 0 <= i < |mapPages| ensures dm[|dirPages| + i] == mapPages[i] {}
    forall i, j | 0 <= i < j < |mapPages| ensures mapPages[i] != mapPages[j] {
      assert dm[|dirPages| + i] == mapPages[i] && dm[|dirPages| + j] == mapPages[j];
    }
    forall i, j | 0 <= i < j < |dirPages| ensures dirPages[i] != dirPages[j] {
      assert dm[i] == dirPages[i] && dm[j] == dirPages[j];
    }
    forall p | p in dirPages ensures p !in mapPages {
      var i :| 0 <= i < |dirPages| && dirPages[i] == p;
      forall j | 0 <= j < |mapPages| ensures mapPages[j] != p {
        assert dm[i] == p && dm[|dirPages| + j] == mapPages[j];
      }
    }
    forall i | 0 <= i < |dirPages| ensures Busy(a, ps, dirPages[i]) {
      assert Busy(a, ps, dm[i]);
    }
    forall i | 0 <= i < |mapPages| ensures Busy(a, ps, mapPages[i]) {
      assert Busy(a, ps, dm[|dirPages| + i]);
    }
  }

  /** Whether an opener will accept what is committed: the map pages are within its reach, and the fields do not overflow. */
  predicate Reopenable(h: Header, numMapPages: nat) {
    numMapPages <= MAX_MAP_PAGES && FitsU32(h)
  }

  function NowCommitted(h: Header, mapPages: seq<nat>, dirPages: seq<nat>, t: Tables): (r: Option<Snapshot>)
    requires 0 < h.pageSize
  {
    if Reopenable(h, |mapPages|) then Some(NewSnapshot(h, mapPages, dirPages, t.sizes, t.View())) else None
  }

  /** The FPM of the new state is on disk. */
  ghost predicate FpmWritten(img1: Image, img2: Image, h: Header, fpm: seq<bool>)
    requires 0 < h.pageSize
  {
    var pages := FpmPages(h.activeFpm, h.pageSize, CeilDiv(h.numPages, h.pageSize));
    && SameOffFpm(img1, img2, h.pageSize, h.activeFpm)
    && HasPages(img2, h.pageSize, pages)
    && Flat(img2, h.pageSize, pages) == FpmBytes(fpm, CeilDiv(h.numPages, h.pageSize) * h.pageSize)
  }

  /** The new directory is on disk, in pages that neither the streams nor the committed state use. */
  ghost predicate Staged(t: Tables, a0: PageState, a: PageState, owner: map<nat, nat>,
                         img0: Image, img1: Image, h: Header, mapPages: seq<nat>, dirPages: seq<nat>, prot: iset<nat>) {
    && IsPageSize(h.pageSize) && (h.activeFpm == 1 || h.activeFpm == 2)
    && t.Valid(h.pageSize) && Ownership(a0, h.pageSize, t.View(), owner) && AllPresent(img0, h.pageSize, t.View())
    && SameOn(img0, img1, KeepSet(owner.Keys, prot))
    && Owned(a, h.pageSize, dirPages + mapPages, owner.Keys, prot)
    && |a.fpm| == h.numPages && h.dirSize == 4 * |DirWords(t.sizes, t.View())|
    && Stores(img1, h.pageSize, dirPages, DirWords(t.sizes, t.View())) && Stores(img1, h.pageSize, mapPages, dirPages)
  }

  lemma StagedFacts(t: Tables, a0: PageState, a: PageState, owner: map<nat, nat>,
                    img0: Image, img1: Image, h: Header, mapPages: seq<nat>, dirPages: seq<nat>, prot: iset<nat>)
    requires Staged(t, a0, a, owner, img0, img1, h, mapPages, dirPages, prot)
    ensures IsPageSize(h.pageSize) && t.Valid(h.pageSize) && WellFormed(a, h.pageSize) && NoDup(dirPages + mapPages)
    ensures forall i :: 0 <= i < |dirPages + mapPages| ==> Busy(a, h.pageSize, (dirPages + mapPages)[i])
    ensures |mapPages| == MapPagesNeeded(t.sizes, t.View(), h.pageSize)
    ensures |dirPages| == DirPagesNeeded(t.sizes, t.View(), h.pageSize)
    ensures |a.fpm| == h.numPages && h.dirSize == 4 * |DirWords(t.sizes, t.View())|
    ensures 3 < |a.fpm|
  {
    CeilDivBounds(4 * |DirWords(t.sizes, t.View())|, h.pageSize);
    var p := (dirPages + mapPages)[0];
    assert Busy(a, h.pageSize, p);
    if p < h.pageSize {
      DivModUnique(p, h.pageSize, 0, p);
    }
  }

  lemma ReadableNow(committed: Option<Snapshot>, history: seq<Image>)
    requires 0 < |history|
    requires committed.Some? ==> Decode(history[|history| - 1]) == committed && ReadAll(history[|history| - 1]).Some?
    ensures CommittedReadable(committed, |history| - 1, history)
  {
  }

  /** The allocator's invariant after a commit. */
  lemma HintAfterCommit(a: PageState, a': PageState, ps: nat, dir: seq<nat>)
    requires 512 <= ps && WellFormed(a, ps) && AfterCommit(a, a', dir)
    requires forall i :: 0 <= i < |dir| ==> Busy(a, ps, dir[i])
    ensures WellFormed(a', ps) && |a'.fpm| == |a.fpm|
    ensures forall p :: 0 <= p < 3 && p < |a'.fpm| ==> !a'.fpm[p]
  {
    forall p | 0 <= p < 3 ensures IsSpecial(ps, p) {
      DivModUnique(p, ps, 0, p);
    }
  }

  /** All freed pages have become free. */
  ghost predicate Merged(a: PageState, a': PageState) {
    && |a'.fpm| == |a'.freed| == |a'.freshPages| == |a.fpm| == |a.freed|
    && forall p :: 0 <= p < |a.fpm| ==> a'.fpm[p] == (a.fpm[p] || a.freed[p]) && !a'.freed[p]
  }

  lemma CleanedUp(a: PageState, a': PageState, ps: nat, dirPages: seq<nat>, mapPages: seq<nat>)
    requires 512 <= ps && WellFormed(a, ps)
    requires forall i :: 0 <= i < |dirPages + mapPages| ==> Busy(a, ps, (dirPages + mapPages)[i])
    requires |a'.fpm| == |a'.freed| == |a'.freshPages| == |a.fpm|
    requires forall p :: 0 <= p < |a.fpm| ==> a'.fpm[p] == (a.fpm[p] || a.freed[p]) && !a'.freshPages[p]
    requires forall p :: 0 <= p < |a.fpm| ==> a'.freed[p] == (p in dirPages || p in mapPages)
    ensures AfterCommit(a, a', mapPages + dirPages)
    ensures WellFormed(a', ps)
    ensures forall p :: 0 <= p < 3 && p < |a'.fpm| ==> !a'.fpm[p]
  {
    SwapLists(a, ps, dirPages, mapPages);
    HintAfterCommit(a, a', ps, mapPages + dirPages);
  }

  lemma SwapLists(a: PageState, ps: nat, x: seq<nat>, y: seq<nat>)
    requires 0 < ps && forall i :: 0 <= i < |x + y| ==> Busy(a, ps, (x + y)[i])
    ensures forall i :: 0 <= i < |y + x| ==> Busy(a, ps, (y + x)[i])
  {
    forall i | 0 <= i < |y + x| ensures Busy(a, ps, (y + x)[i]) {
      assert (y + x)[i] == (x + y)[if i < |y| then |x| + i else i - |y|];
    }
  }

  /** After the write of page 0: the file reads back as the current streams, and every invariant holds again. */
  lemma CommitInv(t: Tables, a0: PageState, a: PageState, a': PageState, owner: map<nat, nat>,
                  img0: Image, img1: Image, img2: Image, h: Header, mapPages: seq<nat>, dirPages: seq<nat>, prot: iset<nat>,
                  history: seq<Image>)
    requires Staged(t, a0, a, owner, img0, img1, h, mapPages, dirPages, prot)
    requires AfterCommit(a, a', mapPages + dirPages) && FpmWritten(img1, img2, h, a'.fpm)
    requires MSF_HEADER_LEN + 4 * |mapPages| <= h.pageSize
    requires 0 < |history| && history[|history| - 1] == img2[0 := EncodePage0(h, mapPages)]
    ensures CommittedReadable(NowCommitted(h, mapPages, dirPages, t), |history| - 1, history)
    ensures var img := img2[0 := EncodePage0(h, mapPages)];
            var t' := CommittedTables(t, h.pageSize);
            var s := NewSnapshot(h, mapPages, dirPages, t.sizes, t.View());
            && s.table.Valid()
            && Inv(t', a', h.pageSize, TableOwner(s.table), img, NowCommitted(h, mapPages, dirPages, t), h.activeFpm)
            && t'.View() == t.View() && Taken(a', h.pageSize) == |mapPages| + |dirPages| + |AllPages(t.View())|
            && StreamsOf(img, h.pageSize, t.sizes, t.View()) == StreamsOf(img0, h.pageSize, t.sizes, t.View())
            && (Reopenable(h, |mapPages|) ==>
                  Decode(img) == Some(s) && ReadAll(img) == Some(StreamsOf(img0, h.pageSize, t.sizes, t.View())))
            && (FitsU32(h) && MAX_MAP_PAGES < |mapPages| ==> Decode(img) == None)
            && Synced(s, t', a', h.pageSize, h.numPages, h.activeFpm)
  {
    var img := img2[0 := EncodePage0(h, mapPages)];
    var s := NewSnapshot(h, mapPages, dirPages, t.sizes, t.View());
    CurrentFits(t, h.pageSize);
    CommittedTablesValid(t, h.pageSize);
    CommitOwnership(a0, a, a', h, mapPages, dirPages, t.sizes, t.View(), owner, prot);
    CommitKeepsStreams(img0, img1, img2, EncodePage0(h, mapPages), h.pageSize, h.activeFpm, a0, t.sizes, t.View(), owner, prot);
    CommitReads(t, a, a', owner, img1, img2, h, mapPages, dirPages, prot);
    OpenedTaken(a', h.pageSize, h.numPages, mapPages + dirPages + AllPages(t.View()), mapPages + dirPages);
    ReadableNow(NowCommitted(h, mapPages, dirPages, t), history);
  }

  lemma CommitReads(t: Tables, a: PageState, a': PageState, owner: map<nat, nat>,
                    img1: Image, img2: Image, h: Header, mapPages: seq<nat>, dirPages: seq<nat>, prot: iset<nat>)
    requires IsPageSize(h.pageSize) && (h.activeFpm == 1 || h.activeFpm == 2) && t.Valid(h.pageSize)
    requires MSF_HEADER_LEN + 4 * |mapPages| <= h.pageSize
    requires ReadyToCommit(img1, a, h, mapPages, dirPages, t.sizes, t.View(), owner, prot)
    requires FpmWritten(img1, img2, h, a'.fpm)
    requires AllPresent(img2[0 := EncodePage0(h, mapPages)], h.pageSize, t.View())
    requires PagesAcceptable(h.pageSize, h.numPages, mapPages + dirPages + AllPages(t.View()))
    requires a'.fpm == ComputedFpm(h.pageSize, h.numPages, mapPages + dirPages + AllPages(t.View()))
    ensures var img := img2[0 := EncodePage0(h, mapPages)];
            var s := NewSnapshot(h, mapPages, dirPages, t.sizes, t.View());
            && (Reopenable(h, |mapPages|) ==>
                  Decode(img) == Some(s) && ReadAll(img) == Some(StreamsOf(img, h.pageSize, t.sizes, t.View())))
            && (FitsU32(h) && MAX_MAP_PAGES < |mapPages| ==> Decode(img) == None)
  {
    var img := img2[0 := EncodePage0(h, mapPages)];
    CurrentFits(t, h.pageSize);
    CommittedPrepared(img1, img2, a, h, mapPages, dirPages, t.sizes, t.View(), owner, prot, a'.fpm, EncodePage0(h, mapPages));
    Stream0Empty(t.sizes, t.View(), h.pageSize);
    AllPagesPresent(img, h.pageSize, t.View());
    OwnedWellFormed(a, h.pageSize, dirPages + mapPages, owner.Keys, prot);
    hide Prepared;
    hide ReadyToCommit;
    hide PagesAcceptable;
    hide ComputedFpm;
    hide EncodePage0;
    hide Decode;
    hide DirWords;
    hide StreamsOf;
    hide AllPresent;
    if FitsU32(h) {
      CommittedFile(img, h, mapPages, dirPages, t.sizes, t.View(), a'.fpm);
    }
  }

  /** What a commit needs to know of the committed state: the new FPM is not the old one. */
  lemma StartFpm(t: Tables, a: PageState, ps: nat, owner: map<nat, nat>, committed: Option<Snapshot>, activeFpm: nat,
                 history: seq<Image>, since: nat)
    requires 0 < ps && 0 < |history| && Inv(t, a, ps, owner, history[|history| - 1], committed, activeFpm)
    requires CommittedReadable(committed, since, history)
    ensures activeFpm == 1 || activeFpm == 2
    ensures t.Valid(ps) && Ownership(a, ps, t.View(), owner) && AllPresent(history[|history| - 1], ps, t.View())
    ensures forall p :: p in FootprintOf(committed) ==> p % ps != 3 - activeFpm
  {
    if committed.Some? {
      FootprintOffFpm(history[since], committed.value, 3 - activeFpm);
    }
  }

  lemma ExtendsDir(h0: seq<Image>, h1: seq<Image>, h2: seq<Image>, rest: set<nat>, prot: iset<nat>)
    requires Extends(h0, h1, KeepSet(rest, prot)) && Extends(h1, h2, prot)
    ensures Extends(h0, h2, prot)
    ensures SameOn(h0[|h0| - 1], h1[|h1| - 1], KeepSet(rest, prot))
  {
    ExtendsLast(h0, h1, KeepSet(rest, prot));
    ExtendsWeaken(h0, h1, KeepSet(rest, prot), prot);
    ExtendsTrans(h0, h1, h2, prot);
  }
}
