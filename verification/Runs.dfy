/** Whole runs: any sequence of stream operations and commits, with a crash after any single page write. */
module Runs {
  import opened Bytes
  import opened Arith
  import opened Paging
  import opened Pages
  import opened Read
  import opened StreamSpec
  import opened Directory
  import opened Tables
  import opened CommitState
  import opened Usage
  import opened MsfContainer
  import Open

  // ---------------------------------------------------------------- the abstract machine

  datatype Op =
    | AddStream
    | AddNil
    | Write(stream: nat, bytes: seq<u8>, offset: nat)
    | Replace(stream: nat, bytes: seq<u8>)
    | SetLength(stream: nat, len: nat)
    | Save

  /** What the editor shows, and what a reader of the file would see after a crash. */
  datatype State = State(current: seq<Stream>, durable: seq<Stream>)

  predicate Legal(op: Op) {
    match op
    case Write(stream, _, _) => 1 <= stream <= MAX_STREAM
    case Replace(stream, _) => 1 <= stream <= MAX_STREAM
    case SetLength(stream, len) => 1 <= stream <= MAX_STREAM && len <= NIL_STREAM_SIZE
    case _ => true
  }

  function Apply(st: seq<Stream>, maxStreams: nat, op: Op): seq<Stream> {
    match op
    case AddStream => if |st| < maxStreams then st + [Data([])] else st
    case AddNil => if |st| < maxStreams then st + [Nil] else st
    case Write(stream, bytes, offset) => ApplyWrite(st, maxStreams, stream, bytes, offset)
    case Replace(stream, bytes) => ApplySet(st, maxStreams, stream, bytes)
    case SetLength(stream, len) => ApplySetLen(st, maxStreams, stream, len)
    case Save => st
  }

  /**
   * The operations after which the editor is of no more use: a write that ends at the size of a nil stream, and setting
   * a length where that does not work.
   */
  predicate Spoils(op: Op, st: seq<Stream>, maxStreams: nat, fpm: seq<bool>, ps: nat)
    requires 512 <= ps
  {
    match op
    case Write(stream, bytes, offset) => EndsAtNil(st, maxStreams, stream, bytes, offset)
    case SetLength(stream, len) => (stream < |st| || stream < maxStreams) && !LenWorks(st, stream, len, fpm, ps)
    case _ => false
  }

  /** The same as far as it follows from the streams: a single page can always be added to an empty stream. */
  predicate MaySpoil(op: Op, st: seq<Stream>, maxStreams: nat, ps: nat) {
    match op
    case Write(stream, bytes, offset) => EndsAtNil(st, maxStreams, stream, bytes, offset)
    case SetLength(stream, len) =>
      && (stream < |st| || stream < maxStreams) && |OpenedBytes(st, stream)| < len
      && (OpenedBytes(st, stream) == [] ==> ps < len)
    case _ => false
  }

  lemma SpoilsMay(op: Op, st: seq<Stream>, maxStreams: nat, fpm: seq<bool>, ps: nat)
    requires 512 <= ps < NIL_STREAM_SIZE && 0 < |fpm| && Spoils(op, st, maxStreams, fpm, ps)
    ensures MaySpoil(op, st, maxStreams, ps)
  {
    if op.SetLength? && 0 < op.len <= ps {
      CeilDivIs(op.len, ps, 1);
      OnePage(fpm, ps);
    }
  }

  lemma OnePage(fpm: seq<bool>, ps: nat)
    requires 512 <= ps && 0 < |fpm|
    ensures RunLength(fpm, ps, 1) == 1
  {
    GrowthAvoidsSpecial(|fpm|, ps);
  }

  /** Only a commit changes what is durable, and it makes exactly the current streams durable. */
  function Next(s: State, maxStreams: nat, op: Op): State {
    if op.Save? then State(s.current, s.current) else State(Apply(s.current, maxStreams, op), s.durable)
  }

  function After(s: State, maxStreams: nat, ops: seq<Op>): State {
    if ops == [] then s else Next(After(s, maxStreams, ops[..|ops| - 1]), maxStreams, ops[|ops| - 1])
  }

  /** What an operation does, stream by stream: only the named stream changes, and streams that are missing before it become nil. */
  lemma Applied(st: seq<Stream>, maxStreams: nat, op: Op)
    ensures var r := Apply(st, maxStreams, op);
            match op
            case AddStream => r == if |st| < maxStreams then st + [Data([])] else st
            case AddNil => r == if |st| < maxStreams then st + [Nil] else st
            case Save => r == st
            case Write(stream, bytes, offset) =>
              && OthersKept(st, r, stream) && LongEnough(st, r, stream, maxStreams)
              && (stream < |r| ==>
                    r[stream]
                    == if bytes == [] || NIL_STREAM_SIZE < offset + |bytes| then Data(BytesBefore(st, stream))
                       else if offset + |bytes| == NIL_STREAM_SIZE then Nil
                       else Data(WriteSpec(BytesBefore(st, stream), bytes, offset)))
            case Replace(stream, bytes) =>
              && OthersKept(st, r, stream) && LongEnough(st, r, stream, maxStreams)
              && (stream < |r| ==> r[stream] == Data(if |bytes| < NIL_STREAM_SIZE then bytes else BytesBefore(st, stream)))
            case SetLength(stream, len) =>
              var before := BytesBefore(st, stream);
              && OthersKept(st, r, stream) && LongEnough(st, r, stream, maxStreams)
              && (stream < |r| ==> r[stream] == Data(if len <= |before| then before[..len] else before + Zeros(len - |before|)))
  {
    hide OthersKept;
    hide LongEnough;
    hide BytesBefore;
    hide WriteSpec;
    hide ApplyWrite;
    hide ApplySet;
    hide ApplySetLen;
    match op
    case Write(stream, bytes, offset) => WrittenStreams(st, maxStreams, stream, bytes, offset);
    case Replace(stream, bytes) => ReplacedStreams(st, maxStreams, stream, bytes);
    case SetLength(stream, len) => LengthSetStreams(st, maxStreams, stream, len);
    case _ =>
  }

  /** Only these operations may spoil a stream. */
  lemma SpoilersAre(op: Op, st: seq<Stream>, maxStreams: nat, ps: nat)
    ensures MaySpoil(op, st, maxStreams, ps) <==>
              match op
              case Write(stream, bytes, offset) =>
                (stream < |st| || stream < maxStreams) && bytes != [] && offset + |bytes| == NIL_STREAM_SIZE
              case SetLength(stream, len) =>
                (stream < |st| || stream < maxStreams) && |BytesBefore(st, stream)| < len && (BytesBefore(st, stream) == [] ==> ps < len)
              case _ => false
  {
    if op.SetLength? {
      OpenedStreams(st, maxStreams, op.stream);
    }
  }

  /** Durable is what was current at the last commit, whatever came after it. */
  lemma {:induction false} LastSave(s: State, maxStreams: nat, ops: seq<Op>, i: nat)
    requires i < |ops| && ops[i].Save? && forall j :: i < j < |ops| ==> !ops[j].Save?
    ensures After(s, maxStreams, ops).durable == After(s, maxStreams, ops[..i]).current
    decreases |ops|
  {
    hide *;
    var n := |ops| - 1;
    AfterLast(s, maxStreams, ops);
    if i < n {
      assert ops[..n][..i] == ops[..i];
      LastSave(s, maxStreams, ops[..n], i);
    }
  }

  lemma AfterLast(s: State, maxStreams: nat, ops: seq<Op>)
    requires ops != []
    ensures var before, op := After(s, maxStreams, ops[..|ops| - 1]), ops[|ops| - 1];
            After(s, maxStreams, ops).durable == if op.Save? then before.current else before.durable
  {
  }

  lemma {:induction false} NoSave(s: State, maxStreams: nat, ops: seq<Op>)
    requires forall j :: 0 <= j < |ops| ==> !ops[j].Save?
    ensures After(s, maxStreams, ops).durable == s.durable
  {
    if ops != [] {
      AfterLast(s, maxStreams, ops);
      NoSave(s, maxStreams, ops[..|ops| - 1]);
    }
  }

  /** The current streams after each operation are those before it, with the operation applied. */
  lemma CurrentAfter(s: State, maxStreams: nat, ops: seq<Op>, i: nat)
    requires i < |ops|
    ensures After(s, maxStreams, []) == s
    ensures After(s, maxStreams, ops[..i + 1]).current == Apply(After(s, maxStreams, ops[..i]).current, maxStreams, ops[i])
  {
    assert ops[..i + 1][..i] == ops[..i];
  }

  // ---------------------------------------------------------------- when a commit can be read back

  /** The number of pages of all streams. */
  function LivePages(st: seq<Stream>, ps: nat): nat
    requires 0 < ps
  {
    if st == [] then 0 else LivePages(st[..|st| - 1], ps) + PagesFor(st[|st| - 1], ps)
  }

  /** The number of 32-bit words in the directory of these streams. */
  function DirLength(st: seq<Stream>, ps: nat): nat
    requires 0 < ps
  {
    1 + |st| + LivePages(st, ps)
  }

  function DirPagesFor(st: seq<Stream>, ps: nat): nat
    requires 0 < ps
  {
    CeilDiv(4 * DirLength(st, ps), ps)
  }

  function MapPagesFor(st: seq<Stream>, ps: nat): nat
    requires 0 < ps
  {
    CeilDiv(4 * DirPagesFor(st, ps), ps)
  }

  /** The number of pages of a committed file that are in use: those of the streams, of the directory, and of its map. */
  function CommittedPageCount(st: seq<Stream>, ps: nat): nat
    requires 0 < ps
  {
    DirPagesFor(st, ps) + MapPagesFor(st, ps) + LivePages(st, ps)
  }

  /** The size of the file after a commit: `inUse` pages were in use before, and the new directory takes more. */
  function SavedSize(numPages: nat, inUse: nat, st: seq<Stream>, ps: nat): nat
    requires 2 < ps
  {
    FileSize(numPages, inUse + DirPagesFor(st, ps) + MapPagesFor(st, ps), ps)
  }

  /** The directory's length follows from the streams alone, not from where their pages are. */
  lemma DirLengthIs(img: Image, ps: nat, sizes: seq<nat>, view: seq<seq<nat>>)
    requires 0 < ps && ViewFits(sizes, view, ps) && (sizes != [] ==> sizes[0] == 0)
    ensures |DirWords(sizes, view)| == DirLength(StreamsOf(img, ps, sizes, view), ps)
    ensures |AllPages(view)| == LivePages(StreamsOf(img, ps, sizes, view), ps)
  {
    LivePagesAre(img, ps, sizes, view);
  }

  lemma {:induction false} LivePagesAre(img: Image, ps: nat, sizes: seq<nat>, view: seq<seq<nat>>)
    requires 0 < ps && ViewFits(sizes, view, ps) && (sizes != [] ==> sizes[0] == 0)
    ensures |AllPages(view)| == LivePages(StreamsOf(img, ps, sizes, view), ps)
  {
    if sizes != [] {
      var n := |sizes| - 1;
      var st := StreamsOf(img, ps, sizes, view);
      assert st[..n] == StreamsOf(img, ps, sizes[..n], view[..n]);
      LivePagesAre(img, ps, sizes[..n], view[..n]);
      assert SizeFits(sizes[n], view[n], ps);
      if n > 0 && sizes[n] != NIL_STREAM_SIZE {
        SizeFitsBounds(img, sizes[n], view[n], ps);
      }
    }
  }

  // ---------------------------------------------------------------- one step

  /** What the file reads as; `m.since` is the write of page 0 of the last commit. */
  ghost function Durable(m: Msf): seq<Stream>
    reads m, m.file
  {
    if m.since < |m.file.history| && ReadAll(m.file.history[m.since]).Some? then ReadAll(m.file.history[m.since]).value else []
  }

  ghost function StateOf(m: Msf): State
    reads m, m.file
  {
    State(m.Streams(), Durable(m))
  }

  /** A file that has been committed or opened; without pending changes, its streams are the committed ones. */
  ghost predicate Ready(m: Msf)
    reads m, m.file, m.pages
  {
    m.Valid() && m.committed.Some? && (m.Clean() ==> m.Streams() == Durable(m))
  }

  /** `h1` continues `h0`, and every image from `from` up to `to` reads back as `st`. */
  ghost predicate ReadsAs(h1: seq<Image>, from: nat, to: nat, st: seq<Stream>) {
    to <= |h1| && forall k :: from <= k < to ==> ReadAll(h1[k]) == Some(st)
  }

  ghost predicate Continues(h0: seq<Image>, h1: seq<Image>) {
    0 < |h0| <= |h1| && forall k :: 0 <= k < |h0| ==> h1[k] == h0[k]
  }

  datatype Outcome = Completed | MapDoesNotFit | NotReopenable | StreamSpoiled

  /** Everything written since the last commit leaves the file as it was. */
  lemma StillDurable(m: Msf)
    requires m.Valid() && m.committed.Some?
    ensures ReadsAs(m.file.history, m.since, |m.file.history|, Durable(m))
  {
    forall k | m.since <= k < |m.file.history| ensures ReadAll(m.file.history[k]) == Some(Durable(m)) {
      ReadableAnytime(m.committed.value, m.since, m.file.history, k);
    }
  }

  /** The writes of a commit before the one of page 0 leave the file as it was. */
  lemma DurableUntil(s: Snapshot, since: nat, h0: seq<Image>, h1: seq<Image>, st: seq<Stream>)
    requires CommittedReadable(Some(s), since, h0) && ReadAll(h0[since]) == Some(st)
    requires Extends(h0, h1, FootprintOf(Some(s)))
    ensures ReadsAs(h1, |h0| - 1, |h1|, st) && Continues(h0, h1)
  {
    ReadableExtends(Some(s), since, h0, h1, FootprintOf(Some(s)));
    assert h1[since] == h0[since];
    forall k | |h0| - 1 <= k < |h1| ensures ReadAll(h1[k]) == Some(st) {
      ReadableAnytime(s, since, h1, k);
    }
  }

  lemma Bounds(m: Msf)
    requires m.Valid()
    ensures m.file.Valid() && 0 < |m.file.history| && m.file.history[|m.file.history| - 1] == m.file.image
    ensures m.committed.Some? ==> m.since < |m.file.history| && ReadAll(m.file.history[m.since]).Some?
  {
  }

  /** The pages of the stream that an operation has written. */
  function PagesWritten(op: Op, st: seq<Stream>, ps: nat): nat
    requires 0 < ps
  {
    match op
    case Write(stream, _, _) => PagesAt(st, stream, ps)
    case Replace(stream, _) => PagesAt(st, stream, ps)
    case SetLength(stream, _) => PagesAt(st, stream, ps)
    case _ => 0
  }

  /**
   * The stream operation itself, and whether it leaves the streams as it should. If so, it uses at most as many new
   * pages as the stream that it writes has afterwards.
   */
  method Perform(m: Msf, op: Op) returns (ok: bool)
    requires m.Valid() && Legal(op) && !op.Save?
    modifies m`streamSizes, m`modifiedStreams, m`owner, m.pages, m.file
    ensures 512 <= m.pages.pageSize && m.file.Valid()
    ensures ok <==> !Spoils(op, old(m.Streams()), m.maxStreams, old(m.pages.fpm), m.pages.pageSize)
    ensures ok ==>
              && m.Valid() && m.Streams() == Apply(old(m.Streams()), m.maxStreams, op)
              && (m.Clean() ==> old(m.Clean()) && m.Streams() == old(m.Streams()) && m.InUse() == old(m.InUse()))
              && old(m.InUse()) <= m.InUse() <= old(m.InUse()) + PagesWritten(op, m.Streams(), m.pages.pageSize)
              && m.pages.numPages == FileSize(old(m.pages.numPages), m.InUse(), m.pages.pageSize)
    ensures Extends(old(m.file.history), m.file.history, FootprintOf(m.committed))
  {
    hide Msf.Valid;
    hide Msf.Clean;
    hide Msf.InUse;
    hide Msf.Streams;
    hide Msf.GrownWrong;
    hide ApplyWrite;
    hide ApplySet;
    hide ApplySetLen;
    hide LenWorks;
    hide PadNil;
    hide OpenedBytes;
    hide Extends;
    hide FootprintOf;
    hide UsedAtMost;
    hide PagesAt;
    hide FileSize;
    hide Contents;
    hide PageAllocator.State;
    ghost var a0 := m.pages.State();
    m.NothingWritten();
    PagesAre(m);
    match op {
      case AddStream =>
        var r := m.NewStream();
        NothingUsed(a0, m.pages.State(), m.pages.pageSize);
        ok := true;
      case AddNil =>
        var r := m.NilStream();
        NothingUsed(a0, m.pages.State(), m.pages.pageSize);
        ok := true;
      case Write(stream, bytes, offset) =>
        var written := m.WriteAt(stream, bytes, offset);
        ok := !written || bytes == [] || offset + |bytes| != NIL_STREAM_SIZE;
      case Replace(stream, bytes) =>
        var written := m.SetContents(stream, bytes);
        ok := true;
      case SetLength(stream, len) =>
        var r := m.SetLen(stream, len);
        ok := r.Done? || r.NoSuchStream?;
    }
    if ok {
      PagesAre(m);
      UsedMeans(m, a0, PagesWritten(op, m.Streams(), m.pages.pageSize));
    }
  }

  lemma PagesAre(m: Msf)
    requires m.Valid()
    ensures 512 <= m.pages.pageSize && m.file.Valid() && |m.pages.State().fpm| == m.pages.numPages
    ensures m.InUse() == Taken(m.pages.State(), m.pages.pageSize)
  {
  }

  lemma UsedMeans(m: Msf, a0: PageState, n: nat)
    requires m.Valid() && 512 <= m.pages.pageSize && UsedAtMost(a0, m.pages.State(), m.pages.pageSize, n)
    ensures m.InUse() == Taken(m.pages.State(), m.pages.pageSize)
    ensures Taken(a0, m.pages.pageSize) <= m.InUse() <= Taken(a0, m.pages.pageSize) + n
    ensures m.pages.numPages == FileSize(|a0.fpm|, m.InUse(), m.pages.pageSize)
  {
    SubsetSize(TakenSet(a0, m.pages.pageSize), TakenSet(m.pages.State(), m.pages.pageSize));
  }

  // ---------------------------------------------------------------- the pages that a run needs

  /** Upper bounds for the pages in use and for the size of the file. */
  datatype Budget = Budget(inUse: nat, numPages: nat)

  /**
   * Writing a stream takes at most as many pages as the stream has then. A commit needs pages for its directory; after
   * it, just the committed pages are in use. `floor` is what was in use at first, for a commit without any changes.
   */
  function Spend(b: Budget, floor: nat, st: seq<Stream>, maxStreams: nat, ps: nat, op: Op): Budget
    requires 2 < ps
  {
    if op.Save? then
      Budget(Max(floor, CommittedPageCount(st, ps)), SavedSize(b.numPages, b.inUse, st, ps))
    else
      var inUse := b.inUse + PagesWritten(op, Apply(st, maxStreams, op), ps);
      Budget(inUse, FileSize(b.numPages, inUse, ps))
  }

  /** What a run needs at most. It depends on the sizes of the streams only. */
  function BudgetAfter(b: Budget, floor: nat, s: State, maxStreams: nat, ps: nat, ops: seq<Op>): Budget
    requires 2 < ps
  {
    if ops == [] then b else
    var init := ops[..|ops| - 1];
    Spend(BudgetAfter(b, floor, s, maxStreams, ps, init), floor, After(s, maxStreams, init).current, maxStreams, ps, ops[|ops| - 1])
  }

  ghost predicate Within(m: Msf, b: Budget, floor: nat)
    requires 0 < m.pages.pageSize
    reads m, m.file, m.pages
  {
    && m.InUse() <= b.inUse && m.pages.numPages <= b.numPages
    && (m.Clean() ==> m.InUse() <= Max(floor, CommittedPageCount(m.Streams(), m.pages.pageSize)))
  }

  lemma FileSizeMono(np: nat, np': nat, taken: nat, taken': nat, ps: nat)
    requires 2 < ps && np <= np' && taken <= taken'
    ensures FileSize(np, taken, ps) <= FileSize(np', taken', ps)
  {
    SpreadMono(taken, taken', ps);
  }

  lemma SavedSizeMono(np: nat, np': nat, inUse: nat, inUse': nat, st: seq<Stream>, ps: nat)
    requires 2 < ps && np <= np' && inUse <= inUse'
    ensures SavedSize(np, inUse, st, ps) <= SavedSize(np', inUse', st, ps)
  {
    FileSizeMono(np, np', inUse + DirPagesFor(st, ps) + MapPagesFor(st, ps), inUse' + DirPagesFor(st, ps) + MapPagesFor(st, ps), ps);
  }

  /** An operation stays within what it may spend. */
  lemma EditSpends(m: Msf, op: Op, b: Budget, floor: nat, st: seq<Stream>, in0: nat, np0: nat, wasClean: bool)
    requires 2 < m.pages.pageSize && !op.Save? && in0 <= b.inUse && np0 <= b.numPages
    requires wasClean ==> in0 <= Max(floor, CommittedPageCount(st, m.pages.pageSize))
    requires m.Streams() == Apply(st, m.maxStreams, op)
    requires m.Clean() ==> wasClean && m.Streams() == st && m.InUse() == in0
    requires m.InUse() <= in0 + PagesWritten(op, m.Streams(), m.pages.pageSize)
    requires m.pages.numPages == FileSize(np0, m.InUse(), m.pages.pageSize)
    ensures Within(m, Spend(b, floor, st, m.maxStreams, m.pages.pageSize, op), floor)
  {
    hide *;
    SpendEdit(b, floor, st, m.maxStreams, m.pages.pageSize, op);
    FileSizeMono(np0, b.numPages, m.InUse(), b.inUse + PagesWritten(op, m.Streams(), m.pages.pageSize), m.pages.pageSize);
    StaysWithin(m, Spend(b, floor, st, m.maxStreams, m.pages.pageSize, op), floor);
  }

  lemma SpendEdit(b: Budget, floor: nat, st: seq<Stream>, maxStreams: nat, ps: nat, op: Op)
    requires 2 < ps && !op.Save?
    ensures var b' := Spend(b, floor, st, maxStreams, ps, op);
            && b'.inUse == b.inUse + PagesWritten(op, Apply(st, maxStreams, op), ps)
            && b'.numPages == FileSize(b.numPages, b'.inUse, ps)
  {
  }

  lemma StaysWithin(m: Msf, b: Budget, floor: nat)
    requires 0 < m.pages.pageSize && m.InUse() <= b.inUse && m.pages.numPages <= b.numPages
    requires m.Clean() ==> m.InUse() <= Max(floor, CommittedPageCount(m.Streams(), m.pages.pageSize))
    ensures Within(m, b, floor)
  {
  }

  lemma EditDone(m: Msf, op: Op, s: State, h0: seq<Image>)
    requires m.Valid() && m.committed.Some? && m.since < |h0| && Continues(h0, m.file.history) && !op.Save?
    requires ReadAll(h0[m.since]) == Some(s.durable) && m.Streams() == Apply(s.current, m.maxStreams, op)
    requires m.Clean() ==> m.Streams() == s.durable
    ensures Ready(m) && StateOf(m) == Next(s, m.maxStreams, op)
    ensures ReadsAs(m.file.history, |h0| - 1, |m.file.history|, s.durable)
  {
    Bounds(m);
    StillDurable(m);
  }

  /** One stream operation: nothing becomes durable, and nothing durable is lost, even if the operation spoils its stream. */
  method Edit(m: Msf, op: Op, ghost s: State, ghost h0: seq<Image>, ghost b: Budget, ghost floor: nat) returns (ok: bool)
    requires Ready(m) && Legal(op) && !op.Save? && s == StateOf(m) && h0 == m.file.history && Within(m, b, floor)
    modifies m`streamSizes, m`modifiedStreams, m`owner, m.pages, m.file
    ensures 512 <= m.pages.pageSize && m.file.Valid()
    ensures ok <==> !Spoils(op, s.current, m.maxStreams, old(m.pages.fpm), m.pages.pageSize)
    ensures !ok ==> MaySpoil(op, s.current, m.maxStreams, m.pages.pageSize)
    ensures ok ==> Ready(m) && StateOf(m) == Next(s, m.maxStreams, op)
    ensures ok ==> Within(m, Spend(b, floor, s.current, m.maxStreams, m.pages.pageSize, op), floor)
    ensures Continues(h0, m.file.history)
    ensures ReadsAs(m.file.history, |h0| - 1, |m.file.history|, s.durable)
  {
    hide *;
    ReadyFacts(m);
    WithinFacts(m, b, floor);
    MayIfSpoils(m, op);
    ghost var in0, np0, wasClean, snap, since := m.InUse(), m.pages.numPages, m.Clean(), m.committed.value, m.since;
    ok := Perform(m, op);
    DurableUntil(snap, since, h0, m.file.history, s.durable);
    if ok {
      EditDone(m, op, s, h0);
      EditSpends(m, op, b, floor, s.current, in0, np0, wasClean);
    }
  }

  lemma MayIfSpoils(m: Msf, op: Op)
    requires m.Valid()
    ensures 512 <= m.pages.pageSize
    ensures Spoils(op, m.Streams(), m.maxStreams, m.pages.fpm, m.pages.pageSize) ==>
              MaySpoil(op, m.Streams(), m.maxStreams, m.pages.pageSize)
  {
    hide Spoils;
    hide MaySpoil;
    hide Msf.Streams;
    if Spoils(op, m.Streams(), m.maxStreams, m.pages.fpm, m.pages.pageSize) {
      SpoilsMay(op, m.Streams(), m.maxStreams, m.pages.fpm, m.pages.pageSize);
    }
  }

  lemma WithinFacts(m: Msf, b: Budget, floor: nat)
    requires 0 < m.pages.pageSize && Within(m, b, floor)
    ensures m.InUse() <= b.inUse && m.pages.numPages <= b.numPages
    ensures m.Clean() ==> m.InUse() <= Max(floor, CommittedPageCount(m.Streams(), m.pages.pageSize))
  {
  }

  /** Fewer images read the same; there is at least one. */
  lemma ReadsPart(h: seq<Image>, from: nat, to: nat, from': int, to': int, st: seq<Stream>)
    requires ReadsAs(h, from, to, st) && from <= from' <= to' <= to == |h| && 0 < |h| && from < to
    ensures ReadsAs(h, from', to', st) && Continues(h, h) && ReadAll(h[|h| - 1]) == Some(st)
  {
  }

  lemma ReadsPrefix(h0: seq<Image>, h: seq<Image>, st: seq<Stream>)
    requires Continues(h0, h) && ReadsAs(h, |h0| - 1, |h|, st)
    ensures ReadsAs(h, |h0| - 1, |h| - 1, st) && ReadAll(h[|h| - 1]) == Some(st)
  {
  }

  lemma ReadsLonger(h0: seq<Image>, h: seq<Image>, n: nat, from: nat, st: seq<Stream>)
    requires n <= |h| && ReadsAs(h[..n], from, n, st) && Continues(h0, h[..n])
    ensures ReadsAs(h, from, n, st) && Continues(h0, h)
  {
    forall k | from <= k < n ensures ReadAll(h[k]) == Some(st) {
      assert h[..n][k] == h[k];
    }
  }

  lemma DirectoryNeeds(m: Msf)
    requires m.Valid()
    ensures |DirWords(m.streamSizes, m.View())| == DirLength(m.Streams(), m.pages.pageSize)
    ensures |AllPages(m.View())| == LivePages(m.Streams(), m.pages.pageSize)
    ensures m.DirPages() == DirPagesFor(m.Streams(), m.pages.pageSize)
    ensures m.MapPages() == MapPagesFor(m.Streams(), m.pages.pageSize) && 512 <= m.pages.pageSize
  {
    CurrentFits(m.Tabs(), m.pages.pageSize);
    DirLengthIs(m.file.image, m.pages.pageSize, m.streamSizes, m.View());
  }

  /** The limits of a file that an opener accepts: what it reads of page 0, and the 32-bit fields. */
  predicate WithinLimits(st: seq<Stream>, ps: nat, numPages: nat)
    requires 0 < ps
  {
    MapPagesFor(st, ps) <= MAX_MAP_PAGES && numPages < U32_LIMIT && 4 * DirLength(st, ps) < U32_LIMIT
  }

  /** Right after a commit, and whenever nothing has changed since, the current streams are durable. */
  lemma NowReady(m: Msf, s: State)
    requires m.Valid() && m.committed.Some? && ReadAll(m.file.history[m.since]) == Some(m.Streams()) && m.Streams() == s.current
    ensures Ready(m) && StateOf(m) == Next(s, m.maxStreams, Save) && ReadAll(m.file.image) == Some(s.current)
  {
    Bounds(m);
    StillDurable(m);
  }

  ghost predicate OutOfLimits(ps: nat, numPages: nat, st: seq<Stream>) {
    0 < ps && !WithinLimits(st, ps, numPages)
  }

  /** A map that does not fit into page 0 does not fit into what the opener reads of it. */
  lemma LimitsImply(st: seq<Stream>, ps: nat, numPages: nat)
    requires 512 <= ps
    ensures ps < MSF_HEADER_LEN + 4 * MapPagesFor(st, ps) || !WithinLimits(st, ps, numPages) ==> OutOfLimits(ps, numPages, st)
  {
  }

  lemma OutGrows(st: seq<Stream>, ps: nat, numPages: nat, more: nat)
    requires OutOfLimits(ps, numPages, st) && numPages <= more
    ensures OutOfLimits(ps, more, st)
  {
  }

  /** What a commit leaves in use, and how large it makes the file. */
  lemma SaveSizes(st: seq<Stream>, ps: nat, np: nat, inUse: nat, dir: nat, map': nat, live: nat)
    requires 2 < ps && dir == DirPagesFor(st, ps) && map' == MapPagesFor(st, ps) && live == LivePages(st, ps)
    ensures FileSize(np, inUse + dir + map', ps) == SavedSize(np, inUse, st, ps)
    ensures dir + map' + live == CommittedPageCount(st, ps)
  {
  }

  /** A commit stays within what it may spend. */
  lemma SaveSpends(m: Msf, b: Budget, floor: nat, st: seq<Stream>, in0: nat, np0: nat, wasClean: bool)
    requires 2 < m.pages.pageSize && in0 <= b.inUse && np0 <= b.numPages && m.Streams() == st
    requires wasClean ==> in0 <= Max(floor, CommittedPageCount(st, m.pages.pageSize)) && m.InUse() == in0 && m.pages.numPages == np0
    requires !wasClean ==> m.InUse() == CommittedPageCount(st, m.pages.pageSize)
                           && m.pages.numPages == SavedSize(np0, in0, st, m.pages.pageSize)
    ensures Within(m, Spend(b, floor, st, m.maxStreams, m.pages.pageSize, Save), floor)
  {
    SavedSizeMono(np0, b.numPages, in0, b.inUse, st, m.pages.pageSize);
  }

  lemma ReadyFacts(m: Msf)
    requires Ready(m)
    ensures m.Valid() && m.committed.Some? && StateOf(m) == State(m.Streams(), Durable(m))
    ensures 0 < |m.file.history| && m.file.history[|m.file.history| - 1] == m.file.image
    ensures ReadAll(m.file.image) == Some(StateOf(m).durable)
    ensures m.since < |m.file.history| && ReadAll(m.file.history[m.since]) == Some(StateOf(m).durable)
    ensures m.Clean() ==> m.Streams() == Durable(m)
    ensures 512 <= m.pages.pageSize && CommittedReadable(m.committed, m.since, m.file.history)
  {
    Bounds(m);
    StillDurable(m);
  }

  lemma SaveStart(m: Msf, s: State, h0: seq<Image>)
    requires Ready(m) && s == StateOf(m) && h0 == m.file.history
    ensures m.Valid() && m.committed.Some? && s.current == m.Streams() && 512 <= m.pages.pageSize
    ensures CommittedReadable(m.committed, m.since, h0) && ReadAll(h0[m.since]) == Some(s.durable)
    ensures m.Clean() ==> ReadAll(h0[m.since]) == Some(s.current)
    ensures 0 < |h0| && ReadsAs(h0, |h0| - 1, |h0| - 1, s.durable) && Continues(h0, h0)
    ensures |DirWords(m.streamSizes, m.View())| == DirLength(s.current, m.pages.pageSize)
    ensures |AllPages(m.View())| == LivePages(s.current, m.pages.pageSize)
    ensures m.DirPages() == DirPagesFor(s.current, m.pages.pageSize)
    ensures m.MapPages() == MapPagesFor(s.current, m.pages.pageSize)
  {
    Bounds(m);
    StillDurable(m);
    DirectoryNeeds(m);
    ReadsPart(h0, m.since, |h0|, |h0| - 1, |h0| - 1, s.durable);
  }

  lemma LimitsAre(h: Header, numMapPages: nat, st: seq<Stream>)
    requires 0 < h.pageSize && h.dirSize == 4 * DirLength(st, h.pageSize) && numMapPages == MapPagesFor(st, h.pageSize)
    ensures Reopenable(h, numMapPages) <==> WithinLimits(st, h.pageSize, h.numPages)
  {
  }

  /**
   * A commit. Until page 0 is written, a crash leaves the old streams; from then on it leaves the current ones,
   * exactly when the directory is within the limits of the opener.
   */
  method SaveAll(m: Msf, ghost s: State, ghost h0: seq<Image>) returns (out: Outcome)
    requires Ready(m) && s == StateOf(m) && h0 == m.file.history
    modifies m, m.pages, m.file
    ensures Continues(h0, m.file.history) && ReadsAs(m.file.history, |h0| - 1, |m.file.history| - 1, s.durable)
    ensures !out.StreamSpoiled?
    ensures out.Completed? ==> Ready(m) && StateOf(m) == Next(s, m.maxStreams, Save) && ReadAll(m.file.image) == Some(s.current)
    ensures out.MapDoesNotFit? ==> ReadAll(m.file.image) == Some(s.durable)
    ensures out.MapDoesNotFit? <==>
              && !old(m.Clean())
              && m.pages.pageSize < MSF_HEADER_LEN + 4 * MapPagesFor(s.current, m.pages.pageSize)
    ensures 2 < m.pages.pageSize
    ensures out.NotReopenable? <==>
              && !old(m.Clean())
              && MSF_HEADER_LEN + 4 * MapPagesFor(s.current, m.pages.pageSize) <= m.pages.pageSize
              && !WithinLimits(s.current, m.pages.pageSize,
                               SavedSize(old(m.pages.numPages), old(m.InUse()), s.current, m.pages.pageSize))
    ensures out.Completed? && old(m.Clean()) ==> m.InUse() == old(m.InUse()) && m.pages.numPages == old(m.pages.numPages)
    ensures out.Completed? && !old(m.Clean()) ==>
              && m.InUse() == CommittedPageCount(s.current, m.pages.pageSize)
              && m.pages.numPages == SavedSize(old(m.pages.numPages), old(m.InUse()), s.current, m.pages.pageSize)
  {
    hide *;
    SaveStart(m, s, h0);
    ghost var snap, since, np0, in0 := m.committed.value, m.since, m.pages.numPages, m.InUse();
    SaveSizes(s.current, m.pages.pageSize, np0, in0, m.DirPages(), m.MapPages(), |AllPages(m.View())|);
    m.InUseIs();
    var r := m.Commit();
    m.InUseIs();
    match r {
      case NothingToDo =>
        NowReady(m, s);
        out := Completed;
      case MapTooLarge =>
        LastImage(m.file);
        DurableUntil(snap, since, h0, m.file.history, s.durable);
        ReadsPrefix(h0, m.file.history, s.durable);
        out := MapDoesNotFit;
      case Committed(header, numMapPages) =>
        DurableUntil(snap, since, h0, m.file.history[..m.since], s.durable);
        ReadsLonger(h0, m.file.history, m.since, |h0| - 1, s.durable);
        LimitsAre(header, numMapPages, s.current);
        Bounds(m);
        if m.committed.Some? {
          NowReady(m, s);
        }
        out := if Reopenable(header, numMapPages) then Completed else NotReopenable;
    }
  }

  // ---------------------------------------------------------------- whole runs

  lemma SpendSave(b: Budget, floor: nat, st: seq<Stream>, maxStreams: nat, ps: nat)
    requires 2 < ps
    ensures Spend(b, floor, st, maxStreams, ps, Save).numPages == SavedSize(b.numPages, b.inUse, st, ps)
  {
  }

  lemma SaveSpoilsNothing(st: seq<Stream>, maxStreams: nat, fpm: seq<bool>, ps: nat)
    requires 512 <= ps
    ensures !Spoils(Save, st, maxStreams, fpm, ps)
  {
  }

  /** One operation of a run. */
  method Step(m: Msf, op: Op, ghost s: State, ghost h0: seq<Image>, ghost b: Budget, ghost floor: nat) returns (out: Outcome)
    requires Ready(m) && Legal(op) && s == StateOf(m) && h0 == m.file.history && Within(m, b, floor)
    modifies m, m.pages, m.file
    ensures Continues(h0, m.file.history)
    ensures ReadsAs(m.file.history, |h0| - 1, |m.file.history| - 1, s.durable)
    ensures out.Completed? ==> Ready(m) && StateOf(m) == Next(s, m.maxStreams, op)
    ensures out.Completed? ==> ReadAll(m.file.history[|m.file.history| - 1]) == Some(StateOf(m).durable)
    ensures 512 <= m.pages.pageSize
    ensures out.StreamSpoiled? <==> Spoils(op, s.current, m.maxStreams, old(m.pages.fpm), m.pages.pageSize)
    ensures out.StreamSpoiled? ==> !op.Save? && MaySpoil(op, s.current, m.maxStreams, m.pages.pageSize)
    ensures var b' := Spend(b, floor, s.current, m.maxStreams, m.pages.pageSize, op);
            && (out.Completed? ==> Within(m, b', floor))
            && (!out.Completed? && !out.StreamSpoiled? ==> op.Save? && OutOfLimits(m.pages.pageSize, b'.numPages, s.current))
    ensures out.MapDoesNotFit? || out.StreamSpoiled? ==> ReadAll(m.file.image) == Some(s.durable)
  {
    hide *;
    ReadyFacts(m);
    SaveSpoilsNothing(s.current, m.maxStreams, m.pages.fpm, m.pages.pageSize);
    if op.Save? {
      WithinFacts(m, b, floor);
      ghost var in0, np0, wasClean, ps := m.InUse(), m.pages.numPages, m.Clean(), m.pages.pageSize;
      out := SaveAll(m, s, h0);
      LimitsImply(s.current, ps, SavedSize(np0, in0, s.current, ps));
      SavedSizeMono(np0, b.numPages, in0, b.inUse, s.current, ps);
      SpendSave(b, floor, s.current, m.maxStreams, ps);
      if out.Completed? {
        ReadyFacts(m);
        NextSave(s, m.maxStreams);
        SaveSpends(m, b, floor, s.current, in0, np0, wasClean);
      } else {
        OutGrows(s.current, ps, SavedSize(np0, in0, s.current, ps), SavedSize(b.numPages, b.inUse, s.current, ps));
      }
    } else {
      var ok := Edit(m, op, s, h0, b, floor);
      ReadsPrefix(h0, m.file.history, s.durable);
      LastImage(m.file);
      out := if ok then Completed else StreamSpoiled;
    }
    if out.Completed? {
      ReadyFacts(m);
    }
  }

  /**
   * Crash atomicity. `marks[i]` counts the images before operation `i`. Every image that operation `i` leaves on
   * disk reads back as what was durable before the operation; only its last image shows what is durable after it.
   */
  ghost predicate CrashSafe(h: seq<Image>, marks: seq<nat>, s: State, maxStreams: nat, ops: seq<Op>) {
    && 0 < |marks| <= |ops| + 1
    && (forall i :: 0 <= i < |marks| ==> 0 < marks[i] <= |h|)
    && (forall i :: 0 <= i < |marks| ==> ReadAll(h[marks[i] - 1]) == Some(After(s, maxStreams, ops[..i]).durable))
    && (forall i, k :: 0 <= i < |marks| - 1 && marks[i] <= k < marks[i + 1] - 1 ==>
          ReadAll(h[k]) == Some(After(s, maxStreams, ops[..i]).durable))
  }

  lemma CrashSafeStep(h0: seq<Image>, h: seq<Image>, marks: seq<nat>, s: State, maxStreams: nat, ops: seq<Op>)
    requires CrashSafe(h0, marks, s, maxStreams, ops) && |marks| <= |ops| && marks[|marks| - 1] == |h0|
    requires Continues(h0, h)
    requires ReadsAs(h, |h0| - 1, |h| - 1, After(s, maxStreams, ops[..|marks| - 1]).durable)
    requires ReadAll(h[|h| - 1]) == Some(After(s, maxStreams, ops[..|marks|]).durable)
    ensures CrashSafe(h, marks + [|h|], s, maxStreams, ops)
  {
    hide ReadAll;
    hide After;
    var n, marks' := |marks| - 1, marks + [|h|];
    forall i | 0 <= i < |marks'| ensures ReadAll(h[marks'[i] - 1]) == Some(After(s, maxStreams, ops[..i]).durable) {
      if i <= n {
        assert h[marks[i] - 1] == h0[marks[i] - 1];
      }
    }
    forall i, k | 0 <= i < |marks'| - 1 && marks'[i] <= k < marks'[i + 1] - 1
      ensures ReadAll(h[k]) == Some(After(s, maxStreams, ops[..i]).durable)
    {
      if i < n {
        assert h[k] == h0[k];
      }
    }
  }

  lemma CrashSafeStart(h: seq<Image>, s: State, maxStreams: nat, ops: seq<Op>)
    requires 0 < |h| && ReadAll(h[|h| - 1]) == Some(s.durable)
    ensures CrashSafe(h, [|h|], s, maxStreams, ops)
  {
    hide ReadAll;
    assert ops[..0] == [];
  }

  lemma AfterStep(s: State, maxStreams: nat, ops: seq<Op>, i: nat)
    requires i < |ops|
    ensures After(s, maxStreams, ops[..i + 1]) == Next(After(s, maxStreams, ops[..i]), maxStreams, ops[i])
  {
    assert ops[..i + 1][..i] == ops[..i];
  }

  lemma ContinuesTrans(h0: seq<Image>, h1: seq<Image>, h2: seq<Image>)
    requires Continues(h0, h1) && Continues(h1, h2)
    ensures Continues(h0, h2)
  {
  }

  /**
   * Any sequence of operations on a file that was committed or opened. The run stops early only at a commit whose
   * directory an opener could not read back, and even then every image but the last one is as durable as before, or at
   * an operation that spoils its stream, which leaves the file as durable as before. Whether that can happen is known
   * beforehand: the pages in use and the size of the file stay within a budget that follows from the sizes of the
   * streams. A run all of whose commits are within the limits on that budget, and none of whose operations may spoil a
   * stream, completes.
   */
  method Run(m: Msf, ops: seq<Op>) returns (out: Outcome, done: nat, ghost marks: seq<nat>)
    requires Ready(m) && forall i :: 0 <= i < |ops| ==> Legal(ops[i])
    modifies m, m.pages, m.file
    ensures done <= |ops| && |marks| == done + 1 && marks[0] == |old(m.file.history)| && (out.Completed? <==> done == |ops|)
    ensures CrashSafe(m.file.history, marks, old(StateOf(m)), m.maxStreams, ops) && Continues(old(m.file.history), m.file.history)
    ensures out.Completed? ==>
              Ready(m) && StateOf(m) == After(old(StateOf(m)), m.maxStreams, ops) && marks[done] == |m.file.history|
    ensures 2 < m.pages.pageSize
    ensures var b := Budget(old(m.InUse()), old(m.pages.numPages));
            && (SavesWithin(b, old(StateOf(m)), m.maxStreams, m.pages.pageSize, ops) ==>
                NothingSpoiled(old(StateOf(m)), m.maxStreams, m.pages.pageSize, ops) ==> out.Completed?)
            && (out.Completed? ==>
                  var b' := BudgetAfter(b, b.inUse, old(StateOf(m)), m.maxStreams, m.pages.pageSize, ops);
                  m.InUse() <= b'.inUse && m.pages.numPages <= b'.numPages)
    ensures !out.Completed? ==>
              var s := After(old(StateOf(m)), m.maxStreams, ops[..done]);
              && ReadsAs(m.file.history, marks[done] - 1, |m.file.history| - 1, s.durable)
              && (if out.StreamSpoiled? then MaySpoil(ops[done], s.current, m.maxStreams, m.pages.pageSize) else ops[done].Save?)
              && (out.StreamSpoiled? || out.MapDoesNotFit? ==> ReadAll(m.file.image) == Some(s.durable))
  {
    hide *;
    ReadyFacts(m);
    ghost var s, h0, b := StateOf(m), m.file.history, Budget(m.InUse(), m.pages.numPages);
    RunStart(m, s, ops);
    marks, done, out := [|h0|], 0, Completed;
    while done < |ops|
      invariant done <= |ops| && |marks| == done + 1 && marks[0] == |h0|
      invariant Ready(m) && StateOf(m) == After(s, m.maxStreams, ops[..done])
      invariant marks[done] == |m.file.history| && CrashSafe(m.file.history, marks, s, m.maxStreams, ops)
      invariant Continues(h0, m.file.history) && 2 < m.pages.pageSize
      invariant Within(m, BudgetAfter(b, b.inUse, s, m.maxStreams, m.pages.pageSize, ops[..done]), b.inUse)
    {
      ghost var h1 := m.file.history;
      BudgetStep(b, b.inUse, s, m.maxStreams, m.pages.pageSize, ops, done);
      out := Step(m, ops[done], StateOf(m), h1,
                  BudgetAfter(b, b.inUse, s, m.maxStreams, m.pages.pageSize, ops[..done]), b.inUse);
      ContinuesTrans(h0, h1, m.file.history);
      if !out.Completed? {
        CrashSafeLonger(h1, m.file.history, marks, s, m.maxStreams, ops);
        if out.StreamSpoiled? {
          NotUnspoiled(s, m.maxStreams, m.pages.pageSize, ops, done);
        } else {
          NotWithin(b, s, m.maxStreams, m.pages.pageSize, ops, done);
        }
        return;
      }
      AfterStep(s, m.maxStreams, ops, done);
      CrashSafeStep(h1, m.file.history, marks, s, m.maxStreams, ops);
      marks, done := marks + [|m.file.history|], done + 1;
    }
    out := Completed;
    assert ops[..done] == ops;
    WithinFacts(m, BudgetAfter(b, b.inUse, s, m.maxStreams, m.pages.pageSize, ops), b.inUse);
  }

  /** Every commit of the run is within the limits of an opener, on the budget of the run. */
  ghost predicate SavesWithin(b: Budget, s: State, maxStreams: nat, ps: nat, ops: seq<Op>)
    requires 2 < ps
  {
    forall i :: 0 <= i < |ops| && ops[i].Save? ==>
      !OutOfLimits(ps, BudgetAfter(b, b.inUse, s, maxStreams, ps, ops[..i + 1]).numPages, After(s, maxStreams, ops[..i]).current)
  }

  /** No operation of the run may spoil its stream. */
  predicate NothingSpoiled(s: State, maxStreams: nat, ps: nat, ops: seq<Op>) {
    forall i :: 0 <= i < |ops| ==> !MaySpoil(ops[i], After(s, maxStreams, ops[..i]).current, maxStreams, ps)
  }

  lemma NotUnspoiled(s: State, maxStreams: nat, ps: nat, ops: seq<Op>, i: nat)
    requires i < |ops| && MaySpoil(ops[i], After(s, maxStreams, ops[..i]).current, maxStreams, ps)
    ensures !NothingSpoiled(s, maxStreams, ps, ops)
  {
    hide MaySpoil;
    hide After;
  }

  lemma NotWithin(b: Budget, s: State, maxStreams: nat, ps: nat, ops: seq<Op>, i: nat)
    requires 2 < ps && i < |ops| && ops[i].Save?
    requires OutOfLimits(ps, BudgetAfter(b, b.inUse, s, maxStreams, ps, ops[..i + 1]).numPages, After(s, maxStreams, ops[..i]).current)
    ensures !SavesWithin(b, s, maxStreams, ps, ops)
  {
    hide OutOfLimits;
    hide BudgetAfter;
    hide After;
  }

  lemma BudgetStep(b: Budget, floor: nat, s: State, maxStreams: nat, ps: nat, ops: seq<Op>, i: nat)
    requires 2 < ps && i < |ops|
    ensures BudgetAfter(b, floor, s, maxStreams, ps, ops[..i + 1])
         == Spend(BudgetAfter(b, floor, s, maxStreams, ps, ops[..i]), floor, After(s, maxStreams, ops[..i]).current, maxStreams, ps, ops[i])
  {
    assert ops[..i + 1][..i] == ops[..i];
  }

  lemma RunStart(m: Msf, s: State, ops: seq<Op>)
    requires Ready(m) && s == StateOf(m)
    ensures CrashSafe(m.file.history, [|m.file.history|], s, m.maxStreams, ops)
    ensures Continues(m.file.history, m.file.history) && After(s, m.maxStreams, ops[..0]) == s
    ensures var b := Budget(m.InUse(), m.pages.numPages);
            && 2 < m.pages.pageSize
            && BudgetAfter(b, b.inUse, s, m.maxStreams, m.pages.pageSize, ops[..0]) == b && Within(m, b, b.inUse)
  {
    ReadyFacts(m);
    CrashSafeStart(m.file.history, s, m.maxStreams, ops);
  }

  lemma CrashSafeLonger(h0: seq<Image>, h: seq<Image>, marks: seq<nat>, s: State, maxStreams: nat, ops: seq<Op>)
    requires CrashSafe(h0, marks, s, maxStreams, ops) && Continues(h0, h)
    ensures CrashSafe(h, marks, s, maxStreams, ops)
  {
    hide ReadAll;
    forall i | 0 <= i < |marks| ensures ReadAll(h[marks[i] - 1]) == Some(After(s, maxStreams, ops[..i]).durable) {
      assert h[marks[i] - 1] == h0[marks[i] - 1];
    }
    forall i, k | 0 <= i < |marks| - 1 && marks[i] <= k < marks[i + 1] - 1
      ensures ReadAll(h[k]) == Some(After(s, maxStreams, ops[..i]).durable)
    {
      assert h[k] == h0[k];
    }
  }

  // ---------------------------------------------------------------- reopening

  /** An editor that has been opened from a readable file is ready for a run, and shows what the file holds. */
  method OpenForRun(file: BlockFile) returns (m: Msf)
    requires file.Valid() && ReadAll(file.image).Some?
    ensures fresh(m) && m.file == file && Ready(m) && m.Clean()
    ensures var st := ReadAll(file.image).value; StateOf(m) == State(st, st)
  {
    hide *;
    OpensWhenRead(file.image);
    LastImage(file);
    var r := Msf.ModifyWithFile(file);
    m := r.value;
    var st := ReadAll(file.image).value;
    JustReady(m, st);
  }

  lemma OpensWhenRead(img: Image)
    requires ReadAll(img).Some?
    ensures Decode(img).Some?
  {
  }

  lemma JustReady(m: Msf, st: seq<Stream>)
    requires m.Valid() && m.committed.Some? && m.since == |m.file.history| - 1
    requires ReadAll(m.file.image) == Some(st) == Some(m.Streams())
    ensures Ready(m) && StateOf(m) == State(st, st)
  {
  }

  /** The editor that an opener builds from the file is the one that wrote it, down to every page state. */
  ghost predicate SameEditor(a: Msf, b: Msf)
    reads a, a.pages, a.file, b, b.pages, b.file
  {
    && a.Valid() && b.Valid() && a.file == b.file && a.Streams() == b.Streams()
    && a.Tabs() == b.Tabs() && a.pages.State() == b.pages.State() && a.activeFpm == b.activeFpm
    && a.pages.pageSize == b.pages.pageSize && a.pages.numPages == b.pages.numPages
  }

  lemma SyncedTwice(a: Msf, b: Msf)
    requires a.Valid() && b.Valid() && a.file == b.file && a.committed.Some? && a.committed == b.committed
    requires ReadAll(a.file.image) == Some(a.Streams()) == Some(b.Streams())
    requires Synced(a.committed.value, a.Tabs(), a.pages.State(), a.pages.pageSize, a.pages.numPages, a.activeFpm)
    requires Synced(b.committed.value, b.Tabs(), b.pages.State(), b.pages.pageSize, b.pages.numPages, b.activeFpm)
    ensures SameEditor(a, b)
  {
    SyncedUnique(a.committed.value, a.Tabs(), a.pages.State(), b.Tabs(), b.pages.State(),
                 a.pages.pageSize, a.pages.numPages, a.activeFpm, b.activeFpm);
  }

  /** Committing and opening the file again succeeds exactly within the limits, and rebuilds the same state. */
  method SaveAndReopen(m: Msf) returns (m2: Msf?)
    requires m.Valid() && !m.Clean()
    modifies m, m.pages, m.file
    ensures 2 < m.pages.pageSize
    ensures m2 != null <==> WithinLimits(old(m.Streams()), m.pages.pageSize,
                                         SavedSize(old(m.pages.numPages), old(m.InUse()), old(m.Streams()), m.pages.pageSize))
    ensures m2 != null ==> fresh(m2) && SameEditor(m, m2) && m2.Streams() == old(m.Streams())
  {
    hide *;
    DirectoryNeeds(m);
    ghost var st, np0, in0, ps := m.Streams(), m.pages.numPages, m.InUse(), m.pages.pageSize;
    SaveSizes(st, ps, np0, in0, m.DirPages(), m.MapPages(), |AllPages(m.View())|);
    var r := m.Commit();
    LimitsImply(st, ps, SavedSize(np0, in0, st, ps));
    OutMeans(ps, SavedSize(np0, in0, st, ps), st);
    if r.Committed? {
      LimitsAre(r.header, r.numMapPages, st);
      if Reopenable(r.header, r.numMapPages) {
        Bounds(m);
        var reopened := Msf.ModifyWithFile(m.file);
        m2 := reopened.value;
        SyncedTwice(m, m2);
        return;
      }
    }
    m2 := null;
  }

  lemma OutMeans(ps: nat, numPages: nat, st: seq<Stream>)
    requires 0 < ps
    ensures OutOfLimits(ps, numPages, st) <==> !WithinLimits(st, ps, numPages)
  {
  }

  /** At every boundary between operations, each page is in exactly one state, and no page belongs to two places. */
  lemma PageAccounting(m: Msf)
    requires m.Valid()
    ensures forall p :: 0 <= p < m.pages.numPages ==> StatesOf(m.pages.State(), m.pages.pageSize, m.View(), p) == 1
    ensures forall s, i :: 1 <= s < |m.View()| && 0 <= i < |m.View()[s]| ==> m.View()[s][i] < m.pages.numPages
    ensures forall s, i, t, j | 1 <= s < |m.View()| && 0 <= i < |m.View()[s]| && 1 <= t < |m.View()| && 0 <= j < |m.View()[t]| ::
              m.View()[s][i] == m.View()[t][j] ==> s == t && i == j
  {
    EveryPageOnce(m.pages.State(), m.pages.pageSize, m.View(), m.owner);
  }

  /** No page is ever lost: the free, freed and stream pages add up to all ordinary pages of the file. */
  lemma PageCounts(m: Msf)
    requires m.Valid()
    ensures 0 < m.pages.pageSize
    ensures var a, live := m.pages.State(), LivePages(m.Streams(), m.pages.pageSize);
            && m.InUse() == |FreedSet(a)| + live
            && |FreeSet(a)| + |FreedSet(a)| + live == OrdinaryBelow(m.pages.numPages, m.pages.pageSize)
  {
    DirectoryNeeds(m);
    ViewOwned(m);
    CountPages(m.pages.State(), m.pages.pageSize, AllPages(m.View()));
  }

  lemma ViewOwned(m: Msf)
    requires m.Valid()
    ensures WellFormed(m.pages.State(), m.pages.pageSize) && NoDup(AllPages(m.View()))
    ensures forall p :: p in AllPages(m.View()) <==> Busy(m.pages.State(), m.pages.pageSize, p)
  {
    CurrentFits(m.Tabs(), m.pages.pageSize);
    Stream0Empty(m.streamSizes, m.View(), m.pages.pageSize);
    AllPagesOwned(m.pages.State(), m.pages.pageSize, m.View(), m.owner);
  }

  // ---------------------------------------------------------------- from a new file

  const NEW_STREAMS: seq<Stream> := [Data([]), Nil, Nil, Nil, Nil]

  /** What the edits of a new file need at most. */
  function NewFileBudget(maxStreams: nat, ps: nat, edits: seq<Op>): Budget
    requires 2 < ps
  {
    BudgetAfter(Budget(0, 3), 0, State(NEW_STREAMS, []), maxStreams, ps, edits)
  }

  /**
   * A new file is durable from its first commit on, exactly if that is within the limits of an opener: it has just the
   * size that the pages in use and the directory demand. The edits use no more pages than their budget; `spoiled` if one
   * of them spoils its stream.
   */
  method CreateAndSave(file: BlockFile, pageSize: nat, maxStreams: nat, edits: seq<Op>)
    returns (m: Msf?, spoiled: bool, ghost inUse: nat)
    requires file.Valid() && IsPageSize(pageSize) && 5 <= maxStreams < U32_LIMIT
    requires forall i :: 0 <= i < |edits| ==> Legal(edits[i]) && !edits[i].Save?
    modifies file
    ensures inUse <= NewFileBudget(maxStreams, pageSize, edits).inUse
    ensures var st := After(State(NEW_STREAMS, []), maxStreams, edits).current;
            && (m != null <==> !spoiled && WithinLimits(st, pageSize, SavedSize(3, inUse, st, pageSize)))
            && (m != null ==> fresh(m) && m.file == file && Ready(m) && StateOf(m) == State(st, st))
    ensures spoiled ==> !NothingSpoiled(State(NEW_STREAMS, []), maxStreams, pageSize, edits)
    ensures var st := After(State(NEW_STREAMS, []), maxStreams, edits).current;
            NothingSpoiled(State(NEW_STREAMS, []), maxStreams, pageSize, edits) ==>
            WithinLimits(st, pageSize, SavedSize(3, NewFileBudget(maxStreams, pageSize, edits).inUse, st, pageSize)) ==> m != null
  {
    hide *;
    var msf := Msf.CreateFor(file, pageSize, maxStreams);
    assert msf != null;
    ghost var s0, ps := State(NEW_STREAMS, []), pageSize;
    NewStreamsAre();
    NewFileStart(msf, s0, maxStreams, edits);
    m, spoiled, inUse := null, false, 0;
    for i := 0 to |edits|
      invariant msf.Valid() && msf.file == file && fresh(msf) && fresh(msf.pages) && msf.maxStreams == maxStreams
      invariant !msf.Clean() && msf.pages.pageSize == ps && 2 < ps
      invariant msf.Streams() == After(s0, maxStreams, edits[..i]).current
      invariant msf.InUse() <= BudgetAfter(Budget(0, 3), 0, s0, maxStreams, ps, edits[..i]).inUse
      invariant msf.pages.numPages == FileSize(3, msf.InUse(), ps)
    {
      ghost var in0 := msf.InUse();
      MayIfSpoils(msf, edits[i]);
      var ok := Perform(msf, edits[i]);
      if !ok {
        NotUnspoiled(s0, maxStreams, ps, edits, i);
        return null, true, 0;
      }
      CurrentAfter(s0, maxStreams, edits, i);
      BudgetEdit(Budget(0, 3), 0, s0, maxStreams, ps, edits, i);
      FileSizeTwice(3, in0, msf.InUse(), ps);
    }
    assert edits[..|edits|] == edits;
    ghost var st := msf.Streams();
    inUse := msf.InUse();
    DirectoryNeeds(msf);
    SaveSizes(st, ps, msf.pages.numPages, inUse, msf.DirPages(), msf.MapPages(), |AllPages(msf.View())|);
    SavedSizeTwice(3, inUse, st, ps);
    ghost var size := SavedSize(3, inUse, st, ps);
    BudgetIs(maxStreams, ps, edits);
    ghost var most := NewFileBudget(maxStreams, ps, edits).inUse;
    SavedSizeMono(3, 3, inUse, most, st, ps);
    LimitsMono(st, ps, size, SavedSize(3, most, st, ps));
    var r := msf.Commit();
    LimitsImply(st, ps, size);
    OutMeans(ps, size, st);
    m := null;
    if r.Committed? {
      LimitsAre(r.header, r.numMapPages, st);
      if Reopenable(r.header, r.numMapPages) {
        Bounds(msf);
        NowReady(msf, State(st, st));
        NextSave(State(st, st), maxStreams);
        m := msf;
      }
    }
  }

  lemma LimitsMono(st: seq<Stream>, ps: nat, numPages: nat, more: nat)
    requires 0 < ps && numPages <= more
    ensures WithinLimits(st, ps, more) ==> WithinLimits(st, ps, numPages)
  {
  }

  /** Without edits, the first commit is always within the limits: the file then has five pages. */
  lemma NewFileFits(ps: nat)
    requires IsPageSize(ps)
    ensures SavedSize(3, 0, NEW_STREAMS, ps) == 5 && WithinLimits(NEW_STREAMS, ps, 5)
  {
    hide CeilDiv;
    hide LivePages;
    hide Spread;
    NoLivePages(NEW_STREAMS, ps);
    CeilDivIs(24, ps, 1);
    CeilDivIs(4, ps, 1);
    SpreadAt(0, 1, 1, ps);
    assert DirLength(NEW_STREAMS, ps) == 6;
  }

  lemma {:induction false} NoLivePages(st: seq<Stream>, ps: nat)
    requires 0 < ps && forall i :: 0 <= i < |st| ==> st[i] == Nil || st[i] == Data([])
    ensures LivePages(st, ps) == 0
  {
    if st != [] {
      CeilDivBounds(0, ps);
      NoLivePages(st[..|st| - 1], ps);
    }
  }

  /**
   * Two streams of nearly 4 GB in a new file with pages of 1024 bytes: the commit succeeds and writes 129 map pages. An
   * opener reads 115 of them, and rejects the file.
   */
  method BigDirectoryIsUnreadable(file: BlockFile, x: seq<u8>, y: seq<u8>) returns (r: CommitResult)
    requires file.Valid() && |x| == |y| == 0xffff_fffe
    modifies file
    ensures r.Committed? && r.numMapPages == 129 && Decode(file.image) == None
  {
    hide *;
    BigEdits(x, y);
    NewStreamsAre();
    var m := Msf.CreateFor(file, 1024, 0xfffe);
    ReplaceSpoilsNothing(5, x, m.Streams(), m.maxStreams, m.pages.fpm, m.pages.pageSize);
    BigFileFits(m.pages.numPages, 0x40_0000);
    var ok := Perform(m, Replace(5, x));
    FileSizeMono(3, 3, m.InUse(), 0x40_0000, 1024);
    ReplaceSpoilsNothing(6, y, m.Streams(), m.maxStreams, m.pages.fpm, m.pages.pageSize);
    BigFileFits(m.pages.numPages, m.InUse() + 0x40_0000);
    ghost var np := m.pages.numPages;
    ok := Perform(m, Replace(6, y));
    FileSizeMono(np, np, m.InUse(), 0x80_0000, 1024);
    BigFileFits(np, 0x80_0000);
    DirectoryNeeds(m);
    BigMap(x, y);
    BigFileFits(m.pages.numPages, m.InUse() + m.DirPages() + m.MapPages());
    r := m.Commit();
    BigHeader(r.header);
  }

  lemma BigEdits(x: seq<u8>, y: seq<u8>)
    requires |x| == |y| == 0xffff_fffe
    ensures IsPageSize(1024) && 0xfffe < U32_LIMIT && Legal(Replace(5, x)) && Legal(Replace(6, y))
    ensures var st := Apply(NEW_STREAMS, 0xfffe, Replace(5, x));
            var st' := Apply(st, 0xfffe, Replace(6, y));
            && st' == NEW_STREAMS + [Data(x), Data(y)]
            && PagesWritten(Replace(5, x), st, 1024) == PagesWritten(Replace(6, y), st', 1024) == 0x40_0000
  {
  }

  lemma ReplaceSpoilsNothing(stream: nat, data: seq<u8>, st: seq<Stream>, maxStreams: nat, fpm: seq<bool>, ps: nat)
    requires 512 <= ps
    ensures !Spoils(Replace(stream, data), st, maxStreams, fpm, ps)
  {
  }

  lemma BigFileFits(numPages: nat, taken: nat)
    requires numPages < 0x400_0000 && taken <= 0x90_0000
    ensures FileSize(numPages, taken, 1024) < 0x400_0000
  {
  }

  lemma BigHeader(h: Header)
    requires h.numPages < 0x400_0000 && h.dirSize == 4 * 8388616
    ensures FitsU32(h)
  {
  }

  lemma BigMap(x: seq<u8>, y: seq<u8>)
    requires |x| == |y| == 0xffff_fffe
    ensures var st := NEW_STREAMS + [Data(x), Data(y)];
            DirLength(st, 1024) == 8388616 && DirPagesFor(st, 1024) == 32769 && MapPagesFor(st, 1024) == 129
    ensures MSF_HEADER_LEN + 4 * 129 <= 1024 && MAX_MAP_PAGES < 129
  {
    var st := NEW_STREAMS + [Data(x), Data(y)];
    NoLivePages(NEW_STREAMS, 1024);
    assert st[..6] == NEW_STREAMS + [Data(x)] && st[..6][..5] == NEW_STREAMS;
    assert PagesFor(Data(x), 1024) == 0x40_0000 == PagesFor(Data(y), 1024);
    assert LivePages(st[..6], 1024) == LivePages(st[..6][..5], 1024) + 0x40_0000;
  }

  lemma NewStreamsAre()
    ensures NEW_STREAMS == [Data([]), Nil, Nil, Nil, Nil]
  {
  }

  lemma NewFileStart(m: Msf, s0: State, maxStreams: nat, edits: seq<Op>)
    requires m.Valid() && m.pages.numPages == 3 && m.InUse() == 0 && m.maxStreams == maxStreams
    requires m.Streams() == NEW_STREAMS && s0 == State(NEW_STREAMS, [])
    ensures 2 < m.pages.pageSize && m.Streams() == After(s0, maxStreams, edits[..0]).current
    ensures BudgetAfter(Budget(0, 3), 0, s0, maxStreams, m.pages.pageSize, edits[..0]) == Budget(0, 3)
    ensures m.pages.numPages == FileSize(3, 0, m.pages.pageSize)
  {
  }

  lemma BudgetIs(maxStreams: nat, ps: nat, edits: seq<Op>)
    requires 2 < ps
    ensures NewFileBudget(maxStreams, ps, edits) == BudgetAfter(Budget(0, 3), 0, State(NEW_STREAMS, []), maxStreams, ps, edits)
  {
  }

  lemma BudgetEdit(b: Budget, floor: nat, s: State, maxStreams: nat, ps: nat, ops: seq<Op>, i: nat)
    requires 2 < ps && i < |ops| && !ops[i].Save?
    ensures BudgetAfter(b, floor, s, maxStreams, ps, ops[..i + 1]).inUse
         == BudgetAfter(b, floor, s, maxStreams, ps, ops[..i]).inUse
            + PagesWritten(ops[i], After(s, maxStreams, ops[..i + 1]).current, ps)
  {
    BudgetStep(b, floor, s, maxStreams, ps, ops, i);
    CurrentAfter(s, maxStreams, ops, i);
  }

  /** The size of the file follows from the most pages that were ever in use. */
  lemma FileSizeTwice(np: nat, m: nat, n: nat, ps: nat)
    requires 2 < ps && m <= n
    ensures FileSize(FileSize(np, m, ps), n, ps) == FileSize(np, n, ps)
  {
    SpreadMono(m, n, ps);
  }

  lemma SavedSizeTwice(np: nat, inUse: nat, st: seq<Stream>, ps: nat)
    requires 2 < ps
    ensures SavedSize(FileSize(np, inUse, ps), inUse, st, ps) == SavedSize(np, inUse, st, ps)
  {
    FileSizeTwice(np, inUse, inUse + DirPagesFor(st, ps) + MapPagesFor(st, ps), ps);
  }

  lemma NextSave(s: State, maxStreams: nat)
    ensures Next(s, maxStreams, Save) == State(s.current, s.current)
  {
  }
}
