/** The current streams of an open file: whose page is whose, and what committing makes of it (msf/src/lib.rs). */
module Tables {
  import opened Bytes
  import opened Arith
  import opened Paging
  import opened Pages
  import opened Read
  import opened Directory

  /** The contents of one stream. A nil stream is not an empty stream. */
  datatype Stream = Nil | Data(bytes: seq<u8>)

  function StreamAt(img: Image, ps: nat, size: nat, pages: seq<nat>): Stream {
    if size == NIL_STREAM_SIZE then Nil else Data(Contents(img, ps, size, pages))
  }

  /** All streams. Stream 0 is reserved and counts as empty. */
  function StreamsOf(img: Image, ps: nat, sizes: seq<nat>, view: seq<seq<nat>>): (r: seq<Stream>)
    requires |sizes| == |view|
    ensures |r| == |sizes|
  {
    seq(|sizes|, s requires 0 <= s < |sizes| => if s == 0 then Data([]) else StreamAt(img, ps, sizes[s], view[s]))
  }

  /** The number of pages of a stream. */
  function PagesFor(st: Stream, ps: nat): nat
    requires 0 < ps
  {
    if st.Nil? then 0 else CeilDiv(|st.bytes|, ps)
  }

  /** The number of pages of stream number `stream`, which may not exist. */
  function PagesAt(st: seq<Stream>, stream: nat, ps: nat): nat
    requires 0 < ps
  {
    if stream < |st| then PagesFor(st[stream], ps) else 0
  }

  // ---------------------------------------------------------------- reading a committed file

  function SnapshotView(t: StreamTable): (r: seq<seq<nat>>)
    requires t.Valid()
    ensures |r| == |t.sizes|
  {
    seq(|t.sizes|, s requires 0 <= s < |t.sizes| => t.Pages(s))
  }

  function SnapshotStreams(img: Image, s: Snapshot): seq<Stream>
    requires s.table.Valid()
  {
    StreamsOf(img, s.header.pageSize, s.table.sizes, SnapshotView(s.table))
  }

  /** Everything that can be read back from a file: `None` if it does not open or if a stream page is missing. */
  ghost function ReadAll(img: Image): Option<seq<Stream>> {
    var d := Decode(img);
    if d.Some? && HasPages(img, d.value.header.pageSize, d.value.table.LivePages())
    then Some(SnapshotStreams(img, d.value)) else None
  }

  lemma LivePage(t: StreamTable, s: nat, i: nat)
    requires t.Valid() && 1 <= s < |t.sizes| && i < |t.Pages(s)|
    ensures t.Pages(s)[i] in t.LivePages()
  {
    assert t.LivePages()[t.starts[s] - t.starts[1] + i] == t.Pages(s)[i];
  }

  /** Reading a committed file does not depend on any page outside its footprint. */
  lemma ReadAllFrame(a: Image, b: Image, s: Snapshot)
    requires Decode(a) == Some(s) && SameOn(a, b, Footprint(s))
    ensures ReadAll(b) == ReadAll(a)
  {
    DecodeFrame(a, b);
    LiveFrame(a, b, s);
    StreamsFrame(a, b, s);
  }

  lemma LiveKept(s: Snapshot)
    requires 0 < s.header.pageSize && s.table.Valid()
    ensures forall i :: 0 <= i < |s.table.LivePages()| ==> s.table.LivePages()[i] in Footprint(s)
  {
    var live := s.table.LivePages();
    forall i | 0 <= i < |live| ensures live[i] in Footprint(s) {
      assert UsedPages(s)[|s.mapPages| + |s.dirPages| + i] == live[i];
      assert InFootprint(s, live[i]);
    }
  }

  lemma LiveFrame(a: Image, b: Image, s: Snapshot)
    requires 0 < s.header.pageSize && s.table.Valid() && SameOn(a, b, Footprint(s))
    ensures HasPages(a, s.header.pageSize, s.table.LivePages()) == HasPages(b, s.header.pageSize, s.table.LivePages())
  {
    LiveKept(s);
    SameFlat(a, b, Footprint(s), s.header.pageSize, s.table.LivePages());
    SameFlatBack(a, b, Footprint(s), s.header.pageSize, s.table.LivePages());
  }

  lemma StreamsFrame(a: Image, b: Image, s: Snapshot)
    requires 0 < s.header.pageSize && s.table.Valid() && SameOn(a, b, Footprint(s))
    ensures SnapshotStreams(a, s) == SnapshotStreams(b, s)
  {
    LiveKept(s);
    forall k | 1 <= k < |s.table.sizes|
      ensures Flat(a, s.header.pageSize, s.table.Pages(k)) == Flat(b, s.header.pageSize, s.table.Pages(k))
    {
      forall i | 0 <= i < |s.table.Pages(k)| ensures s.table.Pages(k)[i] in Footprint(s) {
        LivePage(s.table, k, i);
      }
      SameFlat(a, b, Footprint(s), s.header.pageSize, s.table.Pages(k));
    }
  }

  lemma SameFlatBack(a: Image, b: Image, keep: iset<nat>, ps: nat, pages: seq<nat>)
    requires SameOn(a, b, keep)
    requires forall i :: 0 <= i < |pages| ==> pages[i] in keep
    ensures HasPages(b, ps, pages) ==> HasPages(a, ps, pages)
  {
  }

  // ---------------------------------------------------------------- the current state

  /** The stream tables of an open file: sizes, the page lists of modified streams, and the committed page lists. */
  datatype Tables = Tables(sizes: seq<nat>, modified: map<nat, seq<nat>>, starts: seq<nat>, committed: seq<nat>) {

    /** The page list of one stream as it is now. Stream 0 never has pages. */
    function PagesOf(s: nat): seq<nat> {
      if s == 0 then [] else
      if s in modified then modified[s] else
      if s + 1 < |starts| && starts[s] <= starts[s + 1] <= |committed| then committed[starts[s]..starts[s + 1]] else []
    }

    function View(): (r: seq<seq<nat>>)
      ensures |r| == |sizes|
      ensures forall s :: 0 <= s < |sizes| ==> r[s] == PagesOf(s)
    {
      seq(|sizes|, s requires 0 <= s < |sizes| => PagesOf(s))
    }

    ghost predicate Valid(ps: nat)
      requires 0 < ps
    {
      && 1 <= |sizes| < U32_LIMIT && sizes[0] == 0 && 2 <= |starts| && starts[0] == 0
      && (forall s :: 0 <= s < |sizes| ==> sizes[s] <= NIL_STREAM_SIZE)
      && (forall s :: s in modified ==> 1 <= s < |sizes|)
      && (forall s :: 1 <= s < |sizes| && s !in modified ==> s + 1 < |starts| && starts[s] <= starts[s + 1] <= |committed|)
      && (forall s :: 1 <= s < |sizes| ==> SizeFits(sizes[s], PagesOf(s), ps))
    }

    /** One stream gets a new size and page list. */
    function Put(s: nat, size: nat, pages: seq<nat>): Tables
      requires s < |sizes|
    {
      Tables(sizes[s := size], modified[s := pages], starts, committed)
    }

    function Append(size: nat): Tables {
      Tables(sizes + [size], modified[|sizes| := []], starts, committed)
    }
  }

  // ---------------------------------------------------------------- page ownership

  /**
   * Every page is exactly one of: special, free, freed, or owned by exactly one position of exactly one stream.
   * `owner` names the stream that owns a busy page.
   */
  ghost predicate Ownership(a: PageState, ps: nat, view: seq<seq<nat>>, owner: map<nat, nat>)
    requires 0 < ps
  {
    && WellFormed(a, ps)
    && (forall s :: 1 <= s < |view| ==> NoDup(view[s]))
    && (forall s, i :: 1 <= s < |view| && 0 <= i < |view[s]| ==> view[s][i] in owner && owner[view[s][i]] == s)
    && (forall p :: p in owner ==> Busy(a, ps, p) && 1 <= owner[p] < |view| && p in view[owner[p]])
    && (forall p :: Busy(a, ps, p) ==> p in owner)
  }

  /** The pages of all streams but one. */
  ghost function Others(owner: map<nat, nat>, s: nat): set<nat> {
    set p | p in owner && owner[p] != s
  }

  lemma OwnershipToPartition(a: PageState, ps: nat, view: seq<seq<nat>>, owner: map<nat, nat>, s: nat)
    requires 0 < ps && Ownership(a, ps, view, owner) && 1 <= s < |view|
    ensures Partition(a, ps, view[s], Others(owner, s))
  {
    forall i | 0 <= i < |view[s]| ensures Busy(a, ps, view[s][i]) && view[s][i] !in Others(owner, s) {
      assert view[s][i] in owner;
    }
    forall p: nat | Busy(a, ps, p) ensures p in Others(owner, s) || p in view[s] {
      assert p in owner;
    }
  }

  ghost function Reown(owner: map<nat, nat>, s: nat, pages: seq<nat>): map<nat, nat> {
    map p | p in Others(owner, s) + (set i | 0 <= i < |pages| :: pages[i]) :: if p in Others(owner, s) then owner[p] else s
  }

  lemma PartitionToOwnership(a0: PageState, a: PageState, ps: nat, view: seq<seq<nat>>, owner: map<nat, nat>, s: nat, pages: seq<nat>)
    requires 0 < ps && Ownership(a0, ps, view, owner) && 1 <= s < |view|
    requires Partition(a, ps, pages, Others(owner, s))
    ensures Ownership(a, ps, view[s := pages], Reown(owner, s, pages))
  {
    var owner', view' := Reown(owner, s, pages), view[s := pages];
    forall t, i | 1 <= t < |view'| && 0 <= i < |view'[t]| ensures view'[t][i] in owner' && owner'[view'[t][i]] == t {
      if t == s {
        assert pages[i] !in Others(owner, s);
      } else {
        assert view[t][i] in Others(owner, s);
      }
    }
    forall p | p in owner' ensures Busy(a, ps, p) && 1 <= owner'[p] < |view'| && p in view'[owner'[p]] {
      if p in Others(owner, s) {
        assert p in view[owner[p]];
      } else {
        var i :| 0 <= i < |pages| && pages[i] == p;
      }
    }
    forall p: nat | Busy(a, ps, p) ensures p in owner' {
      if p !in Others(owner, s) {
        var i :| 0 <= i < |pages| && pages[i] == p;
      }
    }
  }

  /** Adding a stream without pages changes nothing about the pages. */
  lemma OwnershipAppend(a: PageState, ps: nat, view: seq<seq<nat>>, owner: map<nat, nat>)
    requires 0 < ps && 1 <= |view| && Ownership(a, ps, view, owner)
    ensures Ownership(a, ps, view + [[]], owner)
  {
    var view' := view + [[]];
    forall p | p in owner ensures p in view'[owner[p]] {
      assert p in view[owner[p]];
    }
  }

  // ---------------------------------------------------------------- the partition, spelled out

  /** How many of the four states a page is in. */
  ghost function StatesOf(a: PageState, ps: nat, view: seq<seq<nat>>, p: nat): nat
    requires 0 < ps && p < |a.fpm| && p < |a.freed|
  {
    (if IsSpecial(ps, p) then 1 else 0) + (if a.fpm[p] then 1 else 0) + (if a.freed[p] then 1 else 0)
    + (if exists s :: 1 <= s < |view| && p in view[s] then 1 else 0)
  }

  lemma BusyIsOwned(a: PageState, ps: nat, view: seq<seq<nat>>, owner: map<nat, nat>, p: nat)
    requires 0 < ps && Ownership(a, ps, view, owner) && Busy(a, ps, p)
    ensures exists s :: 1 <= s < |view| && p in view[s]
  {
    assert p in owner && p in view[owner[p]];
  }

  /** No page is lost and none is used twice. */
  lemma EveryPageOnce(a: PageState, ps: nat, view: seq<seq<nat>>, owner: map<nat, nat>)
    requires 0 < ps && Ownership(a, ps, view, owner)
    ensures forall p :: 0 <= p < |a.fpm| ==> StatesOf(a, ps, view, p) == 1
    ensures forall s, i :: 1 <= s < |view| && 0 <= i < |view[s]| ==> view[s][i] < |a.fpm|
    ensures forall s, i, t, j | 1 <= s < |view| && 0 <= i < |view[s]| && 1 <= t < |view| && 0 <= j < |view[t]| ::
              view[s][i] == view[t][j] ==> s == t && i == j
  {
    forall p | 0 <= p < |a.fpm| ensures StatesOf(a, ps, view, p) == 1 {
      if s :| 1 <= s < |view| && p in view[s] {
        var i :| 0 <= i < |view[s]| && view[s][i] == p;
        assert p in owner && Busy(a, ps, p);
      } else {
        assert !Busy(a, ps, p) by {
          if Busy(a, ps, p) {
            BusyIsOwned(a, ps, view, owner, p);
          }
        }
      }
    }
    forall s, i, t, j | 1 <= s < |view| && 0 <= i < |view[s]| && 1 <= t < |view| && 0 <= j < |view[t]| && view[s][i] == view[t][j]
      ensures s == t && i == j
    {
      assert owner[view[s][i]] == s && owner[view[t][j]] == t;
    }
  }

  ghost predicate AllPresent(img: Image, ps: nat, view: seq<seq<nat>>) {
    forall s :: 1 <= s < |view| ==> HasPages(img, ps, view[s])
  }

  // ---------------------------------------------------------------- one stream changes

  lemma PutValid(t: Tables, ps: nat, s: nat, size: nat, pages: seq<nat>)
    requires 0 < ps && t.Valid(ps) && 1 <= s < |t.sizes| && size <= NIL_STREAM_SIZE
    ensures t.Put(s, size, pages).Valid(ps) <==> SizeFits(size, pages, ps)
    ensures t.Put(s, size, pages).View() == t.View()[s := pages]
  {
    var t' := t.Put(s, size, pages);
    assert t'.sizes[s] == size && t'.PagesOf(s) == pages;
    forall k | 1 <= k < |t'.sizes| && k != s ensures t'.PagesOf(k) == t.PagesOf(k) {
    }
  }

  lemma AppendValid(t: Tables, ps: nat, size: nat)
    requires 0 < ps && t.Valid(ps) && (size == 0 || size == NIL_STREAM_SIZE) && |t.sizes| + 1 < U32_LIMIT
    ensures t.Append(size).Valid(ps)
    ensures t.Append(size).View() == t.View() + [[]]
  {
    var t', n := t.Append(size), |t.sizes|;
    CeilDivBounds(0, ps);
    forall k | 0 <= k < n ensures t'.PagesOf(k) == t.PagesOf(k) {
      AppendPages(t, size, k);
    }
    hide Tables.PagesOf;
  }

  lemma AppendPages(t: Tables, size: nat, k: nat)
    requires k < |t.sizes|
    ensures t.Append(size).PagesOf(k) == t.PagesOf(k)
  {
  }

  /** Promoting a nil stream to an empty one and listing it as modified leaves every page list as it is. */
  lemma PromoteValid(t: Tables, ps: nat, s: nat)
    requires 0 < ps && t.Valid(ps) && 1 <= s < |t.sizes|
    ensures var size := if t.sizes[s] == NIL_STREAM_SIZE then 0 else t.sizes[s];
            && t.Put(s, size, t.PagesOf(s)).Valid(ps)
            && t.Put(s, size, t.PagesOf(s)).View() == t.View()
  {
    var size := if t.sizes[s] == NIL_STREAM_SIZE then 0 else t.sizes[s];
    CeilDivBounds(0, ps);
    PutValid(t, ps, s, size, t.PagesOf(s));
    assert t.View()[s] == t.PagesOf(s);
  }

  lemma PromoteStreams(img: Image, ps: nat, sizes: seq<nat>, view: seq<seq<nat>>, s: nat)
    requires |sizes| == |view| && 1 <= s < |sizes|
    ensures var size := if sizes[s] == NIL_STREAM_SIZE then 0 else sizes[s];
            StreamsOf(img, ps, sizes[s := size], view)
            == if sizes[s] == NIL_STREAM_SIZE then StreamsOf(img, ps, sizes, view)[s := Data([])] else StreamsOf(img, ps, sizes, view)
  {
  }

  lemma AppendStreams(img: Image, ps: nat, sizes: seq<nat>, view: seq<seq<nat>>, size: nat)
    requires 1 <= |sizes| == |view| && (size == 0 || size == NIL_STREAM_SIZE)
    ensures StreamsOf(img, ps, sizes + [size], view + [[]])
         == StreamsOf(img, ps, sizes, view) + [if size == 0 then Data([]) else Nil]
  {
  }

  /** Only the written stream changes: nothing that belongs to another stream was touched. */
  lemma PutStreams(img0: Image, img: Image, ps: nat, sizes: seq<nat>, view: seq<seq<nat>>, owner: map<nat, nat>,
                   s: nat, size: nat, pages: seq<nat>, keep: iset<nat>)
    requires |sizes| == |view| && 1 <= s < |view|
    requires forall k, i :: 1 <= k < |view| && 0 <= i < |view[k]| ==> view[k][i] in owner && owner[view[k][i]] == k
    requires SameOn(img0, img, keep) && forall p :: p in Others(owner, s) ==> p in keep
    requires AllPresent(img0, ps, view) && HasPages(img, ps, pages)
    ensures AllPresent(img, ps, view[s := pages])
    ensures StreamsOf(img, ps, sizes[s := size], view[s := pages])
         == StreamsOf(img0, ps, sizes, view)[s := StreamAt(img, ps, size, pages)]
  {
    forall k | 1 <= k < |view| && k != s
      ensures HasPages(img, ps, view[k]) && Flat(img, ps, view[k]) == Flat(img0, ps, view[k])
    {
      forall i | 0 <= i < |view[k]| ensures view[k][i] in keep {
        assert view[k][i] in Others(owner, s);
      }
      SameFlat(img0, img, keep, ps, view[k]);
    }
  }

  // ---------------------------------------------------------------- a freshly opened file

  /** The stream that holds entry `k` of the page list, searching from stream `s` on. */
  ghost function StreamAtIndex(t: StreamTable, k: nat, s: nat): (r: nat)
    requires t.Valid() && 1 <= s < |t.sizes| && t.starts[s] <= k < |t.pages|
    ensures s <= r < |t.sizes| && t.starts[r] <= k < t.starts[r + 1]
    decreases |t.sizes| - s
  {
    if k < t.starts[s + 1] then s else StreamAtIndex(t, k, s + 1)
  }

  lemma StreamAtIndexUnique(t: StreamTable, k: nat, r: nat, q: nat)
    requires t.Valid() && r < |t.sizes| && q < |t.sizes|
    requires t.starts[r] <= k < t.starts[r + 1] && t.starts[q] <= k < t.starts[q + 1]
    ensures r == q
  {
  }

  ghost function PageOwner(t: StreamTable, p: nat): (r: nat)
    requires t.Valid() && p in t.LivePages()
    ensures 1 <= r < |t.sizes| && p in t.Pages(r)
  {
    var i :| 0 <= i < |t.LivePages()| && t.LivePages()[i] == p;
    LiveStream(t);
    var r := StreamAtIndex(t, t.starts[1] + i, 1);
    assert t.Pages(r)[t.starts[1] + i - t.starts[r]] == p;
    r
  }

  /** If any stream but stream 0 has a page, there is a stream 1. */
  lemma LiveStream(t: StreamTable)
    requires t.Valid() && t.LivePages() != []
    ensures 1 < |t.sizes|
  {
  }

  ghost function TableOwner(t: StreamTable): map<nat, nat>
    requires t.Valid()
  {
    map p | p in t.LivePages() :: PageOwner(t, p)
  }

  lemma PageOwnerIs(t: StreamTable, s: nat, i: nat)
    requires t.Valid() && NoDup(t.LivePages()) && 1 <= s < |t.sizes| && i < |t.Pages(s)|
    ensures t.Pages(s)[i] in t.LivePages() && PageOwner(t, t.Pages(s)[i]) == s
  {
    var p := t.Pages(s)[i];
    LivePage(t, s, i);
    var r := PageOwner(t, p);
    var j :| 0 <= j < |t.Pages(r)| && t.Pages(r)[j] == p;
    var a, b := t.starts[s] - t.starts[1] + i, t.starts[r] - t.starts[1] + j;
    assert t.LivePages()[a] == p && t.LivePages()[b] == p;
    assert a == b;
    StreamAtIndexUnique(t, t.starts[s] + i, s, r);
  }

  lemma PagesNoDup(t: StreamTable, s: nat)
    requires t.Valid() && NoDup(t.LivePages()) && 1 <= s < |t.sizes|
    ensures NoDup(t.Pages(s))
  {
    var l, q := t.LivePages(), t.Pages(s);
    forall i, j | 0 <= i < j < |q| ensures q[i] != q[j] {
      assert q[i] == l[t.starts[s] - t.starts[1] + i] && q[j] == l[t.starts[s] - t.starts[1] + j];
    }
  }

  /**
   * The allocator's state while a file is opened, and afterwards: the pages found to be in use are not free, and those
   * of the directory are freed.
   */
  ghost predicate OpenedState(a: PageState, ps: nat, np: nat, used: seq<nat>, dir: seq<nat>)
    requires 0 < ps
  {
    && a.fpm == ComputedFpm(ps, np, used)
    && |a.freed| == np && (forall p :: 0 <= p < np ==> a.freed[p] == (p in dir))
    && |a.freshPages| == np && (forall p :: 0 <= p < np ==> !a.freshPages[p])
  }

  /** Right after opening, or after a commit, the page states and the directory partition the file. */
  lemma TableOwnership(a: PageState, ps: nat, np: nat, s: Snapshot, view: seq<seq<nat>>)
    requires 512 <= ps == s.header.pageSize && 0 < np && s.table.Valid()
    requires s.header.activeFpm == 1 || s.header.activeFpm == 2
    requires PagesAcceptable(ps, np, UsedPages(s)) && OpenedState(a, ps, np, UsedPages(s), s.mapPages + s.dirPages)
    requires |view| == |s.table.sizes| && forall k :: 1 <= k < |view| ==> view[k] == s.table.Pages(k)
    ensures Ownership(a, ps, view, TableOwner(s.table))
    ensures Guarded(a, ps, Footprint(s))
  {
    var t, dir, live, used := s.table, s.mapPages + s.dirPages, s.table.LivePages(), UsedPages(s);
    assert used == dir + live;
    UsedDisjoint(ps, np, dir, live);
    forall k | 1 <= k < |view| ensures NoDup(view[k]) {
      PagesNoDup(t, k);
    }
    forall k, i | 1 <= k < |view| && 0 <= i < |view[k]| ensures view[k][i] in TableOwner(t) && TableOwner(t)[view[k][i]] == k {
      PageOwnerIs(t, k, i);
    }
    OpenedWellFormed(a, ps, np, used, dir);
    forall p | p in live ensures Busy(a, ps, p) {
      assert p in used && p !in dir;
    }
  }

  lemma OpenedWellFormed(a: PageState, ps: nat, np: nat, used: seq<nat>, dir: seq<nat>)
    requires 0 < ps && 0 < np && PagesAcceptable(ps, np, used) && OpenedState(a, ps, np, used, dir)
    requires forall p :: p in dir ==> p in used
    ensures WellFormed(a, ps)
  {
  }

  lemma UsedDisjoint(ps: nat, np: nat, dir: seq<nat>, live: seq<nat>)
    requires 0 < ps && PagesAcceptable(ps, np, dir + live)
    ensures NoDup(live) && forall p :: p in dir ==> p in dir + live && p !in live
  {
    var used := dir + live;
    forall i, j | 0 <= i < j < |live| ensures live[i] != live[j] {
      assert used[|dir| + i] == live[i] && used[|dir| + j] == live[j];
    }
    forall p | p in dir ensures p !in live {
      var i :| 0 <= i < |dir| && dir[i] == p;
      forall j | 0 <= j < |live| ensures live[j] != p {
        assert used[i] == p && used[|dir| + j] == live[j];
      }
    }
  }

  /** The directory of an opened file is consistent with its sizes. */
  lemma ParsedTables(words: seq<nat>, ps: nat)
    requires 512 <= ps && AllU32(words) && ParseDir(words, ps).Some?
    ensures var t := ParseDir(words, ps).value;
            Tables(t.sizes, map[], t.starts, t.pages).Valid(ps)
  {
    var t := ParseDir(words, ps).value;
    var n := words[0];
    var raw := words[1..1 + n];
    assert t.sizes == raw[0 := 0] && t.starts == PageStarts(raw, ps);
    var tabs := Tables(t.sizes, map[], t.starts, t.pages);
    forall s | 0 <= s < |t.sizes| ensures t.sizes[s] <= NIL_STREAM_SIZE {
      assert raw[s] == words[1 + s];
    }
    forall s | 1 <= s < |t.sizes| ensures SizeFits(t.sizes[s], tabs.PagesOf(s), ps) {
      assert t.starts[s + 1] == t.starts[s] + NumPagesForStreamSize(raw[s], ps);
      assert t.starts[s + 1] <= t.starts[n];
    }
  }
}
