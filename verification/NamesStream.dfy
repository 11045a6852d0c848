/** Rebuilding the Names Stream: the same strings under new indexes (pdb/src/names.rs). */
module NamesStream {
  import opened Bytes
  import opened Names
  import opened NamesHash

  const NAMES_STREAM_SIGNATURE: nat := 0xEFFE_EFFE
  const NAMES_STREAM_VERSION_V1: nat := 1
  const NAMES_STREAM_HEADER_LEN: nat := 12

  datatype NamesStream = NamesStream(strings: seq<u8>, hashes: seq<nat>, numStrings: nat)

  // ---------------------------------------------------------------- the stream as bytes

  function Parse(b: seq<u8>): Option<NamesStream> {
    if |b| < NAMES_STREAM_HEADER_LEN then None else
    if U32At(b, 0) != NAMES_STREAM_SIGNATURE || U32At(b, 4) != NAMES_STREAM_VERSION_V1 then None else
    var size := U32At(b, 8);
    if |b| < NAMES_STREAM_HEADER_LEN + size + 4 then None else
    var at := NAMES_STREAM_HEADER_LEN + size + 4;
    var numHashes := U32At(b, at - 4);
    if |b| < at + 4 * numHashes + 4 then None else
    Some(NamesStream(b[NAMES_STREAM_HEADER_LEN..NAMES_STREAM_HEADER_LEN + size],
                     DecodeWords(b[at..at + 4 * numHashes]), U32At(b, at + 4 * numHashes)))
  }

  function Encode(s: NamesStream): seq<u8> {
    EncodeWords([NAMES_STREAM_SIGNATURE, NAMES_STREAM_VERSION_V1, |s.strings|])
    + (s.strings + (EncodeWords([|s.hashes|]) + (EncodeWords(s.hashes) + EncodeWords([s.numStrings]))))
  }

  predicate Fits(s: NamesStream) {
    |s.strings| < U32_LIMIT && |s.hashes| < U32_LIMIT && AllU32(s.hashes) && s.numStrings < U32_LIMIT
  }

  lemma WordBetween(pre: seq<u8>, ws: seq<nat>, post: seq<u8>, i: nat)
    requires i < |ws|
    ensures U32At(pre + (EncodeWords(ws) + post), |pre| + 4 * i) == ws[i] % U32_LIMIT
  {
    WordAt(ws, pre, post, i);
    ConcatAssoc(pre, EncodeWords(ws), post);
  }

  lemma WordsBetween(b: seq<u8>, at: nat, ws: seq<nat>)
    requires AllU32(ws) && at + 4 * |ws| <= |b| && b[at..at + 4 * |ws|] == EncodeWords(ws)
    ensures DecodeWords(b[at..at + 4 * |ws|]) == ws
  {
    WordsRoundTripExact(ws);
  }

  lemma Between(a: seq<u8>, b: seq<u8>, c: seq<u8>)
    ensures (a + (b + c))[|a|..|a| + |b|] == b
  {
  }

  /** The stream as it is stored: where every part is, and each number byte by byte. */
  lemma StreamLayout(s: NamesStream)
    ensures var b, n, m := Encode(s), |s.strings|, |s.hashes|;
            && |b| == 20 + n + 4 * m
            && StoredAt(b, 0, 0xEFFE_EFFE) && StoredAt(b, 4, 1) && StoredAt(b, 8, n) && b[12..12 + n] == s.strings
            && StoredAt(b, 12 + n, m) && StoredAt(b, 16 + n + 4 * m, s.numStrings)
            && forall i :: 0 <= i < m ==> StoredAt(b, 16 + n + 4 * i, s.hashes[i])
  {
    EncodeIs(s);
    hide *;
    var b, n, m := Encode(s), |s.strings|, |s.hashes|;
    var head := [0xEFFE_EFFE, 1, n];
    FiveFields(b, EncodeWords(head), s.strings, EncodeWords([m]), EncodeWords(s.hashes), EncodeWords([s.numStrings]));
    WordsHere(b, 0, head, 0);
    WordsHere(b, 0, head, 1);
    WordsHere(b, 0, head, 2);
    WordsHere(b, 12 + n, [m], 0);
    WordsHere(b, 16 + n + 4 * m, [s.numStrings], 0);
    forall i | 0 <= i < m ensures StoredAt(b, 16 + n + 4 * i, s.hashes[i]) {
      WordsHere(b, 16 + n, s.hashes, i);
    }
  }

  lemma EncodeIs(s: NamesStream)
    ensures Encode(s) == EncodeWords([0xEFFE_EFFE, 1, |s.strings|])
                         + (s.strings + (EncodeWords([|s.hashes|]) + (EncodeWords(s.hashes) + EncodeWords([s.numStrings]))))
  {
    hide EncodeWords;
  }

  lemma FiveFields(b: seq<u8>, head: seq<u8>, strings: seq<u8>, count: seq<u8>, hashes: seq<u8>, last: seq<u8>)
    requires b == head + (strings + (count + (hashes + last))) && |head| == 12 && |count| == |last| == 4
    ensures var n, m := |strings|, |hashes|;
            && |b| == 20 + n + m && b[..12] == head && b[12..12 + n] == strings && b[12 + n..16 + n] == count
            && b[16 + n..16 + n + m] == hashes && b[16 + n + m..20 + n + m] == last
  {
    hide *;
    var n, m := |strings|, |hashes|;
    assert b == b[0..] && last + [] == last;
    NextField(b, 0, head, strings + (count + (hashes + last)));
    NextField(b, 12, strings, count + (hashes + last));
    NextField(b, 12 + n, count, hashes + last);
    NextField(b, 16 + n, hashes, last);
    NextField(b, 16 + n + m, last, []);
  }

  /** The stream with its parts where the numbers in it say. */
  ghost predicate StreamStored(b: seq<u8>, s: NamesStream) {
    var n, m := |s.strings|, |s.hashes|;
    && 20 + n + 4 * m <= |b| && Fits(s)
    && StoredAt(b, 0, 0xEFFE_EFFE) && StoredAt(b, 4, 1) && StoredAt(b, 8, n) && b[12..12 + n] == s.strings
    && StoredAt(b, 12 + n, m) && WordsOf(b[16 + n..16 + n + 4 * m], s.hashes) && StoredAt(b, 16 + n + 4 * m, s.numStrings)
  }

  /** The stream is read exactly if it is there; what follows it does not matter. */
  lemma ParseIff(b: seq<u8>, s: NamesStream)
    ensures Parse(b) == Some(s) <==> StreamStored(b, s)
  {
    hide *;
    if Parse(b) == Some(s) {
      ParsedStored(b, s);
    }
    if StreamStored(b, s) {
      StoredParsed(b, s);
    }
  }

  lemma ParsedStored(b: seq<u8>, s: NamesStream)
    requires Parse(b) == Some(s)
    ensures StreamStored(b, s)
  {
    hide U32At;
    hide StoredAt;
    hide WordsOf;
    hide DecodeWords;
    var n, m := |s.strings|, |s.hashes|;
    WordOfBytes(b, 0);
    WordOfBytes(b, 4);
    WordOfBytes(b, 8);
    WordOfBytes(b, 12 + n);
    WordOfBytes(b, 16 + n + 4 * m);
    WordsIff(b[16 + n..16 + n + 4 * m], s.hashes);
    WordsSmall(b[16 + n..16 + n + 4 * m], s.hashes);
  }

  lemma WordsSmall(b: seq<u8>, ws: seq<nat>)
    requires WordsOf(b, ws)
    ensures AllU32(ws)
  {
  }

  lemma StoredParsed(b: seq<u8>, s: NamesStream)
    requires StreamStored(b, s)
    ensures Parse(b) == Some(s)
  {
    hide U32At;
    hide StoredAt;
    hide WordsOf;
    hide DecodeWords;
    var n, m := |s.strings|, |s.hashes|;
    BytesOfWord(b, 0, 0xEFFE_EFFE);
    BytesOfWord(b, 4, 1);
    BytesOfWord(b, 8, n);
    BytesOfWord(b, 12 + n, m);
    BytesOfWord(b, 16 + n + 4 * m, s.numStrings);
    WordsIff(b[16 + n..16 + n + 4 * m], s.hashes);
  }

  /** What is written is read back. */
  lemma ParseEncode(s: NamesStream)
    requires Fits(s)
    ensures Parse(Encode(s)) == Some(s)
  {
    hide *;
    HeaderBytes(s);
    HashBytes(s);
    TrailerBytes(s);
    ParseIs(Encode(s), s);
  }

  lemma HeaderBytes(s: NamesStream)
    requires Fits(s)
    ensures var b := Encode(s);
            && |b| == NAMES_STREAM_HEADER_LEN + |s.strings| + 4 + 4 * |s.hashes| + 4
            && U32At(b, 0) == NAMES_STREAM_SIGNATURE && U32At(b, 4) == NAMES_STREAM_VERSION_V1 && U32At(b, 8) == |s.strings|
            && b[NAMES_STREAM_HEADER_LEN..NAMES_STREAM_HEADER_LEN + |s.strings|] == s.strings
  {
    hide EncodeWords;
    hide U32At;
    Splits(s);
    var head := [NAMES_STREAM_SIGNATURE, NAMES_STREAM_VERSION_V1, |s.strings|];
    var rest := EncodeWords([|s.hashes|]) + (EncodeWords(s.hashes) + EncodeWords([s.numStrings]));
    WordBetween([], head, s.strings + rest, 0);
    WordBetween([], head, s.strings + rest, 1);
    WordBetween([], head, s.strings + rest, 2);
    Between(EncodeWords(head), s.strings, rest);
  }

  lemma HashBytes(s: NamesStream)
    requires Fits(s)
    ensures var b, at := Encode(s), NAMES_STREAM_HEADER_LEN + |s.strings|;
            && at + 4 + 4 * |s.hashes| <= |b| && U32At(b, at) == |s.hashes|
            && DecodeWords(b[at + 4..at + 4 + 4 * |s.hashes|]) == s.hashes
  {
    hide EncodeWords;
    hide U32At;
    hide DecodeWords;
    Splits(s);
    var tail := EncodeWords(s.hashes) + EncodeWords([s.numStrings]);
    var p1 := EncodeWords([NAMES_STREAM_SIGNATURE, NAMES_STREAM_VERSION_V1, |s.strings|]) + s.strings;
    var p2 := p1 + EncodeWords([|s.hashes|]);
    WordBetween(p1, [|s.hashes|], tail, 0);
    Between(p2, EncodeWords(s.hashes), EncodeWords([s.numStrings]));
    WordsBetween(Encode(s), |p2|, s.hashes);
  }

  lemma TrailerBytes(s: NamesStream)
    requires Fits(s)
    ensures var b, at := Encode(s), NAMES_STREAM_HEADER_LEN + |s.strings| + 4 + 4 * |s.hashes|;
            at + 4 <= |b| && U32At(b, at) == s.numStrings
  {
    hide EncodeWords;
    hide U32At;
    Splits(s);
    var p1 := EncodeWords([NAMES_STREAM_SIGNATURE, NAMES_STREAM_VERSION_V1, |s.strings|]) + s.strings;
    var p3 := p1 + EncodeWords([|s.hashes|]) + EncodeWords(s.hashes);
    WordBetween(p3, [s.numStrings], [], 0);
  }

  /** The same bytes, split at different places. */
  lemma Splits(s: NamesStream)
    ensures var b := Encode(s);
            var head := [NAMES_STREAM_SIGNATURE, NAMES_STREAM_VERSION_V1, |s.strings|];
            var tail := EncodeWords(s.hashes) + EncodeWords([s.numStrings]);
            var p1 := EncodeWords(head) + s.strings;
            var p2 := p1 + EncodeWords([|s.hashes|]);
            && b == [] + (EncodeWords(head) + (s.strings + (EncodeWords([|s.hashes|]) + tail)))
            && b == EncodeWords(head) + (s.strings + (EncodeWords([|s.hashes|]) + tail))
            && b == p1 + (EncodeWords([|s.hashes|]) + tail)
            && b == p2 + tail
            && b == (p2 + EncodeWords(s.hashes)) + (EncodeWords([s.numStrings]) + [])
  {
    hide EncodeWords;
  }

  lemma ParseIs(b: seq<u8>, s: NamesStream)
    requires |b| == NAMES_STREAM_HEADER_LEN + |s.strings| + 4 + 4 * |s.hashes| + 4
    requires U32At(b, 0) == NAMES_STREAM_SIGNATURE && U32At(b, 4) == NAMES_STREAM_VERSION_V1 && U32At(b, 8) == |s.strings|
    requires b[NAMES_STREAM_HEADER_LEN..NAMES_STREAM_HEADER_LEN + |s.strings|] == s.strings
    requires U32At(b, NAMES_STREAM_HEADER_LEN + |s.strings|) == |s.hashes|
    requires var at := NAMES_STREAM_HEADER_LEN + |s.strings| + 4;
             DecodeWords(b[at..at + 4 * |s.hashes|]) == s.hashes && U32At(b, at + 4 * |s.hashes|) == s.numStrings
    ensures Parse(b) == Some(s)
  {
    hide U32At;
    hide DecodeWords;
  }

  /** The stream that a sorted list of names is rebuilt to. */
  function Rebuilt(ns: seq<Name>, hash: HashFn): NamesStream {
    NamesStream(Padded(ns), TableFor(ns, hash, NumHashes(|ns|)), |ns|)
  }

  lemma {:induction false} NewIndexAtLeast(ns: seq<Name>, k: nat)
    requires AllNames(ns) && k <= |ns|
    ensures 1 + 2 * k <= NewIndex(ns, k)
  {
    if 0 < k {
      NewIndexAtLeast(ns, k - 1);
      NewIndexStep(ns, k - 1);
    }
  }

  /** As long as the string data fits into 32 bits, everything does. */
  lemma RebuiltFits(ns: seq<Name>, hash: HashFn)
    requires AllNames(ns) && |Padded(ns)| < U32_LIMIT
    ensures Fits(Rebuilt(ns, hash))
  {
    NewIndexAtLeast(ns, |ns|);
    assert ns[..|ns|] == ns;
    var t := TableFor(ns, hash, NumHashes(|ns|));
    forall i | 0 <= i < |t| ensures t[i] < U32_LIMIT {
      if t[i] != 0 {
        var k := EntryIsIndex(ns, hash, NumHashes(|ns|), i);
        NewIndexNames(ns, k);
      }
    }
  }

  // ---------------------------------------------------------------- the mapping from old to new indexes

  /**
   * The rebuilt stream, byte by byte: a NUL, the names in order, each with its NUL, and zeros up to a multiple of four;
   * as many hashes as there should be, and the number of names.
   */
  lemma RebuiltLayout(ns: seq<Name>, hash: HashFn, k: nat)
    requires AllNames(ns) && k < |ns|
    ensures var s, at := Rebuilt(ns, hash), NewIndex(ns, k);
            && s.numStrings == |ns| && |s.hashes| == NumHashes(|ns|) && s.strings[0] == 0 && |s.strings| % 4 == 0
            && NewIndex(ns, 0) == 1 && NewIndex(ns, k + 1) == at + |ns[k]| + 1 && NewIndex(ns, |ns|) <= |s.strings| < NewIndex(ns, |ns|) + 4
            && at + |ns[k]| < |s.strings| && s.strings[at..at + |ns[k]|] == ns[k] && s.strings[at + |ns[k]|] == 0
            && forall i :: NewIndex(ns, |ns|) <= i < |s.strings| ==> s.strings[i] == 0
  {
    NewIndexNames(ns, k);
    NewIndexStep(ns, k);
    Align4Is(|StringData(ns)|);
    assert ns[..0] == [] && ns[..|ns|] == ns;
    hide TableFor;
    hide StrEnd;
    hide Align4;
  }

  type Pair = (nat, nat)

  /** The empty string, and every kept string. */
  function Pairs(kept: seq<Entry>): (r: seq<Pair>)
    ensures |r| == |kept| + 1 && r[0] == (0, 0)
    ensures forall k :: 0 <= k < |kept| ==> r[k + 1] == (kept[k].start, NewIndex(NamesOf(kept), k))
  {
    [(0, 0)] + seq(|kept|, k requires 0 <= k < |kept| => (kept[k].start, NewIndex(NamesOf(kept), k)))
  }

  predicate SortedByOld(m: seq<Pair>) {
    forall i, j :: 0 <= i < j < |m| ==> m[i].0 <= m[j].0
  }

  /** The mapping holds the pairs, in the order of the old indexes. */
  ghost predicate IsMapping(kept: seq<Entry>, m: seq<Pair>) {
    SortedByOld(m) && multiset(m) == multiset(Pairs(kept))
  }

  lemma MappingPairs(kept: seq<Entry>, m: seq<Pair>, p: Pair)
    requires IsMapping(kept, m)
    ensures p in m <==> p in Pairs(kept)
  {
    assert p in multiset(m) <==> p in multiset(Pairs(kept));
  }

  /**
   * Every pair names the same string before and after, exactly when the old data begins with the empty string:
   * the pair for the empty string is always there.
   */
  lemma MappingKeepsStrings(strings: seq<u8>, kept: seq<Entry>, m: seq<Pair>)
    requires strings != [] && IsSortedSet(NamesFrom(strings, 0), kept) && IsMapping(kept, m)
    ensures (forall p :: p in m ==> GetString(strings, p.0).Some?
                                    && GetString(strings, p.0) == GetString(Padded(NamesOf(kept)), p.1))
            <==> strings[0] == 0
  {
    var ns := NamesOf(kept);
    KeptAreNames(strings, kept);
    EmptyFirst(ns);
    MappingPairs(kept, m, (0, 0));
    assert Pairs(kept)[0] == (0, 0);
    if strings[0] == 0 {
      forall p | p in m ensures GetString(strings, p.0).Some? && GetString(strings, p.0) == GetString(Padded(ns), p.1) {
        MappingPairs(kept, m, p);
        var i :| 0 <= i < |Pairs(kept)| && Pairs(kept)[i] == p;
        if 0 < i {
          NewIndexNames(ns, i - 1);
        } else {
          EndIs(strings, 0, 0);
        }
      }
    } else if GetString(strings, 0).Some? {
      assert StrEnd(strings, 0) != 0;
      assert |GetString(strings, 0).value| != 0;
    }
  }

  /** The data of a single string, without an empty one before it: index 0 names `a` before and nothing afterwards. */
  lemma FirstStringIsLost()
    ensures var strings, a := [0x61, 0], [0x61];
            var kept := [Entry(0, a)];
            && NamesFrom(strings, 0) == kept && IsSortedSet(NamesFrom(strings, 0), kept) && (0, 0) in Pairs(kept)
            && GetString(strings, 0) == Some(a) && GetString(Padded(NamesOf(kept)), 0) == Some([])
  {
    var strings, a := [0x61, 0], [0x61];
    var kept := [Entry(0, a)];
    EndIs(strings, 0, 1);
    assert strings[0..1] == a;
    assert StrEnd(strings, 2) == 2 && NamesFrom(strings, 2) == [];
    assert NamesFrom(strings, 0) == [Entry(0, strings[0..1])] + NamesFrom(strings, 2);
    EmptyFirst(NamesOf(kept));
    assert NamesOf(kept)[0] == a;
    assert Pairs(kept)[0] == (0, 0);
  }

  lemma EmptyFirst(ns: seq<Name>)
    ensures GetString(Padded(ns), 0) == Some([])
  {
    EndIs(Padded(ns), 0, 0);
  }

  lemma KeptAreNames(strings: seq<u8>, kept: seq<Entry>)
    requires IsSortedSet(NamesFrom(strings, 0), kept)
    ensures AllNames(NamesOf(kept))
    ensures forall i :: 0 <= i < |kept| ==> GetString(strings, kept[i].start) == Some(kept[i].name)
  {
    var es := NamesFrom(strings, 0);
    NamesAreStrings(strings, 0);
    forall i | 0 <= i < |kept| ensures IsName(kept[i].name) && GetString(strings, kept[i].start) == Some(kept[i].name) {
      assert kept[i] in es;
      var j :| 0 <= j < |es| && es[j] == kept[i];
    }
  }

  predicate DistinctNames(es: seq<Entry>) {
    forall i, j :: 0 <= i < j < |es| ==> es[i].name != es[j].name
  }

  /** When the old strings are distinct, every old index is in the mapping. */
  lemma MappingCovers(strings: seq<u8>, kept: seq<Entry>, m: seq<Pair>, e: Entry)
    requires IsSortedSet(NamesFrom(strings, 0), kept) && IsMapping(kept, m)
    requires DistinctNames(NamesFrom(strings, 0)) && e in NamesFrom(strings, 0)
    ensures exists p :: p in m && p.0 == e.start
  {
    var es := NamesFrom(strings, 0);
    assert e.name in NamesOf(kept);
    var k :| 0 <= k < |kept| && NamesOf(kept)[k] == e.name;
    assert kept[k] in es;
    var i :| 0 <= i < |es| && es[i] == kept[k];
    var j :| 0 <= j < |es| && es[j] == e;
    assert i == j;
    MappingPairs(kept, m, Pairs(kept)[k + 1]);
    assert Pairs(kept)[k + 1] in m;
  }

  /** No two pairs have the same old index, so that a binary search for it is well defined. */
  lemma MappingStrict(strings: seq<u8>, kept: seq<Entry>, m: seq<Pair>, i: nat, j: nat)
    requires strings != [] && strings[0] == 0 && IsSortedSet(NamesFrom(strings, 0), kept) && IsMapping(kept, m)
    requires i < j < |m|
    ensures m[i].0 < m[j].0
  {
    if m[i].0 == m[j].0 {
      MappingPairs(kept, m, m[i]);
      MappingPairs(kept, m, m[j]);
      var a :| 0 <= a < |Pairs(kept)| && Pairs(kept)[a] == m[i];
      var b :| 0 <= b < |Pairs(kept)| && Pairs(kept)[b] == m[j];
      OldDistinct(strings, kept, a, b);
      TwiceInList(m, i, j);
      OnceInList(strings, kept, a);
    }
  }

  /** Different pairs have different old indexes. */
  lemma OldDistinct(strings: seq<u8>, kept: seq<Entry>, a: nat, b: nat)
    requires strings != [] && strings[0] == 0 && IsSortedSet(NamesFrom(strings, 0), kept)
    requires a < |Pairs(kept)| && b < |Pairs(kept)| && Pairs(kept)[a].0 == Pairs(kept)[b].0
    ensures a == b
  {
    hide *;
    StartsPositive(strings, kept);
    if 0 < a {
      PairAt(kept, a - 1);
    }
    if 0 < b {
      PairAt(kept, b - 1);
    }
    if 0 < a && 0 < b {
      SamePlace(NamesOf(kept), a - 1, b - 1);
    }
  }

  lemma PairAt(kept: seq<Entry>, k: nat)
    requires k < |kept|
    ensures Pairs(kept)[k + 1].0 == kept[k].start && NamesOf(kept)[k] == kept[k].name
  {
  }

  lemma StartsPositive(strings: seq<u8>, kept: seq<Entry>)
    requires strings != [] && strings[0] == 0 && IsSortedSet(NamesFrom(strings, 0), kept)
    ensures forall k :: 0 <= k < |kept| ==> 0 < kept[k].start
    ensures StrictlySorted(NamesOf(kept))
    ensures forall j, k :: 0 <= j < |kept| && 0 <= k < |kept| && kept[j].start == kept[k].start ==> kept[j].name == kept[k].name
  {
    KeptAreNames(strings, kept);
    EndIs(strings, 0, 0);
    forall k | 0 <= k < |kept| ensures 0 < kept[k].start {
      assert IsName(NamesOf(kept)[k]);
    }
  }

  lemma TwiceInList(m: seq<Pair>, i: nat, j: nat)
    requires i < j < |m| && m[i] == m[j]
    ensures multiset(m)[m[i]] >= 2
  {
    assert m == m[..i] + [m[i]] + m[i + 1..j] + [m[j]] + m[j + 1..];
  }

  lemma OnceInList(strings: seq<u8>, kept: seq<Entry>, a: nat)
    requires strings != [] && strings[0] == 0 && IsSortedSet(NamesFrom(strings, 0), kept) && a < |Pairs(kept)|
    ensures multiset(Pairs(kept))[Pairs(kept)[a]] == 1
  {
    var ps := Pairs(kept);
    forall i | 0 <= i < |ps| && i != a ensures ps[i] != ps[a] {
      if ps[i] == ps[a] {
        OldDistinct(strings, kept, i, a);
      }
    }
    CountOnce(ps, a);
  }

  lemma CountOnce(ps: seq<Pair>, a: nat)
    requires a < |ps| && forall i :: 0 <= i < |ps| && i != a ==> ps[i] != ps[a]
    ensures multiset(ps)[ps[a]] == 1
  {
    assert ps == ps[..a] + [ps[a]] + ps[a + 1..];
    assert ps[a] !in ps[..a] && ps[a] !in ps[a + 1..];
  }

  // ---------------------------------------------------------------- rebuilding

  /** Writes the string data and pairs each old index with its new one. */
  method WriteStrings(kept: seq<Entry>) returns (data: seq<u8>, pairs: seq<Pair>)
    ensures data == Padded(NamesOf(kept)) && pairs == Pairs(kept)
  {
    hide *;
    ghost var ns := NamesOf(kept);
    data, pairs := [0], [(0, 0)];
    WriteStart(kept);
    for k := 0 to |kept|
      invariant data == StringData(ns[..k]) && pairs == Pairs(kept)[..k + 1]
    {
      NewIndexStep(ns, k);
      WriteStep(kept, k);
      pairs := pairs + [(kept[k].start, |data|)];
      data := data + (kept[k].name + [0]);
    }
    WriteEnd(kept);
    data := data + Zeros(Align4(|data|) - |data|);
  }

  lemma WriteStart(kept: seq<Entry>)
    ensures StringData(NamesOf(kept)[..0]) == [0] && Pairs(kept)[..1] == [(0, 0)]
  {
    assert NamesOf(kept)[..0] == [];
  }

  lemma WriteStep(kept: seq<Entry>, k: nat)
    requires k < |kept|
    ensures Pairs(kept)[..k + 2] == Pairs(kept)[..k + 1] + [(kept[k].start, |StringData(NamesOf(kept)[..k])|)]
  {
  }

  lemma WriteEnd(kept: seq<Entry>)
    ensures var d := StringData(NamesOf(kept)[..|kept|]);
            |d| <= Align4(|d|) && d + Zeros(Align4(|d|) - |d|) == Padded(NamesOf(kept)) && Pairs(kept)[..|kept| + 1] == Pairs(kept)
  {
    assert NamesOf(kept)[..|kept|] == NamesOf(kept);
  }

  /** Stands for the library's unstable sort. */
  method SortPairs(pairs: seq<Pair>) returns (m: seq<Pair>)
    ensures SortedByOld(m) && multiset(m) == multiset(pairs)
  {
    m := [];
    for i := 0 to |pairs|
      invariant SortedByOld(m) && multiset(m) == multiset(pairs[..i])
    {
      m := InsertPair(m, pairs[i]);
      assert pairs[..i + 1] == pairs[..i] + [pairs[i]];
    }
    assert pairs[..|pairs|] == pairs;
  }

  method InsertPair(m: seq<Pair>, p: Pair) returns (r: seq<Pair>)
    requires SortedByOld(m)
    ensures SortedByOld(r) && multiset(r) == multiset(m) + multiset{p}
  {
    var k := 0;
    while k < |m| && m[k].0 < p.0
      invariant 0 <= k <= |m|
      invariant forall j :: 0 <= j < k ==> m[j].0 < p.0
    {
      k := k + 1;
    }
    PairInsert(m, k, p);
    PairAdded(m, k, p);
    r := m[..k] + ([p] + m[k..]);
  }

  lemma PairInsert(m: seq<Pair>, k: nat, p: Pair)
    requires SortedByOld(m) && k <= |m| && (forall j :: 0 <= j < k ==> m[j].0 < p.0) && (k < |m| ==> p.0 <= m[k].0)
    ensures SortedByOld(m[..k] + ([p] + m[k..]))
  {
    var r := m[..k] + ([p] + m[k..]);
    forall i, j | 0 <= i < j < |r| ensures r[i].0 <= r[j].0 {
      assert r[i] == (if i < k then m[i] else if i == k then p else m[i - 1]);
      assert r[j] == (if j < k then m[j] else if j == k then p else m[j - 1]);
    }
  }

  lemma PairAdded(m: seq<Pair>, k: nat, p: Pair)
    requires k <= |m|
    ensures multiset(m[..k] + ([p] + m[k..])) == multiset(m) + multiset{p}
  {
    assert m == m[..k] + m[k..];
  }

  /** Sorts the strings, drops duplicates, and builds a new hash table. An empty stream is copied. */
  method Rebuild(stream: NamesStream, hash: HashFn) returns (mapping: seq<Pair>, out: NamesStream, ghost kept: seq<Entry>)
    ensures stream.strings == [] ==> mapping == [] && out == stream
    ensures stream.strings != [] ==>
              && IsSortedSet(NamesFrom(stream.strings, 0), kept) && IsMapping(kept, mapping)
              && out == Rebuilt(NamesOf(kept), hash)
  {
    if stream.strings == [] {
      return [], stream, [];
    }
    var es := CollectNames(stream.strings);
    var sorted := SortByName(es);
    var unique := DedupByName(sorted);
    SortedSetOfSorted(es, sorted, unique);
    kept := unique;
    var data, pairs := WriteStrings(unique);
    mapping := SortPairs(pairs);
    var hashes := BuildHashTable(NamesOf(unique), hash);
    out := NamesStream(data, hashes, |unique|);
  }

  lemma SortedSetOfSorted(es: seq<Entry>, sorted: seq<Entry>, unique: seq<Entry>)
    requires multiset(sorted) == multiset(es) && IsSortedSet(sorted, unique)
    ensures IsSortedSet(es, unique)
  {
    forall e ensures e in sorted <==> e in es {
      assert e in multiset(sorted) <==> e in multiset(es);
    }
  }

  /** Rebuilding a rebuilt stream keeps every string where it is. */
  lemma KeptAgain(ns: seq<Name>, kept: seq<Entry>)
    requires AllNames(ns) && StrictlySorted(ns) && IsSortedSet(NamesFrom(Padded(ns), 0), kept)
    ensures kept == Numbered(ns)
  {
    Reread(ns);
    var es := Numbered(ns);
    assert NamesOf(es) == ns;
    SameMembers(es, kept);
    SortedUnique(NamesOf(kept), ns);
    forall i | 0 <= i < |kept| ensures kept[i] == es[i] {
      assert kept[i] in es;
      var j :| 0 <= j < |es| && es[j] == kept[i];
      assert NamesOf(kept)[i] == ns[i];
      SamePlace(ns, i, j);
    }
  }

  lemma SameMembers(es: seq<Entry>, kept: seq<Entry>)
    requires IsSortedSet(es, kept)
    ensures forall n :: n in NamesOf(kept) <==> n in NamesOf(es)
  {
    forall n ensures n in NamesOf(kept) <==> n in NamesOf(es) {
      if n in NamesOf(kept) {
        var i :| 0 <= i < |kept| && NamesOf(kept)[i] == n;
        assert kept[i] in es;
        var j :| 0 <= j < |es| && es[j] == kept[i];
        assert NamesOf(es)[j] == n;
      }
      if n in NamesOf(es) {
        var i :| 0 <= i < |es| && NamesOf(es)[i] == n;
        assert es[i] in es;
      }
    }
  }

  lemma SamePlace(ns: seq<Name>, i: nat, j: nat)
    requires StrictlySorted(ns) && i < |ns| && j < |ns| && ns[i] == ns[j]
    ensures i == j
  {
    LessIrreflexive(ns[i]);
  }

  /** Rebuilding the result again gives identical bytes, and maps every index to itself. */
  method RebuildTwice(stream: NamesStream, hash: HashFn) returns (once: seq<u8>, twice: seq<u8>, mapping: seq<Pair>)
    requires stream.strings != []
    ensures once == twice
    ensures forall p :: p in mapping ==> p.0 == p.1
  {
    hide *;
    var m1, s1, kept1 := Rebuild(stream, hash);
    once := Encode(s1);
    var s2;
    ghost var kept2;
    mapping, s2, kept2 := Rebuild(s1, hash);
    twice := Encode(s2);
    ghost var ns := NamesOf(kept1);
    SortedNames(stream.strings, kept1);
    KeptAgain(ns, kept2);
    NumberedNames(ns);
    IdentityMapping(ns, kept2, mapping);
  }

  lemma SortedNames(strings: seq<u8>, kept: seq<Entry>)
    requires IsSortedSet(NamesFrom(strings, 0), kept)
    ensures AllNames(NamesOf(kept)) && StrictlySorted(NamesOf(kept))
    ensures forall hash: HashFn :: Rebuilt(NamesOf(kept), hash).strings == Padded(NamesOf(kept)) != []
  {
    KeptAreNames(strings, kept);
  }

  lemma NumberedNames(ns: seq<Name>)
    ensures NamesOf(Numbered(ns)) == ns
  {
  }

  lemma IdentityMapping(ns: seq<Name>, kept: seq<Entry>, m: seq<Pair>)
    requires kept == Numbered(ns) && IsMapping(kept, m)
    ensures forall p :: p in m ==> p.0 == p.1
  {
    assert NamesOf(kept) == ns;
    forall p | p in m ensures p.0 == p.1 {
      MappingPairs(kept, m, p);
    }
  }

  /** Binary search in a list of pairs that is sorted by the first components. */
  method FindByOld(pairs: seq<Pair>, key: nat) returns (r: Option<nat>)
    requires SortedByOld(pairs)
    ensures r.Some? ==> (key, r.value) in pairs
    ensures r.None? ==> forall p :: p in pairs ==> p.0 != key
  {
    var lo, hi := 0, |pairs|;
    while lo < hi
      invariant 0 <= lo <= hi <= |pairs|
      invariant forall i :: 0 <= i < lo ==> pairs[i].0 < key
      invariant forall i :: hi <= i < |pairs| ==> key < pairs[i].0
    {
      var mid := (lo + hi) / 2;
      if pairs[mid].0 == key {
        assert pairs[mid] in pairs;
        return Some(pairs[mid].1);
      } else if pairs[mid].0 < key {
        lo := mid + 1;
      } else {
        hi := mid;
      }
    }
    r := None;
  }

  /** Looks up an old index by binary search. Index 0 is never remapped. */
  method MapOldToNew(m: seq<Pair>, name: nat) returns (r: Option<nat>)
    requires forall i, j :: 0 <= i < j < |m| ==> m[i].0 < m[j].0
    ensures name == 0 ==> r == Some(0)
    ensures name != 0 ==> (r.Some? <==> exists p :: p in m && p.0 == name)
    ensures name != 0 && r.Some? ==> (name, r.value) in m
  {
    if name == 0 {
      return Some(0);
    }
    r := FindByOld(m, name);
  }

  /** A stream is rebuilt, written and read back: every old index of a distinct string leads to the same string. */
  method RebuildAndLookUp(stream: NamesStream, hash: HashFn, name: nat) returns (r: Option<nat>, out: seq<u8>)
    requires stream.strings != [] && stream.strings[0] == 0 && DistinctNames(NamesFrom(stream.strings, 0))
    ensures (exists e :: e in NamesFrom(stream.strings, 0) && e.start == name) ==> r.Some?
    ensures r.Some? && |out| < U32_LIMIT ==>
              && Parse(out).Some? && GetString(stream.strings, name).Some?
              && GetString(Parse(out).value.strings, r.value) == GetString(stream.strings, name)
  {
    var mapping, s, kept := Rebuild(stream, hash);
    out := Encode(s);
    KeptAreNames(stream.strings, kept);
    if |out| < U32_LIMIT {
      RebuiltFits(NamesOf(kept), hash);
      ParseEncode(s);
    }
    forall i, j | 0 <= i < j < |mapping| ensures mapping[i].0 < mapping[j].0 {
      MappingStrict(stream.strings, kept, mapping, i, j);
    }
    r := MapOldToNew(mapping, name);
    MappingKeepsStrings(stream.strings, kept, mapping);
    EmptyFirst(NamesOf(kept));
    EndIs(stream.strings, 0, 0);
    if e :| e in NamesFrom(stream.strings, 0) && e.start == name {
      MappingCovers(stream.strings, kept, mapping, e);
    }
    if r.Some? && name != 0 {
      assert (name, r.value) in mapping;
    }
  }
}
