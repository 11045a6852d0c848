/** What the PDB information stream must look like to be read, byte by byte, without the functions that read it (pdb/src/pdbi.rs). */
module PdbiLayout {
  import opened Bytes
  import opened Parsing
  import opened Names
  import opened NamesHash
  import opened Probing
  import opened NamedStreams
  import P = Pdbi

  // ---------------------------------------------------------------- taking from the middle

  lemma TakeBytesAt(b: seq<u8>, at: nat, n: nat)
    requires at <= |b|
    ensures TakeBytes(b[at..], n) == if |b| < at + n then None else Some(Taken(b[at..at + n], b[at + n..]))
  {
    if at + n <= |b| {
      assert b[at..][..n] == b[at..at + n] && b[at..][n..] == b[at + n..];
    }
  }

  lemma TakeU32At(b: seq<u8>, at: nat)
    requires at <= |b|
    ensures TakeU32(b[at..]) == if |b| < at + 4 then None else Some(Taken(U32At(b, at), b[at + 4..]))
  {
    if at + 4 <= |b| {
      assert b[at..][4..] == b[at + 4..];
    }
  }

  lemma TakeWordsAt(b: seq<u8>, at: nat, n: nat)
    requires at <= |b|
    ensures TakeWords(b[at..], n) == if |b| < at + 4 * n then None else Some(Taken(DecodeWords(b[at..at + 4 * n]), b[at + 4 * n..]))
  {
    hide DecodeWords;
    if at + 4 * n <= |b| {
      assert b[at..][..4 * n] == b[at..at + 4 * n] && b[at..][4 * n..] == b[at + 4 * n..];
    }
  }

  lemma TakeSizedAt(b: seq<u8>, at: nat, unit: nat)
    requires at <= |b|
    ensures TakeSized(b[at..], unit)
         == if |b| < at + 4 || |b| < at + 4 + unit * U32At(b, at) then None else
            Some(Taken(b[at + 4..at + 4 + unit * U32At(b, at)], b[at + 4 + unit * U32At(b, at)..]))
  {
    TakeU32At(b, at);
    if at + 4 <= |b| {
      TakeBytesAt(b, at + 4, unit * U32At(b, at));
    }
    hide TakeU32;
    hide TakeBytes;
    hide U32At;
  }

  // ---------------------------------------------------------------- the flags

  lemma {:induction false} BitCountIs(n: nat, bits: seq<bool>)
    requires forall i :: 0 <= i < |bits| ==> bits[i] == Bit(n, i)
    ensures BitCount(n, |bits|) == CountFront(bits)
  {
    if bits != [] {
      assert forall i :: 0 <= i < |bits| - 1 ==> bits[1..][i] == bits[i + 1] == Bit(n, i + 1) == Bit(n / 2, i);
      BitCountIs(n / 2, bits[1..]);
      assert bits[0] == Bit(n, 0);
    }
  }

  /** The bits are counted one by one. */
  lemma {:induction false} PopCountIs(b: seq<u8>)
    ensures PopCount(b) == Count(Flags(b, 0, 8 * |b|))
  {
    if b != [] {
      var k := |b| - 1;
      var low, high := Flags(b[..k], 0, 8 * k), Flags(b[k..], 0, 8);
      PopCountIs(b[..k]);
      BitCountIs(b[k] as nat, high);
      CountFrontIs(high);
      CountConcat(low, high);
      FlagsSplit(b, k);
    }
  }

  lemma FlagsSplit(b: seq<u8>, k: nat)
    requires k < |b| == k + 1
    ensures Flags(b, 0, 8 * |b|) == Flags(b[..k], 0, 8 * k) + Flags(b[k..], 0, 8)
  {
    hide Bit;
    var all, low, high := Flags(b, 0, 8 * |b|), Flags(b[..k], 0, 8 * k), Flags(b[k..], 0, 8);
    forall i | 0 <= i < |all| ensures all[i] == (low + high)[i] {
      if 8 * k <= i {
        assert i / 8 == k && i % 8 == i - 8 * k;
      }
    }
  }

  lemma FlagsMoved(b: seq<u8>, at: nat, n: nat)
    requires at + n <= |b|
    ensures Flags(b, at, 8 * n) == Flags(b[at..at + n], 0, 8 * n)
  {
    hide Bit;
  }

  // ---------------------------------------------------------------- the entries

  /** Entry `j` is the first one with this name. */
  ghost predicate FirstNamed(data: seq<u8>, es: seq<HashEntry>, j: nat, name: Name) {
    && j < |es| && GetString(data, es[j].0) == Some(name)
    && forall i :: 0 <= i < j ==> GetString(data, es[i].0) != Some(name)
  }

  ghost predicate Named(data: seq<u8>, es: seq<HashEntry>, name: Name) {
    exists j: nat :: FirstNamed(data, es, j, name)
  }

  /** Every entry has a name, and each name has the stream of the first entry with it. */
  ghost predicate Collected(data: seq<u8>, es: seq<HashEntry>, m: map<Name, nat>) {
    && (forall j :: 0 <= j < |es| ==> GetString(data, es[j].0).Some?)
    && (forall name :: name in m <==> Named(data, es, name))
    && (forall j: nat, name :: FirstNamed(data, es, j, name) && name in m ==> m[name] == es[j].1)
  }

  lemma FirstOfInit(data: seq<u8>, es: seq<HashEntry>, j: nat, name: Name)
    requires es != []
    ensures var init := es[..|es| - 1];
            FirstNamed(data, es, j, name)
            <==> || FirstNamed(data, init, j, name)
                 || (j == |init| && GetString(data, es[j].0) == Some(name) && !Named(data, init, name))
  {
    hide GetString;
    var init := es[..|es| - 1];
    if Named(data, init, name) {
      var i: nat :| FirstNamed(data, init, i, name);
      assert init[i] == es[i];
    } else if j == |init| && GetString(data, es[j].0) == Some(name) {
      NotNamed(data, init, name, j);
      forall i | 0 <= i < j ensures GetString(data, es[i].0) != Some(name) {
        assert init[i] == es[i];
      }
    }
  }

  lemma {:induction false} NotNamed(data: seq<u8>, es: seq<HashEntry>, name: Name, n: nat)
    requires n <= |es| && !Named(data, es, name)
    ensures forall i :: 0 <= i < n ==> GetString(data, es[i].0) != Some(name)
  {
    if 0 < n {
      NotNamed(data, es, name, n - 1);
      assert !FirstNamed(data, es, n - 1, name);
    }
  }

  lemma {:induction false} CollectSound(data: seq<u8>, es: seq<HashEntry>)
    ensures Collect(data, es).Some? ==> Collected(data, es, Collect(data, es).value)
  {
    hide GetString;
    if es != [] && Collect(data, es).Some? {
      var init, last := es[..|es| - 1], es[|es| - 1];
      CollectSound(data, init);
      CollectedMore(data, es, Collect(data, init).value, GetString(data, last.0).value);
    }
  }

  lemma CollectedMore(data: seq<u8>, es: seq<HashEntry>, m: map<Name, nat>, name: Name)
    requires es != [] && Collected(data, es[..|es| - 1], m) && GetString(data, es[|es| - 1].0) == Some(name)
    ensures Collected(data, es, if name in m then m else m[name := es[|es| - 1].1])
  {
    hide GetString;
    hide FirstNamed;
    var init, k := es[..|es| - 1], |es| - 1;
    var m' := if name in m then m else m[name := es[k].1];
    forall j | 0 <= j < |es| ensures GetString(data, es[j].0).Some? {
      if j < k {
        assert init[j] == es[j];
      }
    }
    forall n: Name | true ensures Named(data, es, n) <==> n in m' {
      NamedMore(data, es, n);
    }
    forall j: nat, n: Name | FirstNamed(data, es, j, n) && n in m' ensures j < |es| && m'[n] == es[j].1 {
      FirstOfInit(data, es, j, n);
      FirstInside(data, init, j, n);
    }
  }

  lemma FirstInside(data: seq<u8>, es: seq<HashEntry>, j: nat, name: Name)
    ensures FirstNamed(data, es, j, name) ==> j < |es| && Named(data, es, name)
  {
  }

  lemma NamedMore(data: seq<u8>, es: seq<HashEntry>, name: Name)
    requires es != []
    ensures Named(data, es, name) <==> Named(data, es[..|es| - 1], name) || GetString(data, es[|es| - 1].0) == Some(name)
  {
    hide FirstNamed;
    var init, k := es[..|es| - 1], |es| - 1;
    FirstOfInit(data, es, k, name);
    if Named(data, es, name) {
      var j: nat :| FirstNamed(data, es, j, name);
      FirstOfInit(data, es, j, name);
    }
    if Named(data, init, name) {
      var j: nat :| FirstNamed(data, init, j, name);
      FirstOfInit(data, es, j, name);
    }
  }

  lemma {:induction false} CollectWorks(data: seq<u8>, es: seq<HashEntry>)
    requires forall j :: 0 <= j < |es| ==> GetString(data, es[j].0).Some?
    ensures Collect(data, es).Some?
  {
    hide GetString;
    if es != [] {
      CollectWorks(data, es[..|es| - 1]);
    }
  }

  lemma CollectedUnique(data: seq<u8>, es: seq<HashEntry>, m: map<Name, nat>, m': map<Name, nat>)
    requires Collected(data, es, m) && Collected(data, es, m')
    ensures m == m'
  {
    hide FirstNamed;
    forall name | name in m ensures name in m' && m[name] == m'[name] {
      assert Named(data, es, name);
      var j: nat :| FirstNamed(data, es, j, name);
    }
    forall name | name in m' ensures name in m {
      assert Named(data, es, name);
    }
  }

  /** The names are collected exactly if every entry has one; the first entry with a name counts. */
  lemma CollectIff(data: seq<u8>, es: seq<HashEntry>, m: map<Name, nat>)
    ensures Collect(data, es) == Some(m) <==> Collected(data, es, m)
  {
    CollectSound(data, es);
    if Collected(data, es, m) {
      CollectWorks(data, es);
      hide *;
      CollectedUnique(data, es, m, Collect(data, es).value);
    }
  }

  // ---------------------------------------------------------------- the table of names

  /** The numbers in a table, if there are as many bytes as they say. */
  datatype Numbers = Numbers(d: nat, c: nat, n: nat, w: nat, v: nat) {
    function Flags(): nat { 16 + d }
    function Deleted(): nat { Flags() + 4 * w }
    function Entries(): nat { Deleted() + 4 + 4 * v }
    function End(): nat { Entries() + 8 * c }
  }

  /**
   * A table with `d` bytes of names, `c` entries, `n` slots, `w` words of flags for the slots, and `v` words for deleted
   * entries. As many flags are set as there are entries; one more word ends the table.
   */
  ghost predicate TableThere(b: seq<u8>, x: Numbers, es: seq<HashEntry>) {
    var at := 20 + x.d + 4 * x.w + 4 * x.v;
    && at + 8 * x.c + 4 <= |b|
    && x.d < U32_LIMIT && x.c < U32_LIMIT && x.n < U32_LIMIT && x.w < U32_LIMIT && x.v < U32_LIMIT
    && StoredAt(b, 0, x.d) && StoredAt(b, 4 + x.d, x.c) && StoredAt(b, 8 + x.d, x.n) && StoredAt(b, 12 + x.d, x.w)
    && StoredAt(b, 16 + x.d + 4 * x.w, x.v)
    && Count(Flags(b, 16 + x.d, 32 * x.w)) == x.c
    && |es| == x.c && EntriesListed(b, at, es) && Small(es)
  }

  predicate Small(es: seq<HashEntry>) {
    forall j :: 0 <= j < |es| ==> es[j].0 < U32_LIMIT && es[j].1 < U32_LIMIT
  }

  /** The names that are read, and what is left of the bytes. */
  ghost predicate TableRead(b: seq<u8>, x: Numbers, es: seq<HashEntry>, m: map<Name, nat>, rest: seq<u8>) {
    && TableThere(b, x, es) && Collected(b[4..4 + x.d], es, m)
    && rest == b[24 + x.d + 4 * x.w + 4 * x.v + 8 * x.c..]
  }

  /** The table has these numbers, and its bytes are all there. */
  predicate HasNumbers(b: seq<u8>, x: Numbers) {
    && x.End() + 4 <= |b|
    && x.d == U32At(b, 0) && x.c == U32At(b, 4 + x.d) && x.n == U32At(b, 8 + x.d) && x.w == U32At(b, 12 + x.d)
    && x.v == U32At(b, x.Deleted())
  }

  /** What is read from a table with these numbers. */
  function Outcome(b: seq<u8>, x: Numbers): Option<Taken<map<Name, nat>>>
    requires x.End() + 4 <= |b|
  {
    if PopCount(b[x.Flags()..x.Deleted()]) != x.c then None else
    var m :- Collect(b[4..4 + x.d], WordPairs(DecodeWords(b[x.Entries()..x.End()])));
    Some(Taken(m, b[x.End() + 4..]))
  }

  /** The table behind its number of slots. */
  function ParseEntries(b: seq<u8>, data: seq<u8>, c: nat): Option<Taken<map<Name, nat>>> {
    var present :- TakeSized(b, 4);
    var deleted :- TakeSized(present.rest, 4);
    if PopCount(present.value) != c then None else
    var words :- TakeWords(deleted.rest, 2 * c);
    var m :- Collect(data, WordPairs(words.value));
    var numIndexes :- TakeU32(words.rest);
    Some(Taken(m, numIndexes.rest))
  }

  lemma ParseHead(b: seq<u8>, data: seq<u8>, r1: seq<u8>, c: nat, r2: seq<u8>, n: nat, r3: seq<u8>)
    requires TakeSized(b, 1) == Some(Taken(data, r1)) && TakeU32(r1) == Some(Taken(c, r2)) && TakeU32(r2) == Some(Taken(n, r3))
    ensures Parse(b) == ParseEntries(r3, data, c)
  {
    hide TakeSized;
    hide TakeU32;
    hide TakeWords;
    hide PopCount;
    hide Collect;
  }

  lemma ParseRest(b: seq<u8>, present: seq<u8>, r1: seq<u8>, deleted: seq<u8>, r2: seq<u8>, words: seq<nat>, r3: seq<u8>,
                  num: nat, r4: seq<u8>, data: seq<u8>, c: nat)
    requires TakeSized(b, 4) == Some(Taken(present, r1)) && TakeSized(r1, 4) == Some(Taken(deleted, r2))
    requires TakeWords(r2, 2 * c) == Some(Taken(words, r3)) && TakeU32(r3) == Some(Taken(num, r4))
    ensures ParseEntries(b, data, c)
         == if PopCount(present) != c then None else
            match Collect(data, WordPairs(words)) case None => None case Some(m) => Some(Taken(m, r4))
  {
    hide TakeSized;
    hide TakeU32;
    hide TakeWords;
    hide PopCount;
    hide Collect;
  }

  lemma ParsedParts(b: seq<u8>)
    requires Parse(b).Some?
    ensures TakeSized(b, 1).Some? && TakeU32(TakeSized(b, 1).value.rest).Some?
    ensures var r := TakeU32(TakeSized(b, 1).value.rest).value;
            TakeU32(r.rest).Some? && ParseEntries(TakeU32(r.rest).value.rest, TakeSized(b, 1).value.value, r.value).Some?
  {
    hide TakeSized;
    hide TakeU32;
    hide TakeWords;
    hide PopCount;
    hide Collect;
  }

  lemma EntriesParts(b: seq<u8>, data: seq<u8>, c: nat)
    requires ParseEntries(b, data, c).Some?
    ensures TakeSized(b, 4).Some? && TakeSized(TakeSized(b, 4).value.rest, 4).Some?
    ensures var r := TakeSized(TakeSized(b, 4).value.rest, 4).value.rest;
            TakeWords(r, 2 * c).Some? && TakeU32(TakeWords(r, 2 * c).value.rest).Some?
  {
    hide TakeSized;
    hide TakeU32;
    hide TakeWords;
    hide PopCount;
    hide Collect;
  }

  lemma TakeSizedOk(b: seq<u8>, at: nat, unit: nat, n: nat, end: nat)
    requires at + 4 <= |b| && n == U32At(b, at) && end == at + 4 + unit * n <= |b|
    ensures TakeSized(b[at..], unit) == Some(Taken(b[at + 4..end], b[end..]))
  {
    TakeSizedAt(b, at, unit);
  }

  lemma TakeWordsOk(b: seq<u8>, at: nat, c: nat, end: nat)
    requires end == at + 8 * c <= |b|
    ensures TakeWords(b[at..], 2 * c) == Some(Taken(DecodeWords(b[at..end]), b[end..]))
  {
    TakeWordsAt(b, at, 2 * c);
  }

  lemma TakeU32Ok(b: seq<u8>, at: nat, w: nat)
    requires at + 4 <= |b| && w == U32At(b, at)
    ensures TakeU32(b[at..]) == Some(Taken(w, b[at + 4..]))
  {
    TakeU32At(b, at);
  }

  lemma EntriesOutcome(b: seq<u8>, p: nat, f: nat, w: nat, q: nat, v: nat, at: nat, end: nat, last: nat, data: seq<u8>, c: nat)
    requires f == p + 4 <= q && q + 4 <= |b| && w == U32At(b, p) && q == f + 4 * w && v == U32At(b, q)
    requires at == q + 4 + 4 * v && end == at + 8 * c && last == end + 4 <= |b|
    ensures ParseEntries(b[p..], data, c)
         == if PopCount(b[f..q]) != c then None else
            match Collect(data, WordPairs(DecodeWords(b[at..end])))
            case None => None
            case Some(m) => Some(Taken(m, b[last..]))
  {
    hide *;
    TakeSizedOk(b, p, 4, w, q);
    TakeSizedOk(b, q, 4, v, at);
    TakeWordsOk(b, at, c, end);
    TakeU32Ok(b, end, U32At(b, end));
    ParseRest(b[p..], b[p + 4..q], b[q..], b[q + 4..at], b[at..], DecodeWords(b[at..end]), b[end..], U32At(b, end), b[end + 4..],
              data, c);
  }

  lemma HeadOutcome(b: seq<u8>, d: nat, names: nat, c: nat, n: nat, p: nat)
    requires p == 12 + d <= |b| && names == 4 + d && d == U32At(b, 0) && c == U32At(b, 4 + d) && n == U32At(b, 8 + d)
    ensures Parse(b) == ParseEntries(b[p..], b[4..names], c)
  {
    hide *;
    assert b[0..] == b;
    TakeSizedOk(b, 0, 1, d, 4 + d);
    TakeU32Ok(b, 4 + d, c);
    TakeU32Ok(b, 8 + d, n);
    ParseHead(b, b[4..4 + d], b[4 + d..], c, b[8 + d..], n, b[12 + d..]);
  }

  lemma ParsedOutcome(b: seq<u8>, x: Numbers)
    requires HasNumbers(b, x)
    ensures Parse(b) == Outcome(b, x)
  {
    Positions(b, x);
    NumbersRead(b, x);
    var d, c, p, q, at, end := x.d, x.c, 12 + x.d, x.Deleted(), x.Entries(), x.End();
    var names, f, last := 4 + d, 4 + p, 4 + end;
    OutcomeIs(b, x, f, q, at, end, last, names);
    hide *;
    HeadOutcome(b, d, names, c, x.n, p);
    EntriesOutcome(b, p, f, x.w, q, x.v, at, end, last, b[4..names], c);
  }

  lemma NumbersRead(b: seq<u8>, x: Numbers)
    requires HasNumbers(b, x)
    ensures x.End() + 4 <= |b| && x.Deleted() + 4 <= |b| && 12 + x.d <= |b|
    ensures x.d == U32At(b, 0) && x.c == U32At(b, 4 + x.d) && x.n == U32At(b, 8 + x.d) && x.w == U32At(b, 12 + x.d)
    ensures x.v == U32At(b, x.Deleted())
  {
    hide U32At;
  }

  lemma OutcomeIs(b: seq<u8>, x: Numbers, f: nat, q: nat, at: nat, end: nat, rest: nat, names: nat)
    requires f == x.Flags() <= q == x.Deleted() <= at == x.Entries() <= end == x.End()
    requires rest == x.End() + 4 <= |b| && names == 4 + x.d <= |b|
    ensures Outcome(b, x)
         == if PopCount(b[f..q]) != x.c then None else
            match Collect(b[4..names], WordPairs(DecodeWords(b[at..end])))
            case None => None
            case Some(m) => Some(Taken(m, b[rest..]))
  {
    hide PopCount;
    hide Collect;
    hide WordPairs;
    hide DecodeWords;
  }

  lemma TakeSizedFits(b: seq<u8>, at: nat, unit: nat) returns (n: nat, end: nat)
    requires at <= |b| && TakeSized(b[at..], unit).Some?
    ensures at + 4 <= |b| && n == U32At(b, at) && end == at + 4 + unit * n <= |b|
    ensures TakeSized(b[at..], unit) == Some(Taken(b[at + 4..end], b[end..]))
  {
    TakeSizedAt(b, at, unit);
    n := U32At(b, at);
    end := at + 4 + unit * n;
  }

  lemma TakeU32Fits(b: seq<u8>, at: nat) returns (w: nat)
    requires at <= |b| && TakeU32(b[at..]).Some?
    ensures at + 4 <= |b| && w == U32At(b, at) && TakeU32(b[at..]) == Some(Taken(w, b[at + 4..]))
  {
    TakeU32At(b, at);
    w := U32At(b, at);
  }

  lemma TakeWordsFits(b: seq<u8>, at: nat, c: nat) returns (end: nat)
    requires at <= |b| && TakeWords(b[at..], 2 * c).Some?
    ensures end == at + 8 * c <= |b| && TakeWords(b[at..], 2 * c) == Some(Taken(DecodeWords(b[at..end]), b[end..]))
  {
    TakeWordsAt(b, at, 2 * c);
    end := at + 8 * c;
  }

  lemma EntriesFit(b: seq<u8>, p: nat, data: seq<u8>, c: nat) returns (w: nat, q: nat, v: nat, at: nat)
    requires p <= |b| && ParseEntries(b[p..], data, c).Some?
    ensures p + 4 <= q && q + 4 <= |b| && w == U32At(b, p) && q == p + 4 + 4 * w && v == U32At(b, q)
    ensures at == q + 4 + 4 * v && at + 8 * c + 4 <= |b|
  {
    hide *;
    EntriesParts(b[p..], data, c);
    w, q := TakeSizedFits(b, p, 4);
    v, at := TakeSizedFits(b, q, 4);
    var end := TakeWordsFits(b, at, c);
    var num := TakeU32Fits(b, end);
  }

  lemma ParsedNumbers(b: seq<u8>) returns (x: Numbers)
    requires Parse(b).Some?
    ensures HasNumbers(b, x)
  {
    hide *;
    assert b[0..] == b;
    ParsedParts(b);
    var d, p1 := TakeSizedFits(b, 0, 1);
    var c := TakeU32Fits(b, p1);
    var n := TakeU32Fits(b, p1 + 4);
    HeadOutcome(b, d, p1, c, n, p1 + 8);
    var w, q, v, at := EntriesFit(b, p1 + 8, b[4..p1], c);
    x := Numbers(d, c, n, w, v);
    NumbersAre(b, x, q, at);
  }

  lemma NumbersAre(b: seq<u8>, x: Numbers, q: nat, at: nat)
    requires q == 16 + x.d + 4 * x.w && at == q + 4 + 4 * x.v && at + 8 * x.c + 4 <= |b|
    requires x.d == U32At(b, 0) && x.c == U32At(b, 4 + x.d) && x.n == U32At(b, 8 + x.d) && x.w == U32At(b, 12 + x.d) && x.v == U32At(b, q)
    ensures HasNumbers(b, x)
  {
    hide U32At;
  }

  lemma EntriesIff(b: seq<u8>, at: nat, es: seq<HashEntry>, c: nat, end: nat)
    requires end == at + 8 * c <= |b|
    ensures |es| == c && EntriesListed(b, at, es) && Small(es) <==> es == WordPairs(DecodeWords(b[at..end]))
  {
    hide U32At;
    hide StoredAt;
    var part := b[at..at + 8 * c];
    var ws := DecodeWords(part);
    assert |ws| == 2 * c;
    forall j | 0 <= j < c
      ensures ws[2 * j] == U32At(b, at + 8 * j) && ws[2 * j + 1] == U32At(b, at + 4 + 8 * j)
      ensures StoredAt(b, at + 8 * j, ws[2 * j]) && StoredAt(b, at + 4 + 8 * j, ws[2 * j + 1])
    {
      WordOfPart(b, at, 8 * c, 2 * j);
      WordOfPart(b, at, 8 * c, 2 * j + 1);
    }
    if |es| == c && EntriesListed(b, at, es) && Small(es) {
      forall j | 0 <= j < c ensures es[j] == WordPairs(ws)[j] {
        BytesOfWord(b, at + 8 * j, es[j].0);
        BytesOfWord(b, at + 4 + 8 * j, es[j].1);
      }
    }
  }

  lemma WordOfPart(b: seq<u8>, at: nat, n: nat, k: nat)
    requires at + n <= |b| && 4 * k + 4 <= n
    ensures var ws := DecodeWords(b[at..at + n]);
            k < |ws| && ws[k] == U32At(b, at + 4 * k) && StoredAt(b, at + 4 * k, ws[k])
  {
    WordOfBytes(b, at + 4 * k);
    hide StoredAt;
  }

  lemma NumbersThere(b: seq<u8>, x: Numbers, es: seq<HashEntry>)
    requires TableThere(b, x, es)
    ensures HasNumbers(b, x)
  {
    hide U32At;
    hide StoredAt;
    hide Flags;
    BytesOfWord(b, 0, x.d);
    BytesOfWord(b, 4 + x.d, x.c);
    BytesOfWord(b, 8 + x.d, x.n);
    BytesOfWord(b, 12 + x.d, x.w);
    BytesOfWord(b, 16 + x.d + 4 * x.w, x.v);
  }

  lemma CountFlags(b: seq<u8>, at: nat, w: nat, end: nat)
    requires end == at + 4 * w <= |b|
    ensures PopCount(b[at..end]) == Count(Flags(b, at, 32 * w))
  {
    hide *;
    PopCountIs(b[at..end]);
    FlagsMoved(b, at, 4 * w);
  }

  lemma NumbersStored(b: seq<u8>, x: Numbers)
    requires HasNumbers(b, x)
    ensures x.d < U32_LIMIT && x.c < U32_LIMIT && x.n < U32_LIMIT && x.w < U32_LIMIT && x.v < U32_LIMIT
    ensures StoredAt(b, 0, x.d) && StoredAt(b, 4 + x.d, x.c) && StoredAt(b, 8 + x.d, x.n) && StoredAt(b, 12 + x.d, x.w)
    ensures StoredAt(b, 16 + x.d + 4 * x.w, x.v)
  {
    hide U32At;
    hide StoredAt;
    WordOfBytes(b, 0);
    WordOfBytes(b, 4 + x.d);
    WordOfBytes(b, 8 + x.d);
    WordOfBytes(b, 12 + x.d);
    WordOfBytes(b, 16 + x.d + 4 * x.w);
  }

  /** A table with these numbers is well formed exactly if its flags are counted right. */
  lemma ThereIff(b: seq<u8>, x: Numbers, es: seq<HashEntry>)
    requires HasNumbers(b, x)
    ensures TableThere(b, x, es)
            <==> PopCount(b[x.Flags()..x.Deleted()]) == x.c && es == WordPairs(DecodeWords(b[x.Entries()..x.End()]))
  {
    Positions(b, x);
    var p, q, at, end := x.Flags(), x.Deleted(), x.Entries(), x.End();
    hide *;
    NumbersStored(b, x);
    CountFlags(b, p, x.w, q);
    EntriesIff(b, at, es, x.c, end);
    ThereIs(b, x, es, p, at);
  }

  lemma Positions(b: seq<u8>, x: Numbers)
    requires HasNumbers(b, x)
    ensures x.Flags() == 16 + x.d && x.Deleted() == 16 + x.d + 4 * x.w && x.Entries() == 20 + x.d + 4 * x.w + 4 * x.v
    ensures x.End() == x.Entries() + 8 * x.c && x.End() + 4 <= |b|
  {
    hide U32At;
  }

  lemma ThereIs(b: seq<u8>, x: Numbers, es: seq<HashEntry>, p: nat, at: nat)
    requires p == 16 + x.d && at == 20 + x.d + 4 * x.w + 4 * x.v
    requires x.d < U32_LIMIT && x.c < U32_LIMIT && x.n < U32_LIMIT && x.w < U32_LIMIT && x.v < U32_LIMIT
    requires StoredAt(b, 0, x.d) && StoredAt(b, 4 + x.d, x.c) && StoredAt(b, 8 + x.d, x.n) && StoredAt(b, 12 + x.d, x.w)
    requires StoredAt(b, 16 + x.d + 4 * x.w, x.v) && 24 + x.d + 4 * x.w + 4 * x.v + 8 * x.c <= |b|
    ensures TableThere(b, x, es)
            <==> Count(Flags(b, p, 32 * x.w)) == x.c && |es| == x.c && EntriesListed(b, at, es) && Small(es)
  {
    hide StoredAt;
    hide EntriesListed;
    hide Count;
    hide Small;
  }

  /**
   * A table is read exactly if it is there: everything is inside the bytes, as many flags are set as there are entries, and
   * every entry has a name. The slots, and the entries that are deleted, do not matter.
   */
  lemma TableIff(b: seq<u8>, m: map<Name, nat>, rest: seq<u8>)
    ensures Parse(b) == Some(Taken(m, rest)) <==> exists x, es :: TableRead(b, x, es, m, rest)
  {
    hide *;
    if exists x, es :: TableRead(b, x, es, m, rest) {
      var x, es :| TableRead(b, x, es, m, rest);
      ReadParses(b, x, es, m, rest);
    }
    if Parse(b) == Some(Taken(m, rest)) {
      var x := ParsedNumbers(b);
      ParsedOutcome(b, x);
      OutcomeRead(b, x, m, rest);
    }
  }

  lemma ReadParses(b: seq<u8>, x: Numbers, es: seq<HashEntry>, m: map<Name, nat>, rest: seq<u8>)
    requires TableRead(b, x, es, m, rest)
    ensures Parse(b) == Some(Taken(m, rest))
  {
    ReadIs(b, x, es, m, rest);
    hide *;
    NumbersThere(b, x, es);
    ParsedOutcome(b, x);
    OutcomeThere(b, x, es, m, rest);
  }

  lemma ReadIs(b: seq<u8>, x: Numbers, es: seq<HashEntry>, m: map<Name, nat>, rest: seq<u8>)
    requires TableRead(b, x, es, m, rest)
    ensures TableThere(b, x, es) && x.End() + 4 <= |b| && rest == b[x.End() + 4..] && Collected(b[4..4 + x.d], es, m)
  {
    hide StoredAt;
    hide EntriesListed;
    hide Collected;
    assert 24 + x.d + 4 * x.w + 4 * x.v + 8 * x.c == x.End() + 4;
  }

  lemma OutcomeThere(b: seq<u8>, x: Numbers, es: seq<HashEntry>, m: map<Name, nat>, rest: seq<u8>)
    requires HasNumbers(b, x) && TableThere(b, x, es) && x.End() + 4 <= |b|
    requires rest == b[x.End() + 4..] && Collected(b[4..4 + x.d], es, m)
    ensures Outcome(b, x) == Some(Taken(m, rest))
  {
    Positions(b, x);
    var f, q, at, end, last, names := x.Flags(), x.Deleted(), x.Entries(), x.End(), x.End() + 4, 4 + x.d;
    OutcomeIs(b, x, f, q, at, end, last, names);
    hide *;
    ThereIff(b, x, es);
    CollectIff(b[4..names], es, m);
  }

  lemma OutcomeRead(b: seq<u8>, x: Numbers, m: map<Name, nat>, rest: seq<u8>)
    requires HasNumbers(b, x) && Outcome(b, x) == Some(Taken(m, rest))
    ensures exists es :: TableRead(b, x, es, m, rest)
  {
    var es := WordPairs(DecodeWords(b[x.Entries()..x.End()]));
    ThereIff(b, x, es);
    CollectIff(b[4..4 + x.d], es, m);
    hide TableThere;
    hide Collected;
    hide Collect;
    hide PopCount;
    hide WordPairs;
    hide DecodeWords;
    hide U32At;
    assert TableRead(b, x, es, m, rest);
  }

  // ---------------------------------------------------------------- the whole stream

  /**
   * The stream as it is read: version, signature and age; sixteen bytes of unique id in versions after 19990604; the table
   * of names; and the features up to the end.
   */
  ghost predicate InfoRead(b: seq<u8>, p: P.PdbiStream, x: Numbers, es: seq<HashEntry>, rest: seq<u8>) {
    var at := if 19990604 < p.version then 28 else 12;
    && at <= |b| && p.version < U32_LIMIT && p.signature < U32_LIMIT && p.age < U32_LIMIT
    && StoredAt(b, 0, p.version) && StoredAt(b, 4, p.signature) && StoredAt(b, 8, p.age)
    && p.uniqueId == (if 19990604 < p.version then Some(b[12..28]) else None)
    && TableRead(b[at..], x, es, p.names, rest) && WordsOf(rest, p.features)
  }

  lemma HeaderTaken(b: seq<u8>)
    ensures TakeWords(b, 3) == if |b| < 12 then None else Some(Taken([U32At(b, 0), U32At(b, 4), U32At(b, 8)], b[12..]))
  {
    hide U32At;
    assert b[0..] == b;
    TakeWordsAt(b, 0, 3);
    if 12 <= |b| {
      hide *;
      WordOfPart(b, 0, 12, 0);
      WordOfPart(b, 0, 12, 1);
      WordOfPart(b, 0, 12, 2);
      ThreeWords(b[0..12], U32At(b, 0), U32At(b, 4), U32At(b, 8));
    }
  }

  lemma ThreeWords(b: seq<u8>, u: nat, v: nat, w: nat)
    requires |b| == 12 && DecodeWords(b)[0] == u && DecodeWords(b)[1] == v && DecodeWords(b)[2] == w
    ensures DecodeWords(b) == [u, v, w]
  {
    hide U32At;
  }

  lemma UniqueIdTaken(b: seq<u8>, version: nat, at: nat)
    requires 12 <= |b| && at == if 19990604 < version then 28 else 12
    ensures P.TakeUniqueId(version, b[12..])
         == if |b| < at then None else Some(Taken(if 19990604 < version then Some(b[12..28]) else None, b[at..]))
  {
    TakeBytesAt(b, 12, 16);
    hide TakeBytes;
  }

  lemma InfoChain(b: seq<u8>)
    ensures TakeWords(b, 3) == None ==> P.Parse(b) == None
    ensures TakeWords(b, 3).Some? ==>
              var ws, r := TakeWords(b, 3).value.value, TakeWords(b, 3).value.rest;
              var id := P.TakeUniqueId(ws[0], r);
              P.Parse(b) == if id.None? || Parse(id.value.rest).None? then None else
                            Some(P.PdbiStream(ws[1], ws[0], ws[2], id.value.value, Parse(id.value.rest).value.value,
                                              DecodeWords(Parse(id.value.rest).value.rest)))
  {
    hide TakeWords;
    hide Parse;
    hide P.TakeUniqueId;
    hide DecodeWords;
  }

  lemma InfoSteps(b: seq<u8>, version: nat, at: nat)
    requires 12 <= |b| && version == U32At(b, 0) && at == if 19990604 < version then 28 else 12
    ensures P.Parse(b)
         == if |b| < at || Parse(b[at..]).None? then None else
            Some(P.PdbiStream(U32At(b, 4), version, U32At(b, 8), if 19990604 < version then Some(b[12..28]) else None,
                              Parse(b[at..]).value.value, DecodeWords(Parse(b[at..]).value.rest)))
  {
    hide *;
    HeaderTaken(b);
    UniqueIdTaken(b, version, at);
    InfoChain(b);
  }

  lemma InfoLong(b: seq<u8>)
    requires P.Parse(b).Some?
    ensures 12 <= |b|
  {
    hide *;
    HeaderTaken(b);
    InfoChain(b);
  }

  /** The stream is read exactly if it is there. */
  lemma InfoIff(b: seq<u8>, p: P.PdbiStream)
    ensures P.Parse(b) == Some(p) <==> exists x, es, rest :: InfoRead(b, p, x, es, rest)
  {
    hide *;
    if exists x, es, rest :: InfoRead(b, p, x, es, rest) {
      var x, es, rest :| InfoRead(b, p, x, es, rest);
      InfoReadParses(b, p, x, es, rest);
    }
    if P.Parse(b) == Some(p) {
      InfoParsed(b, p);
    }
  }

  lemma InfoReadParses(b: seq<u8>, p: P.PdbiStream, x: Numbers, es: seq<HashEntry>, rest: seq<u8>)
    requires InfoRead(b, p, x, es, rest)
    ensures P.Parse(b) == Some(p)
  {
    var at := if 19990604 < p.version then 28 else 12;
    BytesOfWord(b, 0, p.version);
    BytesOfWord(b, 4, p.signature);
    BytesOfWord(b, 8, p.age);
    InfoSteps(b, p.version, at);
    WordsIff(rest, p.features);
    var tail := b[at..];
    TableIff(tail, p.names, rest);
    hide U32At;
    hide StoredAt;
    hide DecodeWords;
    hide WordsOf;
    hide TableRead;
    hide Parse;
    hide P.Parse;
    assert Parse(tail) == Some(Taken(p.names, rest));
  }

  lemma InfoParsed(b: seq<u8>, p: P.PdbiStream)
    requires P.Parse(b) == Some(p)
    ensures exists x, es, rest :: InfoRead(b, p, x, es, rest)
  {
    hide *;
    InfoLong(b);
    var version := U32At(b, 0);
    var at := if 19990604 < version then 28 else 12;
    InfoSteps(b, version, at);
    var tail := b[at..];
    var rest := Parse(tail).value.rest;
    WordOfBytes(b, 0);
    WordOfBytes(b, 4);
    WordOfBytes(b, 8);
    WordsIff(rest, p.features);
    TableIff(tail, p.names, rest);
    var x, es :| TableRead(tail, x, es, p.names, rest);
    InfoNow(b, p, x, es, rest, at);
  }

  lemma InfoNow(b: seq<u8>, p: P.PdbiStream, x: Numbers, es: seq<HashEntry>, rest: seq<u8>, at: nat)
    requires at == (if 19990604 < p.version then 28 else 12) && 12 <= |b| && at <= |b|
    requires p.version < U32_LIMIT && p.signature < U32_LIMIT && p.age < U32_LIMIT
    requires StoredAt(b, 0, p.version) && StoredAt(b, 4, p.signature) && StoredAt(b, 8, p.age)
    requires p.uniqueId == if 19990604 < p.version then Some(b[12..28]) else None
    requires TableRead(b[at..], x, es, p.names, rest) && WordsOf(rest, p.features)
    ensures InfoRead(b, p, x, es, rest)
  {
    hide StoredAt;
    hide WordsOf;
    hide TableRead;
  }
}
