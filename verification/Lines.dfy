/** Updating line data after the files of a module have been sorted (pdb/src/lines.rs, pdb/src/lines/checksum.rs). */
module Lines {
  import opened Bytes
  import opened NamesStream

  // ---------------------------------------------------------------- words in a buffer

  function PutU32(b: seq<u8>, at: nat, w: nat): (r: seq<u8>)
    requires at + 4 <= |b|
    ensures |r| == |b|
    ensures forall i :: 0 <= i < |b| && !(at <= i < at + 4) ==> r[i] == b[i]
    ensures r[at..at + 4] == EncodeU32(w)
  {
    var r := b[..at] + (EncodeU32(w) + b[at + 4..]);
    assert r[at..at + 4] == EncodeU32(w);
    r
  }

  lemma WordStored(b: seq<u8>, at: nat, w: nat)
    requires at + 4 <= |b| && w < U32_LIMIT && b[at..at + 4] == EncodeU32(w)
    ensures U32At(b, at) == w
  {
    hide *;
    WordHere(b, at, w);
    BytesOfWord(b, at, w);
  }

  // ---------------------------------------------------------------- file checksums

  /** A record of the checksums subsection: the name of a file, and a checksum of its contents. */
  datatype Checksum = Checksum(name: nat, kind: u8, bytes: seq<u8>)

  const CHECKSUM_HEADER_LEN: nat := 6

  predicate HasRecord(data: seq<u8>, at: nat) {
    at + CHECKSUM_HEADER_LEN <= |data| && at + CHECKSUM_HEADER_LEN + data[at + 4] as nat <= |data|
  }

  function RecordAt(data: seq<u8>, at: nat): Checksum
    requires HasRecord(data, at)
  {
    var end := at + CHECKSUM_HEADER_LEN + data[at + 4] as nat;
    Checksum(U32At(data, at), data[at + 5], data[at + CHECKSUM_HEADER_LEN..end])
  }

  /** The record at a file index, which is a byte offset. */
  function GetFile(data: seq<u8>, index: nat): Option<Checksum> {
    if HasRecord(data, index) then Some(RecordAt(data, index)) else None
  }

  /** Records are padded to four bytes; the last one may lack its padding. */
  function RecordEnd(data: seq<u8>, at: nat): (end: nat)
    requires HasRecord(data, at)
    ensures at + CHECKSUM_HEADER_LEN + data[at + 4] as nat <= end <= |data|
  {
    var len := CHECKSUM_HEADER_LEN + data[at + 4] as nat;
    var pad := (4 - len % 4) % 4;
    if at + len + pad <= |data| then at + len + pad else at + len
  }

  /** Where the records start, one after the other, and where the last one ends. */
  function RecordStarts(data: seq<u8>, at: nat): (r: seq<nat>)
    requires at <= |data|
    ensures 0 < |r| && r[0] == at
    decreases |data| - at
  {
    if HasRecord(data, at) then [at] + RecordStarts(data, RecordEnd(data, at)) else [at]
  }

  lemma {:induction false} StartsAre(data: seq<u8>, at: nat, k: nat)
    requires at <= |data| && k + 1 < |RecordStarts(data, at)|
    ensures var s := RecordStarts(data, at);
            at <= s[k] && HasRecord(data, s[k]) && s[k + 1] == RecordEnd(data, s[k])
    decreases |data| - at
  {
    if 0 < k {
      StartsAre(data, RecordEnd(data, at), k - 1);
    }
  }

  lemma {:induction false} StartsGrow(data: seq<u8>, j: nat, k: nat)
    requires j < k < |RecordStarts(data, 0)|
    ensures RecordStarts(data, 0)[j] < RecordStarts(data, 0)[k]
    decreases k - j
  {
    StartsAre(data, 0, k - 1);
    if j < k - 1 {
      StartsGrow(data, j, k - 1);
    }
  }

  /** The bytes of record `k` after its name has been mapped. */
  function NewRecord(data: seq<u8>, k: nat, remap: nat -> Option<nat>): (r: seq<u8>)
    requires k + 1 < |RecordStarts(data, 0)|
    ensures RecordStarts(data, 0)[k] + |r| == RecordStarts(data, 0)[k + 1]
  {
    StartsAre(data, 0, k);
    var s := RecordStarts(data, 0);
    var name := remap(U32At(data, s[k]));
    EncodeU32(if name.Some? then name.value else 0) + data[s[k] + 4..s[k + 1]]
  }

  /** The bytes of a new record: the mapped name, then the rest of the old record. */
  lemma NewRecordBytes(data: seq<u8>, k: nat, remap: nat -> Option<nat>)
    requires k + 1 < |RecordStarts(data, 0)|
    ensures var s, e, r := RecordStarts(data, 0)[k], RecordStarts(data, 0)[k + 1], NewRecord(data, k, remap);
            && s + 4 <= e <= |data| && r[4..] == data[s + 4..e]
            && (remap(U32At(data, s)).Some? ==> StoredAt(r, 0, remap(U32At(data, s)).value))
  {
    StartsAre(data, 0, k);
    hide RecordStarts;
    hide U32At;
  }

  /** A record: the name, the length of the checksum, its kind, and the checksum, padded to a multiple of four bytes. */
  lemma RecordLayout(pre: seq<u8>, name: nat, kind: u8, bytes: seq<u8>, pad: nat, rest: seq<u8>)
    requires name < U32_LIMIT && |bytes| < 0x100 && pad < 4 && (6 + |bytes| + pad) % 4 == 0
    ensures var record := EncodeU32(name) + [|bytes| as u8, kind] + bytes;
            var data := pre + (record + Zeros(pad) + rest);
            && GetFile(data, |pre|) == Some(Checksum(name, kind, bytes))
            && RecordEnd(data, |pre|) == |pre| + 6 + |bytes| + pad
  {
    var head := EncodeU32(name) + [|bytes| as u8, kind];
    var record := head + bytes;
    var data, at := pre + (record + Zeros(pad) + rest), |pre|;
    assert data[at + 4] == head[4] && data[at + 5] == head[5];
    assert data[at..at + 4] == EncodeU32(name);
    assert data[at + 6..at + 6 + |bytes|] == bytes;
    WordStored(data, at, name);
    PadIs(6 + |bytes|, pad);
  }

  lemma PadIs(len: nat, pad: nat)
    requires pad < 4 && (len + pad) % 4 == 0
    ensures (4 - len % 4) % 4 == pad
  {
  }

  predicate NamesMapped(data: seq<u8>, remap: nat -> Option<nat>, n: nat)
    requires n < |RecordStarts(data, 0)|
  {
    forall k :: 0 <= k < n ==>
      var s := RecordStarts(data, 0)[k];
      s + 4 <= |data| && remap(U32At(data, s)).Some?
  }

  /** Record `k` of the buffer is as it should be after its name has been mapped. */
  predicate RecordRenamed(data: seq<u8>, out: seq<u8>, remap: nat -> Option<nat>, k: nat) {
    && k + 1 < |RecordStarts(data, 0)|
    && RecordStarts(data, 0)[k] <= RecordStarts(data, 0)[k + 1] <= |out|
    && out[RecordStarts(data, 0)[k]..RecordStarts(data, 0)[k + 1]] == NewRecord(data, k, remap)
  }

  /** The first `n` names are mapped in place; everything else is as before. */
  predicate Renamed(data: seq<u8>, out: seq<u8>, remap: nat -> Option<nat>, n: nat) {
    && |out| == |data| && n < |RecordStarts(data, 0)| && NamesMapped(data, remap, n)
    && (forall k :: 0 <= k < n ==> RecordRenamed(data, out, remap, k))
    && (forall i :: RecordStarts(data, 0)[n] <= i < |data| ==> out[i] == data[i])
  }

  lemma NothingRenamed(data: seq<u8>, remap: nat -> Option<nat>)
    ensures Renamed(data, data, remap, 0)
  {
  }

  lemma RenameStep(data: seq<u8>, out: seq<u8>, remap: nat -> Option<nat>, n: nat)
    requires Renamed(data, out, remap, n) && n + 1 < |RecordStarts(data, 0)|
    requires var s := RecordStarts(data, 0)[n];
             s + 4 <= |data| && remap(U32At(data, s)).Some?
    ensures var s := RecordStarts(data, 0)[n];
            Renamed(data, PutU32(out, s, remap(U32At(data, s)).value), remap, n + 1)
  {
    var s := RecordStarts(data, 0);
    var out' := PutU32(out, s[n], remap(U32At(data, s[n])).value);
    StartsAre(data, 0, n);
    forall k | 0 <= k < n + 1 ensures RecordRenamed(data, out', remap, k) {
      if k < n {
        StillRenamed(data, out, remap, n, k);
      } else {
        NowRenamed(data, out, remap, n);
      }
    }
    hide RecordRenamed;
    hide RecordStarts;
  }

  /** Mapping a later name leaves a record as it is. */
  lemma StillRenamed(data: seq<u8>, out: seq<u8>, remap: nat -> Option<nat>, n: nat, k: nat)
    requires Renamed(data, out, remap, n) && k < n && n + 1 < |RecordStarts(data, 0)|
    requires RecordStarts(data, 0)[n] + 4 <= |data| && remap(U32At(data, RecordStarts(data, 0)[n])).Some?
    ensures var s := RecordStarts(data, 0)[n];
            RecordRenamed(data, PutU32(out, s, remap(U32At(data, s)).value), remap, k)
  {
    hide RecordStarts;
    hide NewRecord;
    hide NamesMapped;
    var s := RecordStarts(data, 0);
    assert RecordRenamed(data, out, remap, k);
    if k + 1 < n {
      StartsGrow(data, k + 1, n);
    }
    var out' := PutU32(out, s[n], remap(U32At(data, s[n])).value);
    assert out'[s[k]..s[k + 1]] == out[s[k]..s[k + 1]];
  }

  lemma NowRenamed(data: seq<u8>, out: seq<u8>, remap: nat -> Option<nat>, n: nat)
    requires Renamed(data, out, remap, n) && n + 1 < |RecordStarts(data, 0)|
    requires RecordStarts(data, 0)[n] + 4 <= |data| && remap(U32At(data, RecordStarts(data, 0)[n])).Some?
    ensures var s := RecordStarts(data, 0)[n];
            RecordRenamed(data, PutU32(out, s, remap(U32At(data, s)).value), remap, n)
  {
    hide NamesMapped;
    var s := RecordStarts(data, 0);
    StartsAre(data, 0, n);
    var out' := PutU32(out, s[n], remap(U32At(data, s[n])).value);
    assert out'[s[n]..s[n + 1]] == out'[s[n]..s[n] + 4] + out'[s[n] + 4..s[n + 1]];
    assert out'[s[n] + 4..s[n + 1]] == data[s[n] + 4..s[n + 1]];
  }

  /** Reads the record that starts at `at` in the untouched part of the buffer. */
  lemma SameRecord(data: seq<u8>, out: seq<u8>, at: nat)
    requires |out| == |data| && forall i :: at <= i < |data| ==> out[i] == data[i]
    ensures HasRecord(out, at) == HasRecord(data, at)
    ensures HasRecord(data, at) ==> RecordEnd(out, at) == RecordEnd(data, at) && U32At(out, at) == U32At(data, at)
  {
  }

  lemma NextStart(data: seq<u8>, n: nat)
    requires n < |RecordStarts(data, 0)|
    ensures RecordStarts(data, 0)[n] <= |data|
    ensures HasRecord(data, RecordStarts(data, 0)[n]) <==> n + 1 < |RecordStarts(data, 0)|
    ensures n + 1 < |RecordStarts(data, 0)| ==> RecordStarts(data, 0)[n + 1] == RecordEnd(data, RecordStarts(data, 0)[n])
  {
    NextStartFrom(data, 0, n);
  }

  lemma {:induction false} NextStartFrom(data: seq<u8>, at: nat, n: nat)
    requires at <= |data| && n < |RecordStarts(data, at)|
    ensures RecordStarts(data, at)[n] <= |data|
    ensures HasRecord(data, RecordStarts(data, at)[n]) <==> n + 1 < |RecordStarts(data, at)|
    ensures n + 1 < |RecordStarts(data, at)| ==> RecordStarts(data, at)[n + 1] == RecordEnd(data, RecordStarts(data, at)[n])
    decreases |data| - at
  {
    if 0 < n {
      NextStartFrom(data, RecordEnd(data, at), n - 1);
    }
  }

  lemma StepFacts(data: seq<u8>, out: seq<u8>, remap: nat -> Option<nat>, n: nat)
    requires Renamed(data, out, remap, n)
    ensures var s := RecordStarts(data, 0);
            && s[n] <= |data| == |out| && (HasRecord(out, s[n]) <==> n + 1 < |s|)
            && (n + 1 < |s| ==> s[n] + 6 <= |data| && s[n + 1] == RecordEnd(out, s[n]) && U32At(out, s[n]) == U32At(data, s[n]))
  {
    hide Renamed;
    UntouchedFrom(data, out, remap, n);
    NextStart(data, n);
    SameRecord(data, out, RecordStarts(data, 0)[n]);
  }

  lemma UntouchedFrom(data: seq<u8>, out: seq<u8>, remap: nat -> Option<nat>, n: nat)
    requires Renamed(data, out, remap, n)
    ensures n < |RecordStarts(data, 0)| && |out| == |data|
    ensures forall i :: RecordStarts(data, 0)[n] <= i < |data| ==> out[i] == data[i]
  {
  }

  /** Maps the names of all records in place, and notes where the records are. Fails at a name that is not mapped. */
  method RemapNames(data: seq<u8>, remap: nat -> Option<nat>) returns (ok: bool, out: seq<u8>, starts: seq<nat>)
    ensures ok ==> starts == RecordStarts(data, 0) && Renamed(data, out, remap, |starts| - 1)
    ensures !ok ==> !NamesMapped(data, remap, |RecordStarts(data, 0)| - 1)
  {
    hide *;
    var at: nat, n: nat := 0, 0;
    out, starts := data, [0];
    ghost var all := RecordStarts(data, 0);
    NothingRenamed(data, remap);
    NextStart(data, 0);
    StepFacts(data, out, remap, 0);
    while HasRecord(out, at)
      invariant n < |all| && starts == all[..n + 1] && at == all[n]
      invariant Renamed(data, out, remap, n)
      decreases |all| - n
    {
      StepFacts(data, out, remap, n);
      var name := remap(U32At(out, at));
      if name.None? {
        NotMapped(data, remap, n);
        return false, out, starts;
      }
      var end := RecordEnd(out, at);
      RenameStep(data, out, remap, n);
      out := PutU32(out, at, name.value);
      starts, at, n := starts + [end], end, n + 1;
    }
    StepFacts(data, out, remap, n);
    ok := true;
  }

  lemma NotMapped(data: seq<u8>, remap: nat -> Option<nat>, n: nat)
    requires n + 1 < |RecordStarts(data, 0)| && RecordStarts(data, 0)[n] + 4 <= |data|
    requires remap(U32At(data, RecordStarts(data, 0)[n])).None?
    ensures !NamesMapped(data, remap, |RecordStarts(data, 0)| - 1)
  {
  }

  // ---------------------------------------------------------------- rearranging the records

  /** What an index meant before, and what the record at its new place must be. */
  function Mapped(c: Checksum, remap: nat -> Option<nat>): Checksum {
    c.(name := if remap(c.name).Some? then remap(c.name).value else 0)
  }

  /** Names are 32-bit numbers. */
  ghost predicate MapsTo32(remap: nat -> Option<nat>) {
    forall n :: remap(n).Some? ==> remap(n).value < U32_LIMIT
  }

  /** The index pair leads to the same record before and after, with its name mapped. */
  predicate KeepsRecord(data: seq<u8>, out: seq<u8>, remap: nat -> Option<nat>, p: Pair) {
    GetFile(data, p.0).Some? && GetFile(out, p.1) == Some(Mapped(GetFile(data, p.0).value, remap))
  }

  /** A record means the same wherever it is. */
  lemma RecordMoves(data: seq<u8>, k: nat, remap: nat -> Option<nat>, out: seq<u8>, at: nat)
    requires MapsTo32(remap) && k + 1 < |RecordStarts(data, 0)|
    requires at + |NewRecord(data, k, remap)| <= |out| && out[at..at + |NewRecord(data, k, remap)|] == NewRecord(data, k, remap)
    ensures KeepsRecord(data, out, remap, (RecordStarts(data, 0)[k], at))
  {
    StartsAre(data, 0, k);
    var s, e := RecordStarts(data, 0)[k], RecordStarts(data, 0)[k + 1];
    var r := NewRecord(data, k, remap);
    var name := remap(U32At(data, s));
    var w := if name.Some? then name.value else 0;
    Moved(data, s, e, r, w, out, at);
  }

  lemma Moved(data: seq<u8>, s: nat, e: nat, r: seq<u8>, w: nat, out: seq<u8>, at: nat)
    requires HasRecord(data, s) && e == RecordEnd(data, s) && w < U32_LIMIT && r == EncodeU32(w) + data[s + 4..e]
    requires at + |r| <= |out| && out[at..at + |r|] == r
    ensures HasRecord(out, at) && RecordAt(out, at) == RecordAt(data, s).(name := w)
  {
    var n := data[s + 4] as nat;
    var d := data[s + 4..e];
    SliceInside(out, at, |r|, 0, 4);
    SliceInside(out, at, |r|, 6, n);
    TailSlice(EncodeU32(w), d, 2, 2 + n);
    SliceInside(data, s + 4, |d|, 2, n);
    assert r[0..4] == EncodeU32(w);
    assert out[at + 4] == out[at..at + |r|][4] == d[0] && out[at + 5] == out[at..at + |r|][5] == d[1];
    WordStored(out, at, w);
  }

  lemma TailSlice(a: seq<u8>, b: seq<u8>, i: nat, j: nat)
    requires i <= j <= |b|
    ensures (a + b)[|a| + i..|a| + j] == b[i..j]
  {
    var x := (a + b)[|a| + i..|a| + j];
    forall k | 0 <= k < j - i ensures x[k] == b[i..j][k] {
      assert x[k] == (a + b)[|a| + i + k];
    }
  }

  // ---------------------------------------------------------------- the new order

  lemma GetFileAppend(a: seq<u8>, b: seq<u8>, at: nat)
    requires GetFile(a, at).Some?
    ensures GetFile(a + b, at) == GetFile(a, at)
  {
    var end := at + CHECKSUM_HEADER_LEN + a[at + 4] as nat;
    SliceOfConcat(a, b, at + CHECKSUM_HEADER_LEN, end);
  }

  /** Every pair leads to the same record before and after. */
  predicate AllKept(data: seq<u8>, out: seq<u8>, remap: nat -> Option<nat>, pairs: seq<Pair>) {
    forall i :: 0 <= i < |pairs| ==> KeepsRecord(data, out, remap, pairs[i])
  }

  lemma KeptLonger(data: seq<u8>, a: seq<u8>, b: seq<u8>, remap: nat -> Option<nat>, pairs: seq<Pair>)
    requires AllKept(data, a, remap, pairs)
    ensures AllKept(data, a + b, remap, pairs)
  {
    forall i | 0 <= i < |pairs| ensures KeepsRecord(data, a + b, remap, pairs[i]) {
      assert KeepsRecord(data, a, remap, pairs[i]);
      GetFileAppend(a, b, pairs[i].1);
    }
  }

  function SizeOf(starts: seq<nat>, k: nat): int
    requires k + 1 < |starts|
  {
    starts[k + 1] as int - starts[k] as int
  }

  /** The total size of the chosen records. */
  function TotalOf(starts: seq<nat>, order: seq<nat>): int
    requires InOrder(order, |starts|)
  {
    if order == [] then 0 else
    TotalOf(starts, order[..|order| - 1]) + SizeOf(starts, order[|order| - 1])
  }

  predicate InOrder(order: seq<nat>, n: nat) {
    forall j :: 0 <= j < |order| ==> order[j] + 1 < n
  }

  /** The records in the given order, one after the other, with their names mapped. */
  function Permuted(data: seq<u8>, order: seq<nat>, remap: nat -> Option<nat>): seq<u8> {
    if order == [] then [] else
    var k := order[|order| - 1];
    Permuted(data, order[..|order| - 1], remap) + if k + 1 < |RecordStarts(data, 0)| then NewRecord(data, k, remap) else []
  }

  /** The pairs lead from each record to its place in the new order. */
  predicate PairsLead(data: seq<u8>, order: seq<nat>, remap: nat -> Option<nat>, pairs: seq<Pair>) {
    |pairs| == |order| && forall j :: 0 <= j < |order| ==>
      order[j] < |RecordStarts(data, 0)| && pairs[j] == (RecordStarts(data, 0)[order[j]], |Permuted(data, order[..j], remap)|)
  }

  lemma PermutedMore(data: seq<u8>, order: seq<nat>, remap: nat -> Option<nat>, j: nat)
    requires j < |order| && order[j] + 1 < |RecordStarts(data, 0)|
    ensures Permuted(data, order[..j + 1], remap) == Permuted(data, order[..j], remap) + NewRecord(data, order[j], remap)
  {
    assert order[..j + 1][..j] == order[..j];
  }

  lemma LeadMore(data: seq<u8>, order: seq<nat>, remap: nat -> Option<nat>, pairs: seq<Pair>, j: nat, at: nat)
    requires j < |order| && PairsLead(data, order[..j], remap, pairs) && order[j] < |RecordStarts(data, 0)|
    requires at == |Permuted(data, order[..j], remap)|
    ensures PairsLead(data, order[..j + 1], remap, pairs + [(RecordStarts(data, 0)[order[j]], at)])
  {
    hide Permuted;
    hide RecordStarts;
    var order' := order[..j + 1];
    forall i | 0 <= i < |order'| ensures order'[..i] == order[..i] {}
    forall i | 0 <= i < j ensures order[..j][..i] == order[..i] {}
  }

  lemma {:induction false} PermutedPrefix(data: seq<u8>, order: seq<nat>, remap: nat -> Option<nat>, j: nat)
    requires j <= |order|
    ensures Permuted(data, order[..j], remap) <= Permuted(data, order, remap)
    decreases |order|
  {
    if j == |order| {
      assert order[..j] == order;
    } else {
      var n := |order| - 1;
      assert order[..n][..j] == order[..j];
      PermutedPrefix(data, order[..n], remap, j);
    }
  }

  /** Record `j` of the new order is the record that the order names, with its name mapped. */
  lemma PermutedRecord(data: seq<u8>, order: seq<nat>, remap: nat -> Option<nat>, j: nat)
    requires InOrder(order, |RecordStarts(data, 0)|) && j < |order|
    ensures var out, at, r := Permuted(data, order, remap), |Permuted(data, order[..j], remap)|, NewRecord(data, order[j], remap);
            at + |r| == |Permuted(data, order[..j + 1], remap)| <= |out| && out[at..at + |r|] == r
  {
    hide Permuted;
    hide RecordStarts;
    var out, part, r := Permuted(data, order, remap), Permuted(data, order[..j], remap), NewRecord(data, order[j], remap);
    PermutedMore(data, order, remap, j);
    PermutedPrefix(data, order, remap, j + 1);
    assert out[..|part + r|] == part + r;
    assert out[|part|..|part + r|] == (part + r)[|part|..];
  }

  lemma PermuteStep(data: seq<u8>, renamed: seq<u8>, remap: nat -> Option<nat>, k: nat, out: seq<u8>, pairs: seq<Pair>)
    requires MapsTo32(remap) && k + 1 < |RecordStarts(data, 0)| && Renamed(data, renamed, remap, |RecordStarts(data, 0)| - 1)
    requires AllKept(data, out, remap, pairs)
    ensures var s := RecordStarts(data, 0);
            && s[k] <= s[k + 1] <= |renamed|
            && AllKept(data, out + renamed[s[k]..s[k + 1]], remap, pairs + [(s[k], |out|)])
            && renamed[s[k]..s[k + 1]] == NewRecord(data, k, remap)
  {
    var s := RecordStarts(data, 0);
    assert RecordRenamed(data, renamed, remap, k);
    var r := renamed[s[k]..s[k + 1]];
    KeptLonger(data, out, r, remap, pairs);
    assert (out + r)[|out|..|out| + |r|] == r;
    RecordMoves(data, k, remap, out + r, |out|);
    var all := pairs + [(s[k], |out|)];
    forall i | 0 <= i < |all| ensures KeepsRecord(data, out + r, remap, all[i]) {
      if i < |pairs| {
        assert KeepsRecord(data, out + r, remap, pairs[i]);
      }
    }
  }

  /** The pairs follow the order: old start, new start. */
  predicate PairsFollow(starts: seq<nat>, order: seq<nat>, pairs: seq<Pair>) {
    |pairs| == |order| && forall j :: 0 <= j < |order| ==> order[j] < |starts| && pairs[j].0 == starts[order[j]]
  }

  predicate NewBelow(pairs: seq<Pair>, n: nat) {
    forall i :: 0 <= i < |pairs| ==> pairs[i].1 <= n
  }

  /**
   * Puts the records in the given order, and notes for each where it was and where it is now. Anything but an order of records of
   * the same total size is a panic of the original.
   */
  method PermuteRecords(ghost data: seq<u8>, renamed: seq<u8>, ghost remap: nat -> Option<nat>, starts: seq<nat>, order: seq<nat>)
    returns (ok: bool, out: seq<u8>, pairs: seq<Pair>)
    requires MapsTo32(remap) && starts == RecordStarts(data, 0) && Renamed(data, renamed, remap, |starts| - 1)
    ensures ok <==> InOrder(order, |starts|) && TotalOf(starts, order) == |renamed|
    ensures ok ==> out == Permuted(data, order, remap) && PairsLead(data, order, remap, pairs)
    ensures ok ==> |out| == |renamed| && AllKept(data, out, remap, pairs) && PairsFollow(starts, order, pairs) && NewBelow(pairs, |out|)
  {
    hide *;
    out, pairs := [], [];
    PermuteStart(data, remap, starts);
    assert order[..0] == [];
    for j := 0 to |order|
      invariant InOrder(order[..j], |starts|) && TotalOf(starts, order[..j]) == |out|
      invariant AllKept(data, out, remap, pairs) && PairsFollow(starts, order[..j], pairs) && NewBelow(pairs, |out|)
      invariant out == Permuted(data, order[..j], remap) && PairsLead(data, order[..j], remap, pairs)
    {
      var p := order[j];
      if |starts| <= p + 1 {
        NotInOrder(order, |starts|, j);
        return false, out, pairs;
      }
      PermuteStep(data, renamed, remap, p, out, pairs);
      PermutedMore(data, order, remap, j);
      LeadMore(data, order, remap, pairs, j, |out|);
      OrderStep(starts, order, pairs, j, |out|);
      BelowMore(pairs, (starts[p], |out|), |out|, |out| + |renamed[starts[p]..starts[p + 1]]|);
      pairs := pairs + [(starts[p], |out|)];
      out := out + renamed[starts[p]..starts[p + 1]];
    }
    assert order[..|order|] == order;
    ok := |out| == |renamed|;
  }

  lemma PermuteStart(data: seq<u8>, remap: nat -> Option<nat>, starts: seq<nat>)
    ensures Permuted(data, [], remap) == [] && PairsLead(data, [], remap, [])
    ensures AllKept(data, [], remap, []) && PairsFollow(starts, [], []) && NewBelow([], 0)
    ensures InOrder([], |starts|) && TotalOf(starts, []) == 0
  {
  }

  lemma NotInOrder(order: seq<nat>, n: nat, j: nat)
    requires j < |order| && n <= order[j] + 1
    ensures !InOrder(order, n)
  {
  }

  lemma OrderStep(starts: seq<nat>, order: seq<nat>, pairs: seq<Pair>, j: nat, at: nat)
    requires j < |order| && InOrder(order[..j], |starts|) && order[j] + 1 < |starts| && PairsFollow(starts, order[..j], pairs)
    ensures InOrder(order[..j + 1], |starts|) && PairsFollow(starts, order[..j + 1], pairs + [(starts[order[j]], at)])
    ensures TotalOf(starts, order[..j + 1]) == TotalOf(starts, order[..j]) + SizeOf(starts, order[j])
    ensures SizeOf(starts, order[j]) == starts[order[j] + 1] as int - starts[order[j]] as int
  {
    assert order[..j + 1][..j] == order[..j];
  }

  lemma BelowMore(pairs: seq<Pair>, p: Pair, at: nat, n: nat)
    requires NewBelow(pairs, at) && p.1 == at <= n
    ensures NewBelow(pairs + [p], n)
  {
  }

  /** Where the records of the new order start, and where the last one ends. */
  function Places(data: seq<u8>, order: seq<nat>, remap: nat -> Option<nat>): (r: seq<nat>)
    ensures |r| == |order| + 1 && forall j :: 0 <= j <= |order| ==> r[j] == |Permuted(data, order[..j], remap)|
  {
    seq(|order| + 1, j requires 0 <= j <= |order| => |Permuted(data, order[..j], remap)|)
  }

  lemma PlacesEnds(data: seq<u8>, order: seq<nat>, remap: nat -> Option<nat>)
    ensures Places(data, order, remap)[0] == 0 && Places(data, order, remap)[|order|] == |Permuted(data, order, remap)|
  {
    assert order[..0] == [] && order[..|order|] == order;
  }

  /** The record at a place ends where the next one starts, if it is padded or the last one, and nowhere else. */
  lemma PlaceEnds(data: seq<u8>, order: seq<nat>, remap: nat -> Option<nat>, j: nat)
    requires MapsTo32(remap) && InOrder(order, |RecordStarts(data, 0)|) && j < |order|
    ensures var out, at, next := Permuted(data, order, remap), Places(data, order, remap)[j], Places(data, order, remap)[j + 1];
            && at < next <= |out| && next == at + |NewRecord(data, order[j], remap)| && HasRecord(out, at)
            && (RecordEnd(out, at) == next <==> |NewRecord(data, order[j], remap)| % 4 == 0 || j == |order| - 1)
  {
    hide *;
    var out, at, k := Permuted(data, order, remap), Places(data, order, remap)[j], order[j];
    OrderAt(order, |RecordStarts(data, 0)|, j);
    PermutedRecord(data, order, remap, j);
    RecordMoves(data, k, remap, out, at);
    SameLength(data, k, remap, out, at);
    BehindPlace(data, order, remap, j);
  }

  /** Behind the last place there is nothing, and behind any other one there is a record. */
  lemma BehindPlace(data: seq<u8>, order: seq<nat>, remap: nat -> Option<nat>, j: nat)
    requires InOrder(order, |RecordStarts(data, 0)|) && j < |order|
    ensures var out, next := Permuted(data, order, remap), Places(data, order, remap)[j + 1];
            if j == |order| - 1 then next == |out| else next + 6 <= |out|
  {
    hide *;
    PlacesEnds(data, order, remap);
    if j < |order| - 1 {
      OrderAt(order, |RecordStarts(data, 0)|, j + 1);
      PermutedRecord(data, order, remap, j + 1);
      LongRecord(data, order[j + 1], remap);
    }
  }

  lemma OrderAt(order: seq<nat>, n: nat, j: nat)
    requires InOrder(order, n) && j < |order|
    ensures order[j] + 1 < n
  {
  }

  lemma LongRecord(data: seq<u8>, k: nat, remap: nat -> Option<nat>)
    requires k + 1 < |RecordStarts(data, 0)|
    ensures 6 <= |NewRecord(data, k, remap)|
  {
    hide RecordStarts;
    StartsAre(data, 0, k);
  }

  /** The padding of a record that has moved: it is there, unless the record was at the end of the data without it. */
  lemma SameLength(data: seq<u8>, k: nat, remap: nat -> Option<nat>, out: seq<u8>, at: nat)
    requires k + 1 < |RecordStarts(data, 0)| && KeepsRecord(data, out, remap, (RecordStarts(data, 0)[k], at))
    requires at + |NewRecord(data, k, remap)| <= |out|
    ensures HasRecord(out, at) && 0 < |NewRecord(data, k, remap)|
    ensures var size := |NewRecord(data, k, remap)|;
            && (size % 4 == 0 ==> RecordEnd(out, at) == at + size)
            && (size % 4 != 0 && |out| == at + size ==> RecordEnd(out, at) == at + size)
            && (size % 4 != 0 && at + size + 4 <= |out| ==> RecordEnd(out, at) != at + size)
  {
    hide RecordStarts;
    StartsAre(data, 0, k);
    var s := RecordStarts(data, 0)[k];
    assert |RecordAt(out, at).bytes| == |RecordAt(data, s).bytes|;
  }

  lemma {:induction false} StartsFrom(data: seq<u8>, order: seq<nat>, remap: nat -> Option<nat>, j: nat)
    requires MapsTo32(remap) && InOrder(order, |RecordStarts(data, 0)|) && j <= |order|
    requires forall i :: j <= i < |order| - 1 ==> |NewRecord(data, order[i], remap)| % 4 == 0
    ensures Places(data, order, remap)[j] <= |Permuted(data, order, remap)|
    ensures RecordStarts(Permuted(data, order, remap), Places(data, order, remap)[j]) == Places(data, order, remap)[j..]
    decreases |order| - j
  {
    hide *;
    var out, places := Permuted(data, order, remap), Places(data, order, remap);
    PlacesEnds(data, order, remap);
    if j < |order| {
      PlaceEnds(data, order, remap, j);
      StartsStep(out, places[j]);
      StartsFrom(data, order, remap, j + 1);
      assert places[j..] == [places[j]] + places[j + 1..];
    } else {
      StartsStep(out, places[j]);
      assert places[j..] == [places[j]];
    }
  }

  lemma StartsStep(data: seq<u8>, at: nat)
    requires at <= |data|
    ensures at == |data| ==> RecordStarts(data, at) == [at]
    ensures HasRecord(data, at) ==> RecordStarts(data, at) == [at] + RecordStarts(data, RecordEnd(data, at))
  {
  }

  /**
   * The new subsection is read as the records in the given order, exactly if every record is padded, or comes last. A
   * last record without its padding that is moved forward shifts all records behind it.
   */
  lemma PermutedReads(data: seq<u8>, order: seq<nat>, remap: nat -> Option<nat>)
    requires MapsTo32(remap) && InOrder(order, |RecordStarts(data, 0)|)
    ensures RecordStarts(Permuted(data, order, remap), 0) == Places(data, order, remap) <==>
              forall j :: 0 <= j < |order| - 1 ==> |NewRecord(data, order[j], remap)| % 4 == 0
  {
    hide *;
    var out, places := Permuted(data, order, remap), Places(data, order, remap);
    PlacesEnds(data, order, remap);
    OrderInside(order, |RecordStarts(data, 0)|);
    if forall j :: 0 <= j < |order| - 1 ==> |NewRecord(data, order[j], remap)| % 4 == 0 {
      StartsFrom(data, order, remap, 0);
      assert places[0..] == places;
    } else if RecordStarts(out, 0) == places {
      var j :| 0 <= j < |order| - 1 && |NewRecord(data, order[j], remap)| % 4 != 0;
      NextStart(out, j);
      PlaceEnds(data, order, remap, j);
      assert false;
    }
  }

  lemma OrderInside(order: seq<nat>, n: nat)
    requires InOrder(order, n)
    ensures forall j :: 0 <= j < |order| ==> order[j] + 1 < n
  {
  }

  /** A permutation of the records has their total size. */
  lemma {:induction false} TotalOfPermutation(starts: seq<nat>, order: seq<nat>)
    requires |order| < |starts| && InOrder(order, |order| + 1)
    requires forall i, j :: 0 <= i < j < |order| ==> order[i] != order[j]
    ensures InOrder(order, |starts|) && TotalOf(starts, order) == starts[|order|] as int - starts[0] as int
    decreases |order|
  {
    if order != [] {
      hide TotalOf;
      var n := |order| - 1;
      var i := IndexOf(order, n);
      var a, b := order[..i], order[i + 1..];
      WithoutGreatest(order, i);
      TotalOfPermutation(starts, a + b);
      TotalMoves(starts, a, n, b);
    } else {
      assert TotalOf(starts, order) == 0;
    }
  }

  /** What remains of a permutation without its greatest number is a permutation. */
  lemma WithoutGreatest(order: seq<nat>, i: nat)
    requires i < |order| && order[i] == |order| - 1 && InOrder(order, |order| + 1)
    requires forall i, j :: 0 <= i < j < |order| ==> order[i] != order[j]
    ensures var a, b := order[..i], order[i + 1..];
            && order == a + ([order[i]] + b) && InOrder(a + b, |order|)
            && forall i, j :: 0 <= i < j < |a + b| ==> (a + b)[i] != (a + b)[j]
  {
    var rest := order[..i] + order[i + 1..];
    forall j | 0 <= j < |rest| ensures rest[j] == order[if j < i then j else j + 1] {}
  }

  /** A permutation of the first numbers contains the greatest of them. */
  lemma {:induction false} IndexOf(order: seq<nat>, n: nat) returns (i: nat)
    requires |order| == n + 1 && InOrder(order, n + 2)
    requires forall i, j :: 0 <= i < j < |order| ==> order[i] != order[j]
    ensures i < |order| && order[i] == n
  {
    if n !in order {
      TooMany(order, n);
    }
    i :| 0 <= i < |order| && order[i] == n;
  }

  lemma {:induction false} TooMany(order: seq<nat>, n: nat)
    requires n < |order| && forall j :: 0 <= j < |order| ==> order[j] < n
    requires forall i, j :: 0 <= i < j < |order| ==> order[i] != order[j]
    ensures false
    decreases n
  {
    if i :| 0 <= i < |order| && order[i] == n - 1 {
      var rest := order[..i] + order[i + 1..];
      assert forall j :: 0 <= j < |rest| ==> rest[j] == order[if j < i then j else j + 1];
      if 0 < n - 1 || 0 < |rest| {
        TooMany(rest, n - 1);
      }
    } else {
      assert order[0] < n;
      TooMany(order, n - 1);
    }
  }

  lemma {:induction false} TotalMoves(starts: seq<nat>, a: seq<nat>, x: nat, b: seq<nat>)
    requires InOrder(a + b, |starts|) && x + 1 < |starts|
    ensures InOrder(a + ([x] + b), |starts|)
    ensures TotalOf(starts, a + ([x] + b)) == TotalOf(starts, a + b) + SizeOf(starts, x)
    decreases |b|
  {
    var all := a + ([x] + b);
    forall j | 0 <= j < |all| ensures all[j] + 1 < |starts| {
      if j != |a| {
        assert all[j] == (a + b)[if j < |a| then j else j - 1];
      }
    }
    if b == [] {
      assert a + b == a && all[..|all| - 1] == a;
    } else {
      var m := |b| - 1;
      assert (a + b)[..|a + b| - 1] == a + b[..m] && all[..|all| - 1] == a + ([x] + b[..m]);
      assert InOrder(a + b[..m], |starts|) by {
        assert forall j :: 0 <= j < |a + b[..m]| ==> (a + b[..m])[j] == (a + b)[j];
      }
      TotalMoves(starts, a, x, b[..m]);
    }
  }

  // ---------------------------------------------------------------- line blocks

  const CONTRIBUTION_LEN: nat := 12
  const BLOCK_HEADER_LEN: nat := 12

  predicate HasBlock(data: seq<u8>, at: nat) {
    && at + BLOCK_HEADER_LEN <= |data| && BLOCK_HEADER_LEN <= U32At(data, at + 8)
    && at + U32At(data, at + 8) <= |data|
  }

  /** Where the blocks start. The iteration ends at the first block that is not well formed. */
  function Blocks(data: seq<u8>, at: nat): seq<nat>
    decreases |data| - at
  {
    if HasBlock(data, at) then [at] + Blocks(data, at + U32At(data, at + 8)) else []
  }

  /** A block starts with its file index, and has its size in the third word. */
  lemma BlockLayout(data: seq<u8>, at: nat, index: nat, size: nat)
    requires index < U32_LIMIT && BLOCK_HEADER_LEN <= size < U32_LIMIT && at + size <= |data|
    requires StoredAt(data, at, index) && StoredAt(data, at + 8, size)
    ensures HasBlock(data, at) && U32At(data, at) == index && Blocks(data, at) == [at] + Blocks(data, at + size)
  {
    hide U32At;
    hide StoredAt;
    BytesOfWord(data, at, index);
    BytesOfWord(data, at + 8, size);
  }

  /** The byte belongs to the file index of one of the blocks. */
  predicate InIndex(blocks: seq<nat>, i: nat) {
    exists k :: 0 <= k < |blocks| && blocks[k] <= i < blocks[k] + 4
  }

  lemma {:induction false} BlocksFrom(data: seq<u8>, at: nat)
    ensures forall k :: 0 <= k < |Blocks(data, at)| ==> at <= Blocks(data, at)[k] && Blocks(data, at)[k] + BLOCK_HEADER_LEN <= |data|
    decreases |data| - at
  {
    if HasBlock(data, at) {
      BlocksFrom(data, at + U32At(data, at + 8));
    }
  }

  /** Rewriting file indexes leaves the blocks where they are. */
  lemma {:induction false} BlocksStay(data: seq<u8>, out: seq<u8>, at: nat)
    requires |out| == |data|
    requires forall i :: at <= i < |data| ==> out[i] == data[i] || InIndex(Blocks(data, at), i)
    ensures Blocks(out, at) == Blocks(data, at)
    decreases |data| - at
  {
    hide InIndex;
    if at + BLOCK_HEADER_LEN <= |data| {
      SizeStays(data, out, at);
      hide U32At;
      if HasBlock(data, at) {
        var next := at + U32At(data, at + 8);
        forall i | next <= i < |data| ensures out[i] == data[i] || InIndex(Blocks(data, next), i) {
          if out[i] != data[i] {
            InNextIndex(data, at, i);
          }
        }
        BlocksStay(data, out, next);
      }
    }
  }

  lemma InNextIndex(data: seq<u8>, at: nat, i: nat)
    requires HasBlock(data, at) && at + U32At(data, at + 8) <= i && InIndex(Blocks(data, at), i)
    ensures InIndex(Blocks(data, at + U32At(data, at + 8)), i)
  {
    hide U32At;
    var next := at + U32At(data, at + 8);
    var k :| 0 <= k < |Blocks(data, at)| && Blocks(data, at)[k] <= i < Blocks(data, at)[k] + 4;
    assert Blocks(data, next)[k - 1] == Blocks(data, at)[k];
  }

  lemma SizeStays(data: seq<u8>, out: seq<u8>, at: nat)
    requires |out| == |data| && at + BLOCK_HEADER_LEN <= |data|
    requires forall i :: at <= i < |data| ==> out[i] == data[i] || InIndex(Blocks(data, at), i)
    ensures U32At(out, at + 8) == U32At(data, at + 8)
  {
    assert forall i :: at + 8 <= i < at + 12 ==> out[i] == data[i] by {
      forall i | at + 8 <= i < at + 12 ensures !InIndex(Blocks(data, at), i) {
        NotInIndex(data, at, i);
      }
      hide *;
    }
    hide InIndex;
    hide Blocks;
  }

  /** A block starts with its file index; the rest of its header is not a file index. */
  lemma NotInIndex(data: seq<u8>, at: nat, i: nat)
    requires at + 4 <= i < at + BLOCK_HEADER_LEN <= |data|
    ensures !InIndex(Blocks(data, at), i)
  {
    hide U32At;
    if HasBlock(data, at) {
      var next := at + U32At(data, at + 8);
      BlocksFrom(data, next);
      forall k | 0 <= k < |Blocks(data, at)| ensures !(Blocks(data, at)[k] <= i < Blocks(data, at)[k] + 4) {
        if 0 < k {
          assert Blocks(data, at)[k] == Blocks(data, next)[k - 1];
        }
      }
    }
  }

  /** Every block has the new index for its old one, and nothing else has changed. */
  ghost predicate BlocksRewritten(data: seq<u8>, out: seq<u8>, pairs: seq<Pair>) {
    && |out| == |data| && Blocks(out, CONTRIBUTION_LEN) == Blocks(data, CONTRIBUTION_LEN)
    && (forall i :: 0 <= i < |data| ==> out[i] == data[i] || InIndex(Blocks(data, CONTRIBUTION_LEN), i))
    && (forall k :: 0 <= k < |Blocks(data, CONTRIBUTION_LEN)| ==> IndexMapped(data, out, pairs, Blocks(data, CONTRIBUTION_LEN)[k]))
  }

  predicate IndexMapped(data: seq<u8>, out: seq<u8>, pairs: seq<Pair>, at: nat) {
    at + 4 <= |data| && at + 4 <= |out| && (U32At(data, at), U32At(out, at)) in pairs
  }

  /** The blocks before `at` have been rewritten. */
  ghost predicate RewrittenUpTo(data: seq<u8>, out: seq<u8>, pairs: seq<Pair>, done: seq<nat>, at: nat) {
    && |out| == |data| && CONTRIBUTION_LEN <= at && Blocks(data, CONTRIBUTION_LEN) == done + Blocks(data, at)
    && (forall k :: 0 <= k < |done| ==> done[k] + 4 <= at && IndexMapped(data, out, pairs, done[k]))
    && (forall i :: 0 <= i < |data| ==> out[i] == data[i] || InIndex(done, i))
    && (forall i :: at <= i < |data| ==> out[i] == data[i])
  }

  lemma RewriteStep(data: seq<u8>, out: seq<u8>, pairs: seq<Pair>, done: seq<nat>, at: nat, w: nat)
    requires RewrittenUpTo(data, out, pairs, done, at) && HasBlock(data, at)
    requires w < U32_LIMIT && (U32At(data, at), w) in pairs
    ensures RewrittenUpTo(data, PutU32(out, at, w), pairs, done + [at], at + U32At(data, at + 8))
  {
    ConcatAssoc(done, [at], Blocks(data, at + U32At(data, at + 8)));
    RewriteIndexes(data, out, pairs, done, at, w);
    RewriteOthers(data, out, pairs, done, at, w);
    hide U32At;
    hide IndexMapped;
    hide InIndex;
  }

  /** The new index is one that the old one may be mapped to; those before it are still there. */
  lemma RewriteIndexes(data: seq<u8>, out: seq<u8>, pairs: seq<Pair>, done: seq<nat>, at: nat, w: nat)
    requires RewrittenUpTo(data, out, pairs, done, at) && HasBlock(data, at)
    requires w < U32_LIMIT && (U32At(data, at), w) in pairs
    ensures forall k :: 0 <= k < |done + [at]| ==>
              (done + [at])[k] + 4 <= at + U32At(data, at + 8) && IndexMapped(data, PutU32(out, at, w), pairs, (done + [at])[k])
  {
    hide Blocks;
    hide InIndex;
    var out', done' := PutU32(out, at, w), done + [at];
    WordStored(out', at, w);
    forall k | 0 <= k < |done'| ensures done'[k] + 4 <= at + U32At(data, at + 8) && IndexMapped(data, out', pairs, done'[k]) {
      if k < |done| {
        assert IndexMapped(data, out, pairs, done[k]);
        assert U32At(out', done[k]) == U32At(out, done[k]);
      }
    }
  }

  lemma RewriteOthers(data: seq<u8>, out: seq<u8>, pairs: seq<Pair>, done: seq<nat>, at: nat, w: nat)
    requires RewrittenUpTo(data, out, pairs, done, at) && HasBlock(data, at)
    ensures |PutU32(out, at, w)| == |data|
    ensures forall i :: 0 <= i < |data| ==> PutU32(out, at, w)[i] == data[i] || InIndex(done + [at], i)
    ensures forall i :: at + U32At(data, at + 8) <= i < |data| ==> PutU32(out, at, w)[i] == data[i]
  {
    hide Blocks;
    hide U32At;
    var out', done' := PutU32(out, at, w), done + [at];
    BlockLength(data, at);
    forall i | 0 <= i < |data| ensures out'[i] == data[i] || InIndex(done', i) {
      if at <= i < at + 4 {
        assert done'[|done|] == at;
      } else if out[i] != data[i] {
        var k :| 0 <= k < |done| && done[k] <= i < done[k] + 4;
        assert done'[k] == done[k];
      }
    }
  }

  lemma BlockLength(data: seq<u8>, at: nat)
    requires HasBlock(data, at)
    ensures at + 12 <= |data| && 4 <= U32At(data, at + 8)
  {
  }

  lemma RewriteEnd(data: seq<u8>, out: seq<u8>, pairs: seq<Pair>, done: seq<nat>, at: nat)
    requires RewrittenUpTo(data, out, pairs, done, at) && !HasBlock(data, at)
    ensures BlocksRewritten(data, out, pairs)
  {
    assert done + [] == done;
    BlocksStay(data, out, CONTRIBUTION_LEN);
  }

  lemma RewriteStart(data: seq<u8>, pairs: seq<Pair>)
    ensures RewrittenUpTo(data, data, pairs, [], CONTRIBUTION_LEN)
  {
    assert [] + Blocks(data, CONTRIBUTION_LEN) == Blocks(data, CONTRIBUTION_LEN);
  }

  lemma SameBlock(data: seq<u8>, out: seq<u8>, pairs: seq<Pair>, done: seq<nat>, at: nat)
    requires RewrittenUpTo(data, out, pairs, done, at)
    ensures |out| == |data| && (HasBlock(out, at) <==> HasBlock(data, at))
    ensures HasBlock(data, at) ==>
              && at + 12 <= |data| && U32At(out, at) == U32At(data, at) && U32At(out, at + 8) == U32At(data, at + 8)
              && 12 <= U32At(data, at + 8) && at + U32At(data, at + 8) <= |data|
    ensures HasBlock(data, at) ==> at in Blocks(data, CONTRIBUTION_LEN)
  {
    if HasBlock(data, at) {
      assert Blocks(data, at)[0] == at;
      assert (done + Blocks(data, at))[|done|] == at;
    }
  }

  predicate Fits32(pairs: seq<Pair>) {
    forall p :: p in pairs ==> p.1 < U32_LIMIT
  }

  /** Rewrites the file index of every block. Fails at an index without a new one. */
  method RewriteBlocks(data: seq<u8>, pairs: seq<Pair>) returns (ok: bool, out: seq<u8>)
    requires SortedByOld(pairs) && Fits32(pairs)
    ensures ok ==> BlocksRewritten(data, out, pairs)
    ensures !ok ==> exists b :: b in Blocks(data, CONTRIBUTION_LEN) && b + 4 <= |data| && forall p :: p in pairs ==> p.0 != U32At(data, b)
  {
    hide *;
    out := data;
    var at := CONTRIBUTION_LEN;
    ghost var done: seq<nat> := [];
    RewriteStart(data, pairs);
    SameBlock(data, out, pairs, done, at);
    while HasBlock(out, at)
      invariant RewrittenUpTo(data, out, pairs, done, at)
      decreases |data| - at
    {
      SameBlock(data, out, pairs, done, at);
      var found := FindByOld(pairs, U32At(out, at));
      if found.None? {
        return false, out;
      }
      var size := U32At(out, at + 8);
      PairFits(pairs, (U32At(out, at), found.value));
      RewriteStep(data, out, pairs, done, at, found.value);
      out := PutU32(out, at, found.value);
      done := done + [at];
      at := at + size;
    }
    SameBlock(data, out, pairs, done, at);
    RewriteEnd(data, out, pairs, done, at);
    ok := true;
  }

  lemma PairFits(pairs: seq<Pair>, p: Pair)
    requires Fits32(pairs) && p in pairs
    ensures p.1 < U32_LIMIT
  {
  }

  // ---------------------------------------------------------------- the whole line data

  const LINES: nat := 0xf2
  const FILE_CHECKSUMS: nat := 0xf4

  datatype Subsection = Subsection(kind: nat, data: seq<u8>)

  datatype FixupResult = Done | NameNotFound | NotAnOrder | TruncatedLines | UnknownFile

  predicate OnlyChecksums(subs: seq<Subsection>, c: nat) {
    && c < |subs| && subs[c].kind == FILE_CHECKSUMS
    && forall j :: 0 <= j < |subs| && j != c ==> subs[j].kind != FILE_CHECKSUMS
  }

  predicate SameShape(subs: seq<Subsection>, out: seq<Subsection>) {
    |out| == |subs| && forall j :: 0 <= j < |subs| ==> out[j].kind == subs[j].kind && |out[j].data| == |subs[j].data|
  }

  /** After the first pass over the first `i` subsections. */
  ghost predicate ChecksumsDone(subs: seq<Subsection>, out: seq<Subsection>, i: nat, pairs: seq<Pair>, remap: nat -> Option<nat>) {
    && SameShape(subs, out) && SortedByOld(pairs) && Fits32(pairs)
    && (forall j :: 0 <= j < |subs| && (i <= j || subs[j].kind != FILE_CHECKSUMS) ==> out[j] == subs[j])
    && (forall c: nat :: OnlyChecksums(subs, c) && i <= c ==> pairs == [])
    && (forall c: nat :: OnlyChecksums(subs, c) && c < i ==> AllKept(subs[c].data, out[c].data, remap, pairs))
  }

  lemma ChecksumsStart(subs: seq<Subsection>, remap: nat -> Option<nat>)
    ensures ChecksumsDone(subs, subs, 0, [], remap)
  {
  }

  lemma ChecksumsSkip(subs: seq<Subsection>, out: seq<Subsection>, i: nat, pairs: seq<Pair>, remap: nat -> Option<nat>)
    requires ChecksumsDone(subs, out, i, pairs, remap) && i < |subs| && subs[i].kind != FILE_CHECKSUMS
    ensures ChecksumsDone(subs, out, i + 1, pairs, remap)
  {
  }

  lemma SortedKept(data: seq<u8>, out: seq<u8>, remap: nat -> Option<nat>, pairs: seq<Pair>, sorted: seq<Pair>)
    requires AllKept(data, out, remap, pairs) && multiset(sorted) == multiset(pairs)
    ensures AllKept(data, out, remap, sorted)
  {
    forall i | 0 <= i < |sorted| ensures KeepsRecord(data, out, remap, sorted[i]) {
      assert sorted[i] in multiset(pairs);
      var k :| 0 <= k < |pairs| && pairs[k] == sorted[i];
    }
  }

  lemma ChecksumsStep(subs: seq<Subsection>, out: seq<Subsection>, i: nat, pairs: seq<Pair>, remap: nat -> Option<nat>,
                      data: seq<u8>, added: seq<Pair>, sorted: seq<Pair>)
    requires ChecksumsDone(subs, out, i, pairs, remap) && i < |subs| && subs[i].kind == FILE_CHECKSUMS
    requires |data| == |subs[i].data| < U32_LIMIT && AllKept(subs[i].data, data, remap, added) && NewBelow(added, |data|)
    requires SortedByOld(sorted) && multiset(sorted) == multiset(pairs + added)
    ensures ChecksumsDone(subs, out[i := Subsection(FILE_CHECKSUMS, data)], i + 1, sorted, remap)
  {
    hide AllKept;
    hide NewBelow;
    hide SortedByOld;
    hide Fits32;
    StillFits(pairs, added, sorted, |data|);
    forall c: nat | OnlyChecksums(subs, c) && c < i + 1
      ensures AllKept(subs[c].data, out[i := Subsection(FILE_CHECKSUMS, data)][c].data, remap, sorted)
    {
      assert c == i && pairs == [] && [] + added == added;
      SortedKept(subs[i].data, data, remap, added, sorted);
    }
  }

  lemma StillFits(pairs: seq<Pair>, added: seq<Pair>, sorted: seq<Pair>, n: nat)
    requires Fits32(pairs) && NewBelow(added, n) && n < U32_LIMIT && multiset(sorted) == multiset(pairs + added)
    ensures Fits32(sorted)
  {
    forall p | p in sorted ensures p.1 < U32_LIMIT {
      assert p in multiset(pairs + added);
      var k :| 0 <= k < |pairs + added| && (pairs + added)[k] == p;
      if k < |pairs| {
        assert pairs[k] == p;
      } else {
        assert added[k - |pairs|] == p;
      }
    }
  }

  /** After the second pass over the first `i` subsections. */
  ghost predicate LinesDone(mid: seq<Subsection>, out: seq<Subsection>, i: nat, pairs: seq<Pair>) {
    && SameShape(mid, out)
    && (forall j :: 0 <= j < |mid| && (i <= j || mid[j].kind != LINES) ==> out[j] == mid[j])
    && (forall j :: 0 <= j < |mid| && j < i && mid[j].kind == LINES ==>
          CONTRIBUTION_LEN <= |mid[j].data| && BlocksRewritten(mid[j].data, out[j].data, pairs))
  }

  /**
   * The meaning of the line data: with one checksums subsection, every line block refers to the same record as before,
   * whose name is mapped; nothing else of a lines subsection changes, and no other subsection changes at all.
   */
  ghost predicate MeaningKept(subs: seq<Subsection>, out: seq<Subsection>, remap: nat -> Option<nat>) {
    && SameShape(subs, out)
    && (forall j :: 0 <= j < |subs| && subs[j].kind != FILE_CHECKSUMS && subs[j].kind != LINES ==> out[j] == subs[j])
    && (forall j :: 0 <= j < |subs| && subs[j].kind == LINES ==> OnlyIndexesChanged(subs[j].data, out[j].data))
    && (forall c: nat, j, k | OnlyChecksums(subs, c) && IsBlock(subs, j, k) ::
          BlockKept(subs, out, remap, c, j, Blocks(subs[j].data, CONTRIBUTION_LEN)[k]))
  }

  /** Block `k` of subsection `j`. */
  predicate IsBlock(subs: seq<Subsection>, j: int, k: int) {
    0 <= j < |subs| && subs[j].kind == LINES && 0 <= k < |Blocks(subs[j].data, CONTRIBUTION_LEN)|
  }

  ghost predicate OnlyIndexesChanged(data: seq<u8>, out: seq<u8>) {
    && |out| == |data| && Blocks(out, CONTRIBUTION_LEN) == Blocks(data, CONTRIBUTION_LEN)
    && forall i :: 0 <= i < |data| ==> out[i] == data[i] || InIndex(Blocks(data, CONTRIBUTION_LEN), i)
  }

  predicate BlockKept(subs: seq<Subsection>, out: seq<Subsection>, remap: nat -> Option<nat>, c: nat, j: nat, at: nat) {
    && c < |subs| && j < |subs| && |out| == |subs| && at + 4 <= |subs[j].data| && at + 4 <= |out[j].data|
    && KeepsRecord(subs[c].data, out[c].data, remap, (U32At(subs[j].data, at), U32At(out[j].data, at)))
  }

  lemma LinesStart(mid: seq<Subsection>, pairs: seq<Pair>)
    ensures LinesDone(mid, mid, 0, pairs)
  {
  }

  lemma LinesSkip(mid: seq<Subsection>, out: seq<Subsection>, i: nat, pairs: seq<Pair>)
    requires LinesDone(mid, out, i, pairs) && i < |mid| && mid[i].kind != LINES
    ensures LinesDone(mid, out, i + 1, pairs)
  {
  }

  lemma LinesStep(mid: seq<Subsection>, out: seq<Subsection>, i: nat, pairs: seq<Pair>, data: seq<u8>)
    requires LinesDone(mid, out, i, pairs) && i < |mid| && mid[i].kind == LINES && CONTRIBUTION_LEN <= |mid[i].data|
    requires BlocksRewritten(mid[i].data, data, pairs)
    ensures LinesDone(mid, out[i := Subsection(LINES, data)], i + 1, pairs)
  {
  }

  lemma BothPasses(subs: seq<Subsection>, mid: seq<Subsection>, out: seq<Subsection>, pairs: seq<Pair>, remap: nat -> Option<nat>)
    requires ChecksumsDone(subs, mid, |subs|, pairs, remap) && LinesDone(mid, out, |mid|, pairs)
    ensures MeaningKept(subs, out, remap)
  {
    forall c: nat, j, k | OnlyChecksums(subs, c) && IsBlock(subs, j, k)
      ensures BlockKept(subs, out, remap, c, j, Blocks(subs[j].data, CONTRIBUTION_LEN)[k])
    {
      var at := Blocks(subs[j].data, CONTRIBUTION_LEN)[k];
      assert mid[j] == subs[j] && out[c] == mid[c];
      assert IndexMapped(subs[j].data, out[j].data, pairs, at);
      var i :| 0 <= i < |pairs| && pairs[i] == (U32At(subs[j].data, at), U32At(out[j].data, at));
      assert KeepsRecord(subs[c].data, out[c].data, remap, pairs[i]);
    }
  }

  /** The records of every checksums subsection are in the given order. */
  ghost predicate Rearranged(order: seq<nat>, remap: nat -> Option<nat>, subs: seq<Subsection>, out: seq<Subsection>, i: nat) {
    i <= |subs| == |out| && forall c :: 0 <= c < i && subs[c].kind == FILE_CHECKSUMS ==> out[c].data == Permuted(subs[c].data, order, remap)
  }

  lemma RearrangedStart(order: seq<nat>, remap: nat -> Option<nat>, subs: seq<Subsection>)
    ensures Rearranged(order, remap, subs, subs, 0)
  {
  }

  lemma RearrangedStep(order: seq<nat>, remap: nat -> Option<nat>, subs: seq<Subsection>, out: seq<Subsection>, i: nat, data: seq<u8>)
    requires i < |subs| && Rearranged(order, remap, subs, out, i)
    ensures subs[i].kind != FILE_CHECKSUMS ==> Rearranged(order, remap, subs, out, i + 1)
    ensures data == Permuted(subs[i].data, order, remap) ==>
              Rearranged(order, remap, subs, out[i := Subsection(FILE_CHECKSUMS, data)], i + 1)
  {
    hide Permuted;
  }

  lemma StillRearranged(order: seq<nat>, remap: nat -> Option<nat>, subs: seq<Subsection>, mid: seq<Subsection>, out: seq<Subsection>,
                        pairs: seq<Pair>)
    requires Rearranged(order, remap, subs, mid, |subs|) && SameShape(subs, mid) && LinesDone(mid, out, |mid|, pairs)
    ensures Rearranged(order, remap, subs, out, |subs|)
  {
    hide Permuted;
  }

  /** Two passes: first the checksums, then the line blocks. */
  method FixupC13LineData(order: seq<nat>, remap: nat -> Option<nat>, subs: seq<Subsection>) returns (r: FixupResult, out: seq<Subsection>)
    requires MapsTo32(remap) && forall j :: 0 <= j < |subs| ==> |subs[j].data| < U32_LIMIT
    ensures r.Done? ==> MeaningKept(subs, out, remap) && Rearranged(order, remap, subs, out, |subs|)
    ensures !r.Done? ==> forall c: nat :: !Consistent(order, remap, subs, c)
  {
    hide *;
    var pairs: seq<Pair>;
    r, out, pairs := FixupChecksums(order, remap, subs);
    if !r.Done? {
      return;
    }
    ghost var mid := out;
    SortedAndSmall(subs, mid, pairs, remap);
    r, out := FixupLines(out, pairs);
    if r.Done? {
      BothPasses(subs, mid, out, pairs, remap);
      StillRearranged(order, remap, subs, mid, out, pairs);
    } else {
      LinesFail(order, remap, subs, mid, pairs);
    }
  }

  /**
   * The order is a permutation of the records, which fill the subsection; every name is mapped, and every block refers
   * to a record. Then the update does not fail.
   */
  ghost predicate Consistent(order: seq<nat>, remap: nat -> Option<nat>, subs: seq<Subsection>, c: nat) {
    && OnlyChecksums(subs, c) && RecordsOrdered(order, remap, subs[c].data)
    && forall j :: 0 <= j < |subs| && subs[j].kind == LINES ==> LinesFit(subs[j].data, subs[c].data)
  }

  ghost predicate RecordsOrdered(order: seq<nat>, remap: nat -> Option<nat>, data: seq<u8>) {
    var s := RecordStarts(data, 0);
    && s[|s| - 1] == |data| && NamesMapped(data, remap, |s| - 1)
    && |order| == |s| - 1 && InOrder(order, |s|) && forall i, j :: 0 <= i < j < |order| ==> order[i] != order[j]
  }

  ghost predicate LinesFit(data: seq<u8>, checksums: seq<u8>) {
    && CONTRIBUTION_LEN <= |data|
    && forall b :: b in Blocks(data, CONTRIBUTION_LEN) ==> b + 4 <= |data| && IsRecord(checksums, U32At(data, b))
  }

  predicate IsRecord(data: seq<u8>, index: nat) {
    exists k :: 0 <= k < |RecordStarts(data, 0)| - 1 && RecordStarts(data, 0)[k] == index
  }

  /** There is a new index for every record. */
  ghost predicate Covers(data: seq<u8>, pairs: seq<Pair>) {
    forall k :: 0 <= k < |RecordStarts(data, 0)| - 1 ==> exists p :: p in pairs && p.0 == RecordStarts(data, 0)[k]
  }

  ghost predicate AllCovered(order: seq<nat>, remap: nat -> Option<nat>, subs: seq<Subsection>, i: nat, pairs: seq<Pair>) {
    forall c: nat :: Consistent(order, remap, subs, c) && c < i ==> Covers(subs[c].data, pairs)
  }

  lemma ChecksumsFail(order: seq<nat>, remap: nat -> Option<nat>, subs: seq<Subsection>, i: nat)
    requires i < |subs| && subs[i].kind == FILE_CHECKSUMS && !RecordsOrdered(order, remap, subs[i].data)
    ensures forall c: nat :: !Consistent(order, remap, subs, c)
  {
  }

  lemma OrderFails(order: seq<nat>, remap: nat -> Option<nat>, data: seq<u8>)
    requires var s := RecordStarts(data, 0); !(InOrder(order, |s|) && TotalOf(s, order) == |data|)
    ensures !RecordsOrdered(order, remap, data)
  {
    if RecordsOrdered(order, remap, data) {
      TotalOfPermutation(RecordStarts(data, 0), order);
    }
  }

  lemma NamesFail(order: seq<nat>, remap: nat -> Option<nat>, data: seq<u8>)
    requires !NamesMapped(data, remap, |RecordStarts(data, 0)| - 1)
    ensures !RecordsOrdered(order, remap, data)
  {
  }

  /** A permutation reaches every record. */
  lemma PermutationReaches(order: seq<nat>, k: nat)
    requires k < |order| && InOrder(order, |order| + 1) && forall i, j :: 0 <= i < j < |order| ==> order[i] != order[j]
    ensures k in order
  {
    if k !in order {
      var n := |order|;
      var rest := seq(n, j requires 0 <= j < n => if k < order[j] then order[j] - 1 else order[j]);
      forall i, j | 0 <= i < j < n ensures rest[i] != rest[j] {
        assert order[i] != k && order[j] != k;
      }
      TooMany(rest, n - 1);
    }
  }

  lemma CoveredStep(order: seq<nat>, remap: nat -> Option<nat>, subs: seq<Subsection>, i: nat,
                    added: seq<Pair>, sorted: seq<Pair>, pairs: seq<Pair>)
    requires i < |subs| && subs[i].kind == FILE_CHECKSUMS && multiset(sorted) == multiset(pairs + added)
    requires PairsFollow(RecordStarts(subs[i].data, 0), order, added)
    ensures AllCovered(order, remap, subs, i + 1, sorted)
  {
    forall c: nat | Consistent(order, remap, subs, c) && c < i + 1 ensures Covers(subs[c].data, sorted) {
      assert c == i;
      CoversAll(order, remap, subs[i].data, added, sorted, pairs);
    }
  }

  lemma CoversAll(order: seq<nat>, remap: nat -> Option<nat>, data: seq<u8>, added: seq<Pair>, sorted: seq<Pair>, pairs: seq<Pair>)
    requires RecordsOrdered(order, remap, data) && multiset(sorted) == multiset(pairs + added)
    requires PairsFollow(RecordStarts(data, 0), order, added)
    ensures Covers(data, sorted)
  {
    var s := RecordStarts(data, 0);
    forall k | 0 <= k < |s| - 1 ensures exists p :: p in sorted && p.0 == s[k] {
      PermutationReaches(order, k);
      var j :| 0 <= j < |order| && order[j] == k;
      assert (pairs + added)[|pairs| + j] == added[j];
      assert added[j] in multiset(sorted);
    }
  }

  lemma CoveredSkip(order: seq<nat>, remap: nat -> Option<nat>, subs: seq<Subsection>, i: nat, pairs: seq<Pair>)
    requires i < |subs| && subs[i].kind != FILE_CHECKSUMS && AllCovered(order, remap, subs, i, pairs)
    ensures AllCovered(order, remap, subs, i + 1, pairs)
  {
  }

  lemma CoveredStart(order: seq<nat>, remap: nat -> Option<nat>, subs: seq<Subsection>)
    ensures AllCovered(order, remap, subs, 0, [])
  {
  }

  /** If every record has a new index, the second pass can only fail on blocks that refer to no record. */
  lemma LinesFail(order: seq<nat>, remap: nat -> Option<nat>, subs: seq<Subsection>, mid: seq<Subsection>, pairs: seq<Pair>)
    requires ChecksumsDone(subs, mid, |subs|, pairs, remap) && AllCovered(order, remap, subs, |subs|, pairs)
    requires exists j :: 0 <= j < |mid| && mid[j].kind == LINES
                         && (|mid[j].data| < CONTRIBUTION_LEN || HasUnknownFile(mid[j].data, pairs))
    ensures forall c: nat :: !Consistent(order, remap, subs, c)
  {
    var j :| 0 <= j < |mid| && mid[j].kind == LINES
             && (|mid[j].data| < CONTRIBUTION_LEN || HasUnknownFile(mid[j].data, pairs));
    forall c: nat ensures !Consistent(order, remap, subs, c) {
      if Consistent(order, remap, subs, c) {
        assert mid[j] == subs[j];
        NoUnknownFile(subs[j].data, subs[c].data, pairs);
      }
    }
  }

  lemma NoUnknownFile(data: seq<u8>, checksums: seq<u8>, pairs: seq<Pair>)
    requires LinesFit(data, checksums) && Covers(checksums, pairs)
    ensures CONTRIBUTION_LEN <= |data| && !HasUnknownFile(data, pairs)
  {
  }

  lemma SortedAndSmall(subs: seq<Subsection>, mid: seq<Subsection>, pairs: seq<Pair>, remap: nat -> Option<nat>)
    requires ChecksumsDone(subs, mid, |subs|, pairs, remap)
    ensures SortedByOld(pairs) && Fits32(pairs) && |mid| == |subs| && SameShape(subs, mid)
  {
  }

  method FixupChecksums(order: seq<nat>, remap: nat -> Option<nat>, subs: seq<Subsection>)
    returns (r: FixupResult, out: seq<Subsection>, pairs: seq<Pair>)
    requires MapsTo32(remap) && forall j :: 0 <= j < |subs| ==> |subs[j].data| < U32_LIMIT
    ensures r == Done || r == NameNotFound || r == NotAnOrder
    ensures r.Done? ==> ChecksumsDone(subs, out, |subs|, pairs, remap) && AllCovered(order, remap, subs, |subs|, pairs)
    ensures r.Done? ==> Rearranged(order, remap, subs, out, |subs|)
    ensures !r.Done? ==> forall c: nat :: !Consistent(order, remap, subs, c)
  {
    hide *;
    out, pairs := subs, [];
    ChecksumsStart(subs, remap);
    CoveredStart(order, remap, subs);
    RearrangedStart(order, remap, subs);
    for i := 0 to |subs|
      invariant |out| == |subs| && ChecksumsDone(subs, out, i, pairs, remap) && AllCovered(order, remap, subs, i, pairs)
      invariant Rearranged(order, remap, subs, out, i)
    {
      if subs[i].kind == FILE_CHECKSUMS {
        var ok, renamed, starts := RemapNames(subs[i].data, remap);
        if !ok {
          NamesFail(order, remap, subs[i].data);
          ChecksumsFail(order, remap, subs, i);
          return NameNotFound, out, pairs;
        }
        RenamedLength(subs[i].data, renamed, remap);
        var ordered, data, added := PermuteRecords(subs[i].data, renamed, remap, starts, order);
        if !ordered {
          OrderFails(order, remap, subs[i].data);
          ChecksumsFail(order, remap, subs, i);
          return NotAnOrder, out, pairs;
        }
        var sorted := SortPairs(pairs + added);
        ChecksumsStep(subs, out, i, pairs, remap, data, added, sorted);
        CoveredStep(order, remap, subs, i, added, sorted, pairs);
        RearrangedStep(order, remap, subs, out, i, data);
        out, pairs := out[i := Subsection(FILE_CHECKSUMS, data)], sorted;
      } else {
        ChecksumsSkip(subs, out, i, pairs, remap);
        CoveredSkip(order, remap, subs, i, pairs);
        RearrangedStep(order, remap, subs, out, i, []);
      }
    }
    r := Done;
  }

  lemma RenamedLength(data: seq<u8>, out: seq<u8>, remap: nat -> Option<nat>)
    requires Renamed(data, out, remap, |RecordStarts(data, 0)| - 1)
    ensures |out| == |data|
  {
  }

  method FixupLines(mid: seq<Subsection>, pairs: seq<Pair>) returns (r: FixupResult, out: seq<Subsection>)
    requires SortedByOld(pairs) && Fits32(pairs)
    ensures r == Done || r == TruncatedLines || r == UnknownFile
    ensures r.Done? ==> LinesDone(mid, out, |mid|, pairs)
    ensures r.TruncatedLines? ==> exists j :: 0 <= j < |mid| && mid[j].kind == LINES && |mid[j].data| < CONTRIBUTION_LEN
    ensures r.UnknownFile? ==> exists j :: 0 <= j < |mid| && mid[j].kind == LINES && HasUnknownFile(mid[j].data, pairs)
  {
    hide *;
    out := mid;
    LinesStart(mid, pairs);
    for i := 0 to |mid|
      invariant |out| == |mid| && LinesDone(mid, out, i, pairs)
    {
      if mid[i].kind == LINES {
        if |mid[i].data| < CONTRIBUTION_LEN {
          return TruncatedLines, out;
        }
        var ok, data := RewriteBlocks(mid[i].data, pairs);
        if !ok {
          UnknownFound(mid[i].data, pairs);
          return UnknownFile, out;
        }
        LinesStep(mid, out, i, pairs, data);
        out := out[i := Subsection(LINES, data)];
      } else {
        LinesSkip(mid, out, i, pairs);
      }
    }
    r := Done;
  }

  /** Some block refers to a file that is not a record. */
  predicate HasUnknownFile(data: seq<u8>, pairs: seq<Pair>) {
    exists b :: b in Blocks(data, CONTRIBUTION_LEN) && b + 4 <= |data| && forall p :: p in pairs ==> p.0 != U32At(data, b)
  }

  lemma UnknownFound(data: seq<u8>, pairs: seq<Pair>)
    requires exists b :: b in Blocks(data, CONTRIBUTION_LEN) && b + 4 <= |data| && forall p :: p in pairs ==> p.0 != U32At(data, b)
    ensures HasUnknownFile(data, pairs)
  {
  }
}
