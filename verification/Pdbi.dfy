/** The PDB information stream (pdb/src/pdbi.rs). */
module Pdbi {
  import opened Bytes
  import opened Parsing
  import opened Names
  import opened NamesHash
  import N = NamedStreams

  const PDBI_VERSION_VC70_DEPRECATED: nat := 19990604

  /** Only newer versions store a unique id, which is sixteen bytes long. */
  predicate HasUniqueId(version: nat) {
    PDBI_VERSION_VC70_DEPRECATED < version
  }

  datatype PdbiStream = PdbiStream(signature: nat, version: nat, age: nat, uniqueId: Option<seq<u8>>,
                                   names: map<Name, nat>, features: seq<nat>)

  function TakeUniqueId(version: nat, b: seq<u8>): Option<Taken<Option<seq<u8>>>> {
    if !HasUniqueId(version) then Some(Taken(None, b)) else
    var id :- TakeBytes(b, 16);
    Some(Taken(Some(id.value), id.rest))
  }

  /** The rest of the stream lists features; a trailing part of a word is ignored. */
  function Parse(b: seq<u8>): Option<PdbiStream> {
    var header :- TakeWords(b, 3);
    var version, signature, age := header.value[0], header.value[1], header.value[2];
    var id :- TakeUniqueId(version, header.rest);
    var names :- N.Parse(id.rest);
    Some(PdbiStream(signature, version, age, id.value, names.value, DecodeWords(names.rest)))
  }

  predicate Fits(p: PdbiStream) {
    && AllU32([p.version, p.signature, p.age]) && AllU32(p.features)
    && (p.uniqueId.Some? ==> |p.uniqueId.value| == 16)
  }

  /** What is not stored: a unique id in a version that does not have one. */
  function Stored(p: PdbiStream): PdbiStream {
    if HasUniqueId(p.version) then p else p.(uniqueId := None)
  }

  /** The stream is written unless its version requires a unique id that is not there. */
  ghost function Encode(p: PdbiStream, hash: HashFn): Option<seq<u8>> {
    if HasUniqueId(p.version) && p.uniqueId.None? then None else
    var id := if HasUniqueId(p.version) then p.uniqueId.value else [];
    Some(EncodeWords([p.version, p.signature, p.age]) + (id + (N.Encode(N.ItemsOf(p.names), hash) + EncodeWords(p.features))))
  }

  /** The stream as it is stored. Versions after 19990604 have sixteen bytes of unique id before the names. */
  ghost predicate InfoStored(b: seq<u8>, p: PdbiStream, hash: HashFn) {
    var items := N.ItemsOf(p.names);
    var at := 12 + if 19990604 < p.version && p.uniqueId.Some? then |p.uniqueId.value| else 0;
    var end := at + |N.Encode(items, hash)|;
    && end + 4 * |p.features| == |b|
    && StoredAt(b, 0, p.version) && StoredAt(b, 4, p.signature) && StoredAt(b, 8, p.age)
    && (19990604 < p.version ==> p.uniqueId.Some? && b[12..at] == p.uniqueId.value)
    && b[at..end] == N.Encode(items, hash)
    && (forall k :: 0 <= k < |items| ==> N.CanLookUp(b[at..end], items, hash, k))
    && forall i :: 0 <= i < |p.features| ==> StoredAt(b, end + 4 * i, p.features[i])
  }

  lemma InfoLayout(p: PdbiStream, hash: HashFn)
    requires Encode(p, hash).Some?
    ensures InfoStored(Encode(p, hash).value, p, hash)
  {
    hide *;
    EncodeIs(p, hash);
    var b, items := Encode(p, hash).value, N.ItemsOf(p.names);
    var id := if HasUniqueId(p.version) then p.uniqueId.value else [];
    var table, words := N.Encode(items, hash), [p.version, p.signature, p.age];
    assert b == b[0..];
    NextField(b, 0, EncodeWords(words), id + (table + EncodeWords(p.features)));
    NextField(b, 12, id, table + EncodeWords(p.features));
    NextField(b, 12 + |id|, table, EncodeWords(p.features));
    N.AllFound(items, hash);
    InfoWords(b, p, 12 + |id| + |table|);
    InfoNow(b, p, hash, id);
  }

  lemma InfoWords(b: seq<u8>, p: PdbiStream, end: nat)
    requires 12 <= end <= |b| && b[0..12] == EncodeWords([p.version, p.signature, p.age]) && b[end..] == EncodeWords(p.features)
    ensures StoredAt(b, 0, p.version) && StoredAt(b, 4, p.signature) && StoredAt(b, 8, p.age)
    ensures end + 4 * |p.features| == |b| && forall i :: 0 <= i < |p.features| ==> StoredAt(b, end + 4 * i, p.features[i])
  {
    hide *;
    var words := [p.version, p.signature, p.age];
    WordsHere(b, 0, words, 0);
    WordsHere(b, 0, words, 1);
    WordsHere(b, 0, words, 2);
    assert b[end..] == b[end..end + 4 * |p.features|];
    forall i | 0 <= i < |p.features| ensures StoredAt(b, end + 4 * i, p.features[i]) {
      WordsHere(b, end, p.features, i);
    }
  }

  lemma InfoNow(b: seq<u8>, p: PdbiStream, hash: HashFn, id: seq<u8>)
    requires !HasUniqueId(p.version) || p.uniqueId.Some?
    requires id == if HasUniqueId(p.version) then p.uniqueId.value else []
    requires var items := N.ItemsOf(p.names);
             var at := 12 + |id|;
             var end := at + |N.Encode(items, hash)|;
             && end + 4 * |p.features| == |b|
             && StoredAt(b, 0, p.version) && StoredAt(b, 4, p.signature) && StoredAt(b, 8, p.age)
             && b[12..at] == id && b[at..end] == N.Encode(items, hash)
             && (forall k :: 0 <= k < |items| ==> N.CanLookUp(N.Encode(items, hash), items, hash, k))
             && forall i :: 0 <= i < |p.features| ==> StoredAt(b, end + 4 * i, p.features[i])
    ensures InfoStored(b, p, hash)
  {
    hide StoredAt;
    hide N.Encode;
    hide N.CanLookUp;
    hide N.ItemsOf;
  }

  /** The names are in a table of their own while the stream is edited; they are written in their order. */
  method ToBytes(p: PdbiStream, table: N.NamedStreams, hash: HashFn) returns (r: Option<seq<u8>>)
    requires table.names == p.names
    ensures r == Encode(p, hash) && (r.None? <==> 19990604 < p.version && p.uniqueId.None?)
    ensures r.Some? ==> InfoStored(r.value, p, hash)
  {
    hide InfoStored;
    var out := EncodeWords([p.version, p.signature, p.age]);
    ghost var head, id: seq<u8> := out, [];
    if HasUniqueId(p.version) {
      if p.uniqueId.None? {
        return None;
      }
      out, id := out + p.uniqueId.value, p.uniqueId.value;
    }
    assert out == head + id;
    out := table.ToBytes(out, hash);
    ghost var items := N.ItemsOf(p.names);
    out := out + EncodeWords(p.features);
    ConcatAssoc(head, id, N.Encode(items, hash));
    ConcatAssoc(head, id + N.Encode(items, hash), EncodeWords(p.features));
    ConcatAssoc(id, N.Encode(items, hash), EncodeWords(p.features));
    r := Some(out);
    InfoLayout(p, hash);
  }

  /** Parsing what was written gives the stream back, exactly when no name contains a NUL. */
  lemma RoundTrip(p: PdbiStream, hash: HashFn)
    requires Fits(p) && N.Fits(N.ItemsOf(p.names)) && Encode(p, hash).Some?
    ensures Parse(Encode(p, hash).value) == Some(Stored(p)) <==> forall n :: n in p.names ==> N.NulFree(n)
  {
    hide *;
    EncodeIs(p, hash);
    var items := N.ItemsOf(p.names);
    var id := if HasUniqueId(p.version) then p.uniqueId.value else [];
    var tail := EncodeWords(p.features);
    var rest := N.Encode(items, hash) + tail;
    TakeWordsOf([p.version, p.signature, p.age], id + rest);
    UniqueIdOf(p, id, rest);
    N.RoundTrip(p.names, hash, tail);
    N.KeepsRest(items, hash, tail);
    WordsRoundTripExact(p.features);
    ParseIs(p, id, rest, tail);
  }

  lemma EncodeIs(p: PdbiStream, hash: HashFn)
    ensures Encode(p, hash).Some? <==> !HasUniqueId(p.version) || p.uniqueId.Some?
    ensures Encode(p, hash).Some? ==>
              var id := if HasUniqueId(p.version) then p.uniqueId.value else [];
              Encode(p, hash).value == EncodeWords([p.version, p.signature, p.age])
                                       + (id + (N.Encode(N.ItemsOf(p.names), hash) + EncodeWords(p.features)))
    ensures Fits(p) ==> AllU32([p.version, p.signature, p.age]) && AllU32(p.features)
  {
  }

  lemma UniqueIdOf(p: PdbiStream, id: seq<u8>, rest: seq<u8>)
    requires Fits(p) && (HasUniqueId(p.version) ==> p.uniqueId.Some?)
    requires id == if HasUniqueId(p.version) then p.uniqueId.value else []
    ensures TakeUniqueId(p.version, id + rest) == Some(Taken(Stored(p).uniqueId, rest))
  {
    TakeBytesOf(id, rest);
    assert [] + rest == rest;
  }

  /** Parsing, once the parts before the names have been read. */
  lemma ParseIs(p: PdbiStream, id: seq<u8>, rest: seq<u8>, tail: seq<u8>)
    requires TakeWords(EncodeWords([p.version, p.signature, p.age]) + (id + rest), 3) == Some(Taken([p.version, p.signature, p.age], id + rest))
    requires TakeUniqueId(p.version, id + rest) == Some(Taken(Stored(p).uniqueId, rest))
    requires N.Parse(rest).Some? ==> N.Parse(rest).value.rest == tail
    requires DecodeWords(tail) == p.features
    ensures Parse(EncodeWords([p.version, p.signature, p.age]) + (id + rest)) == Some(Stored(p))
            <==> N.Parse(rest) == Some(Taken(p.names, tail))
  {
    hide N.Parse;
    hide TakeWords;
    hide TakeUniqueId;
    hide EncodeWords;
    hide DecodeWords;
  }
}
