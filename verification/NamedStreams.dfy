/** The table of named streams in the PDB information stream (pdb/src/pdbi.rs). */
module NamedStreams {
  import opened Bytes
  import opened Parsing
  import opened Probing
  import opened Names
  import opened NamesHash

  /** A name and the stream that it stands for. */
  datatype Item = Item(name: Name, stream: nat)

  type HashEntry = (nat, nat)

  // ---------------------------------------------------------------- the names

  /** Every name with its NUL, one after the other. */
  function NameData(items: seq<Item>): seq<u8> {
    if items == [] then [] else NameData(items[..|items| - 1]) + (items[|items| - 1].name + [0])
  }

  function NameOffset(items: seq<Item>, k: nat): nat
    requires k <= |items|
  {
    |NameData(items[..k])|
  }

  predicate NulFree(s: Name) {
    forall i :: 0 <= i < |s| ==> s[i] != 0
  }

  lemma NameDataStep(items: seq<Item>, k: nat)
    requires k < |items|
    ensures NameData(items[..k + 1]) == NameData(items[..k]) + (items[k].name + [0])
  {
    assert items[..k + 1][..k] == items[..k];
  }

  lemma {:induction false} NameDataPrefix(items: seq<Item>, k: nat)
    requires k <= |items|
    ensures NameData(items[..k]) <= NameData(items)
    decreases |items| - k
  {
    if k == |items| {
      assert items[..k] == items;
    } else {
      NameDataPrefix(items, k + 1);
      NameDataStep(items, k);
    }
  }

  lemma NameInside(a: seq<u8>, name: Name, data: seq<u8>)
    requires a + (name + [0]) <= data && NulFree(name)
    ensures GetString(data, |a|) == Some(name)
  {
    var part := a + (name + [0]);
    assert data[..|part|] == part;
    assert part[|a|..|a| + |name|] == name && part[|a| + |name|] == 0;
    forall i | |a| <= i < |a| + |name| ensures data[i] != 0 {
      assert data[i] == name[i - |a|];
    }
    EndIs(data, |a|, |a| + |name|);
    assert data[|a|..|a| + |name|] == part[|a|..|a| + |name|];
  }

  /** The offset of a name leads to the name. */
  lemma NameAtOffset(items: seq<Item>, k: nat)
    requires k < |items| && NulFree(items[k].name)
    ensures GetString(NameData(items), NameOffset(items, k)) == Some(items[k].name)
  {
    NameDataStep(items, k);
    NameDataPrefix(items, k + 1);
    NameInside(NameData(items[..k]), items[k].name, NameData(items));
  }

  /** The names are in the data in order, each with its NUL. */
  lemma NameBytes(items: seq<Item>, k: nat)
    requires k < |items|
    ensures NameOffset(items, 0) == 0 && NameOffset(items, k + 1) == NameOffset(items, k) + |items[k].name| + 1
    ensures NameOffset(items, |items|) == |NameData(items)| && NameOffset(items, k + 1) <= |NameData(items)|
    ensures var data, at := NameData(items), NameOffset(items, k);
            data[at..at + |items[k].name|] == items[k].name && data[at + |items[k].name|] == 0
  {
    hide *;
    OffsetIs(items, 0);
    OffsetIs(items, k);
    OffsetIs(items, k + 1);
    OffsetIs(items, |items|);
    assert items[..0] == [] && items[..|items|] == items;
    NameDataStep(items, k);
    NameDataPrefix(items, k + 1);
    NameThere(NameData(items[..k]), items[k].name, NameData(items));
  }

  lemma OffsetIs(items: seq<Item>, k: nat)
    requires k <= |items|
    ensures NameOffset(items, k) == |NameData(items[..k])| && NameData([]) == []
  {
  }

  lemma NameThere(a: seq<u8>, name: Name, data: seq<u8>)
    requires a + (name + [0]) <= data
    ensures |a| + |name| < |data| && data[|a|..|a| + |name|] == name && data[|a| + |name|] == 0
  {
    var part := a + (name + [0]);
    assert data[..|part|] == part;
    assert part[|a|..|a| + |name|] == name && part[|a| + |name|] == 0;
    assert data[|a|..|a| + |name|] == part[|a|..|a| + |name|];
  }

  // ---------------------------------------------------------------- the hash table

  /** Twice as many slots as names, but not less than a few. */
  function HashSize(numNames: nat): (n: nat)
    ensures numNames < n && 0 < n
  {
    if numNames == 0 then 10 else 2 * numNames
  }

  function Present(slots: seq<Option<HashEntry>>): (occ: seq<bool>)
    ensures |occ| == |slots| && forall i :: 0 <= i < |slots| ==> occ[i] == slots[i].Some?
  {
    seq(|slots|, i requires 0 <= i < |slots| => slots[i].Some?)
  }

  lemma PresentSet(slots: seq<Option<HashEntry>>, i: nat, p: HashEntry)
    requires i < |slots|
    ensures Present(slots[i := Some(p)]) == Present(slots)[i := true]
  {
  }

  function ItemPair(items: seq<Item>, k: nat): HashEntry
    requires k < |items|
  {
    (NameOffset(items, k), items[k].stream)
  }

  /** The slots after the items have been inserted in order. */
  function SlotsFor(items: seq<Item>, hash: HashFn, n: nat): (slots: seq<Option<HashEntry>>)
    requires |items| < n
    ensures |slots| == n && Count(Present(slots)) == |items|
  {
    if items == [] then
      var slots := seq(n, _ => None);
      CountFalse(Present(slots));
      slots
    else
      var k := |items| - 1;
      var slots := SlotsFor(items[..k], hash, n);
      SlotIsFree(Present(slots), hash(items[k].name) % n);
      var at := Slot(Present(slots), hash(items[k].name) % n);
      PresentSet(slots, at, ItemPair(items, k));
      CountSet(Present(slots), at);
      slots[at := Some(ItemPair(items, k))]
  }

  lemma SlotsStep(items: seq<Item>, hash: HashFn, n: nat)
    requires 0 < |items| < n
    ensures var k := |items| - 1;
            var slots, slots' := SlotsFor(items[..k], hash, n), SlotsFor(items, hash, n);
            var at := Slot(Present(slots), hash(items[k].name) % n);
            && at < n && slots[at] == None && slots' == slots[at := Some(ItemPair(items, k))]
  {
    var k := |items| - 1;
    SlotIsFree(Present(SlotsFor(items[..k], hash, n)), hash(items[k].name) % n);
  }

  lemma ItemPairInit(items: seq<Item>, m: nat, k: nat)
    requires k < m <= |items|
    ensures ItemPair(items[..m], k) == ItemPair(items, k)
  {
    assert items[..m][..k] == items[..k];
  }

  /** Every item has a slot. */
  lemma {:induction false} ItemHasSlot(items: seq<Item>, hash: HashFn, n: nat, k: nat) returns (at: nat)
    requires k < |items| < n
    ensures at < n && SlotsFor(items, hash, n)[at] == Some(ItemPair(items, k))
  {
    var m := |items| - 1;
    SlotsStep(items, hash, n);
    if k == m {
      at := Slot(Present(SlotsFor(items[..m], hash, n)), hash(items[m].name) % n);
    } else {
      at := ItemHasSlot(items[..m], hash, n, k);
      ItemPairInit(items, m, k);
    }
  }

  /** The slot holds one of the first `k` items. */
  ghost predicate HoldsEarlier(items: seq<Item>, hash: HashFn, n: nat, k: nat, slot: nat)
    requires k <= |items| < n && slot < n
  {
    exists i :: 0 <= i < k && SlotsFor(items, hash, n)[slot] == Some(ItemPair(items, i))
  }

  lemma StillEarlier(items: seq<Item>, hash: HashFn, n: nat, k: nat, slot: nat)
    requires 0 < |items| < n && k < |items| && slot < n && HoldsEarlier(items[..|items| - 1], hash, n, k, slot)
    ensures HoldsEarlier(items, hash, n, k, slot)
  {
    hide SlotsFor;
    hide ItemPair;
    var m := |items| - 1;
    SlotsStep(items, hash, n);
    var i :| 0 <= i < k && SlotsFor(items[..m], hash, n)[slot] == Some(ItemPair(items[..m], i));
    ItemPairInit(items, m, i);
  }

  lemma AllEarlier(items: seq<Item>, hash: HashFn, n: nat, slot: nat)
    requires |items| < n && slot < n && SlotsFor(items, hash, n)[slot].Some?
    ensures HoldsEarlier(items, hash, n, |items|, slot)
  {
    var i := SlotHasItem(items, hash, n, slot);
  }

  /** Each item is in the first slot, from its home slot on, that no earlier item has taken. */
  lemma {:induction false} EarlierFirst(items: seq<Item>, hash: HashFn, n: nat, k: nat) returns (at: nat)
    requires k < |items| < n
    ensures at < n && SlotsFor(items, hash, n)[at] == Some(ItemPair(items, k))
    ensures forall j: nat | Passed(n, hash(items[k].name) % n, at, j) :: j < n && HoldsEarlier(items, hash, n, k, j)
  {
    hide *;
    var m := |items| - 1;
    SlotsStep(items, hash, n);
    var before, h := SlotsFor(items[..m], hash, n), hash(items[k].name) % n;
    if k == m {
      at := Slot(Present(before), h);
    } else {
      at := EarlierFirst(items[..m], hash, n, k);
      ItemPairInit(items, m, k);
      assert items[..m][k] == items[k];
    }
    forall j: nat | Passed(n, h, at, j) ensures j < n && HoldsEarlier(items, hash, n, k, j) {
      if k == m {
        PassesOccupied(Present(before), h, j);
        PassedInside(n, h, at, j);
        AllEarlier(items[..m], hash, n, j);
      }
      StillEarlier(items, hash, n, k, j);
    }
  }

  /** Every occupied slot holds an item. */
  lemma {:induction false} SlotHasItem(items: seq<Item>, hash: HashFn, n: nat, at: nat) returns (k: nat)
    requires at < n && |items| < n && SlotsFor(items, hash, n)[at].Some?
    ensures k < |items| && SlotsFor(items, hash, n)[at] == Some(ItemPair(items, k))
  {
    var m := |items| - 1;
    SlotsStep(items, hash, n);
    if at == Slot(Present(SlotsFor(items[..m], hash, n)), hash(items[m].name) % n) {
      k := m;
    } else {
      k := SlotHasItem(items[..m], hash, n, at);
      ItemPairInit(items, m, k);
    }
  }

  /** The entries that are written: the occupied slots, in slot order. */
  function Entries(slots: seq<Option<HashEntry>>): (r: seq<HashEntry>)
    ensures |r| == Count(Present(slots))
  {
    if slots == [] then [] else
    var k := |slots| - 1;
    assert Present(slots)[..k] == Present(slots[..k]);
    Entries(slots[..k]) + if slots[k].Some? then [slots[k].value] else []
  }

  lemma {:induction false} EntriesMember(slots: seq<Option<HashEntry>>, p: HashEntry)
    ensures p in Entries(slots) <==> Some(p) in slots
  {
    if slots != [] {
      var k := |slots| - 1;
      EntriesMember(slots[..k], p);
      assert slots == slots[..k] + [slots[k]];
    }
  }

  /** The entry of an occupied slot comes after those of all occupied slots before it. */
  lemma {:induction false} EntryAt(slots: seq<Option<HashEntry>>, i: nat)
    requires i < |slots| && slots[i].Some?
    ensures Count(Present(slots)[..i]) < |Entries(slots)| && Entries(slots)[Count(Present(slots)[..i])] == slots[i].value
  {
    hide *;
    var k := |slots| - 1;
    EntriesLast(slots);
    if i < k {
      EntryAt(slots[..k], i);
      assert Present(slots[..k])[..i] == Present(slots)[..i];
    }
  }

  lemma EntriesLast(slots: seq<Option<HashEntry>>)
    requires slots != []
    ensures var k := |slots| - 1;
            && Present(slots)[..k] == Present(slots[..k])
            && Entries(slots) == Entries(slots[..k]) + if slots[k].Some? then [slots[k].value] else []
  {
    var k := |slots| - 1;
    assert Present(slots)[..k] == Present(slots[..k]);
  }

  // ---------------------------------------------------------------- bitmaps

  function BitCount(n: nat, bits: nat): nat {
    if bits == 0 then 0 else (if n % 2 == 1 then 1 else 0) + BitCount(n / 2, bits - 1)
  }

  /** The number of set bits in a byte string. */
  function PopCount(b: seq<u8>): nat {
    if b == [] then 0 else PopCount(b[..|b| - 1]) + BitCount(b[|b| - 1] as nat, 8)
  }

  /** Eight flags to a byte, least significant bit first. */
  function PackBits(bits: seq<bool>): (r: seq<u8>)
    requires |bits| % 8 == 0
    ensures 8 * |r| == |bits|
  {
    if bits == [] then [] else PackBits(bits[..|bits| - 8]) + [PackByte(bits[|bits| - 8..])]
  }

  /** Flag `i` is bit `i % 8` of byte `i / 8`. */
  lemma {:induction false} PackedBit(bits: seq<bool>, i: nat)
    requires |bits| % 8 == 0 && i < |bits|
    ensures Bit(PackBits(bits)[i / 8] as nat, i % 8) <==> bits[i]
  {
    var a, b := bits[..|bits| - 8], bits[|bits| - 8..];
    if i < |a| {
      PackedBit(a, i);
      assert PackBits(bits)[i / 8] == PackBits(a)[i / 8];
    } else {
      assert i / 8 == |PackBits(a)| && i % 8 == i - |a|;
      assert PackBits(bits)[i / 8] == PackByte(b) && b[i % 8] == bits[i];
    }
  }

  function CountFront(bits: seq<bool>): nat {
    if bits == [] then 0 else (if bits[0] then 1 else 0) + CountFront(bits[1..])
  }

  lemma {:induction false} BitCountPack(bits: seq<bool>)
    ensures BitCount(Pack(bits), |bits|) == CountFront(bits)
  {
    if bits != [] {
      BitCountPack(bits[1..]);
      assert Pack(bits) / 2 == Pack(bits[1..]);
    }
  }

  lemma {:induction false} CountConcat(a: seq<bool>, b: seq<bool>)
    ensures Count(a + b) == Count(a) + Count(b)
  {
    if b == [] {
      assert a + b == a;
    } else {
      CountConcat(a, b[..|b| - 1]);
      assert (a + b)[..|a + b| - 1] == a + b[..|b| - 1];
    }
  }

  lemma {:induction false} CountFrontIs(bits: seq<bool>)
    ensures CountFront(bits) == Count(bits)
  {
    if bits != [] {
      CountFrontIs(bits[1..]);
      CountConcat([bits[0]], bits[1..]);
      assert bits == [bits[0]] + bits[1..];
      assert [bits[0]][..0] == [];
    }
  }

  /** The population count of the bitmap is the number of set flags. */
  lemma {:induction false} PopCountPacked(bits: seq<bool>)
    requires |bits| % 8 == 0
    ensures PopCount(PackBits(bits)) == Count(bits)
  {
    if bits != [] {
      var a, b := bits[..|bits| - 8], bits[|bits| - 8..];
      PopCountPacked(a);
      BitCountPack(b);
      CountFrontIs(b);
      CountConcat(a, b);
      assert bits == a + b;
      assert PackBits(bits)[..|PackBits(bits)| - 1] == PackBits(a);
    }
  }

  // ---------------------------------------------------------------- the table as bytes

  function PairWords(es: seq<HashEntry>): (ws: seq<nat>)
    ensures |ws| == 2 * |es|
  {
    if es == [] then [] else PairWords(es[..|es| - 1]) + [es[|es| - 1].0, es[|es| - 1].1]
  }

  function WordPairs(ws: seq<nat>): (es: seq<HashEntry>)
    ensures |es| == |ws| / 2 && forall i :: 0 <= i < |es| ==> es[i] == (ws[2 * i], ws[2 * i + 1])
  {
    seq(|ws| / 2, i requires 0 <= i < |ws| / 2 => (ws[2 * i], ws[2 * i + 1]))
  }

  lemma {:induction false} WordPairsOf(es: seq<HashEntry>)
    ensures WordPairs(PairWords(es)) == es
  {
    if es != [] {
      WordPairsOf(es[..|es| - 1]);
      assert forall i :: 0 <= i < |es| - 1 ==> WordPairs(PairWords(es))[i] == WordPairs(PairWords(es[..|es| - 1]))[i];
    }
  }

  function BitmapWords(n: nat): (w: nat)
    ensures n <= 32 * w
  {
    (n + 31) / 32
  }

  /** The presence flags, filled up to whole words. */
  function PaddedBits(slots: seq<Option<HashEntry>>): (bits: seq<bool>)
    ensures |bits| == 32 * BitmapWords(|slots|)
  {
    Present(slots) + seq(32 * BitmapWords(|slots|) - |slots|, _ => false)
  }

  /** The bitmap that says which slots are occupied. */
  function BitmapOf(slots: seq<Option<HashEntry>>): (r: seq<u8>)
    ensures |r| == 4 * BitmapWords(|slots|)
  {
    PackBits(PaddedBits(slots))
  }

  /** The bitmap counts the entries. */
  lemma BitmapCounts(slots: seq<Option<HashEntry>>)
    ensures PopCount(BitmapOf(slots)) == |Entries(slots)|
  {
    var pad := seq(32 * BitmapWords(|slots|) - |slots|, _ => false);
    PopCountPacked(Present(slots) + pad);
    CountConcat(Present(slots), pad);
    CountFalse(pad);
  }

  /** Bit `i` of the bitmap says whether slot `i` is occupied; the bits behind the last slot are clear. */
  lemma BitmapBit(slots: seq<Option<HashEntry>>, i: nat)
    requires i < 32 * BitmapWords(|slots|)
    ensures Bit(BitmapOf(slots)[i / 8] as nat, i % 8) <==> i < |slots| && slots[i].Some?
  {
    hide *;
    PackedWhole(slots);
    PaddedBit(slots, i);
    PackedBit(PaddedBits(slots), i);
  }

  lemma PackedWhole(slots: seq<Option<HashEntry>>)
    ensures |PaddedBits(slots)| == 32 * BitmapWords(|slots|) && |slots| <= 32 * BitmapWords(|slots|)
    ensures BitmapOf(slots) == PackBits(PaddedBits(slots))
  {
    hide PackBits;
    hide BitmapWords;
    hide Present;
  }

  lemma PaddedBit(slots: seq<Option<HashEntry>>, i: nat)
    requires i < |PaddedBits(slots)|
    ensures PaddedBits(slots)[i] <==> i < |slots| && slots[i].Some?
  {
    hide PackBits;
    hide BitmapWords;
    hide PopCount;
    var occ := Present(slots);
    assert PaddedBits(slots) == occ + seq(|PaddedBits(slots)| - |slots|, _ => false);
    if i < |slots| {
      assert PaddedBits(slots)[i] == occ[i];
    } else {
      assert PaddedBits(slots)[i] == seq(|PaddedBits(slots)| - |slots|, _ => false)[i - |slots|];
    }
  }

  /** A length and that many bytes. */
  function EncodeSized(size: nat, b: seq<u8>): seq<u8> {
    EncodeU32(size) + b
  }

  function EntriesFor(items: seq<Item>, hash: HashFn): seq<HashEntry> {
    Entries(SlotsFor(items, hash, HashSize(|items|)))
  }

  function Encode(items: seq<Item>, hash: HashFn): seq<u8> {
    var n := HashSize(|items|);
    EncodeSized(|NameData(items)|, NameData(items)) + EncodeU32(|items|) + EncodeU32(n)
    + EncodeSized(BitmapWords(n), BitmapOf(SlotsFor(items, hash, n)))
    + EncodeSized(BitmapWords(n), Zeros(4 * BitmapWords(n)))
    + EncodeWords(PairWords(EntriesFor(items, hash))) + EncodeU32(0)
  }

  /** Looks up the name of every entry. The first of several entries with the same name counts. */
  function Collect(data: seq<u8>, es: seq<HashEntry>): Option<map<Name, nat>> {
    if es == [] then Some(map[]) else
    var m :- Collect(data, es[..|es| - 1]);
    var name :- GetString(data, es[|es| - 1].0);
    Some(if name in m then m else m[name := es[|es| - 1].1])
  }

  function TakeSized(b: seq<u8>, unit: nat): Option<Taken<seq<u8>>> {
    var size :- TakeU32(b);
    TakeBytes(size.rest, unit * size.value)
  }

  function Parse(b: seq<u8>): Option<Taken<map<Name, nat>>> {
    var names :- TakeSized(b, 1);
    var count :- TakeU32(names.rest);
    var hashSize :- TakeU32(count.rest);
    var present :- TakeSized(hashSize.rest, 4);
    var deleted :- TakeSized(present.rest, 4);
    if PopCount(present.value) != count.value then None else
    var words :- TakeWords(deleted.rest, 2 * count.value);
    var m :- Collect(names.value, WordPairs(words.value));
    var numIndexes :- TakeU32(words.rest);
    Some(Taken(m, numIndexes.rest))
  }

  // ---------------------------------------------------------------- the round trip

  /** The items are the entries of the map, sorted by name. */
  ghost predicate Lists(items: seq<Item>, m: map<Name, nat>) {
    && (forall i, j :: 0 <= i < j < |items| ==> Less(items[i].name, items[j].name))
    && (forall i :: 0 <= i < |items| ==> items[i].name in m && m[items[i].name] == items[i].stream)
    && (forall n :: n in m ==> exists i :: 0 <= i < |items| && items[i].name == n)
  }

  lemma ListsRest(items: seq<Item>, m: map<Name, nat>)
    requires Lists(items, m) && items != []
    ensures items[0].name in m && m[items[0].name] == items[0].stream
    ensures Lists(items[1..], m - {items[0].name})
  {
    var name, rest := items[0].name, items[1..];
    LessIrreflexive(name);
    forall n | n in m - {name} ensures exists i :: 0 <= i < |rest| && rest[i].name == n {
      var i :| 0 <= i < |items| && items[i].name == n;
      assert rest[i - 1] == items[i];
    }
  }

  lemma ListsEmpty(items: seq<Item>, m: map<Name, nat>)
    requires Lists(items, m)
    ensures items == [] <==> m == map[]
  {
    if items != [] {
      assert items[0].name in m;
    } else {
      assert forall n :: n !in m;
    }
  }

  lemma LeastFirst(a: seq<Item>, b: seq<Item>, m: map<Name, nat>)
    requires Lists(a, m) && Lists(b, m) && a != [] && b != []
    ensures a[0] == b[0]
  {
    var i :| 0 <= i < |a| && a[i].name == b[0].name;
    var j :| 0 <= j < |b| && b[j].name == a[0].name;
    if 0 < i && 0 < j {
      LessTrans(a[0].name, b[0].name, a[0].name);
      LessIrreflexive(a[0].name);
    }
  }

  /** A map has one list of entries: what is written depends on the map alone, not on the order of insertions. */
  lemma {:induction false} ListsUnique(a: seq<Item>, b: seq<Item>, m: map<Name, nat>)
    requires Lists(a, m) && Lists(b, m)
    ensures a == b
    decreases |a|
  {
    hide *;
    ListsEmpty(a, m);
    ListsEmpty(b, m);
    if a != [] && b != [] {
      LeastFirst(a, b, m);
      ListsRest(a, m);
      ListsRest(b, m);
      ListsUnique(a[1..], b[1..], m - {a[0].name});
      assert a == [a[0]] + a[1..] && b == [b[0]] + b[1..];
    }
  }

  lemma {:induction false} ListsExist(m: map<Name, nat>)
    ensures exists items :: Lists(items, m)
    decreases |m|
  {
    if m == map[] {
      assert Lists([], m);
    } else {
      var n := LeastName(m.Keys);
      var m' := m - {n};
      assert m'.Keys == m.Keys - {n} && |m'| == |m'.Keys| && |m| == |m.Keys|;
      ListsExist(m');
      var rest :| Lists(rest, m');
      ListsBefore(n, rest, m);
    }
  }

  lemma ListsBefore(n: Name, rest: seq<Item>, m: map<Name, nat>)
    requires n in m && Lists(rest, m - {n}) && forall k :: k in m ==> Leq(n, k)
    ensures Lists([Item(n, m[n])] + rest, m)
  {
    var items := [Item(n, m[n])] + rest;
    assert forall i :: 0 < i < |items| ==> items[i] == rest[i - 1];
    forall k | k in m ensures exists i :: 0 <= i < |items| && items[i].name == k {
      if k == n {
        assert items[0].name == k;
      } else {
        assert k in m - {n};
        var i :| 0 <= i < |rest| && rest[i].name == k;
        assert items[i + 1] == rest[i];
      }
    }
    assert forall i :: 0 <= i < |rest| ==> rest[i].name in m && Leq(n, rest[i].name);
  }

  /** The entries of a map in the order of their names. */
  ghost function ItemsOf(m: map<Name, nat>): (items: seq<Item>)
    ensures Lists(items, m)
  {
    ListsExist(m);
    var items :| Lists(items, m);
    items
  }

  predicate Fits(items: seq<Item>) {
    && |NameData(items)| < U32_LIMIT && HashSize(|items|) < U32_LIMIT
    && forall i :: 0 <= i < |items| ==> items[i].stream < U32_LIMIT
  }

  lemma {:induction false} CollectFinds(data: seq<u8>, es: seq<HashEntry>, m: map<Name, nat>)
    requires forall p :: p in es ==> GetString(data, p.0).Some? && GetString(data, p.0).value in m
                                     && m[GetString(data, p.0).value] == p.1
    ensures Collect(data, es).Some?
    ensures var r := Collect(data, es).value;
            && (forall n :: n in r ==> n in m && r[n] == m[n])
            && (forall p :: p in es ==> GetString(data, p.0).value in r)
  {
    if es != [] {
      var init, last := es[..|es| - 1], es[|es| - 1];
      assert es == init + [last];
      CollectFinds(data, init, m);
    }
  }

  /** Whatever is read back, no name contains a NUL. */
  lemma {:induction false} CollectNulFree(data: seq<u8>, es: seq<HashEntry>)
    ensures Collect(data, es).Some? ==> forall n :: n in Collect(data, es).value ==> NulFree(n)
  {
    if es != [] {
      CollectNulFree(data, es[..|es| - 1]);
    }
  }

  lemma EntryNamesItem(items: seq<Item>, hash: HashFn, p: HashEntry) returns (k: nat)
    requires p in EntriesFor(items, hash) && forall i :: 0 <= i < |items| ==> NulFree(items[i].name)
    ensures k < |items| && GetString(NameData(items), p.0) == Some(items[k].name) && p.1 == items[k].stream
  {
    var n := HashSize(|items|);
    var slots := SlotsFor(items, hash, n);
    EntriesMember(slots, p);
    var at :| 0 <= at < n && slots[at] == Some(p);
    k := SlotHasItem(items, hash, n, at);
    NameAtOffset(items, k);
  }

  lemma ItemHasEntry(items: seq<Item>, hash: HashFn, k: nat) returns (p: HashEntry)
    requires k < |items| && forall i :: 0 <= i < |items| ==> NulFree(items[i].name)
    ensures p in EntriesFor(items, hash) && GetString(NameData(items), p.0) == Some(items[k].name)
  {
    var n := HashSize(|items|);
    var at := ItemHasSlot(items, hash, n, k);
    p := ItemPair(items, k);
    EntriesMember(SlotsFor(items, hash, n), p);
    NameAtOffset(items, k);
  }

  /** The written entries stand for exactly the map. */
  lemma CollectEntries(items: seq<Item>, hash: HashFn, m: map<Name, nat>)
    requires Lists(items, m) && forall n :: n in m ==> NulFree(n)
    ensures Collect(NameData(items), EntriesFor(items, hash)) == Some(m)
  {
    hide EntriesFor;
    hide NameData;
    hide GetString;
    hide Collect;
    hide NulFree;
    hide Less;
    var data, es := NameData(items), EntriesFor(items, hash);
    forall p | p in es ensures GetString(data, p.0).Some? && GetString(data, p.0).value in m && m[GetString(data, p.0).value] == p.1 {
      var k := EntryNamesItem(items, hash, p);
    }
    CollectFinds(data, es, m);
    var r := Collect(data, es).value;
    forall name | name in m ensures name in r {
      var k :| 0 <= k < |items| && items[k].name == name;
      var p := ItemHasEntry(items, hash, k);
    }
    assert r == m;
  }

  lemma TakeSizedOf(b: seq<u8>, size: nat, unit: nat, rest: seq<u8>)
    requires size < U32_LIMIT && |b| == unit * size
    ensures TakeSized(EncodeSized(size, b) + rest, unit) == Some(Taken(b, rest))
  {
    ConcatAssoc(EncodeU32(size), b, rest);
    TakeU32Of(size, b + rest);
    TakeBytesOf(b, rest);
  }

  /** The table followed by more data, with the parentheses where the parser needs them. */
  lemma EncodeJoins(items: seq<Item>, hash: HashFn, rest: seq<u8>)
    ensures var n := HashSize(|items|);
            Encode(items, hash) + rest
            == EncodeSized(|NameData(items)|, NameData(items)) + (EncodeU32(|items|) + (EncodeU32(n)
               + (EncodeSized(BitmapWords(n), BitmapOf(SlotsFor(items, hash, n)))
                  + (EncodeSized(BitmapWords(n), Zeros(4 * BitmapWords(n)))
                     + (EncodeWords(PairWords(EntriesFor(items, hash))) + (EncodeU32(0) + rest))))))
  {
    var n := HashSize(|items|);
    var p1, p2, p3 := EncodeSized(|NameData(items)|, NameData(items)), EncodeU32(|items|), EncodeU32(n);
    var p4 := EncodeSized(BitmapWords(n), BitmapOf(SlotsFor(items, hash, n)));
    var p5 := EncodeSized(BitmapWords(n), Zeros(4 * BitmapWords(n)));
    var p6, p7 := EncodeWords(PairWords(EntriesFor(items, hash))), EncodeU32(0);
    assert Encode(items, hash) == p1 + p2 + p3 + p4 + p5 + p6 + p7;
    hide *;
    ConcatAssoc(p1 + p2 + p3 + p4 + p5 + p6, p7, rest);
    ConcatAssoc(p1 + p2 + p3 + p4 + p5, p6, p7 + rest);
    ConcatAssoc(p1 + p2 + p3 + p4, p5, p6 + (p7 + rest));
    ConcatAssoc(p1 + p2 + p3, p4, p5 + (p6 + (p7 + rest)));
    ConcatAssoc(p1 + p2, p3, p4 + (p5 + (p6 + (p7 + rest))));
    ConcatAssoc(p1, p2, p3 + (p4 + (p5 + (p6 + (p7 + rest)))));
  }

  /** Entry by entry, the offset of the name and then the stream. */
  ghost predicate EntriesListed(b: seq<u8>, at: nat, es: seq<HashEntry>) {
    forall j :: 0 <= j < |es| ==> StoredAt(b, at + 8 * j, es[j].0) && StoredAt(b, at + 4 + 8 * j, es[j].1)
  }

  /** The table as it is stored: where every field is, and each number byte by byte. */
  ghost predicate TableStored(b: seq<u8>, data: seq<u8>, numItems: nat, n: nat, bitmap: seq<u8>, es: seq<HashEntry>) {
    var d, w := |data|, (n + 31) / 32;
    && |b| == 24 + d + 8 * w + 8 * |es| && |bitmap| == 4 * w
    && StoredAt(b, 0, d) && b[4..4 + d] == data
    && StoredAt(b, 4 + d, numItems) && StoredAt(b, 8 + d, n)
    && StoredAt(b, 12 + d, w) && b[16 + d..16 + d + 4 * w] == bitmap
    && StoredAt(b, 16 + d + 4 * w, w) && b[20 + d + 4 * w..20 + d + 8 * w] == Zeros(4 * w)
    && EntriesListed(b, 20 + d + 8 * w, es) && StoredAt(b, |b| - 4, 0)
  }

  lemma TableLayout(items: seq<Item>, hash: HashFn)
    ensures var n := HashSize(|items|);
            && n == (if items == [] then 10 else 2 * |items|)
            && TableStored(Encode(items, hash), NameData(items), |items|, n, BitmapOf(SlotsFor(items, hash, n)), EntriesFor(items, hash))
  {
    HashSizeIs(|items|);
    hide *;
    var b, n, es := Encode(items, hash), HashSize(|items|), EntriesFor(items, hash);
    FlatFields(items, hash);
    SlotsSize(items, hash);
    FieldsStored(b, NameData(items), |items|, n, BitmapOf(SlotsFor(items, hash, n)), es);
  }

  lemma HashSizeIs(numNames: nat)
    ensures HashSize(numNames) == if numNames == 0 then 10 else 2 * numNames
  {
  }

  // ---------------------------------------------------------------- looking up a name in the bytes

  /** `n` flags that are stored from byte `at` on, eight to a byte, least significant bit first. */
  function Flags(b: seq<u8>, at: nat, n: nat): (r: seq<bool>)
    requires at + (n + 7) / 8 <= |b|
    ensures |r| == n && forall i :: 0 <= i < n ==> r[i] == Bit(b[at + i / 8] as nat, i % 8)
  {
    seq(n, i requires 0 <= i < n => Bit(b[at + i / 8] as nat, i % 8))
  }

  /**
   * A search through the stored table, from the home slot of the name through set bits, comes to slot `at`; the entry
   * for it, which follows those for all set bits before it, leads to the name and to its stream.
   */
  ghost predicate FoundAt(b: seq<u8>, items: seq<Item>, hash: HashFn, k: nat, at: nat)
    requires k < |items|
  {
    var d, n := |NameData(items)|, 2 * |items|;
    var w, name, offset := (n + 31) / 32, items[k].name, NameOffset(items, k);
    && 16 + d + 4 * w <= |b| && at < n
    && Linked(Flags(b, 16 + d, n), hash(name) % n, at)
    && var e := 20 + d + 8 * w + 8 * Count(Flags(b, 16 + d, n)[..at]);
       && StoredAt(b, e, offset) && StoredAt(b, e + 4, items[k].stream)
       && offset + |name| < d && b[4 + offset..4 + offset + |name|] == name && b[4 + offset + |name|] == 0
  }

  ghost predicate CanLookUp(b: seq<u8>, items: seq<Item>, hash: HashFn, k: nat)
    requires k < |items|
  {
    exists at :: FoundAt(b, items, hash, k, at)
  }

  /** The flags that are stored in the bitmap say which slots are occupied. */
  lemma FlagsStored(b: seq<u8>, at: nat, slots: seq<Option<HashEntry>>)
    requires at + 4 * BitmapWords(|slots|) <= |b| && b[at..at + 4 * BitmapWords(|slots|)] == BitmapOf(slots)
    ensures at + (|slots| + 7) / 8 <= |b| && Flags(b, at, |slots|) == Present(slots)
  {
    hide Bit;
    hide BitmapOf;
    var bitmap := b[at..at + 4 * BitmapWords(|slots|)];
    forall i | 0 <= i < |slots| ensures Flags(b, at, |slots|)[i] == Present(slots)[i] {
      BitmapBit(slots, i);
      assert bitmap[i / 8] == b[at + i / 8];
    }
  }

  /** Every written name can be looked up in the bytes. */
  lemma LookUp(items: seq<Item>, hash: HashFn, k: nat) returns (at: nat)
    requires k < |items|
    ensures FoundAt(Encode(items, hash), items, hash, k, at)
  {
    hide *;
    var b, data, n := Encode(items, hash), NameData(items), HashSize(|items|);
    var slots, es := SlotsFor(items, hash, n), EntriesFor(items, hash);
    TableLayout(items, hash);
    EntriesAre(items, hash);
    at := EarlierFirst(items, hash, n, k);
    EarlierOccupied(items, hash, n, k);
    LinkedWhenPassed(Present(slots), hash(items[k].name) % n, at);
    EntryAt(slots, at);
    PairIs(items, k);
    NameBytes(items, k);
    TableParts(b, data, |items|, n, BitmapOf(slots), es, Count(Present(slots)[..at]));
    FlagsStored(b, 16 + |data|, slots);
    NameMoved(b, data, NameOffset(items, k), items[k].name);
    FoundNow(b, items, hash, k, at);
  }

  lemma AllFound(items: seq<Item>, hash: HashFn)
    ensures forall k :: 0 <= k < |items| ==> CanLookUp(Encode(items, hash), items, hash, k)
  {
    forall k | 0 <= k < |items| ensures CanLookUp(Encode(items, hash), items, hash, k) {
      hide FoundAt;
      hide Encode;
      var at := LookUp(items, hash, k);
    }
  }

  lemma EntriesAre(items: seq<Item>, hash: HashFn)
    ensures var n := HashSize(|items|);
            && |items| < n && EntriesFor(items, hash) == Entries(SlotsFor(items, hash, n)) && BitmapWords(n) == (n + 31) / 32
  {
  }

  lemma EarlierOccupied(items: seq<Item>, hash: HashFn, n: nat, k: nat)
    requires k <= |items| < n
    ensures forall j: nat | j < n && HoldsEarlier(items, hash, n, k, j) :: Present(SlotsFor(items, hash, n))[j]
  {
    hide SlotsFor;
  }

  lemma PairIs(items: seq<Item>, k: nat)
    requires k < |items|
    ensures ItemPair(items, k) == (NameOffset(items, k), items[k].stream)
  {
  }

  lemma TableParts(b: seq<u8>, data: seq<u8>, numItems: nat, n: nat, bitmap: seq<u8>, es: seq<HashEntry>, e: nat)
    requires TableStored(b, data, numItems, n, bitmap, es) && e < |es|
    ensures var d, w := |data|, (n + 31) / 32;
            && |b| == 24 + d + 8 * w + 8 * |es| && b[4..4 + d] == data && b[16 + d..16 + d + 4 * w] == bitmap
            && StoredAt(b, 20 + d + 8 * w + 8 * e, es[e].0) && StoredAt(b, 20 + d + 8 * w + 8 * e + 4, es[e].1)
  {
    hide StoredAt;
    hide Zeros;
    assert 24 + |data| + 8 * ((n + 31) / 32) + 8 * e == 20 + |data| + 8 * ((n + 31) / 32) + 8 * e + 4;
  }

  lemma NameMoved(b: seq<u8>, data: seq<u8>, offset: nat, name: Name)
    requires 4 + |data| <= |b| && b[4..4 + |data|] == data && offset + |name| < |data|
    requires data[offset..offset + |name|] == name && data[offset + |name|] == 0
    ensures b[4 + offset..4 + offset + |name|] == name && b[4 + offset + |name|] == 0
  {
    SliceInside(b, 4, |data|, offset, |name|);
    assert b[4..4 + |data|][offset + |name|] == b[4 + offset + |name|];
  }

  lemma FoundNow(b: seq<u8>, items: seq<Item>, hash: HashFn, k: nat, at: nat)
    requires k < |items|
    requires var d, n := |NameData(items)|, 2 * |items|;
             var w, name, offset := (n + 31) / 32, items[k].name, NameOffset(items, k);
             && 16 + d + 4 * w <= |b| && at < n
             && Linked(Flags(b, 16 + d, n), hash(name) % n, at)
             && var e := 20 + d + 8 * w + 8 * Count(Flags(b, 16 + d, n)[..at]);
                && StoredAt(b, e, offset) && StoredAt(b, e + 4, items[k].stream)
                && offset + |name| < d && b[4 + offset..4 + offset + |name|] == name && b[4 + offset + |name|] == 0
    ensures FoundAt(b, items, hash, k, at)
  {
    hide StoredAt;
    hide Linked;
    hide Count;
    hide NameData;
    hide NameOffset;
  }

  lemma FieldsStored(b: seq<u8>, data: seq<u8>, numItems: nat, n: nat, bitmap: seq<u8>, es: seq<HashEntry>)
    requires |bitmap| == 4 * BitmapWords(n)
    requires var w := BitmapWords(n);
             b == EncodeU32(|data|) + (data + (EncodeU32(numItems) + (EncodeU32(n) + (EncodeU32(w) + (bitmap
                  + (EncodeU32(w) + (Zeros(4 * w) + (EncodeWords(PairWords(es)) + (EncodeU32(0) + [])))))))))
    ensures TableStored(b, data, numItems, n, bitmap, es)
  {
    hide *;
    var d, w := |data|, BitmapWords(n);
    var x, zeros, entries, y := EncodeU32(w), Zeros(4 * w), EncodeWords(PairWords(es)), EncodeU32(0);
    FirstFields(b, data, numItems, n, w, bitmap + (x + (zeros + (entries + (y + [])))));
    RestStored(b, 16 + d, w, bitmap, zeros, entries);
    EntriesLength(es);
    EntriesStored(b, 20 + d + 8 * w, es);
    StoredNow(b, data, numItems, n, bitmap, es);
  }

  lemma RestStored(b: seq<u8>, at: nat, w: nat, bitmap: seq<u8>, zeros: seq<u8>, entries: seq<u8>)
    requires at <= |b| && |bitmap| == |zeros| == 4 * w
    requires b[at..] == bitmap + (EncodeU32(w) + (zeros + (entries + (EncodeU32(0) + []))))
    ensures |b| == at + 8 * w + |entries| + 8 && b[at..at + 4 * w] == bitmap
    ensures StoredAt(b, at + 4 * w, w) && b[at + 4 * w + 4..at + 8 * w + 4] == zeros && StoredAt(b, |b| - 4, 0)
    ensures b[at + 8 * w + 4..at + 8 * w + 4 + |entries|] == entries
  {
    hide *;
    BitmapStored(b, at, w, bitmap, zeros, entries + (EncodeU32(0) + []));
    EndStored(b, at + 8 * w + 4, entries);
  }

  lemma BitmapStored(b: seq<u8>, at: nat, w: nat, bitmap: seq<u8>, zeros: seq<u8>, rest: seq<u8>)
    requires at <= |b| && |bitmap| == |zeros| == 4 * w && b[at..] == bitmap + (EncodeU32(w) + (zeros + rest))
    ensures |b| == at + 8 * w + 4 + |rest| && b[at..at + 4 * w] == bitmap
    ensures StoredAt(b, at + 4 * w, w) && b[at + 4 * w + 4..at + 8 * w + 4] == zeros && b[at + 8 * w + 4..] == rest
  {
    hide *;
    NextField(b, at, bitmap, EncodeU32(w) + (zeros + rest));
    NextWord(b, at + 4 * w, w, zeros + rest);
    NextField(b, at + 4 * w + 4, zeros, rest);
  }

  lemma NextWord(b: seq<u8>, at: nat, w: nat, rest: seq<u8>)
    requires at <= |b| && b[at..] == EncodeU32(w) + rest
    ensures |b| == at + 4 + |rest| && StoredAt(b, at, w) && b[at + 4..] == rest
  {
    hide *;
    NextField(b, at, EncodeU32(w), rest);
    WordHere(b, at, w);
  }

  lemma EndStored(b: seq<u8>, at: nat, entries: seq<u8>)
    requires at <= |b| && b[at..] == entries + (EncodeU32(0) + [])
    ensures |b| == at + |entries| + 4 && b[at..at + |entries|] == entries && StoredAt(b, |b| - 4, 0)
  {
    hide *;
    NextField(b, at, entries, EncodeU32(0) + []);
    NextWord(b, at + |entries|, 0, []);
  }

  lemma EntriesLength(es: seq<HashEntry>)
    ensures |EncodeWords(PairWords(es))| == 8 * |es|
  {
    hide EncodeWords;
  }

  lemma EntriesStored(b: seq<u8>, at: nat, es: seq<HashEntry>)
    requires at + 8 * |es| <= |b| && b[at..at + 8 * |es|] == EncodeWords(PairWords(es))
    ensures EntriesListed(b, at, es)
  {
    hide StoredAt;
    hide PairWords;
    hide EncodeWords;
    assert b[at..at + 4 * |PairWords(es)|] == EncodeWords(PairWords(es));
    forall j | 0 <= j < |es| ensures StoredAt(b, at + 8 * j, es[j].0) && StoredAt(b, at + 4 + 8 * j, es[j].1) {
      PairWordsAt(es, j);
      WordsHere(b, at, PairWords(es), 2 * j);
      WordsHere(b, at, PairWords(es), 2 * j + 1);
      assert at + 4 * (2 * j) == at + 8 * j && at + 4 * (2 * j + 1) == at + 4 + 8 * j;
    }
  }

  lemma SlotsSize(items: seq<Item>, hash: HashFn)
    ensures |BitmapOf(SlotsFor(items, hash, HashSize(|items|)))| == 4 * BitmapWords(HashSize(|items|))
  {
  }

  lemma FirstFields(b: seq<u8>, data: seq<u8>, numItems: nat, n: nat, w: nat, rest: seq<u8>)
    requires b == EncodeU32(|data|) + (data + (EncodeU32(numItems) + (EncodeU32(n) + (EncodeU32(w) + rest))))
    ensures var d := |data|;
            && |b| == 16 + d + |rest| && b[16 + d..] == rest && b[4..4 + d] == data
            && StoredAt(b, 0, d) && StoredAt(b, 4 + d, numItems) && StoredAt(b, 8 + d, n) && StoredAt(b, 12 + d, w)
  {
    hide *;
    var d := |data|;
    var r3 := EncodeU32(w) + rest;
    var r2 := EncodeU32(n) + r3;
    var r1 := EncodeU32(numItems) + r2;
    assert b == b[0..];
    NextField(b, 0, EncodeU32(d), data + r1);
    WordHere(b, 0, d);
    NextField(b, 4, data, r1);
    NextField(b, 4 + d, EncodeU32(numItems), r2);
    WordHere(b, 4 + d, numItems);
    NextField(b, 8 + d, EncodeU32(n), r3);
    WordHere(b, 8 + d, n);
    NextField(b, 12 + d, EncodeU32(w), rest);
    WordHere(b, 12 + d, w);
  }

  lemma StoredNow(b: seq<u8>, data: seq<u8>, numItems: nat, n: nat, bitmap: seq<u8>, es: seq<HashEntry>)
    requires var d, w := |data|, BitmapWords(n);
             && |b| == 24 + d + 8 * w + 8 * |es| && |bitmap| == 4 * w
             && StoredAt(b, 0, d) && b[4..4 + d] == data
             && StoredAt(b, 4 + d, numItems) && StoredAt(b, 8 + d, n)
             && StoredAt(b, 12 + d, w) && b[16 + d..16 + d + 4 * w] == bitmap
             && StoredAt(b, 16 + d + 4 * w, w) && b[20 + d + 4 * w..20 + d + 8 * w] == Zeros(4 * w)
             && EntriesListed(b, 20 + d + 8 * w, es) && StoredAt(b, |b| - 4, 0)
    ensures TableStored(b, data, numItems, n, bitmap, es)
  {
    hide StoredAt;
    hide EntriesListed;
    hide Zeros;
  }

  lemma PairWordsAt(es: seq<HashEntry>, j: nat)
    requires j < |es|
    ensures PairWords(es)[2 * j] == es[j].0 && PairWords(es)[2 * j + 1] == es[j].1
  {
    WordPairsOf(es);
    hide PairWords;
  }

  lemma FlatFields(items: seq<Item>, hash: HashFn)
    ensures var n := HashSize(|items|);
            var w := BitmapWords(n);
            Encode(items, hash)
            == EncodeU32(|NameData(items)|) + (NameData(items) + (EncodeU32(|items|) + (EncodeU32(n)
               + (EncodeU32(w) + (BitmapOf(SlotsFor(items, hash, n))
                  + (EncodeU32(w) + (Zeros(4 * w)
                     + (EncodeWords(PairWords(EntriesFor(items, hash))) + (EncodeU32(0) + [])))))))))
  {
    hide *;
    EncodeJoins(items, hash, []);
    var n := HashSize(|items|);
    var w, bitmap := BitmapWords(n), BitmapOf(SlotsFor(items, hash, n));
    var r5 := EncodeWords(PairWords(EntriesFor(items, hash))) + (EncodeU32(0) + []);
    SizedIs(|NameData(items)|, NameData(items));
    SizedIs(w, bitmap);
    SizedIs(w, Zeros(4 * w));
    var r4 := EncodeU32(w) + (Zeros(4 * w) + r5);
    ConcatAssoc(EncodeU32(w), Zeros(4 * w), r5);
    ConcatAssoc(EncodeU32(w), bitmap, r4);
    ConcatAssoc(EncodeU32(|NameData(items)|), NameData(items),
                EncodeU32(|items|) + (EncodeU32(n) + (EncodeU32(w) + (bitmap + r4))));
    assert Encode(items, hash) + [] == Encode(items, hash);
  }

  lemma SizedIs(size: nat, b: seq<u8>)
    ensures EncodeSized(size, b) == EncodeU32(size) + b
  {
  }

  /** Parsing, with every field taken in turn. */
  lemma ParseFields(items: seq<Item>, hash: HashFn, rest: seq<u8>)
    requires Fits(items)
    ensures Parse(Encode(items, hash) + rest)
         == match Collect(NameData(items), EntriesFor(items, hash)) case None => None case Some(m) => Some(Taken(m, rest))
  {
    hide Encode;
    hide EncodeSized;
    hide TakeSized;
    hide TakeU32;
    hide TakeWords;
    hide EncodeU32;
    hide EncodeWords;
    hide BitmapOf;
    hide BitmapWords;
    hide HashSize;
    hide SlotsFor;
    hide EntriesFor;
    hide Collect;
    hide PopCount;
    hide PairWords;
    hide WordPairs;
    hide NameData;
    var n := HashSize(|items|);
    var slots, es := SlotsFor(items, hash, n), EntriesFor(items, hash);
    var r6 := EncodeU32(0) + rest;
    var r5 := EncodeWords(PairWords(es)) + r6;
    var r4 := EncodeSized(BitmapWords(n), Zeros(4 * BitmapWords(n))) + r5;
    var r3 := EncodeSized(BitmapWords(n), BitmapOf(slots)) + r4;
    var r2 := EncodeU32(n) + r3;
    var r1 := EncodeU32(|items|) + r2;
    EncodeJoins(items, hash, rest);
    FitsAll(items, hash);
    TakeSizedOf(NameData(items), |NameData(items)|, 1, r1);
    TakeU32Of(|items|, r2);
    TakeU32Of(n, r3);
    TakeSizedOf(BitmapOf(slots), BitmapWords(n), 4, r4);
    TakeSizedOf(Zeros(4 * BitmapWords(n)), BitmapWords(n), 4, r5);
    TakeWordsOf(PairWords(es), r6);
    TakeU32Of(0, rest);
  }

  /** All numbers in the table fit into 32 bits, and the bitmap counts the entries. */
  lemma FitsAll(items: seq<Item>, hash: HashFn)
    requires Fits(items)
    ensures var n, es := HashSize(|items|), EntriesFor(items, hash);
            && |NameData(items)| < U32_LIMIT && |items| < U32_LIMIT && n < U32_LIMIT && BitmapWords(n) < U32_LIMIT
            && AllU32(PairWords(es)) && |es| == |items| && WordPairs(PairWords(es)) == es
            && PopCount(BitmapOf(SlotsFor(items, hash, n))) == |items|
  {
    var n, es := HashSize(|items|), EntriesFor(items, hash);
    var slots := SlotsFor(items, hash, n);
    BitmapCounts(slots);
    WordPairsOf(es);
    forall p | p in es ensures p.0 < U32_LIMIT && p.1 < U32_LIMIT {
      EntriesMember(slots, p);
      var at :| 0 <= at < n && slots[at] == Some(p);
      var k := SlotHasItem(items, hash, n, at);
      NameDataPrefix(items, k);
    }
    PairWordsFit(es);
  }

  lemma {:induction false} PairWordsFit(es: seq<HashEntry>)
    requires forall p :: p in es ==> p.0 < U32_LIMIT && p.1 < U32_LIMIT
    ensures AllU32(PairWords(es))
  {
    if es != [] {
      var k := |es| - 1;
      assert es[k] in es && forall p :: p in es[..k] ==> p in es;
      PairWordsFit(es[..k]);
    }
  }

  /** Writing and parsing gives the map back, exactly when no name contains a NUL. */
  lemma RoundTrip(m: map<Name, nat>, hash: HashFn, rest: seq<u8>)
    requires Fits(ItemsOf(m))
    ensures Parse(Encode(ItemsOf(m), hash) + rest) == Some(Taken(m, rest)) <==> forall n :: n in m ==> NulFree(n)
  {
    var items := ItemsOf(m);
    ParseFields(items, hash, rest);
    CollectNulFree(NameData(items), EntriesFor(items, hash));
    if forall n :: n in m ==> NulFree(n) {
      CollectEntries(items, hash, m);
    }
  }

  /** A map with one name that contains a NUL does not come back. */
  lemma NulIsLost(hash: HashFn)
    ensures var m: map<Name, nat> := map[[0x61, 0, 0x62] := 5];
            Fits(ItemsOf(m)) && Parse(Encode(ItemsOf(m), hash) + []) != Some(Taken(m, []))
  {
    var n: Name := [0x61, 0, 0x62];
    var m: map<Name, nat> := map[n := 5];
    var items := [Item(n, 5)];
    assert items[0].name == n;
    ListsUnique(items, ItemsOf(m), m);
    NameDataStep(items, 0);
    assert items[..1] == items && items[..0] == [];
    RoundTrip(m, hash, []);
    assert n in m && n[1] == 0;
  }

  /** Whatever the names are, parsing stops right after the table. */
  lemma KeepsRest(items: seq<Item>, hash: HashFn, rest: seq<u8>)
    requires Fits(items)
    ensures Parse(Encode(items, hash) + rest).Some? ==> Parse(Encode(items, hash) + rest).value.rest == rest
  {
    ParseFields(items, hash, rest);
  }

  // ---------------------------------------------------------------- the table as it is edited

  /** Puts an entry into the first free slot from `h` on. The search never comes back to its start. */
  method InsertSlot(slots: seq<Option<HashEntry>>, h: nat, p: HashEntry) returns (r: seq<Option<HashEntry>>, at: nat)
    requires h < |slots| && Count(Present(slots)) < |slots|
    ensures at == Slot(Present(slots), h) && at < |slots| && r == slots[at := Some(p)]
  {
    ghost var z := FreeSlotExists(Present(slots));
    ghost var wrapped := false;
    at := h;
    while slots[at].Some?
      invariant 0 <= at < |slots|
      invariant !wrapped ==> h <= at && forall j :: h <= j < at ==> slots[j].Some?
      invariant wrapped ==> (forall j :: h <= j < |slots| ==> slots[j].Some?) && forall j :: 0 <= j < at ==> slots[j].Some?
      decreases !wrapped, |slots| - at
    {
      at := at + 1;
      // Linear probing does not come back to the starting slot.
      assert at != h;
      if at == |slots| {
        at := 0;
        wrapped := true;
      }
    }
    SlotIs(Present(slots), h, at);
    r := slots[at := Some(p)];
  }

  /** Assigns all names to slots, and marks the slots in the bitmap. */
  method AssignSlots(items: seq<Item>, hash: HashFn) returns (slots: seq<Option<HashEntry>>, bits: seq<bool>)
    ensures slots == SlotsFor(items, hash, HashSize(|items|)) && bits == PaddedBits(slots)
  {
    hide *;
    var n := HashSize(|items|);
    slots := seq(n, _ => None);
    bits := seq(32 * BitmapWords(n), _ => false);
    NoneAssigned(items, hash);
    var offset := 0;
    for k := 0 to |items|
      invariant |slots| == n && slots == SlotsFor(items[..k], hash, n) && offset == NameOffset(items, k)
      invariant bits == PaddedBits(slots)
    {
      AssignStep(items, hash, k);
      NameDataStep(items, k);
      var at;
      ghost var before := slots;
      slots, at := InsertSlot(slots, hash(items[k].name) % n, (offset, items[k].stream));
      BitSet(before, at, (offset, items[k].stream));
      bits := bits[at := true];
      offset := offset + |items[k].name| + 1;
    }
    assert items[..|items|] == items;
  }

  lemma NoneAssigned(items: seq<Item>, hash: HashFn)
    ensures var n := HashSize(|items|);
            && seq(n, _ => None) == SlotsFor(items[..0], hash, n) && NameOffset(items, 0) == 0
            && seq(32 * BitmapWords(n), _ => false) == PaddedBits(seq(n, _ => None))
  {
    assert items[..0] == [];
  }

  lemma AssignStep(items: seq<Item>, hash: HashFn, k: nat)
    requires k < |items|
    ensures var n := HashSize(|items|);
            var slots := SlotsFor(items[..k], hash, n);
            var at := Slot(Present(slots), hash(items[k].name) % n);
            && Count(Present(slots)) < n && at < n
            && SlotsFor(items[..k + 1], hash, n) == slots[at := Some((NameOffset(items, k), items[k].stream))]
            && NameOffset(items, k + 1) == NameOffset(items, k) + |items[k].name| + 1
  {
    assert items[..k + 1][..k] == items[..k];
    SlotsStep(items[..k + 1], hash, HashSize(|items|));
    ItemPairInit(items, k + 1, k);
    NameDataStep(items, k);
  }

  lemma BitSet(slots: seq<Option<HashEntry>>, at: nat, p: HashEntry)
    requires at < |slots|
    ensures at < |PaddedBits(slots)| && PaddedBits(slots[at := Some(p)]) == PaddedBits(slots)[at := true]
  {
    PresentSet(slots, at, p);
  }

  lemma {:induction false} LeastName(names: set<Name>) returns (least: Name)
    requires names != {}
    ensures least in names && forall n :: n in names ==> Leq(least, n)
    decreases |names|
  {
    var n :| n in names;
    if names == {n} {
      least := n;
    } else {
      least := LeastName(names - {n});
      LessTotal(least, n);
      if Less(n, least) {
        forall k | k in names ensures Leq(n, k) {
          if k != n {
            LeqTrans(n, least, k);
          }
        }
        least := n;
      }
    }
  }

  /** The entries so far are sorted, and the names that are left come after them. */
  ghost predicate SortedPart(items: seq<Item>, left: set<Name>, m: map<Name, nat>) {
    && left <= m.Keys
    && (forall i, j :: 0 <= i < j < |items| ==> Less(items[i].name, items[j].name))
    && (forall i :: 0 <= i < |items| ==> items[i].name in m && m[items[i].name] == items[i].stream)
    && (forall n :: n in m ==> n in left || exists i :: 0 <= i < |items| && items[i].name == n)
    && (forall i, n :: 0 <= i < |items| && n in left ==> Less(items[i].name, n))
  }

  lemma SortedStep(items: seq<Item>, left: set<Name>, m: map<Name, nat>, name: Name)
    requires SortedPart(items, left, m) && name in left && forall n :: n in left ==> Leq(name, n)
    ensures name in m && SortedPart(items + [Item(name, m[name])], left - {name}, m)
  {
    hide Less;
    var items' := items + [Item(name, m[name])];
    forall n | n in m ensures n in left - {name} || exists i :: 0 <= i < |items'| && items'[i].name == n {
      if n == name {
        assert items'[|items|].name == n;
      } else if n !in left {
        var i :| 0 <= i < |items| && items[i].name == n;
        assert items'[i].name == n;
      }
    }
    forall n | n in left - {name} ensures Less(name, n) {
      assert Leq(name, n);
    }
  }

  class NamedStreams {
    var modified: bool
    var names: map<Name, nat>

    constructor ()
      ensures !modified && names == map[]
    {
      modified, names := false, map[];
    }

    /** Adds a name. An existing name keeps its stream. */
    method Insert(name: Name, stream: nat) returns (inserted: bool)
      modifies this
      ensures inserted <==> name !in old(names)
      ensures names == if name in old(names) then old(names) else old(names)[name := stream]
      ensures modified == (old(modified) || inserted)
    {
      if name in names {
        return false;
      }
      modified := true;
      names := names[name := stream];
      inserted := true;
    }

    method Clear()
      modifies this
      ensures modified && names == map[]
    {
      modified, names := true, map[];
    }

    /** The map in the order of its names. */
    method Sorted() returns (items: seq<Item>)
      ensures items == ItemsOf(names)
    {
      hide Leq;
      items := [];
      var left := names.Keys;
      while left != {}
        invariant SortedPart(items, left, names)
        decreases |left|
      {
        hide SortedPart;
        ghost var least := LeastName(left);
        var name :| name in left && forall n :: n in left ==> Leq(name, n);
        SortedStep(items, left, names, name);
        items, left := items + [Item(name, names[name])], left - {name};
      }
      ListsUnique(items, ItemsOf(names), names);
    }

    /** Appends the encoded table, in which every name can be looked up. */
    method ToBytes(out0: seq<u8>, hash: HashFn) returns (out: seq<u8>)
      ensures out == out0 + Encode(ItemsOf(names), hash)
      ensures forall k :: 0 <= k < |ItemsOf(names)| ==> CanLookUp(out[|out0|..], ItemsOf(names), hash, k)
    {
      hide *;
      var sorted := Sorted();
      var data := [];
      NoNames(sorted);
      for k := 0 to |sorted|
        invariant data == NameData(sorted[..k])
      {
        NameDataStep(sorted, k);
        data := data + (sorted[k].name + [0]);
      }
      var slots, bits := AssignSlots(sorted, hash);
      EncodeIs(sorted, hash, slots, bits);
      var n := HashSize(|sorted|);
      var table := EncodeU32(|data|) + data + EncodeU32(|sorted|) + EncodeU32(n);
      table := table + (EncodeU32(BitmapWords(n)) + PackBits(bits));
      table := table + (EncodeU32(BitmapWords(n)) + Zeros(4 * BitmapWords(n)));
      var words := [];
      NoEntries(slots);
      for at := 0 to n
        invariant words == PairWords(Entries(slots[..at]))
      {
        NextEntry(slots, at);
        if slots[at].Some? {
          words := words + [slots[at].value.0, slots[at].value.1];
        }
      }
      table := table + EncodeWords(words) + EncodeU32(0);
      out := out0 + table;
      assert out[|out0|..] == table;
      AllFound(sorted, hash);
    }
  }

  lemma NoNames(items: seq<Item>)
    ensures NameData(items[..0]) == [] && items[..|items|] == items
  {
  }

  lemma NoEntries(slots: seq<Option<HashEntry>>)
    ensures PairWords(Entries(slots[..0])) == [] && slots[..|slots|] == slots
  {
    assert slots[..0] == [];
  }

  lemma NextEntry(slots: seq<Option<HashEntry>>, at: nat)
    requires at < |slots|
    ensures PairWords(Entries(slots[..at + 1]))
         == PairWords(Entries(slots[..at])) + if slots[at].Some? then [slots[at].value.0, slots[at].value.1] else []
  {
    var es := Entries(slots[..at]);
    assert slots[..at + 1][..at] == slots[..at] && slots[..at + 1][at] == slots[at];
    if slots[at].Some? {
      assert Entries(slots[..at + 1]) == es + [slots[at].value];
      assert (es + [slots[at].value])[..|es|] == es;
    } else {
      assert Entries(slots[..at + 1]) == es;
    }
  }

  lemma EncodeIs(items: seq<Item>, hash: HashFn, slots: seq<Option<HashEntry>>, bits: seq<bool>)
    requires slots == SlotsFor(items, hash, HashSize(|items|)) && bits == PaddedBits(slots)
    ensures var n, w := HashSize(|items|), BitmapWords(HashSize(|items|));
            && |slots| == n && |bits| % 8 == 0
            && Encode(items, hash)
               == EncodeU32(|NameData(items)|) + NameData(items) + EncodeU32(|items|) + EncodeU32(n)
                  + (EncodeU32(w) + PackBits(bits)) + (EncodeU32(w) + Zeros(4 * w))
                  + EncodeWords(PairWords(Entries(slots))) + EncodeU32(0)
  {
    hide EncodeU32;
    hide EncodeWords;
    hide NameData;
    hide PairWords;
    hide Entries;
    hide SlotsFor;
    hide PackBits;
    hide PaddedBits;
  }

  // ---------------------------------------------------------------- parsing, step by step

  /** Looks up every entry; the first of several entries with the same name counts. */
  method CollectNames(data: seq<u8>, es: seq<HashEntry>) returns (r: Option<map<Name, nat>>)
    ensures r == Collect(data, es)
  {
    var m: map<Name, nat> := map[];
    assert es[..0] == [];
    for i := 0 to |es|
      invariant Collect(data, es[..i]) == Some(m)
    {
      assert es[..i + 1][..i] == es[..i];
      var name := GetString(data, es[i].0);
      if name.None? {
        CollectFails(data, es, i + 1);
        return None;
      }
      if name.value !in m {
        m := m[name.value := es[i].1];
      }
    }
    assert es[..|es|] == es;
    r := Some(m);
  }

  lemma {:induction false} CollectFails(data: seq<u8>, es: seq<HashEntry>, k: nat)
    requires k <= |es| && Collect(data, es[..k]) == None
    ensures Collect(data, es) == None
    decreases |es| - k
  {
    if k == |es| {
      assert es[..k] == es;
    } else {
      assert es[..k + 1][..k] == es[..k];
      CollectFails(data, es, k + 1);
    }
  }
}
