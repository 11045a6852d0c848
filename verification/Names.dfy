/** The Names Stream: rebuilding it sorted and without duplicates (pdb/src/names.rs). */
module Names {
  import opened Bytes
  import opened Probing

  type Name = seq<u8>

  /** A non-empty string and where it starts in the string data. */
  datatype Entry = Entry(start: nat, name: Name)

  // ---------------------------------------------------------------- reading strings

  /** Where the string that starts at `at` ends: at its NUL, or at the end of the data. */
  function StrEnd(data: seq<u8>, at: nat): (z: nat)
    requires at <= |data|
    ensures at <= z <= |data| && (z < |data| ==> data[z] == 0)
    ensures forall k :: at <= k < z ==> data[k] != 0
    decreases |data| - at
  {
    if at == |data| || data[at] == 0 then at else StrEnd(data, at + 1)
  }

  /** The string at an index; an index out of range or a missing NUL is an error. */
  function GetString(data: seq<u8>, index: nat): Option<Name> {
    if |data| < index then None else
    var z := StrEnd(data, index);
    if z == |data| then None else Some(data[index..z])
  }

  /** A string is found exactly where it is, up to a NUL. */
  lemma StringIff(data: seq<u8>, index: nat, s: Name)
    ensures GetString(data, index) == Some(s)
            <==> && index + |s| < |data| && data[index..index + |s|] == s && data[index + |s|] == 0
                 && forall i :: 0 <= i < |s| ==> s[i] != 0
  {
    if index <= |data| {
      var z := StrEnd(data, index);
      if z < |data| {
        assert forall i :: 0 <= i < z - index ==> data[index..z][i] == data[index + i];
      }
      if index + |s| < |data| && data[index..index + |s|] == s && data[index + |s|] == 0 && forall i :: 0 <= i < |s| ==> s[i] != 0 {
        assert forall k :: index <= k < index + |s| ==> data[k] == s[k - index];
        assert z == index + |s|;
      }
    }
  }

  /** The non-empty strings from `at` on, up to the end of the data or the first string without a NUL. */
  function NamesFrom(data: seq<u8>, at: nat): seq<Entry>
    requires at <= |data|
    decreases |data| - at
  {
    var z := StrEnd(data, at);
    if z == |data| then [] else
    (if z == at then [] else [Entry(at, data[at..z])]) + NamesFrom(data, z + 1)
  }

  method CollectNames(data: seq<u8>) returns (es: seq<Entry>)
    ensures es == NamesFrom(data, 0)
  {
    var at := 0;
    es := [];
    while at < |data|
      invariant at <= |data| && es + NamesFrom(data, at) == NamesFrom(data, 0)
    {
      var z := StrEnd(data, at);
      if z == |data| {
        assert NamesFrom(data, at) == [];
        return;
      }
      var found := if z == at then [] else [Entry(at, data[at..z])];
      ConcatAssoc(es, found, NamesFrom(data, z + 1));
      es, at := es + found, z + 1;
    }
    assert NamesFrom(data, at) == [];
  }

  /**
   * Exactly these strings are found: those that are not empty, start where the data starts or after a NUL, and end at a
   * NUL.
   */
  lemma {:induction false} NamesFound(data: seq<u8>, at: nat, e: Entry)
    requires at <= |data|
    ensures e in NamesFrom(data, at) <==>
              && at <= e.start < |data| && data[e.start] != 0 && (e.start == at || data[e.start - 1] == 0)
              && StrEnd(data, e.start) < |data| && e.name == data[e.start..StrEnd(data, e.start)]
    decreases |data| - at
  {
    var z := StrEnd(data, at);
    if z < |data| {
      NamesFound(data, z + 1, e);
    }
  }

  predicate IsName(s: Name) {
    s != [] && forall i :: 0 <= i < |s| ==> s[i] != 0
  }

  /** The strings can be looked up where they start, and start one after the other. */
  predicate Readable(data: seq<u8>, at: nat, es: seq<Entry>) {
    && (forall i :: 0 <= i < |es| ==> at <= es[i].start && IsName(es[i].name) && GetString(data, es[i].start) == Some(es[i].name))
    && (forall i, j :: 0 <= i < j < |es| ==> es[i].start < es[j].start)
  }

  /** What the iteration finds can be looked up, and no two strings start at the same place. */
  lemma {:induction false} NamesAreStrings(data: seq<u8>, at: nat)
    requires at <= |data|
    ensures Readable(data, at, NamesFrom(data, at))
    decreases |data| - at
  {
    var z := StrEnd(data, at);
    if z < |data| {
      NamesAreStrings(data, z + 1);
      var rest := NamesFrom(data, z + 1);
      if z == at {
        assert NamesFrom(data, at) == rest;
      } else {
        var first := Entry(at, data[at..z]);
        assert NamesFrom(data, at) == [first] + rest;
        assert Readable(data, at + 1, rest);
        OneMore(data, at, first, rest);
      }
    }
  }

  lemma OneMore(data: seq<u8>, at: nat, first: Entry, rest: seq<Entry>)
    requires first.start == at && IsName(first.name) && GetString(data, at) == Some(first.name)
    requires Readable(data, at + 1, rest)
    ensures Readable(data, at, [first] + rest)
  {
  }

  // ---------------------------------------------------------------- the order of names

  /** Byte-wise lexicographic order. */
  predicate Less(a: Name, b: Name) {
    b != [] && (a == [] || a[0] < b[0] || (a[0] == b[0] && Less(a[1..], b[1..])))
  }

  lemma {:induction false} LessTotal(a: Name, b: Name)
    ensures Less(a, b) || a == b || Less(b, a)
  {
    if a != [] && b != [] && a[0] == b[0] {
      LessTotal(a[1..], b[1..]);
      assert a == [a[0]] + a[1..] && b == [b[0]] + b[1..];
    }
  }

  lemma {:induction false} LessTrans(a: Name, b: Name, c: Name)
    requires Less(a, b) && Less(b, c)
    ensures Less(a, c)
  {
    if a != [] && a[0] == b[0] && b[0] == c[0] {
      LessTrans(a[1..], b[1..], c[1..]);
    }
  }

  lemma {:induction false} LessIrreflexive(a: Name)
    ensures !Less(a, a)
  {
    if a != [] {
      LessIrreflexive(a[1..]);
    }
  }

  /** The names agree up to position `d`; there the first one ends, or has the smaller byte. */
  predicate DifferAt(a: Name, b: Name, d: nat) {
    d <= |a| && d < |b| && a[..d] == b[..d] && (d == |a| || a[d] < b[d])
  }

  /** The first difference decides: a smaller byte comes first, and so does a name that ends there. */
  lemma {:induction false} LessAtDifference(a: Name, b: Name)
    ensures Less(a, b) <==> exists d: nat :: DifferAt(a, b, d)
  {
    hide DifferAt;
    if a != [] && b != [] && a[0] == b[0] {
      LessAtDifference(a[1..], b[1..]);
      if d: nat :| DifferAt(a, b, d) {
        LaterDifference(a, b, d);
      }
      if d: nat :| DifferAt(a[1..], b[1..], d) {
        LaterDifference(a, b, d + 1);
        assert DifferAt(a, b, d + 1);
      }
    } else {
      DifferFirst(a, b);
      if d: nat :| DifferAt(a, b, d) {
        if 0 < d {
          SameFirst(a, b, d);
        }
      }
    }
  }

  lemma DifferFirst(a: Name, b: Name)
    requires a == [] || b == [] || a[0] != b[0]
    ensures DifferAt(a, b, 0) <==> Less(a, b)
  {
  }

  lemma SameFirst(a: Name, b: Name, d: nat)
    requires DifferAt(a, b, d) && 0 < d
    ensures a != [] && b != [] && a[0] == b[0]
  {
    assert a[..d][0] == b[..d][0];
  }

  lemma LaterDifference(a: Name, b: Name, d: nat)
    requires a != [] && b != [] && a[0] == b[0]
    ensures DifferAt(a, b, d) <==> 0 < d && DifferAt(a[1..], b[1..], d - 1)
  {
    if 0 < d <= |a| && d <= |b| {
      assert a[..d] == [a[0]] + a[1..][..d - 1] && b[..d] == [b[0]] + b[1..][..d - 1];
    }
  }

  predicate Leq(a: Name, b: Name) {
    a == b || Less(a, b)
  }

  lemma LeqTrans(a: Name, b: Name, c: Name)
    requires Leq(a, b) && Leq(b, c)
    ensures Leq(a, c)
  {
    if a != b && b != c {
      LessTrans(a, b, c);
    }
  }

  predicate Sorted(es: seq<Entry>) {
    forall i, j :: 0 <= i < j < |es| ==> Leq(es[i].name, es[j].name)
  }

  predicate StrictlySorted(ns: seq<Name>) {
    forall i, j :: 0 <= i < j < |ns| ==> Less(ns[i], ns[j])
  }

  function NamesOf(es: seq<Entry>): (r: seq<Name>)
    ensures |r| == |es| && forall i :: 0 <= i < |es| ==> r[i] == es[i].name
  {
    seq(|es|, i requires 0 <= i < |es| => es[i].name)
  }

  /** The names are all those of the entries, in order and each once; every kept entry is one of the given ones. */
  ghost predicate IsSortedSet(es: seq<Entry>, kept: seq<Entry>) {
    && StrictlySorted(NamesOf(kept))
    && (forall e :: e in kept ==> e in es)
    && (forall e :: e in es ==> e.name in NamesOf(kept))
  }

  /** Stands for the library's unstable sort: equal names may end up in any order. */
  method SortByName(es: seq<Entry>) returns (out: seq<Entry>)
    ensures Sorted(out) && multiset(out) == multiset(es)
  {
    out := [];
    for i := 0 to |es|
      invariant Sorted(out) && multiset(out) == multiset(es[..i])
    {
      var k := 0;
      while k < |out| && Less(out[k].name, es[i].name)
        invariant 0 <= k <= |out|
        invariant forall j :: 0 <= j < k ==> Less(out[j].name, es[i].name)
      {
        k := k + 1;
      }
      SortedInsert(out, k, es[i]);
      assert es[..i + 1] == es[..i] + [es[i]];
      assert out == out[..k] + out[k..];
      out := out[..k] + [es[i]] + out[k..];
    }
    assert es[..|es|] == es;
  }

  lemma SortedInsert(out: seq<Entry>, k: nat, e: Entry)
    requires Sorted(out) && k <= |out| && forall j :: 0 <= j < k ==> Less(out[j].name, e.name)
    requires k < |out| ==> !Less(out[k].name, e.name)
    ensures Sorted(out[..k] + [e] + out[k..])
  {
    forall j | k <= j < |out| ensures Leq(e.name, out[j].name) {
      LessTotal(out[k].name, e.name);
      if k < j {
        LeqTrans(e.name, out[k].name, out[j].name);
      }
    }
  }

  /** Drops every entry whose name is that of the entry before it. */
  method DedupByName(es: seq<Entry>) returns (out: seq<Entry>)
    requires Sorted(es)
    ensures IsSortedSet(es, out)
  {
    hide IsSortedSet;
    out := [];
    NothingKept();
    for i := 0 to |es|
      invariant IsSortedSet(es[..i], out) && (out == [] <==> i == 0)
      invariant 0 < i ==> out[|out| - 1].name == es[i - 1].name
    {
      assert es[..i + 1] == es[..i] + [es[i]];
      if out == [] || out[|out| - 1].name != es[i].name {
        if 0 < i {
          assert Less(out[|out| - 1].name, es[i].name);
        }
        KeepNext(es[..i], out, es[i]);
        out := out + [es[i]];
      } else {
        DropNext(es[..i], out, es[i]);
      }
    }
    assert es[..|es|] == es;
  }

  lemma NothingKept()
    ensures IsSortedSet([], [])
  {
  }

  lemma KeepNext(es: seq<Entry>, out: seq<Entry>, e: Entry)
    requires IsSortedSet(es, out) && (out == [] || Less(out[|out| - 1].name, e.name))
    ensures IsSortedSet(es + [e], out + [e])
  {
    var ns := NamesOf(out);
    forall j | 0 <= j < |out| ensures Less(out[j].name, e.name) {
      if j < |out| - 1 {
        assert Less(ns[j], ns[|out| - 1]);
        LessTrans(out[j].name, out[|out| - 1].name, e.name);
      }
    }
    assert NamesOf(out + [e]) == ns + [e.name];
  }

  lemma DropNext(es: seq<Entry>, out: seq<Entry>, e: Entry)
    requires IsSortedSet(es, out) && out != [] && out[|out| - 1].name == e.name
    ensures IsSortedSet(es + [e], out)
  {
    assert NamesOf(out)[|out| - 1] == e.name;
  }

  /** Sorting the same set of names in any way gives the same list. */
  lemma {:induction false} SortedUnique(a: seq<Name>, b: seq<Name>)
    requires StrictlySorted(a) && StrictlySorted(b) && forall n :: n in a <==> n in b
    ensures a == b
  {
    if a != [] {
      assert a[0] in b;
      assert b[0] in a;
      FirstIsLeast(a, b[0]);
      FirstIsLeast(b, a[0]);
      LeastTwice(a[0], b[0]);
      forall n ensures n in a[1..] <==> n in b[1..] {
        TailMember(a, n);
        TailMember(b, n);
      }
      SortedUnique(a[1..], b[1..]);
      assert a == [a[0]] + a[1..] && b == [b[0]] + b[1..];
    } else if b != [] {
      HasMember(b);
    }
  }

  lemma HasMember(b: seq<Name>)
    requires b != []
    ensures exists n :: n in b
  {
    assert b[0] in b;
  }

  lemma FirstIsLeast(a: seq<Name>, n: Name)
    requires StrictlySorted(a) && n in a
    ensures Leq(a[0], n)
  {
  }

  lemma LeastTwice(a: Name, b: Name)
    requires Leq(a, b) && Leq(b, a)
    ensures a == b
  {
    if a != b {
      LessTrans(a, b, a);
      LessIrreflexive(a);
    }
  }

  lemma TailMember(a: seq<Name>, n: Name)
    requires StrictlySorted(a) && a != []
    ensures n in a[1..] <==> n in a && n != a[0]
  {
    LessIrreflexive(a[0]);
    if n in a && n != a[0] {
      var i :| 0 <= i < |a| && a[i] == n;
      assert a[1..][i - 1] == n;
    }
    if n in a[1..] {
      var i :| 0 <= i < |a| - 1 && a[1..][i] == n;
      assert Less(a[0], a[i + 1]);
    }
  }

  // ---------------------------------------------------------------- writing strings

  /** The empty string, then every name with its NUL. */
  function StringData(ns: seq<Name>): (r: seq<u8>)
    ensures 0 < |r| && r[0] == 0
  {
    if ns == [] then [0] else StringData(ns[..|ns| - 1]) + (ns[|ns| - 1] + [0])
  }

  /** The index of name `k` in the rebuilt stream. */
  function NewIndex(ns: seq<Name>, k: nat): nat
    requires k <= |ns|
  {
    |StringData(ns[..k])|
  }

  function Align4(n: nat): nat {
    (n + 3) / 4 * 4
  }

  /** The least multiple of four that is not smaller. */
  lemma Align4Is(n: nat)
    ensures Align4(n) % 4 == 0 && n <= Align4(n) < n + 4
  {
  }

  /** The string data, padded with zeros to a multiple of four bytes. */
  function Padded(ns: seq<Name>): (r: seq<u8>)
    ensures StringData(ns) <= r && |r| == Align4(|StringData(ns)|)
    ensures forall i :: |StringData(ns)| <= i < |r| ==> r[i] == 0
  {
    StringData(ns) + Zeros(Align4(|StringData(ns)|) - |StringData(ns)|)
  }

  predicate AllNames(ns: seq<Name>) {
    forall i :: 0 <= i < |ns| ==> IsName(ns[i])
  }

  lemma NewIndexStep(ns: seq<Name>, k: nat)
    requires k < |ns|
    ensures NewIndex(ns, k + 1) == NewIndex(ns, k) + |ns[k]| + 1
    ensures StringData(ns[..k + 1]) == StringData(ns[..k]) + (ns[k] + [0])
  {
    assert ns[..k + 1][..k] == ns[..k];
  }

  lemma {:induction false} DataPrefix(ns: seq<Name>, k: nat)
    requires k <= |ns|
    ensures StringData(ns[..k]) <= StringData(ns)
    decreases |ns| - k
  {
    if k == |ns| {
      assert ns[..k] == ns;
    } else {
      DataPrefix(ns, k + 1);
      NewIndexStep(ns, k);
    }
  }

  lemma {:induction false} NewIndexGrows(ns: seq<Name>, j: nat, k: nat)
    requires j < k <= |ns|
    ensures 0 < NewIndex(ns, j) < NewIndex(ns, k)
  {
    NewIndexStep(ns, k - 1);
    if j < k - 1 {
      NewIndexGrows(ns, j, k - 1);
    }
  }

  lemma {:induction false} EndIs(data: seq<u8>, at: nat, z: nat)
    requires at <= z <= |data| && (forall k :: at <= k < z ==> data[k] != 0) && (z < |data| ==> data[z] == 0)
    ensures StrEnd(data, at) == z
    decreases z - at
  {
    if at < z {
      EndIs(data, at + 1, z);
    }
  }

  /** Looking up the new index of a name gives the name. */
  lemma NewIndexNames(ns: seq<Name>, k: nat)
    requires AllNames(ns) && k < |ns|
    ensures NewIndex(ns, k) + |ns[k]| < |Padded(ns)| && StrEnd(Padded(ns), NewIndex(ns, k)) == NewIndex(ns, k) + |ns[k]|
    ensures GetString(Padded(ns), NewIndex(ns, k)) == Some(ns[k])
  {
    var d, at := Padded(ns), NewIndex(ns, k);
    NewIndexStep(ns, k);
    DataPrefix(ns, k + 1);
    var part := StringData(ns[..k]) + (ns[k] + [0]);
    assert part <= d;
    assert d[at..at + |ns[k]|] == ns[k] && d[at + |ns[k]|] == 0 by {
      assert part[at..at + |ns[k]|] == ns[k] && part[at + |ns[k]|] == 0;
      assert d[..|part|] == part;
    }
    forall i | at <= i < at + |ns[k]| ensures d[i] != 0 {
      assert d[i] == ns[k][i - at];
    }
    EndIs(d, at, at + |ns[k]|);
  }

  function Numbered(ns: seq<Name>): (r: seq<Entry>)
    ensures |r| == |ns| && forall k :: 0 <= k < |ns| ==> r[k] == Entry(NewIndex(ns, k), ns[k])
  {
    seq(|ns|, k requires 0 <= k < |ns| => Entry(NewIndex(ns, k), ns[k]))
  }

  lemma {:induction false} ZerosNameNothing(data: seq<u8>, at: nat)
    requires at <= |data| && forall i :: at <= i < |data| ==> data[i] == 0
    ensures NamesFrom(data, at) == []
    decreases |data| - at
  {
    if at < |data| {
      ZerosNameNothing(data, at + 1);
    }
  }

  lemma {:induction false} RereadFrom(ns: seq<Name>, k: nat)
    requires AllNames(ns) && k <= |ns|
    ensures NewIndex(ns, k) <= |Padded(ns)| && NamesFrom(Padded(ns), NewIndex(ns, k)) == Numbered(ns)[k..]
    decreases |ns| - k
  {
    hide *;
    if k == |ns| {
      RereadEnd(ns);
      assert Numbered(ns)[k..] == [];
    } else {
      NewIndexNames(ns, k);
      NewIndexStep(ns, k);
      NotEmpty(ns, k);
      RereadFrom(ns, k + 1);
      NextName(Padded(ns), NewIndex(ns, k), NewIndex(ns, k) + |ns[k]|, ns[k]);
      assert Numbered(ns)[k..] == [Numbered(ns)[k]] + Numbered(ns)[k + 1..];
    }
  }

  lemma RereadEnd(ns: seq<Name>)
    ensures NewIndex(ns, |ns|) <= |Padded(ns)| && NamesFrom(Padded(ns), NewIndex(ns, |ns|)) == []
  {
    assert ns[..|ns|] == ns;
    ZerosNameNothing(Padded(ns), NewIndex(ns, |ns|));
  }

  lemma NotEmpty(ns: seq<Name>, k: nat)
    requires AllNames(ns) && k < |ns|
    ensures ns[k] != []
  {
  }

  lemma NextName(data: seq<u8>, at: nat, z: nat, name: Name)
    requires at < z < |data| && StrEnd(data, at) == z && GetString(data, at) == Some(name)
    ensures NamesFrom(data, at) == [Entry(at, name)] + NamesFrom(data, z + 1)
  {
  }

  /** Reading back what was written gives the names at their new indexes. */
  lemma Reread(ns: seq<Name>)
    requires AllNames(ns)
    ensures NamesFrom(Padded(ns), 0) == Numbered(ns)
  {
    EndIs(Padded(ns), 0, 0);
    assert StringData(ns[..0]) == [0];
    RereadFrom(ns, 0);
    assert Numbered(ns)[0..] == Numbered(ns);
  }
}
