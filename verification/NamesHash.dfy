/** The hash table of the Names Stream (pdb/src/names.rs). */
module NamesHash {
  import opened Bytes
  import opened Probing
  import opened Names

  /** The hash of a name, before it is reduced to the size of the table. */
  type HashFn = Name -> nat

  function NumHashes(numNames: nat): (n: nat)
    ensures numNames <= n && (2 <= numNames ==> numNames < n)
  {
    numNames * 6 / 4
  }

  /** Half as many slots again as there are names, rounded down. */
  lemma NumHashesIs(numNames: nat)
    ensures 2 * NumHashes(numNames) <= 3 * numNames < 2 * NumHashes(numNames) + 2
  {
  }

  /** A slot is free when it holds zero, which is the index of the empty string. */
  function Occupied(table: seq<nat>): (occ: seq<bool>)
    ensures |occ| == |table| && forall i :: 0 <= i < |table| ==> occ[i] == (table[i] != 0)
  {
    seq(|table|, i requires 0 <= i < |table| => table[i] != 0)
  }

  lemma OccupiedSet(table: seq<nat>, i: nat, v: nat)
    requires i < |table| && 0 < v
    ensures Occupied(table[i := v]) == Occupied(table)[i := true]
  {
  }

  lemma NewIndexPositive(ns: seq<Name>, k: nat)
    requires k <= |ns|
    ensures 0 < NewIndex(ns, k)
  {
  }

  /** The table after the names have been inserted in order. */
  function TableFor(ns: seq<Name>, hash: HashFn, n: nat): (t: seq<nat>)
    requires |ns| <= n
    ensures |t| == n && Count(Occupied(t)) == |ns|
  {
    if ns == [] then
      var t := seq(n, _ => 0);
      CountFalse(Occupied(t));
      t
    else
      var t := TableFor(ns[..|ns| - 1], hash, n);
      var h := hash(ns[|ns| - 1]) % n;
      SlotIsFree(Occupied(t), h);
      NewIndexPositive(ns, |ns| - 1);
      OccupiedSet(t, Slot(Occupied(t), h), NewIndex(ns, |ns| - 1));
      CountSet(Occupied(t), Slot(Occupied(t), h));
      t[Slot(Occupied(t), h) := NewIndex(ns, |ns| - 1)]
  }

  lemma SlotIs(occ: seq<bool>, h: nat, slot: nat)
    requires h < |occ| && slot < |occ| && !occ[slot]
    requires (h <= slot && forall j :: h <= j < slot ==> occ[j])
             || ((forall j :: h <= j < |occ| ==> occ[j]) && forall j :: 0 <= j < slot ==> occ[j])
    ensures Slot(occ, h) == slot
  {
    var a, b := Scan(occ, h), Scan(occ, 0);
  }

  /** Stores an index in the first free slot from `h` on. The search wraps around at most once. */
  method InsertIndex(table: seq<nat>, newIndex: nat, h: nat) returns (t: seq<nat>)
    requires 0 < newIndex && h < |table| && Count(Occupied(table)) < |table|
    ensures Slot(Occupied(table), h) < |table| && t == table[Slot(Occupied(table), h) := newIndex]
  {
    var hi, wrapped := h, false;
    ghost var z := FreeSlotExists(Occupied(table));
    while table[hi] != 0
      invariant 0 <= hi < |table|
      invariant !wrapped ==> h <= hi && forall j :: h <= j < hi ==> table[j] != 0
      invariant wrapped ==> (forall j :: h <= j < |table| ==> table[j] != 0) && forall j :: 0 <= j < hi ==> table[j] != 0
      decreases !wrapped, |table| - hi
    {
      hi := hi + 1;
      if hi == |table| {
        hi := 0;
        // The search does not wrap around twice.
        assert !wrapped;
        wrapped := true;
      }
    }
    SlotIs(Occupied(table), h, hi);
    t := table[hi := newIndex];
  }

  method BuildHashTable(ns: seq<Name>, hash: HashFn) returns (table: seq<nat>)
    ensures table == TableFor(ns, hash, NumHashes(|ns|))
  {
    var n := NumHashes(|ns|);
    table := seq(n, _ => 0);
    assert ns[..0] == [];
    var newIndex := 1;
    for k := 0 to |ns|
      invariant table == TableFor(ns[..k], hash, n) && newIndex == NewIndex(ns, k)
    {
      assert ns[..k + 1][..k] == ns[..k];
      NewIndexStep(ns, k);
      NewIndexPositive(ns, k);
      table := InsertIndex(table, newIndex, hash(ns[k]) % n);
      newIndex := newIndex + |ns[k]| + 1;
    }
    assert ns[..|ns|] == ns;
  }

  lemma TableStep(ns: seq<Name>, hash: HashFn, n: nat)
    requires 0 < |ns| <= n
    ensures var m := |ns| - 1;
            var t, t' := TableFor(ns[..m], hash, n), TableFor(ns, hash, n);
            var slot := Slot(Occupied(t), hash(ns[m]) % n);
            && slot < n && t' == t[slot := NewIndex(ns, m)] && t[slot] == 0 && 0 < NewIndex(ns, m)
            && Occupied(t') == Occupied(t)[slot := true]
            && Linked(Occupied(t'), hash(ns[m]) % n, slot)
  {
    var m := |ns| - 1;
    var t := TableFor(ns[..m], hash, n);
    SlotIsFree(Occupied(t), hash(ns[m]) % n);
    NewIndexPositive(ns, m);
    OccupiedSet(t, Slot(Occupied(t), hash(ns[m]) % n), NewIndex(ns, m));
  }

  /** Every name is found from its home slot, through occupied slots only. */
  lemma {:induction false} IndexReachable(ns: seq<Name>, hash: HashFn, n: nat, k: nat) returns (slot: nat)
    requires k < |ns| <= n
    ensures slot < n && TableFor(ns, hash, n)[slot] == NewIndex(ns, k)
    ensures Linked(Occupied(TableFor(ns, hash, n)), hash(ns[k]) % n, slot)
  {
    var m := |ns| - 1;
    TableStep(ns, hash, n);
    if k == m {
      slot := Slot(Occupied(TableFor(ns[..m], hash, n)), hash(ns[m]) % n);
    } else {
      slot := IndexReachable(ns[..m], hash, n, k);
      assert ns[..m][..k] == ns[..k];
      NewIndexPositive(ns, k);
      LinkedGrows(Occupied(TableFor(ns[..m], hash, n)), Occupied(TableFor(ns, hash, n)), hash(ns[k]) % n, slot);
    }
  }

  /** The slot holds one of the first `k` names. */
  ghost predicate HoldsEarlier(ns: seq<Name>, hash: HashFn, n: nat, k: nat, slot: nat)
    requires k <= |ns| <= n && slot < n
  {
    exists i :: 0 <= i < k && TableFor(ns, hash, n)[slot] == NewIndex(ns, i)
  }

  lemma StillEarlier(ns: seq<Name>, hash: HashFn, n: nat, k: nat, slot: nat)
    requires 0 < |ns| <= n && k < |ns| && slot < n && HoldsEarlier(ns[..|ns| - 1], hash, n, k, slot)
    ensures HoldsEarlier(ns, hash, n, k, slot)
  {
    hide TableFor;
    hide Linked;
    var m := |ns| - 1;
    TableStep(ns, hash, n);
    var i :| 0 <= i < k && TableFor(ns[..m], hash, n)[slot] == NewIndex(ns[..m], i);
    assert ns[..m][..i] == ns[..i];
    NewIndexPositive(ns, i);
  }

  lemma AllEarlier(ns: seq<Name>, hash: HashFn, n: nat, slot: nat)
    requires |ns| <= n && slot < n && TableFor(ns, hash, n)[slot] != 0
    ensures HoldsEarlier(ns, hash, n, |ns|, slot)
  {
    var i := EntryIsIndex(ns, hash, n, slot);
  }

  /** Each name is in the first slot, from its home slot on, that no earlier name has taken. */
  lemma {:induction false} EarlierFirst(ns: seq<Name>, hash: HashFn, n: nat, k: nat) returns (slot: nat)
    requires k < |ns| <= n
    ensures slot < n && TableFor(ns, hash, n)[slot] == NewIndex(ns, k)
    ensures forall j: nat | Passed(n, hash(ns[k]) % n, slot, j) :: j < n && HoldsEarlier(ns, hash, n, k, j)
  {
    hide *;
    var m := |ns| - 1;
    TableStep(ns, hash, n);
    var before, h := TableFor(ns[..m], hash, n), hash(ns[k]) % n;
    if k == m {
      slot := Slot(Occupied(before), h);
    } else {
      slot := EarlierFirst(ns[..m], hash, n, k);
      SameIndex(ns, m, k);
    }
    forall j: nat | Passed(n, h, slot, j) ensures j < n && HoldsEarlier(ns, hash, n, k, j) {
      if k == m {
        PassesOccupied(Occupied(before), h, j);
        PassedInside(n, h, slot, j);
        AllEarlier(ns[..m], hash, n, j);
      }
      StillEarlier(ns, hash, n, k, j);
    }
  }

  lemma SameIndex(ns: seq<Name>, m: nat, k: nat)
    requires k < m <= |ns|
    ensures NewIndex(ns[..m], k) == NewIndex(ns, k) && 0 < NewIndex(ns, k) && ns[..m][k] == ns[k]
  {
    assert ns[..m][..k] == ns[..k];
  }

  /** Every entry is the index of a name, and sits where that name can be found. */
  lemma {:induction false} EntryIsIndex(ns: seq<Name>, hash: HashFn, n: nat, slot: nat) returns (k: nat)
    requires slot < n && |ns| <= n && TableFor(ns, hash, n)[slot] != 0
    ensures k < |ns| && TableFor(ns, hash, n)[slot] == NewIndex(ns, k)
    ensures Linked(Occupied(TableFor(ns, hash, n)), hash(ns[k]) % n, slot)
  {
    var m := |ns| - 1;
    TableStep(ns, hash, n);
    if slot == Slot(Occupied(TableFor(ns[..m], hash, n)), hash(ns[m]) % n) {
      k := m;
    } else {
      k := EntryIsIndex(ns[..m], hash, n, slot);
      assert ns[..m][..k] == ns[..k];
      LinkedGrows(Occupied(TableFor(ns[..m], hash, n)), Occupied(TableFor(ns, hash, n)), hash(ns[k]) % n, slot);
    }
  }

  // ---------------------------------------------------------------- collision ranges

  /** A half-open range of slots. */
  datatype Range = Range(start: nat, end: nat) {
    predicate Has(j: nat) {
      start <= j < end
    }
  }

  /** The two slots belong to the same run of occupied slots, which may wrap around. */
  predicate SameRun(occ: seq<bool>, i: nat, j: nat) {
    Linked(occ, i, j) || Linked(occ, j, i)
  }

  /** Finds the whole run of occupied slots around an occupied slot, in up to two pieces. */
  method FindCollisionRanges(hashes: seq<nat>, i: nat) returns (r1: Range, r2: Range)
    requires i < |hashes| && hashes[i] != 0
    ensures forall j :: 0 <= j < |hashes| ==> (r1.Has(j) || r2.Has(j) <==> SameRun(Occupied(hashes), i, j))
    ensures r1.Has(i) && r1.end <= |hashes| && r2.end <= |hashes|
    ensures forall j :: !(r1.Has(j) && r2.Has(j))
  {
    var start := i;
    while start > 0 && hashes[start - 1] != 0
      invariant 0 <= start <= i && forall j :: start <= j <= i ==> hashes[j] != 0
    {
      start := start - 1;
    }
    var end := i + 1;
    while end < |hashes| && hashes[end] != 0
      invariant i < end <= |hashes| && forall j :: i <= j < end ==> hashes[j] != 0
    {
      end := end + 1;
    }
    r1, r2 := Range(start, end), Range(0, 0);
    if start == 0 {
      if end == |hashes| {
        return;
      }
      var start2 := |hashes|;
      while start2 > 0 && hashes[start2 - 1] != 0
        invariant end < start2 <= |hashes| && forall j :: start2 <= j < |hashes| ==> hashes[j] != 0
      {
        start2 := start2 - 1;
        // The free slot at `end` stops the loop.
        assert start2 > end;
      }
      if start2 != |hashes| {
        r2 := Range(start2, |hashes|);
      }
    } else if end == |hashes| {
      var end2 := 0;
      while end2 < |hashes| && hashes[end2] != 0
        invariant end2 < start && forall j :: 0 <= j < end2 ==> hashes[j] != 0
      {
        // The free slot before `start` stops the loop.
        assert end2 < start;
        end2 := end2 + 1;
      }
      r2 := Range(0, end2);
    }
  }

  /** The run around an entry contains the home slot of the name that the entry stands for. */
  lemma HomeInRun(ns: seq<Name>, hash: HashFn, n: nat, slot: nat) returns (k: nat)
    requires slot < n && |ns| <= n && TableFor(ns, hash, n)[slot] != 0
    ensures k < |ns| && TableFor(ns, hash, n)[slot] == NewIndex(ns, k)
    ensures SameRun(Occupied(TableFor(ns, hash, n)), slot, hash(ns[k]) % n)
  {
    k := EntryIsIndex(ns, hash, n, slot);
  }
}
