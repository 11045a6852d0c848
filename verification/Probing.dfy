/** Linear probing: where an insertion ends up, and why a lookup from the home slot finds it again. */
module Probing {

  /** Every slot from `a` up to `b` is occupied, wrapping around at the end of the table. */
  predicate Linked(occ: seq<bool>, a: nat, b: nat) {
    && a < |occ| && b < |occ|
    && if a <= b then forall j :: a <= j <= b ==> occ[j]
       else (forall j :: a <= j < |occ| ==> occ[j]) && (forall j :: 0 <= j <= b ==> occ[j])
  }

  /** The first free slot from `j` on, or the size of the table. */
  function Scan(occ: seq<bool>, j: nat): (r: nat)
    requires j <= |occ|
    ensures j <= r <= |occ| && (r < |occ| ==> !occ[r])
    ensures forall k :: j <= k < r ==> occ[k]
    decreases |occ| - j
  {
    if j == |occ| || !occ[j] then j else Scan(occ, j + 1)
  }

  /** The slot that an insertion with home slot `h` takes. */
  function Slot(occ: seq<bool>, h: nat): nat
    requires h <= |occ|
  {
    if Scan(occ, h) < |occ| then Scan(occ, h) else Scan(occ, 0)
  }

  function Count(occ: seq<bool>): (n: nat)
    ensures n <= |occ|
  {
    if occ == [] then 0 else Count(occ[..|occ| - 1]) + if occ[|occ| - 1] then 1 else 0
  }

  lemma {:induction false} FreeSlotExists(occ: seq<bool>) returns (z: nat)
    requires Count(occ) < |occ|
    ensures z < |occ| && !occ[z]
  {
    if occ[|occ| - 1] {
      z := FreeSlotExists(occ[..|occ| - 1]);
    } else {
      z := |occ| - 1;
    }
  }

  lemma {:induction false} CountSet(occ: seq<bool>, i: nat)
    requires i < |occ| && !occ[i]
    ensures Count(occ[i := true]) == Count(occ) + 1
  {
    var n := |occ| - 1;
    if i < n {
      CountSet(occ[..n], i);
      assert occ[i := true][..n] == occ[..n][i := true];
    } else {
      assert occ[i := true][..n] == occ[..n];
    }
  }

  lemma {:induction false} CountFalse(occ: seq<bool>)
    requires forall i :: 0 <= i < |occ| ==> !occ[i]
    ensures Count(occ) == 0
  {
    if occ != [] {
      CountFalse(occ[..|occ| - 1]);
    }
  }

  /** In a table that is not full, an insertion finds a free slot that is linked to its home slot. */
  lemma SlotIsFree(occ: seq<bool>, h: nat)
    requires h < |occ| && Count(occ) < |occ|
    ensures var slot := Slot(occ, h);
            slot < |occ| && !occ[slot] && Linked(occ[slot := true], h, slot)
  {
    var z := FreeSlotExists(occ);
    var a, b := Scan(occ, h), Scan(occ, 0);
    hide Scan;
    if a < |occ| {
      LinkedTo(occ, h, a);
    } else {
      LinkedTo(occ, h, b);
    }
  }

  /** A search from `h` passes slot `j` before it comes to `slot`. */
  predicate Passed(n: nat, h: nat, slot: nat, j: nat) {
    j < n && if h <= slot then h <= j < slot else h <= j || j < slot
  }

  lemma PassedInside(n: nat, h: nat, slot: nat, j: nat)
    requires Passed(n, h, slot, j)
    ensures j < n
  {
  }

  /** All slots that an insertion passes are occupied. */
  lemma PassesOccupied(occ: seq<bool>, h: nat, j: nat)
    requires h < |occ| && Count(occ) < |occ| && Passed(|occ|, h, Slot(occ, h), j)
    ensures occ[j]
  {
    var z := FreeSlotExists(occ);
    var a, b := Scan(occ, h), Scan(occ, 0);
    hide Scan;
  }

  /** Filling the slot where a search ends links it to where the search began. */
  lemma LinkedTo(occ: seq<bool>, h: nat, slot: nat)
    requires h < |occ| && slot < |occ|
    requires (h <= slot && forall j :: h <= j < slot ==> occ[j])
             || (slot < h && (forall j :: h <= j < |occ| ==> occ[j]) && forall j :: 0 <= j < slot ==> occ[j])
    ensures Linked(occ[slot := true], h, slot)
  {
  }

  /** A slot is linked to its home slot if it and all slots that a search passes are occupied. */
  lemma LinkedWhenPassed(occ: seq<bool>, h: nat, slot: nat)
    requires h < |occ| && slot < |occ| && occ[slot] && forall j: nat | Passed(|occ|, h, slot, j) :: j < |occ| && occ[j]
    ensures Linked(occ, h, slot)
  {
    forall j | 0 <= j < |occ| && (if h <= slot then h <= j <= slot else h <= j || j <= slot) ensures occ[j] {
      if j != slot {
        assert Passed(|occ|, h, slot, j);
      }
    }
  }

  /** Later insertions do not break a link. */
  lemma LinkedGrows(occ: seq<bool>, occ': seq<bool>, a: nat, b: nat)
    requires Linked(occ, a, b) && |occ'| == |occ| && forall j :: 0 <= j < |occ| && occ[j] ==> occ'[j]
    ensures Linked(occ', a, b)
  {
  }
}
