/** The part of java.util.BitSet the update-rows writer relies on: nextSetBit,
    and the ascending list of set indices that repeated nextSetBit calls walk. */
module BitSets {

  /** A bit set as its bits 0 .. |bits|-1; every index at or beyond |bits| is clear. */
  type BitSet = seq<bool>

  /** Strictly increasing, hence also free of repetitions. */
  ghost predicate Ascending(s: seq<nat>)
  {
    forall p, q :: 0 <= p < q < |s| ==> s[p] < s[q]
  }

  /** BitSet.nextSetBit(from): the least set index at or after `from`, or -1 when there is none. */
  function NextSetBit(bits: BitSet, from: nat): (r: int)
    ensures r == -1 || (from <= r < |bits| && bits[r])
    ensures r == -1 ==> forall j :: from <= j < |bits| ==> !bits[j]
    ensures r != -1 ==> forall j :: from <= j < r ==> !bits[j]
    decreases |bits| - from
  {
    if from >= |bits| then -1
    else if bits[from] then from
    else NextSetBit(bits, from + 1)
  }

  /** The set indices below `n`, ascending: the reference enumeration of a bit set. */
  function SetBitsBelow(bits: BitSet, n: nat): (idx: seq<nat>)
    requires n <= |bits|
    ensures forall k :: 0 <= k < |idx| ==> idx[k] < n && bits[idx[k]]
    decreases n
  {
    if n == 0 then []
    else SetBitsBelow(bits, n - 1) + (if bits[n - 1] then [n - 1] else [])
  }

  /** All set indices, ascending. */
  function SetBits(bits: BitSet): seq<nat>
  {
    SetBitsBelow(bits, |bits|)
  }

  /** SetBitsBelow is strictly increasing. */
  lemma {:induction false} SetBitsBelowAscending(bits: BitSet, n: nat)
    requires n <= |bits|
    ensures Ascending(SetBitsBelow(bits, n))
    decreases n
  {
    if n > 0 {
      SetBitsBelowAscending(bits, n - 1);
    }
  }

  /** No set index below `n` is missing from SetBitsBelow(bits, n). */
  lemma {:induction false} SetBitsBelowComplete(bits: BitSet, n: nat, i: nat)
    requires n <= |bits| && i < n && bits[i]
    ensures i in SetBitsBelow(bits, n)
    decreases n
  {
    if i < n - 1 {
      SetBitsBelowComplete(bits, n - 1, i);
    }
  }

  /** SetBits lists exactly the set indices, each once, in ascending order. */
  lemma SetBitsExact(bits: BitSet)
    ensures Ascending(SetBits(bits))
    ensures forall i: nat :: i in SetBits(bits) <==> i < |bits| && bits[i]
  {
    SetBitsBelowAscending(bits, |bits|);
    forall i: nat | i < |bits| && bits[i]
      ensures i in SetBits(bits)
    {
      SetBitsBelowComplete(bits, |bits|, i);
    }
  }

  /** Clear bits add nothing: between two positions with only clear bits in between,
      the list of set indices does not grow. */
  lemma {:induction false} SkipClear(bits: BitSet, a: nat, b: nat)
    requires a <= b <= |bits|
    requires forall j :: a <= j < b ==> !bits[j]
    ensures SetBitsBelow(bits, b) == SetBitsBelow(bits, a)
    decreases b - a
  {
    if a < b {
      SkipClear(bits, a, b - 1);
    }
  }

  /** The indices a loop `i := nextSetBit(from); while i != -1 { ...; i := nextSetBit(i + 1) }`
      visits, in visiting order. */
  function Walk(bits: BitSet, from: nat): seq<nat>
    decreases |bits| - from
  {
    var r := NextSetBit(bits, from);
    if r == -1 then [] else [r] + Walk(bits, r + 1)
  }

  /** One step of the walk from `from`: it visits r = nextSetBit(from) first, and the
      set indices below r + 1 are those below `from` followed by r. */
  lemma WalkStep(bits: BitSet, from: nat)
    requires from <= |bits|
    requires NextSetBit(bits, from) != -1
    ensures Walk(bits, from) == [NextSetBit(bits, from)] + Walk(bits, NextSetBit(bits, from) + 1)
    ensures SetBitsBelow(bits, NextSetBit(bits, from) + 1) == SetBitsBelow(bits, from) + [NextSetBit(bits, from)]
  {
    SkipClear(bits, from, NextSetBit(bits, from));
  }

  /** Starting at `from`, the walk visits exactly the set indices at or after `from`,
      in ascending order; from 0 it visits SetBits(bits), so every set index once. */
  lemma {:induction false} WalkVisitsSetBits(bits: BitSet, from: nat)
    requires from <= |bits|
    ensures SetBitsBelow(bits, from) + Walk(bits, from) == SetBits(bits)
    decreases |bits| - from
  {
    var r := NextSetBit(bits, from);
    if r == -1 {
      SkipClear(bits, from, |bits|);
    } else {
      WalkStep(bits, from);
      WalkVisitsSetBits(bits, r + 1);
      AppendAssoc(SetBitsBelow(bits, from), [r], Walk(bits, r + 1));
    }
  }

  lemma AppendAssoc(a: seq<nat>, b: seq<nat>, c: seq<nat>)
    ensures a + (b + c) == a + b + c
  {
  }

  /** The set indices a nextSetBit loop has visited when its cursor is at `i`: those
      below i, or all of them once the cursor is -1. */
  function VisitedBefore(bits: BitSet, i: int): seq<nat>
    requires i == -1 || 0 <= i <= |bits|
  {
    SetBitsBelow(bits, if i == -1 then |bits| else i)
  }

  /** With the cursor at nextSetBit(0) nothing has been visited yet. */
  lemma VisitedStart(bits: BitSet)
    ensures VisitedBefore(bits, NextSetBit(bits, 0)) == []
  {
    var r := NextSetBit(bits, 0);
    SkipClear(bits, 0, if r == -1 then |bits| else r);
  }

  /** Moving the cursor from set index i to nextSetBit(i + 1) visits i and nothing else. */
  lemma VisitedStep(bits: BitSet, i: nat)
    requires i < |bits| && bits[i]
    ensures VisitedBefore(bits, NextSetBit(bits, i + 1)) == VisitedBefore(bits, i) + [i]
  {
    var r := NextSetBit(bits, i + 1);
    SkipClear(bits, i + 1, if r == -1 then |bits| else r);
  }

  /** The walk from 0 enumerates the bit set. */
  lemma WalkFromZero(bits: BitSet)
    ensures Walk(bits, 0) == SetBits(bits)
  {
    WalkVisitsSetBits(bits, 0);
  }
}
