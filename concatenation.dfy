/** Driving a `GrowableFixedSizeList` over every slot of every bound source,
    in order, and the concatenation it must produce. */
module Concatenation {
  import opened Results
  import opened Bitmaps
  import opened Arrays
  import opened Growable

  /** Every source is a well-formed fixed-size-list array. */
  ghost predicate AllWellFormed(arrays: seq<FixedSizeListArray>) {
    forall i :: 0 <= i < |arrays| ==> arrays[i].Valid()
  }

  /** The child values of all sources, one after the other. */
  function ChildValues(arrays: seq<FixedSizeListArray>): seq<int> {
    if arrays == [] then []
    else ChildValues(arrays[..|arrays| - 1]) + arrays[|arrays| - 1].values.values
  }

  /** The child-level validity of all sources, one after the other. */
  function ChildBits(arrays: seq<FixedSizeListArray>): seq<bool>
    requires AllWellFormed(arrays)
  {
    if arrays == [] then []
    else ChildBits(arrays[..|arrays| - 1]) + arrays[|arrays| - 1].values.Bits()
  }

  /** The slot-level validity of all sources, one after the other. */
  function SlotBits(arrays: seq<FixedSizeListArray>): seq<bool>
    requires AllWellFormed(arrays)
  {
    if arrays == [] then []
    else SlotBits(arrays[..|arrays| - 1]) + arrays[|arrays| - 1].SlotBits()
  }

  function TotalLen(arrays: seq<FixedSizeListArray>): nat
    requires AllWellFormed(arrays)
  {
    if arrays == [] then 0
    else TotalLen(arrays[..|arrays| - 1]) + arrays[|arrays| - 1].Len()
  }

  function TotalNulls(arrays: seq<FixedSizeListArray>): nat {
    if arrays == [] then 0
    else TotalNulls(arrays[..|arrays| - 1]) + arrays[|arrays| - 1].NullCount()
  }

  /** The concatenation of `arrays`: the first source's data type, every
      source's child values in order, and a bitmap at each level exactly when
      the validity-forcing rule asks for one. */
  function Concat(arrays: seq<FixedSizeListArray>, useValidity: bool): FixedSizeListArray
    requires |arrays| > 0 && AllWellFormed(arrays)
  {
    var outer := UseValidity(arrays, useValidity, ListNullCount);
    var inner := UseValidity(Children(arrays), outer, ChildNullCount);
    FixedSizeListArray(
      arrays[0].dataType,
      PrimitiveArray(ChildValues(arrays), if inner then Some(ChildBits(arrays)) else None),
      if outer then Some(SlotBits(arrays)) else None)
  }

  lemma {:induction false} SlotBitsLength(arrays: seq<FixedSizeListArray>)
    requires AllWellFormed(arrays)
    ensures |SlotBits(arrays)| == TotalLen(arrays)
  {
    if arrays != [] {
      SlotBitsLength(arrays[..|arrays| - 1]);
    }
  }

  /** The nulls of the concatenated bitmap are the sources' nulls. */
  lemma {:induction false} SlotBitsNulls(arrays: seq<FixedSizeListArray>)
    requires AllWellFormed(arrays)
    ensures CountUnset(SlotBits(arrays)) == TotalNulls(arrays)
  {
    if arrays != [] {
      var init := arrays[..|arrays| - 1];
      SlotBitsNulls(init);
      CountUnsetAppend(SlotBits(init), arrays[|arrays| - 1].SlotBits());
    }
  }

  /** Sources without nulls contribute no nulls. */
  lemma {:induction false} NoNullsTotal(arrays: seq<FixedSizeListArray>)
    requires forall i :: 0 <= i < |arrays| ==> arrays[i].NullCount() == 0
    ensures TotalNulls(arrays) == 0
  {
    if arrays != [] {
      NoNullsTotal(arrays[..|arrays| - 1]);
    }
  }

  /** Extending over all of a source copies all of its child slots. */
  lemma WholeSource(a: FixedSizeListArray, size: nat)
    requires a.Valid() && size == a.dataType.size
    ensures a.Len() * size == |a.values.values|
  {
    DivExact(|a.values.values|, size);
  }

  lemma PrefixStep(arrays: seq<FixedSizeListArray>, i: nat)
    requires AllWellFormed(arrays) && i < |arrays|
    ensures AllWellFormed(arrays[..i]) && AllWellFormed(arrays[..i + 1])
    ensures ChildValues(arrays[..i + 1]) == ChildValues(arrays[..i]) + arrays[i].values.values
    ensures ChildBits(arrays[..i + 1]) == ChildBits(arrays[..i]) + arrays[i].values.Bits()
    ensures SlotBits(arrays[..i + 1]) == SlotBits(arrays[..i]) + arrays[i].SlotBits()
    ensures TotalLen(arrays[..i + 1]) == TotalLen(arrays[..i]) + arrays[i].Len()
  {
    assert arrays[..i + 1][..i] == arrays[..i];
  }

  /** Sources of one shared size contribute `size` child values per slot. */
  lemma {:induction false} ChildValuesLength(arrays: seq<FixedSizeListArray>, size: nat)
    requires forall i :: 0 <= i < |arrays| ==> arrays[i].Valid() && arrays[i].dataType.size == size
    ensures |ChildValues(arrays)| == size * TotalLen(arrays)
  {
    if arrays != [] {
      var init, last := arrays[..|arrays| - 1], arrays[|arrays| - 1];
      ChildValuesLength(init, size);
      DivExact(|last.values.values|, size);
      assert size * TotalLen(init) + size * last.Len() == size * (TotalLen(init) + last.Len());
    }
  }

  /** The concatenation is a well-formed array holding every slot and every
      null of the sources, with a bitmap exactly when the caller asked for
      one or some source has nulls. */
  lemma ConcatFacts(arrays: seq<FixedSizeListArray>, useValidity: bool)
    requires |arrays| > 0
    requires forall i :: 0 <= i < |arrays| ==> arrays[i].Valid() && arrays[i].dataType == arrays[0].dataType
    ensures Concat(arrays, useValidity).Valid()
    ensures Concat(arrays, useValidity).Len() == TotalLen(arrays)
    ensures Concat(arrays, useValidity).validity.Some?
      <==> useValidity || exists i :: 0 <= i < |arrays| && arrays[i].NullCount() > 0
    ensures Concat(arrays, useValidity).NullCount() == TotalNulls(arrays)
  {
    var r, size := Concat(arrays, useValidity), arrays[0].dataType.size;
    ChildValuesLength(arrays, size);
    MulDiv(TotalLen(arrays), size);
    SlotBitsLength(arrays);
    ChildBitsLength(arrays);
    SlotBitsNulls(arrays);
    if r.validity.None? {
      NoNullsTotal(arrays);
    }
  }

  lemma {:induction false} ChildBitsLength(arrays: seq<FixedSizeListArray>)
    requires AllWellFormed(arrays)
    ensures |ChildBits(arrays)| == |ChildValues(arrays)|
  {
    if arrays != [] {
      ChildBitsLength(arrays[..|arrays| - 1]);
    }
  }

  /** Extends `g` over every slot of its source `i`. */
  method ExtendWhole(g: GrowableFixedSizeList, i: nat)
    requires g.Valid() && i < |g.arrays| && g.arrays[i].dataType == g.arrays[0].dataType
    modifies g, g.values
    ensures g.Valid()
    ensures g.validity == AppendIfTracked(old(g.validity), g.arrays[i].SlotBits())
    ensures g.values.values == old(g.values.values) + g.arrays[i].values.values
    ensures g.values.validity == AppendIfTracked(old(g.values.validity), g.arrays[i].values.Bits())
    ensures g.slots == old(g.slots) + g.arrays[i].Len()
  {
    var source := g.arrays[i];
    WholeSource(source, g.size);
    assert 0 * g.size == 0 && (0 + source.Len()) * g.size == |source.values.values|;
    assert source.values.values[0..|source.values.values|] == source.values.values;
    assert source.values.Bits()[0..|source.values.values|] == source.values.Bits();
    assert source.SlotBits()[0..0 + source.Len()] == source.SlotBits();
    g.Extend(i, 0, source.Len());
  }

  /** Extending over every slot of every source, in source order, yields
      their concatenation (whose properties `ConcatFacts` states). */
  method Concatenate(arrays: seq<FixedSizeListArray>, useValidity: bool) returns (r: FixedSizeListArray)
    requires |arrays| > 0
    requires forall i :: 0 <= i < |arrays| ==> arrays[i].Valid() && arrays[i].dataType == arrays[0].dataType
    ensures r == Concat(arrays, useValidity)
  {
    ghost var outer := UseValidity(arrays, useValidity, ListNullCount);
    ghost var inner := UseValidity(Children(arrays), outer, ChildNullCount);
    var g := new GrowableFixedSizeList(arrays, useValidity, 0);
    var i := 0;
    while i < |arrays|
      invariant 0 <= i <= |arrays|
      invariant fresh(g) && fresh(g.values) && g.Valid()
      invariant g.arrays == arrays && g.size == arrays[0].dataType.size
      invariant g.values.values == ChildValues(arrays[..i])
      invariant g.values.validity == if inner then Some(ChildBits(arrays[..i])) else None
      invariant g.validity == if outer then Some(SlotBits(arrays[..i])) else None
      invariant g.slots == TotalLen(arrays[..i])
    {
      PrefixStep(arrays, i);
      ExtendWhole(g, i);
      i := i + 1;
    }
    assert arrays[..i] == arrays;
    r := g.To();
  }

  /** A fresh builder given `k` null slots and finalised: the result has `k`
      slots, and they read back as nulls only when the builder tracks a
      bitmap. Without one (the caller did not ask and no source has nulls)
      the `k` slots read back as valid. */
  method NullSlots(arrays: seq<FixedSizeListArray>, useValidity: bool, k: nat) returns (r: FixedSizeListArray)
    requires |arrays| > 0 && AllWellFormed(arrays)
    ensures r.Valid() && r.Len() == k
    ensures r.validity.Some? <==> UseValidity(arrays, useValidity, ListNullCount)
    ensures r.NullCount() == if UseValidity(arrays, useValidity, ListNullCount) then k else 0
  {
    var g := new GrowableFixedSizeList(arrays, useValidity, 0);
    g.ExtendValidity(k);
    r := g.To();
  }
}
