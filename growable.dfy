/** The growable builders: `GrowableFixedSizeList`, which assembles a
    fixed-size-list array from ranges of bound source arrays, and the flat
    child builder it owns and drives for the flattened child values. */
module Growable {
  import opened Results
  import opened Bitmaps
  import opened Arrays

  /** True when some bound source has at least one null. */
  function AnyHasNulls<A>(arrays: seq<A>, nullCount: A -> nat): (b: bool)
    ensures b <==> exists i :: 0 <= i < |arrays| && nullCount(arrays[i]) > 0
  {
    if arrays == [] then false
    else if nullCount(arrays[0]) > 0 then true
    else
      var rest := AnyHasNulls(arrays[1..], nullCount);
      assert forall i :: 1 <= i < |arrays| ==> arrays[i] == arrays[1..][i - 1];
      rest
  }

  /** The validity-forcing rule a growable applies once, at construction:
      the caller's flag, raised when any bound source has nulls. */
  function UseValidity<A>(arrays: seq<A>, useValidity: bool, nullCount: A -> nat): (b: bool)
    ensures b <==> useValidity || exists i :: 0 <= i < |arrays| && nullCount(arrays[i]) > 0
  {
    if !useValidity && AnyHasNulls(arrays, nullCount) then true else useValidity
  }

  function ListNullCount(a: FixedSizeListArray): nat {
    a.NullCount()
  }

  function ChildNullCount(a: PrimitiveArray): nat {
    a.NullCount()
  }

  /** `prepare_validity`: an empty bitmap when tracking, none otherwise
      (the capacity only pre-allocates). */
  function PrepareValidity(useValidity: bool, capacity: nat): (r: Option<seq<bool>>)
    ensures r.Some? <==> useValidity
    ensures r.Some? ==> r.value == [] && NullCountOf(r) == 0
  {
    if useValidity then Some([]) else None
  }

  /** The effect of `extend_validity` on the target bitmap: the bits of the
      copied range are appended when a bitmap is tracked, and nothing is
      written otherwise. */
  function AppendIfTracked(validity: Option<seq<bool>>, bits: seq<bool>): (r: Option<seq<bool>>)
    ensures r.Some? <==> validity.Some?
    ensures r.Some? ==> |r.value| == |validity.value| + |bits|
    ensures r.Some? ==> r.value[..|validity.value|] == validity.value && r.value[|validity.value|..] == bits
    ensures r.Some? ==> CountUnset(r.value) == CountUnset(validity.value) + CountUnset(bits)
  {
    match validity
    case None => None
    case Some(v) =>
      CountUnsetAppend(v, bits);
      Some(v + bits)
  }

  /** Default values written for child slots that carry no value. */
  function DefaultValues(n: nat): (s: seq<int>)
    ensures |s| == n
  {
    seq(n, _ => 0)
  }

  /** The child arrays of the bound sources, in source order. */
  function Children(arrays: seq<FixedSizeListArray>): (cs: seq<PrimitiveArray>)
    ensures |cs| == |arrays|
    ensures forall i :: 0 <= i < |arrays| ==> cs[i] == arrays[i].values
  {
    seq(|arrays|, i requires 0 <= i < |arrays| => arrays[i].values)
  }

  /** The abstract builder for the flattened child values: it copies child
      slices and appends null child slots, following the same growable
      contract as the outer builder. */
  class PrimitiveGrowable {
    const arrays: seq<PrimitiveArray>
    var values: seq<int>
    var validity: Option<seq<bool>>

    ghost predicate Valid()
      reads this
    {
      && (forall i :: 0 <= i < |arrays| ==> arrays[i].Valid())
      && (validity.Some? ==> |validity.value| == |values|)
    }

    constructor (arrays: seq<PrimitiveArray>, useValidity: bool, capacity: nat)
      requires forall i :: 0 <= i < |arrays| ==> arrays[i].Valid()
      ensures Valid() && this.arrays == arrays && values == []
      ensures validity == PrepareValidity(UseValidity(arrays, useValidity, ChildNullCount), capacity)
    {
      var use := useValidity;
      if !use && AnyHasNulls(arrays, ChildNullCount) {
        use := true;
      }
      this.arrays := arrays;
      values := [];
      validity := PrepareValidity(use, capacity);
    }

    /** `len()`: the number of child slots written so far, which a tracked
        bitmap matches bit for bit. */
    function Len(): (n: nat)
      reads this
      ensures n == |values|
      ensures Valid() && validity.Some? ==> |validity.value| == n
    {
      |values|
    }

    method Extend(index: nat, start: nat, len: nat)
      requires Valid()
      requires index < |arrays| && start + len <= |arrays[index].values|
      modifies this
      ensures Valid()
      ensures values == old(values) + arrays[index].values[start..start + len]
      ensures validity == AppendIfTracked(old(validity), arrays[index].Bits()[start..start + len])
    {
      var source := arrays[index];
      validity := AppendIfTracked(validity, source.Bits()[start..start + len]);
      values := values + source.values[start..start + len];
    }

    method ExtendValidity(additional: nat)
      requires Valid()
      modifies this
      ensures Valid()
      ensures values == old(values) + DefaultValues(additional)
      ensures validity == AppendIfTracked(old(validity), AllNull(additional))
    {
      values := values + DefaultValues(additional);
      validity := AppendIfTracked(validity, AllNull(additional));
    }

    /** Finalises: the accumulated values and bitmap are taken out of the builder. */
    method Finish() returns (r: PrimitiveArray)
      requires Valid()
      modifies this
      ensures Valid() && r.Valid()
      ensures r == PrimitiveArray(old(values), old(validity))
      ensures values == [] && validity == None
    {
      r := PrimitiveArray(values, validity);
      values, validity := [], None;
    }
  }

  /** The finished array behind either ownership wrapper. */
  datatype ArrayRef = Shared(target: FixedSizeListArray) | Owned(target: FixedSizeListArray)

  /** Builds a fixed-size-list array out of ranges of its bound sources. Each
      outer slot is `size` child slots of the inner builder `values`. */
  class GrowableFixedSizeList {
    const arrays: seq<FixedSizeListArray>
    var validity: Option<seq<bool>>
    const values: PrimitiveGrowable
    const size: Usize
    /** Outer slots accumulated so far; the builder itself derives them from `values`. */
    ghost var slots: nat

    ghost predicate Valid()
      reads this, values
    {
      && |arrays| > 0
      && (forall i :: 0 <= i < |arrays| ==> arrays[i].Valid())
      && size == arrays[0].dataType.size
      && values.Valid()
      && values.arrays == Children(arrays)
      && |values.values| == size * slots
      && (validity.Some? ==> |validity.value| == slots)
    }

    constructor (arrays: seq<FixedSizeListArray>, useValidity: bool, capacity: nat)
      requires |arrays| > 0
      requires forall i :: 0 <= i < |arrays| ==> arrays[i].Valid()
      ensures Valid() && fresh(values)
      ensures this.arrays == arrays && size == arrays[0].dataType.size && slots == 0
      ensures validity == PrepareValidity(UseValidity(arrays, useValidity, ListNullCount), capacity)
      ensures values.values == []
      ensures values.validity == PrepareValidity(
        UseValidity(Children(arrays), UseValidity(arrays, useValidity, ListNullCount), ChildNullCount), 0)
    {
      var use := useValidity;
      if !use && AnyHasNulls(arrays, ListNullCount) {
        use := true;
      }
      size := arrays[0].dataType.size;
      values := new PrimitiveGrowable(Children(arrays), use, 0);
      this.arrays := arrays;
      validity := PrepareValidity(use, capacity);
      slots := 0;
    }

    /** `len()`: derived from the child builder, which always holds a whole
        number of outer slots. */
    function Len(): (n: nat)
      reads this, values
      requires Valid()
      ensures n == slots && n * size == values.Len()
    {
      MulDiv(slots, size);
      values.Len() / size
    }

    /** The array finalising would produce now. */
    function Snapshot(): (a: FixedSizeListArray)
      reads this, values
      requires Valid()
      ensures a.Valid() && a.dataType == arrays[0].dataType && a.Len() == Len()
      ensures a.values.values == values.values && a.validity == validity
    {
      MulDiv(slots, size);
      FixedSizeListArray(arrays[0].dataType, PrimitiveArray(values.values, values.validity), validity)
    }

    method Extend(index: nat, start: nat, len: nat)
      requires Valid()
      requires index < |arrays| && start + len <= arrays[index].Len()
      requires (start + len) * size <= |arrays[index].values.values|
      modifies this, values
      ensures Valid()
      ensures validity == AppendIfTracked(old(validity), arrays[index].SlotBits()[start..start + len])
      ensures values.values
        == old(values.values) + arrays[index].values.values[start * size..(start + len) * size]
      ensures values.validity
        == AppendIfTracked(old(values.validity), arrays[index].values.Bits()[start * size..(start + len) * size])
      ensures Len() == old(Len()) + len
    {
      var source := arrays[index];
      validity := AppendIfTracked(validity, source.SlotBits()[start..start + len]);
      assert start * size + len * size == (start + len) * size;
      values.Extend(index, start * size, len * size);
      assert size * slots + len * size == size * (slots + len);
      slots := slots + len;
    }

    method ExtendValidity(additional: nat)
      requires Valid()
      modifies this, values
      ensures Valid()
      ensures values.values == old(values.values) + DefaultValues(additional * size)
      ensures values.validity == AppendIfTracked(old(values.validity), AllNull(additional * size))
      ensures validity == AppendIfTracked(old(validity), AllNull(additional))
      ensures Len() == old(Len()) + additional
      ensures NullCountOf(validity) == NullCountOf(old(validity)) + if validity.Some? then additional else 0
    {
      values.ExtendValidity(additional * size);
      validity := AppendIfTracked(validity, AllNull(additional));
      assert size * slots + additional * size == size * (slots + additional);
      slots := slots + additional;
    }

    /** Finalises: the bitmap is taken out of the builder and the child
        builder is finalised; the first source's data type is reused. */
    method To() returns (r: FixedSizeListArray)
      requires Valid()
      modifies this, values
      ensures Valid() && Len() == 0
      ensures r == old(Snapshot()) && r.Valid() && r.Len() == old(Len())
      ensures validity == None && values.values == [] && values.validity == None
    {
      var bitmap := validity;
      validity := None;
      var child := values.Finish();
      slots := 0;
      r := FixedSizeListArray(arrays[0].dataType, child, bitmap);
    }

    method AsArc() returns (r: ArrayRef)
      requires Valid()
      modifies this, values
      ensures Valid() && Len() == 0
      ensures r == Shared(old(Snapshot())) && r.target.Valid()
      ensures validity == None && values.values == [] && values.validity == None
    {
      var a := To();
      r := Shared(a);
    }

    method AsBox() returns (r: ArrayRef)
      requires Valid()
      modifies this, values
      ensures Valid() && Len() == 0
      ensures r == Owned(old(Snapshot())) && r.target.Valid()
      ensures validity == None && values.values == [] && values.validity == None
    {
      var a := To();
      r := Owned(a);
    }
  }

  /** The `From` conversion: consumes the builder, finalising its child
      builder and moving its bitmap into the array. */
  method FromGrowable(g: GrowableFixedSizeList) returns (r: FixedSizeListArray)
    requires g.Valid()
    modifies g.values
    ensures r == old(g.Snapshot()) && r.Valid()
  {
    var child := g.values.Finish();
    r := FixedSizeListArray(g.arrays[0].dataType, child, g.validity);
  }
}
