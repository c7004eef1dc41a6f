/** The array values both components work on: a logical data type, a
    primitive child array, fixed-size-list arrays and fixed-size-binary
    arrays, each with the well-formedness its constructor enforces. */
module Arrays {
  import opened Results
  import opened Bitmaps

  const USIZE_MAX: int := 0xFFFF_FFFF_FFFF_FFFF

  /** Rust's `usize` on a 64-bit target. */
  type Usize = x: int | 0 <= x <= 0xFFFF_FFFF_FFFF_FFFF

  /** Logical types. `FixedSizeList` names its child's type directly (the
      child field's name and nullability are not modelled). */
  datatype DataType =
    | Int32
    | FixedSizeBinary(byteWidth: Usize)
    | FixedSizeList(child: DataType, size: Usize)

  /** Null count of an optional bitmap: no bitmap means no nulls. */
  function NullCountOf(validity: Option<seq<bool>>): nat
  {
    match validity
    case None => 0
    case Some(bits) => CountUnset(bits)
  }

  /** A flat child array: one value per slot and an optional validity bitmap. */
  datatype PrimitiveArray = PrimitiveArray(values: seq<int>, validity: Option<seq<bool>>) {

    ghost predicate Valid() {
      validity.Some? ==> |validity.value| == |values|
    }

    function NullCount(): nat {
      NullCountOf(validity)
    }

    /** Per-slot validity, all valid when no bitmap is attached. */
    function Bits(): (bits: seq<bool>)
      requires Valid()
      ensures |bits| == |values| && CountUnset(bits) == NullCount()
    {
      if validity.Some? then validity.value else AllValid(|values|)
    }
  }

  /** A fixed-size-list array: every slot holds `size` consecutive child values. */
  datatype FixedSizeListArray = FixedSizeListArray(
    dataType: DataType, values: PrimitiveArray, validity: Option<seq<bool>>)
  {
    /** What `FixedSizeListArray::new` checks: a fixed-size-list type with a
        positive size, a child array whose length is a multiple of it, and a
        bitmap with one bit per slot. */
    ghost predicate Valid() {
      && dataType.FixedSizeList?
      && dataType.size > 0
      && values.Valid()
      && |values.values| % dataType.size == 0
      && (validity.Some? ==> |validity.value| == |values.values| / dataType.size)
    }

    function Len(): nat
      requires dataType.FixedSizeList? && dataType.size > 0
    {
      |values.values| / dataType.size
    }

    function NullCount(): nat {
      NullCountOf(validity)
    }

    /** Per-slot validity, all valid when no bitmap is attached. */
    function SlotBits(): (bits: seq<bool>)
      requires Valid()
      ensures |bits| == Len() && CountUnset(bits) == NullCount()
    {
      if validity.Some? then validity.value else AllValid(Len())
    }
  }

  /** A fixed-size-binary array: every slot holds `byteWidth` raw bytes. */
  datatype FixedSizeBinaryArray = FixedSizeBinaryArray(
    dataType: DataType, values: seq<Byte>, validity: Option<seq<bool>>)
  {
    ghost predicate Valid() {
      && dataType.FixedSizeBinary?
      && dataType.byteWidth > 0
      && |values| % dataType.byteWidth == 0
      && (validity.Some? ==> |validity.value| == |values| / dataType.byteWidth)
    }

    function Len(): nat
      requires dataType.FixedSizeBinary? && dataType.byteWidth > 0
    {
      |values| / dataType.byteWidth
    }

    function NullCount(): nat {
      NullCountOf(validity)
    }
  }

  /** Exact division: a multiple of `d` is `d` times its quotient. */
  lemma DivExact(n: nat, d: nat)
    requires d > 0 && n % d == 0
    ensures n == d * (n / d)
  {
  }

  lemma MulAtLeast(d: nat, x: nat)
    requires x >= 1
    ensures d * x >= d
  {
    if x > 1 {
      MulAtLeast(d, x - 1);
      assert d * x == d * (x - 1) + d;
    }
  }

  /** Division is determined by any quotient and remainder that fit. */
  lemma DivUnique(n: int, d: int, q: int, r: int)
    requires d > 0 && 0 <= r < d && n == d * q + r
    ensures n / d == q && n % d == r
  {
    var q', r' := n / d, n % d;
    assert n == d * q' + r' && 0 <= r' < d;
    if q > q' {
      assert d * q == d * (q - q') + d * q';
      MulAtLeast(d, q - q');
    } else if q < q' {
      assert d * q' == d * (q' - q) + d * q;
      MulAtLeast(d, q' - q);
    }
  }

  lemma MulDiv(k: nat, d: nat)
    requires d > 0
    ensures (d * k) / d == k && (d * k) % d == 0
  {
    DivUnique(d * k, d, k, 0);
  }
}
