/** Reading and skipping one fixed-size-binary field of an Arrow IPC
    record-batch body. Every field consumes, from the fronts of two shared
    queues, one field node and two buffers (validity, then values). */
module IpcFixedSizeBinary {
  import opened Results
  import opened Bitmaps
  import opened Arrays

  const I64_MAX: int := 0x7FFF_FFFF_FFFF_FFFF

  /** Rust's `i64`. */
  type I64 = x: int | -0x8000_0000_0000_0000 <= x <= 0x7FFF_FFFF_FFFF_FFFF

  /** A field node: the declared length and null count of one field. */
  datatype Node = Node(length: I64, nullCount: I64)

  /** A buffer, abstracted to the bytes the reader fetches for it. */
  datatype IpcBuffer = IpcBuffer(bytes: seq<Byte>)

  datatype Error =
    | OutOfSpec(message: string)
    | MissingFieldNode(dataType: DataType)
    | MissingBuffer
    | NegativeLength
    | BufferTooShort
    | NotFixedSizeBinary
    | ZeroByteWidth
    | ValuesNotMultipleOfSize
    | ValidityLengthMismatch

  const MISSING_NODE_MESSAGE := "IPC: unable to fetch the field for fixed-size binary. The file or stream is corrupted."
  const MISSING_VALIDITY_MESSAGE := "IPC: missing validity buffer."
  const MISSING_VALUES_MESSAGE := "IPC: missing values buffer."

  /** The outcome of a step together with the queues as it leaves them. */
  datatype Step<T> = Step(result: Result<T, Error>, nodes: seq<Node>, buffers: seq<IpcBuffer>)

  /** A double-ended queue drained from the front, as `VecDeque::pop_front` does. */
  class Deque<T> {
    var items: seq<T>

    constructor (items: seq<T>)
      ensures this.items == items
    {
      this.items := items;
    }

    method PopFront() returns (r: Option<T>)
      modifies this
      ensures old(items) == [] ==> r == None && items == []
      ensures old(items) != [] ==> r == Some(old(items)[0]) && items == old(items)[1..]
    {
      if items == [] {
        r := None;
      } else {
        r := Some(items[0]);
        items := items[1..];
      }
    }
  }

  /** `usize::saturating_mul`: the product, or `usize::MAX` when the product
      does not fit. */
  function SaturatingMul(a: Usize, b: Usize): (r: Usize)
    ensures a * b <= USIZE_MAX ==> r == a * b
    ensures a * b > USIZE_MAX ==> r == USIZE_MAX
  {
    if b != 0 && a > USIZE_MAX / b then
      assert a * b > USIZE_MAX by { QuotientBound(a, b); }
      USIZE_MAX
    else
      assert a * b <= USIZE_MAX by { if b != 0 { QuotientBound(a, b); } }
      a * b
  }

  /** `a` exceeds `USIZE_MAX / b` exactly when `a * b` exceeds `USIZE_MAX`. */
  lemma QuotientBound(a: nat, b: nat)
    requires b > 0
    ensures a > USIZE_MAX / b <==> a * b > USIZE_MAX
  {
    var q := USIZE_MAX / b;
    assert USIZE_MAX == b * q + USIZE_MAX % b;
    if a > q {
      MulAtLeast(b, a - q);
      assert a * b == b * (a - q) + b * q;
    } else {
      MulMonotone(a, q, b);
    }
  }

  lemma MulMonotone(a: nat, c: nat, b: nat)
    requires a <= c
    ensures a * b <= c * b
  {
    if a < c {
      MulMonotone(a, c - 1, b);
      assert c * b == (c - 1) * b + b;
    }
  }

  /** The saturated length never wraps below a smaller request's length. */
  lemma {:induction false} SaturatingMulMonotone(a: Usize, a': Usize, b: Usize)
    requires a <= a'
    ensures SaturatingMul(a, b) <= SaturatingMul(a', b)
  {
    MulMonotone(a, a', b);
  }

  /** `try_get_array_length`: the node's declared length, which must not be
      negative, capped by the row limit when there is one. */
  function ArrayLength(node: Node, limit: Option<Usize>): (r: Result<Usize, Error>)
    ensures r.Err? <==> node.length < 0
    ensures r.Err? ==> r.error == NegativeLength
    ensures r.Ok? ==> r.value <= node.length && (limit.Some? ==> r.value <= limit.value)
    ensures r.Ok? ==> r.value == node.length || (limit.Some? && r.value == limit.value)
  {
    if node.length < 0 then Err(NegativeLength)
    else
      match limit
      case None => Ok(node.length)
      case Some(l) => Ok(if l < node.length then l else node.length)
  }

  /** Decodes the validity buffer: no bitmap when the node has no nulls,
      otherwise the first `length` bits of the buffer. */
  function DecodeValidity(buffer: IpcBuffer, nullCount: I64, length: Usize): Result<Option<seq<bool>>, Error> {
    if nullCount <= 0 then Ok(None)
    else if length > 8 * |buffer.bytes| then Err(BufferTooShort)
    else Ok(Some(BitsOf(buffer.bytes)[..length]))
  }

  /** Decodes the values buffer: its first `length` bytes. */
  function DecodeValues(buffer: IpcBuffer, length: Usize): Result<seq<Byte>, Error> {
    if length > |buffer.bytes| then Err(BufferTooShort) else Ok(buffer.bytes[..length])
  }

  /** `read_validity` on the buffer queue: the length check comes first and
      pops nothing; then exactly one buffer is popped, with or without nulls. */
  function ValidityStep(buffers: seq<IpcBuffer>, node: Node, limit: Option<Usize>)
    : (r: (Result<Option<seq<bool>>, Error>, seq<IpcBuffer>))
    ensures node.length < 0 ==> r == (Err(NegativeLength), buffers)
    ensures node.length >= 0 && buffers == [] ==> r == (Err(MissingBuffer), buffers)
    ensures node.length >= 0 && buffers != [] ==> r.1 == buffers[1..]
    ensures r.0.Ok? <==> (node.length >= 0 && buffers != []
                          && (node.nullCount > 0 ==> ArrayLength(node, limit).value <= 8 * |buffers[0].bytes|))
    ensures r.0.Ok? && node.nullCount <= 0 ==> r.0.value == None
    ensures r.0.Ok? && node.nullCount > 0 ==>
      (r.0.value.Some? && r.0.value.value == BitsOf(buffers[0].bytes)[..ArrayLength(node, limit).value])
  {
    match ArrayLength(node, limit)
    case Err(e) => (Err(e), buffers)
    case Ok(length) =>
      if buffers == [] then (Err(MissingBuffer), buffers)
      else (DecodeValidity(buffers[0], node.nullCount, length), buffers[1..])
  }

  /** `read_buffer` on the buffer queue: pops exactly one buffer. */
  function ValuesStep(buffers: seq<IpcBuffer>, length: Usize): (r: (Result<seq<Byte>, Error>, seq<IpcBuffer>))
    ensures buffers == [] ==> r == (Err(MissingBuffer), buffers)
    ensures buffers != [] ==> r.1 == buffers[1..]
    ensures r.0.Ok? <==> buffers != [] && length <= |buffers[0].bytes|
    ensures r.0.Ok? ==> |r.0.value| == length && r.0.value == buffers[0].bytes[..length]
  {
    if buffers == [] then (Err(MissingBuffer), buffers)
    else (DecodeValues(buffers[0], length), buffers[1..])
  }

  /** `FixedSizeBinaryArray::maybe_get_size`: the byte width of a
      fixed-size-binary type. */
  function MaybeGetSize(dataType: DataType): (r: Result<Usize, Error>)
    ensures r.Ok? <==> dataType.FixedSizeBinary? && dataType.byteWidth > 0
    ensures r.Ok? ==> r.value == dataType.byteWidth
  {
    match dataType
    case FixedSizeBinary(width) => if width == 0 then Err(ZeroByteWidth) else Ok(width)
    case _ => Err(NotFixedSizeBinary)
  }

  /** `FixedSizeBinaryArray::try_new`: succeeds exactly when the parts form a
      well-formed array. */
  function TryNew(dataType: DataType, values: seq<Byte>, validity: Option<seq<bool>>)
    : (r: Result<FixedSizeBinaryArray, Error>)
    ensures r.Ok? <==> FixedSizeBinaryArray(dataType, values, validity).Valid()
    ensures r.Ok? ==> r.value == FixedSizeBinaryArray(dataType, values, validity)
  {
    match MaybeGetSize(dataType)
    case Err(e) => Err(e)
    case Ok(size) =>
      if |values| % size != 0 then Err(ValuesNotMultipleOfSize)
      else if validity.Some? && |validity.value| != |values| / size then Err(ValidityLengthMismatch)
      else Ok(FixedSizeBinaryArray(dataType, values, validity))
  }

  /** `read_fixed_size_binary` on the queues: one field node, then the
      validity buffer, then the values buffer, each failure returned at once
      with whatever was already popped left popped. */
  function Read(nodes: seq<Node>, buffers: seq<IpcBuffer>, dataType: DataType, limit: Option<Usize>)
    : (s: Step<FixedSizeBinaryArray>)
    ensures nodes == [] ==> s == Step(Err(MissingFieldNode(dataType)), nodes, buffers)
    ensures nodes != [] ==> s.nodes == nodes[1..]
    ensures |s.buffers| <= |buffers| <= |s.buffers| + 2
    ensures s.buffers == buffers[|buffers| - |s.buffers|..]
    ensures s.result.Ok? ==> |buffers| >= 2 && s.buffers == buffers[2..] && s.result.value.Valid()
  {
    if nodes == [] then Step(Err(MissingFieldNode(dataType)), nodes, buffers)
    else
      var node := nodes[0];
      // A negative length fails inside `read_validity` before any buffer is
      // popped, so checking it first gives the same step.
      match ArrayLength(node, limit)
      case Err(e) => Step(Err(e), nodes[1..], buffers)
      case Ok(length) =>
        var (validity, afterValidity) := ValidityStep(buffers, node, limit);
        if validity.Err? then Step(Err(validity.error), nodes[1..], afterValidity)
        else
          match MaybeGetSize(dataType)
          case Err(e) => Step(Err(e), nodes[1..], afterValidity)
          case Ok(width) =>
            var (values, afterValues) := ValuesStep(afterValidity, SaturatingMul(length, width));
            if values.Err? then Step(Err(values.error), nodes[1..], afterValues)
            else Step(TryNew(dataType, values.value, validity.value), nodes[1..], afterValues)
  }

  /** `skip_fixed_size_binary` on the queues: pops one node, then the validity
      buffer, then the values buffer, failing at the first that is missing. */
  function Skip(nodes: seq<Node>, buffers: seq<IpcBuffer>): (s: Step<()>)
    ensures s.result.Ok? <==> |nodes| >= 1 && |buffers| >= 2
    ensures s.result.Ok? ==> s.nodes == nodes[1..] && s.buffers == buffers[2..]
    ensures nodes == [] ==> s == Step(Err(OutOfSpec(MISSING_NODE_MESSAGE)), nodes, buffers)
    ensures nodes != [] && |buffers| == 0 ==> s == Step(Err(OutOfSpec(MISSING_VALIDITY_MESSAGE)), nodes[1..], [])
    ensures nodes != [] && |buffers| == 1 ==> s == Step(Err(OutOfSpec(MISSING_VALUES_MESSAGE)), nodes[1..], [])
  {
    if nodes == [] then Step(Err(OutOfSpec(MISSING_NODE_MESSAGE)), nodes, buffers)
    else
      var afterNode := nodes[1..];
      if buffers == [] then Step(Err(OutOfSpec(MISSING_VALIDITY_MESSAGE)), afterNode, buffers)
      else
        var afterValidity := buffers[1..];
        if afterValidity == [] then Step(Err(OutOfSpec(MISSING_VALUES_MESSAGE)), afterNode, afterValidity)
        else Step(Ok(()), afterNode, afterValidity[1..])
  }

  /** A successful read holds exactly `try_new` of the data type, the first
      `length * width` bytes of the values buffer (saturated) and, when the
      node declares nulls, the first `length` bits of the validity buffer,
      where `length` is the node's length capped by the limit. */
  lemma ReadSuccess(nodes: seq<Node>, buffers: seq<IpcBuffer>, dataType: DataType, limit: Option<Usize>)
    requires Read(nodes, buffers, dataType, limit).result.Ok?
    ensures nodes != [] && ArrayLength(nodes[0], limit).Ok? && MaybeGetSize(dataType).Ok?
    ensures var length := ArrayLength(nodes[0], limit).value;
      var bytes := SaturatingMul(length, dataType.byteWidth);
      && bytes <= |buffers[1].bytes|
      && Read(nodes, buffers, dataType, limit).result.value == FixedSizeBinaryArray(
        dataType,
        buffers[1].bytes[..bytes],
        if nodes[0].nullCount > 0 then Some(BitsOf(buffers[0].bytes)[..length]) else None)
  {
  }

  /** When the byte length does not saturate, the array read has exactly the
      capped length of the node. */
  lemma ReadLength(nodes: seq<Node>, buffers: seq<IpcBuffer>, dataType: DataType, limit: Option<Usize>)
    requires Read(nodes, buffers, dataType, limit).result.Ok?
    requires nodes != [] && ArrayLength(nodes[0], limit).Ok? && dataType.FixedSizeBinary?
    requires ArrayLength(nodes[0], limit).value * dataType.byteWidth <= USIZE_MAX
    ensures Read(nodes, buffers, dataType, limit).result.value.Len() == ArrayLength(nodes[0], limit).value
  {
    ReadSuccess(nodes, buffers, dataType, limit);
    var length := ArrayLength(nodes[0], limit).value;
    MulDiv(length, dataType.byteWidth);
    assert length * dataType.byteWidth == dataType.byteWidth * length;
  }

  /** Skipping a field leaves both queues where reading it would have. */
  lemma SkipAlignsWithRead(nodes: seq<Node>, buffers: seq<IpcBuffer>, dataType: DataType, limit: Option<Usize>)
    requires Read(nodes, buffers, dataType, limit).result.Ok?
    ensures Skip(nodes, buffers).result.Ok?
    ensures Skip(nodes, buffers).nodes == Read(nodes, buffers, dataType, limit).nodes
    ensures Skip(nodes, buffers).buffers == Read(nodes, buffers, dataType, limit).buffers
  {
  }

  /** A data type without a byte width fails the read only after the node and
      the validity buffer have been popped: nothing is rolled back. */
  lemma {:induction false} NoByteWidthNoRollback(
    nodes: seq<Node>, buffers: seq<IpcBuffer>, dataType: DataType, limit: Option<Usize>)
    requires MaybeGetSize(dataType).Err?
    requires nodes != [] && buffers != []
    requires ArrayLength(nodes[0], limit).Ok?
    requires DecodeValidity(buffers[0], nodes[0].nullCount, ArrayLength(nodes[0], limit).value).Ok?
    ensures Read(nodes, buffers, dataType, limit) == Step(Err(MaybeGetSize(dataType).error), nodes[1..], buffers[1..])
  {
  }

  /** A node of length 5 read with a limit of 3 at width 4 takes 3 slots and
      exactly the first 12 bytes of the values buffer. */
  lemma LimitExample(nodes: seq<Node>, validity: IpcBuffer, values: IpcBuffer, rest: seq<IpcBuffer>)
    requires |values.bytes| == 20
    ensures var s := Read([Node(5, 0)] + nodes, [validity, values] + rest, FixedSizeBinary(4), Some(3));
      && s.result.Ok?
      && s.result.value.values == values.bytes[..12]
      && s.result.value.validity == None
      && s.result.value.Len() == 3
      && s.nodes == nodes && s.buffers == rest
  {
    var s := Read([Node(5, 0)] + nodes, [validity, values] + rest, FixedSizeBinary(4), Some(3));
    assert ([Node(5, 0)] + nodes)[1..] == nodes;
    assert ([validity, values] + rest)[1..][1..] == rest;
    assert SaturatingMul(3, 4) == 12;
    assert |values.bytes[..12]| == 12;
  }

  /** The field node and the two buffers a writer emits for a well-formed
      fixed-size-binary array. */
  function EncodeField(a: FixedSizeBinaryArray): (Node, IpcBuffer, IpcBuffer)
    requires a.Valid() && |a.values| <= I64_MAX
  {
    LenBound(a);
    (Node(a.Len(), a.NullCount()),
     IpcBuffer(if a.validity.Some? then Pack(a.validity.value) else []),
     IpcBuffer(a.values))
  }

  lemma LenBound(a: FixedSizeBinaryArray)
    requires a.Valid()
    ensures a.NullCount() <= a.Len() <= |a.values|
  {
    DivExact(|a.values|, a.dataType.byteWidth);
    MulAtLeast(a.Len(), a.dataType.byteWidth);
  }

  /** Reading back an encoded field reproduces its bytes, and its bitmap
      whenever it has nulls (a node without nulls reads back without one). */
  lemma RoundTrip(a: FixedSizeBinaryArray, nodes: seq<Node>, buffers: seq<IpcBuffer>)
    requires a.Valid() && |a.values| <= I64_MAX
    ensures var (node, validity, values) := EncodeField(a);
      Read([node] + nodes, [validity, values] + buffers, a.dataType, None)
        == Step(Ok(FixedSizeBinaryArray(a.dataType, a.values, if a.NullCount() > 0 then a.validity else None)),
                nodes, buffers)
  {
    var (node, validity, values) := EncodeField(a);
    var width := a.dataType.byteWidth;
    LenBound(a);
    DivExact(|a.values|, width);
    assert a.Len() * width == |a.values|;
    assert SaturatingMul(a.Len(), width) == |a.values|;
    assert ([node] + nodes)[1..] == nodes;
    assert ([validity, values] + buffers)[1..] == [values] + buffers;
    assert ([values] + buffers)[1..] == buffers;
    assert a.values[..|a.values|] == a.values;
    if a.NullCount() > 0 {
      var bits := a.validity.value;
      UnpackPack(bits);
      assert |Pack(bits)| == (|bits| + 7) / 8;
      assert DecodeValidity(validity, node.nullCount, a.Len()) == Ok(Some(bits));
    }
  }

  /** `try_get_field_node`: pops the next field node. */
  method TryGetFieldNode(fieldNodes: Deque<Node>, dataType: DataType) returns (r: Result<Node, Error>)
    modifies fieldNodes
    ensures old(fieldNodes.items) == [] ==> r == Err(MissingFieldNode(dataType)) && fieldNodes.items == []
    ensures old(fieldNodes.items) != [] ==>
      r == Ok(old(fieldNodes.items)[0]) && fieldNodes.items == old(fieldNodes.items)[1..]
  {
    var node := fieldNodes.PopFront();
    if node.None? {
      return Err(MissingFieldNode(dataType));
    }
    r := Ok(node.value);
  }

  method ReadValidity(buffers: Deque<IpcBuffer>, node: Node, limit: Option<Usize>)
    returns (r: Result<Option<seq<bool>>, Error>)
    modifies buffers
    ensures (r, buffers.items) == ValidityStep(old(buffers.items), node, limit)
  {
    var length :- ArrayLength(node, limit);
    var buffer := buffers.PopFront();
    if buffer.None? {
      return Err(MissingBuffer);
    }
    if node.nullCount > 0 {
      if length > 8 * |buffer.value.bytes| {
        return Err(BufferTooShort);
      }
      r := Ok(Some(BitsOf(buffer.value.bytes)[..length]));
    } else {
      r := Ok(None);
    }
  }

  method ReadBuffer(buffers: Deque<IpcBuffer>, length: Usize) returns (r: Result<seq<Byte>, Error>)
    modifies buffers
    ensures (r, buffers.items) == ValuesStep(old(buffers.items), length)
  {
    var buffer := buffers.PopFront();
    if buffer.None? {
      return Err(MissingBuffer);
    }
    if length > |buffer.value.bytes| {
      return Err(BufferTooShort);
    }
    r := Ok(buffer.value.bytes[..length]);
  }

  method ReadFixedSizeBinary(
    fieldNodes: Deque<Node>, dataType: DataType, buffers: Deque<IpcBuffer>, limit: Option<Usize>)
    returns (r: Result<FixedSizeBinaryArray, Error>)
    modifies fieldNodes, buffers
    ensures Step(r, fieldNodes.items, buffers.items) == Read(old(fieldNodes.items), old(buffers.items), dataType, limit)
  {
    var fieldNode :- TryGetFieldNode(fieldNodes, dataType);
    // The length is pure, so it is computed once, ahead of `read_validity`:
    // that call fails on the same negative length before popping anything,
    // so the later computation in the source can no longer fail.
    var length :- ArrayLength(fieldNode, limit);
    var validity :- ReadValidity(buffers, fieldNode, limit);
    var width :- MaybeGetSize(dataType);
    var values :- ReadBuffer(buffers, SaturatingMul(length, width));
    r := TryNew(dataType, values, validity);
  }

  method SkipFixedSizeBinary(fieldNodes: Deque<Node>, buffers: Deque<IpcBuffer>) returns (r: Result<(), Error>)
    modifies fieldNodes, buffers
    ensures Step(r, fieldNodes.items, buffers.items) == Skip(old(fieldNodes.items), old(buffers.items))
  {
    var node := fieldNodes.PopFront();
    if node.None? {
      return Err(OutOfSpec(MISSING_NODE_MESSAGE));
    }
    var validity := buffers.PopFront();
    if validity.None? {
      return Err(OutOfSpec(MISSING_VALIDITY_MESSAGE));
    }
    var values := buffers.PopFront();
    if values.None? {
      return Err(OutOfSpec(MISSING_VALUES_MESSAGE));
    }
    r := Ok(());
  }
}
