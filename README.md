# Fixed-size-list growable and IPC fixed-size-binary reading, in Dafny

This project models two pieces of the arrow2 columnar array library.

**`GrowableFixedSizeList`** (`src/array/growable/fixed_size_list.rs`) is a
single-use builder. It is bound to a non-empty list of fixed-size-list arrays
and assembles a new fixed-size-list array by copying slot ranges out of them.
It owns an inner builder for the flattened child values. Every outer slot is
`size` child slots, so `extend(i, start, len)` forwards `(i, start*size,
len*size)` and `extend_validity(k)` forwards `k*size`. The outer length is
derived as the inner length divided by `size`. Whether a validity bitmap is
tracked is decided once, at construction. Finalising takes the bitmap out of
the builder and reuses the first source's data type.

In Dafny the builder is the class `Growable.GrowableFixedSizeList`. Its
invariant `Valid()` keeps `|inner values| == size * slots`, and every method
states its whole new state. The inner builder is the class
`Growable.PrimitiveGrowable`, a flat child builder that copies child slices and
appends null child slots. `Concatenation.Concatenate` drives the builder over
every slot of every source, in order. It proves that the result is the
reference concatenation `Concatenation.Concat`.

**`read_fixed_size_binary` / `skip_fixed_size_binary`**
(`src/io/ipc/read/array/fixed_size_binary.rs`) handle one fixed-size-binary
field of an Arrow IPC record-batch body. Each field consumes one field node and
two buffers (validity, then values) from the fronts of two shared FIFO queues.
In Dafny the queues are `Deque` objects drained with `PopFront`. Each method is
tied to a function of the old queue contents (`Read`, `Skip`). The lemmas are
stated about those functions. The byte length is computed by an explicit
`SaturatingMul` against the 64-bit `usize` bound.

Files:
- `results.dfy`: `Option` and `Result`.
- `bitmaps.dfy`: null counting, and least-significant-bit-first packing of bitmaps into bytes.
- `arrays.dfy`: data types and the array values, with their well-formedness.
- `growable.dfy`: the two builder classes and the `From` conversion.
- `concatenation.dfy`: the reference concatenation and the driver that builds it.
- `ipc_fixed_size_binary.dfy`: queues, read and skip steps, and their lemmas.

## Model

| member | source | states |
|---|---|---|
| `Growable.AnyHasNulls` | src/array/growable/fixed_size_list.rs:36 | true exactly when some bound source has a positive null count |
| `Growable.UseValidity` | src/array/growable/fixed_size_list.rs:34-38 | validity is tracked iff the caller asked for it or some source has nulls |
| `Growable.GrowableFixedSizeList.constructor` | src/array/growable/fixed_size_list.rs:27-59 | needs a non-empty source list; `size` is the first source's list size; the outer bitmap is prepared iff the forcing rule holds; the inner builder starts empty, gets the forced flag and capacity 0 |
| `Growable.GrowableFixedSizeList.Len` | src/array/growable/fixed_size_list.rs:89-92 | the inner length divided by `size`, which divides it exactly: `len * size == inner.len()` |
| `Growable.GrowableFixedSizeList.Snapshot` | src/array/growable/fixed_size_list.rs:61-70 | the array finalising would produce is well formed, has the first source's data type and has `Len()` slots |
| `Growable.GrowableFixedSizeList.Extend` | src/array/growable/fixed_size_list.rs:74-80 | appends the source's slot bits only if a bitmap is tracked; the inner builder gains exactly child slots `[start*size, (start+len)*size)` of source `i`; `Len()` grows by `len`; the invariant is kept |
| `Growable.GrowableFixedSizeList.ExtendValidity` | src/array/growable/fixed_size_list.rs:82-87 | the inner builder gains `k*size` default child values, with `k*size` false bits only if the inner builder tracks a bitmap; a tracked outer bitmap gains exactly `k` false bits, and an absent one stays absent; `Len()` grows by `k`; the null count grows by `k` when the outer bitmap is tracked and stays 0 otherwise |
| `Growable.PrepareValidity` | src/array/growable/fixed_size_list.rs:56 | an empty bitmap, with no nulls, exactly when validity is tracked; none otherwise |
| `Growable.AppendIfTracked` | src/array/growable/fixed_size_list.rs:76 | a tracked bitmap keeps its old bits and gains exactly the given bits after them, so its null count is the sum; an absent bitmap stays absent |
| `Growable.PrimitiveGrowable.Len` | src/array/growable/fixed_size_list.rs:91 | the number of child slots written so far; a tracked inner bitmap has exactly that many bits |
| `Growable.GrowableFixedSizeList.To` | src/array/growable/fixed_size_list.rs:61-70 | returns the snapshot taken before the call; afterwards the builder's bitmap is `None` and its inner builder is empty |
| `Growable.GrowableFixedSizeList.AsArc` | src/array/growable/fixed_size_list.rs:94-96 | the shared wrapper around the same array `To` returns, with the same effect on the builder |
| `Growable.GrowableFixedSizeList.AsBox` | src/array/growable/fixed_size_list.rs:98-100 | the owned wrapper around the same array `To` returns, with the same effect on the builder |
| `Growable.FromGrowable` | src/array/growable/fixed_size_list.rs:103-114 | consuming the builder yields the same well-formed array as its snapshot |
| `Growable.PrimitiveGrowable.constructor` | src/array/growable/fixed_size_list.rs:47-51 | the inner builder over the sources' child arrays starts empty and tracks validity iff the flag it is given or a child's nulls force it |
| `Growable.PrimitiveGrowable.Extend` | src/array/growable/fixed_size_list.rs:78-79 | appends exactly the requested child slice, and its bits if tracked |
| `Growable.PrimitiveGrowable.ExtendValidity` | src/array/growable/fixed_size_list.rs:83 | appends `n` default child values, and `n` false bits if tracked |
| `Growable.PrimitiveGrowable.Finish` | src/array/growable/fixed_size_list.rs:63 | returns the accumulated child array and leaves the inner builder empty |
| `Concatenation.Concatenate` | src/array/growable/fixed_size_list.rs:27-100 | building over every slot of every source, in source order, then finalising, yields exactly `Concat` of the sources |
| `Concatenation.ConcatFacts` | src/array/growable/fixed_size_list.rs:34-38 | the concatenation is well formed and has the sum of the sources' lengths; it has a bitmap iff the caller asked or some source has nulls; its null count is the sum of the sources' null counts |
| `Concatenation.NullSlots` | src/array/growable/fixed_size_list.rs:82-87 | a fresh builder given `k` null slots and finalised yields a well-formed array of `k` slots; it has a bitmap iff the forcing rule holds, and then `k` nulls, else none |
| `Concatenation.ChildValuesLength` | src/array/growable/fixed_size_list.rs:78-79 | sources of one size contribute exactly `size` child values per slot |
| `Concatenation.SlotBitsNulls` | src/array/growable/fixed_size_list.rs:76 | the concatenated slot bitmap holds exactly the sources' nulls |
| `IpcFixedSizeBinary.Deque.PopFront` | src/io/ipc/read/array/fixed_size_binary.rs:57-68 | removes and returns the front item, or returns `None` and changes nothing when the queue is empty |
| `IpcFixedSizeBinary.SaturatingMul` | src/io/ipc/read/array/fixed_size_binary.rs:39 | the product when it fits in `usize`, otherwise `usize::MAX`; it never wraps |
| `IpcFixedSizeBinary.SaturatingMulMonotone` | src/io/ipc/read/array/fixed_size_binary.rs:39 | a larger slot count never yields a smaller saturated byte length |
| `IpcFixedSizeBinary.ArrayLength` | src/io/ipc/read/array/fixed_size_binary.rs:37 | fails exactly on a negative declared length; otherwise `min(node.length, limit)` |
| `IpcFixedSizeBinary.MaybeGetSize` | src/io/ipc/read/array/fixed_size_binary.rs:39 | yields a width exactly for a fixed-size-binary type of positive width |
| `IpcFixedSizeBinary.TryNew` | src/io/ipc/read/array/fixed_size_binary.rs:50 | succeeds exactly when the parts form a well-formed array, and then returns those parts unchanged |
| `IpcFixedSizeBinary.Read` | src/io/ipc/read/array/fixed_size_binary.rs:13-51 | an empty node queue fails with nothing popped; otherwise one node is popped and at most two buffers, always from the front; success pops exactly two buffers and yields a well-formed array |
| `IpcFixedSizeBinary.Skip` | src/io/ipc/read/array/fixed_size_binary.rs:53-70 | succeeds iff there is a node and two buffers, and then pops exactly those; otherwise it fails with the source's message for the first missing item, keeping what was already popped |
| `IpcFixedSizeBinary.TryGetFieldNode` | src/io/ipc/read/array/fixed_size_binary.rs:24 | pops the front node, or fails on an empty queue |
| `IpcFixedSizeBinary.ReadValidity` | src/io/ipc/read/array/fixed_size_binary.rs:26-35 | checks the length without popping; then pops exactly one buffer, giving no bitmap when the node has no nulls, else the first `length` bits |
| `IpcFixedSizeBinary.ValidityStep` | src/io/ipc/read/array/fixed_size_binary.rs:26-35 | a negative length fails with no buffer popped; otherwise one buffer is popped or `MissingBuffer`; success gives no bitmap when the node has no nulls, else the first `min(length, limit)` bits, and fails only when the buffer is shorter |
| `IpcFixedSizeBinary.ValuesStep` | src/io/ipc/read/array/fixed_size_binary.rs:40-48 | pops exactly one buffer, or fails with `MissingBuffer` on an empty queue; succeeds iff the buffer holds `length` bytes, giving exactly its first `length` bytes |
| `IpcFixedSizeBinary.ReadBuffer` | src/io/ipc/read/array/fixed_size_binary.rs:40-48 | pops exactly one buffer and takes its first `length` bytes, failing if it is missing or too short |
| `IpcFixedSizeBinary.ReadFixedSizeBinary` | src/io/ipc/read/array/fixed_size_binary.rs:13-51 | the result and the queues left behind are exactly `Read` of the old queues; the capped length is computed once, before the validity buffer is read, which is equivalent because reading validity fails on the same negative length before popping |
| `IpcFixedSizeBinary.SkipFixedSizeBinary` | src/io/ipc/read/array/fixed_size_binary.rs:53-70 | the result and the queues left behind are exactly `Skip` of the old queues |
| `IpcFixedSizeBinary.ReadSuccess` | src/io/ipc/read/array/fixed_size_binary.rs:24-50 | a successful read is `try_new` of the data type, the first `saturating(length*width)` bytes of the values buffer and, if the node has nulls, the first `length` validity bits |
| `IpcFixedSizeBinary.ReadLength` | src/io/ipc/read/array/fixed_size_binary.rs:37-39 | without saturation, the array read has exactly the capped node length |
| `IpcFixedSizeBinary.SkipAlignsWithRead` | src/io/ipc/read/array/fixed_size_binary.rs:53-70 | wherever reading succeeds, skipping succeeds and leaves both queues where reading would |
| `IpcFixedSizeBinary.NoByteWidthNoRollback` | src/io/ipc/read/array/fixed_size_binary.rs:24-39 | a type without a byte width fails after the node and the validity buffer are popped, and they stay popped |
| `IpcFixedSizeBinary.LimitExample` | src/io/ipc/read/array/fixed_size_binary.rs:37-39 | node length 5, width 4 and limit 3 give 3 slots and exactly the first 12 bytes of the values buffer |
| `IpcFixedSizeBinary.RoundTrip` | src/io/ipc/read/array/fixed_size_binary.rs:13-51 | reading back a field node and buffers encoded from a well-formed array reproduces its bytes, and its bitmap whenever it has nulls |

## Left out

- The `Read + Seek` reader, `block_offset`, endianness, compression and the `scratch` space. A buffer is modelled as the bytes the reader fetches for it. The errors that `read_buffer` raises for negative offsets or lengths are not modelled.
- The bodies of `try_get_field_node`, `read_validity`, `read_bitmap`, `read_buffer` and `try_get_array_length` are not part of this model. They are modelled by the contracts the code above relies on: each buffer reader pops exactly one buffer, a bitmap is the first `length` bits of its buffer, and a length is `min(node.length, limit)`. Their error kinds (`MissingBuffer`, `BufferTooShort`, `NegativeLength`) are names of this model, not the library's messages.
- `FixedSizeBinaryArray::maybe_get_size` and `try_new` are not part of this model either. `MaybeGetSize` also rejects a width of 0, an assumption that keeps `try_new`'s division by the width defined.
- The `make_growable` dispatch and the other encodings' growables. The inner builder is one flat child builder over integer child values. Nested children (a list of lists) are not modelled.
- The bodies of `prepare_validity`, `extend_validity` and `FixedSizeListArray::new`. They are modelled by their effect: an empty bitmap when tracking; bits appended only to a tracked bitmap; a well-formed array on construction. The capacity hint affects allocation only and is ignored.
- `to_logical_type`, extension types and the `unreachable!` branch. The constructor requires well-formed sources, so the first source's type is a fixed-size list of positive size. A size of 0 would make `len()` divide by zero.
- Growable.GrowableFixedSizeList.ExtendValidity: does not model `usize` overflow of `additional * size`. Integers are unbounded here, while Rust would wrap or panic.
- Growable.GrowableFixedSizeList.Extend: does not model `usize` overflow of `start * size`. Its requires keep the scaled range inside the source's child array, so overflow cannot arise.
- Sources whose list size differs from the first source's are not re-validated, as in the code. `Extend` requires the scaled child range to lie within the source, and `Concatenate` requires all sources to share one data type.
- `Arc` versus `Box`, lifetimes and borrowing. `ArrayRef` only tags the same finished array as shared or owned.
- The `From` conversion consumes the builder. The model cannot express a move, so `FromGrowable` leaves the outer builder's fields in place.
- The inner builder receives the outer `use_validity` flag (fixed_size_list.rs:51). Bits are written only into a bitmap that is already tracked; an absent bitmap is never created mid-build.
- Growable.GrowableFixedSizeList.ExtendValidity: adds `additional` logical nulls only when a bitmap is tracked. As in the code (fixed_size_list.rs:84-86), a builder without a bitmap (the caller did not ask and no source has nulls) records nothing for the appended slots, so they read back as valid; `Concatenation.NullSlots` states both cases.
