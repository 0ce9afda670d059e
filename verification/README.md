# c-struct layout engine in Dafny

A model of c-struct's schema-to-layout engine (`src/index.ts`) and proofs about it. c-struct
describes a fixed binary record as a list of named definitions and turns it into a struct
type. A definition is one of:

- a primitive number (`UInt8` … `Double`);
- a nested struct;
- a fixed-length array, possibly multi-dimensional;
- padding.

Binding a struct type to a Node `Buffer` gives an instance whose properties read and write
the buffer in place, in little- or big-endian byte order.

The modules follow the program's structure:

| module | file | what it models |
|---|---|---|
| `Results` | `results.dfy` | `Option` and `Result`, used for failures the code raises |
| `Bytes` | `bytes.dfy` | bytes, byte order, the unsigned LE/BE integer codecs behind `Buffer.read*`/`write*` |
| `Primitives` | `primitives.dfy` | `PrimitiveType`, `sizeMap`, `readWriteFuncMap`, two's complement, range checks |
| `Fields` | `fields.dfy` | `PrimitiveField`, `StructField`, `ArrayField`, their sizes, `arrayOf` and the definition helpers |
| `Layout` | `layout.dfy` | the offset table, `define`'s size loop, the constructor's accessor installation loop |
| `Instances` | `instances.dfy` | the struct constructor, primitive and nested-struct accessors, `alloc`, `_copy`, the lazy cache |
| `Arrays` | `arrays.dfy` | `arrayReader` and its three strategies, typed-array element access |

How the model represents the program:

- **Storage and windows.** A Node `Buffer` and every `slice` of it share one block of memory.
  The model keeps one storage sequence. An instance is a window `[start, limit)` of that
  storage, with a byte order and its installed accessors, so every address is absolute. A
  write through a nested struct is therefore a write to the parent's storage at
  field offset plus sub-offset, which is what the aliasing lemmas state.
- **Failures the code raises.** `Object.defineProperty` throws when a definition's name is
  already a property of the instance. That happens for a duplicate non-padding name, or for
  `_buffer` or `_endianness`. Node's `write*` throws on a value the width cannot hold. Both
  are `Failure` results in the model. Nothing checks the buffer's length when binding, so
  binding requires a window that is large enough.
- **Parameters.** The host byte order (`os.endianness()`) is a parameter, and so are the
  bytes of the uninitialised `new Buffer(size)` in `alloc`.

Two consequences of the code that the model keeps:

- **Array-of-struct elements are views.** Element i is bound over
  `buffer.slice(off, off + size)` (`src/index.ts:183-184`), and a Node slice shares memory,
  so the model's elements are windows over the parent's storage.
- **The nested window ends at the parent's size.** The getter slices up to `ctor.size`
  (`src/index.ts:132`), not to the end of the field. `Instances.StructChild` states that end
  and proves the window still holds the whole field.

## Model

| member | source | states |
|---|---|---|
| Bytes.DecodeLE | src/index.ts:27-47 | an n-byte little-endian value is below 256^n |
| Bytes.EncodeLE | src/index.ts:27-47 | a value below 256^n encodes to exactly n bytes that decode back to it |
| Bytes.EncodeDecodeLE | src/index.ts:27-47 | encoding the decoded value at the same width gives back the original bytes |
| Bytes.Decode | src/index.ts:30-37 | a value read in either byte order is below 256^width |
| Bytes.Encode | src/index.ts:30-37 | in either byte order, encoding gives n bytes that decode back to the value |
| Bytes.EncodeDecode | src/index.ts:30-37 | in either byte order, decode then encode is the identity on bytes |
| Bytes.SingleByteOrderFree | src/index.ts:38-44 | a single byte reads the same under LE and BE |
| Bytes.TwoBytesEachOrder | src/index.ts:30-37 | two bytes read low byte first under LE and high byte first under BE |
| Primitives.CodecFor | src/index.ts:27-47 | the key `type + endianness` selects that kind; 1-byte kinds get the order-free pair, wider kinds the pair of the requested order |
| Primitives.FromPattern | src/index.ts:104-108 | the two's-complement reading of a bit pattern is inside the kind's range |
| Primitives.ToPattern | src/index.ts:110-112 | an in-range value maps to a bit pattern of the width, and reading that pattern gives the value back |
| Primitives.Read | src/index.ts:104-108 | a primitive getter's value is always inside its kind's range |
| Primitives.Write | src/index.ts:110-112 | a setter fails exactly on out-of-range values; on success the getter reads the value back, the length is kept, and every byte outside `[offset, offset+width)` is unchanged |
| Primitives.WriteWhatWasRead | src/index.ts:104-112 | writing back the value just read leaves the buffer unchanged |
| Primitives.LastWriteWins | src/index.ts:110-112 | after an in-range write, a second write to the same field gives what that second write alone gives: its value, or its failure |
| Primitives.ReadSameBytes | src/index.ts:104-108 | two reads of the same bytes give the same value, wherever the bytes are |
| Primitives.ReadDependsOnlyOnItsBytes | src/index.ts:104-108 | a read depends only on the bytes `[offset, offset+width)` |
| Primitives.OneByteKindsIgnoreEndianness | src/index.ts:38-44 | UInt8 and Int8 select the same pair under LE and BE, and read the single byte as that kind |
| Primitives.UInt16EachOrder | src/index.ts:30-37 | UInt16 reads `b0 + 256*b1` under LE and `256*b0 + b1` under BE |
| Fields.PrimitiveSizes | src/index.ts:5-14 | widths: 1 exactly for UInt8/Int8, 2 for UInt16/Int16, 4 for UInt32/Int32/Float, 8 for Double |
| Fields.DefsSizeAppend | src/index.ts:255-259 | the size sum over a concatenation is the sum of the two parts |
| Fields.StructSizeFromFront | src/index.ts:255-259 | a struct's size is its first definition's size plus the size of the rest |
| Fields.Innermost | src/index.ts:191-203 | peeling nested arrays ends at a primitive or struct field |
| Fields.ArraySizeIsProduct | src/index.ts:144-148 | a nested array's size is the product of its lengths times the innermost element's size |
| Fields.ArrayOfAsWritten | src/index.ts:349-356 | as written, `arrayOf` has no usable size exactly for a `PrimitiveType` argument; otherwise it is an array of `length` elements of size `length * elementSize` |
| Fields.ArrayOf | src/index.ts:349-356 | corrected `arrayOf`: always an array of `length` elements of size `length * elementSize`, and equal to the written one wherever that has a size |
| Fields.ArrayOfPrimitiveKindLosesSize | src/index.ts:349-356 | `arrayOf(Int32, 8)` has no size as written and is 32 bytes when corrected |
| Fields.PrimitiveDef | src/index.ts:296-301 | a primitive definition takes its kind's width and is padding exactly when named `_` |
| Fields.StructDef | src/index.ts:335-340 | a struct field's size is its struct type's size |
| Fields.ArrayDef | src/index.ts:342-347 | `array(name, type, length)` over the corrected `arrayOf` is an array field of `length * elementSize` bytes |
| Fields.ArrayDefAsWritten | src/index.ts:342-347 | `array(name, type, length)` as written has no usable size exactly for a `PrimitiveType` argument, and otherwise equals the corrected definition |
| Fields.Padding | src/index.ts:358-360 | `padding()` is a UInt8 named `_`: padding, one byte |
| Layout.OffsetStep | src/index.ts:244-252 | each definition advances the running offset by its size, padding included |
| Layout.OffsetMonotone | src/index.ts:244-252 | offsets never decrease along the definitions |
| Layout.OffsetOfPrefix | src/index.ts:244-252 | a definition's offset depends only on the definitions before it |
| Layout.FieldFits | src/index.ts:244-259 | every definition ends at or before the struct's size |
| Layout.FieldsDisjoint | src/index.ts:244-252 | an earlier definition ends at or before a later one starts |
| Layout.FieldDefInstalled | src/index.ts:280-285 | a non-padding `field(name, f)` in clash-free definitions is installed as an accessor with that name and field, at its running offset |
| Layout.Define | src/index.ts:255-259 | `define`'s size loop yields the struct type's size, and every field fits inside it |
| Layout.Install | src/index.ts:239-252 | installation succeeds exactly when no name clashes. On success there is one accessor per non-padding definition, in order, with its name, field and running offset. On failure the error names the first clashing definition |
| Instances.Bind | src/index.ts:239-253 | binding succeeds exactly when the names are clash-free. The instance covers the given window and uses the given byte order, or the host's when none is given; failures name a clashing definition |
| Instances.Alloc | src/index.ts:261-264 | `alloc` gives storage of exactly the struct's size, bound from offset 0 with the resolved byte order |
| Instances.AccessorFits | src/index.ts:244-252 | an installed accessor describes its definition and lies inside the struct |
| Instances.GetPrim | src/index.ts:104-109 | a primitive field reads an in-range value |
| Instances.SetPrim | src/index.ts:104-112 | a field setter fails exactly on out-of-range values; otherwise the getter reads the value back and only the field's bytes change |
| Instances.AccessorsDisjoint | src/index.ts:244-252 | two different accessors of an instance cover disjoint bytes |
| Instances.SetLeavesOtherFields | src/index.ts:105-112 | setting one primitive field leaves every other primitive field's value unchanged |
| Instances.StructChild | src/index.ts:123-137 | the nested instance starts at the field, ends at the parent's size, holds the whole field, and uses the parent's byte order |
| Instances.NestedReadAlias | src/index.ts:129-134 | a nested sub-field reads the parent's bytes at field offset plus sub-offset, inside the parent's field |
| Instances.NestedWriteAlias | src/index.ts:129-134 | a write through a nested sub-field is the parent-level write at field offset plus sub-offset, and changes nothing outside the parent's field |
| Instances.NestedWriteLeavesSiblings | src/index.ts:129-134 | a write through a nested struct leaves the parent's other primitive fields unchanged |
| Instances.Copy | src/index.ts:266-270 | `_copy()` as written: new storage holding the instance's bytes, same type and accessors, bound with the host's byte order |
| Instances.CopyKeepingEndian | src/index.ts:266-270 | corrected `_copy()`: the same, but keeping the instance's own byte order |
| Instances.CopyReadsOriginalBytes | src/index.ts:266-270 | each primitive field of a copy reads the original's bytes for that field, in the copy's byte order |
| Instances.CopyReadsLikeOriginal | src/index.ts:266-270 | every primitive field of the corrected copy reads what the original reads |
| Instances.CopyAsWrittenSwapsBytes | src/index.ts:266-270 | as written, copying a BE instance on an LE host swaps each UInt16 field's bytes, so a field reads the same only when its two bytes are equal |
| Instances.Fetch | src/index.ts:130-135 | the cached getter fills the slot with what it returns, and returns the cached value once filled |
| Instances.CachedStructChild | src/index.ts:129-135 | with its cache, the nested-struct getter returns on every access exactly what an uncached getter returns, and leaves the slot filled with it |
| Instances.FetchIsStable | src/index.ts:155-159 | after the first access, later accesses return the first value |
| Arrays.StructArrayReader | src/index.ts:176-189 | element i of a struct array is bound over `[at + i*size, at + (i+1)*size)` with the host's byte order, succeeds exactly when the names are clash-free, and the loop agrees with the array getter |
| Arrays.ArrayRowsReader | src/index.ts:203-216 | row i of an array of arrays is the inner array's reader at `at + i*elemSize`, and the loop agrees with the array getter |
| Arrays.ArrayReaderWithin | src/index.ts:191-218 | every byte an array getter can reach lies in `[at, at + length*elemSize)` |
| Arrays.StructElementWithin | src/index.ts:182-186 | each struct element lies inside the array field |
| Arrays.RowWithin | src/index.ts:205-215 | each row of an array of arrays lies inside the outer array field |
| Arrays.FieldArray | src/index.ts:149-161 | an instance's array getter stays inside its field and inside its struct |
| Arrays.PrimElement | src/index.ts:165-174 | a typed-array element reads an in-range value of its kind |
| Arrays.PrimElementBytes | src/index.ts:165-174 | typed-array element i depends only on bytes `[at + i*w, at + (i+1)*w)` |
| Arrays.Wrap | src/index.ts:165-174 | a typed-array store keeps the value modulo 2^bits: in range, the same bit pattern as v mod 2^bits, and v itself when v is in range |
| Arrays.SetPrimElement | src/index.ts:165-174 | storing into element i reads back the wrapped value and changes no byte outside element i |
| Arrays.FlatLocation | src/index.ts:191-218 | in-bounds indexing of a nested array reaches the row-major address `at + Σ index_d * stride_d` |
| Arrays.TwoDimensionalExample | src/index.ts:203-216 | a 3×2 Int8 array over bytes 10..60 has rows at 0, 2, 4 and reads `[[10,20],[30,40],[50,60]]` |

## Left out

- Float and Double values: only their sizes are modelled, so reads, writes and typed-array elements require an integer kind. IEEE 754 encoding is floating point.
- `os.endianness()` is a parameter (`host`) rather than a query of the operating system.
- Endianness strings other than `LE` and `BE` are not modelled. In the code they make the function-pair lookup come back undefined.
- `Object.defineProperty` details (enumerability, the read-only `size`, `definitions`, `alloc` and `_copy` properties, prototypes) are left out. Only the redefinition failure is modelled.
- The lazy `__name__` cache is modelled as a `Slot` filled once. Every cached value is a view over the shared storage, so caching changes no value read; `Instances.CachedStructChild` states this for nested structs, and the array getters are modelled uncached. A field name that collides with a cache key is not modelled.
- Typed-array construction is modelled as host-order element access at the computed offsets. Its alignment `RangeError` for a misaligned byte offset is left out, because it is the JavaScript runtime's rule.
- Non-integer JavaScript values written to a field (fractions, strings, `NaN`) are left out. Values are integers.
- Instances.Bind: requires the window to hold the struct. The code checks nothing, and an undersized buffer gives the runtime's out-of-bounds behaviour, which is not modelled.
- Fields.ArrayDef: uses the corrected `arrayOf`, so a `PrimitiveType` argument gets a size; the code as written is `Fields.ArrayDefAsWritten`.
- `define` keeps the caller's `definitions` array by reference (`src/index.ts:245`, `:274`) but computes `size` once (`:255-259`). Changing that array after `define` changes the accessors later binds install while `size` and `alloc` keep the old size. The model's definitions are an immutable sequence, so this aliasing is not modelled.
- `getReadWriteFunc` is left out because it does nothing and returns `undefined`.
- The demonstration and benchmark scripts under `test/` are left out. They are not part of the library.

## Findings

| source | as written | input that shows it | evidently intended | confidence | as-written member | corrected member |
|---|---|---|---|---|---|---|
| src/index.ts:349-356 | `arrayOf` treats every non-object argument as a struct type, including a `PrimitiveType` enum value, which is a number; the resulting `StructField` has an undefined size, so the array's size is `NaN` | `arrayOf(PrimitiveType.Int32, 8)` | an array of 8 Int32 elements, 32 bytes, as the `DataType` signature allows | high, not executed | Fields.ArrayOfAsWritten (Fields.ArrayOfPrimitiveKindLosesSize, Fields.ArrayDefAsWritten) | Fields.ArrayOf (Fields.ArrayDef) |
| src/index.ts:266-270 | `_copy()` binds the copy with no endianness, so it uses the host's byte order instead of the instance's | a big-endian instance with a UInt16 field holding bytes `01 00`, on a little-endian host: the original reads 256, the copy reads 1 | the copy keeps the original's byte order and reads the same values | medium, not executed | Instances.CopyAsWrittenSwapsBytes | Instances.CopyKeepingEndian (Instances.CopyReadsLikeOriginal) |
