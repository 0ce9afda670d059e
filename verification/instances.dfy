/**
 Struct instances: a struct type bound to a window of a shared byte storage
 with a byte order, the primitive and nested-struct accessors, `alloc` and
 `_copy`. A nested instance is a window on the same storage as its parent,
 so every address below is absolute.
 */
module Instances {
  import opened Bytes
  import opened Primitives
  import opened Fields
  import opened Layout
  import opened Results

  /**
   `new ctor(buffer, endianness)`: the instance's `_buffer` is the window
   `[start, limit)` of the storage and `_endianness` is `endian`.
   */
  datatype Instance = Instance(ty: StructType, start: nat, limit: nat, endian: Endian, accessors: seq<Accessor>)

  /** An instance as the constructor leaves it: room for the struct and the accessors it installs. */
  predicate WellFormed(inst: Instance)
  {
    && inst.start + StructSize(inst.ty) <= inst.limit
    && Install(inst.ty.defs) == Success(inst.accessors)
  }

  /** `endianness !== undefined ? endianness : os.endianness()`, the host order given as `host`. */
  function Resolve(e: Option<Endian>, host: Endian): Endian
  {
    match e
    case Some(x) => x
    case None => host
  }

  /**
   The struct constructor over the window `[start, limit)`. Nothing checks the
   window's length, so it is required. It fails when a field name is already
   a property of the instance.
   */
  function Bind(ty: StructType, start: nat, limit: nat, e: Option<Endian>, host: Endian): (r: Result<Instance, BindError>)
    requires start + StructSize(ty) <= limit
    ensures r.Success? <==> WellNamed(ty.defs)
    ensures r.Success? ==> WellFormed(r.value) && r.value.ty == ty
    ensures r.Success? ==> r.value.start == start && r.value.limit == limit
    ensures r.Success? ==> r.value.endian == Resolve(e, host)
    ensures r.Failure? ==> exists k :: 0 <= k < |ty.defs| && Clashes(ty.defs, k) && r.error == Redefined(ty.defs[k].name)
  {
    match Install(ty.defs)
    case Failure(err) => Failure(err)
    case Success(acc) => Success(Instance(ty, start, limit, Resolve(e, host), acc))
  }

  /** A storage together with an instance over it. */
  datatype Bound = Bound(storage: Buffer, inst: Instance)

  /**
   `alloc(endianness)`: a new buffer of exactly `size` bytes, bound from its
   start. `new Buffer(size)` does not clear memory, so its bytes are the
   parameter `initial`.
   */
  function Alloc(ty: StructType, e: Option<Endian>, host: Endian, initial: Buffer): (r: Result<Bound, BindError>)
    requires |initial| == StructSize(ty)
    ensures r.Success? <==> WellNamed(ty.defs)
    ensures r.Success? ==> |r.value.storage| == StructSize(ty) && r.value.storage == initial
    ensures r.Success? ==> WellFormed(r.value.inst) && r.value.inst.ty == ty
    ensures r.Success? ==> r.value.inst.start == 0 && r.value.inst.limit == StructSize(ty)
    ensures r.Success? ==> r.value.inst.endian == Resolve(e, host)
  {
    match Bind(ty, 0, |initial|, e, host)
    case Failure(err) => Failure(err)
    case Success(inst) => Success(Bound(initial, inst))
  }

  /** An installed accessor's field lies inside its struct. */
  lemma AccessorFits(inst: Instance, a: Accessor)
    requires WellFormed(inst) && a in inst.accessors
    ensures Describes(inst.ty.defs, a)
    ensures a.offset + Size(a.field) <= StructSize(inst.ty)
  {
    var j :| 0 <= j < |inst.accessors| && inst.accessors[j] == a;
    FieldFits(inst.ty.defs, a.index);
  }

  /** An integer primitive field of an instance, and the storage it reads from. */
  predicate IntegerAccess(storage: Buffer, inst: Instance, a: Accessor)
  {
    && WellFormed(inst) && inst.limit <= |storage|
    && a in inst.accessors && a.field.Prim? && IsInteger(a.field.kind)
  }

  /** The absolute address of an accessor's first byte. */
  function Address(inst: Instance, a: Accessor): nat
  {
    inst.start + a.offset
  }

  /** The primitive getter: read the field's kind at its offset in the instance's byte order. */
  function GetPrim(storage: Buffer, inst: Instance, a: Accessor): (v: int)
    requires IntegerAccess(storage, inst, a)
    ensures InRange(a.field.kind, v)
  {
    AccessorFits(inst, a);
    Read(CodecFor(a.field.kind, inst.endian), storage, Address(inst, a))
  }

  /**
   The primitive setter. It fails when the value does not fit; otherwise the
   getter gives back `v` and only the field's own bytes change.
   */
  function SetPrim(storage: Buffer, inst: Instance, a: Accessor, v: int): (r: Result<Buffer, WriteError>)
    requires IntegerAccess(storage, inst, a)
    ensures r.Success? <==> InRange(a.field.kind, v)
    ensures r.Success? ==> |r.value| == |storage| && GetPrim(r.value, inst, a) == v
    ensures r.Success? ==> forall i :: 0 <= i < |storage| && !(Address(inst, a) <= i < Address(inst, a) + Size(a.field)) ==> r.value[i] == storage[i]
  {
    AccessorFits(inst, a);
    Write(CodecFor(a.field.kind, inst.endian), storage, Address(inst, a), v)
  }

  /** Two different accessors of one instance cover disjoint bytes. */
  lemma AccessorsDisjoint(inst: Instance, a: Accessor, b: Accessor)
    requires WellFormed(inst) && a in inst.accessors && b in inst.accessors && a != b
    ensures a.offset + Size(a.field) <= b.offset || b.offset + Size(b.field) <= a.offset
  {
    AccessorFits(inst, a);
    AccessorFits(inst, b);
    if a.index < b.index {
      FieldsDisjoint(inst.ty.defs, a.index, b.index);
    } else {
      assert a.index != b.index;
      FieldsDisjoint(inst.ty.defs, b.index, a.index);
    }
  }

  /** Setting one primitive field leaves every other primitive field's value as it was. */
  lemma SetLeavesOtherFields(storage: Buffer, inst: Instance, a: Accessor, b: Accessor, v: int)
    requires IntegerAccess(storage, inst, a) && IntegerAccess(storage, inst, b) && a != b
    requires InRange(a.field.kind, v)
    ensures GetPrim(SetPrim(storage, inst, a, v).value, inst, b) == GetPrim(storage, inst, b)
  {
    AccessorsDisjoint(inst, a, b);
    AccessorFits(inst, b);
    var s' := SetPrim(storage, inst, a, v).value;
    ReadDependsOnlyOnItsBytes(CodecFor(b.field.kind, inst.endian), s', storage, Address(inst, b));
  }

  /**
   The nested-struct getter: a sub-instance over `_buffer.slice(offset, ctor.size)`
   with the parent's byte order. The window ends at the PARENT's size, so it
   starts at the field and is at least as long as the field.
   */
  function StructChild(inst: Instance, a: Accessor): (r: Result<Instance, BindError>)
    requires WellFormed(inst) && a in inst.accessors && a.field.Struct?
    ensures r.Success? <==> WellNamed(a.field.ty.defs)
    ensures r.Success? ==> WellFormed(r.value) && r.value.ty == a.field.ty
    ensures r.Success? ==> r.value.start == Address(inst, a) && r.value.endian == inst.endian
    ensures r.Success? ==> r.value.limit == inst.start + StructSize(inst.ty)
    ensures r.Success? ==> r.value.start + Size(a.field) <= r.value.limit <= inst.limit
  {
    AccessorFits(inst, a);
    Bind(a.field.ty, Address(inst, a), inst.start + StructSize(inst.ty), Some(inst.endian), inst.endian)
  }

  /** A sub-field of a nested struct reads the parent's bytes at field offset plus sub-offset. */
  lemma NestedReadAlias(storage: Buffer, inst: Instance, a: Accessor, child: Instance, b: Accessor)
    requires WellFormed(inst) && inst.limit <= |storage| && a in inst.accessors && a.field.Struct?
    requires StructChild(inst, a) == Success(child)
    requires b in child.accessors && b.field.Prim? && IsInteger(b.field.kind)
    ensures IntegerAccess(storage, child, b)
    ensures Address(inst, a) <= Address(child, b)
    ensures Address(child, b) + Size(b.field) <= Address(inst, a) + Size(a.field)
    ensures GetPrim(storage, child, b) == Read(CodecFor(b.field.kind, inst.endian), storage, inst.start + a.offset + b.offset)
  {
    AccessorFits(child, b);
  }

  /**
   A write through a nested struct's sub-field is the parent-level write at
   field offset plus sub-offset, and it stays within the parent's field.
   */
  lemma NestedWriteAlias(storage: Buffer, inst: Instance, a: Accessor, child: Instance, b: Accessor, v: int)
    requires WellFormed(inst) && inst.limit <= |storage| && a in inst.accessors && a.field.Struct?
    requires StructChild(inst, a) == Success(child)
    requires b in child.accessors && b.field.Prim? && IsInteger(b.field.kind)
    ensures IntegerAccess(storage, child, b)
    ensures inst.start + a.offset + b.offset + Width(b.field.kind) <= |storage|
    ensures SetPrim(storage, child, b, v) == Write(CodecFor(b.field.kind, inst.endian), storage, inst.start + a.offset + b.offset, v)
    ensures SetPrim(storage, child, b, v).Success? ==>
      forall i :: 0 <= i < |storage| && !(Address(inst, a) <= i < Address(inst, a) + Size(a.field)) ==>
        SetPrim(storage, child, b, v).value[i] == storage[i]
  {
    NestedReadAlias(storage, inst, a, child, b);
  }

  /** A write through a nested struct leaves the parent's other primitive fields as they were. */
  lemma NestedWriteLeavesSiblings(storage: Buffer, inst: Instance, a: Accessor, child: Instance, b: Accessor, c: Accessor, v: int)
    requires WellFormed(inst) && inst.limit <= |storage| && a in inst.accessors && a.field.Struct?
    requires StructChild(inst, a) == Success(child)
    requires b in child.accessors && b.field.Prim? && IsInteger(b.field.kind)
    requires IntegerAccess(storage, inst, c)
    requires InRange(b.field.kind, v)
    ensures IntegerAccess(storage, child, b)
    ensures GetPrim(SetPrim(storage, child, b, v).value, inst, c) == GetPrim(storage, inst, c)
  {
    NestedWriteAlias(storage, inst, a, child, b, v);
    assert a != c;
    AccessorsDisjoint(inst, a, c);
    AccessorFits(inst, c);
    var s' := SetPrim(storage, child, b, v).value;
    ReadDependsOnlyOnItsBytes(CodecFor(c.field.kind, inst.endian), s', storage, Address(inst, c));
  }

  /**
   `_copy()` as written: a new buffer holding the instance's `_buffer`
   bytes, bound with no endianness, so with the host order.
   */
  function Copy(storage: Buffer, inst: Instance, host: Endian): (r: Bound)
    requires WellFormed(inst) && inst.limit <= |storage|
    ensures r.storage == storage[inst.start..inst.limit]
    ensures WellFormed(r.inst) && r.inst.ty == inst.ty && r.inst.accessors == inst.accessors
    ensures r.inst.start == 0 && r.inst.limit == |r.storage|
    ensures r.inst.endian == host
  {
    var buf := storage[inst.start..inst.limit];
    Bound(buf, Bind(inst.ty, 0, |buf|, None, host).value)
  }

  /** `_copy()` as intended: the copy keeps the original's byte order. */
  function CopyKeepingEndian(storage: Buffer, inst: Instance): (r: Bound)
    requires WellFormed(inst) && inst.limit <= |storage|
    ensures r.storage == storage[inst.start..inst.limit]
    ensures WellFormed(r.inst) && r.inst.ty == inst.ty && r.inst.accessors == inst.accessors
    ensures r.inst.start == 0 && r.inst.limit == |r.storage|
    ensures r.inst.endian == inst.endian
  {
    Copy(storage, inst, inst.endian)
  }

  /** A copy's primitive field reads the original's bytes, in the copy's byte order. */
  lemma CopyReadsOriginalBytes(storage: Buffer, inst: Instance, host: Endian, a: Accessor)
    requires IntegerAccess(storage, inst, a)
    ensures Address(inst, a) + Width(a.field.kind) <= |storage|
    ensures IntegerAccess(Copy(storage, inst, host).storage, Copy(storage, inst, host).inst, a)
    ensures GetPrim(Copy(storage, inst, host).storage, Copy(storage, inst, host).inst, a)
         == Read(CodecFor(a.field.kind, host), storage, Address(inst, a))
  {
    var c := Copy(storage, inst, host);
    AccessorFits(inst, a);
    var w := Width(a.field.kind);
    var at := Address(inst, a);
    var codec := CodecFor(a.field.kind, host);
    assert c.storage == storage[inst.start..inst.limit] && |c.storage| == inst.limit - inst.start;
    assert c.inst.start == 0 && c.inst.endian == host && WellFormed(c.inst) && c.inst.accessors == inst.accessors;
    assert IntegerAccess(c.storage, c.inst, a);
    SliceOfSlice(storage, inst.start, inst.limit, a.offset, w);
    ReadSameBytes(codec, c.storage, a.offset, storage, at);
    assert GetPrim(c.storage, c.inst, a) == Read(codec, c.storage, a.offset);
  }

  /** Every primitive field of the corrected copy reads what the original reads. */
  lemma CopyReadsLikeOriginal(storage: Buffer, inst: Instance, a: Accessor)
    requires IntegerAccess(storage, inst, a)
    ensures IntegerAccess(CopyKeepingEndian(storage, inst).storage, CopyKeepingEndian(storage, inst).inst, a)
    ensures GetPrim(CopyKeepingEndian(storage, inst).storage, CopyKeepingEndian(storage, inst).inst, a) == GetPrim(storage, inst, a)
  {
    CopyReadsOriginalBytes(storage, inst, inst.endian, a);
  }

  lemma SliceOfSlice<T>(s: seq<T>, lo: nat, hi: nat, i: nat, n: nat)
    requires lo <= hi <= |s| && i + n <= hi - lo
    ensures s[lo..hi][i..i + n] == s[lo + i..lo + i + n]
  {
    var window := s[lo..hi];
    var left := window[i..i + n];
    var right := s[lo + i..lo + i + n];
    forall j | 0 <= j < n
      ensures left[j] == right[j]
    {
      assert left[j] == window[i + j];
    }
  }

  /**
   As written, `_copy()` of a big-endian instance on a little-endian host
   reads every `UInt16` field with its two bytes swapped: the copy agrees
   with the original exactly when those two bytes are equal.
   */
  lemma CopyAsWrittenSwapsBytes(storage: Buffer, inst: Instance, a: Accessor)
    requires IntegerAccess(storage, inst, a) && a.field.kind == UInt16 && inst.endian == BE
    ensures Address(inst, a) + 2 <= |storage|
    ensures IntegerAccess(Copy(storage, inst, LE).storage, Copy(storage, inst, LE).inst, a)
    ensures GetPrim(storage, inst, a) == 256 * storage[Address(inst, a)] as int + storage[Address(inst, a) + 1] as int
    ensures GetPrim(Copy(storage, inst, LE).storage, Copy(storage, inst, LE).inst, a)
         == storage[Address(inst, a)] as int + 256 * storage[Address(inst, a) + 1] as int
    ensures GetPrim(Copy(storage, inst, LE).storage, Copy(storage, inst, LE).inst, a) == GetPrim(storage, inst, a)
        <==> storage[Address(inst, a)] == storage[Address(inst, a) + 1]
  {
    CopyReadsOriginalBytes(storage, inst, LE, a);
    UInt16EachOrder(storage, Address(inst, a));
  }

  /** A lazily filled cache slot (`__name__`): filled on first access, then returned as is. */
  datatype Slot<T> = Empty | Filled(value: T)

  function Fetch<T>(slot: Slot<T>, make: T): (r: (Slot<T>, T))
    ensures r.0 == Filled(r.1)
    ensures slot.Filled? ==> r.1 == slot.value
  {
    match slot
    case Filled(x) => (slot, x)
    case Empty => (Filled(make), make)
  }

  /** Once filled, every later access returns the cached value, whatever would be built. */
  lemma FetchIsStable<T>(slot: Slot<T>, first: T, later: T)
    ensures Fetch(Fetch(slot, first).0, later).1 == Fetch(slot, first).1
    ensures slot.Empty? ==> Fetch(slot, first).1 == first
  {
  }

  /**
   The nested-struct getter behind its cache: the first and every later access
   return what an uncached getter would, since the sub-instance depends only on
   the parent instance and reads the shared storage.
   */
  lemma CachedStructChild(inst: Instance, a: Accessor, slot: Slot<Result<Instance, BindError>>)
    requires WellFormed(inst) && a in inst.accessors && a.field.Struct?
    requires slot.Filled? ==> slot.value == StructChild(inst, a)
    ensures Fetch(slot, StructChild(inst, a)).1 == StructChild(inst, a)
    ensures Fetch(slot, StructChild(inst, a)).0 == Filled(StructChild(inst, a))
  {
  }
}
