/**
 Array accessors: `arrayReader` and its three strategies. An array of a
 primitive kind is a typed-array view in the host's byte order, an array of
 structs is a sequence of instances bound (with the host's byte order) over
 consecutive windows, and an array of arrays is a sequence of readers for the
 inner array at consecutive offsets.
 */
module Arrays {
  import opened Bytes
  import opened Primitives
  import opened Fields
  import opened Layout
  import opened Instances
  import opened Results

  /** What an array getter yields. All offsets are absolute in the shared storage. */
  datatype Access =
    | PrimArray(kind: Primitive, at: nat, length: nat, order: Endian)
    | StructArray(elems: seq<Result<Instance, BindError>>)
    | Rows(rows: seq<Access>)

  lemma MulSucc(i: nat, size: nat)
    ensures (i + 1) * size == i * size + size
  {
  }

  lemma ElementFits(i: nat, length: nat, size: nat)
    requires i < length
    ensures i * size + size <= length * size
  {
    assert (i + 1) * size <= length * size by {
      assert i + 1 <= length;
    }
  }

  /** Element i of an array of structs: `new ctor(buffer.slice(off, off + size))`, with no endianness. */
  function StructElement(t: StructType, at: nat, i: nat, host: Endian): Result<Instance, BindError>
  {
    Bind(t, at + i * StructSize(t), at + i * StructSize(t) + StructSize(t), None, host)
  }

  /** `arrayReader(arrayField, offset)` applied to an instance: what the getter returns. */
  function ArrayReader(elem: Field, length: nat, at: nat, host: Endian): Access
    decreases elem
  {
    match elem
    case Prim(k) => PrimArray(k, at, length, host)
    case Struct(t) => StructArray(seq(length, i requires 0 <= i < length => StructElement(t, at, i, host)))
    case Array(e, n) => Rows(seq(length, i requires 0 <= i < length => ArrayReader(e, n, at + i * Size(elem), host)))
  }

  /**
   `structArrayReader`'s loop: `off` starts at the field's offset and grows by
   the struct size, so element i is bound over `[at + i*size, at + (i+1)*size)`,
   with the host's byte order.
   */
  method StructArrayReader(t: StructType, length: nat, at: nat, host: Endian) returns (arr: seq<Result<Instance, BindError>>)
    ensures |arr| == length
    ensures forall i :: 0 <= i < length ==> arr[i] == Bind(t, at + i * StructSize(t), at + (i + 1) * StructSize(t), None, host)
    ensures forall i :: 0 <= i < length ==> (arr[i].Success? <==> WellNamed(t.defs))
    ensures ArrayReader(Struct(t), length, at, host) == StructArray(arr)
  {
    arr := [];
    var size := StructSize(t);
    var off := at;
    var i := 0;
    while i < length
      invariant i <= length
      invariant off == at + i * size
      invariant |arr| == i
      invariant forall j :: 0 <= j < i ==> arr[j] == StructElement(t, at, j, host)
    {
      MulSucc(i, size);
      arr := arr + [Bind(t, off, off + size, None, host)];
      off := off + size;
      i := i + 1;
    }
    StructElementsClosedForm(t, length, at, host, arr);
  }

  lemma StructElementsClosedForm(t: StructType, length: nat, at: nat, host: Endian, arr: seq<Result<Instance, BindError>>)
    requires |arr| == length
    requires forall j :: 0 <= j < length ==> arr[j] == StructElement(t, at, j, host)
    ensures forall i :: 0 <= i < length ==> arr[i] == Bind(t, at + i * StructSize(t), at + (i + 1) * StructSize(t), None, host)
    ensures forall i :: 0 <= i < length ==> (arr[i].Success? <==> WellNamed(t.defs))
    ensures ArrayReader(Struct(t), length, at, host) == StructArray(arr)
  {
    forall i | 0 <= i < length
      ensures arr[i] == Bind(t, at + i * StructSize(t), at + (i + 1) * StructSize(t), None, host)
    {
      MulSucc(i, StructSize(t));
    }
    assert StructArray(arr) == ArrayReader(Struct(t), length, at, host);
  }

  /**
   The multi-dimensional branch's loop: `off` grows by the inner array's size,
   so row i is the reader for the inner array at `at + i * elemField.size`.
   */
  method ArrayRowsReader(e: Field, n: nat, length: nat, at: nat, host: Endian) returns (rows: seq<Access>)
    ensures |rows| == length
    ensures forall i :: 0 <= i < length ==> rows[i] == ArrayReader(e, n, at + i * (n * Size(e)), host)
    ensures ArrayReader(Array(e, n), length, at, host) == Rows(rows)
  {
    rows := [];
    var size := Size(Array(e, n));
    var off := at;
    var i := 0;
    while i < length
      invariant i <= length
      invariant off == at + i * size
      invariant |rows| == i
      invariant forall j :: 0 <= j < i ==> rows[j] == ArrayReader(e, n, at + j * size, host)
    {
      MulSucc(i, size);
      var line := ArrayReader(e, n, off, host);
      off := off + size;
      rows := rows + [line];
      i := i + 1;
    }
    assert Rows(rows) == ArrayReader(Array(e, n), length, at, host);
  }

  /** Every byte an access can reach lies in `[lo, hi)`. */
  predicate Within(a: Access, lo: nat, hi: nat)
  {
    match a
    case PrimArray(k, at, n, _) => lo <= at && at + n * Width(k) <= hi
    case StructArray(es) => forall i :: 0 <= i < |es| && es[i].Success? ==> lo <= es[i].value.start && es[i].value.limit <= hi
    case Rows(rows) => forall i :: 0 <= i < |rows| ==> Within(rows[i], lo, hi)
  }

  lemma {:induction false} WithinWiden(a: Access, lo: nat, hi: nat, lo': nat, hi': nat)
    requires Within(a, lo, hi) && lo' <= lo && hi <= hi'
    ensures Within(a, lo', hi')
  {
    match a
    case PrimArray(_, _, _, _) =>
    case StructArray(_) =>
    case Rows(rows) =>
      forall i | 0 <= i < |rows|
        ensures Within(rows[i], lo', hi')
      {
        WithinWiden(rows[i], lo, hi, lo', hi');
      }
  }

  /** An array getter reaches only the array field's own bytes `[at, at + length * elemSize)`. */
  lemma {:induction false} ArrayReaderWithin(elem: Field, length: nat, at: nat, host: Endian)
    ensures Within(ArrayReader(elem, length, at, host), at, at + length * Size(elem))
    decreases elem, 1
  {
    var s := Size(elem);
    var a := ArrayReader(elem, length, at, host);
    match elem
    case Prim(_) =>
    case Struct(t) =>
      forall i | 0 <= i < length && a.elems[i].Success?
        ensures at <= a.elems[i].value.start && a.elems[i].value.limit <= at + length * s
      {
        StructElementWithin(t, length, at, host, i);
      }
    case Array(e, n) =>
      forall i | 0 <= i < length
        ensures Within(a.rows[i], at, at + length * s)
      {
        RowWithin(e, n, length, at, host, i);
      }
  }

  lemma StructElementWithin(t: StructType, length: nat, at: nat, host: Endian, i: nat)
    requires i < length
    ensures var r := StructElement(t, at, i, host);
      r.Success? ==> at <= r.value.start && r.value.limit <= at + length * StructSize(t)
  {
    var size := StructSize(t);
    var r := StructElement(t, at, i, host);
    var lo := at + i * size;
    assert r.Success? ==> r.value.start == lo && r.value.limit == lo + size;
    ElementFits(i, length, size);
  }

  lemma {:induction false} RowWithin(e: Field, n: nat, length: nat, at: nat, host: Endian, i: nat)
    requires i < length
    ensures Within(ArrayReader(e, n, at + i * Size(Array(e, n)), host), at, at + length * Size(Array(e, n)))
    decreases Array(e, n), 0
  {
    var s := Size(Array(e, n));
    var lo := at + i * s;
    var r := ArrayReader(e, n, lo, host);
    ArrayReaderWithin(e, n, lo, host);
    assert Within(r, lo, lo + n * Size(e));
    assert n * Size(e) == s;
    ElementFits(i, length, s);
    assert lo + s <= at + length * s;
    WithinWiden(r, lo, lo + s, at, at + length * s);
  }

  /** The getter of an instance's array field: it stays inside the field and the instance's struct. */
  function FieldArray(inst: Instance, a: Accessor, host: Endian): (r: Access)
    requires WellFormed(inst) && a in inst.accessors && a.field.Array?
    ensures Within(r, Address(inst, a), Address(inst, a) + Size(a.field))
    ensures Within(r, inst.start, inst.start + StructSize(inst.ty))
  {
    AccessorFits(inst, a);
    var r := ArrayReader(a.field.elem, a.field.length, Address(inst, a), host);
    ArrayReaderWithin(a.field.elem, a.field.length, Address(inst, a), host);
    WithinWiden(r, Address(inst, a), Address(inst, a) + Size(a.field), inst.start, inst.start + StructSize(inst.ty));
    r
  }

  /** Element i of a typed-array view: the integer at `at + i * width`, in the view's order. */
  function PrimElement(storage: Buffer, a: Access, i: nat): (v: int)
    requires a.PrimArray? && IsInteger(a.kind) && i < a.length
    requires a.at + a.length * Width(a.kind) <= |storage|
    ensures InRange(a.kind, v)
  {
    ElementFits(i, a.length, Width(a.kind));
    Read(CodecFor(a.kind, a.order), storage, a.at + i * Width(a.kind))
  }

  /** Element i of a typed-array view covers exactly the bytes `[at + i*w, at + (i+1)*w)`. */
  lemma PrimElementBytes(s1: Buffer, s2: Buffer, a: Access, i: nat)
    requires a.PrimArray? && IsInteger(a.kind) && i < a.length
    requires a.at + a.length * Width(a.kind) <= |s1| && a.at + a.length * Width(a.kind) <= |s2|
    requires forall b :: a.at + i * Width(a.kind) <= b < a.at + (i + 1) * Width(a.kind) ==> s1[b] == s2[b]
    ensures PrimElement(s1, a, i) == PrimElement(s2, a, i)
  {
    var w := Width(a.kind);
    ElementFits(i, a.length, w);
    assert (i + 1) * w == i * w + w;
    ReadDependsOnlyOnItsBytes(CodecFor(a.kind, a.order), s1, s2, a.at + i * w);
  }

  /** A typed array stores any number modulo 2^bits (ECMAScript's ToIntN/ToUintN). */
  function Wrap(k: Primitive, v: int): (w: int)
    requires IsInteger(k)
    ensures InRange(k, w)
    ensures ToPattern(k, w) == v % Span(k)
    ensures InRange(k, v) ==> w == v
  {
    var u := v % Span(k);
    WrapFacts(k, v, u);
    FromPattern(k, u)
  }

  lemma WrapFacts(k: Primitive, v: int, u: nat)
    requires IsInteger(k) && u == v % Span(k)
    ensures u < Span(k)
    ensures ToPattern(k, FromPattern(k, u)) == u
    ensures InRange(k, v) ==> FromPattern(k, u) == v
  {
    var m := Span(k);
    if InRange(k, v) {
      if v >= 0 {
        ModOfSmall(v, m);
      } else {
        ModOfNegative(v, m);
      }
    }
  }

  lemma ModOfSmall(x: int, m: int)
    requires 0 <= x < m
    ensures x % m == x
  {
  }

  lemma ModOfNegative(x: int, m: int)
    requires m > 0 && -m <= x < 0
    ensures x % m == x + m
  {
  }

  /** `view[i] = v`: the element reads back `v` wrapped to its width; no other byte changes. */
  function SetPrimElement(storage: Buffer, a: Access, i: nat, v: int): (r: Buffer)
    requires a.PrimArray? && IsInteger(a.kind) && i < a.length
    requires a.at + a.length * Width(a.kind) <= |storage|
    ensures |r| == |storage|
    ensures PrimElement(r, a, i) == Wrap(a.kind, v)
    ensures forall b :: 0 <= b < |storage| && !(a.at + i * Width(a.kind) <= b < a.at + (i + 1) * Width(a.kind)) ==> r[b] == storage[b]
  {
    ElementFits(i, a.length, Width(a.kind));
    assert (i + 1) * Width(a.kind) == i * Width(a.kind) + Width(a.kind);
    Write(CodecFor(a.kind, a.order), storage, a.at + i * Width(a.kind), Wrap(a.kind, v)).value
  }

  /** The element strides of a (possibly nested) array, outermost first. */
  function Strides(f: Field): seq<nat>
  {
    match f
    case Array(e, _) => [Size(e)] + Strides(e)
    case _ => []
  }

  function Dot(path: seq<nat>, strides: seq<nat>): nat
    requires |path| == |strides|
  {
    if |path| == 0 then 0 else path[0] * strides[0] + Dot(path[1..], strides[1..])
  }

  predicate InBounds(path: seq<nat>, dims: seq<nat>)
  {
    |path| == |dims| && forall d :: 0 <= d < |path| ==> path[d] < dims[d]
  }

  /** The first byte of the innermost element reached by indexing with `path`, if any. */
  function Locate(a: Access, path: seq<nat>): Option<nat>
  {
    if |path| == 0 then None
    else
      match a
      case PrimArray(k, at, n, _) =>
        if |path| == 1 && path[0] < n then Some(at + path[0] * Width(k)) else None
      case StructArray(es) =>
        if |path| == 1 && path[0] < |es| && es[path[0]].Success? then Some(es[path[0]].value.start) else None
      case Rows(rows) =>
        if path[0] < |rows| then Locate(rows[path[0]], path[1..]) else None
  }

  /**
   Row-major addressing: the element of a multi-dimensional array at index
   path (i1, ..., id) starts at `at + i1*stride1 + ... + id*strided`, where each
   stride is the size of the element one level down.
   */
  lemma {:induction false} FlatLocation(elem: Field, length: nat, at: nat, host: Endian, path: seq<nat>)
    requires InBounds(path, Dims(Array(elem, length)))
    requires Innermost(elem).Struct? ==> WellNamed(Innermost(elem).ty.defs)
    ensures |Strides(Array(elem, length))| == |path|
    ensures Locate(ArrayReader(elem, length, at, host), path) == Some(at + Dot(path, Strides(Array(elem, length))))
    decreases elem
  {
    DimsStrides(Array(elem, length));
    var i := path[0];
    var st := Strides(Array(elem, length));
    assert Dims(Array(elem, length))[0] == length;
    match elem
    case Prim(k) =>
      assert Dot(path, st) == i * Width(k);
    case Struct(t) =>
      assert Dot(path, st) == i * StructSize(t);
    case Array(e, n) =>
      var rest := path[1..];
      assert Dims(Array(elem, length))[1..] == Dims(elem);
      assert InBounds(rest, Dims(elem)) by {
        forall d | 0 <= d < |rest|
          ensures rest[d] < Dims(elem)[d]
        {
          assert rest[d] == path[d + 1];
        }
      }
      FlatLocation(e, n, at + i * Size(elem), host, rest);
      assert st[1..] == Strides(elem);
  }

  lemma {:induction false} DimsStrides(f: Field)
    ensures |Dims(f)| == |Strides(f)|
  {
    match f
    case Array(e, _) => DimsStrides(e);
    case _ =>
  }

  /** A 3 x 2 array of Int8 over the bytes 10, 20, ..., 60 reads as [[10, 20], [30, 40], [50, 60]]. */
  lemma TwoDimensionalExample(host: Endian)
    ensures var storage: Buffer := [10, 20, 30, 40, 50, 60];
      var a := ArrayReader(Array(Prim(Int8), 2), 3, 0, host);
      && a.Rows? && |a.rows| == 3
      && (forall i :: 0 <= i < 3 ==> a.rows[i] == PrimArray(Int8, 2 * i, 2, host))
      && (forall i, j :: 0 <= i < 3 && 0 <= j < 2 ==> PrimElement(storage, a.rows[i], j) == 10 * (2 * i + j + 1))
  {
    var storage: Buffer := [10, 20, 30, 40, 50, 60];
    forall i, j | 0 <= i < 3 && 0 <= j < 2
      ensures PrimElement(storage, PrimArray(Int8, 2 * i, 2, host), j) == 10 * (2 * i + j + 1)
    {
      var b := 2 * i + j;
      assert storage[b..b + 1] == [storage[b]];
      SingleByteOrderFree(storage[b..b + 1]);
    }
  }
}
