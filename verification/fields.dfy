/**
 Field descriptors (`PrimitiveField`, `StructField`, `ArrayField`), named
 definitions, struct types and the definition helpers of the schema API.
 */
module Fields {
  import opened Primitives
  import opened Results

  /**
   A field descriptor. A struct field wraps the struct type it refers to; an
   array field wraps its element descriptor, which may itself be an array.
   */
  datatype Field =
    | Prim(kind: Primitive)
    | Struct(ty: StructType)
    | Array(elem: Field, length: nat)

  /** What `define` receives, keeps as `definitions`, and walks in order. */
  datatype StructType = StructType(defs: seq<Def>)

  /** A `Definition`: a name and a field descriptor. */
  datatype Def = Def(name: string, field: Field)

  /** The reserved name of padding definitions. */
  const PaddingName: string := "_"

  predicate IsPadding(d: Def)
  {
    d.name == PaddingName
  }

  /** `field.size`: the number of bytes the field occupies. */
  function Size(f: Field): nat
    decreases f
  {
    match f
    case Prim(k) => Width(k)
    case Struct(t) => DefsSize(t.defs)
    case Array(e, n) => n * Size(e)
  }

  /** The sum of the sizes of a sequence of definitions, padding included. */
  function DefsSize(ds: seq<Def>): nat
    decreases ds
  {
    if |ds| == 0 then 0 else DefsSize(ds[..|ds| - 1]) + Size(ds[|ds| - 1].field)
  }

  /** `ctor.size` of a struct type. */
  function StructSize(t: StructType): nat
  {
    DefsSize(t.defs)
  }

  /** Summing a concatenation sums its parts. */
  lemma {:induction false} DefsSizeAppend(a: seq<Def>, b: seq<Def>)
    ensures DefsSize(a + b) == DefsSize(a) + DefsSize(b)
    decreases |b|
  {
    if |b| > 0 {
      var b' := b[..|b| - 1];
      assert (a + b)[..|a + b| - 1] == a + b';
      DefsSizeAppend(a, b');
    } else {
      assert a + b == a;
    }
  }

  /** A struct type's size is the sum of its definitions' sizes, counted from the front. */
  lemma StructSizeFromFront(t: StructType)
    requires |t.defs| > 0
    ensures StructSize(t) == Size(t.defs[0].field) + StructSize(StructType(t.defs[1..]))
  {
    DefsSizeAppend([t.defs[0]], t.defs[1..]);
    assert [t.defs[0]] + t.defs[1..] == t.defs;
    assert DefsSize([t.defs[0]]) == Size(t.defs[0].field) by {
      assert [t.defs[0]][..0] == [];
    }
  }

  /** The lengths of a (possibly nested) array, outermost first. */
  function Dims(f: Field): seq<nat>
  {
    match f
    case Array(e, n) => [n] + Dims(e)
    case _ => []
  }

  /** The innermost element descriptor of a nested array: a primitive or struct field. */
  function Innermost(f: Field): (g: Field)
    ensures !g.Array?
  {
    match f
    case Array(e, _) => Innermost(e)
    case _ => f
  }

  function Product(ns: seq<nat>): nat
  {
    if |ns| == 0 then 1 else ns[0] * Product(ns[1..])
  }

  /** A multi-dimensional array is the product of its lengths times its innermost element size. */
  lemma {:induction false} ArraySizeIsProduct(f: Field)
    ensures Size(f) == Product(Dims(f)) * Size(Innermost(f))
  {
    match f
    case Prim(_) =>
    case Struct(_) =>
    case Array(e, n) =>
      ArraySizeIsProduct(e);
      assert Dims(f)[1..] == Dims(e);
      calc {
        Size(f);
        n * Size(e);
        n * (Product(Dims(e)) * Size(Innermost(e)));
        { MulAssoc(n, Product(Dims(e)), Size(Innermost(e))); }
        (n * Product(Dims(e))) * Size(Innermost(f));
        Product(Dims(f)) * Size(Innermost(f));
      }
  }

  lemma MulAssoc(a: nat, b: nat, c: nat)
    ensures a * (b * c) == (a * b) * c
  {
  }

  /**
   A `DataType` argument of `arrayOf`/`array`: a `PrimitiveType` enum value
   (a number at run time), a struct type (a function), or a field (an object).
   */
  datatype DataType = KindType(kind: Primitive) | StructTypeOf(ty: StructType) | FieldType(field: Field)

  /** Byte size of one element of an array of `t`. */
  function ElementSize(t: DataType): nat
  {
    match t
    case KindType(k) => Width(k)
    case StructTypeOf(s) => StructSize(s)
    case FieldType(f) => Size(f)
  }

  /**
   `arrayOf` as written: only `typeof type === 'object'` is taken as a field;
   everything else is wrapped in a `StructField`. A `PrimitiveType` value is a
   number, so its `StructField` has an undefined size and the array's size is
   `NaN`; `None` stands for that descriptor.
   */
  function ArrayOfAsWritten(t: DataType, length: nat): (r: Option<Field>)
    ensures r.None? <==> t.KindType?
    ensures r.Some? ==> r.value.Array? && r.value.length == length
    ensures r.Some? ==> Size(r.value) == length * ElementSize(t)
  {
    match t
    case KindType(_) => None
    case StructTypeOf(s) => Some(Array(Struct(s), length))
    case FieldType(f) => Some(Array(f, length))
  }

  /** `arrayOf` as its `DataType` signature intends: a primitive kind is an array of that primitive. */
  function ArrayOf(t: DataType, length: nat): (f: Field)
    ensures f.Array? && f.length == length
    ensures Size(f) == length * ElementSize(t)
    ensures ArrayOfAsWritten(t, length).Some? ==> ArrayOfAsWritten(t, length).value == f
  {
    match t
    case KindType(k) => Array(Prim(k), length)
    case StructTypeOf(s) => Array(Struct(s), length)
    case FieldType(f) => Array(f, length)
  }

  /** `arrayOf(PrimitiveType.Int32, 8)` has no size as written; the corrected one is 32 bytes. */
  lemma ArrayOfPrimitiveKindLosesSize()
    ensures ArrayOfAsWritten(KindType(Int32), 8).None?
    ensures Size(ArrayOf(KindType(Int32), 8)) == 32
  {
  }

  /** `field(name, field)` and `primitive(name, field)`. */
  function FieldDef(name: string, f: Field): (d: Def)
    ensures d.name == name && d.field == f
  {
    Def(name, f)
  }

  function PrimitiveDef(name: string, k: Primitive): (d: Def)
    ensures Size(d.field) == Width(k)
    ensures IsPadding(d) <==> name == PaddingName
  {
    Def(name, Prim(k))
  }

  function UInt8Def(name: string): Def { PrimitiveDef(name, UInt8) }
  function Int8Def(name: string): Def { PrimitiveDef(name, Int8) }
  function UInt16Def(name: string): Def { PrimitiveDef(name, UInt16) }
  function Int16Def(name: string): Def { PrimitiveDef(name, Int16) }
  function UInt32Def(name: string): Def { PrimitiveDef(name, UInt32) }
  function Int32Def(name: string): Def { PrimitiveDef(name, Int32) }
  function FloatDef(name: string): Def { PrimitiveDef(name, Float) }
  function DoubleDef(name: string): Def { PrimitiveDef(name, Double) }

  /** `struct(name, ctor)`: the field takes the size of its struct type. */
  function StructDef(name: string, t: StructType): (d: Def)
    ensures d.name == name
    ensures Size(d.field) == StructSize(t)
  {
    Def(name, Struct(t))
  }

  /** `array(name, type, length)`, with the corrected `arrayOf`. */
  function ArrayDef(name: string, t: DataType, length: nat): (d: Def)
    ensures d.name == name && d.field.Array?
    ensures Size(d.field) == length * ElementSize(t)
  {
    Def(name, ArrayOf(t, length))
  }

  /**
   `array(name, type, length)` as written, over the `arrayOf` as written: a
   `PrimitiveType` argument gives a definition without a size (`None`).
   */
  function ArrayDefAsWritten(name: string, t: DataType, length: nat): (r: Option<Def>)
    ensures r.None? <==> t.KindType?
    ensures r.Some? ==> r.value == ArrayDef(name, t, length)
  {
    match ArrayOfAsWritten(t, length)
    case None => None
    case Some(f) => Some(Def(name, f))
  }

  /** `padding()`: a one-byte unsigned definition that gets no accessor. */
  function Padding(): (d: Def)
    ensures IsPadding(d)
    ensures d.field == Prim(UInt8) && Size(d.field) == 1
  {
    PrimitiveDef(PaddingName, UInt8)
  }

  /** The width table: one byte for the 8-bit kinds, two, four, and eight for `Double`. */
  lemma PrimitiveSizes(k: Primitive)
    ensures Size(Prim(k)) == 1 <==> k == UInt8 || k == Int8
    ensures Size(Prim(k)) == 2 <==> k == UInt16 || k == Int16
    ensures Size(Prim(k)) == 4 <==> k == UInt32 || k == Int32 || k == Float
    ensures Size(Prim(k)) == 8 <==> k == Double
  {
  }
}
