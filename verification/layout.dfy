/**
 The offset table of a struct type: the running sum that both `define`
 (for `size`) and the struct constructor (for each accessor's offset) compute,
 and the accessor installation loop of the constructor.
 */
module Layout {
  import opened Fields
  import opened Results

  /** The offset of definition k: the sizes of definitions 0..k-1 added up. */
  function OffsetOf(ds: seq<Def>, k: nat): nat
    requires k <= |ds|
  {
    DefsSize(ds[..k])
  }

  /** Each definition advances the running offset by its size. */
  lemma OffsetStep(ds: seq<Def>, k: nat)
    requires k < |ds|
    ensures OffsetOf(ds, k + 1) == OffsetOf(ds, k) + Size(ds[k].field)
  {
    assert ds[..k + 1][..k] == ds[..k];
  }

  lemma {:induction false} OffsetMonotone(ds: seq<Def>, i: nat, j: nat)
    requires i <= j <= |ds|
    ensures OffsetOf(ds, i) <= OffsetOf(ds, j)
    decreases j - i
  {
    if i < j {
      OffsetStep(ds, j - 1);
      OffsetMonotone(ds, i, j - 1);
    }
  }

  /** Offsets depend only on the definitions before them. */
  lemma OffsetOfPrefix(ds: seq<Def>, n: nat, k: nat)
    requires k <= n <= |ds|
    ensures OffsetOf(ds[..n], k) == OffsetOf(ds, k)
  {
    assert ds[..n][..k] == ds[..k];
  }

  /** Every definition lies inside the struct: offset plus size is at most the total size. */
  lemma FieldFits(ds: seq<Def>, k: nat)
    requires k < |ds|
    ensures OffsetOf(ds, k) + Size(ds[k].field) <= DefsSize(ds)
  {
    OffsetStep(ds, k);
    OffsetMonotone(ds, k + 1, |ds|);
    assert ds[..|ds|] == ds;
  }

  /** An earlier definition ends where or before a later one starts. */
  lemma FieldsDisjoint(ds: seq<Def>, i: nat, j: nat)
    requires i < j < |ds|
    ensures OffsetOf(ds, i) + Size(ds[i].field) <= OffsetOf(ds, j)
  {
    OffsetStep(ds, i);
    OffsetMonotone(ds, i + 1, j);
  }

  /**
   `define`: keeps the definitions and adds up their sizes in one pass
   (`size += def.field.size`). The total is the offset just past the last definition.
   */
  method Define(defs: seq<Def>) returns (t: StructType, size: nat)
    ensures t.defs == defs
    ensures size == StructSize(t)
    ensures forall k :: 0 <= k < |defs| ==> OffsetOf(defs, k) + Size(defs[k].field) <= size
  {
    size := 0;
    var i := 0;
    while i < |defs|
      invariant i <= |defs|
      invariant size == OffsetOf(defs, i)
    {
      OffsetStep(defs, i);
      size := size + Size(defs[i].field);
      i := i + 1;
    }
    assert defs[..|defs|] == defs;
    t := StructType(defs);
    forall k | 0 <= k < |defs|
      ensures OffsetOf(defs, k) + Size(defs[k].field) <= size
    {
      FieldFits(defs, k);
    }
  }

  /** The properties the constructor defines before any field: `_buffer` and `_endianness`. */
  const ReservedNames: set<string> := {"_buffer", "_endianness"}

  /** One installed accessor: the field, its offset, and the index of its definition. */
  datatype Accessor = Accessor(name: string, field: Field, offset: nat, index: nat)

  /** `Object.defineProperty` refuses to redefine an existing non-configurable property. */
  datatype BindError = Redefined(name: string)

  /**
   Definition k cannot be installed: it is not padding and its name is
   already a property, reserved or installed by an earlier definition.
   */
  predicate Clashes(ds: seq<Def>, k: nat)
    requires k < |ds|
  {
    && !IsPadding(ds[k])
    && (ds[k].name in ReservedNames ||
        exists i :: 0 <= i < k && !IsPadding(ds[i]) && ds[i].name == ds[k].name)
  }

  predicate WellNamed(ds: seq<Def>)
  {
    forall k :: 0 <= k < |ds| ==> !Clashes(ds, k)
  }

  /** Accessor a is the one for its definition: same name and field, at its offset. */
  predicate Describes(ds: seq<Def>, a: Accessor)
  {
    && a.index < |ds|
    && !IsPadding(ds[a.index])
    && a.name == ds[a.index].name
    && a.field == ds[a.index].field
    && a.offset == OffsetOf(ds, a.index)
  }

  /** `acc` holds one accessor per non-padding definition, in declaration order, and nothing else. */
  predicate Installs(ds: seq<Def>, acc: seq<Accessor>)
  {
    && (forall j :: 0 <= j < |acc| ==> Describes(ds, acc[j]))
    && (forall j, j' :: 0 <= j < j' < |acc| ==> acc[j].index < acc[j'].index)
    && (forall k :: 0 <= k < |ds| && !IsPadding(ds[k]) ==> exists j :: 0 <= j < |acc| && acc[j].index == k)
  }

  /**
   A definition built by `field(name, f)` that is not padding gets, when the
   names are clash-free, an accessor with that name and field at its running offset.
   */
  lemma FieldDefInstalled(ds: seq<Def>, k: nat, name: string, f: Field)
    requires WellNamed(ds) && k < |ds| && ds[k] == FieldDef(name, f) && name != PaddingName
    ensures Install(ds).Success?
    ensures exists j :: 0 <= j < |Install(ds).value| && Install(ds).value[j] == Accessor(name, f, OffsetOf(ds, k), k)
  {
    var acc := Install(ds).value;
    var j :| 0 <= j < |acc| && acc[j].index == k;
    assert Describes(ds, acc[j]);
  }

  function Names(acc: seq<Accessor>): set<string>
  {
    set a | a in acc :: a.name
  }

  /** What installing the accessors of `ds` must give: success exactly when no name clashes, then the accessors, else the first clash. */
  predicate InstallSpec(ds: seq<Def>, r: Result<seq<Accessor>, BindError>)
  {
    && (r.Success? <==> WellNamed(ds))
    && (r.Success? ==> Installs(ds, r.value))
    && (r.Failure? ==> exists k :: 0 <= k < |ds| && Clashes(ds, k) && WellNamed(ds[..k]) && r.error == Redefined(ds[k].name))
  }

  /**
   The constructor's loop over the definitions: padding is skipped but still
   advances the offset; every other definition gets an accessor at the running
   offset. It fails at the first definition whose name is already taken.
   */
  function Install(ds: seq<Def>): (r: Result<seq<Accessor>, BindError>)
    ensures r.Success? <==> WellNamed(ds)
    ensures r.Success? ==> Installs(ds, r.value)
    ensures r.Failure? ==> exists k :: 0 <= k < |ds| && Clashes(ds, k) && WellNamed(ds[..k]) && r.error == Redefined(ds[k].name)
    decreases |ds|
  {
    if |ds| == 0 then Success([])
    else
      var n := |ds| - 1;
      var d := ds[n];
      var prev := Install(ds[..n]);
      assert InstallSpec(ds[..n], prev);
      var r := (
        match prev
        case Failure(e) =>
          AfterFailure(ds, n, e);
          Failure(e)
        case Success(acc) =>
          if IsPadding(d) then
            AfterPadding(ds, n, acc);
            Success(acc)
          else if d.name in ReservedNames || d.name in Names(acc) then
            NameTaken(ds, acc, n);
            Failure(Redefined(d.name))
          else
            NameFree(ds, acc, n);
            Success(acc + [Accessor(d.name, d.field, OffsetOf(ds, n), n)]));
      assert InstallSpec(ds, r);
      r
  }

  /** What the definitions before n say about the whole sequence. */
  lemma PrefixFacts(ds: seq<Def>, n: nat)
    requires n == |ds| - 1
    ensures forall k :: 0 <= k < n ==> (Clashes(ds[..n], k) <==> Clashes(ds, k))
    ensures forall k :: 0 <= k <= n ==> ds[..n][..k] == ds[..k]
    ensures WellNamed(ds) <==> WellNamed(ds[..n]) && !Clashes(ds, n)
    ensures forall a :: Describes(ds[..n], a) ==> Describes(ds, a)
  {
    forall a | Describes(ds[..n], a)
      ensures Describes(ds, a)
    {
      OffsetOfPrefix(ds, n, a.index);
    }
  }

  lemma AfterFailure(ds: seq<Def>, n: nat, e: BindError)
    requires n == |ds| - 1
    requires InstallSpec(ds[..n], Failure(e))
    ensures InstallSpec(ds, Failure(e))
  {
    PrefixFacts(ds, n);
    var k :| 0 <= k < n && Clashes(ds[..n], k) && WellNamed(ds[..n][..k]) && e == Redefined(ds[..n][k].name);
    assert Clashes(ds, k) && WellNamed(ds[..k]);
  }

  lemma AfterPadding(ds: seq<Def>, n: nat, acc: seq<Accessor>)
    requires n == |ds| - 1 && IsPadding(ds[n])
    requires InstallSpec(ds[..n], Success(acc))
    ensures InstallSpec(ds, Success(acc))
  {
    PrefixFacts(ds, n);
    forall k | 0 <= k < |ds| && !IsPadding(ds[k])
      ensures exists j :: 0 <= j < |acc| && acc[j].index == k
    {
      assert k < n && !IsPadding(ds[..n][k]);
    }
  }

  lemma NameTaken(ds: seq<Def>, acc: seq<Accessor>, n: nat)
    requires n == |ds| - 1 && !IsPadding(ds[n])
    requires InstallSpec(ds[..n], Success(acc))
    requires ds[n].name in ReservedNames || ds[n].name in Names(acc)
    ensures InstallSpec(ds, Failure(Redefined(ds[n].name)))
  {
    PrefixFacts(ds, n);
    if ds[n].name !in ReservedNames {
      var a :| a in acc && a.name == ds[n].name;
      var j :| 0 <= j < |acc| && acc[j] == a;
      assert Describes(ds[..n], acc[j]);
      assert ds[a.index] == ds[..n][a.index];
    }
    assert Clashes(ds, n);
  }

  lemma NameFree(ds: seq<Def>, acc: seq<Accessor>, n: nat)
    requires n == |ds| - 1 && !IsPadding(ds[n])
    requires InstallSpec(ds[..n], Success(acc))
    requires ds[n].name !in ReservedNames && ds[n].name !in Names(acc)
    ensures InstallSpec(ds, Success(acc + [Accessor(ds[n].name, ds[n].field, OffsetOf(ds, n), n)]))
  {
    PrefixFacts(ds, n);
    var acc' := acc + [Accessor(ds[n].name, ds[n].field, OffsetOf(ds, n), n)];
    forall i | 0 <= i < n && !IsPadding(ds[i])
      ensures ds[i].name != ds[n].name
    {
      assert !IsPadding(ds[..n][i]);
      var j :| 0 <= j < |acc| && acc[j].index == i;
      assert acc[j] in acc;
    }
    assert !Clashes(ds, n);
    forall k | 0 <= k < |ds| && !IsPadding(ds[k])
      ensures exists j :: 0 <= j < |acc'| && acc'[j].index == k
    {
      if k < n {
        assert !IsPadding(ds[..n][k]);
        var j :| 0 <= j < |acc| && acc[j].index == k;
        assert acc'[j] == acc[j];
      } else {
        assert acc'[|acc|].index == k;
      }
    }
  }
}
