/** The field serialiser of pkg/session/frontend.go (`exportElem`, `exportField`): it turns a
    component's value, as reflection sees it, into the tree of `Field` records that the
    inspector renders. Each field is tagged with the name of its kind ("boolean", "string",
    "number", "struct", "map", "array", "reference:<type>") and carries its path, which is
    its parent's path, a `/` and its own name (or, for a slice element, its index). */
module Export {
  import opened Wrappers
  import opened Seqs

  /** The integer and floating-point kinds, all exported as "number". */
  datatype NumKind = Int | Int8 | Int16 | Int32 | Int64 | Uint | Uint8 | Uint16 | Uint32 | Uint64 | Float32 | Float64

  datatype RefKind = Pointer | Interface

  /** The identity of a referenced object. */
  type Addr = nat

  /** A value as the serialiser sees it, by kind. The type admits a few values Go cannot
      produce: a struct member of kind `Invalid` (a struct field's kind comes from its
      declared type) and a map with two members of the same key; the contracts below hold
      for them too. A `Ref` is a pointer or interface field:
      `typeName` is the name of the field's type and `elemName` that of the type it points
      to; `target` is the referenced object, `None` when nil. `Other` stands for every kind
      the serialiser has no case for (channels, functions, arrays, complex numbers, ...). */
  datatype Value =
    | Bool(b: bool)
    | Str(s: string)
    | Num(numKind: NumKind, n: int)
    | Struct(members: seq<Member>)
    | Map(members: seq<Member>)
    | Slice(elems: seq<Value>)
    | Ref(refKind: RefKind, typeName: string, elemName: string, target: Option<Addr>)
    | Invalid
    | Other(kindName: string)

  /** A struct field or a map entry: its name (or key) and its value. */
  datatype Member = Member(name: string, value: Value)

  /** What a leaf field carries as its value. */
  datatype Scalar = BoolV(b: bool) | StrV(s: string) | NumV(numKind: NumKind, n: int)

  /** An exported field (`Field`): `typ` is the inspector's kind tag. */
  datatype Field = Field(typ: string, name: string, path: string, value: Option<Scalar>, expression: Option<string>, fields: seq<Field>)

  /** The node a component belongs to, as far as the serialiser asks it: its full path, the
      expressions set on its fields (by field path below the node) and, for every object
      reachable from the root, the full path of the node that holds it. */
  datatype NodeContext = NodeContext(fullPath: string, expressions: map<string, string>, pointers: map<Addr, string>)

  /** The expression of a field, when one is set (`n.Expression` returns "" for none). */
  function Expression(ctx: NodeContext, p: string): Option<string>
  {
    if p in ctx.expressions && ctx.expressions[p] != "" then Some(ctx.expressions[p]) else None
  }

  /** The path of the node holding the referenced object, or "" when it is nil or not found. */
  function RefPath(ctx: NodeContext, target: Option<Addr>): string
  {
    match target
    case Some(a) => if a in ctx.pointers then ctx.pointers[a] else ""
    case None => ""
  }

  /** The decimal digit for `d`. */
  function Digit(d: nat): (c: char)
    requires d < 10
    ensures '0' <= c <= '9' && c as int - '0' as int == d
  {
    (d + '0' as int) as char
  }

  /** `strconv.Itoa` for a non-negative integer. */
  function Itoa(n: nat): (s: string)
    ensures |s| > 0
    ensures forall i :: 0 <= i < |s| ==> '0' <= s[i] <= '9'
  {
    if n < 10 then [Digit(n)] else Itoa(n / 10) + [Digit(n % 10)]
  }

  /** The number a string of decimal digits denotes. */
  function DecimalValue(s: string): nat
    requires forall i :: 0 <= i < |s| ==> '0' <= s[i] <= '9'
  {
    if s == [] then 0 else DecimalValue(s[..|s| - 1]) * 10 + (s[|s| - 1] as int - '0' as int)
  }

  /** Reading the digits back gives the index: distinct indexes give distinct paths. */
  lemma {:induction false} ItoaRoundTrip(n: nat)
    ensures DecimalValue(Itoa(n)) == n
  {
    if n >= 10 {
      var s := Itoa(n);
      assert s[..|s| - 1] == Itoa(n / 10);
      ItoaRoundTrip(n / 10);
    }
  }

  predicate IsScalar(v: Value)
  {
    v.Bool? || v.Str? || v.Num?
  }

  /** `exportElem`: a boolean, string or number element of a slice becomes a leaf at
      `path/idx`; any other element is not supported. */
  function ExportElem(v: Value, path: string, idx: nat): (r: Option<Field>)
    ensures r.Some? <==> IsScalar(v)
    ensures r.Some? ==>
      r.value.path == path + "/" + Itoa(idx) && r.value.name == "" && r.value.fields == [] && r.value.expression.None?
    ensures v.Bool? ==> r.value.typ == "boolean" && r.value.value == Some(BoolV(v.b))
    ensures v.Str? ==> r.value.typ == "string" && r.value.value == Some(StrV(v.s))
    ensures v.Num? ==> r.value.typ == "number" && r.value.value == Some(NumV(v.numKind, v.n))
  {
    var elemPath := path + "/" + Itoa(idx);
    match v
    case Bool(b) => Some(Field("boolean", "", elemPath, Some(BoolV(b)), None, []))
    case Str(s) => Some(Field("string", "", elemPath, Some(StrV(s)), None, []))
    case Num(k, n) => Some(Field("number", "", elemPath, Some(NumV(k, n)), None, []))
    case _ => None
  }

  /** The elements of a slice from index `from` on, exported in order; `None` as soon as one
      of them is not supported. */
  function ExportElems(elems: seq<Value>, path: string, from: nat): (r: Option<seq<Field>>)
    requires from <= |elems|
    decreases |elems| - from
    ensures r.Some? <==> forall i :: from <= i < |elems| ==> IsScalar(elems[i])
    ensures r.Some? ==>
      |r.value| == |elems| - from &&
      (forall i :: from <= i < |elems| ==> r.value[i - from] == ExportElem(elems[i], path, i).value)
  {
    if from == |elems| then Some([])
    else match ExportElem(elems[from], path, from)
      case None => None
      case Some(f) =>
        match ExportElems(elems, path, from + 1)
        case None => None
        case Some(rest) => Some([f] + rest)
  }

  /** The index of the member named `name` (the first, should there be several). */
  function Lookup(ms: seq<Member>, name: string): (r: Option<nat>)
    ensures r.Some? ==> r.value < |ms| && ms[r.value].name == name
    ensures r.None? ==> forall j :: 0 <= j < |ms| ==> ms[j].name != name
  {
    if ms == [] then None
    else if ms[0].name == name then Some(0)
    else match Lookup(ms[1..], name)
      case None => None
      case Some(i) => Some(i + 1)
  }

  /** The names of the members, in order (a struct's fields, a map's keys). */
  function Names(ms: seq<Member>): (r: seq<string>)
    ensures |r| == |ms| && forall i :: 0 <= i < |ms| ==> r[i] == ms[i].name
  {
    if ms == [] then [] else [ms[0].name] + Names(ms[1..])
  }

  /** The value of member `name` of a struct or map, `Invalid` when there is none. */
  function FieldValue(o: Value, name: string): Value
    requires o.Struct? || o.Map?
  {
    match Lookup(o.members, name)
    case Some(i) => o.members[i].value
    case None => Invalid
  }

  /** A value `exportField` can export without panicking: no member at any depth of a
      struct or map has a kind the serialiser has no case for. */
  predicate Exportable(v: Value)
  {
    match v
    case Other(_) => false
    case Struct(ms) => forall i :: 0 <= i < |ms| ==> Exportable(ms[i].value)
    case Map(ms) => forall i :: 0 <= i < |ms| ==> Exportable(ms[i].value)
    case _ => true
  }

  /** What `exportField` demands of its arguments: the container is a struct or a map, a
      struct has the named field, the field's value is exportable, and the field's path is
      longer than the node's path (the expression path is cut from it). */
  predicate CanExport(o: Value, field: string, path: string, ctx: NodeContext)
  {
    (o.Struct? || o.Map?) &&
    (o.Struct? ==> Lookup(o.members, field).Some?) &&
    Exportable(FieldValue(o, field)) &&
    |ctx.fullPath| <= |path| + |field|
  }

  /** The tag of a reference field: the type pointed to, or the interface type. */
  function RefTag(v: Value): string
    requires v.Ref?
  {
    "reference:" + if v.refKind == Pointer then v.elemName else v.typeName
  }

  /** `exportField`: member `field` of the struct or map `o`, at `path/field`. */
  function ExportField(o: Value, field: string, path: string, ctx: NodeContext): (r: Field)
    requires CanExport(o, field, path, ctx)
    decreases o, 0, 0
    ensures r.name == field && r.path == path + "/" + field
    ensures r.expression == Expression(ctx, (path + "/" + field)[|ctx.fullPath| + 1..])
    ensures FieldValue(o, field).Invalid? ==> r.typ == "string" && r.value == Some(StrV("INVALID")) && r.fields == []
    ensures FieldValue(o, field).Bool? ==> r.typ == "boolean" && r.value == Some(BoolV(FieldValue(o, field).b)) && r.fields == []
    ensures FieldValue(o, field).Str? ==> r.typ == "string" && r.value == Some(StrV(FieldValue(o, field).s)) && r.fields == []
    ensures FieldValue(o, field).Num? ==>
      r.typ == "number" && r.value == Some(NumV(FieldValue(o, field).numKind, FieldValue(o, field).n)) && r.fields == []
    ensures FieldValue(o, field).Ref? ==>
      r.typ == RefTag(FieldValue(o, field)) && r.value == Some(StrV(RefPath(ctx, FieldValue(o, field).target))) && r.fields == []
    ensures FieldValue(o, field).Struct? ==> r.typ == "struct" && r.value.None?
    ensures FieldValue(o, field).Map? ==> r.typ == "map" && r.value.None?
  {
    var fieldPath := path + "/" + field;
    var expr := Expression(ctx, fieldPath[|ctx.fullPath| + 1..]);
    match Lookup(o.members, field)
    case None =>
      Field("string", field, fieldPath, Some(StrV("INVALID")), expr, [])
    case Some(k) =>
      var v := o.members[k].value;
      match v
      case Invalid => Field("string", field, fieldPath, Some(StrV("INVALID")), expr, [])
      case Bool(b) => Field("boolean", field, fieldPath, Some(BoolV(b)), expr, [])
      case Str(s) => Field("string", field, fieldPath, Some(StrV(s)), expr, [])
      case Num(nk, n) => Field("number", field, fieldPath, Some(NumV(nk, n)), expr, [])
      case Struct(ms) =>
        MembersExportable(v);
        Field("struct", field, fieldPath, None, expr, ExportMembers(v, Names(ms), fieldPath, ctx))
      case Map(ms) =>
        MembersExportable(v);
        Field("map", field, fieldPath, None, expr, ExportMembers(v, Names(ms), fieldPath, ctx))
      case Slice(elems) =>
        (match ExportElems(elems, fieldPath, 0)
         case None => Field("string", field, fieldPath, Some(StrV("UNSUPPORTED SLICE")), expr, [])
         case Some(fs) => Field("array", field, fieldPath, None, expr, fs))
      case Ref(_, _, _, target) =>
        Field(RefTag(v), field, fieldPath, Some(StrV(RefPath(ctx, target))), expr, [])
  }

  /** The fields named `keys` of the struct or map `v`, in the order of `keys` (the loops of
      the struct and map cases of `exportField`, and of `exportNodes`). */
  function ExportMembers(v: Value, keys: seq<string>, path: string, ctx: NodeContext): (r: seq<Field>)
    requires forall i :: 0 <= i < |keys| ==> CanExport(v, keys[i], path, ctx)
    decreases v, 1, |keys|
    ensures |r| == |keys|
    ensures forall i :: 0 <= i < |keys| ==> r[i].name == keys[i] && r[i].path == path + "/" + keys[i]
  {
    if keys == [] then [] else [ExportField(v, keys[0], path, ctx)] + ExportMembers(v, keys[1..], path, ctx)
  }

  /** The field exported for key `i` is the export of that key. */
  lemma {:induction false} ExportMembersAt(v: Value, keys: seq<string>, path: string, ctx: NodeContext, i: nat)
    requires forall k :: 0 <= k < |keys| ==> CanExport(v, keys[k], path, ctx)
    requires i < |keys|
    ensures ExportMembers(v, keys, path, ctx)[i] == ExportField(v, keys[i], path, ctx)
  {
    if i > 0 {
      ExportMembersAt(v, keys[1..], path, ctx, i - 1);
    }
  }

  /** The children of an exported struct or map are the exports of its members, in member
      order, each named after its member and at the field's path and `/` and that name. */
  lemma ExportFieldMembers(o: Value, field: string, path: string, ctx: NodeContext)
    requires CanExport(o, field, path, ctx)
    requires FieldValue(o, field).Struct? || FieldValue(o, field).Map?
    ensures
      var v := FieldValue(o, field);
      var r := ExportField(o, field, path, ctx);
      |r.fields| == |v.members| &&
      forall i :: 0 <= i < |v.members| ==>
        r.fields[i].name == v.members[i].name && r.fields[i].path == r.path + "/" + v.members[i].name &&
        CanExport(v, v.members[i].name, r.path, ctx) &&
        r.fields[i] == ExportField(v, v.members[i].name, r.path, ctx)
  {
    var k := Lookup(o.members, field).value;
    var v := o.members[k].value;
    var r := ExportField(o, field, path, ctx);
    MembersExportable(v);
    forall i | 0 <= i < |v.members|
      ensures r.fields[i] == ExportField(v, v.members[i].name, r.path, ctx)
    {
      ExportMembersAt(v, Names(v.members), r.path, ctx, i);
    }
  }

  /** An exported slice is an array of its elements, each at its index below the field,
      when every element is supported, and "UNSUPPORTED SLICE" as soon as one is not. */
  lemma ExportFieldSlice(o: Value, field: string, path: string, ctx: NodeContext)
    requires CanExport(o, field, path, ctx)
    requires FieldValue(o, field).Slice?
    ensures
      var v := FieldValue(o, field);
      var r := ExportField(o, field, path, ctx);
      ((forall i :: 0 <= i < |v.elems| ==> IsScalar(v.elems[i])) ==>
        r.typ == "array" && r.value.None? && |r.fields| == |v.elems| &&
        forall i :: 0 <= i < |v.elems| ==> r.fields[i] == ExportElem(v.elems[i], r.path, i).value) &&
      ((exists i :: 0 <= i < |v.elems| && !IsScalar(v.elems[i])) ==>
        r.typ == "string" && r.value == Some(StrV("UNSUPPORTED SLICE")) && r.fields == [])
  {
    var k := Lookup(o.members, field).value;
    var elems := o.members[k].value.elems;
    var _ := ExportElems(elems, path + "/" + field, 0);
  }

  /** Exporting one more key appends that key's field. */
  lemma ExportMembersSnoc(v: Value, keys: seq<string>, key: string, path: string, ctx: NodeContext)
    requires forall i :: 0 <= i < |keys| ==> CanExport(v, keys[i], path, ctx)
    requires CanExport(v, key, path, ctx)
    ensures ExportMembers(v, keys + [key], path, ctx) == ExportMembers(v, keys, path, ctx) + [ExportField(v, key, path, ctx)]
  {
    ExportMembersAppend(v, keys, [key], path, ctx);
  }

  /** Every member of an exportable struct or map can be exported below any path that is
      at least as long as the node's path. */
  lemma MembersExportable(v: Value)
    requires (v.Struct? || v.Map?) && Exportable(v)
    ensures forall path: string, ctx: NodeContext, i :: 0 <= i < |v.members| && |ctx.fullPath| <= |path| ==>
      CanExport(v, Names(v.members)[i], path, ctx)
  {
    forall i | 0 <= i < |v.members|
      ensures Exportable(FieldValue(v, Names(v.members)[i]))
    {
      var k := Lookup(v.members, Names(v.members)[i]);
      assert k.Some?;
    }
  }

  /** Exporting a concatenation of keys exports each part. */
  lemma {:induction false} ExportMembersAppend(v: Value, a: seq<string>, b: seq<string>, path: string, ctx: NodeContext)
    requires forall i :: 0 <= i < |a| ==> CanExport(v, a[i], path, ctx)
    requires forall i :: 0 <= i < |b| ==> CanExport(v, b[i], path, ctx)
    ensures ExportMembers(v, a + b, path, ctx) == ExportMembers(v, a, path, ctx) + ExportMembers(v, b, path, ctx)
  {
    if a == [] {
      assert a + b == b;
    } else {
      assert (a + b)[0] == a[0];
      assert (a + b)[1..] == a[1..] + b;
      ExportMembersAppend(v, a[1..], b, path, ctx);
      var head := [ExportField(v, a[0], path, ctx)];
      calc {
        ExportMembers(v, a + b, path, ctx);
        head + ExportMembers(v, a[1..] + b, path, ctx);
        head + (ExportMembers(v, a[1..], path, ctx) + ExportMembers(v, b, path, ctx));
        (head + ExportMembers(v, a[1..], path, ctx)) + ExportMembers(v, b, path, ctx);
        ExportMembers(v, a, path, ctx) + ExportMembers(v, b, path, ctx);
      }
    }
  }

  /** Every field below `f`, at any depth, has a path that extends its parent's by `/`. */
  predicate PathsNested(f: Field)
  {
    forall i :: 0 <= i < |f.fields| ==> f.path + "/" <= f.fields[i].path && PathsNested(f.fields[i])
  }

  /** The field tree `exportField` builds is nested by path at every depth. */
  lemma {:induction false} ExportFieldNested(o: Value, field: string, path: string, ctx: NodeContext)
    requires CanExport(o, field, path, ctx)
    decreases o, 0, 0
    ensures PathsNested(ExportField(o, field, path, ctx))
  {
    var r := ExportField(o, field, path, ctx);
    var v := FieldValue(o, field);
    match Lookup(o.members, field)
    case None =>
    case Some(k) =>
      assert v == o.members[k].value;
      if v.Struct? || v.Map? {
        MembersExportable(v);
        ExportMembersNested(v, Names(v.members), r.path, ctx);
      } else if v.Slice? {
        ExportFieldSlice(o, field, path, ctx);
        forall i | 0 <= i < |r.fields|
          ensures r.path + "/" <= r.fields[i].path && PathsNested(r.fields[i])
        {
          assert r.fields[i].path == r.path + "/" + Itoa(i);
        }
      }
  }

  lemma {:induction false} ExportMembersNested(v: Value, keys: seq<string>, path: string, ctx: NodeContext)
    requires forall i :: 0 <= i < |keys| ==> CanExport(v, keys[i], path, ctx)
    decreases v, 1, |keys|
    ensures forall i :: 0 <= i < |keys| ==> PathsNested(ExportMembers(v, keys, path, ctx)[i])
  {
    if keys != [] {
      ExportFieldNested(v, keys[0], path, ctx);
      ExportMembersNested(v, keys[1..], path, ctx);
    }
  }

  /** The elements of an exported slice have pairwise distinct paths. */
  lemma ArrayPathsDistinct(o: Value, field: string, path: string, ctx: NodeContext, i: nat, j: nat)
    requires CanExport(o, field, path, ctx)
    requires ExportField(o, field, path, ctx).typ == "array"
    requires i < j < |ExportField(o, field, path, ctx).fields|
    ensures ExportField(o, field, path, ctx).fields[i].path != ExportField(o, field, path, ctx).fields[j].path
  {
    var r := ExportField(o, field, path, ctx);
    var v := FieldValue(o, field);
    assert v.Slice?;
    ExportFieldSlice(o, field, path, ctx);
    assert r.fields[i].path == r.path + "/" + Itoa(i);
    assert r.fields[j].path == r.path + "/" + Itoa(j);
    if r.fields[i].path == r.fields[j].path {
      assert Itoa(i) == r.fields[i].path[|r.path| + 1..];
      ItoaRoundTrip(i);
      ItoaRoundTrip(j);
    }
  }
}
