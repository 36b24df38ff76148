/** The service registry of pkg/registry: an ordered, append-only list of entries, each
    holding a reference to a registered service, from which a consumer's unset fields are
    filled by type assignability.

    Go reflection is kept abstract. Types are `GoType` values; whether a value of one type
    may be assigned to (or implements) another is the relation `assignable`, which every
    operation that asks takes as a parameter and about which nothing is assumed. */
module Registry {
  import opened Wrappers
  import opened Seqs

  /** The kinds of named types that the registry distinguishes. */
  datatype Kind = StructKind | InterfaceKind | BasicKind

  /** A Go type: a named type of some kind, a pointer type or a slice type. */
  datatype GoType =
    | Named(pkgPath: string, name: string, kind: Kind)
    | PtrTo(elem: GoType)
    | SliceOf(elem: GoType)

  /** `interface{}`: unnamed, with no package path. */
  const EmptyInterface: GoType := Named("", "", InterfaceKind)

  /** The assignability relation of the type system: `assignable(v, t)` when a value of type
      `v` is assignable to type `t` (for an interface `t`, when `v` implements it). */
  type Assignability = (GoType, GoType) -> bool

  /** A value held in an `interface{}`: a value of dynamic type `typ` with identity `addr`;
      `Boxed(v, a)`, a pointer at address `a` to an `interface{}` variable holding `v`; or
      `SelfBox(a)`, a pointer at address `a` to an `interface{}` variable holding that very
      pointer. */
  datatype Obj = Obj(typ: GoType, addr: nat) | Boxed(inner: Obj, boxAddr: nat) | SelfBox(selfAddr: nat)

  /** The dynamic type of a value (`reflect.TypeOf`). */
  function TypeOf(v: Obj): GoType
  {
    match v
    case Obj(t, _) => t
    case Boxed(_, _) => PtrTo(EmptyInterface)
    case SelfBox(_) => PtrTo(EmptyInterface)
  }

  /** What the `interface{}` variable behind a box holds. */
  function BoxContent(o: Obj): Obj
    requires o.Boxed? || o.SelfBox?
  {
    if o.Boxed? then o.inner else o
  }

  /** A registry entry. `RefType`, `Type`, `TypeName` and `PkgPath`, which `Register` derives
      from the reference, are the functions of the same names below. */
  datatype Entry = Entry(ref: Obj)

  function RefType(e: Entry): GoType
  {
    TypeOf(e.ref)
  }

  predicate IsPointer(e: Entry)
  {
    RefType(e).PtrTo?
  }

  /** The type the reference points to (`e.Type`); defined for registered entries. */
  function ElemType(e: Entry): GoType
    requires IsPointer(e)
  {
    RefType(e).elem
  }

  function TypeName(e: Entry): string
    requires IsPointer(e)
  {
    if ElemType(e).Named? then ElemType(e).name else ""
  }

  function PkgPath(e: Entry): string
    requires IsPointer(e)
  {
    if ElemType(e).Named? then ElemType(e).pkgPath else ""
  }

  /** `Ref` as written: a non-pointer value is replaced by the address of the parameter
      variable, and that address is then stored in the same variable (`v = &v`). `addr` is
      the address of the parameter variable. */
  function RefAsWritten(v: Obj, addr: nat): (e: Entry)
    ensures IsPointer(e)
    ensures TypeOf(v).PtrTo? ==> e.ref == v
    ensures !TypeOf(v).PtrTo? ==>
      (e.ref.Boxed? || e.ref.SelfBox?) && BoxContent(e.ref) == e.ref && ElemType(e) == EmptyInterface
  {
    if TypeOf(v).PtrTo? then Entry(v) else Entry(SelfBox(addr))
  }

  /** As written, registering a non-pointer value keeps nothing of it: the box holds the
      pointer to itself, not the value, and the entry depends only on the parameter's
      address, never on the value. */
  lemma RefAsWrittenLosesValue(v: Obj, addr: nat)
    requires !TypeOf(v).PtrTo?
    ensures BoxContent(RefAsWritten(v, addr).ref) != v
    ensures forall w :: !TypeOf(w).PtrTo? ==> RefAsWritten(w, addr) == RefAsWritten(v, addr)
  {
  }

  /** Registered as written at the same parameter address, the integers 7 and 8 give the
      same entry: neither can be read back from it. */
  lemma RefAsWrittenCounterexample()
    ensures RefAsWritten(Obj(Named("", "int", BasicKind), 7), 0) == RefAsWritten(Obj(Named("", "int", BasicKind), 8), 0)
  {
  }

  /** A non-pointer value registers as `*interface{}`, as written and corrected alike: the
      element type has neither a name nor a package path, so `Register` derives an empty
      `TypeName` and `PkgPath` (the case a commented-out check in `Register` would reject). */
  lemma BoxedEntryUnnamed(v: Obj, addr: nat)
    requires !TypeOf(v).PtrTo?
    ensures TypeName(Ref(v, addr)) == "" && PkgPath(Ref(v, addr)) == ""
    ensures TypeName(RefAsWritten(v, addr)) == "" && PkgPath(RefAsWritten(v, addr)) == ""
  {
  }

  /** A pointer to a named type registers under that type's name and package path. */
  lemma PointerEntryNamed(v: Obj, addr: nat, pkgPath: string, name: string, kind: Kind)
    requires TypeOf(v) == PtrTo(Named(pkgPath, name, kind))
    ensures TypeName(Ref(v, addr)) == name && PkgPath(Ref(v, addr)) == pkgPath
  {
  }

  /** Wraps a value as an entry, taking the address (`addr`) of a fresh `interface{}`
      variable holding a non-pointer value. */
  function Ref(v: Obj, addr: nat): (e: Entry)
    ensures IsPointer(e)
    ensures TypeOf(v).PtrTo? ==> e.ref == v
    ensures !TypeOf(v).PtrTo? ==>
      (e.ref.Boxed? || e.ref.SelfBox?) && BoxContent(e.ref) == v && ElemType(e) == EmptyInterface
  {
    if TypeOf(v).PtrTo? then Entry(v) else Entry(Boxed(v, addr))
  }

  /** Unlike the code as written, the corrected `Ref` keeps the value: two different
      non-pointer values give different entries. */
  lemma RefKeepsValue(v: Obj, w: Obj, addr: nat)
    requires !TypeOf(v).PtrTo? && !TypeOf(w).PtrTo? && v != w
    ensures Ref(v, addr) != Ref(w, addr)
  {
    assert BoxContent(Ref(v, addr).ref) == v;
  }

  const NotPointerError: string := "value reference must be a pointer"

  /** The number of leading entries of `es` that are pointers: how many a call to `Register`
      appends before it stops. */
  function PointerPrefix(es: seq<Entry>): (n: nat)
    ensures n <= |es|
    ensures forall j :: 0 <= j < n ==> IsPointer(es[j])
    ensures n < |es| ==> !IsPointer(es[n])
  {
    if es == [] || !IsPointer(es[0]) then 0 else 1 + PointerPrefix(es[1..])
  }

  /** The type entries are matched against for a field or target of type `t`: the element
      type when `t` is a slice type. */
  function MatchType(t: GoType): GoType
  {
    if t.SliceOf? then t.elem else t
  }

  /** Does entry `e` fit a field or target of type `t`? */
  function Fits(assignable: Assignability, t: GoType): Entry -> bool
  {
    e => assignable(RefType(e), MatchType(t))
  }

  /** The content of a consumer field or target variable. `Zero` is the zero value of the
      field's type (nil for pointers, interfaces and slices); an empty but non-nil slice is
      `List([])`, which is not zero. */
  datatype Content =
    | Zero
    | Opaque(token: nat)      // a value set by the consumer itself
    | Points(obj: Obj)        // a registered reference
    | List(objs: seq<Obj>)    // a slice of registered references
    | CopyOf(obj: Obj)        // a copy of the struct a registered reference points to

  /** An exported or unexported field of the consumer struct. */
  datatype Field = Field(exported: bool, typ: GoType, value: Content)

  /** `isNilOrZero` on a field of type `t`: a pointer or interface field is tested for nil,
      any other field for deep equality with the zero value of `t`. Nil and the zero value
      are both the content `Zero`, so the two tests agree. */
  function IsNilOrZero(t: GoType, c: Content): (r: bool)
    ensures r <==> c.Zero?
  {
    if t.PtrTo? || (t.Named? && t.kind == InterfaceKind) then c == Zero  // nil
    else c == Zero                                                       // the zero value of `t`
  }

  /** The references of a list of entries, in order (`entry.Value` for each). */
  function Refs(es: seq<Entry>): (r: seq<Obj>)
    ensures |r| == |es|
    ensures forall k :: 0 <= k < |es| ==> r[k] == es[k].ref
  {
    if es == [] then [] else [es[0].ref] + Refs(es[1..])
  }

  /** What `Populate` leaves in field `f` given the registry's entries. */
  function Populated(f: Field, entries: seq<Entry>, assignable: Assignability): (r: Field)
    // only the value may change, and only that of an exported, zero field
    ensures r.exported == f.exported && r.typ == f.typ
    ensures r != f ==> f.exported && IsNilOrZero(f.typ, f.value)
    // an exported zero field with no assignable entry is left alone
    ensures f.exported && FirstMatch(entries, Fits(assignable, f.typ)).None? ==> r == f
    // a slice field receives exactly the assignable entries, in registration order
    ensures f.exported && IsNilOrZero(f.typ, f.value) && f.typ.SliceOf? && FirstMatch(entries, Fits(assignable, f.typ)).Some? ==>
      r.value == List(Refs(Filter(entries, Fits(assignable, f.typ)))) &&
      forall o :: o in r.value.objs <==> exists e :: e in entries && Fits(assignable, f.typ)(e) && e.ref == o
    // a singular field receives the first assignable entry
    ensures f.exported && IsNilOrZero(f.typ, f.value) && !f.typ.SliceOf? ==>
      match FirstMatch(entries, Fits(assignable, f.typ))
      case None => r == f
      case Some(i) => r.value == Points(entries[i].ref)
  {
    var matches := Filter(entries, Fits(assignable, f.typ));
    FilterHead(entries, Fits(assignable, f.typ));
    FilterMembership(entries, Fits(assignable, f.typ));
    if !f.exported || !IsNilOrZero(f.typ, f.value) || matches == [] then f
    else if f.typ.SliceOf? then
      var refs := Refs(matches);
      assert forall o :: o in refs <==> exists e :: e in matches && e.ref == o by {
        forall o | o in refs ensures exists e :: e in matches && e.ref == o {
          var k :| 0 <= k < |refs| && refs[k] == o;
          assert matches[k] in matches;
        }
        forall e | e in matches ensures e.ref in refs {
          var k :| 0 <= k < |matches| && matches[k] == e;
          assert refs[k] == e.ref;
        }
      }
      f.(value := List(refs))
    else
      f.(value := Points(matches[0].ref))
  }

  /** A variable of type `typ` that `ValueTo` may fill (the `reflect.New` a caller passes). */
  class Slot {
    const typ: GoType
    var value: Content

    constructor (typ: GoType)
      ensures this.typ == typ && value == Zero
    {
      this.typ := typ;
      value := Zero;
    }
  }

  /** Does entry `e` fit a `ValueTo` target of type `t`? A struct target takes an entry whose
      pointee type is assignable to it; any other target takes an entry whose pointer type
      implements it. */
  function FitsTarget(assignable: Assignability, t: GoType): Entry -> bool
  {
    e => if t.Named? && t.kind == StructKind
         then RefType(e).PtrTo? && assignable(RefType(e).elem, t)
         else assignable(RefType(e), t)
  }

  predicate IsStructOrInterface(t: GoType)
  {
    t.Named? && (t.kind == StructKind || t.kind == InterfaceKind)
  }

  class Registry {
    var entries: seq<Entry>

    /** Every registered entry is a pointer reference. */
    ghost predicate Valid()
      reads this
    {
      forall i :: 0 <= i < |entries| ==> IsPointer(entries[i])
    }

    constructor ()
      ensures Valid() && entries == []
    {
      entries := [];
    }

    /** A copy of the entry list, in registration order. */
    method Entries() returns (es: seq<Entry>)
      ensures |es| == |entries|
      ensures forall i :: 0 <= i < |es| ==> es[i] == entries[i]
    {
      es := entries;
    }

    /** Appends the given entries in order, stopping with an error at the first one whose
        reference is not a pointer; the entries appended before it stay registered. */
    method Register(es: seq<Entry>) returns (err: Option<string>)
      requires Valid()
      modifies this
      ensures Valid()
      ensures entries == old(entries) + es[..PointerPrefix(es)]
      ensures err.None? <==> PointerPrefix(es) == |es|
      ensures err.Some? ==> err.value == NotPointerError
    {
      var i := 0;
      while i < |es|
        invariant 0 <= i <= |es|
        invariant forall j :: 0 <= j < i ==> IsPointer(es[j])
        invariant entries == old(entries) + es[..i]
        invariant Valid()
      {
        if !IsPointer(es[i]) {
          assert PointerPrefix(es) == i by { PointerPrefixAt(es, i); }
          return Some(NotPointerError);
        }
        entries := entries + [es[i]];
        assert es[..i + 1] == es[..i] + [es[i]];
        i := i + 1;
      }
      assert PointerPrefix(es) == |es| by { PointerPrefixAt(es, |es|); }
      assert es[..|es|] == es;
      return None;
    }

    /** The entries whose reference type is assignable to `t` (to its element type when `t`
        is a slice type), in registration order. */
    method AssignableTo(t: GoType, assignable: Assignability) returns (r: seq<Entry>)
      ensures r == Filter(entries, Fits(assignable, t))
      ensures forall e :: e in r <==> e in entries && assignable(RefType(e), MatchType(t))
    {
      var target := MatchType(t);
      var all := Entries();
      assert all == entries;
      r := [];
      for i := 0 to |all|
        invariant r == Filter(all[..i], Fits(assignable, t))
      {
        FilterAppend(all[..i], [all[i]], Fits(assignable, t));
        assert all[..i + 1] == all[..i] + [all[i]];
        if assignable(RefType(all[i]), target) {
          r := r + [all[i]];
        }
      }
      assert all[..|all|] == all;
      FilterMembership(entries, Fits(assignable, t));
    }

    /** Fills every exported, zero-valued field of `consumer` from the assignable entries:
        a slice field with all of them, any other field with the first. */
    method Populate(consumer: array<Field>, assignable: Assignability)
      modifies consumer
      ensures forall i :: 0 <= i < consumer.Length ==>
        consumer[i] == Populated(old(consumer[i]), entries, assignable)
    {
      // the exported fields, by index
      var fields: seq<nat> := [];
      for i := 0 to consumer.Length
        invariant forall k :: 0 <= k < |fields| ==> fields[k] < i && consumer[fields[k]].exported
        invariant forall k, l :: 0 <= k < l < |fields| ==> fields[k] < fields[l]
        invariant forall j :: 0 <= j < i && consumer[j].exported ==> j in fields
      {
        if consumer[i].exported {
          fields := fields + [i];
        }
      }
      for k := 0 to |fields|
        invariant forall j :: 0 <= j < consumer.Length ==>
          consumer[j] == if j in fields[..k] then Populated(old(consumer[j]), entries, assignable) else old(consumer[j])
      {
        var idx := fields[k];
        assert idx !in fields[..k];
        assert consumer[idx] == old(consumer[idx]);
        if !IsNilOrZero(consumer[idx].typ, consumer[idx].value) {
          continue;
        }
        var assignableEntries := AssignableTo(consumer[idx].typ, assignable);
        FilterHead(entries, Fits(assignable, consumer[idx].typ));
        if |assignableEntries| == 0 {
          continue;
        }
        if consumer[idx].typ.SliceOf? {
          FillSlice(consumer, idx, assignableEntries);
        } else {
          consumer[idx] := consumer[idx].(value := Points(assignableEntries[0].ref));
        }
      }
    }

    /** Gives field `idx` an empty slice, then appends the entries' references one by one. */
    static method FillSlice(consumer: array<Field>, idx: nat, es: seq<Entry>)
      requires idx < consumer.Length
      modifies consumer
      ensures consumer[idx] == old(consumer[idx]).(value := List(Refs(es)))
      ensures forall j :: 0 <= j < consumer.Length && j != idx ==> consumer[j] == old(consumer[j])
    {
      consumer[idx] := consumer[idx].(value := List([]));
      for i := 0 to |es|
        invariant consumer[idx] == old(consumer[idx]).(value := List(Refs(es[..i])))
        invariant forall j :: 0 <= j < consumer.Length && j != idx ==> consumer[j] == old(consumer[j])
      {
        assert Refs(es[..i + 1]) == Refs(es[..i]) + [es[i].ref];
        consumer[idx] := consumer[idx].(value := List(consumer[idx].value.objs + [es[i].ref]));
      }
      assert es[..|es|] == es;
    }

    /** Sets `target` from the first entry that fits it and stops; leaves it untouched when
        no entry fits. A struct target receives a copy of the pointee, any other target
        the reference itself. */
    method ValueTo(target: Slot, assignable: Assignability)
      requires entries != [] ==> IsStructOrInterface(target.typ)
      modifies target
      ensures match FirstMatch(entries, FitsTarget(assignable, target.typ))
        case None => target.value == old(target.value)
        case Some(i) =>
          target.value == (if target.typ.kind == StructKind then CopyOf(entries[i].ref) else Points(entries[i].ref))
    {
      var es := Entries();
      for i := 0 to |es|
        invariant forall j :: 0 <= j < i ==> !FitsTarget(assignable, target.typ)(es[j])
        invariant target.value == old(target.value)
      {
        if target.typ.kind == StructKind {
          if RefType(es[i]).PtrTo? && assignable(RefType(es[i]).elem, target.typ) {
            target.value := CopyOf(es[i].ref);
            FirstMatchIs(entries, FitsTarget(assignable, target.typ), i);
            return;
          }
        } else {
          if assignable(RefType(es[i]), target.typ) {
            target.value := Points(es[i].ref);
            FirstMatchIs(entries, FitsTarget(assignable, target.typ), i);
            return;
          }
        }
      }
      FirstMatchNone(entries, FitsTarget(assignable, target.typ));
    }
  }

  /** Index `n` is where the pointer prefix ends when everything before it is a pointer and
      it is not (or is the end). */
  lemma {:induction false} PointerPrefixAt(es: seq<Entry>, n: nat)
    requires n <= |es|
    requires forall j :: 0 <= j < n ==> IsPointer(es[j])
    requires n < |es| ==> !IsPointer(es[n])
    ensures PointerPrefix(es) == n
  {
    if n > 0 {
      PointerPrefixAt(es[1..], n - 1);
    }
  }

  /** Registering in two calls appends the same as one call with both lists, when the first
      list is accepted whole. */
  lemma {:induction false} PointerPrefixAppend(a: seq<Entry>, b: seq<Entry>)
    requires PointerPrefix(a) == |a|
    ensures PointerPrefix(a + b) == |a| + PointerPrefix(b)
    ensures (a + b)[..PointerPrefix(a + b)] == a + b[..PointerPrefix(b)]
  {
    if a != [] {
      assert (a + b)[1..] == a[1..] + b;
      PointerPrefixAppend(a[1..], b);
    } else {
      assert a + b == b;
    }
  }
}
