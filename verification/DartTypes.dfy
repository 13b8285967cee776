/**
  The Dart types emitted for the management contract's schemas
  (contracts/management/v1/generate_dart.py).
 */
module DartTypes {
  import opened Outcomes
  import opened Json
  import opened Schemas

  datatype Dart =
    | Class(name: string)
    | StringT | IntT | DoubleT | BoolT
    | ObjectT              // "Object": anything but null
    | AnyT                 // "Object?"
    | NullT                // "Null"
    | ListOf(element: Dart)
    | MapOf(element: Dart)
    | Nullable(inner: Dart) // "T?"

  datatype Unsupported = Unsupported

  /** An emitted type and whether it admits null beside it. */
  datatype Typed = Typed(dart: Dart, nullable: bool)

  predicate Primitive(t: Dart) {
    t == StringT || t == IntT || t == DoubleT || t == BoolT
  }

  function LiteralType(v: Value): Result<Dart, Unsupported> {
    match v
    case Bool(_) => Ok(BoolT)
    case Int(_) => Ok(IntT)
    case Float(_) => Ok(DoubleT)
    case Str(_) => Ok(StringT)
    case _ => Err(Unsupported)
  }

  /** A container carries its element's nullability in the type itself. */
  function ElementOf(t: Typed): Dart {
    if !t.nullable || t.dart.AnyT? || t.dart.Nullable? then t.dart else Nullable(t.dart)
  }

  function Concrete(options: seq<Typed>): seq<Dart> {
    if options == [] then []
    else if options[0].dart == NullT then Concrete(options[1..])
    else [options[0].dart] + Concrete(options[1..])
  }

  predicate ListsNullT(options: seq<Typed>) {
    exists k :: 0 <= k < |options| && options[k].dart == NullT
  }

  predicate OneType(concrete: seq<Dart>) {
    concrete != [] && forall k :: 0 <= k < |concrete| ==> concrete[k] == concrete[0]
  }

  function UnionOf(options: seq<Typed>): Result<Typed, Unsupported> {
    var concrete := Concrete(options);
    if OneType(concrete) then Ok(Typed(concrete[0], ListsNullT(options)))
    else if forall k :: 0 <= k < |concrete| ==> Primitive(concrete[k]) then Ok(Typed(ObjectT, ListsNullT(options)))
    else Err(Unsupported)
  }

  function EnumOf(choices: seq<Value>): Result<Typed, Unsupported> {
    if choices != [] && LiteralType(choices[0]).Ok? &&
       forall k :: 0 <= k < |choices| ==> LiteralType(choices[k]) == LiteralType(choices[0])
    then Ok(Typed(LiteralType(choices[0]).value, false)) else Err(Unsupported)
  }

  function TypeOf(s: Schema): Result<Typed, Unsupported>
    decreases s
  {
    if s.ref.Some? then Ok(Typed(Class(s.ref.value), false))
    else if s.anyOf.AnyOf? then
      match TypesOf(s.anyOf.options)
      case Ok(options) => UnionOf(options)
      case Err(e) => Err(e)
    else if s.constant.Some? then
      match LiteralType(s.constant.value)
      case Ok(t) => Ok(Typed(t, false))
      case Err(e) => Err(e)
    else if s.choices.Some? then EnumOf(s.choices.value)
    else if s.kind == Some("null") then Ok(Typed(NullT, true))
    else if s.kind == Some("string") then Ok(Typed(StringT, false))
    else if s.kind == Some("integer") then Ok(Typed(IntT, false))
    else if s.kind == Some("number") then Ok(Typed(DoubleT, false))
    else if s.kind == Some("boolean") then Ok(Typed(BoolT, false))
    else if s.kind == Some("array") then
      if s.items.None? then Ok(Typed(ListOf(AnyT), false))
      else match TypeOf(s.items.value) case Ok(t) => Ok(Typed(ListOf(ElementOf(t)), false)) case Err(e) => Err(e)
    else if s.kind == Some("object") then
      if s.values.None? then Ok(Typed(MapOf(AnyT), false))
      else match TypeOf(s.values.value) case Ok(t) => Ok(Typed(MapOf(ElementOf(t)), false)) case Err(e) => Err(e)
    else if Blank(s) then Ok(Typed(AnyT, true))
    else Err(Unsupported)
  }

  function TypesOf(options: seq<Schema>): (r: Result<seq<Typed>, Unsupported>)
    ensures r.Ok? ==> |r.value| == |options|
    ensures r.Ok? ==> forall k :: 0 <= k < |options| ==> TypeOf(options[k]) == Ok(r.value[k])
    decreases options
  {
    if options == [] then Ok([])
    else
      match TypeOf(options[0])
      case Err(e) => Err(e)
      case Ok(t) =>
        match TypesOf(options[1..])
        case Err(e) => Err(e)
        case Ok(rest) => Ok([t] + rest)
  }

  /** A class field: nullable when it may be absent or null. */
  function FieldType(t: Typed, required: bool): Dart {
    if (!required || t.nullable) && t.dart != AnyT then Nullable(t.dart) else t.dart
  }

  predicate HoldsNull(t: Dart) {
    t.Nullable? || t.AnyT? || t.NullT?
  }

  ghost predicate Inhabits(defs: Definitions, t: Dart, v: Value)
    decreases v, t
  {
    match t
    case Class(name) =>
      && name in defs && v.Obj?
      && (forall j :: 0 <= j < |defs[name].properties| ==>
            var p := defs[name].properties[j];
            && TypeOf(p.schema).Ok?
            && var field := FieldType(TypeOf(p.schema).value, p.name in defs[name].required);
            && (!HasField(v, p.name) ==> HoldsNull(field))
            && (forall k :: 0 <= k < |v.fields| && v.fields[k].name == p.name ==>
                  Inhabits(defs, field, v.fields[k].value)))
    case StringT => v.Str?
    case IntT => v.Int?
    case DoubleT => v.Int? || v.Float?
    case BoolT => v.Bool?
    case ObjectT => !v.Null?
    case AnyT => true
    case NullT => v.Null?
    case ListOf(element) => v.Arr? && forall k :: 0 <= k < |v.items| ==> Inhabits(defs, element, v.items[k])
    case MapOf(element) => v.Obj? && forall k :: 0 <= k < |v.fields| ==> Inhabits(defs, element, v.fields[k].value)
    case Nullable(inner) => v.Null? || Inhabits(defs, inner, v)
  }

  // ----- where null is kept -----

  predicate IsNullKind(s: Schema) {
    s.ref.None? && s.anyOf.NoAnyOf? && s.constant.None? && s.choices.None? && s.kind == Some("null")
  }

  predicate IsAny(s: Schema) {
    s.ref.None? && s.anyOf.NoAnyOf? && s.constant.None? && s.choices.None? && Blank(s)
  }

  /** Null is among what the keyword the emitter reads allows. */
  predicate AllowsNull(s: Schema) {
    IsNullKind(s) || IsAny(s) ||
    (IsUnion(s) && exists k :: 0 <= k < |s.anyOf.options| && AllowsNull(s.anyOf.options[k]))
  }

  predicate ReachesAny(s: Schema) {
    IsAny(s) || (IsUnion(s) && exists k :: 0 <= k < |s.anyOf.options| && ReachesAny(s.anyOf.options[k]))
  }

  /** Null itself, any value at all, or a union that lists the null type directly. */
  predicate ListsNull(s: Schema) {
    IsNullKind(s) || ReachesAny(s) ||
    (IsUnion(s) && exists k :: 0 <= k < |s.anyOf.options| && IsNullKind(s.anyOf.options[k]))
  }

  lemma {:induction false} ConcreteExact(options: seq<Typed>, t: Dart)
    ensures t in Concrete(options) <==> t != NullT && exists k :: 0 <= k < |options| && options[k].dart == t
    decreases |options|
  {
    if options != [] {
      ConcreteExact(options[1..], t);
      if exists k :: 0 <= k < |options[1..]| && options[1..][k].dart == t {
        var k :| 0 <= k < |options[1..]| && options[1..][k].dart == t;
        assert options[k + 1].dart == t;
      }
      if exists k :: 0 <= k < |options| && options[k].dart == t {
        var k :| 0 <= k < |options| && options[k].dart == t;
        if k > 0 { assert options[1..][k - 1] == options[k]; }
      }
    }
  }

  /** What a successful union is: one type all concrete options share, or `Object`
      over primitives; never `Null`, and `Object?` only if an option is. */
  lemma UnionFacts(options: seq<Typed>, u: Typed)
    requires UnionOf(options) == Ok(u)
    ensures u.dart != NullT && u.nullable == ListsNullT(options)
    ensures forall k :: 0 <= k < |options| && options[k].dart != NullT ==>
              options[k].dart == u.dart || (u.dart == ObjectT && Primitive(options[k].dart))
    ensures u.dart != ObjectT ==> exists k :: 0 <= k < |options| && options[k].dart == u.dart
  {
    var concrete := Concrete(options);
    forall k | 0 <= k < |options| && options[k].dart != NullT
      ensures options[k].dart == u.dart || (u.dart == ObjectT && Primitive(options[k].dart))
    {
      ConcreteExact(options, options[k].dart);
      var m :| 0 <= m < |concrete| && concrete[m] == options[k].dart;
    }
    if OneType(concrete) {
      assert concrete[0] in concrete;
      ConcreteExact(options, concrete[0]);
    }
  }

  /** The emitted type is `Null` exactly for the null type, and `Object?` exactly when a
      schema that admits anything is reached. */
  lemma {:induction false} SpecialNames(s: Schema)
    requires TypeOf(s).Ok?
    ensures TypeOf(s).value.dart == NullT <==> IsNullKind(s)
    ensures TypeOf(s).value.dart == AnyT <==> ReachesAny(s)
    decreases s
  {
    if IsUnion(s) {
      var options := TypesOf(s.anyOf.options).value;
      var u := TypeOf(s).value;
      UnionFacts(options, u);
      forall k | 0 <= k < |options|
        ensures options[k].dart == NullT <==> IsNullKind(s.anyOf.options[k])
        ensures options[k].dart == AnyT <==> ReachesAny(s.anyOf.options[k])
      {
        SpecialNames(s.anyOf.options[k]);
      }
      if ReachesAny(s) {
        var k :| 0 <= k < |s.anyOf.options| && ReachesAny(s.anyOf.options[k]);
        assert options[k].dart == AnyT;
      }
      if u.dart == AnyT {
        var k :| 0 <= k < |options| && options[k].dart == u.dart;
        assert ReachesAny(s.anyOf.options[k]);
      }
    }
  }

  /** The emitted type holds null exactly when the schema lists null where the emitter
      looks for it. */
  lemma NullKeptExactly(s: Schema)
    requires TypeOf(s).Ok?
    ensures HoldsNull(ElementOf(TypeOf(s).value)) <==> ListsNull(s)
  {
    SpecialNames(s);
    if IsUnion(s) {
      var options := TypesOf(s.anyOf.options).value;
      UnionFacts(options, TypeOf(s).value);
      forall k | 0 <= k < |options| ensures options[k].dart == NullT <==> IsNullKind(s.anyOf.options[k]) {
        SpecialNames(s.anyOf.options[k]);
      }
      NeverNullableName(s);
      assert ListsNullT(options) <==> exists k :: 0 <= k < |s.anyOf.options| && IsNullKind(s.anyOf.options[k]);
    }
  }

  lemma {:induction false} NeverNullableName(s: Schema)
    requires TypeOf(s).Ok?
    ensures !TypeOf(s).value.dart.Nullable?
    decreases s
  {
    if IsUnion(s) {
      var options := TypesOf(s.anyOf.options).value;
      UnionFacts(options, TypeOf(s).value);
      forall k | 0 <= k < |options| ensures !options[k].dart.Nullable? {
        NeverNullableName(s.anyOf.options[k]);
      }
    }
  }

  /** With no union directly inside a union, null is listed wherever it is allowed. */
  lemma FlatUnionsKeepNull(s: Schema)
    requires IsUnion(s) ==> forall k :: 0 <= k < |s.anyOf.options| ==> !IsUnion(s.anyOf.options[k])
    ensures AllowsNull(s) ==> ListsNull(s)
  {
  }

  /** The emitter loses an allowed null exactly when only a union nested in a union
      allows it: no option is the null type itself and none reaches an any-value schema. */
  lemma NullLostExactly(s: Schema)
    requires TypeOf(s).Ok?
    ensures AllowsNull(s) && !HoldsNull(ElementOf(TypeOf(s).value)) <==>
              && IsUnion(s) && !ReachesAny(s)
              && (forall k :: 0 <= k < |s.anyOf.options| ==> !IsNullKind(s.anyOf.options[k]))
              && (exists k :: 0 <= k < |s.anyOf.options| && IsUnion(s.anyOf.options[k]) &&
                    AllowsNull(s.anyOf.options[k]))
  {
    NullKeptExactly(s);
    if IsUnion(s) && AllowsNull(s) && !ListsNull(s) {
      var k :| 0 <= k < |s.anyOf.options| && AllowsNull(s.anyOf.options[k]);
      assert !ReachesAny(s.anyOf.options[k]);
      assert IsUnion(s.anyOf.options[k]);
    }
  }

  const NIL := ANY_VALUE.(kind := Some("null"))
  const MAYBE_TEXT := ANY_VALUE.(anyOf := AnyOf([TEXT, NIL]))
  const NESTED := ANY_VALUE.(anyOf := AnyOf([MAYBE_TEXT]))

  lemma MaybeTextType()
    ensures TypeOf(MAYBE_TEXT) == Ok(Typed(StringT, true))
  {
    TypesOfCons(NIL, []);
    TypesOfCons(TEXT, [NIL]);
    assert [NIL] + [] == [NIL] && [TEXT] + [NIL] == [TEXT, NIL];
    var text, nil := Typed(StringT, false), Typed(NullT, true);
    assert [text] + ([nil] + []) == [text, nil];
    assert TypesOf([TEXT, NIL]) == Ok([text, nil]);
    assert [text, nil][1..] == [nil] && [nil][1..] == [];
    assert Concrete([nil]) == [];
    assert Concrete([text, nil]) == [StringT] + Concrete([nil]);
    assert [text, nil][1].dart == NullT;
  }

  lemma NestedType()
    ensures TypeOf(NESTED) == Ok(Typed(StringT, false))
  {
    MaybeTextType();
    TypesOfCons(MAYBE_TEXT, []);
    var outer := Typed(StringT, true);
    assert [MAYBE_TEXT] + [] == [MAYBE_TEXT] && [outer] + [] == [outer];
    assert [outer][1..] == [];
    assert Concrete([outer]) == [StringT];
  }

  /** The nested union: null is admitted, and the emitted type cannot hold it. */
  lemma NestedUnionDropsNull()
    ensures Admits(map[], NESTED, Null)
    ensures TypeOf(NESTED) == Ok(Typed(StringT, false)) && !Inhabits(map[], StringT, Null)
  {
    NestedType();
    assert Admits(map[], MAYBE_TEXT.anyOf.options[1], Null);
    assert Admits(map[], NESTED.anyOf.options[0], Null);
  }

  lemma TypesOfCons(first: Schema, rest: seq<Schema>)
    requires TypeOf(first).Ok? && TypesOf(rest).Ok?
    ensures TypesOf([first] + rest) == Ok([TypeOf(first).value] + TypesOf(rest).value)
  {
  }

  // ----- what is refused -----

  /** Two options that are not null, of different types, one of them not a primitive. */
  predicate Clash(p: Typed, q: Typed) {
    p.dart != NullT && q.dart != NullT && p.dart != q.dart && !Primitive(p.dart)
  }

  lemma UnionFailsExactly(options: seq<Typed>)
    ensures UnionOf(options).Err? <==>
              exists j, k :: 0 <= j < |options| && 0 <= k < |options| && Clash(options[j], options[k])
  {
    var concrete := Concrete(options);
    if UnionOf(options).Err? {
      var p :| 0 <= p < |concrete| && !Primitive(concrete[p]);
      var q :| 0 <= q < |concrete| && concrete[q] != concrete[p];
      ConcreteExact(options, concrete[p]);
      ConcreteExact(options, concrete[q]);
      var j :| 0 <= j < |options| && options[j].dart == concrete[p];
      var k :| 0 <= k < |options| && options[k].dart == concrete[q];
      assert Clash(options[j], options[k]);
    }
    if j, k :| 0 <= j < |options| && 0 <= k < |options| && Clash(options[j], options[k]) {
      ConcreteExact(options, options[j].dart);
      ConcreteExact(options, options[k].dart);
      var p :| 0 <= p < |concrete| && concrete[p] == options[j].dart;
      var q :| 0 <= q < |concrete| && concrete[q] == options[k].dart;
    }
  }

  /** A constant that is no primitive, or an enum that is empty or not of one primitive type. */
  predicate BadLiteral(s: Schema) {
    && s.ref.None? && s.anyOf.NoAnyOf?
    && (if s.constant.Some? then LiteralType(s.constant.value).Err?
        else s.choices.Some? && EnumOf(s.choices.value).Err?)
  }

  predicate ClashingUnion(s: Schema) {
    && IsUnion(s)
    && exists j, k :: 0 <= j < |s.anyOf.options| && 0 <= k < |s.anyOf.options| &&
         TypeOf(s.anyOf.options[j]).Ok? && TypeOf(s.anyOf.options[k]).Ok? &&
         Clash(TypeOf(s.anyOf.options[j]).value, TypeOf(s.anyOf.options[k]).value)
  }

  predicate Refused(node: Schema) {
    Unlisted(node) || BadLiteral(node) || ClashingUnion(node)
  }

  lemma {:induction false} TypesOfFails(options: seq<Schema>)
    ensures TypesOf(options).Err? <==> exists k :: 0 <= k < |options| && TypeOf(options[k]).Err?
    decreases |options|
  {
    if options != [] {
      TypesOfFails(options[1..]);
      if TypesOf(options[1..]).Err? {
        var k :| 0 <= k < |options[1..]| && TypeOf(options[1..][k]).Err?;
        assert TypeOf(options[k + 1]).Err?;
      }
      if k :| 0 <= k < |options| && TypeOf(options[k]).Err? {
        if k > 0 { assert options[1..][k - 1] == options[k]; }
      }
    }
  }

  lemma UnionRefusedExactly(s: Schema)
    requires IsUnion(s)
    ensures TypeOf(s).Err? <==>
              ClashingUnion(s) || exists k :: 0 <= k < |s.anyOf.options| && TypeOf(s.anyOf.options[k]).Err?
  {
    TypesOfFails(s.anyOf.options);
    if TypesOf(s.anyOf.options).Ok? {
      var options := TypesOf(s.anyOf.options).value;
      UnionFailsExactly(options);
      forall k | 0 <= k < |options| ensures TypeOf(s.anyOf.options[k]) == Ok(options[k]) {}
      if UnionOf(options).Err? {
        var j, k :| 0 <= j < |options| && 0 <= k < |options| && Clash(options[j], options[k]);
        assert Clash(TypeOf(s.anyOf.options[j]).value, TypeOf(s.anyOf.options[k]).value);
      }
    }
  }

  lemma {:induction false} RefusalHasANode(s: Schema) returns (node: Schema)
    requires TypeOf(s).Err?
    ensures Reaches(s, node) && Refused(node)
    decreases s
  {
    node := s;
    if IsUnion(s) {
      UnionRefusedExactly(s);
      if !ClashingUnion(s) {
        var k :| 0 <= k < |s.anyOf.options| && TypeOf(s.anyOf.options[k]).Err?;
        node := RefusalHasANode(s.anyOf.options[k]);
      }
    } else if Plain(s) && s.kind == Some("array") {
      node := RefusalHasANode(s.items.value);
    } else if Plain(s) && s.kind == Some("object") {
      node := RefusalHasANode(s.values.value);
    }
  }

  lemma {:induction false} NodeIsRefused(s: Schema, node: Schema)
    requires Reaches(s, node) && Refused(node)
    ensures TypeOf(s).Err?
    decreases s
  {
    if node == s {
      if IsUnion(s) { UnionRefusedExactly(s); }
    } else if IsUnion(s) {
      var k :| 0 <= k < |s.anyOf.options| && Reaches(s.anyOf.options[k], node);
      NodeIsRefused(s.anyOf.options[k], node);
      UnionRefusedExactly(s);
    } else if s.kind == Some("array") {
      NodeIsRefused(s.items.value, node);
    } else {
      NodeIsRefused(s.values.value, node);
    }
  }

  /** A schema is refused exactly when some node the emitter descends to, at any depth, is
      of an unlisted shape, a literal that is no primitive, or a union Dart has no type for. */
  lemma RefusedExactly(s: Schema)
    ensures TypeOf(s).Err? <==> exists node :: Reaches(s, node) && Refused(node)
  {
    if TypeOf(s).Err? {
      var node := RefusalHasANode(s);
    }
    if node :| Reaches(s, node) && Refused(node) {
      NodeIsRefused(s, node);
    }
  }

  // ----- every admitted value inhabits the emitted type -----

  /** At every depth the emitter descends to: null is listed wherever it is allowed, and maps are plain. */
  predicate Faithful(s: Schema) {
    && (AllowsNull(s) ==> ListsNull(s))
    && (s.kind == Some("object") && s.values.Some? ==> s.properties == [])
    && (s.anyOf.AnyOf? ==> forall k :: 0 <= k < |s.anyOf.options| ==> Faithful(s.anyOf.options[k]))
    && (s.items.Some? ==> Faithful(s.items.value))
    && (s.values.Some? ==> Faithful(s.values.value))
  }

  /** No union directly inside a union, at any depth, and plain maps. */
  predicate Flat(s: Schema) {
    && (IsUnion(s) ==> forall k :: 0 <= k < |s.anyOf.options| ==> !IsUnion(s.anyOf.options[k]))
    && (s.kind == Some("object") && s.values.Some? ==> s.properties == [])
    && (s.anyOf.AnyOf? ==> forall k :: 0 <= k < |s.anyOf.options| ==> Flat(s.anyOf.options[k]))
    && (s.items.Some? ==> Flat(s.items.value))
    && (s.values.Some? ==> Flat(s.values.value))
  }

  /** What an author checks by eye is enough. */
  lemma {:induction false} FlatIsFaithful(s: Schema)
    requires Flat(s)
    ensures Faithful(s)
    decreases s
  {
    FlatUnionsKeepNull(s);
    if s.anyOf.AnyOf? {
      forall k | 0 <= k < |s.anyOf.options| ensures Faithful(s.anyOf.options[k]) {
        FlatIsFaithful(s.anyOf.options[k]);
      }
    }
    if s.items.Some? { FlatIsFaithful(s.items.value); }
    if s.values.Some? { FlatIsFaithful(s.values.value); }
  }

  ghost predicate Emitted(defs: Definitions) {
    forall name :: name in defs ==>
      && defs[name].kind == Some("object")
      && forall j :: 0 <= j < |defs[name].properties| ==>
           TypeOf(defs[name].properties[j].schema).Ok? && Faithful(defs[name].properties[j].schema)
  }

  lemma {:induction false} AdmittedNullIsAllowed(defs: Definitions, s: Schema)
    requires TypeOf(s).Ok? && Admits(defs, s, Null)
    ensures AllowsNull(s)
    decreases s
  {
    if s.ref.None? && s.anyOf.AnyOf? {
      var k :| 0 <= k < |s.anyOf.options| && Admits(defs, s.anyOf.options[k], Null);
      assert TypeOf(s.anyOf.options[k]) == Ok(TypesOf(s.anyOf.options).value[k]);
      AdmittedNullIsAllowed(defs, s.anyOf.options[k]);
    }
  }

  lemma ClassSound(defs: Definitions, s: Schema, v: Value)
    requires Emitted(defs) && s.ref.Some? && Admits(defs, s, v)
    ensures Inhabits(defs, Class(s.ref.value), v)
    decreases v, s, 0
  {
    var d := defs[s.ref.value];
    forall j | 0 <= j < |d.properties|
      ensures
        var p := d.properties[j];
        var field := FieldType(TypeOf(p.schema).value, p.name in d.required);
        && (!HasField(v, p.name) ==> HoldsNull(field))
        && (forall k :: 0 <= k < |v.fields| && v.fields[k].name == p.name ==> Inhabits(defs, field, v.fields[k].value))
    {
      var p := d.properties[j];
      forall k | 0 <= k < |v.fields| && v.fields[k].name == p.name
        ensures Inhabits(defs, FieldType(TypeOf(p.schema).value, p.name in d.required), v.fields[k].value)
      {
        AdmittedInhabits(defs, p.schema, v.fields[k].value);
        NeverNullableName(p.schema);
      }
    }
  }

  lemma UnionHoldsNull(defs: Definitions, s: Schema)
    requires IsUnion(s) && TypeOf(s).Ok? && Faithful(s) && Admits(defs, s, Null)
    ensures Inhabits(defs, ElementOf(TypeOf(s).value), Null)
  {
    AdmittedNullIsAllowed(defs, s);
    NullKeptExactly(s);
  }

  /** A value other than null that inhabits an option's type inhabits the union's. */
  lemma OptionWidens(defs: Definitions, options: seq<Typed>, u: Typed, k: nat, v: Value)
    requires UnionOf(options) == Ok(u) && k < |options| && !v.Null?
    requires Inhabits(defs, ElementOf(options[k]), v)
    ensures Inhabits(defs, ElementOf(u), v)
  {
    var option := options[k];
    assert Inhabits(defs, option.dart, v);
    UnionFacts(options, u);
    assert Inhabits(defs, u.dart, v);
  }

  lemma UnionSound(defs: Definitions, s: Schema, v: Value)
    requires Emitted(defs) && IsUnion(s) && TypeOf(s).Ok? && Faithful(s) && Admits(defs, s, v)
    ensures Inhabits(defs, ElementOf(TypeOf(s).value), v)
    decreases v, s, 0
  {
    if v.Null? {
      UnionHoldsNull(defs, s);
    } else {
      var k :| 0 <= k < |s.anyOf.options| && Admits(defs, s.anyOf.options[k], v);
      AdmittedInhabits(defs, s.anyOf.options[k], v);
      OptionWidens(defs, TypesOf(s.anyOf.options).value, TypeOf(s).value, k, v);
    }
  }

  lemma ContainerSound(defs: Definitions, s: Schema, v: Value)
    requires Emitted(defs) && TypeOf(s).Ok? && Faithful(s) && Admits(defs, s, v)
    requires s.ref.None? && s.anyOf.NoAnyOf? && s.constant.None? && s.choices.None?
    requires s.kind == Some("array") || s.kind == Some("object")
    ensures Inhabits(defs, ElementOf(TypeOf(s).value), v)
    decreases v, s, 0
  {
    var t := TypeOf(s).value.dart;
    if s.kind == Some("array") {
      forall k | 0 <= k < |v.items| ensures Inhabits(defs, t.element, v.items[k]) {
        if s.items.Some? { AdmittedInhabits(defs, s.items.value, v.items[k]); }
      }
    } else {
      forall k | 0 <= k < |v.fields| ensures Inhabits(defs, t.element, v.fields[k].value) {
        if s.values.Some? { AdmittedInhabits(defs, s.values.value, v.fields[k].value); }
      }
    }
  }

  /** Every value a faithful schema admits inhabits the emitted Dart type, null and absent
      fields included, at every depth. */
  lemma {:induction false} AdmittedInhabits(defs: Definitions, s: Schema, v: Value)
    requires Emitted(defs) && TypeOf(s).Ok? && Faithful(s) && Admits(defs, s, v)
    ensures Inhabits(defs, ElementOf(TypeOf(s).value), v)
    decreases v, s, 1
  {
    if s.ref.Some? {
      ClassSound(defs, s, v);
    } else if s.anyOf.AnyOf? {
      UnionSound(defs, s, v);
    } else if s.constant.Some? {
    } else if s.choices.Some? {
      var k :| 0 <= k < |s.choices.value| && s.choices.value[k] == v;
      assert LiteralType(s.choices.value[k]) == LiteralType(s.choices.value[0]);
    } else if s.kind == Some("array") || s.kind == Some("object") {
      ContainerSound(defs, s, v);
    }
  }

  // ----- exactly what a type holds -----

  /** The schema allows just one primitive type, and null at most. */
  predicate HasKind(s: Schema, d: Dart) {
    if s.ref.Some? then false
    else if s.anyOf.AnyOf? then
      && (exists k :: 0 <= k < |s.anyOf.options| && !IsNullKind(s.anyOf.options[k]) && HasKind(s.anyOf.options[k], d))
      && (forall k :: 0 <= k < |s.anyOf.options| && !IsNullKind(s.anyOf.options[k]) ==> HasKind(s.anyOf.options[k], d))
    else if s.constant.Some? then LiteralType(s.constant.value) == Ok(d)
    else if s.choices.Some? then
      s.choices.value != [] && forall k :: 0 <= k < |s.choices.value| ==> LiteralType(s.choices.value[k]) == Ok(d)
    else
      || (s.kind == Some("string") && d == StringT)
      || (s.kind == Some("integer") && d == IntT)
      || (s.kind == Some("number") && d == DoubleT)
      || (s.kind == Some("boolean") && d == BoolT)
  }

  /** A union Dart has no type for but `Object`: options of two primitive types, or none but null. */
  predicate Widened(s: Schema)
    requires s.anyOf.AnyOf?
  {
    || (forall k :: 0 <= k < |s.anyOf.options| ==> IsNullKind(s.anyOf.options[k]))
    || (exists j, k :: 0 <= j < |s.anyOf.options| && 0 <= k < |s.anyOf.options| &&
          KindsDiffer(s.anyOf.options[j], s.anyOf.options[k]))
  }

  predicate OneKind(s: Schema) {
    HasKind(s, StringT) || HasKind(s, IntT) || HasKind(s, DoubleT) || HasKind(s, BoolT)
  }

  /** Each allows one primitive type, and not the same. */
  predicate KindsDiffer(a: Schema, b: Schema) {
    && OneKind(a) && OneKind(b)
    && !(HasKind(a, StringT) && HasKind(b, StringT)) && !(HasKind(a, IntT) && HasKind(b, IntT))
    && !(HasKind(a, DoubleT) && HasKind(b, DoubleT)) && !(HasKind(a, BoolT) && HasKind(b, BoolT))
  }

  predicate SameKind(literal: Value, v: Value) {
    match literal
    case Bool(_) => v.Bool?
    case Int(_) => v.Int?
    case Float(_) => v.Int? || v.Float?
    case Str(_) => v.Str?
    case _ => false
  }

  /** The value satisfies what the emitter reads, up to the primitive type of a literal;
      null where it is listed; a field absent or null where it need not be given. */
  ghost predicate Reads(defs: Definitions, s: Schema, v: Value)
    decreases v, s
  {
    if s.ref.Some? then
      && s.ref.value in defs && v.Obj?
      && (forall j :: 0 <= j < |defs[s.ref.value].properties| ==>
            var p := defs[s.ref.value].properties[j];
            && (!HasField(v, p.name) ==> p.name !in defs[s.ref.value].required || ListsNull(p.schema))
            && (forall k :: 0 <= k < |v.fields| && v.fields[k].name == p.name ==>
                  Reads(defs, p.schema, v.fields[k].value) ||
                  (v.fields[k].value.Null? && p.name !in defs[s.ref.value].required)))
    else if s.anyOf.AnyOf? then
      if v.Null? then ListsNull(s)
      else Widened(s) || exists k :: 0 <= k < |s.anyOf.options| && Reads(defs, s.anyOf.options[k], v)
    else if s.constant.Some? then SameKind(s.constant.value, v)
    else if s.choices.Some? then exists k :: 0 <= k < |s.choices.value| && SameKind(s.choices.value[k], v)
    else
      && (s.kind == Some("null") ==> v.Null?)
      && (s.kind == Some("string") ==> v.Str?)
      && (s.kind == Some("integer") ==> v.Int?)
      && (s.kind == Some("number") ==> v.Int? || v.Float?)
      && (s.kind == Some("boolean") ==> v.Bool?)
      && (s.kind == Some("array") ==>
            v.Arr? && (s.items.Some? ==> forall k :: 0 <= k < |v.items| ==> Reads(defs, s.items.value, v.items[k])))
      && (s.kind == Some("object") ==>
            v.Obj? &&
            (s.values.Some? ==> forall k :: 0 <= k < |v.fields| ==> Reads(defs, s.values.value, v.fields[k].value)))
  }

  ghost predicate Translated(defs: Definitions) {
    forall name :: name in defs ==>
      forall j :: 0 <= j < |defs[name].properties| ==> TypeOf(defs[name].properties[j].schema).Ok?
  }

  /** One primitive type is emitted exactly for a schema that allows just that one. */
  lemma {:induction false} KindExactly(s: Schema, d: Dart)
    requires TypeOf(s).Ok? && Primitive(d)
    ensures TypeOf(s).value.dart == d <==> HasKind(s, d)
    decreases s
  {
    if IsUnion(s) {
      var options := TypesOf(s.anyOf.options).value;
      forall k | 0 <= k < |options|
        ensures options[k].dart == d <==> HasKind(s.anyOf.options[k], d)
        ensures options[k].dart == NullT <==> IsNullKind(s.anyOf.options[k])
      {
        KindExactly(s.anyOf.options[k], d);
        SpecialNames(s.anyOf.options[k]);
      }
      UnionIsPrimitive(options, TypeOf(s).value, d);
    }
  }

  lemma UnionIsPrimitive(options: seq<Typed>, u: Typed, d: Dart)
    requires UnionOf(options) == Ok(u) && Primitive(d)
    ensures u.dart == d <==>
              && (exists k :: 0 <= k < |options| && options[k].dart != NullT && options[k].dart == d)
              && (forall k :: 0 <= k < |options| && options[k].dart != NullT ==> options[k].dart == d)
  {
    UnionFacts(options, u);
    if forall k :: 0 <= k < |options| && options[k].dart != NullT ==> options[k].dart == d {
      var concrete := Concrete(options);
      forall m | 0 <= m < |concrete| ensures concrete[m] == d {
        ConcreteExact(options, concrete[m]);
      }
      if k :| 0 <= k < |options| && options[k].dart != NullT && options[k].dart == d {
        ConcreteExact(options, d);
      }
    }
  }

  /** No option but null, or options of two primitive types. */
  predicate NoOneType(options: seq<Typed>) {
    || (forall k :: 0 <= k < |options| ==> options[k].dart == NullT)
    || (exists j, k :: 0 <= j < |options| && 0 <= k < |options| &&
          Primitive(options[j].dart) && Primitive(options[k].dart) && options[j].dart != options[k].dart)
  }

  /** `Object` comes of a union with no one type, or of options that are `Object` already. */
  lemma ObjectExactly(options: seq<Typed>, u: Typed)
    requires UnionOf(options) == Ok(u)
    ensures u.dart == ObjectT <==>
              NoOneType(options) || exists k :: 0 <= k < |options| && options[k].dart == ObjectT
  {
    UnionFacts(options, u);
    var concrete := Concrete(options);
    forall m | 0 <= m < |concrete|
      ensures exists k :: 0 <= k < |options| && options[k].dart == concrete[m] && concrete[m] != NullT
    {
      ConcreteExact(options, concrete[m]);
    }
    forall k | 0 <= k < |options| && options[k].dart != NullT ensures options[k].dart in concrete {
      ConcreteExact(options, options[k].dart);
    }
    if u.dart == ObjectT && !OneType(concrete) && concrete != [] {
      var q :| 0 <= q < |concrete| && concrete[q] != concrete[0];
      var j :| 0 <= j < |options| && options[j].dart == concrete[0];
      var k :| 0 <= k < |options| && options[k].dart == concrete[q];
      assert Primitive(options[j].dart) && Primitive(options[k].dart);
    }
  }

  lemma KindsDifferExactly(a: Schema, b: Schema)
    requires TypeOf(a).Ok? && TypeOf(b).Ok?
    ensures
      var t, u := TypeOf(a).value.dart, TypeOf(b).value.dart;
      KindsDiffer(a, b) <==> Primitive(t) && Primitive(u) && t != u
  {
    KindExactly(a, StringT);
    KindExactly(a, IntT);
    KindExactly(a, DoubleT);
    KindExactly(a, BoolT);
    KindExactly(b, StringT);
    KindExactly(b, IntT);
    KindExactly(b, DoubleT);
    KindExactly(b, BoolT);
  }

  lemma WidenedExactly(s: Schema)
    requires IsUnion(s) && TypesOf(s.anyOf.options).Ok?
    ensures Widened(s) <==> NoOneType(TypesOf(s.anyOf.options).value)
  {
    var options := TypesOf(s.anyOf.options).value;
    forall k | 0 <= k < |options| ensures options[k].dart == NullT <==> IsNullKind(s.anyOf.options[k]) {
      SpecialNames(s.anyOf.options[k]);
    }
    forall j, k | 0 <= j < |options| && 0 <= k < |options|
      ensures KindsDiffer(s.anyOf.options[j], s.anyOf.options[k]) <==>
              Primitive(options[j].dart) && Primitive(options[k].dart) && options[j].dart != options[k].dart
    {
      KindsDifferExactly(s.anyOf.options[j], s.anyOf.options[k]);
    }
  }

  lemma NonNull(defs: Definitions, t: Typed, v: Value)
    requires !v.Null?
    ensures Inhabits(defs, ElementOf(t), v) <==> Inhabits(defs, t.dart, v)
  {
  }

  /** A value other than null is in a union's type exactly if it is in some option's, or
      the union has no one type. */
  lemma UnionTypeHolds(defs: Definitions, options: seq<Typed>, u: Typed, v: Value)
    requires UnionOf(options) == Ok(u) && !v.Null?
    ensures Inhabits(defs, u.dart, v) <==>
              NoOneType(options) || SomeOptionHolds(defs, options, v)
  {
    UnionFacts(options, u);
    ObjectExactly(options, u);
    if u.dart == ObjectT {
      if k :| 0 <= k < |options| && options[k].dart == ObjectT {
        assert Inhabits(defs, options[k].dart, v);
      }
    } else {
      var k :| 0 <= k < |options| && options[k].dart == u.dart;
      assert Inhabits(defs, u.dart, v) <==> Inhabits(defs, options[k].dart, v);
    }
  }

  ghost predicate SomeOptionReads(defs: Definitions, s: Schema, v: Value)
    requires s.anyOf.AnyOf?
  {
    exists k :: 0 <= k < |s.anyOf.options| && Reads(defs, s.anyOf.options[k], v)
  }

  ghost predicate SomeOptionHolds(defs: Definitions, options: seq<Typed>, v: Value) {
    exists k :: 0 <= k < |options| && Inhabits(defs, options[k].dart, v)
  }

  lemma ReadsUnion(defs: Definitions, s: Schema, v: Value)
    requires IsUnion(s) && !v.Null?
    ensures Reads(defs, s, v) <==> Widened(s) || SomeOptionReads(defs, s, v)
  {
  }

  lemma OptionsHold(defs: Definitions, s: Schema, v: Value)
    requires Translated(defs) && IsUnion(s) && TypesOf(s.anyOf.options).Ok? && !v.Null?
    ensures SomeOptionHolds(defs, TypesOf(s.anyOf.options).value, v) <==> SomeOptionReads(defs, s, v)
    decreases v, s, 0
  {
    forall k | 0 <= k < |s.anyOf.options|
      ensures Inhabits(defs, TypesOf(s.anyOf.options).value[k].dart, v) <==> Reads(defs, s.anyOf.options[k], v)
    {
      OptionHolds(defs, s, k, v);
    }
  }

  lemma UnionHoldsNonNull(defs: Definitions, s: Schema, v: Value)
    requires Translated(defs) && IsUnion(s) && TypeOf(s).Ok? && !v.Null?
    ensures Inhabits(defs, ElementOf(TypeOf(s).value), v) <==> Reads(defs, s, v)
    decreases v, s, 1
  {
    NonNull(defs, TypeOf(s).value, v);
    UnionTypeHolds(defs, TypesOf(s.anyOf.options).value, TypeOf(s).value, v);
    WidenedExactly(s);
    OptionsHold(defs, s, v);
    ReadsUnion(defs, s, v);
  }

  lemma OptionHolds(defs: Definitions, s: Schema, k: nat, v: Value)
    requires Translated(defs) && IsUnion(s) && TypesOf(s.anyOf.options).Ok? && k < |s.anyOf.options| && !v.Null?
    ensures Inhabits(defs, TypesOf(s.anyOf.options).value[k].dart, v) <==> Reads(defs, s.anyOf.options[k], v)
    decreases v, s.anyOf.options[k], 4
  {
    HoldsExactly(defs, s.anyOf.options[k], v);
    NonNull(defs, TypesOf(s.anyOf.options).value[k], v);
  }

  lemma UnionHolds(defs: Definitions, s: Schema, v: Value)
    requires Translated(defs) && IsUnion(s) && TypeOf(s).Ok?
    ensures Inhabits(defs, ElementOf(TypeOf(s).value), v) <==> Reads(defs, s, v)
    decreases v, s, 2
  {
    if v.Null? {
      NullKeptExactly(s);
      NullHeldExactly(defs, s);
    } else {
      UnionHoldsNonNull(defs, s, v);
    }
  }

  lemma NullHeldExactly(defs: Definitions, s: Schema)
    requires TypeOf(s).Ok?
    ensures Inhabits(defs, ElementOf(TypeOf(s).value), Null) <==> HoldsNull(ElementOf(TypeOf(s).value))
  {
  }

  lemma FieldHolds(defs: Definitions, p: Property, required: bool, v: Value)
    requires Translated(defs) && TypeOf(p.schema).Ok?
    ensures Inhabits(defs, FieldType(TypeOf(p.schema).value, required), v) <==>
              Reads(defs, p.schema, v) || (v.Null? && !required)
    decreases v, p.schema, 4
  {
    HoldsExactly(defs, p.schema, v);
    NeverNullableName(p.schema);
  }

  lemma FieldMayBeAbsent(p: Property, required: bool)
    requires TypeOf(p.schema).Ok?
    ensures HoldsNull(FieldType(TypeOf(p.schema).value, required)) <==> !required || ListsNull(p.schema)
  {
    NullKeptExactly(p.schema);
    NeverNullableName(p.schema);
  }

  lemma ClassHolds(defs: Definitions, s: Schema, v: Value)
    requires Translated(defs) && s.ref.Some?
    ensures Inhabits(defs, Class(s.ref.value), v) <==> Reads(defs, s, v)
    decreases v, s, 0
  {
    if s.ref.value in defs && v.Obj? {
      var d := defs[s.ref.value];
      forall j | 0 <= j < |d.properties|
        ensures
          var p := d.properties[j];
          var field := FieldType(TypeOf(p.schema).value, p.name in d.required);
          && (HoldsNull(field) <==> p.name !in d.required || ListsNull(p.schema))
          && (forall k :: 0 <= k < |v.fields| && v.fields[k].name == p.name ==>
                (Inhabits(defs, field, v.fields[k].value) <==>
                 Reads(defs, p.schema, v.fields[k].value) ||
                 (v.fields[k].value.Null? && p.name !in d.required)))
      {
        var p := d.properties[j];
        FieldMayBeAbsent(p, p.name in d.required);
        forall k | 0 <= k < |v.fields| && v.fields[k].name == p.name
          ensures Inhabits(defs, FieldType(TypeOf(p.schema).value, p.name in d.required), v.fields[k].value) <==>
                  Reads(defs, p.schema, v.fields[k].value) || (v.fields[k].value.Null? && p.name !in d.required)
        {
          FieldHolds(defs, p, p.name in d.required, v.fields[k].value);
        }
      }
    }
  }

  lemma ListHolds(defs: Definitions, s: Schema, v: Value)
    requires Translated(defs) && TypeOf(s).Ok? && Plain(s) && s.kind == Some("array")
    ensures Inhabits(defs, ElementOf(TypeOf(s).value), v) <==> Reads(defs, s, v)
    decreases v, s, 0
  {
    if v.Arr? && s.items.Some? {
      forall k | 0 <= k < |v.items|
        ensures Inhabits(defs, TypeOf(s).value.dart.element, v.items[k]) <==> Reads(defs, s.items.value, v.items[k])
      {
        HoldsExactly(defs, s.items.value, v.items[k]);
      }
    }
  }

  lemma MapHolds(defs: Definitions, s: Schema, v: Value)
    requires Translated(defs) && TypeOf(s).Ok? && Plain(s) && s.kind == Some("object")
    ensures Inhabits(defs, ElementOf(TypeOf(s).value), v) <==> Reads(defs, s, v)
    decreases v, s, 0
  {
    if v.Obj? && s.values.Some? {
      forall k | 0 <= k < |v.fields|
        ensures Inhabits(defs, TypeOf(s).value.dart.element, v.fields[k].value) <==>
                Reads(defs, s.values.value, v.fields[k].value)
      {
        HoldsExactly(defs, s.values.value, v.fields[k].value);
      }
    }
  }

  lemma LiteralHolds(defs: Definitions, literal: Value, v: Value)
    requires LiteralType(literal).Ok?
    ensures Inhabits(defs, LiteralType(literal).value, v) <==> SameKind(literal, v)
  {
  }

  lemma EnumHolds(defs: Definitions, s: Schema, v: Value)
    requires s.ref.None? && s.anyOf.NoAnyOf? && s.constant.None? && s.choices.Some? && TypeOf(s).Ok?
    ensures Inhabits(defs, ElementOf(TypeOf(s).value), v) <==> Reads(defs, s, v)
  {
    var choices := s.choices.value;
    forall k | 0 <= k < |choices| ensures SameKind(choices[k], v) <==> SameKind(choices[0], v) {
      LiteralHolds(defs, choices[0], v);
      LiteralHolds(defs, choices[k], v);
    }
    LiteralHolds(defs, choices[0], v);
  }

  /** The emitted Dart type holds exactly the values that satisfy what the emitter read. */
  lemma {:induction false} HoldsExactly(defs: Definitions, s: Schema, v: Value)
    requires Translated(defs) && TypeOf(s).Ok?
    ensures Inhabits(defs, ElementOf(TypeOf(s).value), v) <==> Reads(defs, s, v)
    decreases v, s, 3
  {
    if s.ref.Some? {
      ClassHolds(defs, s, v);
    } else if s.anyOf.AnyOf? {
      UnionHolds(defs, s, v);
    } else if s.constant.Some? {
      LiteralHolds(defs, s.constant.value, v);
    } else if s.choices.Some? {
      EnumHolds(defs, s, v);
    } else if s.kind == Some("array") {
      ListHolds(defs, s, v);
    } else if s.kind == Some("object") {
      MapHolds(defs, s, v);
    }
  }

  /** Every value the schema admits inhabits its type. */
  ghost predicate Sound(defs: Definitions, s: Schema)
    requires TypeOf(s).Ok?
  {
    forall v :: Admits(defs, s, v) ==> Inhabits(defs, TypeOf(s).value.dart, v)
  }

  /** Each listed property only admits values that fit the map's element type too. */
  ghost predicate ListedFit(defs: Definitions, s: Schema)
    requires s.values.Some? && TypeOf(s.values.value).Ok?
  {
    forall name, x :: Listed(s, name) && AdmitsAt(defs, s, name, x) ==>
      Inhabits(defs, ElementOf(TypeOf(s.values.value).value), x)
  }

  lemma FieldFits(defs: Definitions, s: Schema, v: Value, k: nat)
    requires Emitted(defs) && s.values.Some? && TypeOf(s.values.value).Ok? && Faithful(s.values.value)
    requires ListedFit(defs, s) && v.Obj? && Admits(defs, s, v) && k < |v.fields|
    ensures Inhabits(defs, ElementOf(TypeOf(s.values.value).value), v.fields[k].value)
  {
    assert AdmitsAt(defs, s, v.fields[k].name, v.fields[k].value);
    if !Listed(s, v.fields[k].name) {
      AdmittedInhabits(defs, s.values.value, v.fields[k].value);
    }
  }

  lemma ListedMustFit(defs: Definitions, s: Schema, name: string, x: Value)
    requires Plain(s) && s.kind == Some("object") && s.values.Some? && TypeOf(s.values.value).Ok?
    requires Sound(defs, s) && Listed(s, name) && AdmitsAt(defs, s, name, x)
    ensures Inhabits(defs, ElementOf(TypeOf(s.values.value).value), x)
  {
    var v := Obj([Field(name, x)]);
    assert v.fields[0].name == name && v.fields[0].value == x;
    assert Admits(defs, s, v);
    assert Inhabits(defs, TypeOf(s).value.dart, v);
  }

  /** A map's type is sound exactly when each property listed beside it fits the element
      type, which the emitter does not check. */
  lemma MapSoundExactly(defs: Definitions, s: Schema)
    requires Emitted(defs) && Plain(s) && s.kind == Some("object") && s.values.Some?
    requires TypeOf(s.values.value).Ok? && Faithful(s.values.value)
    ensures Sound(defs, s) <==> ListedFit(defs, s)
  {
    if Sound(defs, s) {
      forall name, x | Listed(s, name) && AdmitsAt(defs, s, name, x)
        ensures Inhabits(defs, ElementOf(TypeOf(s.values.value).value), x)
      {
        ListedMustFit(defs, s, name, x);
      }
    }
    if ListedFit(defs, s) {
      forall v | Admits(defs, s, v) ensures Inhabits(defs, TypeOf(s).value.dart, v) {
        forall k | 0 <= k < |v.fields|
          ensures Inhabits(defs, ElementOf(TypeOf(s.values.value).value), v.fields[k].value)
        {
          FieldFits(defs, s, v, k);
        }
      }
    }
  }

  /** The same schema in Dart: a map of integers that a listed text does not fit. */
  lemma ListedPropertyEscapesTheMap()
    ensures TypeOf(COUNTS_AND_A) == Ok(Typed(MapOf(IntT), false))
    ensures Admits(map[], COUNTS_AND_A, A_TEXT) && !Inhabits(map[], MapOf(IntT), A_TEXT)
  {
    CountsAdmitText();
    assert TypeOf(COUNT) == Ok(Typed(IntT, false));
    assert A_TEXT.fields[0].value == Str("x") && !Inhabits(map[], IntT, A_TEXT.fields[0].value);
  }
}
