/**
  The TypeScript types emitted for the management contract's schemas
  (contracts/management/v1/generate_typescript.py).
 */
module TypeScriptTypes {
  import opened Outcomes
  import opened Json
  import opened Schemas

  datatype Ts =
    | Named(name: string)
    | Union(options: seq<Ts>)
    | Literal(value: Value)
    | NullType | StringType | NumberType | BooleanType | Unknown
    | ArrayOf(element: Ts)
    | RecordOf(element: Ts)

  datatype Unsupported = Unsupported

  function TypeOf(s: Schema): Result<Ts, Unsupported>
    decreases s
  {
    if s.ref.Some? then Ok(Named(s.ref.value))
    else if s.anyOf.AnyOf? then
      match TypesOf(s.anyOf.options)
      case Ok(options) => Ok(Union(options))
      case Err(e) => Err(e)
    else if s.constant.Some? then Ok(Literal(s.constant.value))
    else if s.choices.Some? then
      Ok(Union(seq(|s.choices.value|, k requires 0 <= k < |s.choices.value| => Literal(s.choices.value[k]))))
    else if s.kind == Some("null") then Ok(NullType)
    else if s.kind == Some("string") then Ok(StringType)
    else if s.kind == Some("integer") || s.kind == Some("number") then Ok(NumberType)
    else if s.kind == Some("boolean") then Ok(BooleanType)
    else if s.kind == Some("array") then
      if s.items.None? then Ok(ArrayOf(Unknown))
      else match TypeOf(s.items.value) case Ok(t) => Ok(ArrayOf(t)) case Err(e) => Err(e)
    else if s.kind == Some("object") then
      if s.values.None? then Ok(RecordOf(Unknown))
      else match TypeOf(s.values.value) case Ok(t) => Ok(RecordOf(t)) case Err(e) => Err(e)
    else if Blank(s) then Ok(Unknown)
    else Err(Unsupported)
  }

  function TypesOf(options: seq<Schema>): (r: Result<seq<Ts>, Unsupported>)
    ensures r.Ok? ==> |r.value| == |options|
    ensures r.Ok? ==> forall k :: 0 <= k < |options| ==> TypeOf(options[k]) == Ok(r.value[k])
    decreases options
  {
    if options == [] then Ok([])
    else
      match TypeOf(options[0])
      case Err(e) => Err(e)
      case Ok(t) =>
        match TypesOf(options[1..])
        case Err(e) => Err(e)
        case Ok(rest) => Ok([t] + rest)
  }

  /** The value inhabits the type; a named type is the interface emitted for its schema,
      whose non-required members may be absent. */
  ghost predicate Inhabits(defs: Definitions, t: Ts, v: Value)
    decreases v, t
  {
    match t
    case Named(name) =>
      && name in defs && v.Obj?
      && (forall n :: n in defs[name].required && Listed(defs[name], n) ==> HasField(v, n))
      && (forall j, k | 0 <= j < |defs[name].properties| && 0 <= k < |v.fields| &&
                        defs[name].properties[j].name == v.fields[k].name ::
            TypeOf(defs[name].properties[j].schema).Ok? &&
            Inhabits(defs, TypeOf(defs[name].properties[j].schema).value, v.fields[k].value))
    case Union(options) => exists k :: 0 <= k < |options| && Inhabits(defs, options[k], v)
    case Literal(value) => v == value
    case NullType => v.Null?
    case StringType => v.Str?
    case NumberType => v.Int? || v.Float?
    case BooleanType => v.Bool?
    case Unknown => true
    case ArrayOf(element) => v.Arr? && forall k :: 0 <= k < |v.items| ==> Inhabits(defs, element, v.items[k])
    case RecordOf(element) => v.Obj? && forall k :: 0 <= k < |v.fields| ==> Inhabits(defs, element, v.fields[k].value)
  }

  /** Emission succeeded for every definition: all are object schemas with translatable properties. */
  ghost predicate Emitted(defs: Definitions) {
    forall name :: name in defs ==>
      && defs[name].kind == Some("object")
      && forall j :: 0 <= j < |defs[name].properties| ==>
           TypeOf(defs[name].properties[j].schema).Ok? && PlainMaps(defs[name].properties[j].schema)
  }

  lemma NamedSound(defs: Definitions, s: Schema, v: Value)
    requires Emitted(defs) && s.ref.Some? && Admits(defs, s, v)
    ensures Inhabits(defs, Named(s.ref.value), v)
    decreases v, s, 0
  {
    var d := defs[s.ref.value];
    forall j, k | 0 <= j < |d.properties| && 0 <= k < |v.fields| && d.properties[j].name == v.fields[k].name
      ensures TypeOf(d.properties[j].schema).Ok? &&
              Inhabits(defs, TypeOf(d.properties[j].schema).value, v.fields[k].value)
    {
      AdmittedInhabits(defs, d.properties[j].schema, v.fields[k].value);
    }
  }

  lemma UnionSound(defs: Definitions, s: Schema, v: Value)
    requires Emitted(defs) && s.ref.None? && s.anyOf.AnyOf? && TypeOf(s).Ok? && PlainMaps(s) && Admits(defs, s, v)
    ensures Inhabits(defs, TypeOf(s).value, v)
    decreases v, s, 0
  {
    var k :| 0 <= k < |s.anyOf.options| && Admits(defs, s.anyOf.options[k], v);
    AdmittedInhabits(defs, s.anyOf.options[k], v);
    assert Inhabits(defs, TypeOf(s).value.options[k], v);
  }

  lemma ContainerSound(defs: Definitions, s: Schema, v: Value)
    requires Emitted(defs) && TypeOf(s).Ok? && PlainMaps(s) && Admits(defs, s, v)
    requires s.ref.None? && s.anyOf.NoAnyOf? && s.constant.None? && s.choices.None?
    requires s.kind == Some("array") || s.kind == Some("object")
    ensures Inhabits(defs, TypeOf(s).value, v)
    decreases v, s, 0
  {
    if s.kind == Some("array") {
      forall k | 0 <= k < |v.items| ensures Inhabits(defs, TypeOf(s).value.element, v.items[k]) {
        if s.items.Some? { AdmittedInhabits(defs, s.items.value, v.items[k]); }
      }
    } else {
      forall k | 0 <= k < |v.fields| ensures Inhabits(defs, TypeOf(s).value.element, v.fields[k].value) {
        if s.values.Some? { AdmittedInhabits(defs, s.values.value, v.fields[k].value); }
      }
    }
  }

  /** Every value a schema admits inhabits the type emitted for it. */
  lemma {:induction false} AdmittedInhabits(defs: Definitions, s: Schema, v: Value)
    requires Emitted(defs) && TypeOf(s).Ok? && PlainMaps(s) && Admits(defs, s, v)
    ensures Inhabits(defs, TypeOf(s).value, v)
    decreases v, s, 1
  {
    if s.ref.Some? {
      NamedSound(defs, s, v);
    } else if s.anyOf.AnyOf? {
      UnionSound(defs, s, v);
    } else if s.constant.Some? {
    } else if s.choices.Some? {
      var k :| 0 <= k < |s.choices.value| && s.choices.value[k] == v;
      assert Inhabits(defs, TypeOf(s).value.options[k], v);
    } else if s.kind == Some("array") || s.kind == Some("object") {
      ContainerSound(defs, s, v);
    }
  }

  // ----- exactly what a type holds -----

  /** `unknown` is emitted for a schema that says nothing, and for nothing else. */
  lemma UnknownExactly(s: Schema)
    requires TypeOf(s).Ok?
    ensures TypeOf(s).value == Unknown <==> Plain(s) && Blank(s)
  {
  }

  /** The value satisfies the keyword the emitter reads first, and at every depth: the
      named definition's listed properties, one of the options, the constant, a member
      of the enum, or the kind, an integer being any number. */
  ghost predicate Reads(defs: Definitions, s: Schema, v: Value)
    decreases v, s
  {
    if s.ref.Some? then
      && s.ref.value in defs && v.Obj?
      && (forall n :: n in defs[s.ref.value].required && Listed(defs[s.ref.value], n) ==> HasField(v, n))
      && (forall j, k | 0 <= j < |defs[s.ref.value].properties| && 0 <= k < |v.fields| &&
                        defs[s.ref.value].properties[j].name == v.fields[k].name ::
            Reads(defs, defs[s.ref.value].properties[j].schema, v.fields[k].value))
    else if s.anyOf.AnyOf? then exists k :: 0 <= k < |s.anyOf.options| && Reads(defs, s.anyOf.options[k], v)
    else if s.constant.Some? then v == s.constant.value
    else if s.choices.Some? then v in s.choices.value
    else
      && (s.kind == Some("null") ==> v.Null?)
      && (s.kind == Some("string") ==> v.Str?)
      && (s.kind == Some("integer") || s.kind == Some("number") ==> v.Int? || v.Float?)
      && (s.kind == Some("boolean") ==> v.Bool?)
      && (s.kind == Some("array") ==>
            v.Arr? && (s.items.Some? ==> forall k :: 0 <= k < |v.items| ==> Reads(defs, s.items.value, v.items[k])))
      && (s.kind == Some("object") ==>
            v.Obj? &&
            (s.values.Some? ==> forall k :: 0 <= k < |v.fields| ==> Reads(defs, s.values.value, v.fields[k].value)))
  }

  /** Every listed property of every definition has a type. */
  ghost predicate Translated(defs: Definitions) {
    forall name :: name in defs ==>
      forall j :: 0 <= j < |defs[name].properties| ==> TypeOf(defs[name].properties[j].schema).Ok?
  }

  lemma NamedHolds(defs: Definitions, s: Schema, v: Value)
    requires Translated(defs) && s.ref.Some?
    ensures Inhabits(defs, Named(s.ref.value), v) <==> Reads(defs, s, v)
    decreases v, s, 0
  {
    if s.ref.value in defs && v.Obj? {
      var d := defs[s.ref.value];
      forall j, k | 0 <= j < |d.properties| && 0 <= k < |v.fields| && d.properties[j].name == v.fields[k].name
        ensures Inhabits(defs, TypeOf(d.properties[j].schema).value, v.fields[k].value) <==>
                Reads(defs, d.properties[j].schema, v.fields[k].value)
      {
        HoldsExactly(defs, d.properties[j].schema, v.fields[k].value);
      }
    }
  }

  lemma UnionHolds(defs: Definitions, s: Schema, v: Value)
    requires Translated(defs) && IsUnion(s) && TypeOf(s).Ok?
    ensures Inhabits(defs, TypeOf(s).value, v) <==> Reads(defs, s, v)
    decreases v, s, 0
  {
    var options := TypeOf(s).value.options;
    forall k | 0 <= k < |options|
      ensures Inhabits(defs, options[k], v) <==> Reads(defs, s.anyOf.options[k], v)
    {
      HoldsExactly(defs, s.anyOf.options[k], v);
    }
  }

  lemma EnumHolds(defs: Definitions, s: Schema, v: Value)
    requires s.ref.None? && s.anyOf.NoAnyOf? && s.constant.None? && s.choices.Some?
    ensures Inhabits(defs, TypeOf(s).value, v) <==> v in s.choices.value
  {
    var options := TypeOf(s).value.options;
    if k :| 0 <= k < |options| && Inhabits(defs, options[k], v) {
      assert s.choices.value[k] == v;
    }
    if v in s.choices.value {
      var k :| 0 <= k < |s.choices.value| && s.choices.value[k] == v;
      assert Inhabits(defs, options[k], v);
    }
  }

  lemma ArrayHolds(defs: Definitions, s: Schema, v: Value)
    requires Translated(defs) && TypeOf(s).Ok? && Plain(s) && s.kind == Some("array")
    ensures Inhabits(defs, TypeOf(s).value, v) <==> Reads(defs, s, v)
    decreases v, s, 0
  {
    if v.Arr? && s.items.Some? {
      forall k | 0 <= k < |v.items|
        ensures Inhabits(defs, TypeOf(s).value.element, v.items[k]) <==> Reads(defs, s.items.value, v.items[k])
      {
        HoldsExactly(defs, s.items.value, v.items[k]);
      }
    }
  }

  lemma RecordHolds(defs: Definitions, s: Schema, v: Value)
    requires Translated(defs) && TypeOf(s).Ok? && Plain(s) && s.kind == Some("object")
    ensures Inhabits(defs, TypeOf(s).value, v) <==> Reads(defs, s, v)
    decreases v, s, 0
  {
    if v.Obj? && s.values.Some? {
      forall k | 0 <= k < |v.fields|
        ensures Inhabits(defs, TypeOf(s).value.element, v.fields[k].value) <==>
                Reads(defs, s.values.value, v.fields[k].value)
      {
        HoldsExactly(defs, s.values.value, v.fields[k].value);
      }
    }
  }

  /** The emitted type holds exactly the values that satisfy what the emitter read. */
  lemma {:induction false} HoldsExactly(defs: Definitions, s: Schema, v: Value)
    requires Translated(defs) && TypeOf(s).Ok?
    ensures Inhabits(defs, TypeOf(s).value, v) <==> Reads(defs, s, v)
    decreases v, s, 1
  {
    if s.ref.Some? {
      NamedHolds(defs, s, v);
    } else if s.anyOf.AnyOf? {
      UnionHolds(defs, s, v);
    } else if s.constant.Some? {
    } else if s.choices.Some? {
      EnumHolds(defs, s, v);
    } else if s.kind == Some("array") {
      ArrayHolds(defs, s, v);
    } else if s.kind == Some("object") {
      RecordHolds(defs, s, v);
    }
  }

  /** Every value the schema admits inhabits its type. */
  ghost predicate Sound(defs: Definitions, s: Schema)
    requires TypeOf(s).Ok?
  {
    forall v :: Admits(defs, s, v) ==> Inhabits(defs, TypeOf(s).value, v)
  }

  /** Each listed property only admits values that fit the map's element type too. */
  ghost predicate ListedFit(defs: Definitions, s: Schema)
    requires s.values.Some? && TypeOf(s.values.value).Ok?
  {
    forall name, x :: Listed(s, name) && AdmitsAt(defs, s, name, x) ==> Inhabits(defs, TypeOf(s.values.value).value, x)
  }

  lemma FieldFits(defs: Definitions, s: Schema, v: Value, k: nat)
    requires Emitted(defs) && s.values.Some? && TypeOf(s.values.value).Ok? && PlainMaps(s.values.value)
    requires ListedFit(defs, s) && v.Obj? && Admits(defs, s, v) && k < |v.fields|
    ensures Inhabits(defs, TypeOf(s.values.value).value, v.fields[k].value)
  {
    assert AdmitsAt(defs, s, v.fields[k].name, v.fields[k].value);
    if !Listed(s, v.fields[k].name) {
      AdmittedInhabits(defs, s.values.value, v.fields[k].value);
    }
  }

  lemma ListedMustFit(defs: Definitions, s: Schema, name: string, x: Value)
    requires Plain(s) && s.kind == Some("object") && s.values.Some? && TypeOf(s.values.value).Ok?
    requires Sound(defs, s) && Listed(s, name) && AdmitsAt(defs, s, name, x)
    ensures Inhabits(defs, TypeOf(s.values.value).value, x)
  {
    var v := Obj([Field(name, x)]);
    assert v.fields[0].name == name && v.fields[0].value == x;
    assert Admits(defs, s, v);
    assert Inhabits(defs, TypeOf(s).value, v);
  }

  /** A map's type is sound exactly when each property listed beside it fits the element
      type, which the emitter does not check. */
  lemma MapSoundExactly(defs: Definitions, s: Schema)
    requires Emitted(defs) && Plain(s) && s.kind == Some("object") && s.values.Some?
    requires TypeOf(s.values.value).Ok? && PlainMaps(s.values.value)
    ensures Sound(defs, s) <==> ListedFit(defs, s)
  {
    if Sound(defs, s) {
      forall name, x | Listed(s, name) && AdmitsAt(defs, s, name, x)
        ensures Inhabits(defs, TypeOf(s.values.value).value, x)
      {
        ListedMustFit(defs, s, name, x);
      }
    }
    if ListedFit(defs, s) {
      forall v | Admits(defs, s, v) ensures Inhabits(defs, TypeOf(s).value, v) {
        forall k | 0 <= k < |v.fields| ensures Inhabits(defs, TypeOf(s.values.value).value, v.fields[k].value) {
          FieldFits(defs, s, v, k);
        }
      }
    }
  }

  /** An object schema that lists a property beside `additionalProperties` is emitted as
      a map the listed property need not fit. */
  lemma ListedPropertyEscapesTheMap()
    ensures TypeOf(COUNTS_AND_A) == Ok(RecordOf(NumberType))
    ensures Admits(map[], COUNTS_AND_A, A_TEXT) && !Inhabits(map[], RecordOf(NumberType), A_TEXT)
  {
    CountsAdmitText();
    assert TypeOf(COUNT) == Ok(NumberType);
    assert A_TEXT.fields[0].value == Str("x") && !Inhabits(map[], NumberType, A_TEXT.fields[0].value);
  }

  lemma {:induction false} TypesOfFails(options: seq<Schema>)
    ensures TypesOf(options).Err? <==> exists k :: 0 <= k < |options| && TypeOf(options[k]).Err?
    decreases |options|
  {
    if options != [] {
      TypesOfFails(options[1..]);
      if TypesOf(options[1..]).Err? {
        var k :| 0 <= k < |options[1..]| && TypeOf(options[1..][k]).Err?;
        assert TypeOf(options[k + 1]).Err?;
      }
      if k :| 0 <= k < |options| && TypeOf(options[k]).Err? {
        if k > 0 { assert options[1..][k - 1] == options[k]; }
      }
    }
  }

  lemma {:induction false} RefusalHasANode(s: Schema) returns (node: Schema)
    requires TypeOf(s).Err?
    ensures Reaches(s, node) && Unlisted(node)
    decreases s
  {
    if IsUnion(s) {
      TypesOfFails(s.anyOf.options);
      var k :| 0 <= k < |s.anyOf.options| && TypeOf(s.anyOf.options[k]).Err?;
      node := RefusalHasANode(s.anyOf.options[k]);
    } else if s.kind == Some("array") {
      node := RefusalHasANode(s.items.value);
    } else if s.kind == Some("object") {
      node := RefusalHasANode(s.values.value);
    } else {
      node := s;
    }
  }

  lemma {:induction false} NodeIsRefused(s: Schema, node: Schema)
    requires Reaches(s, node) && Unlisted(node)
    ensures TypeOf(s).Err?
    decreases s
  {
    if node == s {
    } else if IsUnion(s) {
      var k :| 0 <= k < |s.anyOf.options| && Reaches(s.anyOf.options[k], node);
      NodeIsRefused(s.anyOf.options[k], node);
      TypesOfFails(s.anyOf.options);
    } else if s.kind == Some("array") {
      NodeIsRefused(s.items.value, node);
    } else {
      NodeIsRefused(s.values.value, node);
    }
  }

  /** A schema is refused exactly when some node the emitter descends to, at any depth,
      is of a shape outside its list: never guessed at, and never refused otherwise. */
  lemma RefusedExactly(s: Schema)
    ensures TypeOf(s).Err? <==> exists node :: Reaches(s, node) && Unlisted(node)
  {
    if TypeOf(s).Err? {
      var node := RefusalHasANode(s);
    }
    if node :| Reaches(s, node) && Unlisted(node) {
      NodeIsRefused(s, node);
    }
  }
}
