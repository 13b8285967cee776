/**
  The contract's client types: the JSON schemas of the management contract, and the
  TypeScript and Dart types emitted for them
  (contracts/management/v1/generate_typescript.py and generate_dart.py).

  A schema is its keywords.  What it admits is every keyword's constraint at once; a
  keyword the model does not name (`pattern`, `minimum`, ...) can only admit less.
  The emitters look at the keywords in a fixed order and translate the first they know.
 */
module Schemas {
  import opened Outcomes
  import opened Json

  datatype Schema = Schema(
    ref: Option<string>,           // "$ref", as the schema name it ends in
    anyOf: Alternatives,
    constant: Option<Value>,       // "const"
    choices: Option<seq<Value>>,   // "enum"
    kind: Option<string>,          // "type"
    items: Option<Schema>,
    values: Option<Schema>,        // "additionalProperties", when it is a schema
    properties: seq<Property>,
    required: set<string>,
    others: set<string>)           // every other keyword present

  /** The `anyOf` keyword, if present. */
  datatype Alternatives = NoAnyOf | AnyOf(options: seq<Schema>)

  datatype Property = Property(name: string, schema: Schema)

  type Definitions = map<string, Schema>

  const ANY_VALUE := Schema(None, NoAnyOf, None, None, None, None, None, [], {}, {})
  const TEXT := ANY_VALUE.(kind := Some("string"))

  /** A name, a description and nothing else: any value. */
  predicate Blank(s: Schema) {
    && s.kind.None? && s.items.None? && s.values.None? && s.properties == [] && s.required == {}
    && s.others <= {"title", "description"}
  }

  predicate IsUnion(s: Schema) {
    s.ref.None? && s.anyOf.AnyOf?
  }

  /** Decided by its type alone. */
  predicate Plain(s: Schema) {
    s.ref.None? && s.anyOf.NoAnyOf? && s.constant.None? && s.choices.None?
  }

  /** A node an emitter descends to: the schema itself, a union's options, a list's items,
      a map's values, at any depth. */
  ghost predicate Reaches(s: Schema, node: Schema)
    decreases s
  {
    || node == s
    || (IsUnion(s) && exists k :: 0 <= k < |s.anyOf.options| && Reaches(s.anyOf.options[k], node))
    || (Plain(s) && s.kind == Some("array") && s.items.Some? && Reaches(s.items.value, node))
    || (Plain(s) && s.kind == Some("object") && s.values.Some? && Reaches(s.values.value, node))
  }

  /** A shape neither emitter lists. */
  predicate Unlisted(s: Schema) {
    && Plain(s) && !Blank(s)
    && s.kind !in {Some("null"), Some("string"), Some("integer"), Some("number"), Some("boolean"),
                   Some("array"), Some("object")}
  }

  ghost predicate HasField(v: Value, name: string) {
    v.Obj? && exists k :: 0 <= k < |v.fields| && v.fields[k].name == name
  }

  ghost predicate Listed(s: Schema, name: string) {
    exists k :: 0 <= k < |s.properties| && s.properties[k].name == name
  }

  ghost predicate KindAdmits(kind: string, v: Value) {
    && (kind == "null" ==> v.Null?)
    && (kind == "string" ==> v.Str?)
    && (kind == "integer" ==> v.Int?)
    && (kind == "number" ==> v.Int? || v.Float?)
    && (kind == "boolean" ==> v.Bool?)
    && (kind == "array" ==> v.Arr?)
    && (kind == "object" ==> v.Obj?)
  }

  /** What a schema admits.  A reference admits what the named object schema says of
      its properties. */
  ghost predicate Admits(defs: Definitions, s: Schema, v: Value)
    decreases v, s, 0
  {
    && (s.ref.Some? ==>
          s.ref.value in defs && v.Obj? &&
          var d := defs[s.ref.value];
          && (forall name :: name in d.required ==> HasField(v, name))
          && (forall j, k | 0 <= j < |d.properties| && 0 <= k < |v.fields| &&
                            d.properties[j].name == v.fields[k].name ::
                Admits(defs, d.properties[j].schema, v.fields[k].value)))
    && (s.anyOf.AnyOf? ==> exists k :: 0 <= k < |s.anyOf.options| && Admits(defs, s.anyOf.options[k], v))
    && (s.constant.Some? ==> v == s.constant.value)
    && (s.choices.Some? ==> v in s.choices.value)
    && (s.kind.Some? ==> KindAdmits(s.kind.value, v))
    && (s.items.Some? && v.Arr? ==> forall k :: 0 <= k < |v.items| ==> Admits(defs, s.items.value, v.items[k]))
    && (s.values.Some? && v.Obj? ==>
          forall k :: 0 <= k < |v.fields| && !Listed(s, v.fields[k].name) ==>
            Admits(defs, s.values.value, v.fields[k].value))
    && (v.Obj? ==> forall k :: 0 <= k < |v.fields| ==> AdmitsAt(defs, s, v.fields[k].name, v.fields[k].value))
  }

  /** What every property listed under this name admits. */
  ghost predicate AdmitsAt(defs: Definitions, s: Schema, name: string, v: Value)
    decreases v, s, 1
  {
    forall j :: 0 <= j < |s.properties| && s.properties[j].name == name ==> Admits(defs, s.properties[j].schema, v)
  }

  const COUNT := ANY_VALUE.(kind := Some("integer"))
  const COUNTS_AND_A := ANY_VALUE.(kind := Some("object"), values := Some(COUNT), properties := [Property("a", TEXT)])
  const A_TEXT := Obj([Field("a", Str("x"))])

  /** A listed property beside a value schema it does not satisfy. */
  lemma CountsAdmitText()
    ensures Admits(map[], COUNTS_AND_A, A_TEXT)
  {
    assert COUNTS_AND_A.properties[0].name == "a" && Listed(COUNTS_AND_A, "a");
    assert Admits(map[], TEXT, Str("x"));
    assert AdmitsAt(map[], COUNTS_AND_A, "a", Str("x"));
  }

  /** Wherever a map type is emitted from `additionalProperties`, no property is listed
      beside it: a listed property would escape the value schema. */
  predicate PlainMaps(s: Schema) {
    && (s.kind == Some("object") && s.values.Some? ==> s.properties == [])
    && (s.anyOf.AnyOf? ==> forall k :: 0 <= k < |s.anyOf.options| ==> PlainMaps(s.anyOf.options[k]))
    && (s.items.Some? ==> PlainMaps(s.items.value))
    && (s.values.Some? ==> PlainMaps(s.values.value))
  }
}
