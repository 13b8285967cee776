/** JSON values, as the contract generators read and describe them. */
module Json {
  import opened Outcomes

  /** Object fields are in document order; a parsed document holds no name twice. */
  datatype Value =
    | Null
    | Bool(b: bool)
    | Int(i: int)
    | Float(r: real)
    | Str(s: string)
    | Arr(items: seq<Value>)
    | Obj(fields: seq<Field>)

  datatype Field = Field(name: string, value: Value)

  function Lookup(fields: seq<Field>, name: string): (v: Option<Value>)
    ensures v.Some? ==> exists k :: 0 <= k < |fields| && fields[k] == Field(name, v.value)
    ensures v.None? ==> forall k :: 0 <= k < |fields| ==> fields[k].name != name
  {
    if fields == [] then None
    else if fields[0].name == name then Some(fields[0].value)
    else
      var v := Lookup(fields[1..], name);
      assert v.Some? ==> exists k :: 0 <= k < |fields| && fields[k] == Field(name, v.value) by {
        if v.Some? {
          var k :| 0 <= k < |fields[1..]| && fields[1..][k] == Field(name, v.value);
          assert fields[k + 1] == Field(name, v.value);
        }
      }
      v
  }
}
