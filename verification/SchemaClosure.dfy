/**
  Which schemas the management contract carries
  (`_referenced_schemas` and `_refs_in`, contracts/management/v1/generate.py).
 */
module SchemaClosure {
  import opened Outcomes
  import opened Json

  const SCHEMA_PREFIX := "#/components/schemas/"

  /** `reference.rsplit("/", 1)[1]`, for a reference that holds a slash. */
  function AfterLastSlash(s: string): string {
    if s == "" || s[|s| - 1] == '/' then "" else AfterLastSlash(s[..|s| - 1]) + [s[|s| - 1]]
  }

  /** The schema an object node refers to, if it does. */
  function RefName(v: Value): Option<string> {
    if !v.Obj? then None
    else
      match Lookup(v.fields, "$ref")
      case Some(Str(reference)) => if SCHEMA_PREFIX <= reference then Some(AfterLastSlash(reference)) else None
      case _ => None
  }

  function RefsIn(v: Value): set<string> {
    var own := RefName(v);
    (if own.Some? then {own.value} else {}) +
    (match v
     case Obj(fields) => RefsInFields(fields)
     case Arr(items) => RefsInItems(items)
     case _ => {})
  }

  function RefsInFields(fields: seq<Field>): set<string> {
    if fields == [] then {} else RefsIn(fields[0].value) + RefsInFields(fields[1..])
  }

  function RefsInItems(items: seq<Value>): set<string> {
    if items == [] then {} else RefsIn(items[0]) + RefsInItems(items[1..])
  }

  /** A node of a document, at any depth. */
  ghost predicate Occurs(node: Value, v: Value)
    decreases v
  {
    || node == v
    || (v.Obj? && exists k :: 0 <= k < |v.fields| && Occurs(node, v.fields[k].value))
    || (v.Arr? && exists k :: 0 <= k < |v.items| && Occurs(node, v.items[k]))
  }

  lemma {:induction false} RefsInFieldsExact(fields: seq<Field>, name: string)
    ensures name in RefsInFields(fields) <==> exists k :: 0 <= k < |fields| && name in RefsIn(fields[k].value)
    decreases |fields|
  {
    if fields != [] {
      RefsInFieldsExact(fields[1..], name);
      if exists k :: 0 <= k < |fields[1..]| && name in RefsIn(fields[1..][k].value) {
        var k :| 0 <= k < |fields[1..]| && name in RefsIn(fields[1..][k].value);
        assert name in RefsIn(fields[k + 1].value);
      }
      if exists k :: 0 <= k < |fields| && name in RefsIn(fields[k].value) {
        var k :| 0 <= k < |fields| && name in RefsIn(fields[k].value);
        if k > 0 { assert fields[1..][k - 1] == fields[k]; }
      }
    }
  }

  lemma {:induction false} RefsInItemsExact(items: seq<Value>, name: string)
    ensures name in RefsInItems(items) <==> exists k :: 0 <= k < |items| && name in RefsIn(items[k])
    decreases |items|
  {
    if items != [] {
      RefsInItemsExact(items[1..], name);
      if exists k :: 0 <= k < |items[1..]| && name in RefsIn(items[1..][k]) {
        var k :| 0 <= k < |items[1..]| && name in RefsIn(items[1..][k]);
        assert name in RefsIn(items[k + 1]);
      }
      if exists k :: 0 <= k < |items| && name in RefsIn(items[k]) {
        var k :| 0 <= k < |items| && name in RefsIn(items[k]);
        if k > 0 { assert items[1..][k - 1] == items[k]; }
      }
    }
  }

  lemma {:induction false} RefsFromNodes(v: Value, name: string) returns (node: Value)
    requires name in RefsIn(v)
    ensures Occurs(node, v) && RefName(node) == Some(name)
    decreases v
  {
    if RefName(v) == Some(name) {
      node := v;
    } else if v.Obj? {
      RefsInFieldsExact(v.fields, name);
      var k :| 0 <= k < |v.fields| && name in RefsIn(v.fields[k].value);
      node := RefsFromNodes(v.fields[k].value, name);
    } else {
      RefsInItemsExact(v.items, name);
      var k :| 0 <= k < |v.items| && name in RefsIn(v.items[k]);
      node := RefsFromNodes(v.items[k], name);
    }
  }

  lemma {:induction false} NodesGiveRefs(v: Value, node: Value, name: string)
    requires Occurs(node, v) && RefName(node) == Some(name)
    ensures name in RefsIn(v)
    decreases v
  {
    if node == v {
    } else if v.Obj? {
      var k :| 0 <= k < |v.fields| && Occurs(node, v.fields[k].value);
      NodesGiveRefs(v.fields[k].value, node, name);
      RefsInFieldsExact(v.fields, name);
    } else {
      var k :| 0 <= k < |v.items| && Occurs(node, v.items[k]);
      NodesGiveRefs(v.items[k], node, name);
      RefsInItemsExact(v.items, name);
    }
  }

  // ----- said of the document alone -----

  predicate Slashless(s: string) {
    forall k :: 0 <= k < |s| ==> s[k] != '/'
  }

  /** An object whose "$ref" is this reference. */
  predicate IsRefTo(node: Value, reference: string) {
    node.Obj? && Lookup(node.fields, "$ref") == Some(Str(reference))
  }

  /** Somewhere in the document a "$ref" leads, by way of its last slash, to this name
      among the component schemas. */
  ghost predicate RefersTo(v: Value, name: string) {
    Slashless(name) &&
    exists node, head :: Occurs(node, v) && SCHEMA_PREFIX <= head + "/" + name && IsRefTo(node, head + "/" + name)
  }

  lemma {:induction false} SplitsAtLastSlash(head: string, name: string)
    requires Slashless(name)
    ensures AfterLastSlash(head + "/" + name) == name
    decreases |name|
  {
    var s := head + "/" + name;
    if name != "" {
      var init := name[..|name| - 1];
      assert s[..|s| - 1] == head + "/" + init && s[|s| - 1] == name[|name| - 1];
      SplitsAtLastSlash(head, init);
      assert init + [name[|name| - 1]] == name;
    } else {
      assert s[|s| - 1] == '/';
    }
  }

  lemma {:induction false} HasLastSlash(s: string) returns (head: string)
    requires exists k :: 0 <= k < |s| && s[k] == '/'
    ensures Slashless(AfterLastSlash(s)) && s == head + "/" + AfterLastSlash(s)
    decreases |s|
  {
    var last := s[|s| - 1];
    if last == '/' {
      head := s[..|s| - 1];
    } else {
      var k :| 0 <= k < |s| && s[k] == '/';
      assert s[..|s| - 1][k] == '/';
      head := HasLastSlash(s[..|s| - 1]);
      assert s == s[..|s| - 1] + [last];
    }
  }

  lemma NodeRefersExactly(node: Value, name: string)
    ensures RefName(node) == Some(name) <==>
              Slashless(name) &&
              exists head :: SCHEMA_PREFIX <= head + "/" + name && IsRefTo(node, head + "/" + name)
  {
    if RefName(node) == Some(name) {
      var reference := Lookup(node.fields, "$ref").value.s;
      assert reference[1] == '/';
      var head := HasLastSlash(reference);
      assert IsRefTo(node, head + "/" + name);
    }
    if head :| Slashless(name) && SCHEMA_PREFIX <= head + "/" + name && IsRefTo(node, head + "/" + name) {
      SplitsAtLastSlash(head, name);
    }
  }

  /** The scan finds exactly the names the document refers to, at any depth. */
  lemma RefsInExact(v: Value, name: string)
    ensures name in RefsIn(v) <==> RefersTo(v, name)
  {
    if name in RefsIn(v) {
      var node := RefsFromNodes(v, name);
      NodeRefersExactly(node, name);
    }
    if RefersTo(v, name) {
      var node, head :|
        Occurs(node, v) && SCHEMA_PREFIX <= head + "/" + name && IsRefTo(node, head + "/" + name);
      NodeRefersExactly(node, name);
      NodesGiveRefs(v, node, name);
    }
  }

  /** Holds every defined schema the paths refer to, and every defined schema its own members refer to. */
  ghost predicate Covers(names: set<string>, paths: Value, schemas: map<string, Value>) {
    && (forall n :: n in schemas && RefersTo(paths, n) ==> n in names)
    && (forall n, m :: n in names && n in schemas && m in schemas && RefersTo(schemas[n], m) ==> m in names)
  }

  /** The same, as the scan sees it. */
  ghost predicate CoversScan(names: set<string>, roots: set<string>, schemas: map<string, Value>) {
    && (forall n :: n in roots && n in schemas ==> n in names)
    && (forall n, m :: n in names && n in schemas && m in RefsIn(schemas[n]) && m in schemas ==> m in names)
  }

  lemma CoversAsScanned(names: set<string>, paths: Value, schemas: map<string, Value>)
    ensures Covers(names, paths, schemas) <==> CoversScan(names, RefsIn(paths), schemas)
  {
    forall n ensures n in RefsIn(paths) <==> RefersTo(paths, n) {
      RefsInExact(paths, n);
    }
    forall n, m | n in schemas ensures m in RefsIn(schemas[n]) <==> RefersTo(schemas[n], m) {
      RefsInExact(schemas[n], m);
    }
  }

  lemma LeastAsScanned(kept: set<string>, paths: Value, schemas: map<string, Value>)
    requires CoversScan(kept, RefsIn(paths), schemas)
    requires forall names: set<string> :: CoversScan(names, RefsIn(paths), schemas) ==> kept <= names
    ensures Covers(kept, paths, schemas)
    ensures forall names: set<string> :: Covers(names, paths, schemas) ==> kept <= names
  {
    CoversAsScanned(kept, paths, schemas);
    forall names: set<string> | Covers(names, paths, schemas) ensures kept <= names {
      CoversAsScanned(names, paths, schemas);
    }
  }

  /** The collector.  Whatever order names are popped in, it ends, and it returns the
      least covering set of defined schemas, each with its own definition; reference
      cycles and undefined names included. */
  method ReferencedSchemas(paths: Value, schemas: map<string, Value>) returns (kept: map<string, Value>)
    ensures forall n :: n in kept ==> n in schemas && kept[n] == schemas[n]
    ensures Covers(kept.Keys, paths, schemas)
    ensures forall names: set<string> :: Covers(names, paths, schemas) ==> kept.Keys <= names
  {
    var pending := RefsIn(paths);
    kept := map[];
    while pending != {}
      invariant forall n :: n in kept ==> n in schemas && kept[n] == schemas[n]
      invariant forall n :: n in RefsIn(paths) && n in schemas ==> n in kept || n in pending
      invariant forall n, m :: n in kept && m in RefsIn(schemas[n]) && m in schemas ==> m in kept || m in pending
      invariant forall names: set<string> :: CoversScan(names, RefsIn(paths), schemas) ==>
                  kept.Keys <= names && forall n :: n in pending && n in schemas ==> n in names
      decreases schemas.Keys - kept.Keys, pending
    {
      var name :| name in pending;
      pending := pending - {name};
      if name !in kept && name in schemas {
        ghost var missing := schemas.Keys - kept.Keys;
        kept := kept[name := schemas[name]];
        assert name in missing && schemas.Keys - kept.Keys == missing - {name};
        pending := pending + RefsIn(schemas[name]);
      }
    }
    LeastAsScanned(kept.Keys, paths, schemas);
  }
}
