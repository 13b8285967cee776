/**
  Opening a removal ledger file of any age
  (`_initialize` and `_migrate_*`,
  server/eidolon_admin_server/app/control_plane/removal_intents.py).

  Each migration is one transaction: it commits whole or leaves the file as it was.
 */
module LedgerMigration {
  import opened Outcomes

  datatype Column =
    | IntentId | IngressRequestId | OwnerDomainId | DeviceId | OwnerDomainGeneration
    | ClaimGeneration | TrustEpoch | DeviceRefJson | ActorControllerId | WorkloadPrincipalId
    | ControllerResetEpoch | AuthorizationContextJson | AuthorizationContextSha256 | Reason
    | HubCommandId | State | HubResultJson | CreatedAt | UpdatedAt
    | Foreign(name: string)

  /** A stored value; the device reference is kept as what its JSON says of the generation, and the rest. */
  datatype Cell = Text(text: string) | Number(number: int) | DeviceRef(generation: Option<int>, rest: string)

  type Row = map<Column, Cell>

  /** Columns in table order, the unique indexes, and the rows. */
  datatype Table = Table(columns: seq<Column>, unique: set<seq<Column>>, rows: seq<Row>)

  datatype File = File(table: Option<Table>, version: int)

  datatype Refusal = SchemaUnknown | NeedsOfflineMigration | SqlError | SchemaPartial | ConstraintUnknown

  const COLUMNS: set<Column> := {
    IntentId, IngressRequestId, OwnerDomainId, DeviceId, OwnerDomainGeneration, ClaimGeneration, TrustEpoch,
    DeviceRefJson, ActorControllerId, WorkloadPrincipalId, ControllerResetEpoch, AuthorizationContextJson,
    AuthorizationContextSha256, Reason, HubCommandId, State, HubResultJson, CreatedAt, UpdatedAt}

  /** What the first two migrations expect to find. */
  const LEGACY: set<Column> :=
    COLUMNS - {OwnerDomainGeneration, WorkloadPrincipalId, ControllerResetEpoch, AuthorizationContextSha256}

  const VERSION_2: set<Column> := COLUMNS - {OwnerDomainGeneration, AuthorizationContextJson}

  const VERSION_3: set<Column> := COLUMNS - {OwnerDomainGeneration}

  /** The number of columns of the table the first migration copies into. */
  const V1_COLUMN_COUNT := 14

  const REQUEST_KEY := [OwnerDomainId, IngressRequestId]

  const DRAFT_KEY := [OwnerDomainId, DeviceId, ClaimGeneration, IngressRequestId]

  function ColumnSet(t: Table): set<Column> {
    set c | c in t.columns
  }

  function Fresh(): Table {
    Table([IntentId, IngressRequestId, OwnerDomainId, DeviceId, OwnerDomainGeneration, ClaimGeneration, TrustEpoch,
           DeviceRefJson, ActorControllerId, WorkloadPrincipalId, ControllerResetEpoch, AuthorizationContextJson,
           AuthorizationContextSha256, Reason, HubCommandId, State, HubResultJson, CreatedAt, UpdatedAt],
          {[IntentId], [HubCommandId], REQUEST_KEY}, [])
  }

  // ----- the migrations -----

  /** Version 0: copy every column into a table with `V1_COLUMN_COUNT` columns.  `SELECT *`
      must supply exactly as many values. */
  function MigrateDraft(t: Table): Result<Table, Refusal> {
    if ColumnSet(t) != LEGACY || DRAFT_KEY !in t.unique then Err(SchemaUnknown)
    else if |t.columns| != V1_COLUMN_COUNT then Err(SqlError)
    else Ok(t.(unique := {[IntentId], [HubCommandId], REQUEST_KEY}))
  }

  function AddColumn(t: Table, c: Column, default: Cell): Table {
    t.(columns := t.columns + [c], rows := seq(|t.rows|, k requires 0 <= k < |t.rows| => t.rows[k][c := default]))
  }

  function MigrateAuthorization(t: Table): Result<Table, Refusal> {
    if ColumnSet(t) != LEGACY then Err(SchemaUnknown)
    else if t.rows != [] then Err(NeedsOfflineMigration)
    else Ok(AddColumn(AddColumn(AddColumn(t, WorkloadPrincipalId, Text("")), ControllerResetEpoch, Number(0)),
                      AuthorizationContextSha256, Text("")))
  }

  function MigrateBytes(t: Table): Result<Table, Refusal> {
    if ColumnSet(t) != VERSION_2 then Err(SchemaUnknown)
    else if t.rows != [] then Err(NeedsOfflineMigration)
    else Ok(AddColumn(t, AuthorizationContextJson, Text("")))
  }

  /** `json_set(device_ref_json, '$.owner_domain_generation', 1)`. */
  function WithGeneration(row: Row): Row {
    if DeviceRefJson in row && row[DeviceRefJson].DeviceRef?
    then row[DeviceRefJson := row[DeviceRefJson].(generation := Some(1))] else row
  }

  function MigrateGeneration(t: Table): Result<Table, Refusal> {
    if ColumnSet(t) != VERSION_3 then Err(SchemaUnknown)
    else
      var widened := AddColumn(t, OwnerDomainGeneration, Number(1));
      Ok(widened.(rows := seq(|widened.rows|, k requires 0 <= k < |widened.rows| => WithGeneration(widened.rows[k]))))
  }

  /** One migration, if this version has one: the refusal leaves the file as it was. */
  function MigrateFrom(version: int, t: Table): Result<Table, Refusal> {
    match version
    case 0 => MigrateDraft(t)
    case 1 => MigrateAuthorization(t)
    case 2 => MigrateBytes(t)
    case 3 => MigrateGeneration(t)
    case _ => Err(SchemaUnknown)
  }

  /** The migrations in turn, up to version 4; a refusal keeps what earlier ones committed. */
  function MigrateAll(t: Table, version: int): (Option<Refusal>, File)
    decreases if 0 <= version <= 4 then 4 - version else 0
  {
    if version == 4 then (None, File(Some(t), 4))
    else if !(0 <= version < 4) then (Some(SchemaUnknown), File(Some(t), version))
    else
      match MigrateFrom(version, t)
      case Err(e) => (Some(e), File(Some(t), version))
      case Ok(t') => MigrateAll(t', version + 1)
  }

  function Checked(t: Table): Option<Refusal> {
    if ColumnSet(t) != COLUMNS then Some(SchemaPartial)
    else if REQUEST_KEY !in t.unique then Some(ConstraintUnknown)
    else None
  }

  function Open(f: File): (Option<Refusal>, File) {
    match f.table
    case None => (None, File(Some(Fresh()), 4))
    case Some(t) =>
      var (refused, f') := MigrateAll(t, f.version);
      if refused.Some? || f'.table.None? then (refused, f') else (Checked(f'.table.value), f')
  }

  // ----- what opening promises -----

  /** A table names no column twice, and its rows fill its columns. */
  ghost predicate WellFormed(t: Table) {
    && (forall i, j :: 0 <= i < j < |t.columns| ==> t.columns[i] != t.columns[j])
    && (forall k :: 0 <= k < |t.rows| ==> t.rows[k].Keys == ColumnSet(t))
    && (forall k :: 0 <= k < |t.rows| && DeviceRefJson in t.rows[k] ==> t.rows[k][DeviceRefJson].DeviceRef?)
  }

  /** Nothing the old row said is lost or changed, but for the generation inside its device reference. */
  ghost predicate Carries(row: Row, row': Row) {
    forall c :: c in row ==>
      c in row' &&
      (row'[c] == row[c] ||
       (c == DeviceRefJson && row[c].DeviceRef? && row'[c] == row[c].(generation := Some(1))))
  }

  ghost predicate KeepsRows(t: Table, t': Table) {
    |t'.rows| == |t.rows| && forall k :: 0 <= k < |t.rows| ==> Carries(t.rows[k], t'.rows[k])
  }

  const LEGACY_KEYS: set<Column> := {IntentId, IngressRequestId, OwnerDomainId, DeviceId, ClaimGeneration}

  const LEGACY_SUBJECT: set<Column> := {TrustEpoch, DeviceRefJson, ActorControllerId, AuthorizationContextJson, Reason}

  const LEGACY_PROGRESS: set<Column> := {HubCommandId, State, HubResultJson, CreatedAt, UpdatedAt}

  lemma LegacyParts()
    ensures LEGACY == LEGACY_KEYS + LEGACY_SUBJECT + LEGACY_PROGRESS
  {
  }

  lemma PartSizes()
    ensures |LEGACY_KEYS| == 5 && |LEGACY_SUBJECT| == 5 && |LEGACY_PROGRESS| == 5
  {
  }

  lemma PartsDisjoint()
    ensures LEGACY_KEYS !! LEGACY_SUBJECT && (LEGACY_KEYS + LEGACY_SUBJECT) !! LEGACY_PROGRESS
  {
  }

  lemma DisjointSizes(a: set<Column>, b: set<Column>, c: set<Column>)
    requires a !! b && (a + b) !! c
    ensures |a + b + c| == |a| + |b| + |c|
  {
  }

  lemma LegacySize()
    ensures |LEGACY| == 15
  {
    LegacyParts();
    PartSizes();
    PartsDisjoint();
    DisjointSizes(LEGACY_KEYS, LEGACY_SUBJECT, LEGACY_PROGRESS);
  }

  lemma {:induction false} ColumnCount(columns: seq<Column>)
    requires forall i, j :: 0 <= i < j < |columns| ==> columns[i] != columns[j]
    ensures |set c | c in columns| == |columns|
  {
    var all := set c | c in columns;
    if columns != [] {
      var init, last := columns[..|columns| - 1], columns[|columns| - 1];
      ColumnCount(init);
      var fewer := set c | c in init;
      assert columns == init + [last];
      assert all == fewer + {last};
      assert last !in fewer;
    } else {
      assert all == {};
    }
  }

  /** The first migration cannot succeed: what it accepts has one column more than the
      table it copies into. */
  lemma DraftNeverMigrates(t: Table)
    requires WellFormed(t)
    ensures MigrateDraft(t).Err?
  {
    LegacySize();
    ColumnCount(t.columns);
  }

  lemma AddedColumns(t: Table, c: Column, default: Cell)
    ensures ColumnSet(AddColumn(t, c, default)) == ColumnSet(t) + {c}
  {
  }

  /** Version 1 cannot get past version 2: its expected columns still include the
      context bytes that the next migration expects to be missing. */
  lemma LegacyStopsAtTwo(t: Table)
    requires MigrateAuthorization(t).Ok?
    ensures MigrateBytes(MigrateAuthorization(t).value).Err?
  {
    var t1 := AddColumn(t, WorkloadPrincipalId, Text(""));
    var t2 := AddColumn(t1, ControllerResetEpoch, Number(0));
    AddedColumns(t, WorkloadPrincipalId, Text(""));
    AddedColumns(t1, ControllerResetEpoch, Number(0));
    AddedColumns(t2, AuthorizationContextSha256, Text(""));
    assert AuthorizationContextJson in LEGACY;
    assert AuthorizationContextJson !in VERSION_2;
  }

  lemma BytesReachThree(t: Table)
    requires MigrateBytes(t).Ok?
    ensures ColumnSet(MigrateBytes(t).value) == VERSION_3 && MigrateBytes(t).value.rows == []
    ensures MigrateBytes(t).value.unique == t.unique
  {
    AddedColumns(t, AuthorizationContextJson, Text(""));
    assert VERSION_2 + {AuthorizationContextJson} == VERSION_3;
  }

  lemma GenerationReachesFour(t: Table)
    requires MigrateGeneration(t).Ok?
    ensures ColumnSet(MigrateGeneration(t).value) == COLUMNS && MigrateGeneration(t).value.unique == t.unique
  {
    AddedColumns(t, OwnerDomainGeneration, Number(1));
    assert VERSION_3 + {OwnerDomainGeneration} == COLUMNS;
    assert MigrateGeneration(t).value.columns == AddColumn(t, OwnerDomainGeneration, Number(1)).columns;
  }

  /** The ledgers that open: none yet, the current one, version 3, and version 2 if it is
      empty; each with the request-uniqueness index.  In particular versions 0 and 1
      never do. */
  predicate Openable(f: File) {
    f.table.Some? ==>
      && REQUEST_KEY in f.table.value.unique
      && (|| (f.version == 4 && ColumnSet(f.table.value) == COLUMNS)
          || (f.version == 3 && ColumnSet(f.table.value) == VERSION_3)
          || (f.version == 2 && ColumnSet(f.table.value) == VERSION_2 && f.table.value.rows == []))
  }

  lemma MigratesFromThree(t: Table)
    ensures ColumnSet(t) == VERSION_3 ==> MigrateAll(t, 3) == (None, File(Some(MigrateGeneration(t).value), 4))
    ensures ColumnSet(t) != VERSION_3 ==> MigrateAll(t, 3) == (Some(SchemaUnknown), File(Some(t), 3))
  {
  }

  lemma MigratesFromTwo(t: Table)
    ensures MigrateBytes(t).Ok? ==> MigrateAll(t, 2) == MigrateAll(MigrateBytes(t).value, 3)
    ensures MigrateBytes(t).Err? ==> MigrateAll(t, 2) == (Some(MigrateBytes(t).error), File(Some(t), 2))
  {
  }

  lemma NeverFromOne(t: Table)
    ensures MigrateAll(t, 1).0.Some? && MigrateAll(t, 1).1.table.Some? && MigrateAll(t, 1).1.version < 4
    ensures MigrateAll(t, 1).1.table.value == t ||
            (MigrateAuthorization(t).Ok? && MigrateAll(t, 1).1.table.value == MigrateAuthorization(t).value)
  {
    if MigrateAuthorization(t).Ok? {
      LegacyStopsAtTwo(t);
      MigratesFromTwo(MigrateAuthorization(t).value);
    }
  }

  /** Opening succeeds exactly on those, and then ends at version 4 with exactly the
      expected columns and the request-uniqueness index. */
  lemma OpensExactly(f: File)
    requires f.table.Some? ==> WellFormed(f.table.value)
    ensures Open(f).0.None? <==> Openable(f)
    ensures Open(f).0.None? ==>
              Open(f).1.version == 4 && Open(f).1.table.Some? &&
              ColumnSet(Open(f).1.table.value) == COLUMNS && REQUEST_KEY in Open(f).1.table.value.unique
  {
    if f.table.None? {
      assert ColumnSet(Fresh()) == COLUMNS;
    } else {
      var t := f.table.value;
      if f.version == 0 {
        DraftNeverMigrates(t);
      } else if f.version == 1 {
        NeverFromOne(t);
      } else if f.version == 2 {
        MigratesFromTwo(t);
        if MigrateBytes(t).Ok? {
          BytesReachThree(t);
          MigratesFromThree(MigrateBytes(t).value);
          GenerationReachesFour(MigrateBytes(t).value);
        }
      } else if f.version == 3 {
        MigratesFromThree(t);
        if MigrateGeneration(t).Ok? {
          GenerationReachesFour(t);
        }
      }
    }
  }

  /** A ledger that does not exist yet is created empty, with its three keys. */
  lemma NewLedger(version: int)
    ensures Open(File(None, version)).0 == None
    ensures
      var t := Open(File(None, version)).1.table.value;
      && t.rows == [] && ColumnSet(t) == COLUMNS
      && t.unique == {[IntentId], [HubCommandId], [OwnerDomainId, IngressRequestId]}
  {
    assert ColumnSet(Fresh()) == COLUMNS;
  }

  /** A ledger that would need its rows' authorization invented is refused as such, and
      left exactly as it was. */
  lemma NeedsOfflineExactly(t: Table, version: int)
    requires version == 1 || version == 2
    ensures MigrateFrom(version, t) == Err(NeedsOfflineMigration) <==>
              ColumnSet(t) == (if version == 1 then LEGACY else VERSION_2) && t.rows != []
    ensures MigrateFrom(version, t) == Err(NeedsOfflineMigration) ==>
              Open(File(Some(t), version)) == (Some(NeedsOfflineMigration), File(Some(t), version))
  {
  }

  // ----- rows -----

  lemma EmptyKeeps(t: Table, t': Table)
    requires t.rows == [] && t'.rows == []
    ensures KeepsRows(t, t')
  {
  }

  lemma GenerationKeeps(t: Table)
    requires WellFormed(t) && MigrateGeneration(t).Ok?
    ensures KeepsRows(t, MigrateGeneration(t).value)
    ensures forall k :: 0 <= k < |t.rows| ==>
              var row := MigrateGeneration(t).value.rows[k];
              OwnerDomainGeneration in row && row[OwnerDomainGeneration] == Number(1) &&
              DeviceRefJson in row && row[DeviceRefJson].DeviceRef? && row[DeviceRefJson].generation == Some(1)
  {
  }

  lemma AuthorizationKeeps(t: Table)
    requires MigrateAuthorization(t).Ok?
    ensures KeepsRows(t, MigrateAuthorization(t).value)
  {
  }

  /** Opened or refused, no row is lost and none changes but for the generation in its
      device reference; and the generation column is the only one ever filled in for an
      existing row: no authorization context, hash, principal or epoch is invented. */
  lemma OpeningKeepsEveryRow(f: File)
    requires f.table.Some? && WellFormed(f.table.value)
    ensures Open(f).1.table.Some? && KeepsRows(f.table.value, Open(f).1.table.value)
    ensures forall k :: 0 <= k < |f.table.value.rows| ==>
              Open(f).1.table.value.rows[k].Keys <= f.table.value.rows[k].Keys + {OwnerDomainGeneration}
  {
    var t := f.table.value;
    if f.version == 0 {
      DraftNeverMigrates(t);
    } else if f.version == 1 {
      NeverFromOne(t);
      if MigrateAuthorization(t).Ok? { AuthorizationKeeps(t); }
    } else if f.version == 2 {
      MigratesFromTwo(t);
      if MigrateBytes(t).Ok? {
        BytesReachThree(t);
        MigratesFromThree(MigrateBytes(t).value);
        EmptyKeeps(t, MigrateGeneration(MigrateBytes(t).value).value);
      }
    } else if f.version == 3 {
      MigratesFromThree(t);
      if MigrateGeneration(t).Ok? {
        GenerationKeeps(t);
        forall k | 0 <= k < |t.rows|
          ensures MigrateGeneration(t).value.rows[k].Keys <= t.rows[k].Keys + {OwnerDomainGeneration}
        {
          assert t.rows[k].Keys == ColumnSet(t);
        }
      }
    }
  }

  /** The generation column agrees with the device reference. */
  ghost predicate GenerationsAgree(t: Table) {
    forall k :: 0 <= k < |t.rows| ==>
      OwnerDomainGeneration in t.rows[k] && DeviceRefJson in t.rows[k] && t.rows[k][DeviceRefJson].DeviceRef? &&
      t.rows[k][DeviceRefJson].generation.Some? &&
      t.rows[k][OwnerDomainGeneration] == Number(t.rows[k][DeviceRefJson].generation.value)
  }

  /** After a successful opening every row's generation column equals the one in its
      device reference, except exactly where a file already current disagreed. */
  lemma GenerationsAgreeAfterOpening(f: File)
    requires Openable(f)
    requires f.table.Some? ==> WellFormed(f.table.value)
    ensures Open(f).1.table.Some?
    ensures GenerationsAgree(Open(f).1.table.value) <==>
              (f.table.Some? && f.version == 4 ==> GenerationsAgree(f.table.value))
  {
  }

  class SqliteLedgerFile {
    var file: File

    constructor (file: File)
      ensures this.file == file
    {
      this.file := file;
    }

    /** `_initialize`: the migrations one after the other, each committed before the next. */
    method Initialize() returns (refused: Option<Refusal>)
      modifies this
      ensures (refused, file) == Open(old(file))
    {
      if file.table.None? {
        file := File(Some(Fresh()), 4);
        return None;
      }
      while 0 <= file.version < 4
        invariant file.table.Some?
        invariant MigrateAll(file.table.value, file.version) == MigrateAll(old(file).table.value, old(file).version)
        decreases if 0 <= file.version <= 4 then 4 - file.version else 0
      {
        var migrated := MigrateFrom(file.version, file.table.value);
        if migrated.Err? {
          return Some(migrated.error);
        }
        file := File(Some(migrated.value), file.version + 1);
      }
      if file.version != 4 {
        return Some(SchemaUnknown);
      }
      refused := Checked(file.table.value);
    }
  }
}
