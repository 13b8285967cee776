/**
  The removal ledger's two stores and its id derivation
  (server/eidolon_admin_server/app/control_plane/removal_intents.py,
  lifecycle_workflow/protocol.py).

  `uuid5` and SHA-256 are parameters.  What the theorems need of them is that they
  do not collide and that a UUID's hex form holds no colon.
 */
module ColonNames {
  import opened IntentLedger

  datatype Hashes = Hashes(uuid5: string -> string, sha256: string -> string)

  ghost predicate Injective(f: string -> string) {
    forall x, y :: f(x) == f(y) ==> x == y
  }

  ghost predicate NoColons(f: string -> string) {
    forall x :: ColonFree(f(x))
  }

  /** A colon-free head can be read back off a colon-joined string. */
  lemma HeadIsUnique(a: string, x: string, b: string, y: string)
    requires ColonFree(a) && ColonFree(b) && a + ":" + x == b + ":" + y
    ensures a == b && x == y
  {
    var s := a + ":" + x;
    assert s[|a|] == ':' && s[|b|] == ':';
    assert forall k :: 0 <= k < |a| ==> s[k] == a[k];
    assert forall k :: 0 <= k < |b| ==> s[k] == b[k];
    assert |a| == |b|;
    assert a == s[..|a|] && x == s[|a| + 1..];
    assert b == s[..|b|] && y == s[|b| + 1..];
  }

  /** Without that promise, two heads collide for some tails exactly when one of them,
      followed by a colon, begins the other. */
  lemma HeadsCollideExactly(a: string, b: string)
    requires a != b
    ensures (exists x, y :: a + ":" + x == b + ":" + y) <==> (a + ":" <= b || b + ":" <= a)
  {
    if a + ":" <= b {
      var x := b[|a| + 1..] + ":";
      assert a + ":" + x == b + ":" + "";
    }
    if b + ":" <= a {
      var y := a[|b| + 1..] + ":";
      assert a + ":" + "" == b + ":" + y;
    }
    forall x, y | a + ":" + x == b + ":" + y ensures a + ":" <= b || b + ":" <= a {
      var s := a + ":" + x;
      assert a == s[..|a|] && b == s[..|b|];
      assert s[|a|] == ':' && s[|b|] == ':';
      if |a| < |b| {
        assert a + ":" == s[..|a| + 1];
      } else if |b| < |a| {
        assert b + ":" == s[..|b| + 1];
      }
    }
  }

  /** A colon-free tail can be read back too. */
  lemma TailIsUnique(a: string, x: string, b: string, y: string)
    requires ColonFree(x) && ColonFree(y) && a + ":" + x == b + ":" + y
    ensures a == b && x == y
  {
    var s := a + ":" + x;
    assert s[|s| - 1 - |x|] == ':' && s[|s| - 1 - |y|] == ':';
    assert forall k :: 0 <= k < |x| ==> s[|s| - |x| + k] == x[k];
    assert forall k :: 0 <= k < |y| ==> s[|s| - |y| + k] == y[k];
    assert |x| == |y|;
    assert a == s[..|a|] && x == s[|a| + 1..];
    assert b == s[..|b|] && y == s[|b| + 1..];
  }

  lemma Stripped(prefix: string, a: string, b: string)
    requires prefix + a == prefix + b
    ensures a == b
  {
    assert a == (prefix + a)[|prefix|..] && b == (prefix + b)[|prefix|..];
  }
}

module RemovalIntents {
  import opened Outcomes
  import opened IntentLedger
  import opened ColonNames

  datatype DeviceRef = DeviceRef(
    deviceInstanceId: string,
    ownerDomainId: string,
    ownerDomainGeneration: int,
    claimGeneration: int,
    trustEpoch: int)

  /** Everything a retried request must repeat. */
  datatype RemovalContent = RemovalContent(
    deviceRef: DeviceRef,
    actorControllerId: string,
    workloadPrincipalId: string,
    controllerResetEpoch: int,
    authorizationContextJson: string,
    authorizationContextSha256: string,
    reason: string)

  datatype HubClaimRevocationResult = HubClaimRevocationResult(
    outcome: string, aggregateRevision: int, occurredAt: int, eventId: string)

  type RemovalIntent = Intent<RemovalContent, HubClaimRevocationResult>

  type Answer = Result<RemovalIntent, LedgerError>

  // ----- id derivation -----

  function Decimal(n: int): string
    decreases n < 0, if n < 0 then -n else n
  {
    if n < 0 then "-" + Decimal(-n)
    else if n < 10 then [('0' as int + n) as char]
    else Decimal(n / 10) + [('0' as int + n % 10) as char]
  }

  function IntentName(owner: string, request: string): string {
    "eidolon-removal-intent-v1:" + (owner + ":" + request)
  }

  function RemovalIntentId(h: Hashes, owner: string, request: string): string {
    "removal-intent-" + h.uuid5(IntentName(owner, request))
  }

  function CommandName(intentId: string, ref: DeviceRef): string {
    "eidolon-revoke-claim-v1:" +
    (intentId + ":" +
     (ref.deviceInstanceId + ":" + Decimal(ref.ownerDomainGeneration) + ":" +
      Decimal(ref.claimGeneration) + ":" + Decimal(ref.trustEpoch)))
  }

  function HubCommandId(h: Hashes, intentId: string, ref: DeviceRef): string {
    "revoke-claim-" + h.uuid5(CommandName(intentId, ref))
  }

  function RemovalNaming(h: Hashes): Naming<RemovalContent> {
    Naming((owner, request) => RemovalIntentId(h, owner, request),
           (intentId, content: RemovalContent) => HubCommandId(h, intentId, content.deviceRef))
  }

  ghost predicate CollisionFree(h: Hashes) {
    Injective(h.uuid5) && NoColons(h.uuid5)
  }

  lemma IntentIdsSeparate(h: Hashes, o1: string, r1: string, o2: string, r2: string)
    requires CollisionFree(h) && ColonFree(o1) && ColonFree(o2)
    requires RemovalIntentId(h, o1, r1) == RemovalIntentId(h, o2, r2)
    ensures o1 == o2 && r1 == r2
  {
    Stripped("removal-intent-", h.uuid5(IntentName(o1, r1)), h.uuid5(IntentName(o2, r2)));
    Stripped("eidolon-removal-intent-v1:", o1 + ":" + r1, o2 + ":" + r2);
    HeadIsUnique(o1, r1, o2, r2);
  }

  lemma {:induction false} DecimalDigits(n: int)
    requires n >= 0
    ensures Decimal(n) != "" && forall k :: 0 <= k < |Decimal(n)| ==> '0' <= Decimal(n)[k] <= '9'
    decreases n
  {
    if n >= 10 {
      DecimalDigits(n / 10);
    }
  }

  lemma DecimalIsColonFree(n: int)
    ensures ColonFree(Decimal(n))
  {
    DecimalDigits(if n < 0 then -n else n);
  }

  lemma {:induction false} NaturalsSeparate(m: int, n: int)
    requires m >= 0 && n >= 0 && Decimal(m) == Decimal(n)
    ensures m == n
    decreases m + n
  {
    var s := Decimal(m);
    if m < 10 && n < 10 {
      assert s[0] == ('0' as int + m) as char == ('0' as int + n) as char;
    } else if m >= 10 && n >= 10 {
      assert s[|s| - 1] == ('0' as int + m % 10) as char == ('0' as int + n % 10) as char;
      assert s[..|s| - 1] == Decimal(m / 10) == Decimal(n / 10);
      NaturalsSeparate(m / 10, n / 10);
    } else {
      DecimalDigits(m / 10);
      DecimalDigits(n / 10);
    }
  }

  lemma DecimalsSeparate(m: int, n: int)
    requires Decimal(m) == Decimal(n)
    ensures m == n
  {
    DecimalDigits(if m < 0 then -m else m);
    DecimalDigits(if n < 0 then -n else n);
    assert m < 0 <==> Decimal(m)[0] == '-';
    assert n < 0 <==> Decimal(n)[0] == '-';
    if m < 0 && n < 0 {
      assert Decimal(m)[1..] == Decimal(-m) && Decimal(n)[1..] == Decimal(-n);
      NaturalsSeparate(-m, -n);
    } else if m >= 0 && n >= 0 {
      NaturalsSeparate(m, n);
    }
  }

  lemma ColonNumber(a: string, m: int, b: string, n: int)
    requires a + ":" + Decimal(m) == b + ":" + Decimal(n)
    ensures a == b && m == n
  {
    DecimalIsColonFree(m);
    DecimalIsColonFree(n);
    TailIsUnique(a, Decimal(m), b, Decimal(n));
    DecimalsSeparate(m, n);
  }

  /** A Hub command id names one intent and one device at one generation, even where
      device ids hold colons themselves. */
  lemma CommandIdsNameTheDevice(h: Hashes, o1: string, r1: string, d1: DeviceRef, o2: string, r2: string, d2: DeviceRef)
    requires CollisionFree(h)
    requires HubCommandId(h, RemovalIntentId(h, o1, r1), d1) == HubCommandId(h, RemovalIntentId(h, o2, r2), d2)
    ensures RemovalIntentId(h, o1, r1) == RemovalIntentId(h, o2, r2)
    ensures d1.deviceInstanceId == d2.deviceInstanceId && d1.ownerDomainGeneration == d2.ownerDomainGeneration
    ensures d1.claimGeneration == d2.claimGeneration && d1.trustEpoch == d2.trustEpoch
  {
    var i1, i2 := RemovalIntentId(h, o1, r1), RemovalIntentId(h, o2, r2);
    Stripped("revoke-claim-", h.uuid5(CommandName(i1, d1)), h.uuid5(CommandName(i2, d2)));
    var a1, a2 := d1.deviceInstanceId, d2.deviceInstanceId;
    var b1, b2 := a1 + ":" + Decimal(d1.ownerDomainGeneration), a2 + ":" + Decimal(d2.ownerDomainGeneration);
    var c1, c2 := b1 + ":" + Decimal(d1.claimGeneration), b2 + ":" + Decimal(d2.claimGeneration);
    var t1, t2 := c1 + ":" + Decimal(d1.trustEpoch), c2 + ":" + Decimal(d2.trustEpoch);
    Stripped("eidolon-revoke-claim-v1:", i1 + ":" + t1, i2 + ":" + t2);
    assert ColonFree(i1) && ColonFree(i2);
    HeadIsUnique(i1, t1, i2, t2);
    ColonNumber(c1, d1.trustEpoch, c2, d2.trustEpoch);
    ColonNumber(b1, d1.claimGeneration, b2, d2.claimGeneration);
    ColonNumber(a1, d1.ownerDomainGeneration, a2, d2.ownerDomainGeneration);
  }

  /** Whatever devices they name, two removal intents never share a Hub command id. */
  lemma CommandIdsSeparate(h: Hashes, o1: string, r1: string, d1: DeviceRef, o2: string, r2: string, d2: DeviceRef)
    requires CollisionFree(h)
    requires HubCommandId(h, RemovalIntentId(h, o1, r1), d1) == HubCommandId(h, RemovalIntentId(h, o2, r2), d2)
    ensures RemovalIntentId(h, o1, r1) == RemovalIntentId(h, o2, r2)
  {
    CommandIdsNameTheDevice(h, o1, r1, d1, o2, r2, d2);
  }

  lemma RemovalNamingSeparates(h: Hashes)
    requires CollisionFree(h)
    ensures Separating(RemovalNaming(h))
  {
    var n := RemovalNaming(h);
    forall o1, r1, o2, r2 | ColonFree(o1) && ColonFree(o2) && n.intentId(o1, r1) == n.intentId(o2, r2)
      ensures o1 == o2 && r1 == r2
    {
      IntentIdsSeparate(h, o1, r1, o2, r2);
    }
    forall o1, r1, c1: RemovalContent, o2, r2, c2: RemovalContent |
      n.commandId(n.intentId(o1, r1), c1) == n.commandId(n.intentId(o2, r2), c2)
      ensures n.intentId(o1, r1) == n.intentId(o2, r2)
    {
      CommandIdsSeparate(h, o1, r1, c1.deviceRef, o2, r2, c2.deviceRef);
    }
  }

  /** The exactly-once theorem of the ledger, for removals. */
  lemma RemovalsHappenAtMostOnce(h: Hashes, run: seq<Event<RemovalContent, HubClaimRevocationResult>>)
    requires CollisionFree(h) && Submits(run)
    ensures
      var w := After(RemovalNaming(h), Start(), run);
      && (forall c1, c2 | c1 in w.sent && c2 in w.sent && SameRequest(c1, c2) :: c1 == c2)
      && (forall k1, k2 | k1 in w.hub && k2 in w.hub && SameRequest(w.hub[k1].command, w.hub[k2].command) :: k1 == k2)
  {
    RemovalNamingSeparates(h);
    EffectsAtMostOnce(RemovalNaming(h), run);
  }

  // ----- the two stores, as functions of their state -----

  datatype Call =
    | GetOrCreateCall(requestId: string, ownerDomain: string, content: RemovalContent, now: int)
    | MarkCall(intentId: string, result: HubClaimRevocationResult, now: int)

  type Values = map<string, RemovalIntent>

  function MemoryStep(h: Hashes, values: Values, call: Call): (Answer, Values) {
    match call
    case GetOrCreateCall(request, owner, content, now) =>
      if h.sha256(content.authorizationContextJson) != content.authorizationContextSha256
      then (Err(ContextHashMismatch), values)
      else GetOrCreate(RemovalNaming(h), values, owner, request, content, now)
    case MarkCall(id, result, now) => Mark(values, id, result, now)
  }

  /** One row of the `removal_intents` table; JSON columns are kept as the values they encode. */
  datatype RemovalRow = RemovalRow(
    intentId: string,
    requestId: string,
    ownerDomain: string,
    deviceId: string,
    ownerDomainGeneration: int,
    claimGeneration: int,
    trustEpoch: int,
    content: RemovalContent,
    hubCommandId: string,
    state: string,
    hubResult: Option<HubClaimRevocationResult>,
    createdAt: int,
    updatedAt: int)

  function Encode(i: RemovalIntent): RemovalRow {
    var ref := i.content.deviceRef;
    RemovalRow(i.intentId, i.requestId, i.ownerDomain, ref.deviceInstanceId, ref.ownerDomainGeneration,
               ref.claimGeneration, ref.trustEpoch, i.content, i.commandId,
               if i.stage == Recorded then "accepted" else "hub-revoked", i.result, i.createdAt, i.updatedAt)
  }

  function Decode(row: RemovalRow): RemovalIntent {
    Intent(row.intentId, row.requestId, row.ownerDomain, row.content, row.hubCommandId,
           if row.state == "accepted" then Recorded else Committed, row.hubResult, row.createdAt, row.updatedAt)
  }

  /** The row an `INSERT` would add, or the constraint it breaks: the primary key, the
      unique command id, the unique (owner, request) pair, and the epoch check. */
  function InsertRow(rows: seq<RemovalRow>, row: RemovalRow): Result<seq<RemovalRow>, LedgerError> {
    if (exists k :: 0 <= k < |rows| &&
          (rows[k].intentId == row.intentId || rows[k].hubCommandId == row.hubCommandId ||
           (rows[k].ownerDomain == row.ownerDomain && rows[k].requestId == row.requestId)))
       || row.content.controllerResetEpoch < 0
    then Err(ConstraintViolated)
    else Ok(rows + [row])
  }

  predicate KeyClash(a: RemovalRow, b: RemovalRow) {
    || a.intentId == b.intentId
    || a.hubCommandId == b.hubCommandId
    || (a.ownerDomain == b.ownerDomain && a.requestId == b.requestId)
  }

  /** The table's own promise: an insert is refused exactly for a row whose keys clash with
      one there, or whose epoch is negative; otherwise the row is appended. */
  lemma InsertKeepsKeys(rows: seq<RemovalRow>, row: RemovalRow)
    ensures InsertRow(rows, row).Err? <==>
              (exists k :: 0 <= k < |rows| && KeyClash(rows[k], row)) || row.content.controllerResetEpoch < 0
    ensures InsertRow(rows, row).Ok? ==> InsertRow(rows, row).value == rows + [row]
    ensures InsertRow(rows, row).Ok? && (forall j, k :: 0 <= j < k < |rows| ==> !KeyClash(rows[j], rows[k])) ==>
              var rows' := InsertRow(rows, row).value;
              forall j, k :: 0 <= j < k < |rows'| ==> !KeyClash(rows'[j], rows'[k])
  {
    if exists k :: 0 <= k < |rows| && KeyClash(rows[k], row) {
      var k :| 0 <= k < |rows| && KeyClash(rows[k], row);
      assert InsertRow(rows, row).Err?;
    }
  }

  /** The row of a request: `WHERE owner_domain_id = ? AND ingress_request_id = ?`. */
  function RowOfRequest(rows: seq<RemovalRow>, owner: string, request: string): (k: Option<nat>)
    ensures k.Some? ==>
              k.value < |rows| && rows[k.value].ownerDomain == owner && rows[k.value].requestId == request
    ensures k.None? ==>
              forall j :: 0 <= j < |rows| ==> !(rows[j].ownerDomain == owner && rows[j].requestId == request)
  {
    if rows == [] then None
    else
      var last := |rows| - 1;
      if rows[last].ownerDomain == owner && rows[last].requestId == request then Some(last)
      else RowOfRequest(rows[..last], owner, request)
  }

  function RowOfIntent(rows: seq<RemovalRow>, intentId: string): (k: Option<nat>)
    ensures k.Some? ==> k.value < |rows| && rows[k.value].intentId == intentId
    ensures k.None? ==> forall j :: 0 <= j < |rows| ==> rows[j].intentId != intentId
  {
    if rows == [] then None
    else
      var last := |rows| - 1;
      if rows[last].intentId == intentId then Some(last) else RowOfIntent(rows[..last], intentId)
  }

  function SqliteStep(h: Hashes, rows: seq<RemovalRow>, call: Call): (Answer, seq<RemovalRow>) {
    match call
    case GetOrCreateCall(request, owner, content, now) =>
      if h.sha256(content.authorizationContextJson) != content.authorizationContextSha256
      then (Err(ContextHashMismatch), rows)
      else (match RowOfRequest(rows, owner, request)
            case Some(k) =>
              (if rows[k].content == content then Ok(Decode(rows[k])) else Err(ContentReused), rows)
            case None =>
              var intent: RemovalIntent := NewIntent(RemovalNaming(h), owner, request, content, now);
              match InsertRow(rows, Encode(intent))
              case Ok(rows') => (Ok(intent), rows')
              case Err(error) => (Err(error), rows))
    case MarkCall(id, result, now) =>
      match RowOfIntent(rows, id)
      case None => (Err(UnknownIntent), rows)
      case Some(k) =>
        if rows[k].hubResult.Some? && rows[k].hubResult != Some(result) then (Err(ResultChanged), rows)
        else
          (Ok(Decode(rows[k]).(stage := Committed, result := Some(result), updatedAt := now)),
           rows[k := rows[k].(state := "hub-revoked", hubResult := Some(result), updatedAt := now)])
  }

  // ----- they are observationally the same -----

  ghost predicate RowAgrees(values: Values, row: RemovalRow) {
    row.intentId in values && row == Encode(values[row.intentId])
  }

  ghost predicate Related(h: Hashes, values: Values, rows: seq<RemovalRow>) {
    && LedgerOk(RemovalNaming(h), values)
    && (forall k :: 0 <= k < |rows| ==> RowAgrees(values, rows[k]))
    && (forall j, k :: 0 <= j < k < |rows| ==> rows[j].intentId != rows[k].intentId)
    && (forall id :: id in values ==> exists k :: 0 <= k < |rows| && rows[k].intentId == id)
  }

  /** The one call the two stores answer differently: the table checks the epoch on insert, the dict does not. */
  predicate CreatesWithNegativeEpoch(h: Hashes, values: Values, call: Call) {
    && call.GetOrCreateCall?
    && h.sha256(call.content.authorizationContextJson) == call.content.authorizationContextSha256
    && RemovalIntentId(h, call.ownerDomain, call.requestId) !in values
    && call.content.controllerResetEpoch < 0
  }

  predicate Askable(call: Call) {
    call.GetOrCreateCall? ==> ColonFree(call.ownerDomain)
  }

  lemma RowFacts(h: Hashes, values: Values, rows: seq<RemovalRow>, k: nat)
    requires Related(h, values, rows) && k < |rows|
    ensures
      var row := rows[k];
      && row.intentId in values && Decode(row) == values[row.intentId]
      && ColonFree(row.ownerDomain)
      && row.intentId == RemovalIntentId(h, row.ownerDomain, row.requestId)
      && row.hubCommandId == HubCommandId(h, row.intentId, row.content.deviceRef)
      && row.hubResult == values[row.intentId].result && row.content == values[row.intentId].content
  {
  }

  lemma LookupAgrees(h: Hashes, values: Values, rows: seq<RemovalRow>, owner: string, request: string)
    requires Related(h, values, rows) && CollisionFree(h) && ColonFree(owner)
    ensures
      var id, k := RemovalIntentId(h, owner, request), RowOfRequest(rows, owner, request);
      && (k.Some? <==> id in values)
      && (k.Some? ==> Decode(rows[k.value]) == values[id] && rows[k.value].content == values[id].content)
  {
    var id, k := RemovalIntentId(h, owner, request), RowOfRequest(rows, owner, request);
    if k.Some? {
      RowFacts(h, values, rows, k.value);
    } else if id in values {
      var j :| 0 <= j < |rows| && rows[j].intentId == id;
      RowFacts(h, values, rows, j);
      IntentIdsSeparate(h, rows[j].ownerDomain, rows[j].requestId, owner, request);
      assert false;
    }
  }

  lemma NoKeyConflict(h: Hashes, values: Values, rows: seq<RemovalRow>, owner: string, request: string,
                      ref: DeviceRef, k: nat)
    requires Related(h, values, rows) && CollisionFree(h) && k < |rows|
    requires RemovalIntentId(h, owner, request) !in values
    ensures rows[k].intentId != RemovalIntentId(h, owner, request)
    ensures rows[k].hubCommandId != HubCommandId(h, RemovalIntentId(h, owner, request), ref)
    ensures !(rows[k].ownerDomain == owner && rows[k].requestId == request)
  {
    RowFacts(h, values, rows, k);
    if rows[k].hubCommandId == HubCommandId(h, RemovalIntentId(h, owner, request), ref) {
      CommandIdsSeparate(h, rows[k].ownerDomain, rows[k].requestId, rows[k].content.deviceRef, owner, request, ref);
    }
  }

  /** Creating: no uniqueness constraint can fire, only the epoch check. */
  lemma CreateAgrees(h: Hashes, values: Values, rows: seq<RemovalRow>, call: Call)
    requires Related(h, values, rows) && CollisionFree(h) && Askable(call) && call.GetOrCreateCall?
    requires h.sha256(call.content.authorizationContextJson) == call.content.authorizationContextSha256
    requires RemovalIntentId(h, call.ownerDomain, call.requestId) !in values
    ensures
      var intent := NewIntent(RemovalNaming(h), call.ownerDomain, call.requestId, call.content, call.now);
      && MemoryStep(h, values, call) == (Ok(intent), values[intent.intentId := intent])
      && SqliteStep(h, rows, call) ==
           (if call.content.controllerResetEpoch < 0 then (Err(ConstraintViolated), rows)
            else (Ok(intent), rows + [Encode(intent)]))
  {
    var intent: RemovalIntent := NewIntent(RemovalNaming(h), call.ownerDomain, call.requestId, call.content, call.now);
    LookupAgrees(h, values, rows, call.ownerDomain, call.requestId);
    forall k | 0 <= k < |rows|
      ensures rows[k].intentId != intent.intentId && rows[k].hubCommandId != intent.commandId
      ensures !(rows[k].ownerDomain == call.ownerDomain && rows[k].requestId == call.requestId)
    {
      NoKeyConflict(h, values, rows, call.ownerDomain, call.requestId, call.content.deviceRef, k);
    }
  }

  lemma CreateKeeps(h: Hashes, values: Values, rows: seq<RemovalRow>, intent: RemovalIntent)
    requires Related(h, values, rows) && intent.intentId !in values
    requires RowOk(RemovalNaming(h), intent.intentId, intent)
    ensures Related(h, values[intent.intentId := intent], rows + [Encode(intent)])
  {
    var values', rows' := values[intent.intentId := intent], rows + [Encode(intent)];
    forall k | 0 <= k < |rows'| ensures RowAgrees(values', rows'[k]) {
      if k < |rows| { assert RowAgrees(values, rows[k]); }
    }
    forall j, k | 0 <= j < k < |rows'| ensures rows'[j].intentId != rows'[k].intentId {
      assert RowAgrees(values, rows[j]);
    }
    forall id | id in values' ensures exists k :: 0 <= k < |rows'| && rows'[k].intentId == id {
      if id == intent.intentId {
        assert rows'[|rows|].intentId == id;
      } else {
        var k :| 0 <= k < |rows| && rows[k].intentId == id;
        assert rows'[k].intentId == id;
      }
    }
  }

  lemma MarkAgrees(h: Hashes, values: Values, rows: seq<RemovalRow>, call: Call)
    requires Related(h, values, rows) && call.MarkCall?
    ensures SqliteStep(h, rows, call).0 == MemoryStep(h, values, call).0
    ensures SqliteStep(h, rows, call).0 != Err(ConstraintViolated)
    ensures Related(h, MemoryStep(h, values, call).1, SqliteStep(h, rows, call).1)
  {
    var k := RowOfIntent(rows, call.intentId);
    if k.Some? {
      RowFacts(h, values, rows, k.value);
      if MemoryStep(h, values, call).0.Ok? {
        MarkKeeps(h, values, rows, k.value, call.result, call.now);
      }
    }
  }

  lemma MarkKeeps(h: Hashes, values: Values, rows: seq<RemovalRow>, k: nat, result: HubClaimRevocationResult, now: int)
    requires Related(h, values, rows) && k < |rows|
    ensures rows[k].intentId in values
    ensures
      var id := rows[k].intentId;
      Related(h, values[id := values[id].(stage := Committed, result := Some(result), updatedAt := now)],
              rows[k := rows[k].(state := "hub-revoked", hubResult := Some(result), updatedAt := now)])
  {
    var id := rows[k].intentId;
    assert RowAgrees(values, rows[k]);
    assert RowOk(RemovalNaming(h), id, values[id]);
    var updated := values[id].(stage := Committed, result := Some(result), updatedAt := now);
    var row := rows[k].(state := "hub-revoked", hubResult := Some(result), updatedAt := now);
    assert RowOk(RemovalNaming(h), id, updated);
    assert row == Encode(updated);
    UpdateKeeps(h, values, rows, k, updated);
  }

  lemma UpdateKeeps(h: Hashes, values: Values, rows: seq<RemovalRow>, k: nat, updated: RemovalIntent)
    requires Related(h, values, rows) && k < |rows| && rows[k].intentId == updated.intentId
    requires RowOk(RemovalNaming(h), updated.intentId, updated)
    ensures Related(h, values[updated.intentId := updated], rows[k := Encode(updated)])
  {
    var id := updated.intentId;
    var values', rows' := values[id := updated], rows[k := Encode(updated)];
    assert RowAgrees(values, rows[k]);
    forall j | 0 <= j < |rows'| ensures RowAgrees(values', rows'[j]) {
      UpdateAgrees(h, values, rows, k, updated, j);
    }
    forall j | 0 <= j < |rows| ensures rows'[j].intentId == rows[j].intentId {
      if j != k { assert rows'[j] == rows[j]; }
    }
    forall i, j | 0 <= i < j < |rows'| ensures rows'[i].intentId != rows'[j].intentId {
      assert rows[i].intentId != rows[j].intentId;
    }
    forall i | i in values' ensures exists j :: 0 <= j < |rows'| && rows'[j].intentId == i {
      assert i in values;
      SameIds(rows, rows', i);
    }
    UpdateKeepsLedger(h, values, updated);
  }

  lemma UpdateKeepsLedger(h: Hashes, values: Values, updated: RemovalIntent)
    requires LedgerOk(RemovalNaming(h), values) && RowOk(RemovalNaming(h), updated.intentId, updated)
    ensures LedgerOk(RemovalNaming(h), values[updated.intentId := updated])
  {
  }

  lemma UpdateAgrees(h: Hashes, values: Values, rows: seq<RemovalRow>, k: nat, updated: RemovalIntent, j: nat)
    requires Related(h, values, rows) && k < |rows| && rows[k].intentId == updated.intentId && j < |rows|
    ensures RowAgrees(values[updated.intentId := updated], rows[k := Encode(updated)][j])
  {
    assert RowAgrees(values, rows[j]);
    if j < k { assert rows[j].intentId != rows[k].intentId; }
    if k < j { assert rows[k].intentId != rows[j].intentId; }
  }

  lemma SameIds(rows: seq<RemovalRow>, rows': seq<RemovalRow>, i: string)
    requires |rows| == |rows'| && forall j :: 0 <= j < |rows| ==> rows'[j].intentId == rows[j].intentId
    requires exists j :: 0 <= j < |rows| && rows[j].intentId == i
    ensures exists j :: 0 <= j < |rows'| && rows'[j].intentId == i
  {
  }

  lemma ReuseAgrees(h: Hashes, values: Values, rows: seq<RemovalRow>, call: Call)
    requires Related(h, values, rows) && CollisionFree(h) && Askable(call) && call.GetOrCreateCall?
    requires h.sha256(call.content.authorizationContextJson) == call.content.authorizationContextSha256
    requires RemovalIntentId(h, call.ownerDomain, call.requestId) in values
    ensures SqliteStep(h, rows, call).0 == MemoryStep(h, values, call).0
    ensures SqliteStep(h, rows, call).0 != Err(ConstraintViolated)
    ensures SqliteStep(h, rows, call).1 == rows && MemoryStep(h, values, call).1 == values
  {
    LookupAgrees(h, values, rows, call.ownerDomain, call.requestId);
  }

  /** One call: the two stores give the same answer exactly when the call does not
      create a row with a negative epoch; and then they stay related, with no
      constraint of the table fired. */
  lemma StepAgrees(h: Hashes, values: Values, rows: seq<RemovalRow>, call: Call)
    requires Related(h, values, rows) && CollisionFree(h) && Askable(call)
    ensures SqliteStep(h, rows, call).0 == MemoryStep(h, values, call).0 <==>
              !CreatesWithNegativeEpoch(h, values, call)
    ensures !CreatesWithNegativeEpoch(h, values, call) ==>
              Related(h, MemoryStep(h, values, call).1, SqliteStep(h, rows, call).1) &&
              SqliteStep(h, rows, call).0 != Err(ConstraintViolated)
  {
    if call.MarkCall? {
      MarkAgrees(h, values, rows, call);
    } else if h.sha256(call.content.authorizationContextJson) != call.content.authorizationContextSha256 {
    } else if RemovalIntentId(h, call.ownerDomain, call.requestId) in values {
      ReuseAgrees(h, values, rows, call);
    } else {
      CreateAgrees(h, values, rows, call);
      var intent: RemovalIntent :=
        NewIntent(RemovalNaming(h), call.ownerDomain, call.requestId, call.content, call.now);
      CreateKeeps(h, values, rows, intent);
    }
  }

  // ----- the context check -----

  predicate ContextMatches(h: Hashes, content: RemovalContent) {
    h.sha256(content.authorizationContextJson) == content.authorizationContextSha256
  }

  /** Both stores refuse a context that does not match its hash, before anything else and
      for no other reason. */
  lemma ContextIsChecked(h: Hashes, values: Values, rows: seq<RemovalRow>, call: Call)
    ensures
      var mismatch := call.GetOrCreateCall? && !ContextMatches(h, call.content);
      && (MemoryStep(h, values, call).0 == Err(ContextHashMismatch) <==> mismatch)
      && (SqliteStep(h, rows, call).0 == Err(ContextHashMismatch) <==> mismatch)
      && (mismatch ==> MemoryStep(h, values, call).1 == values && SqliteStep(h, rows, call).1 == rows)
  {
  }

  function MemoryAfter(h: Hashes, values: Values, calls: seq<Call>): Values
    decreases |calls|
  {
    if calls == [] then values else MemoryAfter(h, MemoryStep(h, values, calls[0]).1, calls[1..])
  }

  /** So no call sequence ever records an intent whose context does not match its hash. */
  lemma {:induction false} RecordedContextsMatch(h: Hashes, values: Values, calls: seq<Call>)
    requires forall id :: id in values ==> ContextMatches(h, values[id].content)
    ensures forall id :: id in MemoryAfter(h, values, calls) ==>
              ContextMatches(h, MemoryAfter(h, values, calls)[id].content)
    decreases |calls|
  {
    if calls != [] {
      RecordedContextsMatch(h, MemoryStep(h, values, calls[0]).1, calls[1..]);
    }
  }

  // ----- every call sequence -----

  function MemoryAnswers(h: Hashes, values: Values, calls: seq<Call>): seq<Answer>
    decreases |calls|
  {
    if calls == [] then []
    else
      var (answer, values') := MemoryStep(h, values, calls[0]);
      [answer] + MemoryAnswers(h, values', calls[1..])
  }

  function SqliteAnswers(h: Hashes, rows: seq<RemovalRow>, calls: seq<Call>): seq<Answer>
    decreases |calls|
  {
    if calls == [] then []
    else
      var (answer, rows') := SqliteStep(h, rows, calls[0]);
      [answer] + SqliteAnswers(h, rows', calls[1..])
  }

  ghost predicate Ordinary(calls: seq<Call>) {
    forall k :: 0 <= k < |calls| ==>
      Askable(calls[k]) && (calls[k].GetOrCreateCall? ==> calls[k].content.controllerResetEpoch >= 0)
  }

  lemma {:induction false} AnswersAgreeFrom(h: Hashes, values: Values, rows: seq<RemovalRow>, calls: seq<Call>)
    requires Related(h, values, rows) && CollisionFree(h) && Ordinary(calls)
    ensures SqliteAnswers(h, rows, calls) == MemoryAnswers(h, values, calls)
    ensures Err(ConstraintViolated) !in SqliteAnswers(h, rows, calls)
    decreases |calls|
  {
    if calls != [] {
      StepAgrees(h, values, rows, calls[0]);
      AnswersAgreeFrom(h, MemoryStep(h, values, calls[0]).1, SqliteStep(h, rows, calls[0]).1, calls[1..]);
    }
  }

  /** From empty, the two stores answer and refuse alike on every call sequence of
      colon-free Owner Domains and non-negative epochs, and the table's primary-key,
      command-id and request uniqueness constraints never fire. */
  lemma StoresAnswerAlike(h: Hashes, calls: seq<Call>)
    requires CollisionFree(h) && Ordinary(calls)
    ensures SqliteAnswers(h, [], calls) == MemoryAnswers(h, map[], calls)
    ensures Err(ConstraintViolated) !in SqliteAnswers(h, [], calls)
  {
    AnswersAgreeFrom(h, map[], [], calls);
  }

  // ----- the stores -----

  class InMemoryRemovalIntentStore {
    const hashes: Hashes
    var values: Values

    constructor (hashes: Hashes)
      ensures this.hashes == hashes && values == map[]
    {
      this.hashes := hashes;
      values := map[];
    }

    method GetOrCreate(requestId: string, ownerDomain: string, content: RemovalContent, now: int)
      returns (answer: Answer)
      modifies this
      ensures (answer, values) == MemoryStep(hashes, old(values), GetOrCreateCall(requestId, ownerDomain, content, now))
    {
      if hashes.sha256(content.authorizationContextJson) != content.authorizationContextSha256 {
        return Err(ContextHashMismatch);
      }
      var intentId := RemovalIntentId(hashes, ownerDomain, requestId);
      if intentId in values {
        var current := values[intentId];
        if || current.content.deviceRef != content.deviceRef
           || current.content.reason != content.reason
           || current.content.actorControllerId != content.actorControllerId
           || current.content.workloadPrincipalId != content.workloadPrincipalId
           || current.content.controllerResetEpoch != content.controllerResetEpoch
           || current.content.authorizationContextSha256 != content.authorizationContextSha256
           || current.content.authorizationContextJson != content.authorizationContextJson
        {
          return Err(ContentReused);
        }
        return Ok(current);
      }
      var intent := Intent(intentId, requestId, ownerDomain, content,
                           HubCommandId(hashes, intentId, content.deviceRef), Recorded, None, now, now);
      values := values[intentId := intent];
      answer := Ok(intent);
    }

    method MarkHubCommitted(intentId: string, result: HubClaimRevocationResult, now: int) returns (answer: Answer)
      modifies this
      ensures (answer, values) == MemoryStep(hashes, old(values), MarkCall(intentId, result, now))
    {
      if intentId !in values {
        return Err(UnknownIntent);
      }
      var current := values[intentId];
      if current.result.Some? && current.result.value != result {
        return Err(ResultChanged);
      }
      var updated := current.(stage := Committed, updatedAt := now, result := Some(result));
      values := values[intentId := updated];
      answer := Ok(updated);
    }
  }

  class SqliteRemovalIntentStore {
    const hashes: Hashes
    var rows: seq<RemovalRow>

    constructor (hashes: Hashes)
      ensures this.hashes == hashes && rows == []
    {
      this.hashes := hashes;
      rows := [];
    }

    /** One `BEGIN IMMEDIATE` transaction; a raised error rolls it back. */
    method GetOrCreate(requestId: string, ownerDomain: string, content: RemovalContent, now: int)
      returns (answer: Answer)
      modifies this
      ensures (answer, rows) == SqliteStep(hashes, old(rows), GetOrCreateCall(requestId, ownerDomain, content, now))
    {
      if hashes.sha256(content.authorizationContextJson) != content.authorizationContextSha256 {
        return Err(ContextHashMismatch);
      }
      var intentId := RemovalIntentId(hashes, ownerDomain, requestId);
      var found := RowOfRequest(rows, ownerDomain, requestId);
      if found.Some? {
        var current := Decode(rows[found.value]);
        if current.content != content {
          return Err(ContentReused);
        }
        return Ok(current);
      }
      var commandId := HubCommandId(hashes, intentId, content.deviceRef);
      var ref := content.deviceRef;
      var inserted := InsertRow(rows, RemovalRow(
        intentId, requestId, ownerDomain, ref.deviceInstanceId, ref.ownerDomainGeneration, ref.claimGeneration,
        ref.trustEpoch, content, commandId, "accepted", None, now, now));
      if inserted.Err? {
        return Err(inserted.error);
      }
      rows := inserted.value;
      answer := Ok(Intent(intentId, requestId, ownerDomain, content, commandId, Recorded, None, now, now));
    }

    method MarkHubCommitted(intentId: string, result: HubClaimRevocationResult, now: int) returns (answer: Answer)
      modifies this
      ensures (answer, rows) == SqliteStep(hashes, old(rows), MarkCall(intentId, result, now))
    {
      var found := RowOfIntent(rows, intentId);
      if found.None? {
        return Err(UnknownIntent);
      }
      var current := Decode(rows[found.value]);
      if current.result.Some? && current.result.value != result {
        return Err(ResultChanged);
      }
      rows := rows[found.value :=
        rows[found.value].(state := "hub-revoked", hubResult := Some(result), updatedAt := now)];
      answer := Ok(current.(stage := Committed, result := Some(result), updatedAt := now));
    }
  }
}
