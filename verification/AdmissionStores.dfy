/**
  The admission ledger's in-memory and SQLite stores, side by side
  (server/eidolon_admin_server/app/control_plane/admission_intents.py).

  A row of the table is kept as the intent its columns encode.
 */
module AdmissionStores {
  import opened Outcomes
  import opened IntentLedger
  import opened ColonNames
  import opened AdmissionIntents

  type Values = map<string, AdmissionIntent>

  datatype Call =
    | GetOrCreateCall(requestId: string, ownerDomain: string, businessOwnerId: string, enrollmentId: string,
                      actorJson: string, decisionJson: string, now: int)
    | MarkCall(intentId: string, result: DecideEnrollmentResult, now: int)

  function Asked(h: Hashes, call: Call): AdmissionContent
    requires call.GetOrCreateCall?
  {
    ContentOf(h, call.businessOwnerId, call.enrollmentId, call.actorJson, call.decisionJson)
  }

  function Candidate(h: Hashes, call: Call): AdmissionIntent
    requires call.GetOrCreateCall?
  {
    NewIntent(AdmissionNaming(h), call.ownerDomain, call.requestId, Asked(h, call), call.now)
  }

  function MemoryStep(h: Hashes, values: Values, call: Call): (Answer, Values) {
    match call
    case GetOrCreateCall(_, _, _, _, _, _, _) =>
      GetOrCreate(AdmissionNaming(h), values, call.ownerDomain, call.requestId, Asked(h, call), call.now)
    case MarkCall(id, result, now) => Mark(values, id, result, now)
  }

  function RowOfRequest(rows: seq<AdmissionIntent>, owner: string, request: string): (k: Option<nat>)
    ensures k.Some? ==>
              k.value < |rows| && rows[k.value].ownerDomain == owner && rows[k.value].requestId == request
    ensures k.None? ==>
              forall j :: 0 <= j < |rows| ==> !(rows[j].ownerDomain == owner && rows[j].requestId == request)
  {
    if rows == [] then None
    else
      var last := |rows| - 1;
      if rows[last].ownerDomain == owner && rows[last].requestId == request then Some(last)
      else RowOfRequest(rows[..last], owner, request)
  }

  function RowOfIntent(rows: seq<AdmissionIntent>, intentId: string): (k: Option<nat>)
    ensures k.Some? ==> k.value < |rows| && rows[k.value].intentId == intentId
    ensures k.None? ==> forall j :: 0 <= j < |rows| ==> rows[j].intentId != intentId
  {
    if rows == [] then None
    else
      var last := |rows| - 1;
      if rows[last].intentId == intentId then Some(last) else RowOfIntent(rows[..last], intentId)
  }

  /** The primary key, the unique command id and the unique (owner, request) pair. */
  predicate Conflicts(row: AdmissionIntent, other: AdmissionIntent) {
    || row.intentId == other.intentId
    || row.commandId == other.commandId
    || (row.ownerDomain == other.ownerDomain && row.requestId == other.requestId)
  }

  function InsertRow(rows: seq<AdmissionIntent>, row: AdmissionIntent): Result<seq<AdmissionIntent>, LedgerError> {
    if exists k :: 0 <= k < |rows| && Conflicts(rows[k], row) then Err(ConstraintViolated) else Ok(rows + [row])
  }

  /** The table's own promise: no two rows ever clash, whatever is inserted. */
  lemma InsertKeepsKeys(rows: seq<AdmissionIntent>, row: AdmissionIntent)
    ensures InsertRow(rows, row).Err? <==> exists k :: 0 <= k < |rows| && Conflicts(rows[k], row)
    ensures InsertRow(rows, row).Ok? && (forall j, k :: 0 <= j < k < |rows| ==> !Conflicts(rows[j], rows[k])) ==>
              var rows' := InsertRow(rows, row).value;
              forall j, k :: 0 <= j < k < |rows'| ==> !Conflicts(rows'[j], rows'[k])
  {
  }

  function SqliteStep(h: Hashes, rows: seq<AdmissionIntent>, call: Call): (Answer, seq<AdmissionIntent>) {
    match call
    case GetOrCreateCall(_, _, _, _, _, _, _) =>
      var candidate := Candidate(h, call);
      (match RowOfRequest(rows, call.ownerDomain, call.requestId)
       case Some(k) => (if SameIntent(rows[k], candidate) then Ok(rows[k]) else Err(ContentReused), rows)
       case None =>
         match InsertRow(rows, candidate)
         case Ok(rows') => (Ok(candidate), rows')
         case Err(error) => (Err(error), rows))
    case MarkCall(id, result, now) =>
      match RowOfIntent(rows, id)
      case None => (Err(MissingIntent), rows)
      case Some(k) =>
        if rows[k].result.Some? && rows[k].result != Some(result) then (Err(ResultChanged), rows)
        else
          var committed := rows[k].(stage := Committed, result := Some(result), updatedAt := now);
          (Ok(committed), rows[k := committed])
  }

  // ----- the two states say the same -----

  ghost predicate Bound(h: Hashes, id: string, i: AdmissionIntent) {
    RowOk(AdmissionNaming(h), id, i) && Digested(h, i.content)
  }

  predicate HasRow(rows: seq<AdmissionIntent>, id: string) {
    exists k :: 0 <= k < |rows| && rows[k].intentId == id
  }

  ghost predicate Related(h: Hashes, values: Values, rows: seq<AdmissionIntent>) {
    && (forall id :: id in values ==> Bound(h, id, values[id]) && HasRow(rows, id))
    && (forall k :: 0 <= k < |rows| ==> rows[k].intentId in values && values[rows[k].intentId] == rows[k])
    && (forall j, k :: 0 <= j < k < |rows| ==> rows[j].intentId != rows[k].intentId)
  }

  predicate Askable(call: Call) {
    call.GetOrCreateCall? ==> ColonFree(call.ownerDomain)
  }

  /** The row of a request is the intent under the id derived from it. */
  lemma LookupAgrees(h: Hashes, values: Values, rows: seq<AdmissionIntent>, owner: string, request: string)
    requires Related(h, values, rows) && CollisionFree(h) && ColonFree(owner)
    ensures
      var id, k := DecisionIntentId(h, owner, request), RowOfRequest(rows, owner, request);
      (k.Some? <==> id in values) && (k.Some? ==> values[id] == rows[k.value])
  {
    var id, k := DecisionIntentId(h, owner, request), RowOfRequest(rows, owner, request);
    if k.Some? {
      assert Bound(h, rows[k.value].intentId, values[rows[k.value].intentId]);
    } else if id in values {
      assert HasRow(rows, id);
      var j :| 0 <= j < |rows| && rows[j].intentId == id;
      assert Bound(h, id, values[id]);
      AdmissionIntents.IntentIdsSeparate(h, rows[j].ownerDomain, rows[j].requestId, owner, request);
      assert false;
    }
  }

  lemma NoConflict(h: Hashes, values: Values, rows: seq<AdmissionIntent>, call: Call, k: nat)
    requires Related(h, values, rows) && CollisionFree(h) && call.GetOrCreateCall? && k < |rows|
    requires DecisionIntentId(h, call.ownerDomain, call.requestId) !in values
    ensures !Conflicts(rows[k], Candidate(h, call))
  {
    var row, candidate := rows[k], Candidate(h, call);
    assert Bound(h, row.intentId, values[row.intentId]);
    if row.commandId == candidate.commandId {
      AdmissionIntents.CommandIdsSeparate(h, row.ownerDomain, row.requestId, row.content.enrollmentId,
                                          call.ownerDomain, call.requestId, call.enrollmentId);
    }
  }

  lemma CreateAgrees(h: Hashes, values: Values, rows: seq<AdmissionIntent>, call: Call)
    requires Related(h, values, rows) && CollisionFree(h) && Askable(call) && call.GetOrCreateCall?
    requires DecisionIntentId(h, call.ownerDomain, call.requestId) !in values
    ensures
      var candidate := Candidate(h, call);
      && MemoryStep(h, values, call) == (Ok(candidate), values[candidate.intentId := candidate])
      && SqliteStep(h, rows, call) == (Ok(candidate), rows + [candidate])
  {
    LookupAgrees(h, values, rows, call.ownerDomain, call.requestId);
    forall k | 0 <= k < |rows| ensures !Conflicts(rows[k], Candidate(h, call)) {
      NoConflict(h, values, rows, call, k);
    }
  }

  lemma CreateKeeps(h: Hashes, values: Values, rows: seq<AdmissionIntent>, row: AdmissionIntent)
    requires Related(h, values, rows) && row.intentId !in values && Bound(h, row.intentId, row)
    ensures Related(h, values[row.intentId := row], rows + [row])
  {
    var values', rows' := values[row.intentId := row], rows + [row];
    forall id | id in values' ensures Bound(h, id, values'[id]) && HasRow(rows', id) {
      if id == row.intentId {
        assert rows'[|rows|].intentId == id;
      } else {
        assert Bound(h, id, values[id]) && HasRow(rows, id);
        var k :| 0 <= k < |rows| && rows[k].intentId == id;
        assert rows'[k].intentId == id;
      }
    }
  }

  lemma ReuseAgrees(h: Hashes, values: Values, rows: seq<AdmissionIntent>, call: Call)
    requires Related(h, values, rows) && CollisionFree(h) && Askable(call) && call.GetOrCreateCall?
    requires DecisionIntentId(h, call.ownerDomain, call.requestId) in values
    ensures SqliteStep(h, rows, call).0 == MemoryStep(h, values, call).0
    ensures SqliteStep(h, rows, call).0 != Err(ConstraintViolated)
    ensures SqliteStep(h, rows, call).1 == rows && MemoryStep(h, values, call).1 == values
  {
    var id := DecisionIntentId(h, call.ownerDomain, call.requestId);
    LookupAgrees(h, values, rows, call.ownerDomain, call.requestId);
    assert Bound(h, id, values[id]);
    SameIntentIsSameContent(h, values[id], Candidate(h, call));
  }

  lemma UpdatedRowAgrees(h: Hashes, values: Values, rows: seq<AdmissionIntent>, k: nat, row: AdmissionIntent, j: nat)
    requires Related(h, values, rows) && k < |rows| && rows[k].intentId == row.intentId && j < |rows|
    ensures
      var values', rows' := values[row.intentId := row], rows[k := row];
      rows'[j].intentId == rows[j].intentId && rows'[j].intentId in values' && values'[rows'[j].intentId] == rows'[j]
  {
    if j < k { assert rows[j].intentId != rows[k].intentId; }
    if k < j { assert rows[k].intentId != rows[j].intentId; }
  }

  lemma SameIds(rows: seq<AdmissionIntent>, rows': seq<AdmissionIntent>, id: string)
    requires |rows| == |rows'| && forall j :: 0 <= j < |rows| ==> rows'[j].intentId == rows[j].intentId
    requires HasRow(rows, id)
    ensures HasRow(rows', id)
  {
    var j :| 0 <= j < |rows| && rows[j].intentId == id;
    assert rows'[j].intentId == id;
  }

  lemma UpdateKeeps(h: Hashes, values: Values, rows: seq<AdmissionIntent>, k: nat, row: AdmissionIntent)
    requires Related(h, values, rows) && k < |rows| && rows[k].intentId == row.intentId
    requires Bound(h, row.intentId, row)
    ensures Related(h, values[row.intentId := row], rows[k := row])
  {
    var values', rows' := values[row.intentId := row], rows[k := row];
    forall j | 0 <= j < |rows|
      ensures rows'[j].intentId == rows[j].intentId
      ensures rows'[j].intentId in values' && values'[rows'[j].intentId] == rows'[j]
    {
      UpdatedRowAgrees(h, values, rows, k, row, j);
    }
    forall i, j | 0 <= i < j < |rows'| ensures rows'[i].intentId != rows'[j].intentId {
      assert rows[i].intentId != rows[j].intentId;
    }
    forall id | id in values' ensures Bound(h, id, values'[id]) && HasRow(rows', id) {
      assert id in values && Bound(h, id, values[id]);
      SameIds(rows, rows', id);
    }
  }

  /** Marking an intent there is. */
  lemma MarkAgrees(h: Hashes, values: Values, rows: seq<AdmissionIntent>, call: Call)
    requires Related(h, values, rows) && call.MarkCall? && call.intentId in values
    ensures SqliteStep(h, rows, call).0 == MemoryStep(h, values, call).0
    ensures SqliteStep(h, rows, call).0 != Err(ConstraintViolated)
    ensures Related(h, MemoryStep(h, values, call).1, SqliteStep(h, rows, call).1)
  {
    assert HasRow(rows, call.intentId);
    var k := RowOfIntent(rows, call.intentId).value;
    assert values[call.intentId] == rows[k];
    assert Bound(h, call.intentId, rows[k]);
    if !(rows[k].result.Some? && rows[k].result != Some(call.result)) {
      var committed := rows[k].(stage := Committed, result := Some(call.result), updatedAt := call.now);
      assert Bound(h, call.intentId, committed);
      UpdateKeeps(h, values, rows, k, committed);
    }
  }

  /** The one difference: how an unknown intent is refused. */
  predicate MarksUnknown(values: Values, call: Call) {
    call.MarkCall? && call.intentId !in values
  }

  /** One call: the two stores answer alike exactly when it does not mark an unknown
      intent, which both refuse; they stay related and no constraint of the table fires. */
  lemma StepAgrees(h: Hashes, values: Values, rows: seq<AdmissionIntent>, call: Call)
    requires Related(h, values, rows) && CollisionFree(h) && Askable(call)
    ensures SqliteStep(h, rows, call).0 == MemoryStep(h, values, call).0 <==> !MarksUnknown(values, call)
    ensures MarksUnknown(values, call) ==>
              SqliteStep(h, rows, call).0 == Err(MissingIntent) && MemoryStep(h, values, call).0 == Err(UnknownIntent)
    ensures SqliteStep(h, rows, call).0 != Err(ConstraintViolated)
    ensures Related(h, MemoryStep(h, values, call).1, SqliteStep(h, rows, call).1)
  {
    if call.MarkCall? {
      if call.intentId in values {
        MarkAgrees(h, values, rows, call);
      }
    } else if DecisionIntentId(h, call.ownerDomain, call.requestId) in values {
      ReuseAgrees(h, values, rows, call);
    } else {
      CreateAgrees(h, values, rows, call);
      CreateKeeps(h, values, rows, Candidate(h, call));
    }
  }

  // ----- every call sequence -----

  function MemoryAnswers(h: Hashes, values: Values, calls: seq<Call>): seq<Answer>
    decreases |calls|
  {
    if calls == [] then []
    else
      var (answer, values') := MemoryStep(h, values, calls[0]);
      [answer] + MemoryAnswers(h, values', calls[1..])
  }

  function SqliteAnswers(h: Hashes, rows: seq<AdmissionIntent>, calls: seq<Call>): seq<Answer>
    decreases |calls|
  {
    if calls == [] then []
    else
      var (answer, rows') := SqliteStep(h, rows, calls[0]);
      [answer] + SqliteAnswers(h, rows', calls[1..])
  }

  /** The same answer, but for the name of the unknown-intent error. */
  predicate Alike(sqlite: Answer, memory: Answer) {
    sqlite == memory || (sqlite == Err(MissingIntent) && memory == Err(UnknownIntent))
  }

  ghost predicate AllAlike(sqlite: seq<Answer>, memory: seq<Answer>) {
    && |sqlite| == |memory|
    && forall k :: 0 <= k < |sqlite| ==> Alike(sqlite[k], memory[k]) && sqlite[k] != Err(ConstraintViolated)
  }

  lemma {:induction false} AnswersAgreeFrom(h: Hashes, values: Values, rows: seq<AdmissionIntent>, calls: seq<Call>)
    requires Related(h, values, rows) && CollisionFree(h) && forall k :: 0 <= k < |calls| ==> Askable(calls[k])
    ensures AllAlike(SqliteAnswers(h, rows, calls), MemoryAnswers(h, values, calls))
    decreases |calls|
  {
    if calls != [] {
      StepAgrees(h, values, rows, calls[0]);
      AnswersAgreeFrom(h, MemoryStep(h, values, calls[0]).1, SqliteStep(h, rows, calls[0]).1, calls[1..]);
    }
  }

  /** From empty, on every call sequence of colon-free Owner Domains, the two stores
      accept and refuse alike, call by call and with the same intents, and the table's
      uniqueness constraints never fire. */
  lemma StoresAnswerAlike(h: Hashes, calls: seq<Call>)
    requires CollisionFree(h) && forall k :: 0 <= k < |calls| ==> Askable(calls[k])
    ensures AllAlike(SqliteAnswers(h, [], calls), MemoryAnswers(h, map[], calls))
  {
    AnswersAgreeFrom(h, map[], [], calls);
  }

  class SqliteAdmissionDecisionIntentStore {
    const hashes: Hashes
    var rows: seq<AdmissionIntent>

    constructor (hashes: Hashes)
      ensures this.hashes == hashes && rows == []
    {
      this.hashes := hashes;
      rows := [];
    }

    /** One transaction; a raised error rolls it back. */
    method GetOrCreate(call: Call) returns (answer: Answer)
      requires call.GetOrCreateCall?
      modifies this
      ensures (answer, rows) == SqliteStep(hashes, old(rows), call)
    {
      var intentId := DecisionIntentId(hashes, call.ownerDomain, call.requestId);
      var candidate := Intent(intentId, call.requestId, call.ownerDomain, Asked(hashes, call),
                              DecisionCommandId(hashes, intentId, call.enrollmentId), Recorded, None,
                              call.now, call.now);
      var found := RowOfRequest(rows, call.ownerDomain, call.requestId);
      if found.Some? {
        if !SameIntent(rows[found.value], candidate) {
          return Err(ContentReused);
        }
        return Ok(rows[found.value]);
      }
      var inserted := InsertRow(rows, candidate);
      if inserted.Err? {
        return Err(inserted.error);
      }
      rows := inserted.value;
      answer := Ok(candidate);
    }

    method MarkDecisionCommitted(intentId: string, result: DecideEnrollmentResult, now: int) returns (answer: Answer)
      modifies this
      ensures (answer, rows) == SqliteStep(hashes, old(rows), MarkCall(intentId, result, now))
    {
      var found := RowOfIntent(rows, intentId);
      if found.None? {
        return Err(MissingIntent);
      }
      var intent := rows[found.value];
      if intent.result.Some? && intent.result.value != result {
        return Err(ResultChanged);
      }
      var committed := intent.(stage := Committed, result := Some(result), updatedAt := now);
      rows := rows[found.value := committed];
      answer := Ok(committed);
    }
  }
}
