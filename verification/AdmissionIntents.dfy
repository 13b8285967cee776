/**
  The admission decision ledger
  (server/eidolon_admin_server/app/control_plane/admission_intents.py).

  Its rows are bound to digests of the actor and the decision rather than to their
  bytes, and to the command id; with a digest that does not collide this is the
  content binding the ledger theorems need.
 */
module AdmissionIntents {
  import opened Outcomes
  import opened IntentLedger
  import opened ColonNames

  datatype AdmissionContent = AdmissionContent(
    businessOwnerId: string,
    enrollmentId: string,
    actorJson: string,
    actorSha256: string,
    decisionJson: string,
    decisionSha256: string)

  datatype DecideEnrollmentResult = DecideEnrollmentResult(decisionId: string, decision: string, revision: int)

  type AdmissionIntent = Intent<AdmissionContent, DecideEnrollmentResult>

  type Answer = Result<AdmissionIntent, LedgerError>

  function DecisionIntentId(h: Hashes, owner: string, request: string): string {
    "admission-intent-" + h.uuid5("eidolon-admission-decision-intent-v1:" + (owner + ":" + request))
  }

  function DecisionCommandId(h: Hashes, intentId: string, enrollmentId: string): string {
    "decide-enrollment-" + h.uuid5("eidolon-admission-decision-command-v1:" + (intentId + ":" + enrollmentId))
  }

  function Digest(h: Hashes, value: string): string {
    "sha256:" + h.sha256(value)
  }

  function AdmissionNaming(h: Hashes): Naming<AdmissionContent> {
    Naming((owner, request) => DecisionIntentId(h, owner, request),
           (intentId, content: AdmissionContent) => DecisionCommandId(h, intentId, content.enrollmentId))
  }

  /** The content a request asks to bind, digests computed as `_new_intent` computes them. */
  function ContentOf(h: Hashes, businessOwnerId: string, enrollmentId: string, actorJson: string, decisionJson: string)
    : AdmissionContent
  {
    AdmissionContent(businessOwnerId, enrollmentId, actorJson, Digest(h, actorJson),
                     decisionJson, Digest(h, decisionJson))
  }

  ghost predicate CollisionFree(h: Hashes) {
    Injective(h.uuid5) && NoColons(h.uuid5) && Injective(h.sha256)
  }

  lemma AdmissionNamingSeparates(h: Hashes)
    requires CollisionFree(h)
    ensures Separating(AdmissionNaming(h))
  {
    var n := AdmissionNaming(h);
    forall o1, r1, o2, r2 | ColonFree(o1) && ColonFree(o2) && n.intentId(o1, r1) == n.intentId(o2, r2)
      ensures o1 == o2 && r1 == r2
    {
      IntentIdsSeparate(h, o1, r1, o2, r2);
    }
    forall o1, r1, c1: AdmissionContent, o2, r2, c2: AdmissionContent |
      n.commandId(n.intentId(o1, r1), c1) == n.commandId(n.intentId(o2, r2), c2)
      ensures n.intentId(o1, r1) == n.intentId(o2, r2)
    {
      CommandIdsSeparate(h, o1, r1, c1.enrollmentId, o2, r2, c2.enrollmentId);
    }
  }

  lemma IntentIdsSeparate(h: Hashes, o1: string, r1: string, o2: string, r2: string)
    requires CollisionFree(h) && ColonFree(o1) && ColonFree(o2)
    requires DecisionIntentId(h, o1, r1) == DecisionIntentId(h, o2, r2)
    ensures o1 == o2 && r1 == r2
  {
    var p := "eidolon-admission-decision-intent-v1:";
    Stripped("admission-intent-", h.uuid5(p + (o1 + ":" + r1)), h.uuid5(p + (o2 + ":" + r2)));
    Stripped(p, o1 + ":" + r1, o2 + ":" + r2);
    HeadIsUnique(o1, r1, o2, r2);
  }

  lemma CommandIdsSeparate(h: Hashes, o1: string, r1: string, e1: string, o2: string, r2: string, e2: string)
    requires CollisionFree(h)
    requires DecisionCommandId(h, DecisionIntentId(h, o1, r1), e1) ==
               DecisionCommandId(h, DecisionIntentId(h, o2, r2), e2)
    ensures DecisionIntentId(h, o1, r1) == DecisionIntentId(h, o2, r2) && e1 == e2
  {
    var i1, i2, p := DecisionIntentId(h, o1, r1), DecisionIntentId(h, o2, r2), "eidolon-admission-decision-command-v1:";
    Stripped("decide-enrollment-", h.uuid5(p + (i1 + ":" + e1)), h.uuid5(p + (i2 + ":" + e2)));
    Stripped(p, i1 + ":" + e1, i2 + ":" + e2);
    assert ColonFree(i1) && ColonFree(i2);
    HeadIsUnique(i1, e1, i2, e2);
  }

  /** The ledger theorem for admissions: one decision command per request, at most one
      Hub effect, and a row says `decision_committed` exactly when it holds a result,
      so the workflow answer's coherence check never fails. */
  lemma DecisionsHappenAtMostOnce(h: Hashes, run: seq<Event<AdmissionContent, DecideEnrollmentResult>>)
    requires CollisionFree(h) && Submits(run)
    ensures
      var w := After(AdmissionNaming(h), Start(), run);
      && (forall c1, c2 | c1 in w.sent && c2 in w.sent && SameRequest(c1, c2) :: c1 == c2)
      && (forall k1, k2 | k1 in w.hub && k2 in w.hub && SameRequest(w.hub[k1].command, w.hub[k2].command) :: k1 == k2)
      && (forall id :: id in w.ledger ==> (w.ledger[id].stage == Committed <==> w.ledger[id].result.Some?))
  {
    AdmissionNamingSeparates(h);
    EffectsAtMostOnce(AdmissionNaming(h), run);
  }

  /** The fields `_assert_same_intent` compares. */
  predicate SameIntent(existing: AdmissionIntent, candidate: AdmissionIntent) {
    && existing.content.businessOwnerId == candidate.content.businessOwnerId
    && existing.content.enrollmentId == candidate.content.enrollmentId
    && existing.content.actorSha256 == candidate.content.actorSha256
    && existing.content.decisionSha256 == candidate.content.decisionSha256
    && existing.commandId == candidate.commandId
  }

  ghost predicate Digested(h: Hashes, c: AdmissionContent) {
    c.actorSha256 == Digest(h, c.actorJson) && c.decisionSha256 == Digest(h, c.decisionJson)
  }

  lemma SameIntentIsSameContent(h: Hashes, a: AdmissionIntent, b: AdmissionIntent)
    requires CollisionFree(h) && Digested(h, a.content) && Digested(h, b.content)
    requires a.commandId == DecisionCommandId(h, a.intentId, a.content.enrollmentId)
    requires b.commandId == DecisionCommandId(h, b.intentId, b.content.enrollmentId)
    requires a.intentId == b.intentId
    ensures SameIntent(a, b) <==> a.content == b.content
  {
    if SameIntent(a, b) {
      Stripped("sha256:", h.sha256(a.content.actorJson), h.sha256(b.content.actorJson));
      Stripped("sha256:", h.sha256(a.content.decisionJson), h.sha256(b.content.decisionJson));
    }
  }

  class InMemoryAdmissionDecisionIntentStore {
    const hashes: Hashes
    var values: map<string, AdmissionIntent>

    ghost predicate Valid()
      reads this
    {
      && CollisionFree(hashes)
      && forall id :: id in values ==>
           RowBound(AdmissionNaming(hashes), id, values[id]) && Digested(hashes, values[id].content)
    }

    constructor (hashes: Hashes)
      requires CollisionFree(hashes)
      ensures this.hashes == hashes && values == map[] && Valid()
    {
      this.hashes := hashes;
      values := map[];
    }

    method GetOrCreate(requestId: string, ownerDomain: string, businessOwnerId: string, enrollmentId: string,
                       actorJson: string, decisionJson: string, now: int)
      returns (answer: Answer)
      requires Valid()
      modifies this
      ensures Valid()
      ensures (answer, values) ==
                IntentLedger.GetOrCreate(AdmissionNaming(hashes), old(values), ownerDomain, requestId,
                                         ContentOf(hashes, businessOwnerId, enrollmentId, actorJson, decisionJson), now)
    {
      var intentId := DecisionIntentId(hashes, ownerDomain, requestId);
      var content := ContentOf(hashes, businessOwnerId, enrollmentId, actorJson, decisionJson);
      var candidate := Intent(intentId, requestId, ownerDomain, content,
                              DecisionCommandId(hashes, intentId, enrollmentId), Recorded, None, now, now);
      if intentId in values {
        assert RowBound(AdmissionNaming(hashes), intentId, values[intentId]);
        SameIntentIsSameContent(hashes, values[intentId], candidate);
        if !SameIntent(values[intentId], candidate) {
          return Err(ContentReused);
        }
        return Ok(values[intentId]);
      }
      values := values[intentId := candidate];
      answer := Ok(candidate);
    }

    method MarkDecisionCommitted(intentId: string, result: DecideEnrollmentResult, now: int) returns (answer: Answer)
      requires Valid()
      modifies this
      ensures Valid()
      ensures (answer, values) == Mark(old(values), intentId, result, now)
      ensures answer.Ok? ==> answer.value.stage == Committed && answer.value.result == Some(result)
    {
      if intentId !in values {
        return Err(UnknownIntent);
      }
      var intent := values[intentId];
      assert RowBound(AdmissionNaming(hashes), intentId, intent);
      if intent.result.Some? && intent.result.value != result {
        return Err(ResultChanged);
      }
      var committed := intent.(stage := Committed, result := Some(result), updatedAt := now);
      assert RowBound(AdmissionNaming(hashes), intentId, committed);
      values := values[intentId := committed];
      answer := Ok(committed);
    }
  }
}
