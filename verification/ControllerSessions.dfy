/**
  Who may drive the Local API
  (`issue_controller_challenge`, `authenticate_controller`, `validate_controller` in
  server/eidolon_admin_server/bootstrap/service.py; `authenticated_controller` in
  local_api/app.py).

  A run interleaves claims, revocations and resets with challenges, signatures,
  authentication attempts, session issue and requests, by any number of phones and
  by anyone else; either process may restart anywhere.  A signature exists only if
  the holder of the key made it; challenges and tokens are fresh draws.
 */
module ControllerSessions {
  import opened Outcomes
  import opened HostStore
  import opened ExpiringTables

  datatype Signature = Signature(publicKey: string, challenge: string, controllerId: string, resetEpoch: nat)

  /** One successful authentication: the challenge it spent, the key that signed, and
      the principal it proved. */
  datatype Proof = Proof(challenge: string, publicKey: string, signedEpoch: nat, principal: Principal)

  datatype World = World(
    store: Store,
    challenges: Table,
    sessions: Table,
    pending: set<nat>,            // proofs whose session the Local API has not issued yet
    issued: set<string>,          // every challenge ever drawn
    signatures: set<Signature>,   // every signature a key holder ever made
    proofs: seq<Proof>,           // every successful authentication, in order
    tokens: map<string, nat>,     // every token ever issued, and the proof behind it
    asking: multiset<Lookup>)     // requests whose session was found and is being validated

  /** A session a request found, and when. */
  datatype Lookup = Lookup(session: Entry, at: int)

  const START := World(EMPTY, [], [], {}, {}, {}, [], map[], multiset{})

  datatype Event =
    | Mint(id: nat, hash: string, now: int)
    | ClaimWith(id: nat, hash: string, controllerId: string, publicKey: string, now: int)
    | Revoke(actor: string, target: string, now: int)
    | Reset(now: int, recovery: Option<Seed>)
    | AskChallenge(controllerId: string, challenge: string, now: int)
    | Sign(signature: Signature)
    | Authenticate(challenge: string, controllerId: string, resetEpoch: nat, signature: Signature, now: int)
    | IssueToken(proof: nat, token: string, ttl: nat, now: int)
    | LookUp(token: string, now: int)
    | Validate(request: Lookup)
    | RestartBootstrap
    | RestartLocalApi

  /** `_active_controller` and the epoch check of `validate_controller`. */
  predicate Authorized(s: Store, p: Principal) {
    ActiveGrant(s, p.controllerId).Some? && p.resetEpoch == s.epoch
  }

  function SessionOf(w: World, token: string): Option<Entry> {
    match Find(w.sessions, token)
    case Some(k) => Some(w.sessions[k])
    case None => None
  }

  /** Whether a request with this token, looked up and validated now, is accepted. */
  predicate Accepted(w: World, token: string, now: int) {
    var k := Find(w.sessions, token);
    k.Some? && w.sessions[k.value].expiresAt > now && Authorized(w.store, w.sessions[k.value].value)
  }

  /** Whether an outstanding request is accepted if it is validated now. */
  predicate LetThrough(w: World, request: Lookup) {
    request in w.asking && Authorized(w.store, request.session.value)
  }

  function Authenticated(w: World, e: Event): World
    requires e.Authenticate?
  {
    var (record, rest) := Pop(Purge(w.challenges, e.now), e.challenge);
    var w1 := w.(challenges := rest);
    if record.None? || record.value.expiresAt <= e.now then w1
    else if e.controllerId != record.value.value.controllerId || e.resetEpoch != record.value.value.resetEpoch then w1
    else
      var grant := ActiveGrant(w.store, e.controllerId);
      if grant.None? then w1
      else if e.signature != Signature(grant.value.publicKey, e.challenge, e.controllerId, e.resetEpoch)
           || e.signature !in w.signatures then w1
      else
        w1.(proofs := w.proofs + [Proof(e.challenge, grant.value.publicKey, e.resetEpoch,
                                        Principal(e.controllerId, w.store.epoch))],
            pending := w.pending + {|w.proofs|})
  }

  ghost function Next(w: World, e: Event): World {
    match e
    case Mint(id, hash, now) =>
      if UnusedId(w.store, id) then w.(store := IssueSession(w.store, id, hash, now, None)) else w
    case ClaimWith(id, hash, controllerId, publicKey, now) =>
      w.(store := Claim(w.store, id, hash, controllerId, publicKey, now).1)
    case Revoke(actor, target, now) =>
      if ActiveGrant(w.store, actor).Some? then w.(store := RevokeController(w.store, target, now)) else w
    case Reset(now, recovery) =>
      if recovery.Some? ==> UnusedId(w.store, recovery.value.id)
      then w.(store := ResetAuthority(w.store, now, recovery)) else w
    case AskChallenge(controllerId, challenge, now) =>
      if ActiveGrant(w.store, controllerId).Some? && challenge !in w.issued
      then w.(challenges := ExpiringTables.Issue(w.challenges, 256, now,
                Entry(challenge, now + 60, Principal(controllerId, w.store.epoch))),
              issued := w.issued + {challenge})
      else w
    case Sign(signature) => w.(signatures := w.signatures + {signature})
    case Authenticate(_, _, _, _, _) => Authenticated(w, e)
    case IssueToken(proof, token, ttl, now) =>
      if proof in w.pending && proof < |w.proofs| && token !in w.tokens
      then w.(sessions := ExpiringTables.Issue(w.sessions, 1024, now,
                Entry(token, now + ttl, w.proofs[proof].principal)),
              tokens := w.tokens[token := proof],
              pending := w.pending - {proof})
      else w
    case LookUp(token, now) =>
      var found := SessionOf(w, token);
      if found.Some? && found.value.expiresAt > now
      then w.(asking := w.asking + multiset{Lookup(found.value, now)})
      else w.(sessions := Pop(w.sessions, token).1)
    case Validate(request) =>
      if request !in w.asking then w
      else
        var w1 := w.(asking := w.asking - multiset{request});
        if LetThrough(w, request) then w1 else w1.(sessions := Pop(w.sessions, request.session.key).1)
    case RestartBootstrap => w.(challenges := [])
    case RestartLocalApi => w.(sessions := [], pending := {}, asking := multiset{})
  }

  // ----- the invariant -----

  ghost predicate StoreInv(w: World) {
    GrantsOk(w.store) && WindowsOk(w.store)
  }

  ghost predicate Spent(w: World, challenge: string) {
    exists k :: 0 <= k < |w.proofs| && w.proofs[k].challenge == challenge
  }

  ghost predicate ChallengeInv(w: World) {
    && DistinctKeys(w.challenges) && |w.challenges| <= 256
    && (forall e :: e in w.challenges ==> e.key in w.issued && !Spent(w, e.key) && e.value.resetEpoch <= w.store.epoch)
  }

  /** A proof stands on a signature by the key its Controller's grant holds, in an
      epoch that has begun. */
  ghost predicate ProofOk(w: World, p: Proof) {
    var key := (p.principal.resetEpoch, p.principal.controllerId);
    && p.challenge in w.issued
    && p.signedEpoch <= p.principal.resetEpoch <= w.store.epoch
    && key in w.store.grants && w.store.grants[key].publicKey == p.publicKey
    && Signature(p.publicKey, p.challenge, p.principal.controllerId, p.signedEpoch) in w.signatures
  }

  ghost predicate ProofInv(w: World) {
    && (forall k :: 0 <= k < |w.proofs| ==> ProofOk(w, w.proofs[k]))
    && (forall j, k :: 0 <= j < k < |w.proofs| ==> w.proofs[j].challenge != w.proofs[k].challenge)
  }

  ghost predicate SessionInv(w: World) {
    && DistinctKeys(w.sessions) && |w.sessions| <= 1024
    && (forall t :: t in w.tokens ==> w.tokens[t] < |w.proofs|)
    && (forall e :: e in w.sessions ==> e.key in w.tokens && w.proofs[w.tokens[e.key]].principal == e.value)
  }

  /** An outstanding request found a session that was issued and unexpired. */
  ghost predicate AskingInv(w: World) {
    forall r :: r in w.asking ==>
      && r.session.key in w.tokens && w.tokens[r.session.key] < |w.proofs|
      && w.proofs[w.tokens[r.session.key]].principal == r.session.value
      && r.session.expiresAt > r.at
  }

  ghost predicate Inv(w: World) {
    StoreInv(w) && ChallengeInv(w) && ProofInv(w) && SessionInv(w) && AskingInv(w)
  }

  /** History only accumulates. */
  ghost predicate Continues(w: World, w': World) {
    && Grows(w.store, w'.store)
    && w.proofs <= w'.proofs
    && w.issued <= w'.issued && w.signatures <= w'.signatures
    && (forall t :: t in w.tokens ==> t in w'.tokens && w'.tokens[t] == w.tokens[t])
  }

  // ----- every step keeps it -----

  lemma ProofStays(w: World, w': World, p: Proof)
    requires ProofOk(w, p) && Grows(w.store, w'.store) && w.issued <= w'.issued && w.signatures <= w'.signatures
    ensures ProofOk(w', p)
  {
  }

  lemma StoreStepKeeps(w: World, w': World)
    requires Inv(w) && w' == w.(store := w'.store)
    requires GrantsOk(w'.store) && WindowsOk(w'.store) && Grows(w.store, w'.store)
    ensures Inv(w') && Continues(w, w')
  {
  }

  lemma AskKeeps(w: World, e: Event)
    requires Inv(w) && e.AskChallenge?
    ensures Inv(Next(w, e)) && Continues(w, Next(w, e))
  {
    var w' := Next(w, e);
    if w' != w {
      var entry := Entry(e.challenge, e.now + 60, Principal(e.controllerId, w.store.epoch));
      IssueBounded(w.challenges, 256, e.now, entry);
      assert !Spent(w, e.challenge);
      assert forall c :: Spent(w', c) == Spent(w, c);
      forall k | 0 <= k < |w.proofs| ensures ProofOk(w', w'.proofs[k]) {
        ProofStays(w, w', w.proofs[k]);
      }
    }
  }

  /** An attempt takes the challenge out of the table whatever comes of it; a success
      needs an unexpired record of it, an active grant and that grant's signature. */
  lemma AuthenticateSpends(w: World, e: Event)
    requires DistinctKeys(w.challenges) && e.Authenticate?
    ensures
      var w' := Authenticated(w, e);
      && DistinctKeys(w'.challenges) && |w'.challenges| <= |w.challenges| && !HasKey(w'.challenges, e.challenge)
      && (forall x :: x in w'.challenges ==> x in w.challenges && x.key != e.challenge)
      && (w'.proofs != w.proofs ==>
            && (exists x :: x in w.challenges && x.key == e.challenge && x.expiresAt > e.now &&
                  x.value == Principal(e.controllerId, e.resetEpoch))
            && ActiveGrant(w.store, e.controllerId).Some?
            && e.signature in w.signatures
            && e.signature == Signature(ActiveGrant(w.store, e.controllerId).value.publicKey,
                                        e.challenge, e.controllerId, e.resetEpoch)
            && w'.proofs == w.proofs + [Proof(e.challenge, e.signature.publicKey, e.resetEpoch,
                                              Principal(e.controllerId, w.store.epoch))])
  {
    PurgeExact(w.challenges, e.now);
    PopExact(Purge(w.challenges, e.now), e.challenge);
  }

  /** An attempt succeeds exactly with an unexpired record of its challenge, drawn for this
      Controller in this epoch, an active grant, and that grant's signature over it. */
  lemma AuthenticatesExactly(w: World, e: Event)
    requires DistinctKeys(w.challenges) && e.Authenticate?
    ensures Authenticated(w, e).proofs != w.proofs <==>
              && Entry(e.challenge, ExpiryOf(w.challenges, e.challenge), Principal(e.controllerId, e.resetEpoch))
                   in w.challenges
              && ExpiryOf(w.challenges, e.challenge) > e.now
              && ActiveGrant(w.store, e.controllerId).Some?
              && e.signature == Signature(ActiveGrant(w.store, e.controllerId).value.publicKey,
                                          e.challenge, e.controllerId, e.resetEpoch)
              && e.signature in w.signatures
  {
    var purged := Purge(w.challenges, e.now);
    PurgeExact(w.challenges, e.now);
    PopExact(purged, e.challenge);
    KeyIsUnique(w.challenges, e.challenge);
    KeyIsUnique(purged, e.challenge);
  }

  function ExpiryOf(t: Table, key: string): int {
    match Find(t, key)
    case Some(k) => t[k].expiresAt
    case None => 0
  }

  lemma KeyIsUnique(t: Table, key: string)
    requires DistinctKeys(t)
    ensures forall e :: e in t && e.key == key ==> Find(t, key).Some? && t[Find(t, key).value] == e
  {
    forall e | e in t && e.key == key ensures Find(t, key).Some? && t[Find(t, key).value] == e {
      var i :| 0 <= i < |t| && t[i] == e;
      assert HasKey(t, key);
      assert Find(t, key).value == i;
    }
  }

  lemma SmallerTablesKeep(w: World, w': World)
    requires Inv(w)
    requires w' == w.(challenges := w'.challenges, sessions := w'.sessions, asking := w'.asking,
                      pending := w'.pending, signatures := w'.signatures)
    requires w.signatures <= w'.signatures && w'.asking <= w.asking
    requires DistinctKeys(w'.challenges) && |w'.challenges| <= 256
    requires forall e :: e in w'.challenges ==> e in w.challenges
    requires DistinctKeys(w'.sessions) && |w'.sessions| <= 1024 && forall e :: e in w'.sessions ==> e in w.sessions
    ensures Inv(w') && Continues(w, w')
  {
  }

  lemma ProofAdded(w: World, w': World, p: Proof)
    requires Inv(w) && ProofOk(w', p) && !Spent(w, p.challenge)
    requires w' == w.(challenges := w'.challenges, proofs := w.proofs + [p], pending := w'.pending)
    requires DistinctKeys(w'.challenges) && |w'.challenges| <= 256
    requires forall x :: x in w'.challenges ==> x in w.challenges && x.key != p.challenge
    ensures Inv(w') && Continues(w, w')
  {
  }

  lemma AuthenticateKeeps(w: World, e: Event)
    requires Inv(w) && e.Authenticate?
    ensures Inv(Next(w, e)) && Continues(w, Next(w, e))
  {
    var w' := Authenticated(w, e);
    AuthenticateSpends(w, e);
    if w'.proofs == w.proofs {
      SmallerTablesKeep(w, w');
    } else {
      var x :| x in w.challenges && x.key == e.challenge && x.expiresAt > e.now &&
               x.value == Principal(e.controllerId, e.resetEpoch);
      var p := Proof(e.challenge, e.signature.publicKey, e.resetEpoch, Principal(e.controllerId, w.store.epoch));
      ProofAdded(w, w', p);
    }
  }

  lemma IssueTokenKeeps(w: World, e: Event)
    requires Inv(w) && e.IssueToken?
    ensures Inv(Next(w, e)) && Continues(w, Next(w, e))
  {
    var w' := Next(w, e);
    if w' != w {
      IssueBounded(w.sessions, 1024, e.now, Entry(e.token, e.now + e.ttl, w.proofs[e.proof].principal));
      assert forall c :: Spent(w', c) == Spent(w, c);
      forall k | 0 <= k < |w.proofs| ensures ProofOk(w', w'.proofs[k]) {
        ProofStays(w, w', w.proofs[k]);
      }
    }
  }

  lemma LookUpKeeps(w: World, token: string, now: int)
    requires Inv(w)
    ensures Inv(Next(w, LookUp(token, now))) && Continues(w, Next(w, LookUp(token, now)))
  {
    var found := SessionOf(w, token);
    if found.Some? && found.value.expiresAt > now {
      assert found.value in w.sessions;
      FoundKeeps(w, Lookup(found.value, now));
    } else {
      PopExact(w.sessions, token);
      SmallerTablesKeep(w, Next(w, LookUp(token, now)));
    }
  }

  lemma FoundKeeps(w: World, request: Lookup)
    requires Inv(w) && request.session in w.sessions && request.session.expiresAt > request.at
    ensures
      var w' := w.(asking := w.asking + multiset{request});
      Inv(w') && Continues(w, w')
  {
    var w' := w.(asking := w.asking + multiset{request});
    assert forall c :: Spent(w', c) == Spent(w, c);
    forall k | 0 <= k < |w.proofs| ensures ProofOk(w', w'.proofs[k]) {
      ProofStays(w, w', w.proofs[k]);
    }
  }

  lemma ValidateKeeps(w: World, request: Lookup)
    requires Inv(w)
    ensures Inv(Next(w, Validate(request))) && Continues(w, Next(w, Validate(request)))
  {
    if request in w.asking {
      var w1 := w.(asking := w.asking - multiset{request});
      assert w1.asking <= w.asking;
      if LetThrough(w, request) {
        SmallerTablesKeep(w, w1);
      } else {
        PopExact(w.sessions, request.session.key);
        SmallerTablesKeep(w, w1.(sessions := Pop(w.sessions, request.session.key).1));
      }
    }
  }

  lemma AuthorityStepKeeps(w: World, e: Event)
    requires Inv(w) && (e.Mint? || e.ClaimWith? || e.Revoke? || e.Reset?)
    ensures Inv(Next(w, e)) && Continues(w, Next(w, e))
  {
    match e {
      case Mint(id, hash, now) =>
        if UnusedId(w.store, id) { IssueKeeps(w.store, id, hash, now, None); }
      case ClaimWith(id, hash, controllerId, publicKey, now) =>
        ClaimKeeps(w.store, id, hash, controllerId, publicKey, now);
      case Revoke(_, target, now) => RevokeKeeps(w.store, target, now);
      case Reset(now, recovery) =>
        if recovery.Some? ==> UnusedId(w.store, recovery.value.id) { ResetKeeps(w.store, now, recovery); }
    }
    StoreStepKeeps(w, Next(w, e));
  }

  lemma StepKeeps(w: World, e: Event)
    requires Inv(w)
    ensures Inv(Next(w, e)) && Continues(w, Next(w, e))
  {
    match e
    case AskChallenge(_, _, _) => AskKeeps(w, e);
    case Authenticate(_, _, _, _, _) => AuthenticateKeeps(w, e);
    case IssueToken(_, _, _, _) => IssueTokenKeeps(w, e);
    case LookUp(token, now) => LookUpKeeps(w, token, now);
    case Validate(request) => ValidateKeeps(w, request);
    case Sign(_) => SmallerTablesKeep(w, Next(w, e));
    case RestartBootstrap => SmallerTablesKeep(w, Next(w, e));
    case RestartLocalApi => SmallerTablesKeep(w, Next(w, e));
    case _ => AuthorityStepKeeps(w, e);
  }

  ghost function After(w: World, run: seq<Event>): World
    decreases |run|
  {
    if run == [] then w else After(Next(w, run[0]), run[1..])
  }

  lemma {:induction false} RunKeeps(w: World, run: seq<Event>)
    requires Inv(w)
    ensures Inv(After(w, run)) && Continues(w, After(w, run))
    decreases |run|
  {
    if run != [] {
      StepKeeps(w, run[0]);
      RunKeeps(Next(w, run[0]), run[1..]);
    }
  }

  // ----- whole runs -----

  /** Proof k stands behind session e: same principal; its challenge was drawn for the
      purpose and is spent; the key that signed is the one the active grant holds. */
  ghost predicate ProvenBy(w: World, e: Entry, k: nat) {
    && k < |w.proofs| && w.proofs[k].principal == e.value
    && w.proofs[k].challenge in w.issued && !HasKey(w.challenges, w.proofs[k].challenge)
    && ActiveGrant(w.store, e.value.controllerId).Some?
    && w.proofs[k].publicKey == ActiveGrant(w.store, e.value.controllerId).value.publicKey
    && Signature(w.proofs[k].publicKey, w.proofs[k].challenge, e.value.controllerId, w.proofs[k].signedEpoch)
         in w.signatures
  }

  /** Every accepted request, in every run: its session is unexpired, its Controller's
      grant is active in the current epoch, and the session was obtained by a
      successful authentication in this same epoch that spent a challenge and was
      signed with the very key the grant holds. */
  lemma AcceptedRequestIsProven(run: seq<Event>, token: string, now: int) returns (e: Entry, k: nat)
    requires Accepted(After(START, run), token, now)
    ensures
      var w := After(START, run);
      e in w.sessions && e.key == token && e.expiresAt > now && e.value.resetEpoch == w.store.epoch && ProvenBy(w, e, k)
  {
    RunKeeps(START, run);
    var w := After(START, run);
    e := w.sessions[Find(w.sessions, token).value];
    assert e in w.sessions;
    k := w.tokens[e.key];
    assert ProofOk(w, w.proofs[k]);
    SpentIsGone(w, k);
  }

  /** The same of a request validated some time after its session was found. */
  lemma OutstandingRequestIsProven(run: seq<Event>, request: Lookup) returns (k: nat)
    requires LetThrough(After(START, run), request)
    ensures
      var w := After(START, run);
      && request.session.expiresAt > request.at && request.session.value.resetEpoch == w.store.epoch
      && ProvenBy(w, request.session, k)
  {
    RunKeeps(START, run);
    var w := After(START, run);
    k := w.tokens[request.session.key];
    assert ProofOk(w, w.proofs[k]);
    SpentIsGone(w, k);
  }

  lemma SpentIsGone(w: World, k: nat)
    requires ChallengeInv(w) && k < |w.proofs|
    ensures !HasKey(w.challenges, w.proofs[k].challenge)
  {
  }

  /** No session from before a reset is accepted again, whatever happens after it: not
      even if the same phone claims the Host anew, nor by a request that had found it. */
  lemma ResetEndsEverySession(first: seq<Event>, rest: seq<Event>, token: string, now: int)
    requires token in After(START, first).tokens
    requires After(START, first).store.epoch < After(After(START, first), rest).store.epoch
    ensures !Accepted(After(After(START, first), rest), token, now)
    ensures forall r :: r in After(After(START, first), rest).asking && r.session.key == token ==>
              !LetThrough(After(After(START, first), rest), r)
  {
    RunKeeps(START, first);
    var w := After(START, first);
    RunKeeps(w, rest);
    var w' := After(w, rest);
    var i := w.tokens[token];
    assert w'.proofs[i] == w.proofs[i];
    assert ProofOk(w, w.proofs[i]);
    var k := Find(w'.sessions, token);
    if k.Some? {
      assert w'.sessions[k.value] in w'.sessions;
    }
  }

  /** Both tables stay within their bounds and no challenge is ever answered twice, in every run. */
  lemma TablesStayBounded(run: seq<Event>)
    ensures
      var w := After(START, run);
      && |w.challenges| <= 256 && |w.sessions| <= 1024
      && (forall j, k :: 0 <= j < k < |w.proofs| ==> w.proofs[j].challenge != w.proofs[k].challenge)
  {
    RunKeeps(START, run);
  }

  // ----- one session for one proof -----

  /** Each proof is waiting for its session, or has the one it was given, or neither. */
  ghost predicate PendingOk(w: World) {
    && (forall p :: p in w.pending ==> p < |w.proofs|)
    && (forall t :: t in w.tokens ==> w.tokens[t] < |w.proofs| && w.tokens[t] !in w.pending)
    && (forall t, u :: t in w.tokens && u in w.tokens && w.tokens[t] == w.tokens[u] ==> t == u)
  }

  lemma StepKeepsPending(w: World, e: Event)
    requires PendingOk(w)
    ensures PendingOk(Next(w, e))
  {
  }

  lemma {:induction false} RunKeepsPending(w: World, run: seq<Event>)
    requires PendingOk(w)
    ensures PendingOk(After(w, run))
    decreases |run|
  {
    if run != [] {
      StepKeepsPending(w, run[0]);
      RunKeepsPending(Next(w, run[0]), run[1..]);
    }
  }

  /** In every run one successful authentication gives at most one session. */
  lemma OneSessionPerProof(run: seq<Event>, t: string, u: string)
    requires t in After(START, run).tokens && u in After(START, run).tokens
    requires After(START, run).tokens[t] == After(START, run).tokens[u]
    ensures t == u
  {
    RunKeepsPending(START, run);
  }

  // ----- what a revocation does not do -----

  /** A revocation alone ends the revoked phone's sessions. */
  lemma RevocationEndsSessions(w: World, actor: string, token: string, revokedAt: int, now: int)
    requires Inv(w) && Accepted(w, token, now)
    requires
      var cid := w.sessions[Find(w.sessions, token).value].value.controllerId;
      ActiveGrant(w.store, actor).Some? && SomeOtherActive(w.store, cid)
    ensures
      var cid := w.sessions[Find(w.sessions, token).value].value.controllerId;
      !Accepted(Next(w, Revoke(actor, cid, revokedAt)), token, now)
  {
  }

  ghost predicate ClaimedAnew(e: Event, controllerId: string) {
    e.ClaimWith? && e.controllerId == controllerId
  }

  lemma StaysInactive(w: World, e: Event, controllerId: string)
    requires Inv(w) && ActiveGrant(w.store, controllerId).None? && !ClaimedAnew(e, controllerId)
    ensures ActiveGrant(Next(w, e).store, controllerId).None?
  {
    match e
    case ClaimWith(id, hash, other, publicKey, now) => AuthorizeKeeps(w.store, id, hash, now);
    case Reset(now, recovery) =>
      if recovery.Some? ==> UnusedId(w.store, recovery.value.id) { ResetKeeps(w.store, now, recovery); }
    case _ =>
  }

  lemma {:induction false} InactiveUntilClaimedAnew(w: World, run: seq<Event>, controllerId: string)
    requires Inv(w) && ActiveGrant(w.store, controllerId).None?
    requires forall k :: 0 <= k < |run| ==> !ClaimedAnew(run[k], controllerId)
    ensures Inv(After(w, run)) && ActiveGrant(After(w, run).store, controllerId).None?
    decreases |run|
  {
    if run != [] {
      StaysInactive(w, run[0], controllerId);
      StepKeeps(w, run[0]);
      InactiveUntilClaimedAnew(Next(w, run[0]), run[1..], controllerId);
    }
  }

  /** A phone without an active grant, revoked or reset away, gets no request accepted
      in any run in which it does not claim anew, outstanding ones included. */
  lemma OutUntilClaimedAnew(w: World, run: seq<Event>, controllerId: string, token: string, now: int)
    requires Inv(w) && ActiveGrant(w.store, controllerId).None?
    requires forall k :: 0 <= k < |run| ==> !ClaimedAnew(run[k], controllerId)
    ensures
      var found := SessionOf(After(w, run), token);
      found.Some? && found.value.value.controllerId == controllerId ==> !Accepted(After(w, run), token, now)
    ensures forall r :: r in After(w, run).asking && r.session.value.controllerId == controllerId ==>
              !LetThrough(After(w, run), r)
  {
    InactiveUntilClaimedAnew(w, run, controllerId);
  }

  /** But within one epoch a revocation is undone by a new claim: when the revoked
      phone claims again with its key, its session from before the revocation is
      accepted again, with no new authentication. */
  lemma ReclaimRevivesOldSessions(w: World, actor: string, token: string, id: nat, hash: string, t: int, now: int)
    requires Inv(w) && Accepted(w, token, now)
    requires
      var cid := w.sessions[Find(w.sessions, token).value].value.controllerId;
      ActiveGrant(w.store, actor).Some? && SomeOtherActive(w.store, cid) && UnusedId(w.store, id)
    ensures
      var cid := w.sessions[Find(w.sessions, token).value].value.controllerId;
      var key := ActiveGrant(w.store, cid).value.publicKey;
      var w' := Next(Next(Next(w, Revoke(actor, cid, t)), Mint(id, hash, t)), ClaimWith(id, hash, cid, key, t));
      Accepted(w', token, now) && w'.proofs == w.proofs
  {
    var cid := w.sessions[Find(w.sessions, token).value].value.controllerId;
    var s1 := RevokeController(w.store, cid, t);
    RevokeKeeps(w.store, cid, t);
    assert s1.grants[(s1.epoch, cid)].publicKey == ActiveGrant(w.store, cid).value.publicKey;
    ReclaimGrants(s1, id, hash, cid, t);
  }

  // ----- exactly when an issued token can still be accepted -----

  /** The table still holds the token's session, of the current epoch. */
  predicate Held(w: World, token: string) {
    SessionOf(w, token).Some? && SessionOf(w, token).value.value.resetEpoch == w.store.epoch
  }

  lemma SessionIsUnique(w: World, e: Entry)
    requires DistinctKeys(w.sessions) && e in w.sessions
    ensures SessionOf(w, e.key) == Some(e)
  {
    var i :| 0 <= i < |w.sessions| && w.sessions[i] == e;
    assert HasKey(w.sessions, e.key);
    var k := Find(w.sessions, e.key).value;
    assert k == i;
  }

  lemma IssuedUnderItsOwnToken(w: World, e: Event, x: Entry)
    requires SessionInv(w) && e.IssueToken? && x.key in w.tokens && x in Next(w, e).sessions
    ensures x in w.sessions
  {
    if Next(w, e) != w {
      IssueBounded(w.sessions, 1024, e.now, Entry(e.token, e.now + e.ttl, w.proofs[e.proof].principal));
    }
  }

  lemma RequestAddsNothing(w: World, e: Event, token: string, x: Entry)
    requires DistinctKeys(w.sessions) && x in Next(w, e).sessions
    requires (e.LookUp? && e.token == token) || (e.Validate? && e.request.session.key == token)
    ensures x in w.sessions
  {
    assert Next(w, e).sessions == w.sessions || Next(w, e).sessions == Pop(w.sessions, token).1;
    PopExact(w.sessions, token);
  }

  lemma NoSessionIsAddedUnder(w: World, e: Event, x: Entry)
    requires Inv(w) && x.key in w.tokens && x in Next(w, e).sessions
    ensures x in w.sessions
  {
    match e
    case IssueToken(_, _, _, _) => IssuedUnderItsOwnToken(w, e, x);
    case LookUp(token, _) => RequestAddsNothing(w, e, token, x);
    case Validate(request) => RequestAddsNothing(w, e, request.session.key, x);
    case _ =>
  }

  /** A token is never given to another session: what a step leaves under it was there before. */
  lemma TokenKeepsItsSession(w: World, e: Event, token: string)
    requires Inv(w) && token in w.tokens
    ensures SessionOf(Next(w, e), token).Some? ==> SessionOf(Next(w, e), token) == SessionOf(w, token)
  {
    var found := SessionOf(Next(w, e), token);
    if found.Some? {
      NoSessionIsAddedUnder(w, e, found.value);
      SessionIsUnique(w, found.value);
    }
  }

  lemma {:induction false} RunKeepsSession(w: World, run: seq<Event>, token: string)
    requires Inv(w) && token in w.tokens
    ensures SessionOf(After(w, run), token).Some? ==> SessionOf(After(w, run), token) == SessionOf(w, token)
    decreases |run|
  {
    if run != [] {
      StepKeeps(w, run[0]);
      TokenKeepsItsSession(w, run[0], token);
      RunKeepsSession(Next(w, run[0]), run[1..], token);
    }
  }

  lemma HeldStandsOnAGrant(w: World, token: string)
    requires Inv(w) && Held(w, token)
    ensures (w.store.epoch, SessionOf(w, token).value.value.controllerId) in w.store.grants
  {
    var e := SessionOf(w, token).value;
    assert e in w.sessions;
    assert ProofOk(w, w.proofs[w.tokens[e.key]]);
  }

  lemma {:induction false} SomeUnusedId(sessions: seq<Session>) returns (id: nat)
    ensures forall k :: 0 <= k < |sessions| ==> sessions[k].id < id
  {
    if sessions == [] {
      id := 0;
    } else {
      var last := sessions[|sessions| - 1];
      id := SomeUnusedId(sessions[..|sessions| - 1]);
      if id <= last.id { id := last.id + 1; }
    }
  }

  /** Minting a window and claiming it with the key it has always had gives a Controller
      known in this epoch an active grant again. */
  lemma ReclaimGrants(s: Store, id: nat, hash: string, controllerId: string, now: int)
    requires UnusedId(s, id) && (s.epoch, controllerId) in s.grants && ActiveGrant(s, controllerId).None?
    ensures
      var s' := Claim(IssueSession(s, id, hash, now, None), id, hash, controllerId,
                      s.grants[(s.epoch, controllerId)].publicKey, now).1;
      s'.epoch == s.epoch && ActiveGrant(s', controllerId).Some?
  {
    var s2 := IssueSession(s, id, hash, now, None);
    var last := |s2.sessions| - 1;
    assert s2.sessions[last] == NewSession(id, hash, now, None);
    assert IndexOf(s2.sessions, id) == Some(last);
    assert Authorize(s2, id, hash, now) == (true, s2);
  }

  lemma HeldIsRevived(w: World, token: string, now: int) returns (run: seq<Event>)
    requires Inv(w) && Held(w, token) && SessionOf(w, token).value.expiresAt > now
    ensures AcceptedAfter(w, run, token, now)
  {
    HeldStandsOnAGrant(w, token);
    run := Reactivate(w, SessionOf(w, token).value.value, now);
  }

  ghost predicate AcceptedAfter(w: World, run: seq<Event>, token: string, now: int) {
    Accepted(After(w, run), token, now)
  }

  lemma AcceptedWasHeld(w: World, run: seq<Event>, token: string, now: int)
    requires Inv(w) && token in w.tokens && AcceptedAfter(w, run, token, now)
    ensures Held(w, token) && SessionOf(w, token).value.expiresAt > now
  {
    RunKeeps(w, run);
    RunKeepsSession(w, run, token);
    var e := SessionOf(w, token).value;
    assert e in w.sessions;
    assert ProofOk(w, w.proofs[w.tokens[e.key]]);
  }

  /** Exactly when a token can ever be accepted again, from any point on and whatever
      happened to its Controller: the table still holds its session, the session is of
      the current epoch, and it is unexpired.  A revocation changes none of these. */
  lemma AcceptableAgainExactly(w: World, token: string, now: int)
    requires Inv(w) && token in w.tokens
    ensures (exists run :: AcceptedAfter(w, run, token, now)) <==>
              Held(w, token) && SessionOf(w, token).value.expiresAt > now
  {
    if run :| AcceptedAfter(w, run, token, now) {
      AcceptedWasHeld(w, run, token, now);
    }
    if Held(w, token) && SessionOf(w, token).value.expiresAt > now {
      var run := HeldIsRevived(w, token, now);
      assert AcceptedAfter(w, run, token, now);
    }
  }

  // ----- and an outstanding request -----

  ghost predicate LetThroughAfter(w: World, run: seq<Event>, request: Lookup) {
    LetThrough(After(w, run), request)
  }

  /** Minting and claiming, if the Controller is not active now, makes it so; requests stay outstanding. */
  lemma Reactivate(w: World, p: Principal, now: int) returns (run: seq<Event>)
    requires p.resetEpoch == w.store.epoch && (w.store.epoch, p.controllerId) in w.store.grants
    ensures
      var w' := After(w, run);
      Authorized(w'.store, p) && w'.sessions == w.sessions && w'.asking == w.asking
  {
    if ActiveGrant(w.store, p.controllerId).Some? {
      run := [];
    } else {
      var id := SomeUnusedId(w.store.sessions);
      var mint := Mint(id, "", now);
      var claim := ClaimWith(id, "", p.controllerId, w.store.grants[(w.store.epoch, p.controllerId)].publicKey, now);
      run := [mint, claim];
      ReclaimGrants(w.store, id, "", p.controllerId, now);
      assert run[1..] == [claim] && [claim][1..] == [];
      assert After(Next(w, mint), [claim]) == Next(Next(w, mint), claim);
    }
  }

  /** A request that has found its session can still be let through exactly when the
      session is of the current epoch: neither a revocation, nor the session's expiry,
      nor its removal by another refused request stops it. */
  lemma OutstandingAcceptableExactly(w: World, request: Lookup)
    requires Inv(w) && request in w.asking
    ensures (exists run :: LetThroughAfter(w, run, request)) <==> request.session.value.resetEpoch == w.store.epoch
  {
    var proof := w.proofs[w.tokens[request.session.key]];
    assert ProofOk(w, proof);
    if run :| LetThroughAfter(w, run, request) {
      RunKeeps(w, run);
    }
    if request.session.value.resetEpoch == w.store.epoch {
      var run := Reactivate(w, request.session.value, request.at);
      assert LetThroughAfter(w, run, request);
    }
  }

  lemma RefusedIsDropped(w: World, request: Lookup)
    requires Inv(w) && request in w.asking && !LetThrough(w, request)
    ensures SessionOf(Next(w, Validate(request)), request.session.key) == None
    ensures request.session.key in Next(w, Validate(request)).tokens
  {
    PopExact(w.sessions, request.session.key);
  }

  /** What ends a revoked phone's session for good: one refused request with it.  No
      request made with the token from then on is accepted; only one that had already
      found the session may still be, as `OutstandingAcceptableExactly` says. */
  lemma RefusedOnceIsFinal(w: World, request: Lookup, run: seq<Event>, now: int)
    requires Inv(w) && request in w.asking && !LetThrough(w, request)
    ensures !Accepted(After(Next(w, Validate(request)), run), request.session.key, now)
  {
    var w1 := Next(w, Validate(request));
    StepKeeps(w, Validate(request));
    RefusedIsDropped(w, request);
    if AcceptedAfter(w1, run, request.session.key, now) {
      AcceptedWasHeld(w1, run, request.session.key, now);
    }
  }

  /** A request made and validated at once is accepted exactly as `Accepted` says, and an
      accepted one leaves the sessions alone. */
  lemma RequestIsLookUpThenValidate(w: World, token: string, now: int)
    ensures Accepted(w, token, now) <==>
              SessionOf(w, token).Some? && SessionOf(w, token).value.expiresAt > now &&
              LetThrough(Next(w, LookUp(token, now)), Lookup(SessionOf(w, token).value, now))
    ensures Accepted(w, token, now) ==>
              Next(Next(w, LookUp(token, now)), Validate(Lookup(SessionOf(w, token).value, now))) == w
  {
    if Accepted(w, token, now) {
      var request := Lookup(SessionOf(w, token).value, now);
      assert w.asking + multiset{request} - multiset{request} == w.asking;
    }
  }

  /** A restart of the Local API ends every session issued before it. */
  lemma RestartEndsEverySession(w: World, run: seq<Event>, token: string, now: int)
    requires Inv(w) && token in w.tokens
    ensures !Accepted(After(Next(w, RestartLocalApi), run), token, now)
    ensures Next(w, RestartLocalApi).asking == multiset{}
  {
    StepKeeps(w, RestartLocalApi);
    if AcceptedAfter(Next(w, RestartLocalApi), run, token, now) {
      AcceptedWasHeld(Next(w, RestartLocalApi), run, token, now);
    }
  }

  /** A restart of the bootstrap service forgets every outstanding challenge, and nothing durable. */
  lemma RestartForgetsChallenges(w: World, e: Event)
    requires e.Authenticate?
    ensures Next(w, RestartBootstrap) == w.(challenges := [])
    ensures Next(Next(w, RestartBootstrap), e).proofs == w.proofs
  {
    AuthenticateSpends(Next(w, RestartBootstrap), e);
  }

  // ----- accepted requests exist -----

  /** A phone claims window `id`, authenticates and is given a session. */
  function Admission(id: nat, controllerId: string, key: string, challenge: string, proof: nat, token: string)
    : seq<Event>
  {
    var signature := Signature(key, challenge, controllerId, 0);
    [Mint(id, "h", 0), ClaimWith(id, "h", controllerId, key, 0), AskChallenge(controllerId, challenge, 0),
     Sign(signature), Authenticate(challenge, controllerId, 0, signature, 0), IssueToken(proof, token, 60, 0)]
  }

  const ADMITTED := Admission(1, "c", "k", "x", 0, "t")

  const CLAIMED_STORE := Store(
    0, true, map[(0, "c") := Grant("k", 0, None)],
    [Session(1, "h", 0, None, Some(0), Some("c"), None, 0)])

  lemma ClaimedFromStart()
    ensures Next(Next(START, ADMITTED[0]), ADMITTED[1]) == START.(store := CLAIMED_STORE)
  {
    var s1 := IssueSession(EMPTY, 1, "h", 0, None);
    assert s1.sessions == [NewSession(1, "h", 0, None)];
    assert IndexOf(s1.sessions, 1) == Some(0);
    assert Authorize(s1, 1, "h", 0) == (true, s1);
    assert Claim(s1, 1, "h", "c", "k", 0).1 == CLAIMED_STORE;
  }

  const PROVEN := START.(
    store := CLAIMED_STORE, issued := {"x"}, signatures := {Signature("k", "x", "c", 0)},
    proofs := [Proof("x", "k", 0, Principal("c", 0))], pending := {0})

  const ASKED := START.(
    store := CLAIMED_STORE, challenges := [Entry("x", 60, Principal("c", 0))], issued := {"x"},
    signatures := {Signature("k", "x", "c", 0)})

  lemma FirstGrant()
    ensures ActiveGrant(CLAIMED_STORE, "c") == Some(Grant("k", 0, None))
  {
  }

  lemma AskedFromClaimed()
    ensures Next(Next(START.(store := CLAIMED_STORE), ADMITTED[2]), ADMITTED[3]) == ASKED
  {
    FirstGrant();
    OneEntry(Entry("x", 60, Principal("c", 0)), 256, 0);
  }

  /** Answering the only outstanding challenge, correctly and in time. */
  lemma AnsweringProves(w: World, e: Event, key: string)
    requires e.Authenticate? && ActiveGrant(w.store, e.controllerId).Some?
    requires ActiveGrant(w.store, e.controllerId).value.publicKey == key
    requires w.challenges == [Entry(e.challenge, e.now + 60, Principal(e.controllerId, e.resetEpoch))]
    requires e.signature == Signature(key, e.challenge, e.controllerId, e.resetEpoch) && e.signature in w.signatures
    ensures Authenticated(w, e) == w.(
              challenges := [], pending := w.pending + {|w.proofs|},
              proofs := w.proofs + [Proof(e.challenge, key, e.resetEpoch, Principal(e.controllerId, w.store.epoch))])
  {
    OneEntry(w.challenges[0], 256, e.now);
  }

  const ANSWER := Authenticate("x", "c", 0, Signature("k", "x", "c", 0), 0)

  lemma AnswerIsFifth()
    ensures ADMITTED[4] == ANSWER
  {
  }

  lemma AskedIsAnswerable()
    ensures ActiveGrant(ASKED.store, "c").Some? && ActiveGrant(ASKED.store, "c").value.publicKey == "k"
    ensures ASKED.challenges == [Entry("x", 60, Principal("c", 0))] && ANSWER.signature in ASKED.signatures
  {
    FirstGrant();
  }

  lemma AnsweredIsProven()
    ensures ASKED.(challenges := [], pending := ASKED.pending + {|ASKED.proofs|},
                   proofs := ASKED.proofs + [Proof("x", "k", 0, Principal("c", 0))]) == PROVEN
  {
    assert ASKED.proofs + [Proof("x", "k", 0, Principal("c", 0))] == PROVEN.proofs;
    assert ASKED.pending + {0} == PROVEN.pending;
  }

  lemma ProvenFromAsked()
    ensures Next(ASKED, ADMITTED[4]) == PROVEN
  {
    AnswerIsFifth();
    AskedIsAnswerable();
    AnsweringProves(ASKED, ANSWER, "k");
    AnsweredIsProven();
  }

  const IN_SESSION := PROVEN.(
    sessions := [Entry("t", 60, Principal("c", 0))], tokens := map["t" := 0], pending := {})

  /** The first session issued for an outstanding proof. */
  lemma FirstSession(w: World, proof: nat, token: string, ttl: nat, now: int)
    requires proof in w.pending && proof < |w.proofs| && w.tokens == map[] && w.sessions == [] && ttl > 0
    ensures Next(w, IssueToken(proof, token, ttl, now)) == w.(
              sessions := [Entry(token, now + ttl, w.proofs[proof].principal)],
              tokens := map[token := proof], pending := w.pending - {proof})
  {
    OneEntry(Entry(token, now + ttl, w.proofs[proof].principal), 1024, now);
  }

  lemma SessionFromProven()
    ensures Next(PROVEN, ADMITTED[5]) == IN_SESSION
  {
    assert PROVEN.proofs[0].principal == Principal("c", 0);
    FirstSession(PROVEN, 0, "t", 60, 0);
    assert PROVEN.pending - {0} == {};
  }

  lemma SessionFromStart()
    ensures After(START, ADMITTED) == IN_SESSION
  {
    ClaimedFromStart();
    AskedFromClaimed();
    ProvenFromAsked();
    SessionFromProven();
    AfterSix(START, ADMITTED);
  }

  lemma SessionIsAccepted(w: World)
    requires w.sessions == [Entry("t", 60, Principal("c", 0))] && w.store == CLAIMED_STORE
    ensures Accepted(w, "t", 30) && SessionOf(w, "t").value.value == Principal("c", 0)
  {
    FirstGrant();
    OneEntry(w.sessions[0], 1024, 0);
  }

  /** A request accepted at the end of a run from the start. */
  lemma SomeRequestIsAccepted()
    ensures Accepted(After(START, ADMITTED), "t", 30)
  {
    SessionFromStart();
    SessionIsAccepted(IN_SESSION);
  }

  /** A second phone beside the first. */
  lemma SecondClaim(w: World)
    requires w.store == CLAIMED_STORE
    ensures
      var w' := Next(Next(w, Mint(2, "g", 1)), ClaimWith(2, "g", "d", "m", 1));
      && w' == w.(store := w'.store) && w'.store.epoch == 0
      && ActiveGrant(w'.store, "c") == Some(Grant("k", 0, None)) && ActiveGrant(w'.store, "d").Some?
      && UnusedId(w'.store, 3)
  {
    var s1 := IssueSession(CLAIMED_STORE, 2, "g", 1, None);
    assert s1.sessions[1] == NewSession(2, "g", 1, None);
    assert IndexOf(s1.sessions, 2) == Some(1);
    assert Authorize(s1, 2, "g", 1) == (true, s1);
  }

  /** Both phones hold the Host and the first has a session. */
  ghost predicate TwoPhones(w: World) {
    && Inv(w) && Accepted(w, "t", 30) && SessionOf(w, "t").value.value.controllerId == "c"
    && ActiveGrant(w.store, "c") == Some(Grant("k", 0, None)) && ActiveGrant(w.store, "d").Some?
    && UnusedId(w.store, 3)
  }

  lemma TwoPhonesFrom(w: World)
    requires Inv(w) && w.store == CLAIMED_STORE && Accepted(w, "t", 30)
    requires SessionOf(w, "t").value.value == Principal("c", 0)
    ensures TwoPhones(Next(Next(w, Mint(2, "g", 1)), ClaimWith(2, "g", "d", "m", 1)))
  {
    SecondClaim(w);
    var w1 := Next(w, Mint(2, "g", 1));
    StepKeeps(w, Mint(2, "g", 1));
    StepKeeps(w1, ClaimWith(2, "g", "d", "m", 1));
    assert Next(w1, ClaimWith(2, "g", "d", "m", 1)).sessions == w.sessions;
  }

  lemma AdmittedFromStart()
    ensures
      var w := After(START, ADMITTED);
      Inv(w) && w.store == CLAIMED_STORE && Accepted(w, "t", 30) && SessionOf(w, "t").value.value == Principal("c", 0)
  {
    RunKeeps(START, ADMITTED);
    SessionFromStart();
    SessionIsAccepted(IN_SESSION);
  }

  lemma RevivalOf(w: World)
    requires TwoPhones(w)
    ensures
      var revoked := Next(w, Revoke("d", "c", 2));
      && !Accepted(revoked, "t", 30) && Held(revoked, "t")
      && Accepted(Next(Next(revoked, Mint(3, "f", 2)), ClaimWith(3, "f", "c", "k", 2)), "t", 30)
  {
    assert SomeOtherActive(w.store, "c");
    RevocationEndsSessions(w, "d", "t", 2, 30);
    ReclaimRevivesOldSessions(w, "d", "t", 3, "f", 2, 30);
  }

  /** The revival, as a run from the start: the second phone revokes the first, whose
      session is refused but still held; the first claims again and it is accepted. */
  lemma RevivalFromStart()
    ensures
      var w := Next(Next(After(START, ADMITTED), Mint(2, "g", 1)), ClaimWith(2, "g", "d", "m", 1));
      var revoked := Next(w, Revoke("d", "c", 2));
      && !Accepted(revoked, "t", 30) && Held(revoked, "t")
      && Accepted(Next(Next(revoked, Mint(3, "f", 2)), ClaimWith(3, "f", "c", "k", 2)), "t", 30)
  {
    AdmittedFromStart();
    TwoPhonesFrom(After(START, ADMITTED));
    RevivalOf(Next(Next(After(START, ADMITTED), Mint(2, "g", 1)), ClaimWith(2, "g", "d", "m", 1)));
  }

  lemma AfterSix(w: World, run: seq<Event>)
    requires |run| == 6
    ensures After(w, run) == Next(Next(Next(Next(Next(Next(w, run[0]), run[1]), run[2]), run[3]), run[4]), run[5])
  {
    var w1 := Next(w, run[0]);
    var w2 := Next(w1, run[1]);
    var w3 := Next(w2, run[2]);
    var w4 := Next(w3, run[3]);
    var w5 := Next(w4, run[4]);
    assert run[1..][1..] == run[2..] && run[2..][1..] == run[3..] && run[3..][1..] == run[4..];
    assert run[4..][1..] == run[5..] && run[5..][1..] == [];
    assert After(w5, run[5..]) == Next(w5, run[5]);
    assert After(w3, run[3..]) == After(w4, run[4..]) == After(w5, run[5..]);
    assert After(w, run) == After(w1, run[1..]) == After(w2, run[2..]) == After(w3, run[3..]);
  }

  // ----- the Bluetooth link -----

  datatype LinkChallenge = LinkChallenge(controllerId: string, challenge: string, resetEpoch: nat, expiresAt: int)

  /** Per-link state (server/eidolon_admin_server/bootstrap/commissioning_protocol.py):
      one outstanding challenge, and the Controller the link is authorized as. */
  class CommissioningLink {
    var challenge: Option<LinkChallenge>
    var authorized: Option<Principal>

    constructor ()
      ensures challenge == None && authorized == None
    {
      challenge, authorized := None, None;
    }

    method AskForChallenge(store: Store, controllerId: string, drawn: string, now: int) returns (ok: bool)
      modifies this
      ensures authorized == old(authorized)
      ensures ok <==> ActiveGrant(store, controllerId).Some?
      ensures challenge ==
                if ok then Some(LinkChallenge(controllerId, drawn, store.epoch, now + 60)) else old(challenge)
    {
      ok := ActiveGrant(store, controllerId).Some?;
      if ok {
        challenge := Some(LinkChallenge(controllerId, drawn, store.epoch, now + 60));
      }
    }

    /** The first attempt spends the challenge; only an unexpired one, matched and
        signed with the active grant's key, authorizes the link. */
    method AuthenticateController(store: Store, signatures: set<Signature>, proof: Signature, controllerId: string,
                                  drawn: string, resetEpoch: nat, now: int)
      returns (ok: bool)
      modifies this
      ensures challenge == None
      ensures ok <==>
                && old(challenge).Some? && old(challenge).value.expiresAt > now
                && old(challenge).value.controllerId == controllerId
                && old(challenge).value.challenge == drawn
                && old(challenge).value.resetEpoch == resetEpoch
                && ActiveGrant(store, controllerId).Some?
                && proof == Signature(ActiveGrant(store, controllerId).value.publicKey, drawn, controllerId, resetEpoch)
                && proof in signatures
      ensures authorized == if ok then Some(Principal(controllerId, store.epoch)) else old(authorized)
    {
      var outstanding := challenge;
      challenge := None;
      if outstanding.None? || outstanding.value.expiresAt <= now {
        return false;
      }
      if || controllerId != outstanding.value.controllerId
         || drawn != outstanding.value.challenge
         || resetEpoch != outstanding.value.resetEpoch
      {
        return false;
      }
      var grant := ActiveGrant(store, outstanding.value.controllerId);
      if grant.None? {
        return false;
      }
      if proof != Signature(grant.value.publicKey, drawn, controllerId, resetEpoch) || proof !in signatures {
        return false;
      }
      authorized := Some(Principal(controllerId, store.epoch));
      ok := true;
    }
  }
}
