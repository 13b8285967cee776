/**
  The Host's durable authority: Controller grants by reset epoch and the setup
  windows a claim spends
  (server/eidolon_admin_server/bootstrap/adapters/persistence/sqlite.py and
  bootstrap/domain/model.py).

  A Controller's id and fingerprint are digests of its public key, so a grant is
  looked up by the id alone.  Session ids are numbers ordered as their text is.
 */
module HostStore {
  import opened Outcomes

  datatype Grant = Grant(publicKey: string, createdAt: int, revokedAt: Option<int>)

  datatype Session = Session(
    id: nat,
    secretHash: string,
    createdAt: int,
    expiresAt: Option<int>,
    consumedAt: Option<int>,
    claimedBy: Option<string>,
    revokedAt: Option<int>,
    failedAttempts: nat)

  datatype Store = Store(
    epoch: nat,
    claimed: bool,
    grants: map<(nat, string), Grant>,
    sessions: seq<Session>)

  const EMPTY := Store(0, false, map[], [])

  /** Neither consumed nor revoked: what minting another window closes. */
  predicate Live(s: Session) {
    s.consumedAt.None? && s.revokedAt.None?
  }

  predicate IsOpen(s: Session, now: int) {
    Live(s) && (s.expiresAt.None? || s.expiresAt.value > now)
  }

  /** A window is shut by a claim, by being superseded or withdrawn, and by its clock, if
      it has one; by nothing else. */
  lemma OpenExactly(s: Session, now: int)
    ensures IsOpen(s, now) <==>
              s.consumedAt == None && s.revokedAt == None && (s.expiresAt.Some? ==> now < s.expiresAt.value)
  {
  }

  function RevokeLive(sessions: seq<Session>, now: int): (r: seq<Session>)
    ensures |r| == |sessions|
    ensures forall k :: 0 <= k < |sessions| ==>
              !Live(r[k]) && r[k].id == sessions[k].id && r[k].createdAt == sessions[k].createdAt &&
              r[k] == (if Live(sessions[k]) then sessions[k].(revokedAt := Some(now)) else sessions[k])
  {
    seq(|sessions|, k requires 0 <= k < |sessions| =>
      if Live(sessions[k]) then sessions[k].(revokedAt := Some(now)) else sessions[k])
  }

  function NewSession(id: nat, hash: string, createdAt: int, expiresAt: Option<int>): Session {
    Session(id, hash, createdAt, expiresAt, None, None, None, 0)
  }

  /** Minting supersedes: whatever was live is revoked and the new window appended. */
  function IssueSession(s: Store, id: nat, hash: string, createdAt: int, expiresAt: Option<int>): Store {
    s.(sessions := RevokeLive(s.sessions, createdAt) + [NewSession(id, hash, createdAt, expiresAt)])
  }

  function IndexOf(sessions: seq<Session>, id: nat): (k: Option<nat>)
    ensures k.Some? ==> k.value < |sessions| && sessions[k.value].id == id
    ensures k.None? ==> forall j :: 0 <= j < |sessions| ==> sessions[j].id != id
  {
    if sessions == [] then None
    else if sessions[|sessions| - 1].id == id then Some(|sessions| - 1)
    else IndexOf(sessions[..|sessions| - 1], id)
  }

  /** Whether a code is accepted by a window, and the evidence a wrong one leaves. */
  function Authorize(s: Store, id: nat, hash: string, now: int): (bool, Store) {
    match IndexOf(s.sessions, id)
    case None => (false, s)
    case Some(k) =>
      if !IsOpen(s.sessions[k], now) then (false, s)
      else if s.sessions[k].secretHash != hash then
        (false, s.(sessions := s.sessions[k := s.sessions[k].(failedAttempts := s.sessions[k].failedAttempts + 1)]))
      else (true, s)
  }

  /** The active grant of a Controller, in the current epoch only. */
  function ActiveGrant(s: Store, controllerId: string): Option<Grant> {
    if (s.epoch, controllerId) in s.grants && s.grants[(s.epoch, controllerId)].revokedAt.None?
    then Some(s.grants[(s.epoch, controllerId)]) else None
  }

  datatype ClaimOutcome = ClaimRefused | ClaimReplayed | AlreadyHeld | Granted

  predicate Committed(outcome: ClaimOutcome) {
    !outcome.ClaimRefused?
  }

  /** The atomic claim: authorize, bind the key, consume the window. */
  function Claim(s: Store, id: nat, hash: string, controllerId: string, publicKey: string, now: int)
    : (ClaimOutcome, Store)
  {
    var k := IndexOf(s.sessions, id);
    if k.Some? && s.sessions[k.value].consumedAt.Some? then
      var spent, existing := s.sessions[k.value], ActiveGrant(s, controllerId);
      if && spent.claimedBy == Some(controllerId)
         && existing.Some? && existing.value.publicKey == publicKey
         && spent.secretHash == hash && existing.value.createdAt <= spent.consumedAt.value
      then (ClaimReplayed, s) else (ClaimRefused, s)
    else
      var (ok, s1) := Authorize(s, id, hash, now);
      if !ok || k.None? then (ClaimRefused, s1)
      else
        var spent := s.sessions[k.value].(consumedAt := Some(now), claimedBy := Some(controllerId));
        var consumed := s.sessions[k.value := spent];
        var key := (s.epoch, controllerId);
        if key in s.grants && s.grants[key].publicKey != publicKey then (ClaimRefused, s)
        else if key in s.grants && s.grants[key].revokedAt.None? then (AlreadyHeld, s.(sessions := consumed))
        else
          (Granted, s.(sessions := consumed, claimed := true, grants := s.grants[key := Grant(publicKey, now, None)]))
  }

  ghost predicate SomeOtherActive(s: Store, controllerId: string) {
    exists c :: c != controllerId && ActiveGrant(s, c).Some?
  }

  /** Withdraw one phone's authority, never the last one's. */
  ghost function RevokeController(s: Store, target: string, now: int): Store {
    if ActiveGrant(s, target).Some? && SomeOtherActive(s, target)
    then s.(grants := s.grants[(s.epoch, target) := s.grants[(s.epoch, target)].(revokedAt := Some(now))])
    else s
  }

  function RevokeAll(grants: map<(nat, string), Grant>, now: int): map<(nat, string), Grant> {
    map key | key in grants :: if grants[key].revokedAt.None? then grants[key].(revokedAt := Some(now)) else grants[key]
  }

  datatype Seed = Seed(id: nat, hash: string, expiresAt: Option<int>)

  /** Advance one epoch, withdraw every grant and window, and optionally open the way back. */
  function ResetAuthority(s: Store, now: int, recovery: Option<Seed>): Store {
    Store(s.epoch + 1, false, RevokeAll(s.grants, now),
          RevokeLive(s.sessions, now) +
          (if recovery.None? then []
           else [NewSession(recovery.value.id, recovery.value.hash, now, recovery.value.expiresAt)]))
  }

  // ----- what every operation keeps -----

  /** Grants belong to epochs that have begun; outside the current epoch none is active. */
  ghost predicate GrantsOk(s: Store) {
    forall key :: key in s.grants ==> key.0 <= s.epoch && (key.0 < s.epoch ==> s.grants[key].revokedAt.Some?)
  }

  /** At most the last window is live, and window ids are distinct. */
  ghost predicate WindowsOk(s: Store) {
    && (forall k :: 0 <= k < |s.sessions| && Live(s.sessions[k]) ==> k == |s.sessions| - 1)
    && (forall j, k :: 0 <= j < k < |s.sessions| ==> s.sessions[j].id != s.sessions[k].id)
  }

  ghost predicate UnusedId(s: Store, id: nat) {
    forall k :: 0 <= k < |s.sessions| ==> s.sessions[k].id != id
  }

  /** Grants are never removed, never change their key, and the epoch never goes back. */
  ghost predicate Grows(s: Store, s': Store) {
    && s.epoch <= s'.epoch
    && forall key :: key in s.grants ==> key in s'.grants && s'.grants[key].publicKey == s.grants[key].publicKey
  }

  lemma IssueKeeps(s: Store, id: nat, hash: string, createdAt: int, expiresAt: Option<int>)
    requires GrantsOk(s) && WindowsOk(s) && UnusedId(s, id)
    ensures
      var s' := IssueSession(s, id, hash, createdAt, expiresAt);
      && GrantsOk(s') && WindowsOk(s') && Grows(s, s') && s'.grants == s.grants
      && |s'.sessions| == |s.sessions| + 1
      && (forall k :: 0 <= k < |s.sessions| ==>
            !Live(s'.sessions[k]) && s'.sessions[k].id == s.sessions[k].id &&
            (Live(s.sessions[k]) ==> s'.sessions[k].revokedAt == Some(createdAt)) &&
            (!Live(s.sessions[k]) ==> s'.sessions[k] == s.sessions[k]))
      && s'.sessions[|s.sessions|] == NewSession(id, hash, createdAt, expiresAt)
  {
  }

  lemma AuthorizeKeeps(s: Store, id: nat, hash: string, now: int)
    requires GrantsOk(s) && WindowsOk(s)
    ensures
      var (ok, s') := Authorize(s, id, hash, now);
      && GrantsOk(s') && WindowsOk(s') && Grows(s, s') && s'.grants == s.grants && s'.epoch == s.epoch
      && s'.claimed == s.claimed && (ok ==> s' == s)
      && |s'.sessions| == |s.sessions|
      && (forall k :: 0 <= k < |s.sessions| ==>
            s'.sessions[k] == s.sessions[k].(failedAttempts := s'.sessions[k].failedAttempts))
  {
  }

  /** A claim consumes exactly the window it presented and grants only its own key. */
  lemma ClaimKeeps(s: Store, id: nat, hash: string, controllerId: string, publicKey: string, now: int)
    requires GrantsOk(s) && WindowsOk(s)
    ensures
      var (outcome, s') := Claim(s, id, hash, controllerId, publicKey, now);
      && GrantsOk(s') && WindowsOk(s') && Grows(s, s') && s'.epoch == s.epoch
      && |s'.sessions| == |s.sessions|
      && (forall k :: 0 <= k < |s.sessions| ==>
            s'.sessions[k].id == s.sessions[k].id && s'.sessions[k].createdAt == s.sessions[k].createdAt &&
            (Live(s'.sessions[k]) ==> Live(s.sessions[k])))
      && (outcome.AlreadyHeld? || outcome.Granted? ==>
            && ActiveGrant(s', controllerId).Some? && ActiveGrant(s', controllerId).value.publicKey == publicKey
            && (exists k :: 0 <= k < |s.sessions| && s.sessions[k].id == id && IsOpen(s.sessions[k], now) &&
                  s.sessions[k].secretHash == hash && s'.sessions[k].consumedAt == Some(now)))
      && (outcome.ClaimRefused? || outcome.ClaimReplayed? ==> s'.grants == s.grants)
  {
    AuthorizeKeeps(s, id, hash, now);
    var k := IndexOf(s.sessions, id);
    var (outcome, s') := Claim(s, id, hash, controllerId, publicKey, now);
    if outcome.AlreadyHeld? || outcome.Granted? {
      assert s.sessions[k.value].id == id && IsOpen(s.sessions[k.value], now);
      assert s'.sessions[k.value].consumedAt == Some(now);
    }
  }

  /** A claim succeeds on a window not yet spent exactly when the window is open, the
      code is right and the key is the one this Controller has always had; it touches
      no other window and no other phone's authority. */
  lemma ClaimExactly(s: Store, id: nat, hash: string, controllerId: string, publicKey: string, now: int)
    requires WindowsOk(s)
    ensures
      var (outcome, s') := Claim(s, id, hash, controllerId, publicKey, now);
      && (outcome.AlreadyHeld? || outcome.Granted? <==>
            && (exists k :: 0 <= k < |s.sessions| && s.sessions[k].id == id &&
                  IsOpen(s.sessions[k], now) && s.sessions[k].secretHash == hash)
            && ((s.epoch, controllerId) in s.grants ==> s.grants[(s.epoch, controllerId)].publicKey == publicKey))
      && (outcome.AlreadyHeld? ==> ActiveGrant(s, controllerId) == ActiveGrant(s', controllerId))
      && (outcome.Granted? ==> ActiveGrant(s, controllerId).None? && s'.claimed)
      && |s'.sessions| == |s.sessions|
      && (forall k :: 0 <= k < |s.sessions| && s.sessions[k].id != id ==> s'.sessions[k] == s.sessions[k])
      && (forall c :: c != controllerId ==> ActiveGrant(s', c) == ActiveGrant(s, c))
  {
    var found := IndexOf(s.sessions, id);
    assert forall k :: 0 <= k < |s.sessions| && s.sessions[k].id == id ==> found == Some(k);
  }

  /** The window was spent by this very Controller, with this code and this key. */
  ghost predicate SpentBy(s: Store, id: nat, hash: string, controllerId: string, publicKey: string) {
    var held := ActiveGrant(s, controllerId);
    held.Some? && held.value.publicKey == publicKey &&
    exists k :: 0 <= k < |s.sessions| && s.sessions[k].id == id && s.sessions[k].secretHash == hash &&
      s.sessions[k].claimedBy == Some(controllerId) &&
      s.sessions[k].consumedAt.Some? && held.value.createdAt <= s.sessions[k].consumedAt.value
  }

  /** Some window of this id takes this code. */
  predicate TakesCode(s: Store, id: nat, hash: string) {
    exists k :: 0 <= k < |s.sessions| && s.sessions[k].id == id && s.sessions[k].secretHash == hash
  }

  /** A claim is answered as a replay exactly when the window was spent by this very
      Controller with this code and key, and then nothing changes; and no claim commits,
      fresh or replayed, without the window's own code and an active grant for its key. */
  lemma CommittedIsEarned(s: Store, id: nat, hash: string, controllerId: string, publicKey: string, now: int)
    requires WindowsOk(s)
    ensures
      var (outcome, s') := Claim(s, id, hash, controllerId, publicKey, now);
      && (outcome.ClaimReplayed? <==> SpentBy(s, id, hash, controllerId, publicKey))
      && (outcome.ClaimReplayed? ==> s' == s)
      && (Committed(outcome) <==> outcome.ClaimReplayed? || outcome.AlreadyHeld? || outcome.Granted?)
      && (Committed(outcome) ==>
            && TakesCode(s, id, hash)
            && ActiveGrant(s', controllerId).Some? && ActiveGrant(s', controllerId).value.publicKey == publicKey)
  {
    var found := IndexOf(s.sessions, id);
    assert forall k :: 0 <= k < |s.sessions| && s.sessions[k].id == id ==> found == Some(k);
  }

  /** A code is accepted exactly by an open window of that id that takes it; a wrong code
      is counted against the open window it was tried on, once, and nothing else moves. */
  lemma AuthorizesExactly(s: Store, id: nat, hash: string, now: int)
    requires WindowsOk(s)
    ensures
      var (ok, s') := Authorize(s, id, hash, now);
      && (ok <==> exists k :: 0 <= k < |s.sessions| && s.sessions[k].id == id &&
                    IsOpen(s.sessions[k], now) && s.sessions[k].secretHash == hash)
      && s' == s.(sessions := s'.sessions) && |s'.sessions| == |s.sessions|
      && (forall k :: 0 <= k < |s.sessions| ==>
            var counted := s.sessions[k].id == id && IsOpen(s.sessions[k], now) && s.sessions[k].secretHash != hash;
            s'.sessions[k] ==
              s.sessions[k].(failedAttempts := s.sessions[k].failedAttempts + (if counted then 1 else 0)))
  {
    var found := IndexOf(s.sessions, id);
    assert forall k :: 0 <= k < |s.sessions| && s.sessions[k].id == id ==> found == Some(k);
  }

  /** A replayed claim, after its answer was lost, is answered again and changes nothing. */
  lemma ClaimReplays(s: Store, id: nat, hash: string, controllerId: string, publicKey: string, now: int, later: int)
    requires WindowsOk(s)
    ensures
      var (outcome, s') := Claim(s, id, hash, controllerId, publicKey, now);
      outcome.Granted? ==> Claim(s', id, hash, controllerId, publicKey, later) == (ClaimReplayed, s')
  {
    var (outcome, s') := Claim(s, id, hash, controllerId, publicKey, now);
    if outcome.Granted? {
      IndexOfById(s.sessions, s'.sessions, id);
    }
  }

  /** A revocation withdraws the target exactly when another phone stays active; it
      never leaves a managed Host with nobody, and touches no one else. */
  lemma RevokeKeeps(s: Store, target: string, now: int)
    requires GrantsOk(s) && WindowsOk(s)
    ensures
      var s' := RevokeController(s, target, now);
      && GrantsOk(s') && WindowsOk(s') && Grows(s, s') && s'.epoch == s.epoch && s'.sessions == s.sessions
      && (forall c :: c != target ==> ActiveGrant(s', c) == ActiveGrant(s, c))
      && (ActiveGrant(s', target).Some? <==> ActiveGrant(s, target).Some? && !SomeOtherActive(s, target))
      && (s' != s ==> s'.grants[(s.epoch, target)].revokedAt == Some(now))
      && ((exists c :: ActiveGrant(s, c).Some?) ==> exists c :: ActiveGrant(s', c).Some?)
  {
    var s' := RevokeController(s, target, now);
    if c :| ActiveGrant(s, c).Some? {
      if s' == s {
        assert ActiveGrant(s', c).Some?;
      } else {
        var other :| other != target && ActiveGrant(s, other).Some?;
        assert ActiveGrant(s', other) == ActiveGrant(s, other);
      }
    }
  }

  lemma ResetKeeps(s: Store, now: int, recovery: Option<Seed>)
    requires GrantsOk(s) && WindowsOk(s) && (recovery.Some? ==> UnusedId(s, recovery.value.id))
    ensures
      var s' := ResetAuthority(s, now, recovery);
      && GrantsOk(s') && WindowsOk(s') && Grows(s, s') && s'.epoch == s.epoch + 1
      && (forall c :: ActiveGrant(s', c).None?)
      && !s'.claimed
      && |s.sessions| <= |s'.sessions|
      && (forall key :: key in s.grants ==>
            s'.grants[key].revokedAt == if s.grants[key].revokedAt.Some? then s.grants[key].revokedAt else Some(now))
      && (forall k :: 0 <= k < |s.sessions| ==>
            !Live(s'.sessions[k]) && (Live(s.sessions[k]) ==> s'.sessions[k].revokedAt == Some(now)) &&
            (!Live(s.sessions[k]) ==> s'.sessions[k] == s.sessions[k]))
      && s'.sessions[|s.sessions|..] ==
           (if recovery.None? then []
            else [NewSession(recovery.value.id, recovery.value.hash, now, recovery.value.expiresAt)])
  {
  }

  // ----- wrong codes -----

  /** A code tried, and when. */
  datatype Guess = Guess(hash: string, at: int)

  function AfterGuesses(s: Store, id: nat, guesses: seq<Guess>): Store {
    if guesses == [] then s
    else
      var last := guesses[|guesses| - 1];
      Authorize(AfterGuesses(s, id, guesses[..|guesses| - 1]), id, last.hash, last.at).1
  }

  lemma GuessLeavesOpen(s: Store, id: nat, guess: string, now: int)
    ensures
      var s' := Authorize(s, id, guess, now).1;
      && |s'.sessions| == |s.sessions|
      && (forall k :: 0 <= k < |s.sessions| ==>
            s'.sessions[k] == s.sessions[k].(failedAttempts := s'.sessions[k].failedAttempts))
  {
  }

  lemma {:induction false} GuessesLeaveSessions(s: Store, id: nat, guesses: seq<Guess>)
    ensures
      var s' := AfterGuesses(s, id, guesses);
      && |s'.sessions| == |s.sessions|
      && (forall k :: 0 <= k < |s.sessions| ==>
            s'.sessions[k] == s.sessions[k].(failedAttempts := s'.sessions[k].failedAttempts))
    decreases |guesses|
  {
    if guesses != [] {
      var init, last := guesses[..|guesses| - 1], guesses[|guesses| - 1];
      GuessesLeaveSessions(s, id, init);
      GuessLeavesOpen(AfterGuesses(s, id, init), id, last.hash, last.at);
    }
  }

  lemma {:induction false} IndexOfById(a: seq<Session>, b: seq<Session>, id: nat)
    requires |a| == |b| && forall k :: 0 <= k < |a| ==> a[k].id == b[k].id
    ensures IndexOf(a, id) == IndexOf(b, id)
    decreases |a|
  {
    if a != [] {
      IndexOfById(a[..|a| - 1], b[..|b| - 1], id);
    }
  }

  /** However many codes were tried and whenever, the right one opens the window exactly
      when it would have without them. */
  lemma GuessesNeverCloseAWindow(s: Store, id: nat, guesses: seq<Guess>, hash: string, now: int)
    ensures Authorize(AfterGuesses(s, id, guesses), id, hash, now).0 == Authorize(s, id, hash, now).0
  {
    GuessesLeaveSessions(s, id, guesses);
    IndexOfById(s.sessions, AfterGuesses(s, id, guesses).sessions, id);
  }
}
