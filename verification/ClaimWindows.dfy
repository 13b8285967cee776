/**
  When a Host may be claimed
  (`_open_factory_window`, `reopen_standing_claim_window`, `issue_setup_code`,
  `open_controller_recovery_window` in server/eidolon_admin_server/bootstrap/service.py,
  and `claim_controller` in bootstrap/commissioning_service.py, which both transports drive).

  "Is a window open" is asked of the latest one, and the durable store takes the
  latest by creation time, then id, so the answer depends on the clock.
 */
module ClaimWindows {
  import opened Outcomes
  import opened HostStore

  datatype Policy = OnDemand | AlwaysOpen

  const RECOVERY_WINDOW_TTL_SECONDS := 900

  predicate SortsBefore(a: Session, b: Session) {
    a.createdAt < b.createdAt || (a.createdAt == b.createdAt && a.id < b.id)
  }

  /** `ORDER BY created_at DESC, session_id DESC LIMIT 1`. */
  function Latest(sessions: seq<Session>): (r: Option<Session>)
    ensures r.None? <==> sessions == []
    ensures r.Some? ==> r.value in sessions
    ensures r.Some? ==> forall k :: 0 <= k < |sessions| ==> !SortsBefore(r.value, sessions[k])
    ensures r.Some? ==> forall k :: 0 <= k < |sessions| ==>
              sessions[k].createdAt < r.value.createdAt ||
              (sessions[k].createdAt == r.value.createdAt && sessions[k].id <= r.value.id)
  {
    if sessions == [] then None
    else
      var rest, last := Latest(sessions[..|sessions| - 1]), sessions[|sessions| - 1];
      if rest.None? || SortsBefore(rest.value, last) then Some(last) else rest
  }

  predicate LatestOpen(s: Store, now: int) {
    var r := Latest(s.sessions);
    r.Some? && IsOpen(r.value, now)
  }

  ghost predicate OpenSomewhere(s: Store, now: int) {
    exists k :: 0 <= k < |s.sessions| && IsOpen(s.sessions[k], now)
  }

  /** `code` is the usable factory code read from its file, if any; `id` and `at` are
      what a mint would draw and stamp. */
  function OpenFactoryWindow(p: Policy, code: Option<string>, s: Store, id: nat, now: int, at: int): Store {
    if code.None? then s
    else if p != AlwaysOpen && s.claimed then s
    else if LatestOpen(s, now) then s
    else IssueSession(s, id, code.value, at, None)
  }

  function ReopenStanding(p: Policy, code: Option<string>, s: Store, id: nat, now: int, at: int): Store {
    if p != AlwaysOpen then s
    else if LatestOpen(s, now) then s
    else if code.None? then s
    else IssueSession(s, id, code.value, at, None)
  }

  // ----- runs -----

  datatype Origin =
    | Operator
    | StartedUnclaimed(nothingOpen: bool)
    | StartedClaimed
    | Reopened

  datatype Host = Host(store: Store, origins: map<nat, Origin>)

  const BOXED := Host(EMPTY, map[])

  datatype Event =
    | StartUp(code: Option<string>, id: nat, now: int, at: int)
    | OperatorMint(id: nat, hash: string, now: int)
    | ClaimBy(window: nat, hash: string, controllerId: string, publicKey: string, now: int,
              code: Option<string>, id: nat, at: int)
    | Recover(seed: Seed, now: int)
    | DevelopmentReset(now: int)

  ghost predicate FreshId(h: Host, id: nat) {
    UnusedId(h.store, id) && id !in h.origins
  }

  ghost function Next(p: Policy, h: Host, e: Event): Host {
    match e
    case StartUp(code, id, now, at) =>
      if !FreshId(h, id) then h
      else
        var s' := OpenFactoryWindow(p, code, h.store, id, now, at);
        if s' == h.store then h
        else Host(s', h.origins[id := if h.store.claimed then StartedClaimed
                                      else StartedUnclaimed(!OpenSomewhere(h.store, now))])
    case OperatorMint(id, hash, now) =>
      if FreshId(h, id) then Host(IssueSession(h.store, id, hash, now, None), h.origins[id := Operator]) else h
    case ClaimBy(window, hash, controllerId, publicKey, now, code, id, at) =>
      if !FreshId(h, id) then h
      else
        var (outcome, s1) := Claim(h.store, window, hash, controllerId, publicKey, now);
        if !Committed(outcome) then h.(store := s1)
        else
          var s2 := ReopenStanding(p, code, s1, id, now, at);
          if s2 == s1 then h.(store := s1) else Host(s2, h.origins[id := Reopened])
    case Recover(seed, now) =>
      if FreshId(h, seed.id)
      then Host(ResetAuthority(h.store, now, Some(seed)), h.origins[seed.id := Operator]) else h
    case DevelopmentReset(now) => h.(store := ResetAuthority(h.store, now, None))
  }

  ghost function After(p: Policy, h: Host, run: seq<Event>): Host
    decreases |run|
  {
    if run == [] then h else After(p, Next(p, h, run[0]), run[1..])
  }

  // ----- what an opening leaves open -----

  lemma MintIsOpen(s: Store, id: nat, hash: string, at: int, now: int)
    ensures OpenSomewhere(IssueSession(s, id, hash, at, None), now)
  {
    var s' := IssueSession(s, id, hash, at, None);
    assert IsOpen(s'.sessions[|s.sessions|], now);
  }

  lemma LatestOpenIsOpen(s: Store, now: int)
    requires LatestOpen(s, now)
    ensures OpenSomewhere(s, now)
  {
  }

  /** A standing Host with a usable code holds an open window after every start-up and
      every committed claim, whatever its clock says; whether a phone is shown it is
      `StandingWindowIsShownExactly`. */
  lemma StandingHostHoldsAWindow(s: Store, code: string, id: nat, now: int, at: int)
    ensures OpenSomewhere(OpenFactoryWindow(AlwaysOpen, Some(code), s, id, now, at), now)
    ensures OpenSomewhere(ReopenStanding(AlwaysOpen, Some(code), s, id, now, at), now)
  {
    if LatestOpen(s, now) {
      LatestOpenIsOpen(s, now);
    } else {
      MintIsOpen(s, id, code, at, now);
    }
  }

  /** The stamp of a window to be minted sorts after every other. */
  predicate StampedLast(s: Store, id: nat, at: int) {
    forall k :: 0 <= k < |s.sessions| ==> SortsBefore(s.sessions[k], NewSession(id, "", at, None))
  }

  lemma MintIsShownExactly(s: Store, id: nat, hash: string, at: int, now: int)
    requires UnusedId(s, id)
    ensures LatestOpen(IssueSession(s, id, hash, at, None), now) <==> StampedLast(s, id, at)
  {
    var s' := IssueSession(s, id, hash, at, None);
    var n := |s.sessions|;
    var latest := Latest(s'.sessions).value;
    assert s'.sessions[n] == NewSession(id, hash, at, None);
    assert forall k :: 0 <= k < n ==> s'.sessions[k] == RevokeLive(s.sessions, at)[k];
    var i :| 0 <= i < |s'.sessions| && s'.sessions[i] == latest;
    if i == n {
      forall k | 0 <= k < n ensures SortsBefore(s.sessions[k], NewSession(id, "", at, None)) {
        assert !SortsBefore(latest, s'.sessions[k]);
      }
    } else {
      assert !SortsBefore(latest, s'.sessions[n]);
      assert !SortsBefore(s.sessions[i], NewSession(id, "", at, None));
    }
  }

  /** The question the code asks.  After an opening on a standing Host with a usable code
      the endpoint shows an open window exactly when it did before, or the new window's
      stamp sorts last. */
  lemma StandingWindowIsShownExactly(s: Store, code: string, id: nat, now: int, at: int)
    requires UnusedId(s, id)
    ensures LatestOpen(OpenFactoryWindow(AlwaysOpen, Some(code), s, id, now, at), now) <==>
              LatestOpen(s, now) || StampedLast(s, id, at)
    ensures LatestOpen(ReopenStanding(AlwaysOpen, Some(code), s, id, now, at), now) <==>
              LatestOpen(s, now) || StampedLast(s, id, at)
  {
    MintIsShownExactly(s, id, code, at, now);
  }

  /** A start-up, or a claim that commits, with a usable code. */
  predicate Opens(h: Host, e: Event) {
    && (e.StartUp? || e.ClaimBy?) && e.code.Some?
    && (e.ClaimBy? ==> Committed(Claim(h.store, e.window, e.hash, e.controllerId, e.publicKey, e.now).0))
  }

  /** The store as the opening finds it. */
  function FoundByOpening(h: Host, e: Event): Store {
    if e.ClaimBy? then Claim(h.store, e.window, e.hash, e.controllerId, e.publicKey, e.now).1 else h.store
  }

  lemma OpeningStep(p: Policy, h: Host, e: Event)
    requires Opens(h, e) && FreshId(h, e.id)
    ensures
      var s := FoundByOpening(h, e);
      Next(p, h, e).store ==
        if e.StartUp? then OpenFactoryWindow(p, e.code, s, e.id, e.now, e.at)
        else ReopenStanding(p, e.code, s, e.id, e.now, e.at)
  {
  }

  /** As a step of any run, under either policy: a start-up or a committed claim mints
      exactly when it should, and an operator's mint always does. */
  lemma StepMintsExactly(p: Policy, h: Host, e: Event)
    requires Opens(h, e) && FreshId(h, e.id)
    ensures
      var s, s' := FoundByOpening(h, e), Next(p, h, e).store;
      var mints := if e.StartUp? then FactoryMints(p, e.code, s, e.now) else ReopeningMints(p, e.code, s, e.now);
      if mints then Minted(s, s', e.id, e.code.value) else s' == s
  {
    OpeningStep(p, h, e);
    OpeningMintsExactly(p, e.code, FoundByOpening(h, e), e.id, e.now, e.at);
  }

  lemma OperatorStepMints(p: Policy, h: Host, id: nat, hash: string, now: int)
    requires FreshId(h, id)
    ensures Minted(h.store, Next(p, h, OperatorMint(id, hash, now)).store, id, hash)
  {
    MintTakesItsCode(h.store, id, hash, now);
  }

  /** A claim that does not commit leaves what the refusal left, and no new window. */
  lemma RefusedStep(p: Policy, h: Host, e: Event)
    requires e.ClaimBy? && FreshId(h, e.id)
    requires !Committed(Claim(h.store, e.window, e.hash, e.controllerId, e.publicKey, e.now).0)
    ensures Next(p, h, e).store == Claim(h.store, e.window, e.hash, e.controllerId, e.publicKey, e.now).1
  {
  }

  /** As a step of any run: after a start-up or a committed claim a standing Host shows a
      window exactly when it already did, or the stamp sorts last. */
  lemma StandingHostShowsAWindowExactly(h: Host, e: Event)
    requires Tracked(h) && Opens(h, e) && FreshId(h, e.id)
    ensures
      var s := FoundByOpening(h, e);
      LatestOpen(Next(AlwaysOpen, h, e).store, e.now) <==> LatestOpen(s, e.now) || StampedLast(s, e.id, e.at)
  {
    var s := FoundByOpening(h, e);
    assert UnusedId(s, e.id) by {
      if e.ClaimBy? { ClaimKeeps(h.store, e.window, e.hash, e.controllerId, e.publicKey, e.now); }
    }
    OpeningStep(AlwaysOpen, h, e);
    StandingWindowIsShownExactly(s, e.code.value, e.id, e.now, e.at);
  }

  // ----- when an opening mints -----

  predicate FactoryMints(p: Policy, code: Option<string>, s: Store, now: int) {
    code.Some? && (p == AlwaysOpen || !s.claimed) && !LatestOpen(s, now)
  }

  predicate ReopeningMints(p: Policy, code: Option<string>, s: Store, now: int) {
    code.Some? && p == AlwaysOpen && !LatestOpen(s, now)
  }

  /** One window was appended, open from then on, that takes exactly this code; what was
      live before is closed, and no authority changed. */
  ghost predicate Minted(s: Store, s': Store, id: nat, code: string) {
    && s' == s.(sessions := s'.sessions) && |s'.sessions| == |s.sessions| + 1
    && (forall k :: 0 <= k < |s.sessions| ==> !Live(s'.sessions[k]) && s'.sessions[k].id == s.sessions[k].id)
    && s'.sessions[|s.sessions|].id == id
    && (forall hash, later :: Authorize(s', id, hash, later).0 <==> hash == code)
  }

  lemma MintTakesItsCode(s: Store, id: nat, code: string, at: int)
    ensures Minted(s, IssueSession(s, id, code, at, None), id, code)
  {
    var s' := IssueSession(s, id, code, at, None);
    assert s'.sessions[|s.sessions|] == NewSession(id, code, at, None);
    assert IndexOf(s'.sessions, id) == Some(|s.sessions|);
  }

  /** An opening mints a window for its code exactly when it should, and otherwise leaves
      the store alone. */
  lemma OpeningMintsExactly(p: Policy, code: Option<string>, s: Store, id: nat, now: int, at: int)
    ensures FactoryMints(p, code, s, now) ==>
              Minted(s, OpenFactoryWindow(p, code, s, id, now, at), id, code.value)
    ensures !FactoryMints(p, code, s, now) ==> OpenFactoryWindow(p, code, s, id, now, at) == s
    ensures ReopeningMints(p, code, s, now) ==>
              Minted(s, ReopenStanding(p, code, s, id, now, at), id, code.value)
    ensures !ReopeningMints(p, code, s, now) ==> ReopenStanding(p, code, s, id, now, at) == s
  {
    if code.Some? {
      MintTakesItsCode(s, id, code.value, at);
    }
  }

  /** Out of the box, under either policy: a Host started with a factory code is claimed by
      whoever presents that code, whenever they do. */
  lemma UnboxedHostIsClaimed(p: Policy, code: string, id: nat, now: int, at: int, c: string, key: string, later: int)
    ensures
      var s := OpenFactoryWindow(p, Some(code), EMPTY, id, now, at);
      && Claim(s, id, code, c, key, later).0 == Granted
      && ActiveGrant(Claim(s, id, code, c, key, later).1, c) == Some(Grant(key, later, None))
  {
    OpeningMintsExactly(p, Some(code), EMPTY, id, now, at);
    var s := OpenFactoryWindow(p, Some(code), EMPTY, id, now, at);
    assert s.sessions == [NewSession(id, code, at, None)];
    assert IndexOf(s.sessions, id) == Some(0);
  }

  /** Some window was open and no longer is. */
  ghost predicate Superseded(s: Store, s': Store, now: int) {
    exists k :: 0 <= k < |s.sessions| && k < |s'.sessions| && IsOpen(s.sessions[k], now) && !IsOpen(s'.sessions[k], now)
  }

  /** An opening supersedes an open window exactly when it is due to mint and the open
      window is not the one that sorts last. */
  lemma OpeningSupersedesExactly(p: Policy, code: Option<string>, s: Store, id: nat, now: int, at: int)
    ensures Superseded(s, OpenFactoryWindow(p, code, s, id, now, at), now) <==>
              code.Some? && (p == AlwaysOpen || !s.claimed) && OpenSomewhere(s, now) && !LatestOpen(s, now)
    ensures Superseded(s, ReopenStanding(p, code, s, id, now, at), now) <==>
              code.Some? && p == AlwaysOpen && OpenSomewhere(s, now) && !LatestOpen(s, now)
  {
  }

  // ----- under a clock that moves forward -----

  /** Every window was stamped later than the ones before it. */
  ghost predicate InMintOrder(s: Store) {
    forall j, k :: 0 <= j < k < |s.sessions| ==> SortsBefore(s.sessions[j], s.sessions[k])
  }

  lemma LatestIsLast(s: Store)
    requires InMintOrder(s) && s.sessions != []
    ensures Latest(s.sessions) == Some(s.sessions[|s.sessions| - 1])
  {
  }

  lemma OpenMeansLatest(s: Store, now: int)
    requires InMintOrder(s) && WindowsOk(s)
    ensures OpenSomewhere(s, now) <==> LatestOpen(s, now)
  {
  }

  /** With windows stamped in order an opening never supersedes an open window, and on
      a standing Host the window it leaves open is the one the endpoint shows. */
  lemma OpeningNeverSupersedes(p: Policy, code: Option<string>, s: Store, id: nat, now: int, at: int)
    requires InMintOrder(s) && WindowsOk(s) && StampedLast(s, id, at)
    ensures !Superseded(s, OpenFactoryWindow(p, code, s, id, now, at), now)
    ensures !Superseded(s, ReopenStanding(p, code, s, id, now, at), now)
    ensures InMintOrder(OpenFactoryWindow(p, code, s, id, now, at))
    ensures InMintOrder(ReopenStanding(p, code, s, id, now, at))
    ensures p == AlwaysOpen && code.Some? ==>
              LatestOpen(OpenFactoryWindow(p, code, s, id, now, at), now) &&
              LatestOpen(ReopenStanding(p, code, s, id, now, at), now)
  {
    OpenMeansLatest(s, now);
    OpeningSupersedesExactly(p, code, s, id, now, at);
    if code.Some? {
      MintShows(s, id, code.value, at, now);
    }
  }

  lemma MintShows(s: Store, id: nat, hash: string, at: int, now: int)
    requires InMintOrder(s) && StampedLast(s, id, at)
    ensures InMintOrder(IssueSession(s, id, hash, at, None)) && LatestOpen(IssueSession(s, id, hash, at, None), now)
  {
    MintKeepsOrder(s, id, hash, at, None);
    LatestIsLast(IssueSession(s, id, hash, at, None));
  }

  lemma MintKeepsOrder(s: Store, id: nat, hash: string, at: int, expiresAt: Option<int>)
    requires InMintOrder(s) && StampedLast(s, id, at)
    ensures InMintOrder(IssueSession(s, id, hash, at, expiresAt))
  {
  }

  /** A window minted and claimed at 100 and 110; the clock steps back, and another is minted at 50. */
  const STEPPED_BACK := [
    OperatorMint(1, "h1", 100), ClaimBy(1, "h1", "c", "k", 110, None, 9, 110), OperatorMint(2, "h2", 50)]

  const CONSUMED := Session(1, "h1", 100, None, Some(110), Some("c"), None, 0)

  lemma ClaimedAtHundredAndTen()
    ensures
      var h1 := Next(AlwaysOpen, BOXED, STEPPED_BACK[0]);
      var h2 := Next(AlwaysOpen, h1, STEPPED_BACK[1]);
      && h1.store.sessions == [NewSession(1, "h1", 100, None)] && h1.origins == map[1 := Operator]
      && h2.store == Store(0, true, map[(0, "c") := Grant("k", 110, None)], [CONSUMED]) && h2.origins == h1.origins
  {
    var h1 := Next(AlwaysOpen, BOXED, STEPPED_BACK[0]);
    assert h1.store == EMPTY.(sessions := [NewSession(1, "h1", 100, None)]);
    assert IndexOf(h1.store.sessions, 1) == Some(0);
    assert Authorize(h1.store, 1, "h1", 110) == (true, h1.store);
    assert map[][(0, "c") := Grant("k", 110, None)] == map[(0, "c") := Grant("k", 110, None)];
  }

  lemma SteppedBack()
    ensures
      var h := After(AlwaysOpen, BOXED, STEPPED_BACK);
      h.store.sessions == [CONSUMED, NewSession(2, "h2", 50, None)]
  {
    ClaimedAtHundredAndTen();
    var run := STEPPED_BACK;
    var h2 := Next(AlwaysOpen, Next(AlwaysOpen, BOXED, run[0]), run[1]);
    assert run[1..][1..] == [run[2]] && [run[2]][1..] == [];
    assert After(AlwaysOpen, h2, [run[2]]) == Next(AlwaysOpen, h2, run[2]);
    assert After(AlwaysOpen, Next(AlwaysOpen, BOXED, run[0]), run[1..]) == After(AlwaysOpen, h2, [run[2]]);
    assert UnusedId(h2.store, 2) && 2 !in h2.origins;
    assert RevokeLive(h2.store.sessions, 50) == [CONSUMED];
  }

  /** From the box on, a clock stepped back hides a window an operator just minted, and a
      start-up on a standing Host then throws it away. */
  lemma ClockStepBackSupersedes()
    ensures
      var s := After(AlwaysOpen, BOXED, STEPPED_BACK).store;
      && OpenSomewhere(s, 60) && !LatestOpen(s, 60)
      && Superseded(s, OpenFactoryWindow(AlwaysOpen, Some("f"), s, 3, 60, 60), 60)
  {
    SteppedBack();
    var s := After(AlwaysOpen, BOXED, STEPPED_BACK).store;
    assert IsOpen(s.sessions[1], 60);
    assert Latest(s.sessions) == Some(CONSUMED) by {
      assert s.sessions[0] == CONSUMED && s.sessions[1] == NewSession(2, "h2", 50, None);
    }
    OpeningSupersedesExactly(AlwaysOpen, Some("f"), s, 3, 60, 60);
  }

  /** Right after that start-up the standing Host shows no window at all: the one it has
      just minted is hidden too. */
  lemma ClockStepBackHidesTheWindow()
    ensures
      var s := After(AlwaysOpen, BOXED, STEPPED_BACK).store;
      !LatestOpen(OpenFactoryWindow(AlwaysOpen, Some("f"), s, 3, 60, 60), 60)
  {
    SteppedBack();
    ClockStepBackSupersedes();
    var s := After(AlwaysOpen, BOXED, STEPPED_BACK).store;
    assert s.sessions[0] == CONSUMED && !SortsBefore(s.sessions[0], NewSession(3, "", 60, None));
    StandingWindowIsShownExactly(s, "f", 3, 60, 60);
  }

  // ----- on demand -----

  ghost predicate OnDemandOrigin(o: Origin) {
    o == Operator || o.StartedUnclaimed?
  }

  ghost predicate Tracked(h: Host) {
    && GrantsOk(h.store) && WindowsOk(h.store)
    && (forall k :: 0 <= k < |h.store.sessions| ==> h.store.sessions[k].id in h.origins)
  }

  lemma MintTracks(h: Host, id: nat, hash: string, at: int, o: Origin)
    requires Tracked(h) && FreshId(h, id)
    ensures Tracked(Host(IssueSession(h.store, id, hash, at, None), h.origins[id := o]))
  {
  }

  lemma ClaimTracks(h: Host, window: nat, hash: string, controllerId: string, publicKey: string, now: int)
    requires Tracked(h)
    ensures
      var s1 := Claim(h.store, window, hash, controllerId, publicKey, now).1;
      Tracked(h.(store := s1)) && (forall id :: FreshId(h, id) ==> FreshId(h.(store := s1), id))
  {
    ClaimKeeps(h.store, window, hash, controllerId, publicKey, now);
  }

  lemma ResetTracks(h: Host, now: int, recovery: Option<Seed>)
    requires Tracked(h) && (recovery.Some? ==> FreshId(h, recovery.value.id))
    ensures
      var origins := if recovery.Some? then h.origins[recovery.value.id := Operator] else h.origins;
      Tracked(Host(ResetAuthority(h.store, now, recovery), origins))
  {
  }

  lemma StepTracks(p: Policy, h: Host, e: Event)
    requires Tracked(h)
    ensures Tracked(Next(p, h, e))
    ensures h.origins.Keys <= Next(p, h, e).origins.Keys
    ensures forall id :: id in h.origins ==> Next(p, h, e).origins[id] == h.origins[id]
  {
    match e
    case StartUp(code, id, now, at) =>
      if FreshId(h, id) && code.Some? {
        MintTracks(h, id, code.value, at,
                   if h.store.claimed then StartedClaimed else StartedUnclaimed(!OpenSomewhere(h.store, now)));
      }
    case OperatorMint(id, hash, now) =>
      if FreshId(h, id) { MintTracks(h, id, hash, now, Operator); }
    case ClaimBy(window, hash, controllerId, publicKey, now, code, id, at) =>
      ClaimTracks(h, window, hash, controllerId, publicKey, now);
      var h1 := h.(store := Claim(h.store, window, hash, controllerId, publicKey, now).1);
      if FreshId(h, id) && code.Some? { MintTracks(h1, id, code.value, at, Reopened); }
    case Recover(seed, now) =>
      if FreshId(h, seed.id) { ResetTracks(h, now, Some(seed)); }
    case DevelopmentReset(now) => ResetTracks(h, now, None);
  }

  /** On demand, in every run, every window ever opened (so every open one) was minted
      by an operator's command or by a start-up while the Host was unclaimed. */
  lemma {:induction false} OnDemandWindowsAreAskedFor(h: Host, run: seq<Event>)
    requires Tracked(h) && forall id :: id in h.origins ==> OnDemandOrigin(h.origins[id])
    ensures
      var h' := After(OnDemand, h, run);
      Tracked(h') && (forall id :: id in h'.origins ==> OnDemandOrigin(h'.origins[id]))
    decreases |run|
  {
    if run != [] {
      StepTracks(OnDemand, h, run[0]);
      OnDemandWindowsAreAskedFor(Next(OnDemand, h, run[0]), run[1..]);
    }
  }

  predicate StampFollows(h: Host, e: Event) {
    match e
    case StartUp(_, id, _, at) => StampedLast(h.store, id, at)
    case OperatorMint(id, _, now) => StampedLast(h.store, id, now)
    case ClaimBy(_, _, _, _, _, _, id, at) => StampedLast(h.store, id, at)
    case Recover(seed, now) => StampedLast(h.store, seed.id, now)
    case DevelopmentReset(_) => true
  }

  /** The stamps a run mints with follow each other. */
  ghost predicate Stamped(p: Policy, h: Host, run: seq<Event>)
    decreases |run|
  {
    run != [] ==> StampFollows(h, run[0]) && Stamped(p, Next(p, h, run[0]), run[1..])
  }

  ghost predicate NeverDiscarded(h: Host) {
    forall id :: id in h.origins && h.origins[id].StartedUnclaimed? ==> h.origins[id].nothingOpen
  }

  lemma ClaimKeepsOrder(s: Store, window: nat, hash: string, controllerId: string, publicKey: string, now: int,
                        id: nat, at: int)
    requires InMintOrder(s) && GrantsOk(s) && WindowsOk(s) && StampedLast(s, id, at)
    ensures
      var s' := Claim(s, window, hash, controllerId, publicKey, now).1;
      InMintOrder(s') && StampedLast(s', id, at)
  {
    ClaimKeeps(s, window, hash, controllerId, publicKey, now);
    var s' := Claim(s, window, hash, controllerId, publicKey, now).1;
    forall j, k | 0 <= j < k < |s'.sessions| ensures SortsBefore(s'.sessions[j], s'.sessions[k]) {
      assert SortsBefore(s.sessions[j], s.sessions[k]);
    }
    forall k | 0 <= k < |s'.sessions| ensures SortsBefore(s'.sessions[k], NewSession(id, "", at, None)) {
      assert SortsBefore(s.sessions[k], NewSession(id, "", at, None));
    }
  }

  lemma ResetKeepsOrder(s: Store, now: int, recovery: Option<Seed>)
    requires InMintOrder(s) && (recovery.Some? ==> StampedLast(s, recovery.value.id, now))
    ensures InMintOrder(ResetAuthority(s, now, recovery))
  {
  }

  lemma StartUpKeepsOrder(p: Policy, h: Host, e: Event)
    requires e.StartUp? && WindowsOk(h.store) && InMintOrder(h.store) && NeverDiscarded(h)
    requires StampedLast(h.store, e.id, e.at)
    ensures InMintOrder(Next(p, h, e).store) && NeverDiscarded(Next(p, h, e))
  {
  }

  lemma ClaimStepKeepsOrder(p: Policy, h: Host, e: Event)
    requires e.ClaimBy? && GrantsOk(h.store) && WindowsOk(h.store) && InMintOrder(h.store)
    requires NeverDiscarded(h) && StampedLast(h.store, e.id, e.at)
    ensures InMintOrder(Next(p, h, e).store) && NeverDiscarded(Next(p, h, e))
  {
    ClaimKeepsOrder(h.store, e.window, e.hash, e.controllerId, e.publicKey, e.now, e.id, e.at);
    var s1 := Claim(h.store, e.window, e.hash, e.controllerId, e.publicKey, e.now).1;
    if e.code.Some? {
      MintKeepsOrder(s1, e.id, e.code.value, e.at, None);
    }
  }

  lemma StepKeepsOrder(p: Policy, h: Host, e: Event)
    requires Tracked(h) && InMintOrder(h.store) && NeverDiscarded(h) && StampFollows(h, e)
    ensures InMintOrder(Next(p, h, e).store) && NeverDiscarded(Next(p, h, e))
  {
    match e
    case StartUp(_, _, _, _) => StartUpKeepsOrder(p, h, e);
    case OperatorMint(id, hash, now) => MintKeepsOrder(h.store, id, hash, now, None);
    case ClaimBy(_, _, _, _, _, _, _, _) => ClaimStepKeepsOrder(p, h, e);
    case Recover(seed, now) => ResetKeepsOrder(h.store, now, Some(seed));
    case DevelopmentReset(now) => ResetKeepsOrder(h.store, now, None);
  }

  /** In every run stamped in order, under either policy, no start-up ever minted over
      a window that was still open. */
  lemma {:induction false} StartUpsFindNothingOpen(p: Policy, h: Host, run: seq<Event>)
    requires Tracked(h) && InMintOrder(h.store) && NeverDiscarded(h) && Stamped(p, h, run)
    ensures NeverDiscarded(After(p, h, run)) && InMintOrder(After(p, h, run).store)
    decreases |run|
  {
    if run != [] {
      StepTracks(p, h, run[0]);
      StepKeepsOrder(p, h, run[0]);
      StartUpsFindNothingOpen(p, Next(p, h, run[0]), run[1..]);
    }
  }

  /** The on-demand promise, from the box on: in every run stamped in order, each window
      was minted by an operator's command, or by a start-up that found the Host
      unclaimed with nothing open. */
  lemma OnDemandFromTheBox(run: seq<Event>)
    requires Stamped(OnDemand, BOXED, run)
    ensures
      var h := After(OnDemand, BOXED, run);
      forall k :: 0 <= k < |h.store.sessions| ==>
        var id := h.store.sessions[k].id;
        id in h.origins && (h.origins[id] == Operator || h.origins[id] == StartedUnclaimed(true))
  {
    OnDemandWindowsAreAskedFor(BOXED, run);
    StartUpsFindNothingOpen(OnDemand, BOXED, run);
  }

  // ----- whose code a claim presents -----

  /** An event that mints this window with this code. */
  predicate Mints(e: Event, id: nat, hash: string) {
    match e
    case StartUp(code, minted, _, _) => minted == id && code == Some(hash)
    case OperatorMint(minted, code, _) => minted == id && code == hash
    case ClaimBy(_, _, _, _, _, code, minted, _) => minted == id && code == Some(hash)
    case Recover(seed, _) => seed.id == id && seed.hash == hash
    case DevelopmentReset(_) => false
  }

  lemma ClaimAddsNoCode(s: Store, window: nat, hash: string, c: string, key: string, now: int, id: nat, code: string)
    requires TakesCode(Claim(s, window, hash, c, key, now).1, id, code)
    ensures TakesCode(s, id, code)
  {
    var s' := Claim(s, window, hash, c, key, now).1;
    var k :| 0 <= k < |s'.sessions| && s'.sessions[k].id == id && s'.sessions[k].secretHash == code;
    assert s.sessions[k].id == id && s.sessions[k].secretHash == code;
  }

  lemma AppendedCode(s: Store, s': Store, minted: nat, code: string, id: nat, hash: string)
    requires |s'.sessions| == |s.sessions| + 1 && TakesCode(s', id, hash)
    requires forall k :: 0 <= k < |s.sessions| ==>
               s'.sessions[k].id == s.sessions[k].id && s'.sessions[k].secretHash == s.sessions[k].secretHash
    requires s'.sessions[|s.sessions|].id == minted && s'.sessions[|s.sessions|].secretHash == code
    ensures TakesCode(s, id, hash) || (id == minted && hash == code)
  {
    var k :| 0 <= k < |s'.sessions| && s'.sessions[k].id == id && s'.sessions[k].secretHash == hash;
    if k < |s.sessions| {
      assert s.sessions[k].id == id && s.sessions[k].secretHash == hash;
    }
  }

  lemma IssueAddsItsCode(s: Store, minted: nat, code: string, at: int, id: nat, hash: string)
    requires TakesCode(IssueSession(s, minted, code, at, None), id, hash)
    ensures TakesCode(s, id, hash) || (id == minted && hash == code)
  {
    AppendedCode(s, IssueSession(s, minted, code, at, None), minted, code, id, hash);
  }

  lemma ResetAddsItsCode(s: Store, now: int, recovery: Option<Seed>, id: nat, hash: string)
    requires TakesCode(ResetAuthority(s, now, recovery), id, hash)
    ensures TakesCode(s, id, hash) || (recovery.Some? && recovery.value.id == id && recovery.value.hash == hash)
  {
    var s' := ResetAuthority(s, now, recovery);
    if recovery.Some? {
      AppendedCode(s, s', recovery.value.id, recovery.value.hash, id, hash);
    } else {
      var k :| 0 <= k < |s'.sessions| && s'.sessions[k].id == id && s'.sessions[k].secretHash == hash;
      assert s.sessions[k].id == id && s.sessions[k].secretHash == hash;
    }
  }

  lemma StepAddsItsCode(p: Policy, h: Host, e: Event, id: nat, hash: string)
    requires TakesCode(Next(p, h, e).store, id, hash)
    ensures TakesCode(h.store, id, hash) || Mints(e, id, hash)
  {
    match e
    case StartUp(code, minted, now, at) =>
      if Next(p, h, e).store != h.store { IssueAddsItsCode(h.store, minted, code.value, at, id, hash); }
    case OperatorMint(minted, code, now) =>
      if FreshId(h, minted) { IssueAddsItsCode(h.store, minted, code, now, id, hash); }
    case ClaimBy(window, presented, c, key, now, code, minted, at) =>
      if FreshId(h, minted) {
        var s1 := Claim(h.store, window, presented, c, key, now).1;
        if Next(p, h, e).store != s1 { IssueAddsItsCode(s1, minted, code.value, at, id, hash); }
        if TakesCode(s1, id, hash) { ClaimAddsNoCode(h.store, window, presented, c, key, now, id, hash); }
      }
    case Recover(seed, now) =>
      if FreshId(h, seed.id) { ResetAddsItsCode(h.store, now, Some(seed), id, hash); }
    case DevelopmentReset(now) => ResetAddsItsCode(h.store, now, None, id, hash);
  }

  lemma {:induction false} CodesAreMinted(p: Policy, h: Host, run: seq<Event>, id: nat, hash: string)
    requires TakesCode(After(p, h, run).store, id, hash)
    ensures TakesCode(h.store, id, hash) || exists j :: 0 <= j < |run| && Mints(run[j], id, hash)
    decreases |run|
  {
    if run != [] {
      CodesAreMinted(p, Next(p, h, run[0]), run[1..], id, hash);
      if TakesCode(Next(p, h, run[0]).store, id, hash) {
        StepAddsItsCode(p, h, run[0], id, hash);
      } else {
        var j :| 0 <= j < |run[1..]| && Mints(run[1..][j], id, hash);
        assert Mints(run[j + 1], id, hash);
      }
    }
  }

  lemma {:induction false} RunTracks(p: Policy, h: Host, run: seq<Event>)
    requires Tracked(h)
    ensures Tracked(After(p, h, run))
    decreases |run|
  {
    if run != [] {
      StepTracks(p, h, run[0]);
      RunTracks(p, Next(p, h, run[0]), run[1..]);
    }
  }

  /** In every run from the box, under either policy, a claim that commits presented the
      code some earlier event minted for that very window, and left its own Controller
      an active grant for the key it presented. */
  lemma CommittedClaimsKnewTheCode(
    p: Policy, run: seq<Event>, window: nat, hash: string, c: string, key: string, now: int)
    requires Committed(Claim(After(p, BOXED, run).store, window, hash, c, key, now).0)
    ensures exists j :: 0 <= j < |run| && Mints(run[j], window, hash)
    ensures
      var granted := ActiveGrant(Claim(After(p, BOXED, run).store, window, hash, c, key, now).1, c);
      granted.Some? && granted.value.publicKey == key
  {
    RunTracks(p, BOXED, run);
    CommittedIsEarned(After(p, BOXED, run).store, window, hash, c, key, now);
    CodesAreMinted(p, BOXED, run, window, hash);
  }

  /** A recovery ends all authority and leaves its own window, and only that, to come back by. */
  lemma RecoveryStep(p: Policy, h: Host, seed: Seed, now: int)
    requires Tracked(h) && FreshId(h, seed.id)
    ensures
      var s' := Next(p, h, Recover(seed, now)).store;
      && s'.epoch == h.store.epoch + 1 && !s'.claimed && (forall c :: ActiveGrant(s', c).None?)
      && (forall k :: 0 <= k < |s'.sessions| && Live(s'.sessions[k]) ==> s'.sessions[k].id == seed.id)
      && TakesCode(s', seed.id, seed.hash)
  {
    ResetKeeps(h.store, now, Some(seed));
    var s' := Next(p, h, Recover(seed, now)).store;
    assert s'.sessions[|h.store.sessions|..][0] == s'.sessions[|h.store.sessions|];
    assert s'.sessions[|h.store.sessions|] == NewSession(seed.id, seed.hash, now, seed.expiresAt);
  }

  /** A development reset ends all authority and opens nothing. */
  lemma DevelopmentResetStep(p: Policy, h: Host, now: int)
    requires Tracked(h)
    ensures
      var s' := Next(p, h, DevelopmentReset(now)).store;
      && s'.epoch == h.store.epoch + 1 && !s'.claimed && (forall c :: ActiveGrant(s', c).None?)
      && (forall k :: 0 <= k < |s'.sessions| ==> !Live(s'.sessions[k]))
  {
    ResetKeeps(h.store, now, None);
  }

  lemma StampedHostShowsAWindow(h: Host, e: Event)
    requires Tracked(h) && InMintOrder(h.store) && StampFollows(h, e) && Opens(h, e) && FreshId(h, e.id)
    ensures LatestOpen(Next(AlwaysOpen, h, e).store, e.now)
  {
    StandingHostShowsAWindowExactly(h, e);
    if e.ClaimBy? {
      ClaimKeepsOrder(h.store, e.window, e.hash, e.controllerId, e.publicKey, e.now, e.id, e.at);
    }
  }

  lemma {:induction false} ClaimableAt(h: Host, run: seq<Event>, k: nat)
    requires Tracked(h) && InMintOrder(h.store) && NeverDiscarded(h) && Stamped(AlwaysOpen, h, run) && k < |run|
    requires Opens(After(AlwaysOpen, h, run[..k]), run[k])
    requires FreshId(After(AlwaysOpen, h, run[..k]), run[k].id)
    ensures LatestOpen(After(AlwaysOpen, h, run[..k + 1]).store, run[k].now)
    decreases k
  {
    if k == 0 {
      assert run[..1][1..] == [] && After(AlwaysOpen, h, run[..1]) == Next(AlwaysOpen, h, run[0]);
      StampedHostShowsAWindow(h, run[0]);
    } else {
      assert run[..k][1..] == run[1..][..k - 1] && run[..k + 1][1..] == run[1..][..k];
      StepTracks(AlwaysOpen, h, run[0]);
      StepKeepsOrder(AlwaysOpen, h, run[0]);
      ClaimableAt(Next(AlwaysOpen, h, run[0]), run[1..], k - 1);
    }
  }

  /** The standing promise, from the box on: at every point of every run stamped in order,
      a start-up or a committed claim with a usable code leaves a window the endpoint
      shows. */
  lemma StandingFromTheBox(run: seq<Event>, k: nat)
    requires Stamped(AlwaysOpen, BOXED, run) && k < |run|
    requires Opens(After(AlwaysOpen, BOXED, run[..k]), run[k])
    requires FreshId(After(AlwaysOpen, BOXED, run[..k]), run[k].id)
    ensures LatestOpen(After(AlwaysOpen, BOXED, run[..k + 1]).store, run[k].now)
  {
    ClaimableAt(BOXED, run, k);
  }

  // ----- the service -----

  class BootstrapService {
    const policy: Policy
    var store: Store

    constructor (policy: Policy, store: Store)
      ensures this.policy == policy && this.store == store
    {
      this.policy, this.store := policy, store;
    }

    method IssueSetupCode(id: nat, hash: string, at: int)
      modifies this
      ensures store == IssueSession(old(store), id, hash, at, None)
      ensures OpenSomewhere(store, at)
    {
      MintIsOpen(store, id, hash, at, at);
      store := IssueSession(store, id, hash, at, None);
    }

    method OpenFactory(code: Option<string>, id: nat, now: int, at: int)
      modifies this
      ensures store == OpenFactoryWindow(policy, code, old(store), id, now, at)
      ensures FactoryMints(policy, code, old(store), now) ==> Minted(old(store), store, id, code.value)
      ensures !FactoryMints(policy, code, old(store), now) ==> store == old(store)
      ensures policy == AlwaysOpen && code.Some? ==> OpenSomewhere(store, now)
      ensures policy == AlwaysOpen && code.Some? && UnusedId(old(store), id) ==>
                (LatestOpen(store, now) <==> LatestOpen(old(store), now) || StampedLast(old(store), id, at))
    {
      if code.Some? && UnusedId(store, id) { StandingWindowIsShownExactly(store, code.value, id, now, at); }
      if code.Some? { StandingHostHoldsAWindow(store, code.value, id, now, at); }
      OpeningMintsExactly(policy, code, store, id, now, at);
      if code.None? {
        return;
      }
      if policy != AlwaysOpen && store.claimed {
        return;
      }
      var session := Latest(store.sessions);
      if session.Some? && IsOpen(session.value, now) {
        return;
      }
      IssueSetupCode(id, code.value, at);
    }

    /** Withdrawing every grant and opening the way back are one act.  A missing or zero
        time to live reads as the default. */
    method OpenControllerRecoveryWindow(id: nat, hash: string, ttlSeconds: Option<int>, now: int) returns (ok: bool)
      modifies this
      ensures ok <==> ttlSeconds.None? || ttlSeconds.value == 0 || 60 <= ttlSeconds.value <= 86400
      ensures !ok ==> store == old(store)
      ensures ok ==>
                && store.epoch == old(store).epoch + 1 && OpenSomewhere(store, now)
                && |store.sessions| == |old(store).sessions| + 1
                && (forall k :: 0 <= k < |old(store).sessions| ==> !Live(store.sessions[k]))
                && (var ttl := if ttlSeconds.None? || ttlSeconds.value == 0 then 900 else ttlSeconds.value;
                    store.sessions[|old(store).sessions|] == NewSession(id, hash, now, Some(now + ttl)))
                && (GrantsOk(old(store)) ==> forall c :: ActiveGrant(store, c).None?)
      ensures ok ==>
                var ttl := if ttlSeconds.None? || ttlSeconds.value == 0 then 900 else ttlSeconds.value;
                forall presented, later ::
                  Authorize(store, id, presented, later).0 <==> presented == hash && later < now + ttl
    {
      var ttl := if ttlSeconds.None? || ttlSeconds.value == 0 then RECOVERY_WINDOW_TTL_SECONDS else ttlSeconds.value;
      if !(60 <= ttl <= 86400) {
        return false;
      }
      var seed := Seed(id, hash, Some(now + ttl));
      ghost var before := store;
      store := ResetAuthority(store, now, Some(seed));
      assert IsOpen(store.sessions[|before.sessions|], now);
      assert IndexOf(store.sessions, id) == Some(|before.sessions|);
      assert GrantsOk(before) ==> forall c :: (store.epoch, c) !in before.grants;
      ok := true;
    }

    /** A claim on either transport, and what follows it. */
    method ClaimController(window: nat, hash: string, controllerId: string, publicKey: string, now: int,
                           code: Option<string>, id: nat, at: int)
      returns (outcome: ClaimOutcome)
      modifies this
      ensures
        var (claimed, s1) := Claim(old(store), window, hash, controllerId, publicKey, now);
        && outcome == claimed
        && store == (if Committed(outcome) then ReopenStanding(policy, code, s1, id, now, at) else s1)
      ensures Committed(outcome) && policy == AlwaysOpen && code.Some? ==> OpenSomewhere(store, now)
      ensures Committed(outcome) && WindowsOk(old(store)) ==>
                && TakesCode(old(store), window, hash)
                && ActiveGrant(store, controllerId).Some?
                && ActiveGrant(store, controllerId).value.publicKey == publicKey
    {
      if WindowsOk(store) { CommittedIsEarned(store, window, hash, controllerId, publicKey, now); }
      var (claimed, s1) := Claim(store, window, hash, controllerId, publicKey, now);
      if code.Some? { StandingHostHoldsAWindow(s1, code.value, id, now, at); }
      outcome, store := claimed, s1;
      if !Committed(outcome) || policy != AlwaysOpen {
        return;
      }
      var session := Latest(store.sessions);
      if session.Some? && IsOpen(session.value, now) {
        return;
      }
      if code.None? {
        return;
      }
      IssueSetupCode(id, code.value, at);
    }
  }
}
