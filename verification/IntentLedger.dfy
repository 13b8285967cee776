/**
  The durable intent ledger and its use against the Hub
  (server/eidolon_admin_server/app/control_plane: removal_intents.py,
  admission_intents.py, and their callers in service.py).

  A ledger holds one row per (Owner Domain, request id).  The row is bound to the
  content of the first request, carries the command id derived from it, and
  records the Hub's result once.  `C` is the content a row is bound to and `R`
  the Hub's result; the removal and admission ledgers are the two instances.
 */
module IntentLedger {
  import opened Outcomes

  datatype Stage = Recorded | Committed

  datatype Intent<+C, +R> = Intent(
    intentId: string,
    requestId: string,
    ownerDomain: string,
    content: C,
    commandId: string,
    stage: Stage,
    result: Option<R>,
    createdAt: int,
    updatedAt: int)

  datatype LedgerError =
    | ContextHashMismatch   // ValueError: the context bytes do not match their hash
    | ContentReused         // ValueError: the request id was reused with different content
    | ResultChanged         // ValueError: the Hub result changed for an existing intent
    | UnknownIntent         // KeyError
    | MissingIntent         // ValueError: what the admission table raises for the same
    | ConstraintViolated    // sqlite3.IntegrityError

  /** How ids are derived: an intent id from (Owner Domain, request id), a command id
      from an intent id and the content. */
  datatype Naming<!C> = Naming(intentId: (string, string) -> string, commandId: (string, C) -> string)

  type Ledger<C, R> = map<string, Intent<C, R>>

  function NewIntent<C, R>(n: Naming<C>, owner: string, request: string, content: C, now: int): Intent<C, R> {
    var id := n.intentId(owner, request);
    Intent(id, request, owner, content, n.commandId(id, content), Recorded, None, now, now)
  }

  function GetOrCreate<C(==), R>(
    n: Naming<C>, ledger: Ledger<C, R>, owner: string, request: string, content: C, now: int)
    : (Result<Intent<C, R>, LedgerError>, Ledger<C, R>)
  {
    var id := n.intentId(owner, request);
    if id in ledger then
      (if ledger[id].content == content then Ok(ledger[id]) else Err(ContentReused), ledger)
    else
      var intent := NewIntent(n, owner, request, content, now);
      (Ok(intent), ledger[id := intent])
  }

  function Mark<C, R(==)>(ledger: Ledger<C, R>, intentId: string, result: R, now: int)
    : (Result<Intent<C, R>, LedgerError>, Ledger<C, R>)
  {
    if intentId !in ledger then (Err(UnknownIntent), ledger)
    else if ledger[intentId].result.Some? && ledger[intentId].result != Some(result) then (Err(ResultChanged), ledger)
    else
      var updated := ledger[intentId].(stage := Committed, result := Some(result), updatedAt := now);
      (Ok(updated), ledger[intentId := updated])
  }

  /** What a request is answered: its own row, recorded now if there was none; refused
      exactly when there was one of different content; and no other row is touched. */
  lemma GetOrCreateExactly<C, R>(
    n: Naming<C>, ledger: Ledger<C, R>, owner: string, request: string, content: C, now: int)
    ensures
      var (answer, ledger') := GetOrCreate(n, ledger, owner, request, content, now);
      var id := n.intentId(owner, request);
      && (answer == Err(ContentReused) <==> id in ledger && ledger[id].content != content)
      && (answer.Ok? <==> answer != Err(ContentReused))
      && (id in ledger ==> ledger' == ledger && (answer.Ok? ==> answer.value == ledger[id]))
      && (id !in ledger ==>
            && id in ledger' && answer == Ok(ledger'[id]) && ledger' == ledger[id := ledger'[id]]
            && var i := ledger'[id];
            && i.intentId == id && i.ownerDomain == owner && i.requestId == request && i.content == content
            && i.commandId == n.commandId(id, content)
            && i.stage == Recorded && i.result == None && i.createdAt == now && i.updatedAt == now)
  {
  }

  /** What recording a result does: refused exactly for an unknown intent or a result
      different from the one recorded; otherwise that row alone is committed with it. */
  lemma MarkExactly<C, R>(ledger: Ledger<C, R>, id: string, result: R, now: int)
    ensures
      var (answer, ledger') := Mark(ledger, id, result, now);
      && (answer == Err(UnknownIntent) <==> id !in ledger)
      && (answer == Err(ResultChanged) <==>
            id in ledger && ledger[id].result.Some? && ledger[id].result.value != result)
      && (answer.Err? ==> ledger' == ledger)
      && (answer.Ok? <==> id in ledger && (ledger[id].result == None || ledger[id].result == Some(result)))
      && (answer.Ok? ==>
            && answer.value == ledger[id].(stage := Committed, result := Some(result), updatedAt := now)
            && ledger' == ledger[id := answer.value])
  {
  }

  // ----- the workflow against the Hub -----

  /** What travels to the Hub: a command id and the content frozen in the row. */
  datatype Command<+C> = Command(commandId: string, ownerDomain: string, requestId: string, content: C)

  predicate SameRequest<C>(a: Command<C>, b: Command<C>) {
    a.ownerDomain == b.ownerDomain && a.requestId == b.requestId
  }

  /** What the Hub keeps of a command it applied; a replay of its id returns this result. */
  datatype Effect<+C, +R> = Effect(command: Command<C>, result: R)

  /** `ledger` and `hub` are durable, `waiting` is the process's memory: the intents
      whose reply some handler is still waiting for.  `sent` only grows, so a command
      may reach the Hub late, never, or many times. */
  datatype World<C(==), R> = World(
    ledger: Ledger<C, R>,
    sent: set<Command<C>>,
    hub: map<string, Effect<C, R>>,
    waiting: set<string>)

  datatype Event<+C, +R> =
    | Submit(ownerDomain: string, requestId: string, content: C, now: int)
    | Deliver(command: Command<C>, result: R)
    | Reply(intentId: string, now: int)
    | Crash

  function Next<C(==), R(==)>(n: Naming<C>, w: World<C, R>, e: Event<C, R>): World<C, R> {
    match e
    case Submit(owner, request, content, now) =>
      var (answer, ledger') := GetOrCreate(n, w.ledger, owner, request, content, now);
      if answer.Err? then w
      else if answer.value.result.Some? then w.(ledger := ledger')
      else
        var i := answer.value;
        w.(ledger := ledger',
           sent := w.sent + {Command(i.commandId, i.ownerDomain, i.requestId, i.content)},
           waiting := w.waiting + {i.intentId})
    case Deliver(command, result) =>
      if command in w.sent && command.commandId !in w.hub
      then w.(hub := w.hub[command.commandId := Effect(command, result)]) else w
    case Reply(intentId, now) =>
      if intentId in w.waiting && intentId in w.ledger && w.ledger[intentId].commandId in w.hub
      then w.(ledger := Mark(w.ledger, intentId, w.hub[w.ledger[intentId].commandId].result, now).1) else w
    case Crash => w.(waiting := {})
  }

  function After<C(==), R(==)>(n: Naming<C>, w: World<C, R>, run: seq<Event<C, R>>): World<C, R>
    decreases |run|
  {
    if run == [] then w else After(n, Next(n, w, run[0]), run[1..])
  }

  function Start<C(==), R>(): World<C, R> {
    World(map[], {}, map[], {})
  }

  predicate ColonFree(s: string) {
    forall k :: 0 <= k < |s| ==> s[k] != ':'
  }

  /** Different requests of colon-free Owner Domains get different intents, and
      different intents never share a command id. */
  ghost predicate Separating<C(!new)>(n: Naming<C>) {
    && (forall o1, r1, o2, r2 :: ColonFree(o1) && ColonFree(o2) && n.intentId(o1, r1) == n.intentId(o2, r2) ==>
          o1 == o2 && r1 == r2)
    && (forall o1, r1, c1: C, o2, r2, c2: C ::
          n.commandId(n.intentId(o1, r1), c1) == n.commandId(n.intentId(o2, r2), c2) ==>
            n.intentId(o1, r1) == n.intentId(o2, r2))
  }

  ghost predicate Submits<C, R>(run: seq<Event<C, R>>) {
    forall k :: 0 <= k < |run| && run[k].Submit? ==> ColonFree(run[k].ownerDomain)
  }

  // ----- the invariant -----

  /** A row's ids are the ones derived from it, and it is committed exactly when it holds a result. */
  predicate RowBound<C, R>(n: Naming<C>, id: string, i: Intent<C, R>) {
    && i.intentId == id == n.intentId(i.ownerDomain, i.requestId)
    && i.commandId == n.commandId(id, i.content)
    && (i.stage == Committed <==> i.result.Some?)
  }

  predicate RowOk<C, R>(n: Naming<C>, id: string, i: Intent<C, R>) {
    RowBound(n, id, i) && ColonFree(i.ownerDomain)
  }

  ghost predicate LedgerOk<C, R>(n: Naming<C>, ledger: Ledger<C, R>) {
    forall id :: id in ledger ==> RowOk(n, id, ledger[id])
  }

  /** A sent command is the row's command with the row's content. */
  ghost predicate Backed<C, R>(n: Naming<C>, ledger: Ledger<C, R>, c: Command<C>) {
    var id := n.intentId(c.ownerDomain, c.requestId);
    id in ledger && ledger[id].ownerDomain == c.ownerDomain && ledger[id].requestId == c.requestId
    && ledger[id].content == c.content && ledger[id].commandId == c.commandId
  }

  ghost predicate ResultsOk<C, R>(w: World<C, R>) {
    forall id :: id in w.ledger && w.ledger[id].result.Some? ==>
      w.ledger[id].commandId in w.hub && w.hub[w.ledger[id].commandId].result == w.ledger[id].result.value
  }

  ghost predicate Inv<C(!new), R(!new)>(n: Naming<C>, w: World<C, R>) {
    && LedgerOk(n, w.ledger)
    && (forall c :: c in w.sent ==> Backed(n, w.ledger, c))
    && (forall k :: k in w.hub ==> w.hub[k].command in w.sent && w.hub[k].command.commandId == k)
    && ResultsOk(w)
    && w.waiting <= w.ledger.Keys
  }

  /** Nothing a row says is ever taken back. */
  ghost predicate OnlyForward<C, R>(ledger: Ledger<C, R>, ledger': Ledger<C, R>) {
    forall id :: id in ledger ==>
      && id in ledger'
      && ledger'[id].content == ledger[id].content
      && ledger'[id].commandId == ledger[id].commandId
      && ledger'[id].ownerDomain == ledger[id].ownerDomain
      && ledger'[id].requestId == ledger[id].requestId
      && ledger'[id].createdAt == ledger[id].createdAt
      && (ledger[id].stage == Committed ==> ledger'[id].stage == Committed)
      && (ledger[id].result.Some? ==> ledger'[id].result == ledger[id].result)
  }

  lemma GetOrCreateKeeps<C(!new), R>(
    n: Naming<C>, ledger: Ledger<C, R>, owner: string, request: string, content: C, now: int)
    requires LedgerOk(n, ledger) && Separating(n) && ColonFree(owner)
    ensures
      var (answer, ledger') := GetOrCreate(n, ledger, owner, request, content, now);
      && LedgerOk(n, ledger')
      && OnlyForward(ledger, ledger')
      && (answer.Err? ==> ledger' == ledger && answer.error == ContentReused)
      && (answer.Ok? ==>
            && answer.value.intentId in ledger' && ledger'[answer.value.intentId] == answer.value
            && answer.value.ownerDomain == owner && answer.value.requestId == request
            && answer.value.content == content
            && answer.value.commandId == n.commandId(n.intentId(owner, request), content))
  {
    var id := n.intentId(owner, request);
    if id in ledger {
      assert RowOk(n, id, ledger[id]);
    }
  }

  lemma BackedStays<C, R>(n: Naming<C>, ledger: Ledger<C, R>, ledger': Ledger<C, R>, c: Command<C>)
    requires Backed(n, ledger, c) && OnlyForward(ledger, ledger')
    ensures Backed(n, ledger', c)
  {
  }

  lemma SubmitKeeps<C(!new), R(!new)>(n: Naming<C>, w: World<C, R>, e: Event<C, R>)
    requires Inv(n, w) && Separating(n) && e.Submit? && ColonFree(e.ownerDomain)
    ensures Inv(n, Next(n, w, e)) && OnlyForward(w.ledger, Next(n, w, e).ledger)
  {
    GetOrCreateKeeps(n, w.ledger, e.ownerDomain, e.requestId, e.content, e.now);
    var (answer, ledger') := GetOrCreate(n, w.ledger, e.ownerDomain, e.requestId, e.content, e.now);
    if answer.Ok? {
      var i := answer.value;
      assert RowOk(n, i.intentId, i);
      assert w.ledger.Keys <= ledger'.Keys;
      assert Backed(n, ledger', Command(i.commandId, i.ownerDomain, i.requestId, i.content));
      LedgerGrows(n, w, Next(n, w, e));
    }
  }

  lemma LedgerGrows<C(!new), R(!new)>(n: Naming<C>, w: World<C, R>, w': World<C, R>)
    requires Inv(n, w)
    requires LedgerOk(n, w'.ledger) && OnlyForward(w.ledger, w'.ledger)
    requires forall id :: id in w.ledger ==> id in w'.ledger && w'.ledger[id] == w.ledger[id]
    requires forall id :: id in w'.ledger && id !in w.ledger ==> w'.ledger[id].result.None?
    requires w'.hub == w.hub && w.sent <= w'.sent && w'.waiting <= w'.ledger.Keys
    requires forall c :: c in w'.sent && c !in w.sent ==> Backed(n, w'.ledger, c)
    ensures Inv(n, w')
  {
  }

  lemma ReplyKeeps<C(!new), R(!new)>(n: Naming<C>, w: World<C, R>, intentId: string, now: int)
    requires Inv(n, w) && intentId in w.waiting && w.ledger[intentId].commandId in w.hub
    ensures Inv(n, Next(n, w, Reply(intentId, now)))
    ensures OnlyForward(w.ledger, Next(n, w, Reply(intentId, now)).ledger)
  {
    var w' := Next(n, w, Reply(intentId, now));
    ReplyAccepted(n, w, intentId, now);
    assert RowOk(n, intentId, w.ledger[intentId]);
    forall id | id in w'.ledger ensures RowOk(n, id, w'.ledger[id]) {
      assert RowOk(n, id, w.ledger[id]);
    }
    forall c | c in w'.sent ensures Backed(n, w'.ledger, c) {
      BackedStays(n, w.ledger, w'.ledger, c);
    }
  }

  lemma StepKeeps<C(!new), R(!new)>(n: Naming<C>, w: World<C, R>, e: Event<C, R>)
    requires Inv(n, w) && Separating(n)
    requires e.Submit? ==> ColonFree(e.ownerDomain)
    ensures Inv(n, Next(n, w, e)) && OnlyForward(w.ledger, Next(n, w, e).ledger)
  {
    match e
    case Submit(_, _, _, _) => SubmitKeeps(n, w, e);
    case Reply(intentId, now) =>
      if intentId in w.waiting && w.ledger[intentId].commandId in w.hub {
        ReplyKeeps(n, w, intentId, now);
      }
    case Deliver(command, result) =>
      assert Next(n, w, e).ledger == w.ledger && Next(n, w, e).sent == w.sent;
    case Crash =>
  }

  /** With a Hub that answers a replayed command id with the result it first recorded,
      the "Hub result changed" refusal is never reached. */
  lemma ReplyAccepted<C(!new), R(!new)>(n: Naming<C>, w: World<C, R>, intentId: string, now: int)
    requires Inv(n, w) && intentId in w.waiting && w.ledger[intentId].commandId in w.hub
    ensures
      var result := w.hub[w.ledger[intentId].commandId].result;
      var (answer, ledger') := Mark(w.ledger, intentId, result, now);
      && answer.Ok?
      && answer.value.stage == Committed && answer.value.result == Some(result)
      && ledger' == w.ledger[intentId := answer.value]
      && OnlyForward(w.ledger, ledger')
  {
  }

  lemma {:induction false} RunKeeps<C(!new), R(!new)>(n: Naming<C>, w: World<C, R>, run: seq<Event<C, R>>)
    requires Inv(n, w) && Separating(n) && Submits(run)
    ensures Inv(n, After(n, w, run)) && OnlyForward(w.ledger, After(n, w, run).ledger)
    decreases |run|
  {
    if run != [] {
      StepKeeps(n, w, run[0]);
      RunKeeps(n, Next(n, w, run[0]), run[1..]);
    }
  }

  // ----- whole runs -----

  /** Exactly once, in every run with retries, lost replies, late and repeated
      deliveries and crashes: every command ever sent for one (Owner Domain, request
      id) is the same command; commands that share an id are the same command, so
      deduplication never swallows another request; the Hub applied at most one
      effect per request; and a row is committed exactly when it holds a result, which
      is the one the Hub recorded. */
  lemma EffectsAtMostOnce<C(!new), R(!new)>(n: Naming<C>, run: seq<Event<C, R>>)
    requires Separating(n) && Submits(run)
    ensures
      var w := After(n, Start(), run);
      && (forall c1, c2 | c1 in w.sent && c2 in w.sent && SameRequest(c1, c2) ::
            c1 == c2)
      && (forall c1, c2 :: c1 in w.sent && c2 in w.sent && c1.commandId == c2.commandId ==> c1 == c2)
      && (forall k1, k2 | k1 in w.hub && k2 in w.hub && SameRequest(w.hub[k1].command, w.hub[k2].command) :: k1 == k2)
      && (forall id :: id in w.ledger ==> (w.ledger[id].stage == Committed <==> w.ledger[id].result.Some?))
      && (forall id :: id in w.ledger && w.ledger[id].result.Some? ==>
            w.ledger[id].commandId in w.hub && w.hub[w.ledger[id].commandId].result == w.ledger[id].result.value)
  {
    var w0: World<C, R> := Start();
    RunKeeps(n, w0, run);
    var w := After(n, w0, run);
    forall c1, c2 | c1 in w.sent && c2 in w.sent && c1.commandId == c2.commandId ensures c1 == c2 {
      assert Backed(n, w.ledger, c1) && Backed(n, w.ledger, c2);
      assert RowOk(n, n.intentId(c1.ownerDomain, c1.requestId), w.ledger[n.intentId(c1.ownerDomain, c1.requestId)]);
      assert RowOk(n, n.intentId(c2.ownerDomain, c2.requestId), w.ledger[n.intentId(c2.ownerDomain, c2.requestId)]);
    }
    forall c1, c2 | c1 in w.sent && c2 in w.sent && SameRequest(c1, c2)
      ensures c1 == c2
    {
      assert Backed(n, w.ledger, c1) && Backed(n, w.ledger, c2);
    }
    forall id | id in w.ledger ensures w.ledger[id].stage == Committed <==> w.ledger[id].result.Some? {
      assert RowOk(n, id, w.ledger[id]);
    }
  }

  /** The checkpoint never moves back and the recorded result never changes, from any
      point of a run to any later one. */
  lemma CheckpointOnlyMovesForward<C(!new), R(!new)>(n: Naming<C>, first: seq<Event<C, R>>, rest: seq<Event<C, R>>)
    requires Separating(n) && Submits(first) && Submits(rest)
    ensures OnlyForward(After(n, Start(), first).ledger, After(n, After(n, Start(), first), rest).ledger)
  {
    RunKeeps(n, Start(), first);
    RunKeeps(n, After(n, Start(), first), rest);
  }

  /** A reply lost in a crash is lost: nothing more is recorded from it until the request
      is submitted again. */
  lemma LostReplyRecordsNothing<C, R>(n: Naming<C>, w: World<C, R>, id: string, now: int)
    ensures Next(n, Next(n, w, Crash), Reply(id, now)) == Next(n, w, Crash)
    ensures Next(n, w, Crash).ledger == w.ledger && Next(n, w, Crash).hub == w.hub && Next(n, w, Crash).sent == w.sent
  {
  }

  lemma AfterFour<C, R>(n: Naming<C>, w: World<C, R>, run: seq<Event<C, R>>)
    requires |run| == 4
    ensures After(n, w, run) == Next(n, Next(n, Next(n, Next(n, w, run[0]), run[1]), run[2]), run[3])
  {
    var w1 := Next(n, w, run[0]);
    var w2 := Next(n, w1, run[1]);
    var w3 := Next(n, w2, run[2]);
    assert run[1..][1..] == run[2..] && run[2..][1..] == run[3..] && run[3..][1..] == [];
    assert After(n, w3, run[3..]) == Next(n, w3, run[3]);
    assert After(n, w1, run[1..]) == After(n, w2, run[2..]) == After(n, w3, run[3..]);
  }

  /** Replay after a loss: wherever a run stopped, submitting the recorded request
      again after a crash, with the Hub answering, commits the row; the effect is the
      one the Hub had already applied if it had applied one. */
  lemma ReplayCompletes<C(!new), R(!new)>(n: Naming<C>, w: World<C, R>, id: string, answer: R, now: int)
    requires Inv(n, w) && Separating(n) && id in w.ledger && w.ledger[id].result.None?
    ensures
      var i := w.ledger[id];
      var command := Command(i.commandId, i.ownerDomain, i.requestId, i.content);
      var w' := After(n, w, [Crash, Submit(i.ownerDomain, i.requestId, i.content, now),
                             Deliver(command, answer), Reply(id, now)]);
      && id in w'.ledger && w'.ledger[id].stage == Committed
      && w'.ledger[id].result == Some(if i.commandId in w.hub then w.hub[i.commandId].result else answer)
      && w'.hub == (if i.commandId in w.hub then w.hub else w.hub[i.commandId := Effect(command, answer)])
  {
    var i := w.ledger[id];
    assert RowOk(n, id, i);
    var command := Command(i.commandId, i.ownerDomain, i.requestId, i.content);
    var run := [Crash, Submit(i.ownerDomain, i.requestId, i.content, now), Deliver(command, answer), Reply(id, now)];
    AfterFour(n, w, run);
    var w2 := Next(n, Next(n, w, run[0]), run[1]);
    assert w2 == w.(sent := w.sent + {command}, waiting := {id});
  }
}
