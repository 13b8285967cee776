/**
  Staged Wi-Fi changes
  (`configure_network`, `confirm_network`, `rollback_network` in
  server/eidolon_admin_server/bootstrap/commissioning_service.py, over the operation
  rows of bootstrap/adapters/persistence/sqlite.py).

  Each request runs until it awaits the network adapter and resumes when the adapter
  answers; between the two anything else may happen, including other requests on
  the same operation, an authority reset, a restart, or the reconciliation with the
  adapter's own state that follows one (bootstrap/daemon.py).
 */
module WifiOperations {
  import opened Outcomes
  import HostStore

  datatype OperationState = Pending | Running | WaitingConfirmation | Succeeded | Failed | Compensating

  datatype NetworkState = Unconfigured | Staging | Connected | Degraded | RollingBack

  datatype Operation = Operation(state: OperationState, target: string, epoch: nat)

  /** A request waiting for the adapter. */
  datatype Handler =
    | Configuring(operation: string, previous: NetworkState)
    | Confirming(operation: string)
    | Undoing(operation: string)

  datatype World = World(
    operations: map<string, Operation>,
    network: NetworkState,
    epoch: nat,
    waiting: multiset<Handler>,
    staged: seq<(string, string)>,   // every stage request the adapter ever got: operation, SSID
    confirmed: set<string>)          // operations the adapter ever confirmed

  const START := World(map[], Unconfigured, 0, multiset{}, [], {})

  datatype Event =
    | Configure(operation: string, ssid: string)
    | Staged(operation: string, previous: NetworkState, ok: bool)
    | Confirm(operation: string)
    | ConfirmAnswered(operation: string, ok: bool)
    | Rollback(operation: string)
    | RollbackAnswered(operation: string, answer: Option<NetworkState>)
    | ResetAuthority(network: NetworkState)
    | Restart
    | Reconcile(network: NetworkState)
    | DieAfterCreate(operation: string, ssid: string)

  predicate Active(s: OperationState) {
    s == Pending || s == Running || s == WaitingConfirmation || s == Compensating
  }

  predicate SomeActive(operations: map<string, Operation>) {
    exists id :: id in operations && Active(operations[id].state)
  }

  function FailActive(operations: map<string, Operation>): map<string, Operation> {
    map id | id in operations ::
      if Active(operations[id].state) then operations[id].(state := Failed) else operations[id]
  }

  function Fallback(previous: NetworkState): NetworkState {
    if previous == Connected then Connected else Degraded
  }

  function Update(w: World, id: string, state: OperationState, network: NetworkState): World {
    if id in w.operations
    then w.(operations := w.operations[id := w.operations[id].(state := state)], network := network) else w
  }

  function Next(w: World, e: Event): World {
    match e
    case Configure(id, ssid) =>
      if id in w.operations || SomeActive(w.operations) then w
      else w.(operations := w.operations[id := Operation(Running, ssid, w.epoch)],
              network := Staging,
              staged := w.staged + [(id, ssid)],
              waiting := w.waiting + multiset{Configuring(id, w.network)})
    case Staged(id, previous, ok) =>
      if Configuring(id, previous) !in w.waiting then w
      else
        var w1 := w.(waiting := w.waiting - multiset{Configuring(id, previous)});
        if ok then Update(w1, id, WaitingConfirmation, Staging) else Update(w1, id, Failed, Fallback(previous))
    case Confirm(id) =>
      if id in w.operations && w.operations[id].state == WaitingConfirmation
      then w.(waiting := w.waiting + multiset{Confirming(id)}) else w
    case ConfirmAnswered(id, ok) =>
      if Confirming(id) !in w.waiting then w
      else
        var w1 := w.(waiting := w.waiting - multiset{Confirming(id)});
        if ok then Update(w1.(confirmed := w1.confirmed + {id}), id, Succeeded, Connected) else w1
    case Rollback(id) =>
      if id in w.operations && w.operations[id].state != Failed
      then Update(w.(waiting := w.waiting + multiset{Undoing(id)}), id, Compensating, RollingBack) else w
    case RollbackAnswered(id, network) =>
      if Undoing(id) !in w.waiting then w
      else
        var w1 := w.(waiting := w.waiting - multiset{Undoing(id)});
        if network.Some? then Update(w1, id, Failed, network.value) else w1
    case ResetAuthority(network) =>
      w.(operations := FailActive(w.operations), network := network, epoch := w.epoch + 1)
    case Restart =>
      w.(operations := FailActive(w.operations), waiting := multiset{},
         network := if SomeActive(w.operations) then Degraded else w.network)
    case Reconcile(network) =>
      if network == Staging || network == RollingBack then w else w.(network := network)
    case DieAfterCreate(id, ssid) =>
      if id in w.operations || SomeActive(w.operations) then w
      else w.(operations := w.operations[id := Operation(Pending, ssid, w.epoch)], waiting := multiset{})
  }

  function After(w: World, run: seq<Event>): World
    decreases |run|
  {
    if run == [] then w else After(Next(w, run[0]), run[1..])
  }

  // ----- the invariant -----

  ghost predicate StagedOk(w: World) {
    && (forall k :: 0 <= k < |w.staged| ==>
          w.staged[k].0 in w.operations && w.operations[w.staged[k].0].target == w.staged[k].1)
    && (forall j, k :: 0 <= j < k < |w.staged| ==> w.staged[j].0 != w.staged[k].0)
  }

  ghost predicate Inv(w: World) {
    && StagedOk(w)
    && (forall id :: id in w.operations && w.operations[id].state == Succeeded ==> id in w.confirmed)
  }

  /** An operation, once created, keeps its SSID and its epoch. */
  ghost predicate Bound(w: World, w': World) {
    && (forall id :: id in w.operations ==>
          id in w'.operations && w'.operations[id].target == w.operations[id].target &&
          w'.operations[id].epoch == w.operations[id].epoch)
    && w.staged <= w'.staged && w.confirmed <= w'.confirmed
  }

  lemma UpdateBinds(w: World, id: string, state: OperationState, network: NetworkState, other: string)
    requires other in w.operations
    ensures
      var w' := Update(w, id, state, network);
      && other in w'.operations && w'.operations[other].target == w.operations[other].target
      && w'.operations[other].epoch == w.operations[other].epoch
      && w'.staged == w.staged && w'.confirmed == w.confirmed
  {
  }

  lemma StepBindsOne(w: World, e: Event, other: string)
    requires other in w.operations
    ensures other in Next(w, e).operations
    ensures Next(w, e).operations[other].target == w.operations[other].target
    ensures Next(w, e).operations[other].epoch == w.operations[other].epoch
  {
    match e
    case Configure(_, _) =>
    case Staged(id, previous, ok) => StagedBinds(w, id, previous, ok, other);
    case Confirm(_) =>
    case ConfirmAnswered(id, ok) =>
      if Confirming(id) in w.waiting && ok {
        var w1 := w.(waiting := w.waiting - multiset{Confirming(id)}, confirmed := w.confirmed + {id});
        UpdateBinds(w1, id, Succeeded, Connected, other);
      }
    case Rollback(id) =>
      if id in w.operations && w.operations[id].state != Failed {
        UpdateBinds(w.(waiting := w.waiting + multiset{Undoing(id)}), id, Compensating, RollingBack, other);
      }
    case RollbackAnswered(id, answer) =>
      if Undoing(id) in w.waiting && answer.Some? {
        UpdateBinds(w.(waiting := w.waiting - multiset{Undoing(id)}), id, Failed, answer.value, other);
      }
    case ResetAuthority(_) =>
    case Restart =>
    case Reconcile(_) =>
    case DieAfterCreate(_, _) =>
  }

  lemma StagedBinds(w: World, id: string, previous: NetworkState, ok: bool, other: string)
    requires other in w.operations
    ensures
      var w' := Next(w, Staged(id, previous, ok));
      && other in w'.operations && w'.operations[other].target == w.operations[other].target
      && w'.operations[other].epoch == w.operations[other].epoch
  {
  }

  lemma StepLogs(w: World, e: Event)
    ensures w.staged <= Next(w, e).staged && w.confirmed <= Next(w, e).confirmed
  {
  }

  lemma StepBinds(w: World, e: Event)
    ensures Bound(w, Next(w, e))
  {
    StepLogs(w, e);
    forall other | other in w.operations
      ensures other in Next(w, e).operations
      ensures Next(w, e).operations[other].target == w.operations[other].target
      ensures Next(w, e).operations[other].epoch == w.operations[other].epoch
    {
      StepBindsOne(w, e, other);
    }
  }

  lemma UpdateState(w: World, id: string, state: OperationState, network: NetworkState, other: string)
    requires other in Update(w, id, state, network).operations
    ensures other in w.operations
    ensures Update(w, id, state, network).operations[other].state ==
              if other == id then state else w.operations[other].state
  {
  }

  /** An operation found succeeded had succeeded before, or the adapter just confirmed it. */
  lemma SucceedsOnce(w: World, e: Event, id: string)
    requires id in Next(w, e).operations && Next(w, e).operations[id].state == Succeeded
    ensures (id in w.operations && w.operations[id].state == Succeeded) || id in Next(w, e).confirmed
  {
    match e
    case Configure(_, _) =>
    case Staged(op, previous, ok) =>
      var w1 := w.(waiting := w.waiting - multiset{Configuring(op, previous)});
      if Configuring(op, previous) in w.waiting {
        if ok {
          UpdateState(w1, op, WaitingConfirmation, Staging, id);
        } else {
          UpdateState(w1, op, Failed, Fallback(previous), id);
        }
      }
    case Confirm(_) =>
    case ConfirmAnswered(op, ok) =>
      if Confirming(op) in w.waiting && ok {
        var w1 := w.(waiting := w.waiting - multiset{Confirming(op)}, confirmed := w.confirmed + {op});
        UpdateState(w1, op, Succeeded, Connected, id);
        UpdateBinds(w1, op, Succeeded, Connected, id);
      }
    case Rollback(op) =>
      if op in w.operations && w.operations[op].state != Failed {
        UpdateState(w.(waiting := w.waiting + multiset{Undoing(op)}), op, Compensating, RollingBack, id);
      }
    case RollbackAnswered(op, answer) =>
      if Undoing(op) in w.waiting && answer.Some? {
        UpdateState(w.(waiting := w.waiting - multiset{Undoing(op)}), op, Failed, answer.value, id);
      }
    case ResetAuthority(_) =>
    case Restart =>
    case Reconcile(_) =>
    case DieAfterCreate(_, _) =>
  }

  lemma StepConfirms(w: World, e: Event)
    requires forall id :: id in w.operations && w.operations[id].state == Succeeded ==> id in w.confirmed
    ensures forall id :: id in Next(w, e).operations && Next(w, e).operations[id].state == Succeeded ==>
              id in Next(w, e).confirmed
  {
    var w' := Next(w, e);
    StepLogs(w, e);
    forall id | id in w'.operations && w'.operations[id].state == Succeeded ensures id in w'.confirmed {
      SucceedsOnce(w, e, id);
    }
  }

  lemma StepStages(w: World, e: Event)
    requires StagedOk(w)
    ensures StagedOk(Next(w, e))
  {
    var w' := Next(w, e);
    StepBinds(w, e);
    if w'.staged == w.staged {
      forall k | 0 <= k < |w'.staged|
        ensures w'.staged[k].0 in w'.operations && w'.operations[w'.staged[k].0].target == w'.staged[k].1
      {
        assert w.staged[k].0 in w.operations;
      }
    } else {
      assert w'.staged == w.staged + [(e.operation, e.ssid)] && e.operation !in w.operations;
      forall k | 0 <= k < |w.staged|
        ensures w'.staged[k] == w.staged[k] && w.staged[k].0 in w.operations && w.staged[k].0 != e.operation
      {
      }
    }
  }

  lemma StepKeeps(w: World, e: Event)
    requires Inv(w)
    ensures Inv(Next(w, e)) && Bound(w, Next(w, e))
  {
    StepBinds(w, e);
    StepConfirms(w, e);
    StepStages(w, e);
  }

  lemma {:induction false} RunKeeps(w: World, run: seq<Event>)
    requires Inv(w)
    ensures Inv(After(w, run)) && Bound(w, After(w, run))
    decreases |run|
  {
    if run != [] {
      StepKeeps(w, run[0]);
      RunKeeps(Next(w, run[0]), run[1..]);
    }
  }

  /** In every run, however requests interleave: the adapter is asked to stage an
      operation at most once, for the SSID the operation is bound to; and an operation
      is recorded as succeeded only if the adapter confirmed it. */
  lemma StagedOnceAndConfirmed(run: seq<Event>)
    ensures
      var w := After(START, run);
      && (forall j, k :: 0 <= j < k < |w.staged| ==> w.staged[j].0 != w.staged[k].0)
      && (forall k :: 0 <= k < |w.staged| ==>
            w.staged[k].0 in w.operations && w.operations[w.staged[k].0].target == w.staged[k].1)
      && (forall id :: id in w.operations && w.operations[id].state == Succeeded ==> id in w.confirmed)
  {
    RunKeeps(START, run);
  }

  lemma OperationKeepsItsNetwork(first: seq<Event>, rest: seq<Event>)
    ensures Bound(After(START, first), After(After(START, first), rest))
  {
    RunKeeps(START, first);
    RunKeeps(After(START, first), rest);
  }

  /** Every request that waits for the adapter is about an operation there is. */
  ghost predicate WaitingOk(w: World) {
    forall h :: h in w.waiting ==> h.operation in w.operations
  }

  lemma StepWaits(w: World, e: Event)
    requires WaitingOk(w)
    ensures WaitingOk(Next(w, e))
  {
    var w' := Next(w, e);
    forall h | h in w'.waiting ensures h.operation in w'.operations {
      if h in w.waiting {
        StepBindsOne(w, e, h.operation);
      } else {
        NewlyWaiting(w, e, h);
      }
    }
  }

  lemma NewlyWaiting(w: World, e: Event, h: Handler)
    requires h in Next(w, e).waiting && h !in w.waiting
    ensures h.operation in Next(w, e).operations
  {
  }

  lemma {:induction false} RunWaits(w: World, run: seq<Event>)
    requires WaitingOk(w)
    ensures WaitingOk(After(w, run))
    decreases |run|
  {
    if run != [] {
      StepWaits(w, run[0]);
      RunWaits(Next(w, run[0]), run[1..]);
    }
  }

  /** In every run, a staging failure the adapter reports leaves the operation failed and
      the network out of `Staging`, whatever happened to either meanwhile. */
  lemma StagingFailureIsNotLeftStaging(run: seq<Event>, id: string, previous: NetworkState)
    requires Configuring(id, previous) in After(START, run).waiting
    ensures
      var w := Next(After(START, run), Staged(id, previous, false));
      && id in w.operations && w.operations[id].state == Failed
      && w.network == (if previous == Connected then Connected else Degraded)
  {
    RunWaits(START, run);
    assert Configuring(id, previous).operation in After(START, run).operations;
  }

  // ----- what each step may record -----

  /** The adapter's answer to a request that waits for it, about an operation there is. */
  predicate Awaited(w: World, h: Handler) {
    h in w.waiting && h.operation in w.operations
  }

  predicate Creates(w: World, id: string) {
    id !in w.operations && !SomeActive(w.operations)
  }

  /** Why the network may come to be recorded in a state it was not in. */
  predicate EntersNetwork(w: World, e: Event, network: NetworkState) {
    match network
    case Staging =>
      || (e.Configure? && Creates(w, e.operation))
      || (e.Staged? && e.ok && Awaited(w, Configuring(e.operation, e.previous)))
      || Reports(w, e, Staging)
    case Connected =>
      || (e.ConfirmAnswered? && e.ok && Awaited(w, Confirming(e.operation)))
      || (e.Staged? && !e.ok && e.previous == Connected && Awaited(w, Configuring(e.operation, Connected)))
      || Reports(w, e, Connected)
    case Degraded =>
      || (e.Restart? && SomeActive(w.operations))
      || (e.Staged? && !e.ok && e.previous != Connected && Awaited(w, Configuring(e.operation, e.previous)))
      || Reports(w, e, Degraded)
    case RollingBack =>
      || (e.Rollback? && e.operation in w.operations && w.operations[e.operation].state != Failed)
      || Reports(w, e, RollingBack)
    case Unconfigured => Reports(w, e, Unconfigured)
  }

  /** An observation of the network carried by the event itself. */
  predicate Reports(w: World, e: Event, network: NetworkState) {
    || (e.RollbackAnswered? && Awaited(w, Undoing(e.operation)) && e.answer == Some(network))
    || (e.ResetAuthority? && e.network == network)
    || (e.Reconcile? && e.network == network && network != Staging && network != RollingBack)
  }

  lemma UpdateNetwork(w: World, id: string, state: OperationState, network: NetworkState)
    ensures Update(w, id, state, network).network == if id in w.operations then network else w.network
  {
  }

  lemma NetworkAfterStaged(w: World, op: string, previous: NetworkState, ok: bool)
    ensures Next(w, Staged(op, previous, ok)).network ==
              if !Awaited(w, Configuring(op, previous)) then w.network
              else if ok then Staging
              else if previous == Connected then Connected else Degraded
  {
    var w1 := w.(waiting := w.waiting - multiset{Configuring(op, previous)});
    UpdateNetwork(w1, op, WaitingConfirmation, Staging);
    UpdateNetwork(w1, op, Failed, Fallback(previous));
  }

  lemma NetworkAfterConfirm(w: World, op: string, ok: bool)
    ensures Next(w, ConfirmAnswered(op, ok)).network ==
              if ok && Awaited(w, Confirming(op)) then Connected else w.network
  {
    var w1 := w.(waiting := w.waiting - multiset{Confirming(op)}, confirmed := w.confirmed + {op});
    UpdateNetwork(w1, op, Succeeded, Connected);
  }

  lemma NetworkAfterUndo(w: World, op: string, answer: Option<NetworkState>)
    ensures Next(w, RollbackAnswered(op, answer)).network ==
              if answer.Some? && Awaited(w, Undoing(op)) then answer.value else w.network
  {
    if answer.Some? {
      UpdateNetwork(w.(waiting := w.waiting - multiset{Undoing(op)}), op, Failed, answer.value);
    }
  }

  lemma StagedEnters(w: World, e: Event, network: NetworkState)
    requires w.network != network && e.Staged?
    ensures Next(w, e).network == network <==> EntersNetwork(w, e, network)
  {
    NetworkAfterStaged(w, e.operation, e.previous, e.ok);
  }

  lemma ConfirmEnters(w: World, e: Event, network: NetworkState)
    requires w.network != network && (e.Confirm? || e.ConfirmAnswered?)
    ensures Next(w, e).network == network <==> EntersNetwork(w, e, network)
  {
    if e.ConfirmAnswered? { NetworkAfterConfirm(w, e.operation, e.ok); }
  }

  lemma UndoEnters(w: World, e: Event, network: NetworkState)
    requires w.network != network && (e.Rollback? || e.RollbackAnswered?)
    ensures Next(w, e).network == network <==> EntersNetwork(w, e, network)
  {
    if e.RollbackAnswered? {
      NetworkAfterUndo(w, e.operation, e.answer);
    } else {
      UpdateNetwork(w.(waiting := w.waiting + multiset{Undoing(e.operation)}), e.operation, Compensating, RollingBack);
    }
  }

  lemma OtherEnters(w: World, e: Event, network: NetworkState)
    requires w.network != network
    requires e.Configure? || e.ResetAuthority? || e.Restart? || e.Reconcile? || e.DieAfterCreate?
    ensures Next(w, e).network == network <==> EntersNetwork(w, e, network)
  {
  }

  /** A network state is newly recorded exactly for one of those reasons. */
  lemma NetworkEntersExactly(w: World, e: Event, network: NetworkState)
    requires w.network != network
    ensures Next(w, e).network == network <==> EntersNetwork(w, e, network)
  {
    match e
    case Staged(_, _, _) => StagedEnters(w, e, network);
    case Confirm(_) => ConfirmEnters(w, e, network);
    case ConfirmAnswered(_, _) => ConfirmEnters(w, e, network);
    case Rollback(_) => UndoEnters(w, e, network);
    case RollbackAnswered(_, _) => UndoEnters(w, e, network);
    case _ => OtherEnters(w, e, network);
  }

  /** Why an operation may come to be in a state it was not in. */
  predicate EntersState(w: World, e: Event, id: string, state: OperationState) {
    match state
    case Pending => e.DieAfterCreate? && e.operation == id && Creates(w, id)
    case Running => e.Configure? && e.operation == id && Creates(w, id)
    case WaitingConfirmation => e.Staged? && e.operation == id && e.ok && Awaited(w, Configuring(id, e.previous))
    case Succeeded => e.ConfirmAnswered? && e.operation == id && e.ok && Awaited(w, Confirming(id))
    case Compensating => e.Rollback? && e.operation == id && id in w.operations && w.operations[id].state != Failed
    case Failed =>
      || (e.Staged? && e.operation == id && !e.ok && Awaited(w, Configuring(id, e.previous)))
      || (e.RollbackAnswered? && e.operation == id && e.answer.Some? && Awaited(w, Undoing(id)))
      || ((e.ResetAuthority? || e.Restart?) && id in w.operations && Active(w.operations[id].state))
  }

  /** What an update of one operation leaves of another, and of itself. */
  lemma UpdateStates(w: World, op: string, state: OperationState, network: NetworkState, id: string)
    ensures
      var w' := Update(w, op, state, network);
      && (id in w'.operations <==> id in w.operations)
      && (id in w.operations ==>
            w'.operations[id].state == if id == op then state else w.operations[id].state)
  {
  }

  lemma StateAfterStaged(w: World, op: string, previous: NetworkState, ok: bool, id: string)
    ensures
      var w' := Next(w, Staged(op, previous, ok));
      && (id in w'.operations <==> id in w.operations)
      && (id in w.operations ==>
            w'.operations[id].state ==
              if id != op || !Awaited(w, Configuring(op, previous)) then w.operations[id].state
              else if ok then WaitingConfirmation else Failed)
  {
    var w1 := w.(waiting := w.waiting - multiset{Configuring(op, previous)});
    UpdateStates(w1, op, WaitingConfirmation, Staging, id);
    UpdateStates(w1, op, Failed, Fallback(previous), id);
  }

  lemma StateAfterConfirm(w: World, op: string, ok: bool, id: string)
    ensures
      var w' := Next(w, ConfirmAnswered(op, ok));
      && (id in w'.operations <==> id in w.operations)
      && (id in w.operations ==>
            w'.operations[id].state ==
              if id == op && ok && Awaited(w, Confirming(op)) then Succeeded else w.operations[id].state)
  {
    var w1 := w.(waiting := w.waiting - multiset{Confirming(op)}, confirmed := w.confirmed + {op});
    UpdateStates(w1, op, Succeeded, Connected, id);
  }

  lemma StateAfterUndo(w: World, op: string, answer: Option<NetworkState>, id: string)
    ensures
      var w' := Next(w, RollbackAnswered(op, answer));
      && (id in w'.operations <==> id in w.operations)
      && (id in w.operations ==>
            w'.operations[id].state ==
              if id == op && answer.Some? && Awaited(w, Undoing(op)) then Failed else w.operations[id].state)
  {
    if answer.Some? {
      UpdateStates(w.(waiting := w.waiting - multiset{Undoing(op)}), op, Failed, answer.value, id);
    }
  }

  lemma StopMovesExactly(w: World, e: Event, id: string, state: OperationState)
    requires e.ResetAuthority? || e.Restart?
    requires id in w.operations ==> w.operations[id].state != state
    ensures id in Next(w, e).operations && Next(w, e).operations[id].state == state <==> EntersState(w, e, id, state)
  {
    assert Next(w, e).operations == FailActive(w.operations);
  }

  lemma AnswerMoves(w: World, e: Event, id: string, state: OperationState)
    requires id in w.operations ==> w.operations[id].state != state
    requires e.Staged? || e.ConfirmAnswered? || e.RollbackAnswered?
    ensures id in Next(w, e).operations && Next(w, e).operations[id].state == state <==> EntersState(w, e, id, state)
  {
    match e
    case Staged(op, previous, ok) => StateAfterStaged(w, op, previous, ok, id);
    case ConfirmAnswered(op, ok) => StateAfterConfirm(w, op, ok, id);
    case RollbackAnswered(op, answer) => StateAfterUndo(w, op, answer, id);
  }

  lemma CreationMoves(w: World, e: Event, id: string, state: OperationState)
    requires id in w.operations ==> w.operations[id].state != state
    requires e.Configure? || e.DieAfterCreate?
    ensures id in Next(w, e).operations && Next(w, e).operations[id].state == state <==> EntersState(w, e, id, state)
  {
    var created := Operation(if e.Configure? then Running else Pending, e.ssid, w.epoch);
    assert Next(w, e).operations ==
      if Creates(w, e.operation) then w.operations[e.operation := created] else w.operations;
  }

  lemma RequestMoves(w: World, e: Event, id: string, state: OperationState)
    requires id in w.operations ==> w.operations[id].state != state
    requires e.Confirm? || e.Rollback? || e.Reconcile?
    ensures id in Next(w, e).operations && Next(w, e).operations[id].state == state <==> EntersState(w, e, id, state)
  {
    if e.Rollback? {
      var w1 := w.(waiting := w.waiting + multiset{Undoing(e.operation)});
      UpdateStates(w1, e.operation, Compensating, RollingBack, id);
    } else {
      assert Next(w, e).operations == w.operations;
    }
  }

  /** An operation newly comes to a state exactly for one of those reasons. */
  lemma StateEntersExactly(w: World, e: Event, id: string, state: OperationState)
    requires id in w.operations ==> w.operations[id].state != state
    ensures id in Next(w, e).operations && Next(w, e).operations[id].state == state <==> EntersState(w, e, id, state)
  {
    match e
    case Staged(_, _, _) => AnswerMoves(w, e, id, state);
    case ConfirmAnswered(_, _) => AnswerMoves(w, e, id, state);
    case RollbackAnswered(_, _) => AnswerMoves(w, e, id, state);
    case ResetAuthority(_) => StopMovesExactly(w, e, id, state);
    case Restart => StopMovesExactly(w, e, id, state);
    case Configure(_, _) => CreationMoves(w, e, id, state);
    case DieAfterCreate(_, _) => CreationMoves(w, e, id, state);
    case _ => RequestMoves(w, e, id, state);
  }

  /** The adapter is asked to stage exactly by a configure that creates its operation, for
      its own SSID. */
  lemma StagedExactly(w: World, e: Event)
    ensures Next(w, e).staged ==
              if e.Configure? && Creates(w, e.operation) then w.staged + [(e.operation, e.ssid)] else w.staged
  {
  }

  /** An operation counts as confirmed exactly by the adapter's answer. */
  lemma ConfirmedExactly(w: World, e: Event)
    ensures Next(w, e).confirmed ==
              if e.ConfirmAnswered? && e.ok && Confirming(e.operation) in w.waiting
              then w.confirmed + {e.operation} else w.confirmed
  {
  }

  /** A request waits for the adapter exactly from its call to its answer, which is heard
      once; a restart, or a death in mid-request, leaves nobody waiting. */
  lemma WaitsExactly(w: World, e: Event)
    ensures Next(w, e).waiting ==
              match e
              case Configure(id, _) =>
                if Creates(w, id) then w.waiting + multiset{Configuring(id, w.network)} else w.waiting
              case Confirm(id) =>
                if id in w.operations && w.operations[id].state == WaitingConfirmation
                then w.waiting + multiset{Confirming(id)} else w.waiting
              case Rollback(id) =>
                if id in w.operations && w.operations[id].state != Failed
                then w.waiting + multiset{Undoing(id)} else w.waiting
              case Staged(id, previous, _) => w.waiting - multiset{Configuring(id, previous)}
              case ConfirmAnswered(id, _) => w.waiting - multiset{Confirming(id)}
              case RollbackAnswered(id, _) => w.waiting - multiset{Undoing(id)}
              case Restart => multiset{}
              case DieAfterCreate(id, _) => if Creates(w, id) then multiset{} else w.waiting
              case _ => w.waiting
  {
  }

  /** So an answer that comes after a restart changes nothing. */
  lemma LateAnswersAreLost(w: World, e: Event)
    requires e.Staged? || e.ConfirmAnswered? || e.RollbackAnswered?
    ensures Next(Next(w, Restart), e) == Next(w, Restart)
  {
  }

  /** Only a reset begins an epoch. */
  lemma EpochExactly(w: World, e: Event)
    ensures Next(w, e).epoch == w.epoch + if e.ResetAuthority? then 1 else 0
  {
  }

  /** A new operation takes the SSID it was asked for and the current epoch. */
  lemma CreatedAsAsked(w: World, id: string, ssid: string)
    requires Creates(w, id)
    ensures Next(w, Configure(id, ssid)).operations == w.operations[id := Operation(Running, ssid, w.epoch)]
    ensures Configuring(id, w.network) in Next(w, Configure(id, ssid)).waiting
  {
  }

  // ----- a connected network was observed -----

  /** A step that observes the network connected: a confirmation by the adapter, or a report. */
  predicate Observes(w: World, e: Event) {
    || (e.ConfirmAnswered? && e.ok && Awaited(w, Confirming(e.operation)))
    || Reports(w, e, Connected)
  }

  /** The record says connected, or a request waiting for its staging would restore that. */
  ghost predicate ClaimsConnected(w: World) {
    w.network == Connected || exists id :: Configuring(id, Connected) in w.waiting
  }

  lemma StepObserves(w: World, e: Event)
    requires !ClaimsConnected(w) && ClaimsConnected(Next(w, e))
    ensures Observes(w, e)
  {
    NetworkEntersExactly(w, e, Connected);
    if Next(w, e).network != Connected {
      forall id ensures Configuring(id, Connected) !in Next(w, e).waiting {
        NoneWaitsAnew(w, e, id);
      }
    }
  }

  lemma NoneWaitsAnew(w: World, e: Event, id: string)
    requires w.network != Connected && Configuring(id, Connected) !in w.waiting
    ensures Configuring(id, Connected) !in Next(w, e).waiting
  {
  }

  lemma {:induction false} ObservedBy(run: seq<Event>, k: nat)
    requires k <= |run| && ClaimsConnected(After(START, run[..k]))
    ensures exists j :: 0 <= j < k && Observes(After(START, run[..j]), run[j])
  {
    if k > 0 {
      AfterLast(START, run, k - 1);
      if ClaimsConnected(After(START, run[..k - 1])) {
        ObservedBy(run, k - 1);
        var j :| 0 <= j < k - 1 && Observes(After(START, run[..j]), run[j]);
      } else {
        StepObserves(After(START, run[..k - 1]), run[k - 1]);
      }
    }
  }

  /** In every run, the Host records its network connected only if at some step the adapter
      confirmed an operation, or the network was reported connected: staging a change,
      however often and in whatever order, never does. */
  lemma ConnectedWasObserved(run: seq<Event>)
    requires After(START, run).network == Connected
    ensures exists j :: 0 <= j < |run| && Observes(After(START, run[..j]), run[j])
  {
    assert run[..|run|] == run;
    ObservedBy(run, |run|);
  }

  // ----- when the network is left staging -----

  /** The network says `Staging` and no operation is under way. */
  predicate Stranded(w: World) {
    w.network == Staging && !SomeActive(w.operations)
  }

  /** The steps that strand it: a reset that passes `Staging` through, or the undo of the
      last active operation, if the adapter then still reports `Staging`. */
  predicate Strands(w: World, e: Event) {
    match e
    case ResetAuthority(network) => network == Staging
    case RollbackAnswered(id, answer) =>
      && Undoing(id) in w.waiting && id in w.operations && answer == Some(Staging)
      && forall other :: other in w.operations && other != id ==> !Active(w.operations[other].state)
    case _ => false
  }

  lemma UpdateActive(w: World, id: string, state: OperationState, network: NetworkState)
    requires id in w.operations
    ensures
      var w' := Update(w, id, state, network);
      && w'.network == network
      && (SomeActive(w'.operations) <==>
            Active(state) || exists other :: other in w.operations && other != id && Active(w.operations[other].state))
  {
    var w' := Update(w, id, state, network);
    assert w'.operations[id].state == state;
    forall other | other in w.operations && other != id ensures w'.operations[other] == w.operations[other] {}
    if SomeActive(w'.operations) {
      var x :| x in w'.operations && Active(w'.operations[x].state);
      assert x != id ==> x in w.operations && Active(w.operations[x].state);
    }
  }

  lemma UndoStrandsExactly(w: World, e: Event)
    requires e.RollbackAnswered? && !Stranded(w)
    ensures Stranded(Next(w, e)) <==> Strands(w, e)
  {
    if Undoing(e.operation) in w.waiting && e.answer.Some? && e.operation in w.operations {
      UpdateActive(w.(waiting := w.waiting - multiset{Undoing(e.operation)}), e.operation, Failed, e.answer.value);
    }
  }

  lemma CreationIsActive(w: World, id: string, operation: Operation)
    requires Active(operation.state)
    ensures SomeActive(w.operations[id := operation])
  {
    assert w.operations[id := operation][id] == operation;
  }

  lemma StagedStrandsNothing(w: World, e: Event)
    requires e.Staged? && !Stranded(w)
    ensures !Stranded(Next(w, e))
  {
    if Configuring(e.operation, e.previous) in w.waiting && e.operation in w.operations {
      var w1 := w.(waiting := w.waiting - multiset{Configuring(e.operation, e.previous)});
      if e.ok {
        UpdateActive(w1, e.operation, WaitingConfirmation, Staging);
      } else {
        UpdateActive(w1, e.operation, Failed, Fallback(e.previous));
      }
    }
  }

  lemma FailActiveLeavesNone(operations: map<string, Operation>)
    ensures !SomeActive(FailActive(operations))
  {
  }

  lemma StepStrandsExactly(w: World, e: Event)
    requires !Stranded(w)
    ensures Stranded(Next(w, e)) <==> Strands(w, e)
  {
    match e
    case Configure(id, ssid) => CreationIsActive(w, id, Operation(Running, ssid, w.epoch));
    case Staged(_, _, _) => StagedStrandsNothing(w, e);
    case RollbackAnswered(_, _) => UndoStrandsExactly(w, e);
    case ResetAuthority(_) => FailActiveLeavesNone(w.operations);
    case DieAfterCreate(id, ssid) => CreationIsActive(w, id, Operation(Pending, ssid, w.epoch));
    case _ =>
  }

  lemma {:induction false} AfterLast(w: World, run: seq<Event>, k: nat)
    requires k < |run|
    ensures After(w, run[..k + 1]) == Next(After(w, run[..k]), run[k])
    decreases k
  {
    if k == 0 {
      assert run[..1][1..] == [];
    } else {
      assert run[..k + 1][1..] == run[1..][..k] && run[..k][1..] == run[1..][..k - 1];
      AfterLast(Next(w, run[0]), run[1..], k - 1);
    }
  }

  lemma {:induction false} NotStrandedAt(run: seq<Event>, k: nat)
    requires k <= |run| && forall j :: 0 <= j < |run| ==> !Strands(After(START, run[..j]), run[j])
    ensures !Stranded(After(START, run[..k]))
  {
    if k > 0 {
      NotStrandedAt(run, k - 1);
      AfterLast(START, run, k - 1);
      StepStrandsExactly(After(START, run[..k - 1]), run[k - 1]);
    }
  }

  /** Whole runs: the network is never left `Staging` with nothing under way, at any point
      of a run, exactly when none of its steps strands it.  Requests alone, failed
      stagings, confirmations and restarts never do. */
  lemma NeverStrandedExactly(run: seq<Event>)
    ensures (forall k :: 0 <= k <= |run| ==> !Stranded(After(START, run[..k]))) <==>
            (forall k :: 0 <= k < |run| ==> !Strands(After(START, run[..k]), run[k]))
  {
    if forall k :: 0 <= k < |run| ==> !Strands(After(START, run[..k]), run[k]) {
      forall k | 0 <= k <= |run| ensures !Stranded(After(START, run[..k])) {
        NotStrandedAt(run, k);
      }
    }
    if k :| 0 <= k < |run| && Strands(After(START, run[..k]), run[k]) {
      AfterLast(START, run, k);
      if !Stranded(After(START, run[..k])) {
        StepStrandsExactly(After(START, run[..k]), run[k]);
      }
    }
  }

  /** A recovery window opened while a change is staged keeps the network state it found:
      the network stays `Staging` with nothing under way even across a restart, until
      the adapter's own state is reconciled. */
  lemma RecoveryStrandsTheNetwork()
    ensures
      var w := After(START, [Configure("a", "net"), ResetAuthority(Staging), Restart]);
      Stranded(w) && !Stranded(Next(w, Reconcile(Unconfigured)))
  {
    var w1 := Next(START, Configure("a", "net"));
    var w2 := Next(w1, ResetAuthority(Staging));
    var w3 := Next(w2, Restart);
    AfterThree(START, Configure("a", "net"), ResetAuthority(Staging), Restart);
    assert w1.network == Staging;
    FailActiveLeavesNone(w1.operations);
    FailActiveLeavesNone(w2.operations);
    assert w3.network == Staging;
  }

  lemma AfterThree(w: World, a: Event, b: Event, c: Event)
    ensures After(w, [a, b, c]) == Next(Next(Next(w, a), b), c)
  {
    var run := [a, b, c];
    assert run[1..] == [b, c] && [b, c][1..] == [c] && [c][1..] == [];
    assert After(Next(Next(w, a), b), [c]) == Next(Next(Next(w, a), b), c);
    assert After(Next(w, a), [b, c]) == After(Next(Next(w, a), b), [c]);
  }

  // ----- when a failed operation stays failed -----

  /** Some request on this operation is waiting for an adapter answer that could still revive it. */
  ghost predicate CanRevive(w: World, id: string) {
    Confirming(id) in w.waiting || exists previous :: Configuring(id, previous) in w.waiting
  }

  lemma QuietWaiting(w: World, e: Event, id: string, h: Handler)
    requires id in w.operations && w.operations[id].state == Failed
    requires h == Confirming(id) || (h.Configuring? && h.operation == id)
    requires h !in w.waiting
    ensures h !in Next(w, e).waiting
  {
    match e
    case Configure(op, _) =>
      if op != id { assert h != Configuring(op, w.network); }
    case Confirm(op) =>
      if op != id { assert h != Confirming(op); }
    case _ =>
  }

  lemma QuietState(w: World, e: Event, id: string)
    requires id in w.operations && w.operations[id].state == Failed && !CanRevive(w, id)
    ensures id in Next(w, e).operations && Next(w, e).operations[id].state == Failed
  {
    StepBindsOne(w, e, id);
    match e
    case Staged(op, previous, ok) =>
      if op == id {
        assert Configuring(id, previous) !in w.waiting;
      } else if Configuring(op, previous) in w.waiting {
        OtherKeepsState(w.(waiting := w.waiting - multiset{Configuring(op, previous)}), op, id);
      }
    case ConfirmAnswered(op, ok) =>
      if op != id && Confirming(op) in w.waiting {
        OtherKeepsState(w.(waiting := w.waiting - multiset{Confirming(op)}, confirmed := w.confirmed + {op}), op, id);
      }
    case Rollback(op) =>
      if op != id { OtherKeepsState(w.(waiting := w.waiting + multiset{Undoing(op)}), op, id); }
    case RollbackAnswered(op, answer) =>
      if op != id { OtherKeepsState(w.(waiting := w.waiting - multiset{Undoing(op)}), op, id); }
    case _ =>
  }

  lemma OtherKeepsState(w: World, op: string, id: string)
    requires op != id && id in w.operations
    ensures forall state, network ::
              id in Update(w, op, state, network).operations &&
              Update(w, op, state, network).operations[id] == w.operations[id]
  {
  }

  lemma QuietStep(w: World, e: Event, id: string)
    requires id in w.operations && w.operations[id].state == Failed && !CanRevive(w, id)
    ensures id in Next(w, e).operations && Next(w, e).operations[id].state == Failed && !CanRevive(Next(w, e), id)
  {
    QuietState(w, e, id);
    QuietWaiting(w, e, id, Confirming(id));
    forall previous ensures Configuring(id, previous) !in Next(w, e).waiting {
      QuietWaiting(w, e, id, Configuring(id, previous));
    }
  }

  lemma {:induction false} QuietRun(w: World, run: seq<Event>, id: string)
    requires id in w.operations && w.operations[id].state == Failed && !CanRevive(w, id)
    ensures id in After(w, run).operations && After(w, run).operations[id].state == Failed
    decreases |run|
  {
    if run != [] {
      QuietStep(w, run[0], id);
      QuietRun(Next(w, run[0]), run[1..], id);
    }
  }

  lemma OneStep(w: World, e: Event)
    ensures After(w, [e]) == Next(w, e)
  {
  }

  /** A failed operation stays failed in every continuation exactly when no configure
      or confirm of it is still waiting for the adapter.  In particular requests served
      one at a time never confirm a failed operation. */
  lemma FailedIsFinalExactly(w: World, id: string)
    requires id in w.operations && w.operations[id].state == Failed
    ensures (forall run :: id in After(w, run).operations && After(w, run).operations[id].state == Failed)
              <==> !CanRevive(w, id)
  {
    if CanRevive(w, id) {
      if Confirming(id) in w.waiting {
        var run := [ConfirmAnswered(id, true)];
        OneStep(w, run[0]);
        assert After(w, run).operations[id].state == Succeeded;
      } else {
        var previous :| Configuring(id, previous) in w.waiting;
        var run := [Staged(id, previous, true)];
        OneStep(w, run[0]);
        assert After(w, run).operations[id].state == WaitingConfirmation;
      }
    } else {
      forall run ensures id in After(w, run).operations && After(w, run).operations[id].state == Failed {
        QuietRun(w, run, id);
      }
    }
  }

  /** Such a state is reachable: an authority reset fails an operation whose staging is in
      flight, and the adapter's late answer revives it. */
  lemma FailedOperationRevived()
    ensures
      var w := After(START, [Configure("a", "net"), ResetAuthority(Connected)]);
      && "a" in w.operations && w.operations["a"].state == Failed && CanRevive(w, "a")
      && Next(w, Staged("a", Unconfigured, true)).operations["a"].state == WaitingConfirmation
  {
    var first, second := Configure("a", "net"), ResetAuthority(Connected);
    assert [first, second][1..] == [second] && [second][1..] == [];
    var w1 := Next(START, first);
    assert After(w1, [second]) == Next(w1, second);
    assert w1.operations["a"].state == Running;
    assert Configuring("a", Unconfigured) in w1.waiting;
  }

  // ----- undoing what already succeeded -----

  /** What takes an operation out of `Compensating`: a restart, a reset, or an adapter
      answer that some request on it is still waiting for. */
  predicate Releases(w: World, e: Event, id: string) {
    match e
    case Restart => true
    case ResetAuthority(_) => true
    case RollbackAnswered(op, answer) => op == id && answer.Some? && Undoing(id) in w.waiting
    case ConfirmAnswered(op, ok) => op == id && ok && Confirming(id) in w.waiting
    case Staged(op, previous, _) => op == id && Configuring(id, previous) in w.waiting
    case _ => false
  }

  lemma LeavesCompensatingExactly(w: World, e: Event, id: string)
    requires id in w.operations && w.operations[id].state == Compensating
    ensures id in Next(w, e).operations
    ensures Next(w, e).operations[id].state != Compensating <==> Releases(w, e, id)
  {
    StepBindsOne(w, e, id);
    match e
    case Staged(op, previous, ok) =>
      if Configuring(op, previous) in w.waiting {
        var w1 := w.(waiting := w.waiting - multiset{Configuring(op, previous)});
        if ok {
          UpdateState(w1, op, WaitingConfirmation, Staging, id);
        } else {
          UpdateState(w1, op, Failed, Fallback(previous), id);
        }
      }
    case ConfirmAnswered(op, ok) =>
      if Confirming(op) in w.waiting && ok {
        var w1 := w.(waiting := w.waiting - multiset{Confirming(op)}, confirmed := w.confirmed + {op});
        UpdateState(w1, op, Succeeded, Connected, id);
      }
    case Rollback(op) =>
      if op in w.operations && w.operations[op].state != Failed {
        UpdateState(w.(waiting := w.waiting + multiset{Undoing(op)}), op, Compensating, RollingBack, id);
      }
    case RollbackAnswered(op, answer) =>
      if Undoing(op) in w.waiting && answer.Some? {
        UpdateState(w.(waiting := w.waiting - multiset{Undoing(op)}), op, Failed, answer.value, id);
      }
    case _ =>
  }

  ghost predicate CompensatingAt(w: World, run: seq<Event>, id: string, k: nat)
    requires k <= |run|
  {
    id in After(w, run[..k]).operations && After(w, run[..k]).operations[id].state == Compensating
  }

  lemma StepKeepsTheBlock(w: World, e: Event, id: string)
    requires id in w.operations && w.operations[id].state == Compensating && !Releases(w, e, id)
    ensures id in Next(w, e).operations && Next(w, e).operations[id].state == Compensating
    ensures Next(w, e).staged == w.staged
  {
    LeavesCompensatingExactly(w, e, id);
  }

  lemma {:induction false} StillCompensating(w: World, run: seq<Event>, id: string, k: nat)
    requires id in w.operations && w.operations[id].state == Compensating && k <= |run|
    requires forall j :: 0 <= j < k ==> !Releases(After(w, run[..j]), run[j], id)
    ensures CompensatingAt(w, run, id, k) && After(w, run[..k]).staged == w.staged
  {
    if k > 0 {
      StillCompensating(w, run, id, k - 1);
      assert CompensatingAt(w, run, id, k - 1);
      AfterLast(w, run, k - 1);
      StepKeepsTheBlock(After(w, run[..k - 1]), run[k - 1], id);
    }
  }

  /** Whole runs: a compensating operation stays so throughout a run exactly when no step
      of the run releases it, and as long as it does no change is staged. */
  lemma BlockLastsExactly(w: World, run: seq<Event>, id: string)
    requires id in w.operations && w.operations[id].state == Compensating
    ensures (forall k :: 0 <= k <= |run| ==> CompensatingAt(w, run, id, k)) <==>
            (forall k :: 0 <= k < |run| ==> !Releases(After(w, run[..k]), run[k], id))
    ensures (forall k :: 0 <= k < |run| ==> !Releases(After(w, run[..k]), run[k], id)) ==>
              After(w, run).staged == w.staged
  {
    assert run[..|run|] == run;
    if forall k :: 0 <= k < |run| ==> !Releases(After(w, run[..k]), run[k], id) {
      forall k | 0 <= k <= |run| ensures CompensatingAt(w, run, id, k) && After(w, run[..k]).staged == w.staged {
        StillCompensating(w, run, id, k);
      }
    }
    if k :| 0 <= k < |run| && Releases(After(w, run[..k]), run[k], id) {
      AfterLast(w, run, k);
      if CompensatingAt(w, run, id, k) {
        LeavesCompensatingExactly(After(w, run[..k]), run[k], id);
        assert !CompensatingAt(w, run, id, k + 1);
      }
    }
  }

  /** Rolling back an operation that already succeeded, when the adapter refuses because
      it no longer holds one, leaves the operation compensating, and no change is staged
      in any run until something releases it; a restart, for one, does. */
  lemma LateRollbackBlocksChanges(w: World, id: string, run: seq<Event>)
    requires id in w.operations && w.operations[id].state == Succeeded
    ensures
      var w' := Next(Next(w, Rollback(id)), RollbackAnswered(id, None));
      && id in w'.operations && w'.operations[id].state == Compensating && w'.network == RollingBack
      && ((forall k :: 0 <= k < |run| ==> !Releases(After(w', run[..k]), run[k], id)) ==>
            After(w', run).staged == w.staged)
      && (forall other, ssid :: other !in w.operations ==>
            Next(Next(w', Restart), Configure(other, ssid)).staged == w.staged + [(other, ssid)])
  {
    var w' := Next(Next(w, Rollback(id)), RollbackAnswered(id, None));
    assert w'.operations[id].state == Compensating;
    BlockLastsExactly(w', run, id);
    FailActiveLeavesNone(w'.operations);
  }

  lemma StagedFromStart()
    ensures
      var w := Next(Next(START, Configure("a", "net")), Staged("a", Unconfigured, true));
      "a" in w.operations && w.operations["a"].state == WaitingConfirmation
  {
    assert Configuring("a", Unconfigured) in Next(START, Configure("a", "net")).waiting;
  }

  /** The block can also end with no undo, reset or restart: a rollback overtakes a confirm
      the adapter has already carried out, is refused, and the confirm's answer returns
      the operation to `Succeeded`. */
  lemma PendingConfirmLiftsTheBlock()
    ensures
      var w := Next(Next(START, Configure("a", "net")), Staged("a", Unconfigured, true));
      var w' := After(w, [Confirm("a"), Rollback("a"), RollbackAnswered("a", None)]);
      && "a" in w'.operations && w'.operations["a"].state == Compensating
      && Next(w', ConfirmAnswered("a", true)).operations["a"].state == Succeeded
  {
    var w := Next(Next(START, Configure("a", "net")), Staged("a", Unconfigured, true));
    StagedFromStart();
    AfterThree(w, Confirm("a"), Rollback("a"), RollbackAnswered("a", None));
    OvertakenConfirm(w, "a");
  }

  lemma OvertakenConfirm(w: World, id: string)
    requires id in w.operations && w.operations[id].state == WaitingConfirmation
    ensures
      var w' := Next(Next(Next(w, Confirm(id)), Rollback(id)), RollbackAnswered(id, None));
      && id in w'.operations && w'.operations[id].state == Compensating
      && Next(w', ConfirmAnswered(id, true)).operations[id].state == Succeeded
  {
    var w1 := Next(w, Confirm(id));
    assert Confirming(id) in w1.waiting;
    var w2 := Next(w1, Rollback(id));
    assert Confirming(id) in w2.waiting && w2.operations[id].state == Compensating;
    assert Confirming(id) in Next(w2, RollbackAnswered(id, None)).waiting;
  }

  // ----- the handlers, uninterrupted -----

  datatype Refusal =
    | CommissioningDenied | ControllerDenied
    | OperationConflict | OperationNotFound
    | NetworkStageFailed | NetworkConfirmFailed | NetworkRollbackFailed

  /** Who a link acts as: a Controller whose grant it was authorized with, or a setup code. */
  datatype Access =
    | ControllerAccess(controllerId: string, publicKey: string)
    | SetupAccess(window: nat, secretHash: string)

  /** `_require_authorized`, asked again at every request, and then the Host Admin check. */
  function Denied(store: HostStore.Store, access: Access, now: int): Option<Refusal> {
    match access
    case ControllerAccess(controllerId, publicKey) =>
      var grant := HostStore.ActiveGrant(store, controllerId);
      if grant.None? || grant.value.publicKey != publicKey then Some(ControllerDenied) else None
    case SetupAccess(window, secretHash) =>
      Some(if HostStore.Authorize(store, window, secretHash, now).0 then ControllerDenied else CommissioningDenied)
  }

  /** What the check leaves in the store: a wrong setup code is counted. */
  function Asked(store: HostStore.Store, access: Access, now: int): HostStore.Store {
    match access
    case ControllerAccess(_, _) => store
    case SetupAccess(window, secretHash) => HostStore.Authorize(store, window, secretHash, now).1
  }

  /** A setup code never drives the network, and a reset or a revocation stops a link that
      was authorized before it. */
  lemma OnlyActiveControllersDriveTheNetwork(s: HostStore.Store, access: Access, now: int, resetAt: int)
    requires HostStore.GrantsOk(s) && HostStore.WindowsOk(s)
    ensures Denied(s, access, now).None? <==>
              && access.ControllerAccess?
              && HostStore.ActiveGrant(s, access.controllerId).Some?
              && HostStore.ActiveGrant(s, access.controllerId).value.publicKey == access.publicKey
    ensures Denied(s, access, now) == Some(CommissioningDenied) <==>
              access.SetupAccess? && !HostStore.Authorize(s, access.window, access.secretHash, now).0
    ensures access.ControllerAccess? ==> Asked(s, access, now) == s
    ensures access.SetupAccess? ==>
              forall k :: 0 <= k < |s.sessions| && s.sessions[k].id == access.window &&
                          HostStore.IsOpen(s.sessions[k], now) && s.sessions[k].secretHash != access.secretHash ==>
                |Asked(s, access, now).sessions| == |s.sessions| &&
                Asked(s, access, now).sessions[k].failedAttempts == s.sessions[k].failedAttempts + 1
    ensures Denied(HostStore.ResetAuthority(s, resetAt, None), access, now).Some?
    ensures access.ControllerAccess? && HostStore.SomeOtherActive(s, access.controllerId) ==>
              Denied(HostStore.RevokeController(s, access.controllerId, resetAt), access, now).Some?
  {
    HostStore.ResetKeeps(s, resetAt, None);
    if access.SetupAccess? { HostStore.AuthorizesExactly(s, access.window, access.secretHash, now); }
    if access.ControllerAccess? {
      HostStore.RevokeKeeps(s, access.controllerId, resetAt);
    }
  }

  class CommissioningService {
    var store: HostStore.Store
    var w: World

    ghost predicate Valid()
      reads this
    {
      store.epoch == w.epoch
    }

    constructor (store: HostStore.Store)
      ensures Valid() && this.store == store && w == START.(epoch := store.epoch)
    {
      this.store, w := store, START.(epoch := store.epoch);
    }

    method RequireController(access: Access, now: int) returns (refused: Option<Refusal>)
      requires Valid()
      modifies this`store
      ensures Valid() && refused == Denied(old(store), access, now) && store == Asked(old(store), access, now)
    {
      match access {
        case ControllerAccess(controllerId, publicKey) =>
          var grant := HostStore.ActiveGrant(store, controllerId);
          if grant.None? || grant.value.publicKey != publicKey {
            return Some(ControllerDenied);
          }
          refused := None;
        case SetupAccess(window, secretHash) =>
          var (ok, s) := HostStore.Authorize(store, window, secretHash, now);
          store := s;
          refused := Some(if ok then ControllerDenied else CommissioningDenied);
      }
    }

    /** `stages` is what the adapter answers to the stage request. */
    method ConfigureNetwork(access: Access, now: int, id: string, ssid: string, stages: bool)
      returns (r: Result<Operation, Refusal>)
      requires Valid()
      modifies this
      ensures Valid() && store == Asked(old(store), access, now)
      ensures
        var refused := Denied(old(store), access, now);
        if refused.Some? then w == old(w) && r == Err(refused.value)
        else if id in old(w).operations then
          && w == old(w)
          && r == (if w.operations[id].target == ssid then Ok(w.operations[id]) else Err(OperationConflict))
        else if SomeActive(old(w).operations) then w == old(w) && r == Err(OperationConflict)
        else
          && w == Next(Next(old(w), Configure(id, ssid)), Staged(id, old(w).network, stages))
          && id in w.operations
          && w.staged == old(w).staged + [(id, ssid)]
          && w.operations == old(w).operations[
               id := Operation(if stages then WaitingConfirmation else Failed, ssid, old(w).epoch)]
          && w.network == (if stages then Staging else if old(w).network == Connected then Connected else Degraded)
          && r == (if stages then Ok(w.operations[id]) else Err(NetworkStageFailed))
    {
      var refused := RequireController(access, now);
      if refused.Some? {
        return Err(refused.value);
      }
      if id in w.operations {
        if w.operations[id].target != ssid {
          return Err(OperationConflict);
        }
        return Ok(w.operations[id]);
      }
      var active := SomeActive(w.operations);
      if active {
        return Err(OperationConflict);
      }
      var previous := w.network;
      w := Next(w, Configure(id, ssid));
      assert Configuring(id, previous) in w.waiting;
      w := Next(w, Staged(id, previous, stages));
      if !stages {
        return Err(NetworkStageFailed);
      }
      r := Ok(w.operations[id]);
    }

    method ConfirmNetwork(access: Access, now: int, id: string, confirms: bool) returns (r: Result<Operation, Refusal>)
      requires Valid()
      modifies this
      ensures Valid() && store == Asked(old(store), access, now)
      ensures
        var refused := Denied(old(store), access, now);
        if refused.Some? then w == old(w) && r == Err(refused.value)
        else if id !in old(w).operations then w == old(w) && r == Err(OperationNotFound)
        else if old(w).operations[id].state == Succeeded then w == old(w) && r == Ok(w.operations[id])
        else if old(w).operations[id].state != WaitingConfirmation then w == old(w) && r == Err(OperationConflict)
        else
          && w == Next(Next(old(w), Confirm(id)), ConfirmAnswered(id, confirms))
          && id in w.operations
          && w.operations[id].state == (if confirms then Succeeded else WaitingConfirmation)
          && (!confirms ==> w.network == old(w).network && w.confirmed == old(w).confirmed)
          && (confirms ==> w.network == Connected && id in w.confirmed && r == Ok(w.operations[id]))
          && (!confirms ==> r == Err(NetworkConfirmFailed))
    {
      var refused := RequireController(access, now);
      if refused.Some? {
        return Err(refused.value);
      }
      if id !in w.operations {
        return Err(OperationNotFound);
      }
      if w.operations[id].state == Succeeded {
        return Ok(w.operations[id]);
      }
      if w.operations[id].state != WaitingConfirmation {
        return Err(OperationConflict);
      }
      w := Next(w, Confirm(id));
      assert Confirming(id) in w.waiting;
      w := Next(w, ConfirmAnswered(id, confirms));
      r := if confirms then Ok(w.operations[id]) else Err(NetworkConfirmFailed);
    }

    /** `answer` is the network state the adapter reports after undoing, if it did. */
    method RollbackNetwork(access: Access, now: int, id: string, answer: Option<NetworkState>)
      returns (r: Result<Operation, Refusal>)
      requires Valid()
      modifies this
      ensures Valid() && store == Asked(old(store), access, now)
      ensures
        var refused := Denied(old(store), access, now);
        if refused.Some? then w == old(w) && r == Err(refused.value)
        else if id !in old(w).operations then w == old(w) && r == Err(OperationNotFound)
        else if old(w).operations[id].state == Failed then w == old(w) && r == Ok(w.operations[id])
        else
          && w == Next(Next(old(w), Rollback(id)), RollbackAnswered(id, answer))
          && id in w.operations
          && w.operations[id].state == (if answer.Some? then Failed else Compensating)
          && w.network == (if answer.Some? then answer.value else RollingBack)
          && w.confirmed == old(w).confirmed
          && r == (if answer.Some? then Ok(w.operations[id]) else Err(NetworkRollbackFailed))
    {
      var refused := RequireController(access, now);
      if refused.Some? {
        return Err(refused.value);
      }
      if id !in w.operations {
        return Err(OperationNotFound);
      }
      if w.operations[id].state == Failed {
        return Ok(w.operations[id]);
      }
      w := Next(w, Rollback(id));
      assert Undoing(id) in w.waiting;
      w := Next(w, RollbackAnswered(id, answer));
      r := if answer.Some? then Ok(w.operations[id]) else Err(NetworkRollbackFailed);
    }
  }
}
