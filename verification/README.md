# Verified models of the Eidolon admin server

The Eidolon admin server keeps several small durable machines whose promises span many
calls: ledgers that make a remote effect happen at most once, an audit projection fed by
an at-least-once stream, the authority of a Host over the phones that manage it, staged
Wi-Fi changes, and the codecs and generators around them. This project models those
machines in Dafny and proves what the code and its documentation promise about every run
of them. `dafny verify dfyconfig.toml` checks the whole project.

| module | what it models |
|---|---|
| `AuditIndex`, `AuditPipeline`, `AuditReader` | the audit index table, the stream consumer that feeds it, a reader that resumes from a cursor |
| `IntentLedger`, `ColonNames`, `RemovalIntents`, `AdmissionIntents`, `AdmissionStores` | the durable intent ledgers, their id derivation, and their use against a deduplicating Hub |
| `LedgerMigration` | opening a removal ledger file of any earlier version |
| `HostStore`, `ExpiringTables`, `ControllerSessions`, `ClaimWindows` | grants and reset epochs, setup windows, challenges, Local API sessions, claim-window policy |
| `WifiOperations` | staged Wi-Fi operations with interleaved requests, resets and restarts |
| `Bytes`, `Base64Url`, `NewlineFraming`, `LengthFraming`, `EndpointBudget` | canonical base64url, two message framings, the advertised address list |
| `Json`, `SchemaClosure`, `Schemas`, `TypeScriptTypes`, `DartTypes` | contract schemas, their closure, and the emitted client types |
| `ConfigBackups` | backup rotation around config edits |

State machines are a `World` value, an `Event` for every step that can interleave, and a
total `Next`; a run is any sequence of events, and an event that is not possible where the
machine stands changes nothing. Objects that the program updates in place are classes whose
methods are proved against the functions the lemmas are about.

Hash functions (`uuid5`, SHA-256) are parameters assumed not to collide; signatures are
symbolic values that exist once their key's holder made them; clocks, random draws and
adapter answers are parameters of the call. Timestamps are numbers.

## What the code does differently from what it says or suggests

The model follows the code.

- `audit/index.py:227` says a sequence number is never reused. The column is
  `autoincrement=True` without `sqlite_autoincrement`, so SQLite allocates the largest
  present plus one, and a prune that deletes the newest row frees its number
  (`AuditReader.FreshExactlyWhenTheNewestSurvives`, `AuditReader.ReusedSequenceHidesAnEvent`).
  It hides the next event from a reader exactly when no row numbered at or past that
  reader's cursor, whoever owns it, survives
  (`AuditReader.ShownExactlyWhenTheCursorIsKept`, `AuditReader.AnothersRowMayGo`).
- `prune` with `max_rows` below 1 still keeps one row: SQLite reads the negative OFFSET as zero.
- The two removal stores answer alike except on creating a row with a negative reset epoch,
  which only the table refuses (`RemovalIntents.StepAgrees`); the workflow's own contract
  declares the epoch non-negative (`lifecycle_workflow/protocol.py:55`), so this concerns
  the store interface only. The two admission stores differ only in the error for an
  unknown intent (`AdmissionStores.StepAgrees`). All need Owner Domains
  without a colon: two domains share an id for some request ids exactly when one of them,
  followed by a colon, begins the other (`ColonNames.HeadsCollideExactly`).
- A reset ends every earlier session for good (`ControllerSessions.ResetEndsEverySession`).
  A revocation does not: sessions are revalidated by Controller and epoch, so revoking a
  phone and letting it claim again in the same epoch revives the session it had before
  (`ControllerSessions.RevivalFromStart`). Exactly: an issued token can be accepted again
  if and only if the table still holds its session, of the current epoch and unexpired
  (`ControllerSessions.AcceptableAgainExactly`); one refused request drops it for every
  later one, though not for one that had already found it
  (`ControllerSessions.OutstandingAcceptableExactly`).
- The recovery-window documentation (`bootstrap/service.py:739-742`) says a window dies after five wrong
  codes; the store only counts them (`HostStore.GuessesNeverCloseAWindow`).
- `_active_setup_session` says a window exists if and only if an operator minted one; a
  start-up with a factory code mints one too. The latest window is taken by creation time,
  so a clock stepped back hides an open window, the next opening discards it, and the
  window that opening mints is hidden too: a standing Host then shows none
  (`ClaimWindows.OpeningSupersedesExactly`, `ClaimWindows.StandingWindowIsShownExactly`;
  `ClaimWindows.ClockStepBackSupersedes` and `ClaimWindows.ClockStepBackHidesTheWindow`
  are runs from the box).
- A Wi-Fi operation that failed is revived when a configure or confirm of it is still
  waiting for the adapter, and only then (`WifiOperations.FailedIsFinalExactly`,
  `WifiOperations.FailedOperationRevived`). Rolling back one that succeeded, when the
  adapter refuses, leaves it compensating and blocks every further change until a restart,
  a reset, or an awaited answer releases it: an undo, a late staging answer, or a
  confirmation still in flight (`WifiOperations.BlockLastsExactly`,
  `WifiOperations.PendingConfirmLiftsTheBlock`). A recovery window opened while a change
  is staged leaves the network `staging` with nothing under way, across restarts, until
  the adapter's state is reconciled (`WifiOperations.RecoveryStrandsTheNetwork`).
- The Dart emitter loses a null that only a union nested directly inside a union allows
  (`DartTypes.NullLostExactly`, `DartTypes.NestedUnionDropsNull`). The TypeScript
  and Dart emitters type an object schema that lists properties beside
  `additionalProperties` as a map that a listed property need not fit
  (`TypeScriptTypes.MapSoundExactly`, `DartTypes.MapSoundExactly`, each with a concrete
  schema).
- Removal ledgers at versions 0 and 1 can never be opened: the first migration copies 15
  columns into a table of 14, and the second leaves a column the third expects to be
  missing (`LedgerMigration.DraftNeverMigrates`, `LedgerMigration.LegacyStopsAtTwo`).
- Restoring a config backup outside the newest nine while a live file exists fails: the
  snapshot taken first rotates it away, so the refusal deletes the backup asked for
  (`ConfigBackups.ConfigDirectory.Restore`).

## Model

| member | source | states |
|---|---|---|
| `AuditIndex.IngestExtends` | server/eidolon_admin_server/audit/index.py:178-211 | an ingest keeps every old row in place, adds only ingested events under sequence numbers past the old ones, leaves every ingested event present, and keeps sequences increasing and events distinct |
| `AuditIndex.IngestExactly` | server/eidolon_admin_server/audit/index.py:178-211 | an ingest is the novel events of the batch, in the batch's order, each once, under consecutive numbers after the largest present |
| `AuditIndex.ReplayIsANoOp` | server/eidolon_admin_server/audit/index.py:178-211 | redelivering events that are all present changes nothing |
| `AuditIndex.PruneKeepsTheNewest` | server/eidolon_admin_server/audit/index.py:213-257 | a row survives a prune exactly when it is not older than the bound and fewer than the row bound of such rows were ordered after it |
| `AuditIndex.PruneIsIdempotent` | server/eidolon_admin_server/audit/index.py:213-257 | a second prune with the same bounds removes nothing |
| `AuditIndex.CursorlessReadIsTheEndOfTheScan` | server/eidolon_admin_server/audit/index.py:276-311 | the read without a cursor is the last `limit` rows of the full cursor scan, oldest first |
| `AuditIndex.PageIsBounded` | server/eidolon_admin_server/audit/index.py:276-311 | a page is the start of what is ahead of the cursor, or without one the end of everything, exactly as long as the limit allows |
| `AuditIndex.PagesAreTheScan` | server/eidolon_admin_server/audit/index.py:276-311 | paging with any page size collects exactly the whole scan |
| `AuditIndex.AuditIndexStore.Ingest` | server/eidolon_admin_server/audit/index.py:178-211 | the insertion loop computes `InsertAll`, counts the rows added, and refuses on a read-only client |
| `AuditIndex.AuditIndexStore.Prune` | server/eidolon_admin_server/audit/index.py:213-257 | the two deletions compute `Pruned` and return the number of rows removed |
| `AuditPipeline.EveryRunIsSafe` | server/eidolon_admin_server/audit/jetstream.py:98-131 | in every run with redelivery, crashes and prunes: an acked message is decodable and its event is indexed or was pruned; only undecodable messages are terminated; events are distinct, published, and, counted with multiplicity, the rows ever inserted are the rows present and the rows removed |
| `AuditPipeline.StoppingLosesNothing` | server/eidolon_admin_server/audit/jetstream.py:98-131 | from every reachable state, given that the stream redelivers any published message it is asked for, a decodable one can still be committed and acked after a stop |
| `AuditPipeline.StreamIsWhatWasPublished` | server/eidolon_admin_server/audit/jetstream.py:98-131 | in every run the stream is all that was published, in order |
| `AuditPipeline.RowsChangeOnlyBy` | server/eidolon_admin_server/audit/jetstream.py:127-130 | the index changes only by a commit of a whole decoded batch and by a prune, which deletes no row within both its bounds |
| `AuditPipeline.DecodingIsTheLoop` | server/eidolon_admin_server/audit/jetstream.py:117-126 | the interleavable decode steps, uninterrupted, do what the round's loop does |
| `AuditPipeline.JetStreamAuditIndexer.ConsumeOnce` | server/eidolon_admin_server/audit/jetstream.py:98-131 | a round terminates exactly the undecodable messages, acks exactly the decodable ones and only when committed, and acks nothing when the commit fails |
| `AuditReader.ResumedReaderMissesOnlyPrunedRows` | server/eidolon_admin_server/audit/index.py:276-311 | in every run whose prunes keep the newest row, no number is reused and a resuming reader gets its Owner's rows in strictly increasing order and, up to its cursor, exactly those not pruned before it reached them |
| `AuditReader.FreshExactlyWhenTheNewestSurvives` | server/eidolon_admin_server/audit/index.py:54-60 | the next sequence number after a prune is new if and only if the newest row was not older than the age bound |
| `AuditReader.CursorSurvivesExactlyWhenTheNewestDoes` | server/eidolon_admin_server/audit/index.py:213-232 | the corollary at the newest row: a reader whose cursor is the table's largest number is shown the next event if and only if the prune before it kept the newest row |
| `AuditReader.ShownExactlyWhenTheCursorIsKept` | server/eidolon_admin_server/audit/index.py:213-257 | after any prune, a reader at any cursor is shown the next event if and only if some row numbered at or past the cursor is not older than the age bound |
| `AuditReader.KeptCursorMissesOnlyPrunedRows` | server/eidolon_admin_server/audit/index.py:276-311 | in every run whose prunes each keep a row at or past the reader's cursor, it misses only rows pruned before it reached them |
| `AuditReader.AnothersRowMayGo` | server/eidolon_admin_server/audit/index.py:227-232 | a concrete table whose newest row goes and a reader's cursor is kept all the same |
| `AuditReader.ReusedSequenceHidesAnEvent` | server/eidolon_admin_server/audit/index.py:227-232 | a concrete run in which a number is reused and an event that no prune removed is never shown |
| `AuditReader.ReadDelivers` | server/eidolon_admin_server/audit/index.py:276-311 | a read delivers the Owner's rows ahead of the cursor, oldest first up to the limit, and moves the cursor to the last |
| `AuditReader.EveryMissIsAccountedFor` | server/eidolon_admin_server/audit/index.py:276-311 | in every run, whatever its prunes delete: rows arrive in strictly increasing order, and each of the Owner's rows was received, pruned before it was reached, inserted under a number already passed, or is still ahead |
| `IntentLedger.EffectsAtMostOnce` | server/eidolon_admin_server/app/control_plane/service.py:866-960 | in every run with retries, lost replies, late and repeated deliveries and crashes: one command per request, commands with one id are one command, at most one Hub effect per request, and a row is committed exactly when it holds the Hub's result |
| `IntentLedger.CheckpointOnlyMovesForward` | server/eidolon_admin_server/app/control_plane/admission_intents.py:321-332 | from any point of a run to any later one no row changes its content or ids, no checkpoint moves back and no recorded result changes |
| `IntentLedger.GetOrCreateExactly` | server/eidolon_admin_server/app/control_plane/removal_intents.py:79-120 | a request is refused exactly when its row has different content, answered with its own row otherwise, and a new row is recorded now with the derived ids; no other row is touched |
| `IntentLedger.MarkExactly` | server/eidolon_admin_server/app/control_plane/removal_intents.py:122-130 | a result is refused exactly for an unknown intent or when a different one is recorded; otherwise that row alone is committed with it |
| `IntentLedger.LostReplyRecordsNothing` | server/eidolon_admin_server/app/control_plane/service.py:866-960 | a reply lost in a crash records nothing until the request is submitted again |
| `IntentLedger.ReplyAccepted` | server/eidolon_admin_server/app/control_plane/removal_intents.py:520-556 | with a Hub that replays its first answer, the changed-result refusal is unreachable and the mark commits the row |
| `IntentLedger.ReplayCompletes` | server/eidolon_admin_server/app/control_plane/service.py:866-960 | wherever a run stopped, submitting the recorded request again after a crash commits the row with the effect already applied, if there was one |
| `ColonNames.HeadIsUnique` | server/eidolon_admin_server/lifecycle_workflow/protocol.py:30-36 | a colon-joined name determines its colon-free head and its tail, colons in the tail included |
| `ColonNames.HeadsCollideExactly` | server/eidolon_admin_server/lifecycle_workflow/protocol.py:30-36 | two heads collide for some tails if and only if one of them followed by a colon begins the other |
| `RemovalIntents.IntentIdsSeparate` | server/eidolon_admin_server/lifecycle_workflow/protocol.py:30-36 | colon-free Owner Domains: equal intent ids mean equal domain and request id |
| `RemovalIntents.CommandIdsSeparate` | server/eidolon_admin_server/app/control_plane/removal_intents.py:64-72 | whatever devices they name, two intents never share a Hub command id |
| `RemovalIntents.CommandIdsNameTheDevice` | server/eidolon_admin_server/app/control_plane/removal_intents.py:64-72 | a Hub command id names one intent, one device and its generations, even where device ids hold colons |
| `RemovalIntents.ContextIsChecked` | server/eidolon_admin_server/app/control_plane/removal_intents.py:79-95 | both stores refuse a context that does not match its hash, before anything else and for no other reason |
| `RemovalIntents.RecordedContextsMatch` | server/eidolon_admin_server/app/control_plane/removal_intents.py:79-120 | no call sequence records an intent whose context does not match its hash |
| `RemovalIntents.InsertKeepsKeys` | server/eidolon_admin_server/app/control_plane/removal_intents.py:196-217 | an insert is refused exactly for a clashing key or a negative epoch, and keys stay unique |
| `RemovalIntents.RemovalsHappenAtMostOnce` | server/eidolon_admin_server/app/control_plane/service.py:866-960 | the at-most-once theorem with the removal ledger's own ids |
| `RemovalIntents.StepAgrees` | server/eidolon_admin_server/app/control_plane/removal_intents.py:416-556 | one call: both stores answer alike if and only if it does not create a row with a negative epoch, and then stay related with no constraint fired |
| `RemovalIntents.StoresAnswerAlike` | server/eidolon_admin_server/app/control_plane/removal_intents.py:75-130 | from empty, both stores give equal answers and refusals on every call sequence and no uniqueness constraint of the table ever fires |
| `RemovalIntents.InMemoryRemovalIntentStore.GetOrCreate` | server/eidolon_admin_server/app/control_plane/removal_intents.py:79-120 | the hash check, the field-by-field comparison and the insertion are the ledger's step |
| `RemovalIntents.InMemoryRemovalIntentStore.MarkHubCommitted` | server/eidolon_admin_server/app/control_plane/removal_intents.py:122-130 | the recorded result is set once, an unknown intent or a changed result is refused |
| `RemovalIntents.SqliteRemovalIntentStore.GetOrCreate` | server/eidolon_admin_server/app/control_plane/removal_intents.py:416-518 | the lookup by request, the comparison and the constrained insert are the table's step |
| `RemovalIntents.SqliteRemovalIntentStore.MarkHubCommitted` | server/eidolon_admin_server/app/control_plane/removal_intents.py:520-556 | the update of one row by intent id is the table's step |
| `AdmissionIntents.IntentIdsSeparate` | server/eidolon_admin_server/app/control_plane/admission_intents.py:42-47 | colon-free Owner Domains: equal decision intent ids mean equal domain and request id |
| `AdmissionIntents.CommandIdsSeparate` | server/eidolon_admin_server/app/control_plane/admission_intents.py:50-55 | two decision intents never share a command id, nor one intent's for two enrollments |
| `AdmissionIntents.DecisionsHappenAtMostOnce` | server/eidolon_admin_server/app/control_plane/service.py:720-775 | one decision command and at most one effect per request, and `decision_committed` exactly with a result, so the answer's coherence check holds |
| `AdmissionIntents.SameIntentIsSameContent` | server/eidolon_admin_server/app/control_plane/admission_intents.py:308-318 | comparing digests and command ids accepts exactly the same content |
| `AdmissionIntents.InMemoryAdmissionDecisionIntentStore.GetOrCreate` | server/eidolon_admin_server/app/control_plane/admission_intents.py:102-109 | the store's digest-based step is the ledger's content-based one |
| `AdmissionIntents.InMemoryAdmissionDecisionIntentStore.MarkDecisionCommitted` | server/eidolon_admin_server/app/control_plane/admission_intents.py:111-117 | marking is the ledger's step and keeps checkpoint and result in agreement |
| `AdmissionStores.InsertKeepsKeys` | server/eidolon_admin_server/app/control_plane/admission_intents.py:146-168 | an insert is refused exactly for a clashing key, and keys stay unique |
| `AdmissionStores.StepAgrees` | server/eidolon_admin_server/app/control_plane/admission_intents.py:183-244 | one call: both stores answer alike if and only if it does not mark an unknown intent, which both refuse; they stay related with no constraint fired |
| `AdmissionStores.StoresAnswerAlike` | server/eidolon_admin_server/app/control_plane/admission_intents.py:98-244 | from empty, on every call sequence, both stores accept and refuse alike but for that error's name, and no uniqueness constraint ever fires |
| `AdmissionStores.SqliteAdmissionDecisionIntentStore.GetOrCreate` | server/eidolon_admin_server/app/control_plane/admission_intents.py:183-219 | the lookup by request, the comparison and the constrained insert are the table's step |
| `AdmissionStores.SqliteAdmissionDecisionIntentStore.MarkDecisionCommitted` | server/eidolon_admin_server/app/control_plane/admission_intents.py:221-244 | the update of one row by intent id is the table's step |
| `LedgerMigration.OpensExactly` | server/eidolon_admin_server/app/control_plane/removal_intents.py:174-243 | opening succeeds if and only if there is no table, or it is version 4 or 3 with that version's columns, or an empty version 2, each with the request-uniqueness index; and then ends at version 4 with exactly the expected columns |
| `LedgerMigration.OpeningKeepsEveryRow` | server/eidolon_admin_server/app/control_plane/removal_intents.py:302-384 | opened or refused, no row is lost or changed but for the generation in its device reference, and no other column is filled in for it: no context, hash, principal or epoch is invented |
| `LedgerMigration.GenerationsAgreeAfterOpening` | server/eidolon_admin_server/app/control_plane/removal_intents.py:366-384 | after opening every row's generation column equals the one in its device reference, if and only if it did in a file already at version 4 |
| `LedgerMigration.NewLedger` | server/eidolon_admin_server/app/control_plane/removal_intents.py:174-243 | a ledger that does not exist is created empty with its columns and three keys |
| `LedgerMigration.NeedsOfflineExactly` | server/eidolon_admin_server/app/control_plane/removal_intents.py:302-364 | versions 1 and 2 with rows, and only they, are refused as needing an offline migration, the file unchanged |
| `LedgerMigration.DraftNeverMigrates` | server/eidolon_admin_server/app/control_plane/removal_intents.py:245-300 | the version 0 migration refuses every table |
| `LedgerMigration.LegacyStopsAtTwo` | server/eidolon_admin_server/app/control_plane/removal_intents.py:302-364 | what the version 1 migration produces is always refused by the next one |
| `LedgerMigration.SqliteLedgerFile.Initialize` | server/eidolon_admin_server/app/control_plane/removal_intents.py:174-243 | the chain of separately committed migrations and the final checks compute `Open` |
| `HostStore.IssueKeeps` | server/eidolon_admin_server/bootstrap/adapters/persistence/sqlite.py:378-402 | minting closes every earlier window, appends the new one open, keeps ids distinct and touches no grant |
| `HostStore.ClaimKeeps` | server/eidolon_admin_server/bootstrap/adapters/persistence/sqlite.py:447-535 | a committed claim consumed exactly an open window of the presented id and code and left the Controller an active grant for its key; a refused or replayed one changes no grant |
| `HostStore.ClaimExactly` | server/eidolon_admin_server/bootstrap/adapters/persistence/sqlite.py:447-535 | a claim on an unspent window succeeds if and only if the window is open, the code right and the key this Controller's own; no other window and no other phone's authority changes |
| `HostStore.CommittedIsEarned` | server/eidolon_admin_server/bootstrap/adapters/persistence/sqlite.py:457-475 | a claim is answered as a replay if and only if this Controller spent the window with this code and key, and then nothing changes; nothing commits without the window's own code and an active grant for the key |
| `HostStore.AuthorizesExactly` | server/eidolon_admin_server/bootstrap/adapters/persistence/sqlite.py:420-445 | a code is accepted exactly by an open window of that id that takes it; a wrong one is counted once against the open window it was tried on |
| `HostStore.OpenExactly` | server/eidolon_admin_server/bootstrap/domain/model.py:130-135 | a window is shut by a claim, by being withdrawn and by its clock, and by nothing else |
| `HostStore.ClaimReplays` | server/eidolon_admin_server/bootstrap/adapters/persistence/sqlite.py:457-468 | the same claim sent again after it was granted is answered again and changes nothing |
| `HostStore.RevokeKeeps` | server/eidolon_admin_server/bootstrap/adapters/persistence/sqlite.py:578-615 | the target loses its authority if and only if another phone stays active; a managed Host never ends up with nobody; no other phone, window or epoch is touched |
| `HostStore.ResetKeeps` | server/eidolon_admin_server/bootstrap/adapters/persistence/sqlite.py:759-831 | a reset advances the epoch by one, leaves no grant active and the Host unclaimed, closes every earlier window and opens exactly the recovery window asked for |
| `HostStore.GuessesNeverCloseAWindow` | server/eidolon_admin_server/bootstrap/adapters/persistence/sqlite.py:420-445 | after any number of guesses at any times the right code is accepted exactly when it would have been without them |
| `ExpiringTables.IssueBounded` | server/eidolon_admin_server/bootstrap/service.py:335-363 | a table within its capacity stays within it, holds the new entry, and otherwise only unexpired entries it held before |
| `ExpiringTables.EvictsEarliestIssued` | server/eidolon_admin_server/bootstrap/service.py:339-346 | under a monotone clock a full table gives up exactly its earliest-issued live entry |
| `ExpiringTables.TableStaysInIssueOrder` | server/eidolon_admin_server/bootstrap/service.py:335-403 | in every run under a monotone clock the challenge table stays in issue order, so every eviction is of the earliest-issued live challenge |
| `ExpiringTables.PurgeExact` | server/eidolon_admin_server/bootstrap/service.py:491-498 | purging keeps exactly the unexpired entries |
| `ExpiringTables.ControllerChallenges.IssueChallenge` | server/eidolon_admin_server/bootstrap/service.py:335-363 | purge, evict-oldest and insert on the dict are `Issue` with capacity 256 and 60 seconds |
| `ExpiringTables.ControllerChallenges.TakeChallenge` | server/eidolon_admin_server/bootstrap/service.py:365-388 | an attempt leaves no entry under its challenge whatever comes of it, and yields a record only of an unexpired one |
| `ExpiringTables.LocalControllerSessionStore.IssueSession` | server/eidolon_admin_server/local_api/auth.py:76-100 | the session table stays within 1024 and holds the new session |
| `ExpiringTables.LocalControllerSessionStore.Get` | server/eidolon_admin_server/local_api/auth.py:102-112 | answers exactly for an unexpired session of that token and drops an expired one |
| `ExpiringTables.LocalControllerSessionStore.Revoke` | server/eidolon_admin_server/local_api/auth.py:114-115 | leaves no session under the token |
| `ControllerSessions.AcceptedRequestIsProven` | server/eidolon_admin_server/local_api/app.py:447-468 | every accepted request, in every run, has an unexpired session of the current epoch obtained by spending a challenge signed with the very key its active grant holds |
| `ControllerSessions.ResetEndsEverySession` | server/eidolon_admin_server/bootstrap/service.py:405-470 | no token issued before a reset is accepted after it, whatever is claimed anew, nor by a request that had found its session |
| `ControllerSessions.TablesStayBounded` | server/eidolon_admin_server/bootstrap/service.py:335-403 | in every run at most 256 challenges and 1024 sessions are held and no challenge is answered twice |
| `ControllerSessions.AuthenticateSpends` | server/eidolon_admin_server/bootstrap/service.py:365-403 | an attempt removes its challenge whether or not it succeeds, and success needs an unexpired record, an active grant and that grant's signature |
| `ControllerSessions.AuthenticatesExactly` | server/eidolon_admin_server/bootstrap/service.py:365-403 | an attempt succeeds if and only if an unexpired record of its challenge was drawn for this Controller and epoch, its grant is active and it is that grant's signature |
| `ControllerSessions.OneSessionPerProof` | server/eidolon_admin_server/local_api/auth.py:76-100 | in every run one successful authentication gives at most one session |
| `ControllerSessions.RequestIsLookUpThenValidate` | server/eidolon_admin_server/local_api/app.py:447-468 | a request looked up and validated at once is accepted exactly as its session says, and leaves the sessions alone |
| `ControllerSessions.RestartEndsEverySession` | server/eidolon_admin_server/local_api/auth.py:66-74 | no session survives a restart of the Local API |
| `ControllerSessions.RestartForgetsChallenges` | server/eidolon_admin_server/bootstrap/service.py:79-123 | no challenge survives a restart of the bootstrap service |
| `ControllerSessions.RevocationEndsSessions` | server/eidolon_admin_server/bootstrap/service.py:430-470 | a revocation makes the revoked phone's accepted session refused |
| `ControllerSessions.OutUntilClaimedAnew` | server/eidolon_admin_server/bootstrap/service.py:405-470 | in every run in which a phone without an active grant does not claim anew, none of its sessions is accepted |
| `ControllerSessions.ReclaimRevivesOldSessions` | server/eidolon_admin_server/bootstrap/service.py:405-470 | after a re-claim in the same epoch that old session is accepted again with no new authentication |
| `ControllerSessions.AcceptableAgainExactly` | server/eidolon_admin_server/bootstrap/service.py:405-470 | some continuation accepts an issued token at a given time if and only if its session is still in the table, of the current epoch and unexpired |
| `ControllerSessions.RefusedOnceIsFinal` | server/eidolon_admin_server/local_api/app.py:457-468 | once a request with a token was refused, no request made with it afterwards is accepted in any continuation |
| `ControllerSessions.OutstandingAcceptableExactly` | server/eidolon_admin_server/local_api/app.py:451-468 | a request that has found its session can still be let through if and only if the session is of the current epoch |
| `ControllerSessions.OutstandingRequestIsProven` | server/eidolon_admin_server/local_api/app.py:451-468 | a request let through some time after its lookup found an unexpired session, proven as above, of the current epoch |
| `ControllerSessions.SomeRequestIsAccepted` | server/eidolon_admin_server/local_api/app.py:447-468 | a run from the start, claim to session, that ends in an accepted request |
| `ControllerSessions.RevivalFromStart` | server/eidolon_admin_server/bootstrap/service.py:430-470 | a run from the start in which a revoked phone is refused, claims again and its old session is accepted |
| `ControllerSessions.CommissioningLink.AskForChallenge` | server/eidolon_admin_server/bootstrap/commissioning_protocol.py:71-95 | a link holds one outstanding challenge, drawn only for an active Controller |
| `ControllerSessions.CommissioningLink.AuthenticateController` | server/eidolon_admin_server/bootstrap/commissioning_protocol.py:173-202 | the first attempt spends the challenge; it authorizes if and only if unexpired, matched and signed with the active grant's key |
| `ClaimWindows.StandingHostHoldsAWindow` | server/eidolon_admin_server/bootstrap/service.py:156-216 | always-open with a usable code: the store holds an open window after each opening, whatever the clock says |
| `ClaimWindows.StandingWindowIsShownExactly` | server/eidolon_admin_server/bootstrap/service.py:627-637 | after an opening the endpoint shows an open window if and only if it did before or the new window's stamp sorts last |
| `ClaimWindows.StandingHostShowsAWindowExactly` | server/eidolon_admin_server/bootstrap/commissioning_service.py:404-437 | the same as a step of any run: after a start-up or a committed claim on either transport |
| `ClaimWindows.StandingFromTheBox` | server/eidolon_admin_server/bootstrap/service.py:156-216 | always-open, at every point of every run stamped in order, a start-up or a committed claim with a usable code leaves a window the endpoint shows |
| `ClaimWindows.OpeningMintsExactly` | server/eidolon_admin_server/bootstrap/service.py:156-216 | an opening appends one window that takes exactly its code if and only if it has one, the policy or the unclaimed Host allows it, and no window is shown; otherwise nothing changes |
| `ClaimWindows.StepMintsExactly` | server/eidolon_admin_server/bootstrap/service.py:156-216 | the same as a step of any run under either policy |
| `ClaimWindows.OperatorStepMints` | server/eidolon_admin_server/bootstrap/service.py:639-706 | an operator's mint always appends one window that takes exactly its code |
| `ClaimWindows.RefusedStep` | server/eidolon_admin_server/bootstrap/commissioning_service.py:404-437 | a claim that does not commit opens no window |
| `ClaimWindows.UnboxedHostIsClaimed` | server/eidolon_admin_server/bootstrap/service.py:156-191 | out of the box, under either policy, whoever presents the factory code is granted the Host |
| `ClaimWindows.CommittedClaimsKnewTheCode` | server/eidolon_admin_server/bootstrap/commissioning_service.py:404-437 | in every run from the box a claim that commits presented the code an earlier event minted for that very window, and holds an active grant for its key |
| `ClaimWindows.RecoveryStep` | server/eidolon_admin_server/bootstrap/service.py:722-780 | a recovery leaves no authority and its own window alone to come back by |
| `ClaimWindows.DevelopmentResetStep` | server/eidolon_admin_server/bootstrap/service.py:799-856 | a development reset leaves no authority and opens nothing |
| `ClaimWindows.ClockStepBackHidesTheWindow` | server/eidolon_admin_server/bootstrap/adapters/persistence/sqlite.py:404-418 | a run from the box after which a standing Host shows no window right after a start-up |
| `ClaimWindows.OpeningSupersedesExactly` | server/eidolon_admin_server/bootstrap/service.py:156-216 | an opening discards an open window if and only if it is due to mint and the open window is not the one that sorts last |
| `ClaimWindows.OpeningNeverSupersedes` | server/eidolon_admin_server/bootstrap/service.py:156-216 | with windows stamped in order no opening discards an open window and the endpoint shows the one left open |
| `ClaimWindows.ClockStepBackSupersedes` | server/eidolon_admin_server/bootstrap/adapters/persistence/sqlite.py:404-418 | a run from the box in which the clock steps back and a start-up discards a window just minted |
| `ClaimWindows.OnDemandWindowsAreAskedFor` | server/eidolon_admin_server/bootstrap/service.py:156-191 | on demand, in every run, every window was minted by an operator or by a start-up while unclaimed |
| `ClaimWindows.StartUpsFindNothingOpen` | server/eidolon_admin_server/bootstrap/service.py:156-191 | in every run stamped in order no start-up minted over a window still open |
| `ClaimWindows.OnDemandFromTheBox` | server/eidolon_admin_server/bootstrap/service.py:156-191 | on demand, from the box on and in every run stamped in order, each window was minted by an operator or by a start-up that found the Host unclaimed with nothing open |
| `ClaimWindows.BootstrapService.IssueSetupCode` | server/eidolon_admin_server/bootstrap/service.py:686-706 | minting revokes what was live and leaves the new window open |
| `ClaimWindows.BootstrapService.OpenFactory` | server/eidolon_admin_server/bootstrap/service.py:156-191 | the four guards in order: the exact condition for minting, for which code, and for showing a window |
| `ClaimWindows.BootstrapService.OpenControllerRecoveryWindow` | server/eidolon_admin_server/bootstrap/service.py:722-780 | refused exactly outside 60 to 86400 seconds; otherwise one act leaves no grant active, every earlier window closed, and one window in the next epoch that takes exactly its code until it expires |
| `ClaimWindows.BootstrapService.ClaimController` | server/eidolon_admin_server/bootstrap/commissioning_service.py:404-437 | a claim, committed only with the window's own code and leaving an active grant for its key, and after it the standing window reopened |
| `WifiOperations.StagedOnceAndConfirmed` | server/eidolon_admin_server/bootstrap/commissioning_service.py:233-363 | in every interleaving the adapter is asked to stage an operation at most once, for its bound SSID, and only confirmed operations are recorded as succeeded |
| `WifiOperations.OperationKeepsItsNetwork` | server/eidolon_admin_server/bootstrap/commissioning_service.py:259-266 | an operation id keeps its SSID and epoch for ever |
| `WifiOperations.SucceedsOnce` | server/eidolon_admin_server/bootstrap/commissioning_service.py:351-363 | a step that finds an operation succeeded either found it so before or is the adapter's confirmation |
| `WifiOperations.StagingFailureIsNotLeftStaging` | server/eidolon_admin_server/bootstrap/commissioning_service.py:302-327 | in every run a reported staging failure leaves the operation failed and the network connected if it was before, degraded otherwise |
| `WifiOperations.FailedIsFinalExactly` | server/eidolon_admin_server/bootstrap/commissioning_service.py:329-363 | a failed operation stays failed in every continuation if and only if no configure or confirm of it waits for the adapter |
| `WifiOperations.FailedOperationRevived` | server/eidolon_admin_server/bootstrap/commissioning_service.py:281-300 | a run from the start in which a reset fails an operation being staged and the late answer revives it |
| `WifiOperations.LeavesCompensatingExactly` | server/eidolon_admin_server/bootstrap/commissioning_service.py:365-402 | a step takes an operation out of compensating if and only if it is a restart, a reset, or an awaited undo, confirmation or staging answer |
| `WifiOperations.BlockLastsExactly` | server/eidolon_admin_server/bootstrap/commissioning_service.py:365-402 | an operation stays compensating throughout a run if and only if no step releases it, and until then no change is staged |
| `WifiOperations.PendingConfirmLiftsTheBlock` | server/eidolon_admin_server/bootstrap/commissioning_service.py:351-363 | a run from the start in which a rollback overtakes a confirm, is refused, and the confirm returns the compensating operation to succeeded |
| `WifiOperations.NetworkEntersExactly` | server/eidolon_admin_server/bootstrap/commissioning_service.py:233-402 | each network state is newly recorded exactly for its own reasons: staging by a created or staged change, connected by a confirmation or the restored previous state, and otherwise by a report |
| `WifiOperations.ConnectedWasObserved` | server/eidolon_admin_server/bootstrap/commissioning_service.py:233-402 | in every run the network is recorded connected only if the adapter confirmed an operation or the network was reported connected |
| `WifiOperations.StateEntersExactly` | server/eidolon_admin_server/bootstrap/adapters/persistence/sqlite.py:617-737 | an operation newly comes to each state exactly by the step meant for it |
| `WifiOperations.WaitsExactly` | server/eidolon_admin_server/bootstrap/commissioning_service.py:233-402 | a request waits from its call to its one answer, and nobody waits after a restart |
| `WifiOperations.StagedExactly` | server/eidolon_admin_server/bootstrap/commissioning_service.py:281-296 | the adapter is asked to stage exactly by a configure that creates its operation, for its SSID |
| `WifiOperations.ConfirmedExactly` | server/eidolon_admin_server/bootstrap/commissioning_service.py:351-363 | an operation counts as confirmed exactly by the adapter's awaited answer |
| `WifiOperations.CreatedAsAsked` | server/eidolon_admin_server/bootstrap/commissioning_service.py:266-288 | a new operation takes the SSID asked for and the current epoch |
| `WifiOperations.LateAnswersAreLost` | server/eidolon_admin_server/bootstrap/adapters/persistence/sqlite.py:706-737 | an adapter answer that comes after a restart changes nothing |
| `WifiOperations.EpochExactly` | server/eidolon_admin_server/bootstrap/adapters/persistence/sqlite.py:759-831 | only a reset begins an epoch |
| `WifiOperations.NeverStrandedExactly` | server/eidolon_admin_server/bootstrap/commissioning_service.py:269-327 | the network is never left staging with nothing under way, at any point of a run, if and only if no reset passes staging through and no undo of the last active operation reports it |
| `WifiOperations.RecoveryStrandsTheNetwork` | server/eidolon_admin_server/bootstrap/service.py:754-780 | a recovery window opened during staging leaves the network staging across a restart, until reconciled |
| `WifiOperations.OnlyActiveControllersDriveTheNetwork` | server/eidolon_admin_server/bootstrap/commissioning_service.py:439-462 | a request is let through if and only if it acts as a Controller with an active grant for that key; a reset, or a revocation, stops a link authorized before it |
| `WifiOperations.LateRollbackBlocksChanges` | server/eidolon_admin_server/bootstrap/commissioning_service.py:365-402 | a refused undo of a succeeded operation leaves it compensating, no change is staged in any run that does not release it, and a restart lifts the block |
| `WifiOperations.CommissioningService.ConfigureNetwork` | server/eidolon_admin_server/bootstrap/commissioning_service.py:233-327 | denied, repeat, conflict, active-operation, staged and failed cases, each with its operations and network written out |
| `WifiOperations.CommissioningService.ConfirmNetwork` | server/eidolon_admin_server/bootstrap/commissioning_service.py:329-363 | denied requests change nothing; only a waiting operation is put to the adapter; success only on its confirmation |
| `WifiOperations.CommissioningService.RollbackNetwork` | server/eidolon_admin_server/bootstrap/commissioning_service.py:365-402 | denied requests change nothing; a failed operation is answered as it is; another is compensated, and failed only if the adapter undid it |
| `Base64Url.AcceptsExactlyTheCanonical` | server/eidolon_admin_server/bootstrap/controller_auth.py:57-67 | the lenient decode and the re-encode check accept v with result b if and only if b is non-empty and v is its unpadded encoding (section 5 of RFC 4648) |
| `Base64Url.LetterIsInTheAlphabet` | server/eidolon_admin_server/bootstrap/controller_auth.py:57-67 | the letters are the base64url alphabet in order (table 2 of RFC 4648) |
| `Base64Url.GroupsAreBigEndian` | server/eidolon_admin_server/bootstrap/controller_auth.py:57-67 | bytes and letters are the same number, most significant first, a short group filled with zero bits (section 4 of RFC 4648) |
| `Base64Url.RefusedAs` | server/eidolon_admin_server/bootstrap/controller_auth.py:57-67 | which refusal an empty or a non-ASCII value gets |
| `Base64Url.DecodingIsABijection` | server/eidolon_admin_server/bootstrap/commissioning_service.py:72-86 | every non-empty byte string has an accepted encoding and no two accepted strings decode alike |
| `Base64Url.CanonicalIsUnpadded` | server/eidolon_admin_server/bootstrap/controller_auth.py:63-67 | stripping the padding of the padded encoding is the unpadded encoding |
| `NewlineFraming.CommissioningTlsSession.ReceiveRaw` | server/eidolon_admin_server/bootstrap/tls_session.py:43-77 | whatever the chunks, a receive yields the bytes before the first newline, or closes exactly when there are none or more than 64 KiB of them |
| `NewlineFraming.ReceivesExactly` | server/eidolon_admin_server/bootstrap/tls_session.py:43-63 | a message is received if and only if the stream begins with it and a newline, and it has 1 to 65536 bytes and no newline |
| `NewlineFraming.CommissioningTlsSession.ServeAll` | server/eidolon_admin_server/bootstrap/tls_session.py:116-131 | the messages of a session are a function of the byte stream alone |
| `NewlineFraming.CommissioningTlsSession.Send` | server/eidolon_admin_server/bootstrap/tls_session.py:79-92 | whatever the TLS layer takes at a time, all of a payload goes out once and in order, or nothing does when it is too large |
| `NewlineFraming.SentIsReceived` | server/eidolon_admin_server/bootstrap/tls_session.py:43-92 | what one side sends the other reads back, message for message |
| `LengthFraming.ReadsExactlyTheEncoding` | server/eidolon_admin_server/lifecycle_workflow/protocol.py:113-132 | a frame is read if and only if the stream begins with that body's encoding |
| `LengthFraming.FrameExactly` | server/eidolon_admin_server/lifecycle_workflow/protocol.py:113-117 | a frame is the length in network byte order and the body, for bodies of 1 to 262144 bytes and no others |
| `LengthFraming.TruncatedFrameIsIncomplete` | server/eidolon_admin_server/lifecycle_workflow/protocol.py:120-132 | a frame cut short anywhere is incomplete, never misread |
| `LengthFraming.FramesRoundTrip` | server/eidolon_admin_server/lifecycle_workflow/protocol.py:113-137 | every concatenation of frames decodes back to exactly the encoded bodies |
| `LengthFraming.FrameReader.ReceiveFrame` | server/eidolon_admin_server/lifecycle_workflow/protocol.py:120-132 | reading a frame as chunks arrive, in whatever sizes, gives what the whole stream says |
| `EndpointBudget.AddressesThatFit` | server/eidolon_admin_server/bootstrap/service.py:523-561 | the loop admits the longest prefix whose signed encoding fits 512 bytes, and the endpoint fits if and only if its empty-list form does |
| `EndpointBudget.SizeExactly` | server/eidolon_admin_server/bootstrap/endpoint_encoding.py:26-38 | the budgeted size counts the fixed parts, the addresses with quotes and commas, and the signature |
| `EndpointBudget.SignatureChars` | server/eidolon_admin_server/bootstrap/service.py:544-551 | a 64-byte signature is 86 characters of unpadded base64url |
| `EndpointBudget.ReachableAddresses` | server/eidolon_admin_server/bootstrap/host_addresses.py:48-78 | no duplicates, exactly the reported product addresses, every routable one before every link-local one, and within each class in the order of first report |
| `EndpointBudget.LinkLocalGoesFirst` | server/eidolon_admin_server/bootstrap/service.py:523-561 | a kept URL of a link-local address means that of every routable one was kept |
| `EndpointBudget.AdvertisedUrls` | server/eidolon_admin_server/bootstrap/service.py:500-561 | from the reported addresses to the advertised URLs: the endpoint fits if and only if it would with none, they are of reported product addresses, and keep a link-local one only with every routable one |
| `SchemaClosure.ReferencedSchemas` | contracts/management/v1/generate.py:109-119 | for every pop order the collector ends with the least set of defined schemas that holds those the document refers to and is closed under reference |
| `SchemaClosure.RefsInExact` | contracts/management/v1/generate.py:122-133 | the scan finds a name if and only if some object in the document, at any depth, has a "$ref" among the component schemas whose part after the last slash it is |
| `TypeScriptTypes.AdmittedInhabits` | contracts/management/v1/generate_typescript.py:40-89 | every value a schema admits inhabits the emitted type, through references, unions and containers; `TypeScriptTypes.HoldsExactly` is the converse |
| `TypeScriptTypes.HoldsExactly` | contracts/management/v1/generate_typescript.py:40-89 | the emitted type holds a value if and only if it satisfies the keyword the emitter reads, at every depth: the named definition, an option, the constant, an enum member or the kind |
| `TypeScriptTypes.UnknownExactly` | contracts/management/v1/generate_typescript.py:65-71 | `unknown` is emitted for a schema that says nothing and for nothing else |
| `TypeScriptTypes.RefusedExactly` | contracts/management/v1/generate_typescript.py:52-74 | a schema is refused if and only if some node the emitter descends to, at any depth, is of an unlisted shape |
| `TypeScriptTypes.MapSoundExactly` | contracts/management/v1/generate_typescript.py:60-64 | a map's type is sound if and only if each property listed beside it only admits values of the element type |
| `TypeScriptTypes.ListedPropertyEscapesTheMap` | contracts/management/v1/generate_typescript.py:60-64 | a concrete schema whose listed property does not fit the emitted map |
| `DartTypes.AdmittedInhabits` | contracts/management/v1/generate_dart.py:46-99 | every value a faithful schema admits, nulls and absent fields included, inhabits the emitted Dart type at every depth |
| `DartTypes.HoldsExactly` | contracts/management/v1/generate_dart.py:46-99 | the emitted type holds a value if and only if it satisfies what the emitter reads, up to a literal's primitive type and the widening to `Object`, null and absent fields included |
| `DartTypes.KindExactly` | contracts/management/v1/generate_dart.py:46-83 | a primitive type is emitted exactly for a schema that allows just that one |
| `DartTypes.NullKeptExactly` | contracts/management/v1/generate_dart.py:138-150 | the emitted type holds null if and only if the schema is null, lists null directly or reaches an any-value schema |
| `DartTypes.FlatUnionsKeepNull` | contracts/management/v1/generate_dart.py:46-70 | with no union directly inside a union every allowed null is listed |
| `DartTypes.FlatIsFaithful` | contracts/management/v1/generate_dart.py:46-99 | no union directly inside a union and plain maps, at every depth, are enough for the soundness theorem |
| `DartTypes.ListedPropertyEscapesTheMap` | contracts/management/v1/generate_dart.py:86-91 | a concrete schema whose listed property does not fit the emitted map |
| `DartTypes.NullLostExactly` | contracts/management/v1/generate_dart.py:46-70 | an allowed null is lost if and only if only a union nested in a union allows it |
| `DartTypes.NestedUnionDropsNull` | contracts/management/v1/generate_dart.py:46-70 | a concrete nested union that admits null and is emitted as a type without it |
| `DartTypes.RefusedExactly` | contracts/management/v1/generate_dart.py:46-99 | a schema is refused if and only if some node reached is of an unlisted shape, a literal that is no primitive, or a union of different types not all primitive |
| `DartTypes.MapSoundExactly` | contracts/management/v1/generate_dart.py:87-92 | a map's type is sound if and only if each property listed beside it only admits values of the element type |
| `ConfigBackups.ConfigDirectory.Rotate` | server/eidolon_admin_server/app/configs/backups.py:66-72 | exactly the backups with fewer than ten newer ones stay, contents untouched |
| `ConfigBackups.RotatedCount` | server/eidolon_admin_server/app/configs/backups.py:66-72 | rotation leaves ten backups, or all there are |
| `ConfigBackups.ConfigDirectory.Snapshot` | server/eidolon_admin_server/app/configs/backups.py:50-63 | the new backup is stamped with the clock or one past the newest, overwrites none, and an old one stays exactly if it was among the newest nine |
| `ConfigBackups.ConfigDirectory.Restore` | server/eidolon_admin_server/app/configs/backups.py:75-86 | succeeds if and only if the backup exists and nothing is live or it is among the newest nine; then the target equals it and the old content is a backup; otherwise the target is unchanged and the backup asked for is gone; the other survivors are exactly the newest nine, contents untouched |
| `ConfigBackups.RotatedWithOneMore` | server/eidolon_admin_server/app/configs/backups.py:50-72 | one more backup on top pushes out exactly the tenth newest and older |

## Left out

- HTTP clients, routers, FastAPI composition, pydantic shape checks and error-to-status tables are thin adapters.
- The NATS, BlueZ, NetworkManager, TLS and SQLite engines appear only through the contract each offers: redelivery, ordered bytes, atomic commit, row-id allocation.
- Cryptography and randomness: hashes are collision-free parameters, signatures symbolic, draws fresh.
- Columns that hold JSON are kept as the values they encode, and timestamps as numbers, so the text order of timestamps with and without a fraction is not modelled.
- The audit runner's loop and health flags, connecting and closing, VACUUM, and the two other Owner queries would add only easy members.
- Setup-window lookups use one store, the durable one; the in-memory bootstrap store is not modelled.
- The bootstrap store's own schema migrations are not modelled.
- A Controller is looked up by id only; the fingerprint is a digest of the same key.
- The removal workflow after the Hub committed (erase observation, mount removal, conditions) and the removal capability broker are not modelled.
- Wi-Fi scanning and payload shape checks (passphrase length, hidden flag) are not modelled; nor is the Host Admin role, the only one a grant has.
- Dart `fromJson`/`toJson` text, output ordering of generated files, a list-valued `type` keyword, and schema names that collide with built-in type names are not modelled.
- Backup files whose names end in digits after some other suffix, and file-system errors while unlinking, are not modelled.
- The web client, benchmarks, port collection, settings loading and host vitals are presentational.
- TypeScriptTypes.AdmittedInhabits: for schemas whose maps list no property beside `additionalProperties`; what happens at a map that does is exact in `TypeScriptTypes.MapSoundExactly`. Inline `required` is not part of what a schema admits, and `integer` does not admit 1.0, which JSON Schema does.
- DartTypes.AdmittedInhabits: under the same condition and with null listed where it is allowed; exact in `DartTypes.MapSoundExactly` and `DartTypes.NullLostExactly`.
- AuditReader.ResumedReaderMissesOnlyPrunedRows: conditioned on prunes that keep the newest row, because sequence numbers are otherwise reused; `AuditReader.KeptCursorMissesOnlyPrunedRows` has the weaker condition on the reader's cursor and `AuditReader.EveryMissIsAccountedFor` none.
- AuditPipeline.StoppingLosesNothing: redelivery is the stream's promise, so fetching any published message is a step of the model.
