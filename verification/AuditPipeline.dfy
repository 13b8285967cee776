/**
  The at-least-once path from the audit stream into the index
  (server/eidolon_admin_server/audit/jetstream.py and audit/runner.py).

  A run is any sequence of events: producers publish; the indexer fetches a batch
  of any published messages, redeliveries included; it terminates what it cannot
  decode, commits what it can, and acks one message at a time; it may stop
  between any two of these (crash, exception, cancellation or the end of a
  round); and a prune may happen anywhere.
 */
module AuditPipeline {
  import opened Outcomes
  import opened AuditIndex

  datatype Message = Decodable(envelope: Envelope) | Undecodable(data: string)

  /** Where one `consume_once` round stands. */
  datatype Phase =
    | Idle
    | Decoding(todo: seq<nat>, valid: seq<nat>)
    | Acking(toAck: set<nat>)

  datatype World = World(
    stream: seq<Message>,
    rows: seq<Row>,
    acked: set<nat>,
    terminated: set<nat>,
    phase: Phase,
    inserted: seq<Row>,   // every row ever inserted, in order
    removed: seq<Row>)    // every row a prune ever deleted

  datatype Event =
    | Publish(message: Message)
    | Fetch(batch: seq<nat>)
    | DecodeNext
    | Commit
    | Ack(position: nat)
    | Stop
    | Prune(before: int, maxRows: int)

  const START := World([], [], {}, {}, Idle, [], [])

  ghost predicate Published(stream: seq<Message>, batch: seq<nat>) {
    forall k :: 0 <= k < |batch| ==> batch[k] < |stream|
  }

  ghost predicate AllDecodable(stream: seq<Message>, valid: seq<nat>) {
    forall k :: 0 <= k < |valid| ==> valid[k] < |stream| && stream[valid[k]].Decodable?
  }

  function Envelopes(stream: seq<Message>, valid: seq<nat>): seq<Envelope>
    requires AllDecodable(stream, valid)
  {
    seq(|valid|, k requires 0 <= k < |valid| => stream[valid[k]].envelope)
  }

  function Deleted(rows: seq<Row>, kept: seq<Row>): seq<Row> {
    if rows == [] then []
    else
      var rest := Deleted(rows[..|rows| - 1], kept);
      if rows[|rows| - 1] in kept then rest else rest + [rows[|rows| - 1]]
  }

  ghost predicate PhaseOk(w: World) {
    match w.phase
    case Idle => true
    case Decoding(todo, valid) =>
      Published(w.stream, todo) && AllDecodable(w.stream, valid)
    case Acking(toAck) =>
      forall i: nat :: i in toAck ==> Recorded(w, i)
  }

  /** Message i is decodable and its event is in the index, or was until a prune removed it. */
  ghost predicate Recorded(w: World, i: nat) {
    && i < |w.stream| && w.stream[i].Decodable?
    && (HasEvent(w.rows, w.stream[i].envelope.eventId) || HasEvent(w.removed, w.stream[i].envelope.eventId))
  }

  ghost predicate Inv(w: World) {
    && TableOk(w.rows)
    && PhaseOk(w)
    && (forall i: nat :: i in w.acked ==> Recorded(w, i))
    && (forall i :: i in w.terminated ==> i < |w.stream| && w.stream[i].Undecodable?)
    && (forall r :: r in w.inserted ==> Decodable(r.envelope) in w.stream)
    && multiset(w.inserted) == multiset(w.rows) + multiset(w.removed)
  }

  /** One event.  An event that is not possible where the indexer stands changes nothing. */
  ghost function Next(w: World, e: Event): World {
    match e
    case Publish(m) => w.(stream := w.stream + [m])
    case Fetch(batch) =>
      if w.phase == Idle && Published(w.stream, batch)
      then w.(phase := Decoding(batch, [])) else w
    case DecodeNext =>
      if w.phase.Decoding? && w.phase.todo != [] && w.phase.todo[0] < |w.stream| then
        var i := w.phase.todo[0];
        if w.stream[i].Undecodable?
        then w.(terminated := w.terminated + {i}, phase := Decoding(w.phase.todo[1..], w.phase.valid))
        else w.(phase := Decoding(w.phase.todo[1..], w.phase.valid + [i]))
      else w
    case Commit =>
      if w.phase.Decoding? && w.phase.todo == [] && AllDecodable(w.stream, w.phase.valid) then
        if w.phase.valid == [] then w.(phase := Idle)
        else
          var rows' := InsertAll(w.rows, Envelopes(w.stream, w.phase.valid));
          w.(rows := rows',
             inserted := w.inserted + (if |w.rows| <= |rows'| then rows'[|w.rows|..] else []),
             phase := Acking(set i | i in w.phase.valid))
      else w
    case Ack(i) =>
      if w.phase.Acking? && i in w.phase.toAck
      then w.(acked := w.acked + {i}, phase := Acking(w.phase.toAck - {i})) else w
    case Stop => w.(phase := Idle)
    case Prune(before, maxRows) =>
      var kept := Pruned(w.rows, before, maxRows);
      w.(rows := kept, removed := w.removed + Deleted(w.rows, kept))
  }

  // ----- every step keeps the invariant -----

  /** What a commit leaves behind, as `IngestExtends` proves it of `InsertAll`. */
  ghost predicate Extends(rows: seq<Row>, rows': seq<Row>, events: seq<Envelope>) {
    && rows <= rows'
    && TableOk(rows')
    && (forall k :: 0 <= k < |events| ==> HasEvent(rows', events[k].eventId))
    && (forall k :: |rows| <= k < |rows'| ==> rows'[k].envelope in events)
  }

  lemma CommitExtends(w: World)
    requires TableOk(w.rows) && w.phase.Decoding? && AllDecodable(w.stream, w.phase.valid)
    ensures Extends(w.rows, InsertAll(w.rows, Envelopes(w.stream, w.phase.valid)),
                    Envelopes(w.stream, w.phase.valid))
  {
    IngestExtends(w.rows, Envelopes(w.stream, w.phase.valid));
  }

  lemma RecordedStays(w: World, w': World, i: nat)
    requires Recorded(w, i)
    requires w.stream <= w'.stream && w.rows <= w'.rows && w.removed <= w'.removed
    ensures Recorded(w', i)
  {
  }

  lemma CommittedProvenance(w: World, rows': seq<Row>, events: seq<Envelope>)
    requires w.phase.Decoding? && AllDecodable(w.stream, w.phase.valid)
    requires events == Envelopes(w.stream, w.phase.valid) && Extends(w.rows, rows', events)
    ensures forall r :: r in rows'[|w.rows|..] ==> Decodable(r.envelope) in w.stream
    ensures multiset(rows') == multiset(w.rows) + multiset(rows'[|w.rows|..])
  {
    var added := rows'[|w.rows|..];
    forall r | r in added ensures Decodable(r.envelope) in w.stream {
      var k :| 0 <= k < |added| && added[k] == r;
      assert rows'[|w.rows| + k].envelope in events;
      var m :| 0 <= m < |events| && events[m] == r.envelope;
      assert w.stream[w.phase.valid[m]] == Decodable(r.envelope);
    }
    assert rows' == w.rows + added;
  }

  lemma CommitKeeps(w: World)
    requires Inv(w)
    requires w.phase.Decoding? && w.phase.todo == [] && w.phase.valid != []
    ensures Inv(Next(w, Commit))
    ensures forall k :: 0 <= k < |w.phase.valid| ==>
              HasEvent(Next(w, Commit).rows, w.stream[w.phase.valid[k]].envelope.eventId)
  {
    var w' := Next(w, Commit);
    var events := Envelopes(w.stream, w.phase.valid);
    CommitExtends(w);
    CommittedProvenance(w, w'.rows, events);
    assert forall k :: 0 <= k < |events| ==> events[k] == w.stream[w.phase.valid[k]].envelope;
    forall i | i in w.acked ensures Recorded(w', i) {
      RecordedStays(w, w', i);
    }
  }

  lemma EventStays(a: seq<Row>, b: seq<Row>, id: string)
    requires a <= b && HasEvent(a, id)
    ensures HasEvent(b, id)
  {
  }

  ghost predicate Within(kept: seq<Row>, rows: seq<Row>) {
    forall r :: r in kept ==> r in rows
  }

  lemma {:induction false} DeletedSplits(rows: seq<Row>, kept: seq<Row>)
    requires Ordered(rows) && Ordered(kept)
    requires Within(kept, rows)
    ensures multiset(rows) == multiset(kept) + multiset(Deleted(rows, kept))
    decreases |rows|
  {
    assert kept == [] || kept[0] in kept;
    if rows != [] {
      var init, last := rows[..|rows| - 1], rows[|rows| - 1];
      InitOrdered(rows);
      InitSplits(rows);
      if last in kept {
        var kept' := kept[..|kept| - 1];
        LastMatches(rows, kept);
        InitOrdered(kept);
        InitSplits(kept);
        DeletedSplits(init, kept');
        DeletedIgnores(init, kept', last);
        SplitWith(multiset(init), multiset(kept'), multiset(Deleted(init, kept')), last);
      } else {
        GoneFromInit(rows, kept);
        DeletedSplits(init, kept);
        assert multiset(Deleted(rows, kept)) == multiset(Deleted(init, kept)) + multiset{last};
      }
    }
  }

  lemma SplitWith(a: multiset<Row>, b: multiset<Row>, c: multiset<Row>, r: Row)
    requires a == b + c
    ensures a + multiset{r} == (b + multiset{r}) + c
  {
  }

  lemma InitOrdered(rows: seq<Row>)
    requires Ordered(rows) && rows != []
    ensures Ordered(rows[..|rows| - 1])
  {
  }

  lemma InitSplits(rows: seq<Row>)
    requires rows != []
    ensures multiset(rows) == multiset(rows[..|rows| - 1]) + multiset{rows[|rows| - 1]}
  {
    assert rows == rows[..|rows| - 1] + [rows[|rows| - 1]];
  }

  lemma GoneFromInit(rows: seq<Row>, kept: seq<Row>)
    requires Within(kept, rows) && rows != [] && rows[|rows| - 1] !in kept
    ensures Within(kept, rows[..|rows| - 1])
  {
  }

  lemma LastMatches(rows: seq<Row>, kept: seq<Row>)
    requires Ordered(rows) && Ordered(kept) && rows != []
    requires Within(kept, rows)
    requires rows[|rows| - 1] in kept
    ensures kept == kept[..|kept| - 1] + [rows[|rows| - 1]]
    ensures Within(kept[..|kept| - 1], rows[..|rows| - 1])
    ensures rows[|rows| - 1] !in rows[..|rows| - 1]
  {
    var init, last := rows[..|rows| - 1], rows[|rows| - 1];
    assert kept[|kept| - 1] in kept;
    assert rows == init + [last];
    forall r | r in kept[..|kept| - 1] ensures r in init {
      assert r in kept;
      assert r.ingestSeq < last.ingestSeq;
    }
  }

  lemma {:induction false} DeletedIgnores(rows: seq<Row>, kept: seq<Row>, extra: Row)
    requires extra !in rows
    ensures Deleted(rows, kept + [extra]) == Deleted(rows, kept)
  {
    if rows != [] {
      DeletedIgnores(rows[..|rows| - 1], kept, extra);
      assert rows[|rows| - 1] in rows;
    }
  }

  lemma EventMoves(rows: seq<Row>, kept: seq<Row>, gone: seq<Row>, id: string)
    requires multiset(rows) == multiset(kept) + multiset(gone) && HasEvent(rows, id)
    ensures HasEvent(kept, id) || HasEvent(gone, id)
  {
    var k :| 0 <= k < |rows| && rows[k].envelope.eventId == id;
    assert rows[k] in multiset(rows);
    if rows[k] in multiset(kept) {
      var m :| 0 <= m < |kept| && kept[m] == rows[k];
    } else {
      assert rows[k] in multiset(gone);
      var m :| 0 <= m < |gone| && gone[m] == rows[k];
    }
  }

  lemma RecordedAfterPrune(w: World, w': World, gone: seq<Row>, i: nat)
    requires Recorded(w, i) && w'.stream == w.stream && w'.removed == w.removed + gone
    requires multiset(w.rows) == multiset(w'.rows) + multiset(gone)
    ensures Recorded(w', i)
  {
    var id := w.stream[i].envelope.eventId;
    if HasEvent(w.removed, id) {
      EventStays(w.removed, w'.removed, id);
    } else {
      EventMoves(w.rows, w'.rows, gone, id);
      if HasEvent(gone, id) {
        var m :| 0 <= m < |gone| && gone[m].envelope.eventId == id;
        assert w'.removed[|w.removed| + m] == gone[m];
      }
    }
  }

  lemma PruneKeeps(w: World, before: int, maxRows: int)
    requires Inv(w)
    ensures Inv(Next(w, Prune(before, maxRows)))
  {
    var w' := Next(w, Prune(before, maxRows));
    var gone := Deleted(w.rows, w'.rows);
    PruneSplits(w.rows, before, maxRows);
    forall i: nat | Recorded(w, i) ensures Recorded(w', i) {
      RecordedAfterPrune(w, w', gone, i);
    }
    assert multiset(w'.removed) == multiset(w.removed) + multiset(gone);
  }

  lemma PruneSplits(rows: seq<Row>, before: int, maxRows: int)
    requires TableOk(rows)
    ensures
      var kept := Pruned(rows, before, maxRows);
      TableOk(kept) && multiset(rows) == multiset(kept) + multiset(Deleted(rows, kept))
  {
    PruneKeepsTheNewest(rows, before, maxRows);
    DeletedSplits(rows, Pruned(rows, before, maxRows));
  }

  lemma StepKeeps(w: World, e: Event)
    requires Inv(w)
    ensures Inv(Next(w, e))
  {
    match e
    case Publish(m) =>
      var w' := Next(w, e);
      assert w.stream <= w'.stream;
      forall i: nat | Recorded(w, i) ensures Recorded(w', i) { assert w'.stream[i] == w.stream[i]; }
    case Commit =>
      if w.phase.Decoding? && w.phase.todo == [] && w.phase.valid != [] {
        CommitKeeps(w);
      }
    case Prune(before, maxRows) =>
      PruneKeeps(w, before, maxRows);
    case _ =>
      var w' := Next(w, e);
      assert w'.stream == w.stream && w'.rows == w.rows && w'.removed == w.removed;
      assert forall i: nat :: Recorded(w, i) ==> Recorded(w', i);
  }

  // ----- whole runs -----

  ghost function After(w: World, run: seq<Event>): World
    decreases |run|
  {
    if run == [] then w else After(Next(w, run[0]), run[1..])
  }

  lemma {:induction false} RunKeeps(w: World, run: seq<Event>)
    requires Inv(w)
    ensures Inv(After(w, run))
    decreases |run|
  {
    if run != [] {
      StepKeeps(w, run[0]);
      RunKeeps(Next(w, run[0]), run[1..]);
    }
  }

  /** Safety of every run: a message is acked only once its event is recorded (in the
      index, or removed from it by a prune); only undecodable messages are terminated;
      no two rows share an event; nothing is indexed that was not published; and every
      row ever inserted is either present or was removed, exactly once. */
  lemma EveryRunIsSafe(run: seq<Event>)
    ensures
      var w := After(START, run);
      && (forall i :: i in w.acked ==>
            i < |w.stream| && w.stream[i].Decodable? &&
            (HasEvent(w.rows, w.stream[i].envelope.eventId) ||
             HasEvent(w.removed, w.stream[i].envelope.eventId)))
      && (forall i :: i in w.terminated ==> i < |w.stream| && w.stream[i].Undecodable?)
      && DistinctEvents(w.rows)
      && (forall r :: r in w.rows ==> Decodable(r.envelope) in w.stream)
      && multiset(w.inserted) == multiset(w.rows) + multiset(w.removed)
  {
    RunKeeps(START, run);
    var w := After(START, run);
    forall i | i in w.acked ensures Recorded(w, i) {}
    forall r | r in w.rows ensures Decodable(r.envelope) in w.stream {
      assert r in multiset(w.rows);
      assert r in multiset(w.inserted);
    }
  }

  /** Stopping anywhere loses nothing: in every state a run can reach, a published
      decodable message can still be fetched, committed and acked, whatever the
      indexer was doing. */
  lemma StoppingLosesNothing(w: World, i: nat)
    requires Inv(w) && i < |w.stream| && w.stream[i].Decodable?
    ensures
      var w' := After(w, [Stop, Fetch([i]), DecodeNext, Commit, Ack(i)]);
      i in w'.acked && HasEvent(w'.rows, w.stream[i].envelope.eventId)
  {
    var decoded := w.(phase := Decoding([], [i]));
    OneMessageRound(w, i);
    assert Inv(decoded);
    CommitKeeps(decoded);
    assert decoded.phase.valid[0] == i;
  }

  lemma OneMessageRound(w: World, i: nat)
    requires i < |w.stream| && w.stream[i].Decodable?
    ensures After(w, [Stop, Fetch([i]), DecodeNext, Commit, Ack(i)])
         == Next(Next(w.(phase := Decoding([], [i])), Commit), Ack(i))
  {
    AfterFive(w, [Stop, Fetch([i]), DecodeNext, Commit, Ack(i)]);
    FetchAndDecode(w, i);
  }

  lemma FetchAndDecode(w: World, i: nat)
    requires i < |w.stream| && w.stream[i].Decodable?
    ensures Next(Next(Next(w, Stop), Fetch([i])), DecodeNext) == w.(phase := Decoding([], [i]))
  {
    var w2 := Next(Next(w, Stop), Fetch([i]));
    assert Published(w.stream, [i]);
    assert w2.phase == Decoding([i], []) && [i][1..] == [] && [] + [i] == [i];
  }

  lemma AfterFive(w: World, run: seq<Event>)
    requires |run| == 5
    ensures After(w, run) == Next(Next(Next(Next(Next(w, run[0]), run[1]), run[2]), run[3]), run[4])
  {
    var w1 := Next(w, run[0]);
    var w2 := Next(w1, run[1]);
    var w3 := Next(w2, run[2]);
    var w4 := Next(w3, run[3]);
    assert run[4..][1..] == [] && run[3..][1..] == run[4..];
    assert run[2..][1..] == run[3..] && run[1..][1..] == run[2..];
    assert After(w4, run[4..]) == Next(w4, run[4]);
    assert After(w2, run[2..]) == After(w3, run[3..]) == After(w4, run[4..]);
    assert After(w, run) == After(w1, run[1..]) == After(w2, run[2..]);
  }

  // ----- what the runs contain -----

  function PublishedBy(run: seq<Event>): seq<Message> {
    if run == [] then []
    else (if run[0].Publish? then [run[0].message] else []) + PublishedBy(run[1..])
  }

  /** The stream is what was published, all of it and in order. */
  lemma {:induction false} StreamIsWhatWasPublished(w: World, run: seq<Event>)
    ensures After(w, run).stream == w.stream + PublishedBy(run)
    decreases |run|
  {
    if run == [] {
      assert w.stream + PublishedBy(run) == w.stream;
    } else {
      var first := if run[0].Publish? then [run[0].message] else [];
      StreamIsWhatWasPublished(Next(w, run[0]), run[1..]);
      StepPublishes(w, run[0]);
      assert w.stream + first + PublishedBy(run[1..]) == w.stream + (first + PublishedBy(run[1..]));
    }
  }

  lemma StepPublishes(w: World, e: Event)
    ensures Next(w, e).stream == w.stream + if e.Publish? then [e.message] else []
  {
  }

  /** The index changes only by a commit, to which the whole decoded batch goes, and by a
      prune, which deletes no row that is within both its bounds. */
  lemma RowsChangeOnlyBy(w: World, e: Event)
    requires TableOk(w.rows)
    ensures !e.Commit? && !e.Prune? ==> Next(w, e).rows == w.rows
    ensures e.Commit? && Next(w, e).rows != w.rows ==>
              w.phase.Decoding? && w.phase.todo == [] && AllDecodable(w.stream, w.phase.valid) &&
              Next(w, e).rows == InsertAll(w.rows, Envelopes(w.stream, w.phase.valid))
    ensures e.Prune? ==>
              forall r :: r in w.rows ==>
                (r in Next(w, e).rows <==>
                   r.envelope.occurredAt >= e.before &&
                   CountNewer(NotOlder(w.rows, e.before), r.ingestSeq) < (if e.maxRows < 1 then 1 else e.maxRows))
  {
    if e.Prune? {
      PruneKeepsTheNewest(w.rows, e.before, e.maxRows);
    }
  }

  // ----- one round as the program runs it -----

  function ValidOf(stream: seq<Message>, batch: seq<nat>): seq<nat>
    requires Published(stream, batch)
  {
    if batch == [] then []
    else
      var rest := ValidOf(stream, batch[1..]);
      if stream[batch[0]].Decodable? then [batch[0]] + rest else rest
  }

  lemma {:induction false} ValidOfExact(stream: seq<Message>, batch: seq<nat>)
    requires Published(stream, batch)
    ensures AllDecodable(stream, ValidOf(stream, batch))
    ensures forall i :: i in ValidOf(stream, batch) <==> i in batch && i < |stream| && stream[i].Decodable?
  {
    if batch != [] {
      ValidOfExact(stream, batch[1..]);
      assert batch == [batch[0]] + batch[1..];
    }
  }

  lemma {:induction false} ValidOfAppend(stream: seq<Message>, batch: seq<nat>, i: nat)
    requires Published(stream, batch) && i < |stream|
    ensures Published(stream, batch + [i])
    ensures ValidOf(stream, batch + [i])
         == ValidOf(stream, batch) + (if stream[i].Decodable? then [i] else [])
  {
    if batch != [] {
      ValidOfAppend(stream, batch[1..], i);
      assert (batch + [i])[1..] == batch[1..] + [i];
    }
  }

  class JetStreamAuditIndexer {
    const index: AuditIndexStore

    constructor (index: AuditIndexStore)
      ensures this.index == index
    {
      this.index := index;
    }

    /** One round over a fetched batch.  The acks go out only after the commit. */
    method ConsumeOnce(stream: seq<Message>, batch: seq<nat>)
      returns (count: Result<nat, IndexError>, acked: seq<nat>, terminated: seq<nat>)
      requires index.Valid()
      requires Published(stream, batch)
      modifies index
      ensures index.Valid()
      ensures forall i :: i in terminated <==> i in batch && i < |stream| && stream[i].Undecodable?
      ensures forall i :: i in acked ==>
                i in batch && i < |stream| && stream[i].Decodable? && HasEvent(index.rows, stream[i].envelope.eventId)
      ensures count.Err? ==> acked == [] && index.rows == old(index.rows)
      ensures count.Ok? ==> acked == ValidOf(stream, batch) && count == Ok(|acked|)
      ensures count.Ok? ==>
                AllDecodable(stream, ValidOf(stream, batch)) &&
                index.rows == InsertAll(old(index.rows), Envelopes(stream, ValidOf(stream, batch)))
    {
      var envelopes: seq<Envelope> := [];
      var valid: seq<nat> := [];
      terminated, acked := [], [];
      for k := 0 to |batch|
        invariant index.rows == old(index.rows)
        invariant Published(stream, batch[..k])
        invariant valid == ValidOf(stream, batch[..k])
        invariant AllDecodable(stream, valid)
        invariant envelopes == Envelopes(stream, valid)
        invariant forall i :: i in terminated <==> i in batch[..k] && i < |stream| && stream[i].Undecodable?
      {
        var i := batch[k];
        assert batch[..k + 1] == batch[..k] + [i];
        ValidOfAppend(stream, batch[..k], i);
        if stream[i].Undecodable? {
          terminated := terminated + [i];
        } else {
          envelopes := envelopes + [stream[i].envelope];
          valid := valid + [i];
        }
      }
      assert batch[..|batch|] == batch;
      ValidOfExact(stream, batch);
      if envelopes == [] {
        return Ok(0), [], terminated;
      }
      IngestExtends(index.rows, envelopes);
      var inserted := index.Ingest(envelopes);
      if inserted.Err? {
        return Err(inserted.error), [], terminated;
      }
      acked := valid;
      forall i | i in acked ensures HasEvent(index.rows, stream[i].envelope.eventId) {
        var k :| 0 <= k < |valid| && valid[k] == i;
        assert envelopes[k] in envelopes;
      }
      count := Ok(|envelopes|);
    }
  }

  /** An uninterrupted round of the state machine is `ConsumeOnce`: after decoding a
      whole batch exactly its decodable messages, in order, are due for the commit,
      exactly the others are terminated, and nothing else has changed. */
  lemma {:induction false} DecodingIsTheLoop(w: World, run: seq<Event>)
    requires w.phase.Decoding? && Published(w.stream, w.phase.todo)
    requires run == seq(|w.phase.todo|, _ => DecodeNext)
    ensures
      var w' := After(w, run);
      && w'.phase == Decoding([], w.phase.valid + ValidOf(w.stream, w.phase.todo))
      && w'.rows == w.rows && w'.stream == w.stream && w'.acked == w.acked
      && (forall i :: i in w'.terminated <==>
            i in w.terminated || (i in w.phase.todo && i < |w.stream| && w.stream[i].Undecodable?))
    decreases |w.phase.todo|
  {
    var todo, valid := w.phase.todo, w.phase.valid;
    if todo == [] {
      assert run == [];
    } else {
      var w1 := Next(w, DecodeNext);
      DecodingIsTheLoop(w1, run[1..]);
      assert todo == [todo[0]] + todo[1..];
      assert w1.phase.valid + ValidOf(w.stream, todo[1..]) == valid + ValidOf(w.stream, todo);
    }
  }
}
