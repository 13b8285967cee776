/**
  A reader that resumes from the last sequence it received, against an index that
  is ingested into and pruned meanwhile
  (`tail_for_owner`, server/eidolon_admin_server/audit/index.py).

  The index's documentation says a sequence number is never reused.  The engine
  allocates the largest present plus one, so that holds exactly as long as no
  prune deletes the newest row.  What holds of every run is stated without that
  condition; what needs it is stated on it, and the condition is shown to be exact.
 */
module AuditReader {
  import opened Outcomes
  import opened AuditIndex

  datatype View = View(
    rows: seq<Row>,
    log: seq<Row>,        // every row ever inserted, in order
    owner: string,
    cursor: int,
    received: seq<Row>,
    lost: set<Row>,       // the Owner's rows pruned before the reader reached them
    hidden: set<Row>)     // the Owner's rows inserted under a number the reader had passed

  datatype Event =
    | Ingest(events: seq<Envelope>)
    | Prune(before: int, maxRows: int)
    | Read(limit: nat)

  function Open(owner: string): View {
    View([], [], owner, 0, [], {}, {})
  }

  predicate Concerns(v: View, r: Row) {
    r.envelope.ownerId == Some(v.owner)
  }

  ghost function Next(v: View, e: Event): View {
    match e
    case Ingest(events) =>
      var rows' := InsertAll(v.rows, events);
      var added := if |v.rows| <= |rows'| then rows'[|v.rows|..] else [];
      v.(rows := rows', log := v.log + added,
         hidden := v.hidden + set r | r in added && Concerns(v, r) && r.ingestSeq <= v.cursor)
    case Prune(before, maxRows) =>
      var kept := Pruned(v.rows, before, maxRows);
      v.(rows := kept,
         lost := v.lost + set r | r in v.rows && r !in kept && Concerns(v, r) && r.ingestSeq > v.cursor)
    case Read(limit) =>
      var page := TailForOwner(v.rows, v.owner, Some(v.cursor), limit);
      v.(received := v.received + page,
         cursor := if page == [] then v.cursor else page[|page| - 1].ingestSeq)
  }

  ghost function After(v: View, run: seq<Event>): View
    decreases |run|
  {
    if run == [] then v else After(Next(v, run[0]), run[1..])
  }

  /** The newest row is not older than the age bound: what a caller checks before a prune. */
  predicate NewestSurvives(rows: seq<Row>, before: int) {
    rows == [] || rows[|rows| - 1].envelope.occurredAt >= before
  }

  ghost predicate PrunesKeepTheNewest(v: View, run: seq<Event>)
    decreases |run|
  {
    run != [] ==>
      && (run[0].Prune? ==> NewestSurvives(v.rows, run[0].before))
      && PrunesKeepTheNewest(Next(v, run[0]), run[1..])
  }

  function HighWater(v: View): int {
    if v.log == [] then 0 else v.log[|v.log| - 1].ingestSeq
  }

  ghost predicate TableInv(v: View) {
    && TableOk(v.rows)
    && Ordered(v.log)
    && (forall r :: r in v.log ==> r.ingestSeq > 0)
    && (forall r :: r in v.rows ==> r in v.log)
    && (if v.log == [] then v.rows == [] else v.rows != [] && v.rows[|v.rows| - 1] == v.log[|v.log| - 1])
    && 0 <= v.cursor <= HighWater(v)
  }

  ghost predicate ReaderInv(v: View) {
    && Ordered(v.received)
    && (forall r :: r in v.received ==> r in v.log && Concerns(v, r) && r.ingestSeq <= v.cursor)
    && (forall r :: r in v.log && Concerns(v, r) && r.ingestSeq <= v.cursor ==>
          (r in v.received <==> r !in v.lost))
    && (forall r :: r in v.log && Concerns(v, r) && r.ingestSeq > v.cursor ==> r in v.rows || r in v.lost)
    && (forall r :: r in v.lost ==> r in v.log && r !in v.rows)
    && v.hidden == {}
  }

  /** Row ids start at one. */
  ghost predicate Numbered(rows: seq<Row>) {
    forall k :: 0 <= k < |rows| ==> rows[k].ingestSeq >= 1
  }

  /** What holds whatever prunes delete: rows arrive in order, and each of the Owner's
      rows was received, or lost to a prune, or hidden, or is still to come. */
  ghost predicate Accounted(v: View) {
    && TableOk(v.rows) && Numbered(v.rows)
    && Ordered(v.received)
    && (forall r :: r in v.rows ==> r in v.log)
    && (forall r :: r in v.received ==> r in v.log && Concerns(v, r) && r.ingestSeq <= v.cursor)
    && (forall r :: r in v.log && Concerns(v, r) ==>
          r in v.received || r in v.lost || r in v.hidden || (r in v.rows && r.ingestSeq > v.cursor))
  }

  // ----- each step -----

  lemma AppendOrdered(log: seq<Row>, added: seq<Row>, top: int)
    requires Ordered(log) && Ordered(added)
    requires forall k :: 0 <= k < |log| ==> log[k].ingestSeq <= top
    requires forall k :: 0 <= k < |added| ==> added[k].ingestSeq > top
    ensures Ordered(log + added)
  {
  }

  lemma BelowHighWater(v: View)
    requires Ordered(v.log)
    ensures forall k :: 0 <= k < |v.log| ==> v.log[k].ingestSeq <= HighWater(v)
  {
  }

  lemma IngestAppends(rows: seq<Row>, events: seq<Envelope>) returns (added: seq<Row>)
    requires TableOk(rows)
    ensures TableOk(rows + added) && Ordered(added)
    ensures InsertAll(rows, events) == rows + added
    ensures forall k :: 0 <= k < |added| ==> added[k].ingestSeq >= NextSeq(rows)
  {
    IngestExtends(rows, events);
    var rows' := InsertAll(rows, events);
    added := rows'[|rows|..];
    assert rows' == rows + added;
    assert forall k :: 0 <= k < |added| ==> added[k] == rows'[|rows| + k];
  }

  lemma IngestKeeps(v: View, events: seq<Envelope>)
    requires TableInv(v) && ReaderInv(v)
    ensures TableInv(Next(v, Ingest(events))) && ReaderInv(Next(v, Ingest(events)))
  {
    var added := IngestAppends(v.rows, events);
    assert NextSeq(v.rows) == HighWater(v) + 1;
    IngestedView(v, events, added);
    var v' := v.(rows := v.rows + added, log := v.log + added);
    IngestKeepsTable(v, v', added);
    IngestKeepsReader(v, v', added);
  }

  lemma IngestedView(v: View, events: seq<Envelope>, added: seq<Row>)
    requires InsertAll(v.rows, events) == v.rows + added
    requires forall k :: 0 <= k < |added| ==> added[k].ingestSeq > v.cursor
    ensures Next(v, Ingest(events)) == v.(rows := v.rows + added, log := v.log + added)
  {
    assert (v.rows + added)[|v.rows|..] == added;
    assert (set r | r in added && Concerns(v, r) && r.ingestSeq <= v.cursor) == {};
  }

  lemma IngestKeepsTable(v: View, v': View, added: seq<Row>)
    requires TableInv(v) && Ordered(added) && TableOk(v.rows + added)
    requires v' == v.(rows := v.rows + added, log := v.log + added)
    requires forall k :: 0 <= k < |added| ==> added[k].ingestSeq > HighWater(v)
    ensures TableInv(v')
  {
  }

  lemma IngestKeepsReader(v: View, v': View, added: seq<Row>)
    requires TableInv(v) && ReaderInv(v)
    requires v' == v.(rows := v.rows + added, log := v.log + added)
    requires forall k :: 0 <= k < |added| ==> added[k].ingestSeq > HighWater(v)
    ensures ReaderInv(v')
  {
    BelowHighWater(v);
    assert forall r :: r in added ==> r.ingestSeq > v.cursor;
    assert forall r :: r in v.log ==> r.ingestSeq <= HighWater(v);
  }

  lemma PruneKeepsLast(rows: seq<Row>, before: int, maxRows: int)
    requires TableOk(rows) && rows != [] && NewestSurvives(rows, before)
    ensures Pruned(rows, before, maxRows) != []
    ensures Pruned(rows, before, maxRows)[|Pruned(rows, before, maxRows)| - 1] == rows[|rows| - 1]
  {
  }

  lemma PruneSubset(rows: seq<Row>, before: int, maxRows: int)
    requires TableOk(rows)
    ensures TableOk(Pruned(rows, before, maxRows))
    ensures forall r :: r in Pruned(rows, before, maxRows) ==> r in rows && r.envelope.occurredAt >= before
  {
    PruneKeepsTheNewest(rows, before, maxRows);
  }

  lemma PruneKeepsTable(v: View, v': View, before: int, maxRows: int)
    requires TableInv(v) && NewestSurvives(v.rows, before)
    requires v' == v.(rows := Pruned(v.rows, before, maxRows), lost := v'.lost)
    ensures TableInv(v')
  {
    PruneSubset(v.rows, before, maxRows);
    if v.rows != [] {
      PruneKeepsLast(v.rows, before, maxRows);
    }
  }

  lemma PruneKeeps(v: View, before: int, maxRows: int)
    requires TableInv(v) && ReaderInv(v) && NewestSurvives(v.rows, before)
    ensures TableInv(Next(v, Prune(before, maxRows))) && ReaderInv(Next(v, Prune(before, maxRows)))
  {
    var v' := Next(v, Prune(before, maxRows));
    PruneKeepsTable(v, v', before, maxRows);
    PruneSubset(v.rows, before, maxRows);
    PruneKeepsReader(v, v', Pruned(v.rows, before, maxRows));
  }

  lemma PruneKeepsReader(v: View, v': View, kept: seq<Row>)
    requires ReaderInv(v)
    requires forall r :: r in kept ==> r in v.rows
    requires forall r :: r in v.rows ==> r in v.log
    requires v' == v.(rows := kept,
                      lost := v.lost + set r | r in v.rows && r !in kept && Concerns(v, r) && r.ingestSeq > v.cursor)
    ensures ReaderInv(v')
  {
  }

  /** What a page holds: the Owner's rows after the cursor up to the page's last sequence, all of them. */
  ghost predicate IsPage(v: View, page: seq<Row>) {
    && Ordered(page)
    && (forall r :: r in page ==> r in v.rows && Concerns(v, r) && r.ingestSeq > v.cursor)
    && (page != [] ==>
          forall r | r in v.rows && Concerns(v, r) && v.cursor < r.ingestSeq <= page[|page| - 1].ingestSeq ::
            r in page)
  }

  lemma PageExact(v: View, limit: nat)
    requires Ordered(v.rows)
    ensures IsPage(v, TailForOwner(v.rows, v.owner, Some(v.cursor), limit))
  {
    OwnerRowsExact(v.rows, v.owner, v.cursor);
    var scan := OwnerRows(v.rows, v.owner, v.cursor);
    var page := TailForOwner(v.rows, v.owner, Some(v.cursor), limit);
    assert page <= scan;
    forall r | page != [] && r in scan && r.ingestSeq <= page[|page| - 1].ingestSeq ensures r in page {
      var k :| 0 <= k < |scan| && scan[k] == r;
      assert k < |page|;
      assert page[k] == r;
    }
  }

  lemma ReadKeeps(v: View, limit: nat)
    requires TableInv(v) && ReaderInv(v)
    ensures TableInv(Next(v, Read(limit))) && ReaderInv(Next(v, Read(limit)))
  {
    var page := TailForOwner(v.rows, v.owner, Some(v.cursor), limit);
    PageExact(v, limit);
    if page == [] {
      assert v.received + page == v.received;
    } else {
      var top := page[|page| - 1];
      assert top in page;
      BelowHighWater(v);
      assert top in v.log;
      ReadKeepsReader(v, Next(v, Read(limit)), page);
    }
  }

  lemma ReadKeepsReader(v: View, v': View, page: seq<Row>)
    requires ReaderInv(v) && IsPage(v, page) && page != []
    requires forall r :: r in v.rows ==> r in v.log
    requires v' == v.(received := v.received + page, cursor := page[|page| - 1].ingestSeq)
    ensures ReaderInv(v')
  {
    assert forall k :: 0 <= k < |v.received| ==> v.received[k] in v.received;
    assert forall k :: 0 <= k < |page| ==> page[k] in page;
    AppendOrdered(v.received, page, v.cursor);
    assert forall r :: r in page ==> r.ingestSeq <= v'.cursor;
  }

  lemma {:induction false} RunKeeps(v: View, run: seq<Event>)
    requires TableInv(v) && ReaderInv(v) && PrunesKeepTheNewest(v, run)
    ensures TableInv(After(v, run)) && ReaderInv(After(v, run)) && After(v, run).owner == v.owner
    decreases |run|
  {
    if run != [] {
      match run[0] {
        case Ingest(events) => IngestKeeps(v, events);
        case Prune(before, maxRows) => PruneKeeps(v, before, maxRows);
        case Read(limit) => ReadKeeps(v, limit);
      }
      RunKeeps(Next(v, run[0]), run[1..]);
    }
  }

  /** A read delivers the Owner's rows ahead of the cursor, oldest first, up to the limit,
      and moves the cursor to the last of them. */
  lemma ReadDelivers(v: View, limit: nat)
    ensures
      var ahead, v' := OwnerRows(v.rows, v.owner, v.cursor), Next(v, Read(limit));
      var n := if limit < |ahead| then limit else |ahead|;
      && v'.received == v.received + ahead[..n] && v'.rows == v.rows
      && v'.cursor == (if n == 0 then v.cursor else ahead[n - 1].ingestSeq)
  {
    var ahead := OwnerRows(v.rows, v.owner, v.cursor);
    var page := TailForOwner(v.rows, v.owner, Some(v.cursor), limit);
    PageIsBounded(v.rows, v.owner, v.cursor, limit);
    assert page == ahead[..|page|];
  }

  // ----- whatever prunes delete -----

  lemma IngestAccounts(v: View, events: seq<Envelope>)
    requires Accounted(v)
    ensures Accounted(Next(v, Ingest(events)))
  {
    var added := IngestAppends(v.rows, events);
    assert (v.rows + added)[|v.rows|..] == added;
    AddedAccounts(v, Next(v, Ingest(events)), added);
  }

  lemma AddedAccounts(v: View, v': View, added: seq<Row>)
    requires Accounted(v) && TableOk(v.rows + added)
    requires forall k :: 0 <= k < |added| ==> added[k].ingestSeq >= NextSeq(v.rows)
    requires v' == v.(rows := v.rows + added, log := v.log + added, hidden := v'.hidden)
    requires v'.hidden == v.hidden + set r | r in added && Concerns(v, r) && r.ingestSeq <= v.cursor
    ensures Accounted(v')
  {
    forall r | r in v'.log && Concerns(v', r)
      ensures r in v'.received || r in v'.lost || r in v'.hidden || (r in v'.rows && r.ingestSeq > v'.cursor)
    {
      if r !in v.log { assert r in added; }
    }
    assert NextSeq(v.rows) >= 1;
    assert forall k :: 0 <= k < |v'.rows| ==> k < |v.rows| || v'.rows[k] == added[k - |v.rows|];
  }

  lemma PruneAccounts(v: View, before: int, maxRows: int)
    requires Accounted(v)
    ensures Accounted(Next(v, Prune(before, maxRows)))
  {
    PruneSubset(v.rows, before, maxRows);
    var kept := Pruned(v.rows, before, maxRows);
    assert forall k :: 0 <= k < |kept| ==> kept[k] in kept;
  }

  lemma ReadAccounts(v: View, limit: nat)
    requires Accounted(v)
    ensures Accounted(Next(v, Read(limit)))
  {
    var page := TailForOwner(v.rows, v.owner, Some(v.cursor), limit);
    PageExact(v, limit);
    if page == [] {
      assert v.received + page == v.received;
    } else {
      PageAccounts(v, Next(v, Read(limit)), page);
    }
  }

  lemma PageAccounts(v: View, v': View, page: seq<Row>)
    requires Accounted(v) && IsPage(v, page) && page != []
    requires v' == v.(received := v.received + page, cursor := page[|page| - 1].ingestSeq)
    ensures Accounted(v')
  {
    assert forall k :: 0 <= k < |v.received| ==> v.received[k] in v.received;
    assert forall k :: 0 <= k < |page| ==> page[k] in page;
    AppendOrdered(v.received, page, v.cursor);
  }

  lemma StepAccounts(v: View, e: Event)
    requires Accounted(v)
    ensures Accounted(Next(v, e)) && Next(v, e).owner == v.owner
  {
    match e
    case Ingest(events) => IngestAccounts(v, events);
    case Prune(before, maxRows) => PruneAccounts(v, before, maxRows);
    case Read(limit) => ReadAccounts(v, limit);
  }

  lemma {:induction false} RunAccounts(v: View, run: seq<Event>)
    requires Accounted(v)
    ensures Accounted(After(v, run)) && After(v, run).owner == v.owner
    decreases |run|
  {
    if run != [] {
      StepAccounts(v, run[0]);
      RunAccounts(Next(v, run[0]), run[1..]);
    }
  }

  /** Every run, with no condition on its prunes: the reader receives its Owner's rows in
      strictly increasing order, so none twice, and each row ever inserted for the
      Owner was received, or pruned before the reader reached it, or inserted under a
      number the reader had already passed, or is still ahead of it in the index. */
  lemma EveryMissIsAccountedFor(owner: string, run: seq<Event>)
    ensures
      var v := After(Open(owner), run);
      && Ordered(v.received)
      && (forall r :: r in v.received ==> r in v.log && r.envelope.ownerId == Some(owner))
      && (forall r :: r in v.log && r.envelope.ownerId == Some(owner) ==>
            r in v.received || r in v.lost || r in v.hidden || (r in v.rows && r.ingestSeq > v.cursor))
  {
    RunAccounts(Open(owner), run);
  }

  // ----- whole runs -----

  /** In every run whose prunes keep the newest row: sequence numbers are never
      reused; the reader receives its Owner's rows in strictly increasing order, so
      no row twice; and of the Owner's rows up to its cursor it received exactly
      those no prune removed before it reached them. */
  lemma ResumedReaderMissesOnlyPrunedRows(owner: string, run: seq<Event>)
    requires PrunesKeepTheNewest(Open(owner), run)
    ensures
      var v := After(Open(owner), run);
      && Ordered(v.log)
      && Ordered(v.received)
      && (forall r :: r in v.received ==> r in v.log && r.envelope.ownerId == Some(owner))
      && (forall r :: r in v.log && r.envelope.ownerId == Some(owner) && r.ingestSeq <= v.cursor ==>
            (r in v.received <==> r !in v.lost))
      && v.hidden == {}
  {
    RunKeeps(Open(owner), run);
  }

  /** The allocator after a prune: the next sequence number is new exactly when the newest row survived. */
  lemma FreshExactlyWhenTheNewestSurvives(rows: seq<Row>, before: int, maxRows: int)
    requires TableOk(rows) && rows != [] && rows[0].ingestSeq >= 1
    ensures NextSeq(Pruned(rows, before, maxRows)) > rows[|rows| - 1].ingestSeq <==> NewestSurvives(rows, before)
    ensures forall k :: 0 <= k < |Pruned(rows, before, maxRows)| ==>
              Pruned(rows, before, maxRows)[k].ingestSeq <= rows[|rows| - 1].ingestSeq
  {
    var kept, newest := Pruned(rows, before, maxRows), rows[|rows| - 1];
    PruneSubset(rows, before, maxRows);
    forall k | 0 <= k < |kept|
      ensures kept[k].ingestSeq <= newest.ingestSeq
      ensures kept[k] != newest ==> kept[k].ingestSeq < newest.ingestSeq
    {
      assert kept[k] in kept;
    }
    if NewestSurvives(rows, before) {
      PruneKeepsLast(rows, before, maxRows);
    } else {
      assert newest !in kept;
      assert kept != [] ==> kept[|kept| - 1] in kept;
    }
  }

  /** What a caller checks before a prune on behalf of a reader: some row numbered at or
      past its cursor is not older than the bound, whoever owns it. */
  predicate KeepsTheCursor(rows: seq<Row>, before: int, cursor: int) {
    cursor < 1 || exists k :: 0 <= k < |rows| && rows[k].ingestSeq >= cursor && rows[k].envelope.occurredAt >= before
  }

  /** The last row not older than the bound survives any row bound. */
  lemma LastNotOlderSurvives(rows: seq<Row>, before: int, maxRows: int)
    requires TableOk(rows)
    ensures
      var kept, all := Pruned(rows, before, maxRows), NotOlder(rows, before);
      (kept == [] <==> all == []) && (all != [] ==> kept[|kept| - 1] == all[|all| - 1])
  {
  }

  lemma NumberPassesExactly(rows: seq<Row>, before: int, maxRows: int, cursor: int)
    requires TableOk(rows) && Numbered(rows)
    ensures NextSeq(Pruned(rows, before, maxRows)) > cursor <==> KeepsTheCursor(rows, before, cursor)
  {
    var all := NotOlder(rows, before);
    NotOlderKeeps(rows, before);
    LastNotOlderSurvives(rows, before, maxRows);
    if all != [] {
      assert all[|all| - 1] in all;
      var last :| 0 <= last < |rows| && rows[last] == all[|all| - 1];
      assert forall k :: 0 <= k < |rows| && rows[k].envelope.occurredAt >= before ==> rows[k] in all;
      assert forall k :: 0 <= k < |all| ==> all[k].ingestSeq <= all[|all| - 1].ingestSeq;
    } else {
      assert forall k :: 0 <= k < |rows| ==> rows[k] !in all;
    }
  }

  /** After a prune, a reader at any cursor is shown the next event exactly when the prune
      kept a row numbered at or past that cursor. */
  lemma ShownExactlyWhenTheCursorIsKept(
    rows: seq<Row>, before: int, maxRows: int, owner: string, cursor: int, e: Envelope)
    requires TableOk(rows) && Numbered(rows)
    requires e.ownerId == Some(owner) && !HasEvent(Pruned(rows, before, maxRows), e.eventId)
    ensures
      var seen := OwnerRows(InsertAll(Pruned(rows, before, maxRows), [e]), owner, cursor);
      (exists r :: r in seen && r.envelope == e) <==> KeepsTheCursor(rows, before, cursor)
  {
    PruneSubset(rows, before, maxRows);
    ReachedByCursor(Pruned(rows, before, maxRows), e, owner, cursor);
    NumberPassesExactly(rows, before, maxRows, cursor);
  }

  lemma ReachedByCursor(kept: seq<Row>, e: Envelope, owner: string, cursor: int)
    requires TableOk(kept) && !HasEvent(kept, e.eventId) && e.ownerId == Some(owner)
    ensures (exists r :: r in OwnerRows(InsertAll(kept, [e]), owner, cursor) && r.envelope == e)
              <==> NextSeq(kept) > cursor
  {
    var row := Row(NextSeq(kept), e);
    assert [e][..0] == [];
    assert InsertAll(kept, [e]) == Insert(kept, e) == kept + [row];
    NextIsAbove(kept);
    SnocOk(kept, row);
    OwnerRowsExact(kept + [row], owner, cursor);
    assert row in kept + [row];
    assert forall k :: 0 <= k < |kept| ==> kept[k].envelope.eventId != e.eventId;
  }

  /** In particular a reader whose own last row is the newest of the table is shown the
      next event exactly when the prune keeps that row. */
  lemma CursorSurvivesExactlyWhenTheNewestDoes(rows: seq<Row>, before: int, maxRows: int, owner: string, e: Envelope)
    requires TableOk(rows) && rows != [] && Numbered(rows)
    requires e.ownerId == Some(owner) && !HasEvent(Pruned(rows, before, maxRows), e.eventId)
    ensures
      var after := InsertAll(Pruned(rows, before, maxRows), [e]);
      var seen := OwnerRows(after, owner, rows[|rows| - 1].ingestSeq);
      (exists r :: r in seen && r.envelope == e) <==> NewestSurvives(rows, before)
  {
    var newest := rows[|rows| - 1];
    ShownExactlyWhenTheCursorIsKept(rows, before, maxRows, owner, newest.ingestSeq, e);
    assert forall k :: 0 <= k < |rows| && rows[k].ingestSeq >= newest.ingestSeq ==> k == |rows| - 1;
  }

  // ----- runs whose prunes keep the reader's cursor -----

  ghost predicate PrunesKeepTheCursor(v: View, run: seq<Event>)
    decreases |run|
  {
    run != [] ==>
      && (run[0].Prune? ==> KeepsTheCursor(v.rows, run[0].before, v.cursor))
      && PrunesKeepTheCursor(Next(v, run[0]), run[1..])
  }

  lemma StepKeepsTheCursor(v: View, e: Event)
    requires Accounted(v) && v.hidden == {} && NextSeq(v.rows) > v.cursor
    requires e.Prune? ==> KeepsTheCursor(v.rows, e.before, v.cursor)
    ensures Next(v, e).hidden == {} && NextSeq(Next(v, e).rows) > Next(v, e).cursor
  {
    match e
    case Ingest(events) =>
      AuditIndex.IngestKeepsTable(v.rows, events);
      var added := IngestAppends(v.rows, events);
      assert (v.rows + added)[|v.rows|..] == added;
    case Prune(before, maxRows) => NumberPassesExactly(v.rows, before, maxRows, v.cursor);
    case Read(limit) =>
      PageExact(v, limit);
      var page := TailForOwner(v.rows, v.owner, Some(v.cursor), limit);
      NextIsAbove(v.rows);
      if page != [] {
        assert page[|page| - 1] in page;
      }
  }

  lemma {:induction false} NothingHidden(v: View, run: seq<Event>)
    requires Accounted(v) && v.hidden == {} && NextSeq(v.rows) > v.cursor && PrunesKeepTheCursor(v, run)
    ensures After(v, run).hidden == {}
    decreases |run|
  {
    if run != [] {
      StepKeepsTheCursor(v, run[0]);
      StepAccounts(v, run[0]);
      NothingHidden(Next(v, run[0]), run[1..]);
    }
  }

  /** In every run whose prunes each keep some row at or past the reader's cursor, the
      reader misses only rows pruned before it reached them. */
  lemma KeptCursorMissesOnlyPrunedRows(owner: string, run: seq<Event>)
    requires PrunesKeepTheCursor(Open(owner), run)
    ensures
      var v := After(Open(owner), run);
      && Ordered(v.received)
      && (forall r :: r in v.log && r.envelope.ownerId == Some(owner) ==>
            r in v.received || r in v.lost || (r in v.rows && r.ingestSeq > v.cursor))
  {
    EveryMissIsAccountedFor(owner, run);
    NothingHidden(Open(owner), run);
  }

  /** The newest row may go without harm: deleting another Owner's newer row hides
      nothing from a reader whose own last row stays. */
  lemma AnothersRowMayGo()
    ensures
      var mine, theirs := Envelope("a", Some("me"), 10, ""), Envelope("b", Some("other"), 0, "");
      var rows := [Row(1, mine), Row(2, theirs)];
      TableOk(rows) && !NewestSurvives(rows, 5) && KeepsTheCursor(rows, 5, 1)
  {
    var mine, theirs := Envelope("a", Some("me"), 10, ""), Envelope("b", Some("other"), 0, "");
    var rows := [Row(1, mine), Row(2, theirs)];
    assert rows[0].ingestSeq >= 1 && rows[0].envelope.occurredAt >= 5;
    assert "a"[0] != "b"[0];
  }

  /** The reuse is reachable: an event that arrives already older than the retention
      bound is indexed, read and pruned; the next event takes its number and the
      reader is never shown it, although no prune removed it. */
  lemma ReusedSequenceHidesAnEvent(owner: string)
    ensures
      var stale, late := Envelope("e1", Some(owner), 0, ""), Envelope("e2", Some(owner), 10, "");
      var v := After(Open(owner), [Ingest([stale]), Read(200), Prune(5, 200000), Ingest([late]), Read(200)]);
      v.rows == [Row(1, late)] && v.received == [Row(1, stale)] && v.lost == {} && v.hidden == {Row(1, late)}
  {
    var stale, late := Envelope("e1", Some(owner), 0, ""), Envelope("e2", Some(owner), 10, "");
    AfterFive(Open(owner), Ingest([stale]), Read(200), Prune(5, 200000), Ingest([late]), Read(200));
    ReadsTheOnlyEvent(owner, stale);
    LosesTheOnlyEvent(owner, stale);
    MissesTheNextEvent(owner, stale, late);
  }

  lemma ReadsTheOnlyEvent(owner: string, e: Envelope)
    requires e.ownerId == Some(owner)
    ensures Next(Next(Open(owner), Ingest([e])), Read(200))
         == View([Row(1, e)], [Row(1, e)], owner, 1, [Row(1, e)], {}, {})
  {
    OneRow(owner, e);
    var v1 := Next(Open(owner), Ingest([e]));
    assert v1 == View([Row(1, e)], [Row(1, e)], owner, 0, [], {}, {});
  }

  lemma LosesTheOnlyEvent(owner: string, e: Envelope)
    requires e.ownerId == Some(owner) && e.occurredAt < 5
    ensures Next(View([Row(1, e)], [Row(1, e)], owner, 1, [Row(1, e)], {}, {}), Prune(5, 200000))
         == View([], [Row(1, e)], owner, 1, [Row(1, e)], {}, {})
  {
    OneRow(owner, e);
  }

  lemma MissesTheNextEvent(owner: string, read: Envelope, e: Envelope)
    requires e.ownerId == Some(owner)
    ensures Next(Next(View([], [Row(1, read)], owner, 1, [Row(1, read)], {}, {}), Ingest([e])), Read(200))
         == View([Row(1, e)], [Row(1, read), Row(1, e)], owner, 1, [Row(1, read)], {}, {Row(1, e)})
  {
    OneRow(owner, e);
    assert [Row(1, read)] + [Row(1, e)] == [Row(1, read), Row(1, e)];
  }

  lemma OneRow(owner: string, e: Envelope)
    requires e.ownerId == Some(owner)
    ensures InsertAll([], [e]) == [Row(1, e)]
    ensures OwnerRows([Row(1, e)], owner, 0) == [Row(1, e)] && OwnerRows([Row(1, e)], owner, 1) == []
    ensures e.occurredAt < 5 ==> NotOlder([Row(1, e)], 5) == []
  {
  }

  lemma AfterFive(v: View, a: Event, b: Event, c: Event, d: Event, e: Event)
    ensures After(v, [a, b, c, d, e]) == Next(Next(Next(Next(Next(v, a), b), c), d), e)
  {
    var run := [a, b, c, d, e];
    assert run[4..][1..] == [] && run[3..][1..] == run[4..] && run[2..][1..] == run[3..] && run[1..][1..] == run[2..];
    var v1 := Next(v, a);
    var v2 := Next(v1, b);
    var v3 := Next(v2, c);
    var v4 := Next(v3, d);
    assert After(v, run) == After(v1, run[1..]) == After(v2, run[2..]);
    assert After(v2, run[2..]) == After(v3, run[3..]) == After(v4, run[4..]);
    assert After(v4, run[4..]) == Next(v4, e);
  }
}
