/**
  The audit index: a deduplicating, totally ordered, bounded projection
  (server/eidolon_admin_server/audit/index.py).

  The table is the sequence of its rows by ascending `ingestSeq`.  The engine
  allocates a row id as one more than the largest one present: the column is
  declared `autoincrement=True`, which on SQLite emits a plain rowid key and
  not the AUTOINCREMENT keyword.
 */
module AuditIndex {
  import opened Outcomes

  datatype Envelope = Envelope(eventId: string, ownerId: Option<string>, occurredAt: int, body: string)

  datatype Row = Row(ingestSeq: int, envelope: Envelope)

  datatype IndexError = ReadOnlyClient

  // ----- the table and its invariant -----

  ghost predicate Ordered(rows: seq<Row>) {
    forall i, j :: 0 <= i < j < |rows| ==> rows[i].ingestSeq < rows[j].ingestSeq
  }

  ghost predicate DistinctEvents(rows: seq<Row>) {
    forall i, j :: 0 <= i < j < |rows| ==> rows[i].envelope.eventId != rows[j].envelope.eventId
  }

  ghost predicate TableOk(rows: seq<Row>) {
    Ordered(rows) && DistinctEvents(rows)
  }

  predicate HasEvent(rows: seq<Row>, eventId: string) {
    exists i :: 0 <= i < |rows| && rows[i].envelope.eventId == eventId
  }

  // ----- ingest -----

  function NextSeq(rows: seq<Row>): int {
    if rows == [] then 1 else rows[|rows| - 1].ingestSeq + 1
  }

  function Insert(rows: seq<Row>, e: Envelope): seq<Row> {
    if HasEvent(rows, e.eventId) then rows else rows + [Row(NextSeq(rows), e)]
  }

  function InsertAll(rows: seq<Row>, events: seq<Envelope>): seq<Row> {
    if events == [] then rows else Insert(InsertAll(rows, events[..|events| - 1]), events[|events| - 1])
  }

  ghost predicate AllBelow(rows: seq<Row>, s: int) {
    forall k :: 0 <= k < |rows| ==> rows[k].ingestSeq < s
  }

  ghost predicate NoneIs(rows: seq<Row>, eventId: string) {
    forall k :: 0 <= k < |rows| ==> rows[k].envelope.eventId != eventId
  }

  /** A table grows by a row with a larger sequence and a new event. */
  lemma SnocOk(rows: seq<Row>, r: Row)
    requires TableOk(rows) && AllBelow(rows, r.ingestSeq) && NoneIs(rows, r.envelope.eventId)
    ensures TableOk(rows + [r])
  {
  }

  lemma InitOk(rows: seq<Row>)
    requires TableOk(rows) && rows != []
    ensures TableOk(rows[..|rows| - 1])
    ensures AllBelow(rows[..|rows| - 1], rows[|rows| - 1].ingestSeq)
    ensures NoneIs(rows[..|rows| - 1], rows[|rows| - 1].envelope.eventId)
  {
  }

  lemma NextIsAbove(rows: seq<Row>)
    requires Ordered(rows)
    ensures AllBelow(rows, NextSeq(rows))
  {
  }

  lemma {:induction false} IngestKeepsTable(rows: seq<Row>, events: seq<Envelope>)
    requires TableOk(rows)
    ensures TableOk(InsertAll(rows, events)) && rows <= InsertAll(rows, events)
    ensures NextSeq(InsertAll(rows, events)) >= NextSeq(rows)
    decreases |events|
  {
    if events != [] {
      IngestKeepsTable(rows, events[..|events| - 1]);
      var mid := InsertAll(rows, events[..|events| - 1]);
      if !HasEvent(mid, events[|events| - 1].eventId) {
        NextIsAbove(mid);
        SnocOk(mid, Row(NextSeq(mid), events[|events| - 1]));
      }
    }
  }

  lemma {:induction false} IngestRecords(rows: seq<Row>, events: seq<Envelope>, k: nat)
    requires k < |events|
    ensures HasEvent(InsertAll(rows, events), events[k].eventId)
    decreases |events|
  {
    var mid, last := InsertAll(rows, events[..|events| - 1]), events[|events| - 1];
    var out := Insert(mid, last);
    if k == |events| - 1 {
      assert HasEvent(mid, last.eventId) || out[|mid|].envelope.eventId == last.eventId;
    } else {
      IngestRecords(rows, events[..|events| - 1], k);
      var i :| 0 <= i < |mid| && mid[i].envelope.eventId == events[k].eventId;
      assert out[i] == mid[i];
    }
  }

  lemma {:induction false} IngestAdds(rows: seq<Row>, events: seq<Envelope>, k: nat)
    requires TableOk(rows) && |rows| <= k < |InsertAll(rows, events)|
    ensures InsertAll(rows, events)[k].envelope in events
    ensures InsertAll(rows, events)[k].ingestSeq >= NextSeq(rows)
    decreases |events|
  {
    var before := events[..|events| - 1];
    var mid := InsertAll(rows, before);
    IngestKeepsTable(rows, before);
    if k < |mid| {
      IngestAdds(rows, before, k);
      assert events == before + [events[|events| - 1]];
    }
  }

  /** What an ingest does to the table, said without the insertion order: the old
      rows stay where they were, each new row carries an ingested event and a sequence
      number past the old ones, every ingested event ends up present, and the table
      invariant survives. */
  lemma IngestExtends(rows: seq<Row>, events: seq<Envelope>)
    requires TableOk(rows)
    ensures TableOk(InsertAll(rows, events))
    ensures rows <= InsertAll(rows, events)
    ensures forall e :: e in events ==> HasEvent(InsertAll(rows, events), e.eventId)
    ensures forall k :: |rows| <= k < |InsertAll(rows, events)| ==>
              InsertAll(rows, events)[k].envelope in events &&
              InsertAll(rows, events)[k].ingestSeq >= NextSeq(rows)
  {
    IngestKeepsTable(rows, events);
    forall e | e in events ensures HasEvent(InsertAll(rows, events), e.eventId) {
      var k :| 0 <= k < |events| && events[k] == e;
      IngestRecords(rows, events, k);
    }
    forall k | |rows| <= k < |InsertAll(rows, events)|
      ensures InsertAll(rows, events)[k].envelope in events && InsertAll(rows, events)[k].ingestSeq >= NextSeq(rows)
    {
      IngestAdds(rows, events, k);
    }
  }

  /** The first of its event in the batch, and not in the table yet. */
  predicate Novel(rows: seq<Row>, events: seq<Envelope>, p: nat)
    requires p < |events|
  {
    !HasEvent(rows, events[p].eventId) && forall q :: 0 <= q < p ==> events[q].eventId != events[p].eventId
  }

  function NovelEvents(rows: seq<Row>, events: seq<Envelope>): seq<Envelope> {
    if events == [] then []
    else
      var rest := NovelEvents(rows, events[..|events| - 1]);
      if Novel(rows, events, |events| - 1) then rest + [events[|events| - 1]] else rest
  }

  /** The rows those events become, numbered on from s. */
  function Numbered(events: seq<Envelope>, s: int): seq<Row> {
    seq(|events|, k requires 0 <= k < |events| => Row(s + k, events[k]))
  }

  lemma PresentAfter(rows: seq<Row>, events: seq<Envelope>, id: string)
    requires TableOk(rows)
    ensures HasEvent(InsertAll(rows, events), id) <==>
              HasEvent(rows, id) || exists q :: 0 <= q < |events| && events[q].eventId == id
  {
    IngestExtends(rows, events);
    var out := InsertAll(rows, events);
    if HasEvent(out, id) {
      var i :| 0 <= i < |out| && out[i].envelope.eventId == id;
      if i < |rows| {
        assert rows[i].envelope.eventId == id;
      } else {
        assert out[i].envelope in events;
      }
    }
    if HasEvent(rows, id) {
      var i :| 0 <= i < |rows| && rows[i].envelope.eventId == id;
      assert out[i].envelope.eventId == id;
    }
    if q :| 0 <= q < |events| && events[q].eventId == id {
      assert events[q] in events;
    }
  }

  lemma NumberedNext(rows: seq<Row>, events: seq<Envelope>, e: Envelope)
    ensures rows + Numbered(events + [e], NextSeq(rows)) ==
              rows + Numbered(events, NextSeq(rows)) + [Row(NextSeq(rows) + |events|, e)]
    ensures NextSeq(rows + Numbered(events, NextSeq(rows))) == NextSeq(rows) + |events|
  {
  }

  /** An ingest, exactly: the novel events of the batch, in the batch's order, each once,
      under consecutive numbers after the largest present. */
  lemma {:induction false} IngestExactly(rows: seq<Row>, events: seq<Envelope>)
    requires TableOk(rows)
    ensures InsertAll(rows, events) == rows + Numbered(NovelEvents(rows, events), NextSeq(rows))
    decreases |events|
  {
    if events == [] {
      assert rows + Numbered([], NextSeq(rows)) == rows;
    } else {
      var init, last := events[..|events| - 1], events[|events| - 1];
      var novel := NovelEvents(rows, init);
      IngestExactly(rows, init);
      NovelLast(rows, events);
      NumberedNext(rows, novel, last);
      assert InsertAll(rows, events) == Insert(rows + Numbered(novel, NextSeq(rows)), last);
    }
  }

  lemma NovelLast(rows: seq<Row>, events: seq<Envelope>)
    requires TableOk(rows) && events != []
    ensures
      var init, last := events[..|events| - 1], events[|events| - 1];
      Novel(rows, events, |events| - 1) <==> !HasEvent(InsertAll(rows, init), last.eventId)
  {
    var init, last := events[..|events| - 1], events[|events| - 1];
    PresentAfter(rows, init, last.eventId);
    assert forall q :: 0 <= q < |init| ==> init[q] == events[q];
  }

  /** A batch whose events are all present already changes nothing: redelivery is idempotent. */
  lemma {:induction false} ReplayIsANoOp(rows: seq<Row>, events: seq<Envelope>)
    requires forall e :: e in events ==> HasEvent(rows, e.eventId)
    ensures InsertAll(rows, events) == rows
    decreases |events|
  {
    if events != [] {
      ReplayIsANoOp(rows, events[..|events| - 1]);
    }
  }

  // ----- prune -----

  function NotOlder(rows: seq<Row>, before: int): seq<Row> {
    if rows == [] then []
    else
      var rest := NotOlder(rows[..|rows| - 1], before);
      if rows[|rows| - 1].envelope.occurredAt < before then rest else rest + [rows[|rows| - 1]]
  }

  function FromSeq(rows: seq<Row>, floor: int): seq<Row> {
    if rows == [] then []
    else
      var rest := FromSeq(rows[..|rows| - 1], floor);
      if rows[|rows| - 1].ingestSeq < floor then rest else rest + [rows[|rows| - 1]]
  }

  /** The row bound in force: a negative OFFSET reads as zero, so at least one row stays. */
  function Bound(maxRows: int): nat {
    if maxRows < 1 then 1 else maxRows
  }

  function LastRows(rows: seq<Row>, n: nat): seq<Row> {
    if |rows| <= n then rows else rows[|rows| - n..]
  }

  function Pruned(rows: seq<Row>, before: int, maxRows: int): seq<Row> {
    LastRows(NotOlder(rows, before), Bound(maxRows))
  }

  lemma {:induction false} NotOlderMembers(rows: seq<Row>, before: int)
    ensures |NotOlder(rows, before)| <= |rows|
    ensures forall r :: r in NotOlder(rows, before) <==> r in rows && r.envelope.occurredAt >= before
  {
    if rows != [] {
      NotOlderMembers(rows[..|rows| - 1], before);
      assert rows == rows[..|rows| - 1] + [rows[|rows| - 1]];
    }
  }

  lemma {:induction false} NotOlderBounds(rows: seq<Row>, before: int, s: int, eventId: string)
    requires AllBelow(rows, s) && NoneIs(rows, eventId)
    ensures AllBelow(NotOlder(rows, before), s) && NoneIs(NotOlder(rows, before), eventId)
  {
    if rows != [] {
      NotOlderBounds(rows[..|rows| - 1], before, s, eventId);
    }
  }

  lemma {:induction false} NotOlderOk(rows: seq<Row>, before: int)
    requires TableOk(rows)
    ensures TableOk(NotOlder(rows, before))
  {
    if rows != [] {
      var init, last := rows[..|rows| - 1], rows[|rows| - 1];
      InitOk(rows);
      NotOlderOk(init, before);
      NotOlderBounds(init, before, last.ingestSeq, last.envelope.eventId);
      SnocOk(NotOlder(init, before), last);
    }
  }

  lemma NotOlderKeeps(rows: seq<Row>, before: int)
    requires TableOk(rows)
    ensures TableOk(NotOlder(rows, before))
    ensures |NotOlder(rows, before)| <= |rows|
    ensures forall r :: r in NotOlder(rows, before) <==> r in rows && r.envelope.occurredAt >= before
  {
    NotOlderOk(rows, before);
    NotOlderMembers(rows, before);
  }

  lemma {:induction false} FromSeqIsSuffix(rows: seq<Row>, k: nat)
    requires Ordered(rows) && k < |rows|
    ensures FromSeq(rows, rows[k].ingestSeq) == rows[k..]
    decreases |rows|
  {
    var init := rows[..|rows| - 1];
    if k == |rows| - 1 {
      FromSeqAbove(init, rows[k].ingestSeq);
    } else {
      FromSeqIsSuffix(init, k);
      assert init[k..] + [rows[|rows| - 1]] == rows[k..];
    }
  }

  lemma {:induction false} FromSeqAbove(rows: seq<Row>, floor: int)
    requires forall i :: 0 <= i < |rows| ==> rows[i].ingestSeq < floor
    ensures FromSeq(rows, floor) == []
  {
    if rows != [] {
      FromSeqAbove(rows[..|rows| - 1], floor);
    }
  }

  /** Newer(rows, r): the rows the index ordered after r. */
  function CountNewer(rows: seq<Row>, s: int): nat {
    if rows == [] then 0
    else CountNewer(rows[..|rows| - 1], s) + (if rows[|rows| - 1].ingestSeq > s then 1 else 0)
  }

  lemma {:induction false} CountNewerAt(rows: seq<Row>, k: nat)
    requires Ordered(rows) && k < |rows|
    ensures CountNewer(rows, rows[k].ingestSeq) == |rows| - 1 - k
    decreases |rows|
  {
    var init := rows[..|rows| - 1];
    if k == |rows| - 1 {
      CountNewerNone(init, rows[k].ingestSeq);
    } else {
      CountNewerAt(init, k);
    }
  }

  lemma {:induction false} CountNewerNone(rows: seq<Row>, s: int)
    requires forall i :: 0 <= i < |rows| ==> rows[i].ingestSeq <= s
    ensures CountNewer(rows, s) == 0
  {
    if rows != [] {
      CountNewerNone(rows[..|rows| - 1], s);
    }
  }

  lemma LastRowsByRank(kept: seq<Row>, n: nat, r: Row)
    requires Ordered(kept)
    ensures r in LastRows(kept, n) <==> r in kept && CountNewer(kept, r.ingestSeq) < n
  {
    if r in kept {
      var i :| 0 <= i < |kept| && kept[i] == r;
      CountNewerAt(kept, i);
      LastRowsByPlace(kept, n, i);
    }
  }

  lemma LastRowsByPlace(kept: seq<Row>, n: nat, i: nat)
    requires Ordered(kept) && i < |kept|
    ensures kept[i] in LastRows(kept, n) <==> |kept| - i <= n
  {
  }

  /** The survivors, row by row: a row survives exactly when it is not older than
      the bound and fewer than the row bound of the rows that are not older were
      ordered after it. */
  lemma PruneKeepsTheNewest(rows: seq<Row>, before: int, maxRows: int)
    requires TableOk(rows)
    ensures TableOk(Pruned(rows, before, maxRows))
    ensures |Pruned(rows, before, maxRows)| <= (if maxRows < 1 then 1 else maxRows)
    ensures forall r :: r in Pruned(rows, before, maxRows) <==>
              r in rows && r.envelope.occurredAt >= before &&
              CountNewer(NotOlder(rows, before), r.ingestSeq) < (if maxRows < 1 then 1 else maxRows)
  {
    NotOlderKeeps(rows, before);
    var kept, n := NotOlder(rows, before), Bound(maxRows);
    forall r
      ensures r in Pruned(rows, before, maxRows) <==> r in kept && CountNewer(kept, r.ingestSeq) < n
    {
      LastRowsByRank(kept, n, r);
    }
  }

  lemma PruneOk(rows: seq<Row>, before: int, maxRows: int)
    requires TableOk(rows)
    ensures TableOk(NotOlder(rows, before)) && TableOk(Pruned(rows, before, maxRows))
    ensures |Pruned(rows, before, maxRows)| <= |NotOlder(rows, before)| <= |rows|
  {
    NotOlderKeeps(rows, before);
  }

  /** Deleting below the sequence found at the offset leaves the last rows. */
  lemma FloorKeepsLast(rows: seq<Row>, maxRows: int)
    requires Ordered(rows) && Bound(maxRows) <= |rows|
    ensures FromSeq(rows, rows[|rows| - Bound(maxRows)].ingestSeq) == LastRows(rows, Bound(maxRows))
  {
    FromSeqIsSuffix(rows, |rows| - Bound(maxRows));
  }

  /** Pruning again with the same bounds removes nothing. */
  lemma PruneIsIdempotent(rows: seq<Row>, before: int, maxRows: int)
    requires TableOk(rows)
    ensures Pruned(Pruned(rows, before, maxRows), before, maxRows) == Pruned(rows, before, maxRows)
  {
    PruneKeepsTheNewest(rows, before, maxRows);
    NotOlderAll(Pruned(rows, before, maxRows), before);
  }

  lemma {:induction false} NotOlderAll(rows: seq<Row>, before: int)
    requires forall r :: r in rows ==> r.envelope.occurredAt >= before
    ensures NotOlder(rows, before) == rows
  {
    if rows != [] {
      NotOlderAll(rows[..|rows| - 1], before);
      assert rows == rows[..|rows| - 1] + [rows[|rows| - 1]];
    }
  }

  // ----- cursor reads -----

  /** The Owner's rows after a cursor, in index order. */
  function OwnerRows(rows: seq<Row>, owner: string, after: int): seq<Row> {
    if rows == [] then []
    else
      var rest := OwnerRows(rows[..|rows| - 1], owner, after);
      var last := rows[|rows| - 1];
      if last.envelope.ownerId == Some(owner) && last.ingestSeq > after then rest + [last] else rest
  }

  /** The Owner's rows wherever they are: the query without an `after_seq` filter. */
  function AllOwnerRows(rows: seq<Row>, owner: string): seq<Row> {
    if rows == [] then []
    else
      var rest := AllOwnerRows(rows[..|rows| - 1], owner);
      var last := rows[|rows| - 1];
      if last.envelope.ownerId == Some(owner) then rest + [last] else rest
  }

  function Reverse(rows: seq<Row>): seq<Row> {
    if rows == [] then [] else [rows[|rows| - 1]] + Reverse(rows[..|rows| - 1])
  }

  function FirstRows(rows: seq<Row>, limit: nat): seq<Row> {
    if |rows| <= limit then rows else rows[..limit]
  }

  function TailForOwner(rows: seq<Row>, owner: string, afterSeq: Option<int>, limit: nat): seq<Row> {
    match afterSeq
    case Some(after) => FirstRows(OwnerRows(rows, owner, after), limit)
    case None => Reverse(FirstRows(Reverse(AllOwnerRows(rows, owner)), limit))
  }

  lemma {:induction false} OwnerRowsExact(rows: seq<Row>, owner: string, after: int)
    requires Ordered(rows)
    ensures Ordered(OwnerRows(rows, owner, after))
    ensures forall r :: r in OwnerRows(rows, owner, after) <==>
              r in rows && r.envelope.ownerId == Some(owner) && r.ingestSeq > after
  {
    if rows != [] {
      var init, last := rows[..|rows| - 1], rows[|rows| - 1];
      assert rows == init + [last];
      OwnerRowsExact(init, owner, after);
      var rest := OwnerRows(init, owner, after);
      forall i | 0 <= i < |rest| ensures rest[i].ingestSeq < last.ingestSeq {
        assert rest[i] in init;
      }
    }
  }

  lemma {:induction false} ReverseAt(rows: seq<Row>)
    ensures |Reverse(rows)| == |rows|
    ensures forall k :: 0 <= k < |rows| ==> Reverse(rows)[k] == rows[|rows| - 1 - k]
  {
    if rows != [] {
      ReverseAt(rows[..|rows| - 1]);
    }
  }

  lemma {:induction false} ScanFromBelow(rows: seq<Row>, owner: string, after: int)
    requires forall r :: r in rows ==> r.ingestSeq > after
    ensures AllOwnerRows(rows, owner) == OwnerRows(rows, owner, after)
  {
    if rows != [] {
      ScanFromBelow(rows[..|rows| - 1], owner, after);
    }
  }

  /** A first read and a resumed read are in the same order: the cursorless read is
      the last `limit` rows of the full cursor scan. */
  lemma CursorlessReadIsTheEndOfTheScan(rows: seq<Row>, owner: string, after: int, limit: nat)
    requires forall r :: r in rows ==> r.ingestSeq > after
    ensures TailForOwner(rows, owner, None, limit) == LastRows(OwnerRows(rows, owner, after), limit)
  {
    ScanFromBelow(rows, owner, after);
    ReversedPage(AllOwnerRows(rows, owner), limit);
  }

  lemma ReversedPage(all: seq<Row>, limit: nat)
    ensures Reverse(FirstRows(Reverse(all), limit)) == LastRows(all, limit)
  {
    ReverseAt(all);
    var page, last := FirstRows(Reverse(all), limit), LastRows(all, limit);
    ReverseAt(page);
    assert |Reverse(page)| == |last|;
    forall k | 0 <= k < |page| ensures Reverse(page)[k] == last[k] {
      assert Reverse(page)[k] == page[|page| - 1 - k] == Reverse(all)[|page| - 1 - k];
    }
  }

  /** A page is the start of what is ahead of the cursor, or the end of everything, as
      long as the limit allows and no longer. */
  lemma PageIsBounded(rows: seq<Row>, owner: string, after: int, limit: nat)
    ensures
      var scan, page := OwnerRows(rows, owner, after), TailForOwner(rows, owner, Some(after), limit);
      |page| == (if limit < |scan| then limit else |scan|) && page == scan[..|page|]
    ensures
      var all, page := AllOwnerRows(rows, owner), TailForOwner(rows, owner, None, limit);
      |page| == (if limit < |all| then limit else |all|) && page == all[|all| - |page|..]
  {
    StartIsBounded(OwnerRows(rows, owner, after), limit);
    EndIsBounded(AllOwnerRows(rows, owner), limit);
    ReversedPage(AllOwnerRows(rows, owner), limit);
  }

  lemma StartIsBounded(all: seq<Row>, limit: nat)
    ensures
      var page := FirstRows(all, limit);
      |page| == (if limit < |all| then limit else |all|) && page == all[..|page|]
  {
  }

  lemma EndIsBounded(all: seq<Row>, limit: nat)
    ensures
      var page := LastRows(all, limit);
      |page| == (if limit < |all| then limit else |all|) && page == all[|all| - |page|..]
  {
  }

  /** What a reader collects by resuming from the last sequence it received until a page is empty. */
  function ReadOn(rows: seq<Row>, owner: string, after: int, limit: nat): seq<Row>
    requires Ordered(rows) && limit > 0
    decreases |OwnerRows(rows, owner, after)|
  {
    var page := TailForOwner(rows, owner, Some(after), limit);
    if page == [] then []
    else
      ScanShrinks(rows, owner, after, |page|);
      page + ReadOn(rows, owner, page[|page| - 1].ingestSeq, limit)
  }

  /** Dropping what a page delivered from the scan is the scan from the page's last sequence. */
  lemma ScanShrinks(rows: seq<Row>, owner: string, after: int, n: nat)
    requires Ordered(rows) && 0 < n <= |OwnerRows(rows, owner, after)|
    ensures OwnerRows(rows, owner, OwnerRows(rows, owner, after)[n - 1].ingestSeq)
         == OwnerRows(rows, owner, after)[n..]
  {
    var scan := OwnerRows(rows, owner, after);
    OwnerRowsExact(rows, owner, after);
    OwnerRowsExact(rows, owner, scan[n - 1].ingestSeq);
    SameRows(OwnerRows(rows, owner, scan[n - 1].ingestSeq), scan[n..]);
  }

  /** Two ordered row sequences with the same rows are equal. */
  lemma {:induction false} SameRows(a: seq<Row>, b: seq<Row>)
    requires Ordered(a) && Ordered(b)
    requires forall r :: r in a <==> r in b
    ensures a == b
    decreases |a|
  {
    assert a == [] || a[0] in a;
    assert b == [] || b[0] in b;
    if a != [] {
      assert a[|a| - 1] in b;
      var x, y := a[|a| - 1], b[|b| - 1];
      assert y in a && x in b;
      assert x == y;
      var a', b' := a[..|a| - 1], b[..|b| - 1];
      forall r ensures r in a' <==> r in b' {
        if r in a' { assert r in a; assert r != x; }
        if r in b' { assert r in b; assert r != y; }
      }
      SameRows(a', b');
      assert a == a' + [x] && b == b' + [y];
    }
  }

  /** Paging misses nothing and repeats nothing: any page size collects the whole scan. */
  lemma {:induction false} PagesAreTheScan(rows: seq<Row>, owner: string, after: int, limit: nat)
    requires Ordered(rows) && limit > 0
    ensures ReadOn(rows, owner, after, limit) == OwnerRows(rows, owner, after)
    decreases |OwnerRows(rows, owner, after)|
  {
    var scan := OwnerRows(rows, owner, after);
    var page := FirstRows(scan, limit);
    if page != [] {
      var next := page[|page| - 1].ingestSeq;
      assert page == scan[..|page|] && next == scan[|page| - 1].ingestSeq;
      ScanShrinks(rows, owner, after, |page|);
      PagesAreTheScan(rows, owner, next, limit);
      assert ReadOn(rows, owner, after, limit) == page + ReadOn(rows, owner, next, limit);
      assert page + scan[|page|..] == scan;
    }
  }

  // ----- the store -----

  class AuditIndexStore {
    var rows: seq<Row>
    const readOnly: bool

    ghost predicate Valid()
      reads this
    {
      TableOk(rows)
    }

    constructor (readOnly: bool)
      ensures Valid() && rows == [] && this.readOnly == readOnly
    {
      rows := [];
      this.readOnly := readOnly;
    }

    method Ingest(events: seq<Envelope>) returns (inserted: Result<nat, IndexError>)
      requires Valid()
      modifies this
      ensures Valid()
      ensures readOnly ==> inserted == Err(ReadOnlyClient) && rows == old(rows)
      ensures !readOnly ==>
                rows == old(rows) + Numbered(NovelEvents(old(rows), events), NextSeq(old(rows))) &&
                rows == InsertAll(old(rows), events) && old(rows) <= rows &&
                inserted == Ok(|rows| - |old(rows)|)
    {
      if readOnly {
        return Err(ReadOnlyClient);
      }
      var count := 0;
      for k := 0 to |events|
        invariant Valid()
        invariant rows == InsertAll(old(rows), events[..k])
        invariant old(rows) <= rows && count == |rows| - |old(rows)|
      {
        assert events[..k + 1][..k] == events[..k];
        IngestExtends(old(rows), events[..k + 1]);
        if !HasEvent(rows, events[k].eventId) {
          rows := rows + [Row(NextSeq(rows), events[k])];
          count := count + 1;
        }
      }
      assert events[..|events|] == events;
      IngestExactly(old(rows), events);
      inserted := Ok(count);
    }

    method Prune(before: int, maxRows: int) returns (removed: Result<nat, IndexError>)
      requires Valid()
      modifies this
      ensures Valid()
      ensures readOnly ==> removed == Err(ReadOnlyClient) && rows == old(rows)
      ensures !readOnly ==>
                rows == Pruned(old(rows), before, maxRows) && |rows| <= |old(rows)| &&
                removed == Ok(|old(rows)| - |rows|)
    {
      if readOnly {
        return Err(ReadOnlyClient);
      }
      PruneOk(rows, before, maxRows);
      var total := |rows|;
      rows := NotOlder(rows, before);
      var aged := total - |rows|;
      var overflow := 0;
      var offset := if maxRows - 1 < 0 then 0 else maxRows - 1;
      if offset < |rows| {
        var floor := rows[|rows| - 1 - offset].ingestSeq;
        FloorKeepsLast(rows, maxRows);
        var kept := FromSeq(rows, floor);
        overflow := |rows| - |kept|;
        rows := kept;
      }
      removed := Ok(aged + overflow);
    }
  }
}
