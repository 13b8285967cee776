/**
  The two bounded tables of short-lived secrets: LAN authentication challenges
  (`_controller_challenges`, server/eidolon_admin_server/bootstrap/service.py) and
  Local API sessions (`LocalControllerSessionStore`, local_api/auth.py).

  A table is a Python dict: its entries in insertion order, keys distinct.
 */
module ExpiringTables {
  import opened Outcomes

  /** What both tables remember: a Controller, and the epoch its grant was in. */
  datatype Principal = Principal(controllerId: string, resetEpoch: nat)

  datatype Entry = Entry(key: string, expiresAt: int, value: Principal)

  type Table = seq<Entry>

  ghost predicate DistinctKeys(t: Table) {
    forall i, j :: 0 <= i < j < |t| ==> t[i].key != t[j].key
  }

  predicate HasKey(t: Table, key: string) {
    exists k :: 0 <= k < |t| && t[k].key == key
  }

  function Purge(t: Table, now: int): Table {
    if t == [] then []
    else
      var rest := Purge(t[..|t| - 1], now);
      if t[|t| - 1].expiresAt <= now then rest else rest + [t[|t| - 1]]
  }

  function Find(t: Table, key: string): (k: Option<nat>)
    ensures k.Some? ==> k.value < |t| && t[k.value].key == key
    ensures k.None? <==> !HasKey(t, key)
  {
    if t == [] then None
    else if t[|t| - 1].key == key then Some(|t| - 1)
    else
      var k := Find(t[..|t| - 1], key);
      assert HasKey(t, key) <==> HasKey(t[..|t| - 1], key) by {
        if HasKey(t, key) {
          var i :| 0 <= i < |t| && t[i].key == key;
          assert t[..|t| - 1][i].key == key;
        }
      }
      k
  }

  /** `min(table, key=expiry)`: the first entry with the least expiry. */
  function Oldest(t: Table): (k: nat)
    requires t != []
    ensures k < |t|
    ensures forall j :: 0 <= j < |t| ==> t[k].expiresAt <= t[j].expiresAt
    ensures forall j :: 0 <= j < k ==> t[k].expiresAt < t[j].expiresAt
  {
    if |t| == 1 then 0
    else
      var best := Oldest(t[..|t| - 1]);
      if t[|t| - 1].expiresAt < t[best].expiresAt then |t| - 1 else best
  }

  function RemoveAt(t: Table, k: nat): Table
    requires k < |t|
  {
    t[..k] + t[k + 1..]
  }

  function Evict(t: Table, capacity: nat): Table {
    if |t| >= capacity && t != [] then RemoveAt(t, Oldest(t)) else t
  }

  function Put(t: Table, e: Entry): Table {
    match Find(t, e.key)
    case Some(k) => t[k := e]
    case None => t + [e]
  }

  function Issue(t: Table, capacity: nat, now: int, e: Entry): Table {
    Put(Evict(Purge(t, now), capacity), e)
  }

  function Pop(t: Table, key: string): (Option<Entry>, Table) {
    match Find(t, key)
    case Some(k) => (Some(t[k]), RemoveAt(t, k))
    case None => (None, t)
  }

  // ----- what each operation leaves -----

  lemma {:induction false} PurgeExact(t: Table, now: int)
    requires DistinctKeys(t)
    ensures DistinctKeys(Purge(t, now)) && |Purge(t, now)| <= |t|
    ensures forall e :: e in Purge(t, now) <==> e in t && e.expiresAt > now
  {
    if t != [] {
      var init, last := t[..|t| - 1], t[|t| - 1];
      assert t == init + [last];
      PurgeExact(init, now);
      var rest := Purge(init, now);
      forall i | 0 <= i < |rest| ensures rest[i].key != last.key {
        assert rest[i] in rest;
        var k :| 0 <= k < |init| && init[k] == rest[i];
      }
    }
  }

  lemma RemoveExact(t: Table, k: nat)
    requires DistinctKeys(t) && k < |t|
    ensures DistinctKeys(RemoveAt(t, k)) && |RemoveAt(t, k)| == |t| - 1
    ensures !HasKey(RemoveAt(t, k), t[k].key)
    ensures forall e :: e in RemoveAt(t, k) <==> e in t && e != t[k]
  {
  }

  lemma PopExact(t: Table, key: string)
    requires DistinctKeys(t)
    ensures DistinctKeys(Pop(t, key).1) && !HasKey(Pop(t, key).1, key)
    ensures |Pop(t, key).1| <= |t|
    ensures forall e :: e in Pop(t, key).1 <==> e in t && e.key != key
    ensures Pop(t, key).0.Some? ==> Pop(t, key).0.value in t && Pop(t, key).0.value.key == key
  {
  }

  lemma PutExact(t: Table, e: Entry)
    requires DistinctKeys(t)
    ensures DistinctKeys(Put(t, e))
    ensures |Put(t, e)| == |t| + (if HasKey(t, e.key) then 0 else 1)
    ensures e in Put(t, e)
    ensures forall x :: x in Put(t, e) && x != e ==> x in t && x.key != e.key
  {
    var k := Find(t, e.key);
    var r := Put(t, e);
    if k.Some? {
      assert r[k.value] == e;
      assert forall i :: 0 <= i < |r| && i != k.value ==> r[i] == t[i];
    } else {
      assert r[|t|] == e;
    }
  }

  /** The bound: with a positive capacity a table that fits keeps fitting, the new
      entry is in it, and every other entry was there before and is unexpired. */
  lemma IssueBounded(t: Table, capacity: nat, now: int, e: Entry)
    requires DistinctKeys(t) && |t| <= capacity && capacity > 0
    ensures DistinctKeys(Issue(t, capacity, now, e)) && |Issue(t, capacity, now, e)| <= capacity
    ensures e in Issue(t, capacity, now, e)
    ensures forall x :: x in Issue(t, capacity, now, e) && x != e ==> x in t && x.key != e.key && x.expiresAt > now
  {
    PurgeExact(t, now);
    var purged := Purge(t, now);
    var evicted := Evict(purged, capacity);
    if |purged| >= capacity && purged != [] {
      RemoveExact(purged, Oldest(purged));
    }
    PutExact(evicted, e);
  }

  lemma OneEntry(e: Entry, capacity: nat, now: int)
    requires e.expiresAt > now && capacity > 0
    ensures Issue([], capacity, now, e) == [e] && Purge([e], now) == [e]
    ensures Find([e], e.key) == Some(0) && Pop([e], e.key) == (Some(e), [])
  {
    assert [e][..0] == [];
    assert RemoveAt([e], 0) == [];
    assert Find([], e.key) == None;
  }

  // ----- eviction under a monotone clock -----

  /** Entries issued with one lifetime under a clock that never goes back. */
  ghost predicate InIssueOrder(t: Table) {
    forall i, j :: 0 <= i < j < |t| ==> t[i].expiresAt <= t[j].expiresAt
  }

  lemma {:induction false} PurgeIsASuffix(t: Table, now: int) returns (cut: nat)
    requires InIssueOrder(t)
    ensures cut <= |t| && Purge(t, now) == t[cut..]
  {
    if t == [] {
      cut := 0;
    } else if t[|t| - 1].expiresAt <= now {
      PurgeNone(t, now);
      cut := |t|;
    } else {
      var init := t[..|t| - 1];
      cut := PurgeIsASuffix(init, now);
      assert init[cut..] + [t[|t| - 1]] == t[cut..];
    }
  }

  lemma {:induction false} PurgeNone(t: Table, now: int)
    requires forall i :: 0 <= i < |t| ==> t[i].expiresAt <= now
    ensures Purge(t, now) == []
  {
    if t != [] {
      PurgeNone(t[..|t| - 1], now);
    }
  }

  lemma LiveSuffix(t: Table, now: int)
    requires InIssueOrder(t)
    ensures InIssueOrder(Purge(t, now))
    ensures forall k :: 0 <= k < |Purge(t, now)| ==> Purge(t, now)[k] in t
  {
    var cut := PurgeIsASuffix(t, now);
    var live := t[cut..];
    forall k | 0 <= k < |live| ensures live[k] == t[cut + k] {}
  }

  lemma EvictIsTheFront(live: Table, capacity: nat)
    requires InIssueOrder(live) && capacity > 0
    ensures Evict(live, capacity) == if |live| >= capacity then live[1..] else live
  {
  }

  /** Under a monotone clock a full table gives up exactly its earliest-issued live
      entry, and the table stays in issue order. */
  lemma EvictsEarliestIssued(t: Table, capacity: nat, now: int, e: Entry)
    requires InIssueOrder(t) && capacity > 0
    requires forall k :: 0 <= k < |t| ==> t[k].expiresAt <= e.expiresAt && t[k].key != e.key
    ensures
      var live := Purge(t, now);
      Issue(t, capacity, now, e) == (if |live| >= capacity then live[1..] else live) + [e]
    ensures InIssueOrder(Issue(t, capacity, now, e))
  {
    LiveSuffix(t, now);
    var live := Purge(t, now);
    EvictIsTheFront(live, capacity);
    var evicted := Evict(live, capacity);
    forall k | 0 <= k < |evicted| ensures evicted[k].expiresAt <= e.expiresAt && evicted[k].key != e.key {
      assert evicted[k] in live;
      assert evicted[k] in t;
    }
    AppendInOrder(evicted, e);
  }

  lemma AppendInOrder(t: Table, e: Entry)
    requires InIssueOrder(t)
    requires forall k :: 0 <= k < |t| ==> t[k].expiresAt <= e.expiresAt && t[k].key != e.key
    ensures Put(t, e) == t + [e] && InIssueOrder(t + [e])
  {
  }

  /** What happens to the challenge table: a draw, or an attempt to answer. */
  datatype TableEvent = Draw(entry: Entry, now: int) | Attempt(key: string, now: int)

  function NextTable(t: Table, capacity: nat, e: TableEvent): Table {
    match e
    case Draw(entry, now) => Issue(t, capacity, now, entry)
    case Attempt(key, now) => Pop(Purge(t, now), key).1
  }

  function TableAfter(t: Table, capacity: nat, run: seq<TableEvent>): Table
    decreases |run|
  {
    if run == [] then t else TableAfter(NextTable(t, capacity, run[0]), capacity, run[1..])
  }

  /** A clock that never goes back, one lifetime for every entry, and keys drawn fresh. */
  ghost predicate Monotone(t: Table, capacity: nat, lifetime: nat, clock: int, run: seq<TableEvent>)
    decreases |run|
  {
    run != [] ==>
      && clock <= run[0].now
      && (run[0].Draw? ==> run[0].entry.expiresAt == run[0].now + lifetime && !HasKey(t, run[0].entry.key))
      && Monotone(NextTable(t, capacity, run[0]), capacity, lifetime, run[0].now, run[1..])
  }

  ghost predicate IssuedBy(t: Table, deadline: int) {
    forall k :: 0 <= k < |t| ==> t[k].expiresAt <= deadline
  }

  lemma PopKeepsOrder(t: Table, key: string, deadline: int)
    requires InIssueOrder(t) && IssuedBy(t, deadline)
    ensures InIssueOrder(Pop(t, key).1) && IssuedBy(Pop(t, key).1, deadline)
  {
  }

  /** In every run under a monotone clock the challenge table is in issue order, so
      every eviction is of the earliest-issued live challenge. */
  lemma {:induction false} TableStaysInIssueOrder(
    t: Table, capacity: nat, lifetime: nat, clock: int, run: seq<TableEvent>)
    requires InIssueOrder(t) && IssuedBy(t, clock + lifetime) && capacity > 0
    requires Monotone(t, capacity, lifetime, clock, run)
    ensures InIssueOrder(TableAfter(t, capacity, run))
    decreases |run|
  {
    if run != [] {
      var t' := NextTable(t, capacity, run[0]);
      LiveSuffix(t, run[0].now);
      match run[0] {
        case Draw(entry, now) =>
          forall k | 0 <= k < |t| ensures t[k].expiresAt <= entry.expiresAt && t[k].key != entry.key {}
          EvictsEarliestIssued(t, capacity, now, entry);
          DrawKeepsDeadline(t, capacity, now, entry);
        case Attempt(key, now) =>
          assert IssuedBy(Purge(t, now), now + lifetime) by {
            forall k | 0 <= k < |Purge(t, now)| ensures Purge(t, now)[k].expiresAt <= now + lifetime {
              assert Purge(t, now)[k] in t;
            }
          }
          PopKeepsOrder(Purge(t, now), key, now + lifetime);
      }
      TableStaysInIssueOrder(t', capacity, lifetime, run[0].now, run[1..]);
    }
  }

  lemma DrawKeepsDeadline(t: Table, capacity: nat, now: int, e: Entry)
    requires InIssueOrder(t) && capacity > 0 && IssuedBy(t, e.expiresAt)
    requires forall k :: 0 <= k < |t| ==> t[k].key != e.key
    ensures IssuedBy(Issue(t, capacity, now, e), e.expiresAt)
  {
    EvictsEarliestIssued(t, capacity, now, e);
    LiveSuffix(t, now);
    var live := Purge(t, now);
    var kept := if |live| >= capacity then live[1..] else live;
    var issued := kept + [e];
    forall k | 0 <= k < |issued| ensures issued[k].expiresAt <= e.expiresAt {
      if k < |kept| {
        assert kept[k] in live;
        assert kept[k] in t;
      }
    }
  }

  // ----- the tables as the program keeps them -----

  class ControllerChallenges {
    var table: Table

    ghost predicate Valid()
      reads this
    {
      DistinctKeys(table) && |table| <= 256
    }

    constructor ()
      ensures Valid() && table == []
    {
      table := [];
    }

    method PurgeExpired(now: int)
      requires Valid()
      modifies this
      ensures Valid() && table == Purge(old(table), now)
    {
      PurgeExact(table, now);
      var kept: Table := [];
      for k := 0 to |table|
        invariant table == old(table)
        invariant kept == Purge(table[..k], now)
      {
        assert table[..k + 1][..k] == table[..k];
        if table[k].expiresAt > now {
          kept := kept + [table[k]];
        }
      }
      assert table[..|table|] == table;
      table := kept;
    }

    method EvictOldest()
      requires Valid() && table != []
      modifies this
      ensures Valid() && table == RemoveAt(old(table), Oldest(old(table)))
    {
      var oldest := 0;
      for k := 1 to |table|
        invariant oldest < k && table == old(table)
        invariant forall j :: 0 <= j < k ==> table[oldest].expiresAt <= table[j].expiresAt
        invariant forall j :: 0 <= j < oldest ==> table[oldest].expiresAt < table[j].expiresAt
      {
        if table[k].expiresAt < table[oldest].expiresAt {
          oldest := k;
        }
      }
      assert oldest == Oldest(table);
      RemoveExact(table, oldest);
      table := table[..oldest] + table[oldest + 1..];
    }

    /** `challenge` is the value drawn for this call. */
    method IssueChallenge(challenge: string, controllerId: string, resetEpoch: nat, now: int)
      requires Valid()
      modifies this
      ensures Valid()
      ensures table == Issue(old(table), 256, now, Entry(challenge, now + 60, Principal(controllerId, resetEpoch)))
    {
      IssueBounded(table, 256, now, Entry(challenge, now + 60, Principal(controllerId, resetEpoch)));
      PurgeExpired(now);
      if |table| >= 256 {
        EvictOldest();
      }
      table := Put(table, Entry(challenge, now + 60, Principal(controllerId, resetEpoch)));
    }

    /** The first attempt on a challenge spends it, whatever comes of the attempt. */
    method TakeChallenge(challenge: string, now: int) returns (record: Option<Principal>)
      requires Valid()
      modifies this
      ensures Valid() && !HasKey(table, challenge)
      ensures table == Pop(Purge(old(table), now), challenge).1
      ensures record.Some? <==> exists e :: e in old(table) && e.key == challenge && e.expiresAt > now
      ensures record.Some? ==>
                exists e :: e in old(table) && e.key == challenge && e.expiresAt > now && e.value == record.value
    {
      PurgeExact(table, now);
      PurgeExpired(now);
      PopExact(table, challenge);
      var (popped, rest) := Pop(table, challenge);
      table := rest;
      if popped.None? || popped.value.expiresAt <= now {
        return None;
      }
      record := Some(popped.value.value);
    }
  }

  class LocalControllerSessionStore {
    const ttl: nat
    var sessions: Table

    ghost predicate Valid()
      reads this
    {
      DistinctKeys(sessions) && |sessions| <= 1024
    }

    constructor (ttl: nat)
      ensures Valid() && sessions == [] && this.ttl == ttl
    {
      this.ttl := ttl;
      sessions := [];
    }

    method IssueSession(tokenHash: string, principal: Principal, now: int)
      requires Valid()
      modifies this
      ensures Valid()
      ensures sessions == Issue(old(sessions), 1024, now, Entry(tokenHash, now + ttl, principal))
      ensures Entry(tokenHash, now + ttl, principal) in sessions
    {
      IssueBounded(sessions, 1024, now, Entry(tokenHash, now + ttl, principal));
      sessions := Evict(Purge(sessions, now), 1024);
      sessions := Put(sessions, Entry(tokenHash, now + ttl, principal));
    }

    method Get(tokenHash: string, now: int) returns (session: Option<Principal>)
      requires Valid()
      modifies this
      ensures Valid()
      ensures session.Some? <==> exists e :: e in old(sessions) && e.key == tokenHash && e.expiresAt > now
      ensures session.Some? ==>
                sessions == old(sessions) &&
                exists e :: e in sessions && e.key == tokenHash && e.expiresAt > now && e.value == session.value
      ensures session.None? ==> sessions == Pop(old(sessions), tokenHash).1
    {
      PopExact(sessions, tokenHash);
      var k := Find(sessions, tokenHash);
      if k.None? {
        return None;
      }
      var entry := sessions[k.value];
      assert forall e :: e in sessions && e.key == tokenHash ==> e == entry;
      if entry.expiresAt <= now {
        sessions := RemoveAt(sessions, k.value);
        return None;
      }
      session := Some(entry.value);
    }

    method Revoke(tokenHash: string)
      requires Valid()
      modifies this
      ensures Valid() && !HasKey(sessions, tokenHash)
      ensures sessions == Pop(old(sessions), tokenHash).1
    {
      PopExact(sessions, tokenHash);
      sessions := Pop(sessions, tokenHash).1;
    }
  }
}
