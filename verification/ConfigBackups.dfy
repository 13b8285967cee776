/**
  Backup rotation around config edits
  (server/eidolon_admin_server/app/configs/backups.py).

  A directory holds the live file, if any, and its backups by the timestamp in their
  names.
 */
module ConfigBackups {
  import opened Outcomes

  const MAX_BACKUPS := 10

  /** The unix seconds a backup's name ends in. */
  datatype Stamp = Stamp(seconds: int)

  datatype RestoreError = NoSuchBackup

  /** How many backups are newer than t. */
  ghost function Newer(keys: set<Stamp>, t: Stamp): nat {
    |set k | k in keys && k.seconds > t.seconds|
  }

  ghost predicate IsNewest(keys: set<Stamp>, m: Stamp) {
    m in keys && forall k :: k in keys ==> k.seconds <= m.seconds
  }

  lemma {:induction false} NewestExists(keys: set<Stamp>, some: Stamp)
    requires some in keys
    ensures exists m :: IsNewest(keys, m)
    decreases |keys|
  {
    var rest := keys - {some};
    assert keys == rest + {some};
    if rest == {} {
      assert IsNewest(keys, some);
    } else {
      var other :| other in rest;
      NewestExists(rest, other);
      var m :| IsNewest(rest, m);
      assert IsNewest(keys, if m.seconds > some.seconds then m else some);
    }
  }

  function NewestOf(keys: set<Stamp>): (m: Stamp)
    requires keys != {}
    ensures IsNewest(keys, m)
  {
    assert exists m :: IsNewest(keys, m) by {
      var some :| some in keys;
      NewestExists(keys, some);
    }
    assert forall m :: IsNewest(keys, m) ==> m in keys && forall k :: k in keys ==> k.seconds <= m.seconds;
    var m :| m in keys && forall k :: k in keys ==> k.seconds <= m.seconds;
    m
  }

  predicate Descending(list: seq<Stamp>) {
    forall i, j :: 0 <= i < j < |list| ==> list[i].seconds > list[j].seconds
  }

  /** The listing: newest first. */
  function NewestFirst(keys: set<Stamp>): seq<Stamp>
    decreases |keys|
  {
    if keys == {} then []
    else
      var m := NewestOf(keys);
      [m] + NewestFirst(keys - {m})
  }

  lemma {:induction false} ListsEach(keys: set<Stamp>, k: Stamp)
    ensures k in keys <==> k in NewestFirst(keys)
    decreases |keys|
  {
    if keys != {} {
      ListsEach(keys - {NewestOf(keys)}, k);
    }
  }

  lemma {:induction false} ListsOnce(keys: set<Stamp>)
    ensures |NewestFirst(keys)| == |keys| && Descending(NewestFirst(keys))
    decreases |keys|
  {
    if keys != {} {
      var m := NewestOf(keys);
      var older := keys - {m};
      var rest := NewestFirst(older);
      assert keys == older + {m};
      ListsOnce(older);
      forall i | 0 <= i < |rest| ensures m.seconds > rest[i].seconds {
        ListsEach(older, rest[i]);
      }
    }
  }

  lemma NewerDrops(keys: set<Stamp>, m: Stamp, t: Stamp)
    requires m in keys && m.seconds > t.seconds
    ensures Newer(keys, t) == Newer(keys - {m}, t) + 1
  {
    var above := set k | k in keys - {m} && k.seconds > t.seconds;
    assert (set k | k in keys && k.seconds > t.seconds) == above + {m};
    assert m !in above;
  }

  lemma NewestHasNoneNewer(keys: set<Stamp>, m: Stamp)
    requires forall k :: k in keys ==> k.seconds <= m.seconds
    ensures Newer(keys, m) == 0
  {
  }

  /** A backup's place in the listing is the number of newer ones. */
  lemma {:induction false} PlaceIsNewer(keys: set<Stamp>, i: nat)
    requires i < |NewestFirst(keys)|
    ensures Newer(keys, NewestFirst(keys)[i]) == i
    decreases |keys|
  {
    var m := NewestOf(keys);
    ListsOnce(keys);
    if i == 0 {
      NewestHasNoneNewer(keys, m);
    } else {
      PlaceIsNewer(keys - {m}, i - 1);
      NewerDrops(keys, m, NewestFirst(keys)[i]);
    }
  }

  /** What rotation leaves: the newest ten, contents untouched. */
  ghost function Rotated(backups: map<Stamp, string>): map<Stamp, string> {
    map k | k in backups && Newer(backups.Keys, k) < MAX_BACKUPS :: backups[k]
  }

  /** Adding a backup newer than all others pushes each of them one place down. */
  lemma OneMoreIsNewer(keys: set<Stamp>, top: Stamp, t: Stamp)
    requires t in keys && forall k :: k in keys ==> k.seconds < top.seconds
    ensures Newer(keys + {top}, t) == Newer(keys, t) + 1
  {
    assert keys + {top} - {top} == keys;
    NewerDrops(keys + {top}, top, t);
  }

  predicate Unlinked(list: seq<Stamp>, k: nat, t: Stamp) {
    exists j :: MAX_BACKUPS <= j < k && j < |list| && list[j] == t
  }

  lemma UnlinkedExactly(keys: set<Stamp>, k: nat, t: Stamp)
    requires t in keys && k >= |keys|
    ensures Unlinked(NewestFirst(keys), k, t) <==> Newer(keys, t) >= MAX_BACKUPS
  {
    var list := NewestFirst(keys);
    ListsEach(keys, t);
    ListsOnce(keys);
    var i :| 0 <= i < |list| && list[i] == t;
    PlaceIsNewer(keys, i);
  }

  /** What is left after unlinking the listing's entries from the eleventh up to k. */
  ghost function Kept(backups: map<Stamp, string>, list: seq<Stamp>, k: nat): map<Stamp, string> {
    map t | t in backups && !Unlinked(list, k, t) :: backups[t]
  }

  lemma KeptStart(backups: map<Stamp, string>, list: seq<Stamp>)
    ensures Kept(backups, list, MAX_BACKUPS) == backups
  {
  }

  lemma KeptStep(backups: map<Stamp, string>, list: seq<Stamp>, k: nat)
    requires MAX_BACKUPS <= k < |list|
    ensures Kept(backups, list, k + 1) == Kept(backups, list, k) - {list[k]}
  {
  }

  lemma KeptIsRotated(backups: map<Stamp, string>, k: nat)
    requires k >= |backups.Keys|
    ensures Kept(backups, NewestFirst(backups.Keys), k) == Rotated(backups)
  {
    forall t | t in backups
      ensures Unlinked(NewestFirst(backups.Keys), k, t) <==> Newer(backups.Keys, t) >= MAX_BACKUPS
    {
      UnlinkedExactly(backups.Keys, k, t);
    }
  }

  /** One snapshot: the new backup is kept, and each old one exactly if it was among the newest nine. */
  lemma RotatedWithOneMore(backups: map<Stamp, string>, top: Stamp, content: string)
    requires forall k :: k in backups ==> k.seconds < top.seconds
    ensures
      var r := Rotated(backups[top := content]);
      && top in r && r[top] == content
      && (forall k :: k in backups ==> (k in r <==> Newer(backups.Keys, k) < 9))
      && (forall k :: k in backups && k in r ==> r[k] == backups[k])
  {
    var after := backups[top := content];
    assert after.Keys == backups.Keys + {top};
    forall k | k in backups ensures Newer(after.Keys, k) == Newer(backups.Keys, k) + 1 {
      OneMoreIsNewer(backups.Keys, top, k);
    }
    NewestHasNoneNewer(after.Keys, top);
  }

  lemma {:induction false} DistinctCount(list: seq<Stamp>)
    requires Descending(list)
    ensures |set t | t in list| == |list|
  {
    if list != [] {
      var init, last := list[..|list| - 1], list[|list| - 1];
      DistinctCount(init);
      var fewer := set t | t in init;
      assert (set t | t in list) == fewer + {last} by { assert list == init + [last]; }
      assert last !in fewer;
    } else {
      assert (set t | t in list) == {};
    }
  }

  /** Rotation leaves ten, or all there are. */
  lemma RotatedCount(backups: map<Stamp, string>)
    ensures |Rotated(backups).Keys| == if |backups.Keys| < 10 then |backups.Keys| else 10
  {
    var keys := backups.Keys;
    var list := NewestFirst(keys);
    ListsOnce(keys);
    var n := if |list| < 10 then |list| else 10;
    forall t ensures t in Rotated(backups).Keys <==> t in list[..n] {
      ListsEach(keys, t);
      if t in list {
        var i :| 0 <= i < |list| && list[i] == t;
        PlaceIsNewer(keys, i);
        assert i < n ==> list[..n][i] == t;
        if t in list[..n] {
          var j :| 0 <= j < n && list[j] == t;
        }
      }
    }
    assert Rotated(backups).Keys == set t | t in list[..n];
    DistinctCount(list[..n]);
  }

  class ConfigDirectory {
    var live: Option<string>
    var backups: map<Stamp, string>

    constructor (live: Option<string>)
      ensures this.live == live && backups == map[]
    {
      this.live, backups := live, map[];
    }

    method Rotate()
      modifies this`backups
      ensures backups == Rotated(old(backups))
      ensures |backups.Keys| == if |old(backups).Keys| < 10 then |old(backups).Keys| else 10
    {
      RotatedCount(backups);
      var list := NewestFirst(backups.Keys);
      KeptStart(backups, list);
      var k := MAX_BACKUPS;
      while k < |list|
        invariant k >= MAX_BACKUPS
        invariant backups == Kept(old(backups), list, k)
      {
        KeptStep(old(backups), list, k);
        backups := backups - {list[k]};
        k := k + 1;
      }
      ListsOnce(old(backups).Keys);
      KeptIsRotated(old(backups), k);
    }

    /** `now` is whatever the clock says.  The new backup is newer than every other, so
        none is ever overwritten; the newest ten stay. */
    method Snapshot(now: int) returns (taken: Option<Stamp>)
      modifies this`backups
      ensures old(live).None? ==> taken == None && backups == old(backups)
      ensures old(live).Some? ==>
                && taken.Some? && taken.value !in old(backups)
                && (forall k :: k in old(backups) ==> k.seconds < taken.value.seconds)
                && taken.value.seconds >= now
                && (taken.value.seconds == now || (old(backups) == map[] && taken.value.seconds == 0) ||
                    exists k :: k in old(backups) && taken.value.seconds == k.seconds + 1)
                && backups == Rotated(old(backups)[taken.value := old(live).value])
                && taken.value in backups && backups[taken.value] == old(live).value
      ensures old(live).Some? ==>
                forall k :: k in old(backups) ==> (k in backups <==> Newer(old(backups).Keys, k) < 9)
      ensures forall k :: k in old(backups) && k in backups ==> backups[k] == old(backups)[k]
    {
      if live.None? {
        return None;
      }
      var list := NewestFirst(backups.Keys);
      var next := if list != [] then list[0].seconds + 1 else 0;
      var ts := Stamp(if now >= next then now else next);
      if list != [] { ListsEach(backups.Keys, list[0]); }
      if k :| k in backups { ListsEach(backups.Keys, k); }
      forall k | k in backups ensures k.seconds < ts.seconds {
        ListsEach(backups.Keys, k);
        ListsOnce(backups.Keys);
        var i :| 0 <= i < |list| && list[i] == k;
      }
      RotatedWithOneMore(backups, ts, live.value);
      backups := backups[ts := live.value];
      Rotate();
      taken := Some(ts);
    }

    /** Restoring makes the target equal to the chosen backup and keeps what it replaced
        as a backup.  It succeeds exactly when the backup exists and either nothing is
        live or the backup is among the newest nine: an older one is rotated away by the
        snapshot taken first, so the refusal deletes the very backup asked for, and the
        live file is left as it was. */
    method Restore(timestamp: Stamp, now: int) returns (done: Result<Stamp, RestoreError>)
      modifies this
      ensures done.Ok? <==>
                timestamp in old(backups) &&
                (old(live).None? || Newer(old(backups).Keys, timestamp) < 9)
      ensures done.Ok? ==> live == Some(old(backups)[timestamp])
      ensures done.Ok? && old(live).Some? ==>
                exists k :: k in backups && k !in old(backups) && backups[k] == old(live).value
      ensures done.Err? ==> live == old(live)
      ensures done.Err? && timestamp in old(backups) ==> timestamp !in backups
      ensures timestamp !in old(backups) || old(live).None? ==> backups == old(backups)
      ensures timestamp in old(backups) && old(live).Some? ==>
                forall k :: k in old(backups) ==> (k in backups <==> Newer(old(backups).Keys, k) < 9)
      ensures forall k :: k in old(backups) && k in backups ==> backups[k] == old(backups)[k]
    {
      if timestamp !in backups {
        return Err(NoSuchBackup);
      }
      var taken := Snapshot(now);
      if timestamp !in backups {
        return Err(NoSuchBackup);
      }
      live := Some(backups[timestamp]);
      done := Ok(timestamp);
    }
  }
}
