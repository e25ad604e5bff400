/** Which row of a device type carries the flag of the latest firmware, over whole runs. */
module FirmwareFlags {
  import opened Clauses
  import opened FirmwareTable
  import LatestFirmware
  import DeviceReport
  import Manifest

  // ----- additions to an empty table -----

  /** A firmware and the identifier it is stored under. */
  datatype Addition = Addition(f: Firmware, id: string)

  function AddedAll(db: FirmwareEngine, additions: seq<Addition>): State
  {
    if additions == [] then State([], LatestFirmware.EMPTY)
    else
      var a := additions[|additions| - 1];
      Added(db, AddedAll(db, additions[..|additions| - 1]), a.f, a.id)
  }

  /** Every identifier is used once, and no device type holds a quote. */
  ghost predicate Proper(additions: seq<Addition>)
  {
    (forall i, j :: 0 <= i < j < |additions| ==> additions[i].id != additions[j].id) &&
    forall i :: 0 <= i < |additions| ==> Plain(additions[i].f.deviceType)
  }

  function CallsFor(additions: seq<Addition>): (calls: seq<LatestFirmware.Call>)
    ensures |calls| == |additions|
  {
    seq(|additions|, i requires 0 <= i < |additions| => CallOf(Stored(additions[i].f, additions[i].id)))
  }

  function UsedIds(additions: seq<Addition>): set<string>
  {
    set a | a in additions :: a.id
  }

  lemma AddedAllStep(db: FirmwareEngine, front: seq<Addition>, a: Addition)
    ensures AddedAll(db, front + [a]) == Added(db, AddedAll(db, front), a.f, a.id)
    ensures CallsFor(front + [a]) == CallsFor(front) + [CallOf(Stored(a.f, a.id))]
    ensures UsedIds(front + [a]) == UsedIds(front) + {a.id}
  {
    assert (front + [a])[..|front|] == front;
  }

  lemma CacheOfAdditions(calls: seq<LatestFirmware.Call>, c: LatestFirmware.Call)
    ensures LatestFirmware.Run(calls + [c]) == LatestFirmware.Added(LatestFirmware.Run(calls), c)
  {
    assert (calls + [c])[..|calls|] == calls;
  }

  lemma IdsAfterAdding(db: FirmwareEngine, s: State, f: Firmware, id: string)
    ensures Ids(Added(db, s, f, id).rows) <= Ids(s.rows) + {id}
    ensures Added(db, s, f, id).cache == LatestFirmware.Added(s.cache, CallOf(Stored(f, id)))
  {
    ClearedKeepsIds(s.rows, Ids(Select(s.rows, db(LatestClause(f.deviceType)), MANY)));
    hide Cleared, LatestFirmware.Added, Select;
  }

  lemma {:induction false} AdditionsKeep(db: FirmwareEngine, additions: seq<Addition>)
    requires Conforms(db, Columns) && Proper(additions)
    ensures var s := AddedAll(db, additions);
            DistinctIds(s.rows) && OneFlagEach(s.rows) && Ids(s.rows) <= UsedIds(additions) &&
            s.cache == LatestFirmware.Run(CallsFor(additions))
  {
    if additions == [] {
      assert forall d :: Flags([], d) == [];
    } else {
      var front, a := additions[..|additions| - 1], additions[|additions| - 1];
      assert additions == front + [a];
      hide Conforms, Added, OneFlagEach, DistinctIds, Ids, LatestFirmware.Run, LatestFirmware.Added;
      AdditionsKeep(db, front);
      AddedAllStep(db, front, a);
      CacheOfAdditions(CallsFor(front), CallOf(Stored(a.f, a.id)));
      var s := AddedAll(db, front);
      assert a.id !in UsedIds(front);
      IdsAfterAdding(db, s, a.f, a.id);
      AddingKeepsOneFlag(db, s, a.f, a.id);
    }
  }

  /** Addition i is the last for its device type. */
  ghost predicate LastOfType(additions: seq<Addition>, i: nat)
  {
    i < |additions| && forall j :: i < j < |additions| ==> additions[j].f.deviceType != additions[i].f.deviceType
  }

  lemma {:induction false} LastAdditionIsFlagged(db: FirmwareEngine, additions: seq<Addition>, i: nat)
    requires Conforms(db, Columns) && Proper(additions) && LastOfType(additions, i)
    ensures var a := additions[i];
            Flags(AddedAll(db, additions).rows, a.f.deviceType) == [a.f.(id := a.id, latest := true)]
  {
    var n := |additions| - 1;
    var front, b := additions[..n], additions[n];
    assert additions == front + [b];
    hide Conforms, Added, Flags, DistinctIds, Ids;
    AdditionsKeep(db, front);
    AddedAllStep(db, front, b);
    assert b.id !in UsedIds(front);
    AddingFlagsOne(db, AddedAll(db, front), b.f, b.id);
    if i < n {
      LastAdditionIsFlagged(db, front, i);
    }
  }

  /** Over every sequence of additions to an empty table, the flagged row of a device type is the last
      one added, and it is the cached firmware exactly when no earlier image of the type is newer. */
  lemma FlagAgreesWithCacheExactly(db: FirmwareEngine, additions: seq<Addition>, i: nat)
    requires Conforms(db, Columns) && Proper(additions) && LastOfType(additions, i)
    ensures var s, d := AddedAll(db, additions), additions[i].f.deviceType;
            |Flags(s.rows, d)| == 1 && d in s.cache.all &&
            (Flags(s.rows, d)[0].id == s.cache.all[d].id <==>
             forall j :: 0 <= j < i && additions[j].f.deviceType == d ==>
                 additions[j].f.imageDate <= additions[i].f.imageDate)
  {
    var s, d := AddedAll(db, additions), additions[i].f.deviceType;
    hide Conforms, AddedAll, Flags, LatestFirmware.Run;
    LastAdditionIsFlagged(db, additions, i);
    AdditionsKeep(db, additions);
    LatestFirmware.CacheHoldsLatest(CallsFor(additions), d);
    CachedAddition(additions, s.cache.all, i);
  }

  lemma CachedAddition(additions: seq<Addition>, cache: map<string, LatestFirmware.Entry>, i: nat)
    requires Proper(additions) && LastOfType(additions, i)
    requires LatestFirmware.Holds(cache, CallsFor(additions), additions[i].f.deviceType, LatestFirmware.Any)
    ensures var d := additions[i].f.deviceType;
            d in cache &&
            (cache[d].id == additions[i].id <==>
             forall j :: 0 <= j < i && additions[j].f.deviceType == d ==>
                 additions[j].f.imageDate <= additions[i].f.imageDate)
  {
    var calls, d := CallsFor(additions), additions[i].f.deviceType;
    assert calls[i].deviceType == d && LatestFirmware.Any(calls[i]);
    LatestFirmware.HeldIffWanted(cache, calls, d, LatestFirmware.Any);
    var k: nat :| LatestFirmware.IsLastGreatest(calls, d, LatestFirmware.Any, k) &&
                  cache[d] == LatestFirmware.EntryOf(calls[k]);
    GreatestIsLastExactly(additions, i, k);
    assert additions[k].id == additions[i].id <==> k == i by {
      hide LatestFirmware.IsLastGreatest, LatestFirmware.Holds;
    }
  }

  lemma GreatestIsLastExactly(additions: seq<Addition>, i: nat, k: nat)
    requires LastOfType(additions, i)
    requires LatestFirmware.IsLastGreatest(CallsFor(additions), additions[i].f.deviceType, LatestFirmware.Any, k)
    ensures k <= i < |additions| && CallsFor(additions)[k].id == additions[k].id
    ensures k == i <==>
            forall j :: 0 <= j < i && additions[j].f.deviceType == additions[i].f.deviceType ==>
                          additions[j].f.imageDate <= additions[i].f.imageDate
  {
    var calls, d := CallsFor(additions), additions[i].f.deviceType;
    assert calls[k].deviceType == additions[k].f.deviceType && calls[i].deviceType == d && LatestFirmware.Any(calls[i]);
    forall j | 0 <= j < i && additions[j].f.deviceType == d
      ensures additions[j].f.imageDate <= additions[k].f.imageDate
    {
      assert calls[j].deviceType == d && LatestFirmware.Any(calls[j]);
    }
  }

  // ----- the cache and the rows -----

  /** Up to the flags the rows are the firmwares that were added, in order. */
  lemma {:induction false} RowsAreAdditions(db: FirmwareEngine, additions: seq<Addition>)
    requires Conforms(db, Columns) && Proper(additions)
    ensures Bare(AddedAll(db, additions).rows) ==
            seq(|additions|, i requires 0 <= i < |additions| => additions[i].f.(id := additions[i].id, latest := false))
  {
    if additions != [] {
      var front, a := additions[..|additions| - 1], additions[|additions| - 1];
      assert additions == front + [a];
      AdditionsKeep(db, front);
      AddedAllStep(db, front, a);
      assert a.id !in UsedIds(front);
      RowsAreAdditions(db, front);
      BareAdded(db, AddedAll(db, front), a.f, a.id);
      hide Conforms, Added, Ids, DistinctIds, OneFlagEach, LatestFirmware.Run;
    }
  }

  /** Some row is the firmware that an entry of the cache stands for: it has the identifier, the revision
      and the image date of the entry and is of the device type. */
  ghost predicate IsARow(rows: seq<Firmware>, d: string, e: LatestFirmware.Entry)
  {
    exists f :: f in rows && f.deviceType == d && f.id == e.id && f.revision == e.revision && f.imageDate == e.timeStamp
  }

  lemma AdditionIsARow(rows: seq<Firmware>, additions: seq<Addition>, k: nat)
    requires k < |additions|
    requires Bare(rows) ==
             seq(|additions|, i requires 0 <= i < |additions| =>
               additions[i].f.(id := additions[i].id, latest := false))
    ensures var a := additions[k]; IsARow(rows, a.f.deviceType, LatestFirmware.Entry(a.id, a.f.imageDate, a.f.revision))
  {
    assert |rows| == |Bare(rows)| == |additions|;
    assert Bare(rows)[k] == rows[k].(latest := false) == additions[k].f.(id := additions[k].id, latest := false);
    assert rows[k] in rows;
    assert rows[k].id == additions[k].id && rows[k].revision == additions[k].f.revision;
  }

  /** Over every sequence of additions to an empty table, what the caches say of a device type is what a
      row of it says. */
  lemma CachedFirmwareIsARow(db: FirmwareEngine, additions: seq<Addition>, d: string)
    requires Conforms(db, Columns) && Proper(additions)
    ensures var s := AddedAll(db, additions);
            (d in s.cache.all ==> IsARow(s.rows, d, s.cache.all[d])) &&
            (d in s.cache.rc ==> IsARow(s.rows, d, s.cache.rc[d]) && LatestFirmware.IsRC(s.cache.rc[d].revision))
  {
    var s, calls := AddedAll(db, additions), CallsFor(additions);
    hide Conforms, AddedAll, Bare, IsARow, LatestFirmware.Run, LatestFirmware.IsRC;
    AdditionsKeep(db, additions);
    RowsAreAdditions(db, additions);
    LatestFirmware.CacheHoldsLatest(calls, d);
    if d in s.cache.all {
      var k: nat :| LatestFirmware.IsLastGreatest(calls, d, LatestFirmware.Any, k) &&
                    s.cache.all[d] == LatestFirmware.EntryOf(calls[k]);
      AdditionIsARow(s.rows, additions, k);
    }
    if d in s.cache.rc {
      var k: nat :| LatestFirmware.IsLastGreatest(calls, d, LatestFirmware.CallIsRC, k) &&
                    s.cache.rc[d] == LatestFirmware.EntryOf(calls[k]);
      AdditionIsARow(s.rows, additions, k);
    }
  }

  // ----- flags after a manifest -----

  /** Some row is of a device type. */
  ghost predicate HasType(rows: seq<Firmware>, d: string)
  {
    exists f :: f in rows && f.deviceType == d
  }

  lemma HasTypeStep(rows: seq<Firmware>, f: Firmware, d: string)
    ensures HasType(rows + [f], d) <==> HasType(rows, d) || f.deviceType == d
  {
    assert f in rows + [f];
    assert forall g :: g in rows ==> g in rows + [f];
  }

  /** What one insertion does to the flags of a device type. */
  lemma FlagsStep(db: FirmwareEngine, t: State, n: string, e: Manifest.Entry, draw: Draw, d: string)
    requires Conforms(db, Columns) && (e.valid ==> Plain(n) && Plain(e.compatible))
    requires DistinctIds(t.rows) && OneFlagEach(t.rows) && draw.id !in Ids(t.rows)
    ensures Flags(Inserted(db, t, n, e, draw).rows, d) != [] <==>
            Flags(t.rows, d) != [] || (Wanted(db, t.rows, n, e) && e.compatible == d)
  {
    hide Conforms, Wanted, Added, Flags, DistinctIds, Ids;
    if Wanted(db, t.rows, n, e) {
      WantedIsValid(db, t.rows, n, e);
      AddingFlagsOne(db, t, RowOf(n, e, draw), draw.id);
    }
  }

  lemma WantedIsValid(db: FirmwareEngine, rows: seq<Firmware>, n: string, e: Manifest.Entry)
    ensures Wanted(db, rows, n, e) ==> e.valid
  {
  }

  lemma {:induction false} FlagsAfterInserts(db: FirmwareEngine, s: State, bucket: Manifest.Bucket, names: seq<string>,
                                             draws: seq<Draw>, d: string)
    requires Conforms(db, Columns) && PlainBucket(bucket)
    requires |draws| == |names| && FreshDraws(s.rows, draws) && Distinct(names)
    requires DistinctIds(s.rows) && OneFlagEach(s.rows)
    ensures Flags(InsertedAll(db, s, bucket, names, draws).rows, d) != [] <==>
            Flags(s.rows, d) != [] || HasType(Missing(s.rows, bucket, names, draws), d)
  {
    if names != [] {
      var k := |names| - 1;
      var n, draw := names[k], draws[k];
      FlagsAfterInserts(db, s, bucket, names[..k], draws[..k], d);
      InsertsAreMissing(db, s, bucket, names[..k], draws[..k]);
      InsertsKeepOneFlag(db, s, bucket, names[..k], draws[..k]);
      var t := InsertedAll(db, s, bucket, names[..k], draws[..k]);
      var m := Missing(s.rows, bucket, names[..k], draws[..k]);
      assert draw.id !in Ids(t.rows);
      if n in bucket {
        var e := bucket[n];
        MissingAreNamed(s.rows, bucket, names[..k], draws[..k]);
        assert !HasRow(m, n, e.compatible);
        WantedLater(db, s, t, m, n, e);
        FlagsStep(db, t, n, e, draw, d);
        HasTypeStep(m, RowOf(n, e, draw), d);
      }
      hide Conforms, HasRow, Wanted, Inserted, Ids, Bare, Flags, HasType, OneFlagEach, DistinctIds;
    }
  }

  /** After a manifest is brought in, a device type has its one flagged row exactly when something of the
      type came in or its flagged row stayed; otherwise rows of the type are left without a flag. */
  lemma TypeIsFlaggedExactly(db: FirmwareEngine, s: State, bucket: Manifest.Bucket, names: seq<string>,
                             draws: seq<Draw>, d: string)
    requires Conforms(db, Columns) && PlainBucket(bucket)
    requires |draws| == |names| && FreshDraws(s.rows, draws) && Distinct(names)
    requires DistinctIds(s.rows) && OneFlagEach(s.rows)
    ensures var t, kept := Brought(db, s, bucket, names, draws), Kept(s.rows, bucket);
            |Flags(t.rows, d)| == 1 <==> HasType(Missing(kept, bucket, names, draws), d) || Flags(kept, d) != []
  {
    var kept := Kept(s.rows, bucket);
    hide Conforms, InsertedAll, Missing, Flags, DistinctIds, FreshDraws, HasType, Kept;
    KeptIsDistinct(s.rows, bucket);
    FreshForKept(s.rows, bucket, draws);
    ManifestKeepsOneFlag(db, s, bucket, names, draws);
    KeptFlags(s.rows, bucket);
    FlagsAfterInserts(db, State(kept, s.cache), bucket, names, draws, d);
  }

  lemma KeptFlags(rows: seq<Firmware>, bucket: Manifest.Bucket)
    requires OneFlagEach(rows)
    ensures OneFlagEach(Kept(rows, bucket))
  {
    forall d: string ensures |Flags(Kept(rows, bucket), d)| <= 1 {
      MatchingIsNoMore(rows, Listed(bucket), d);
    }
  }
}
