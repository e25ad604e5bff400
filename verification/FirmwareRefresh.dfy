/** What a refresh of the firmware table means for later refreshes and for the ages of devices. */
module FirmwareRefresh {
  import opened Widths
  import opened Clauses
  import opened FirmwareTable
  import LatestFirmware
  import TableWalk
  import DeviceReport
  import Manifest

  // ----- a refresh that is repeated -----

  /** Every entry that a refresh has to insert has an image young enough to stay. */
  ghost predicate InsertsAreYoung(rows: seq<Firmware>, limit: nat, bucket: Manifest.Bucket)
  {
    forall n :: Lacks(Kept(Young(rows, limit), bucket), bucket, n) ==> bucket[n].s3TimeStamp >= limit
  }

  lemma FreshForYoung(rows: seq<Firmware>, limit: nat, draws: seq<Draw>)
    requires FreshDraws(rows, draws)
    ensures FreshDraws(Young(rows, limit), draws)
  {
    MatchingIs(rows, NotBefore(limit));
    hide TableWalk.Matching;
  }

  lemma {:induction false} AllYoung(rows: seq<Firmware>, limit: nat)
    requires forall f :: f in rows ==> f.imageDate >= limit
    ensures Young(rows, limit) == rows
  {
    if rows != [] {
      MatchingStep(rows, NotBefore(limit));
      AllYoung(rows[1..], limit);
      assert rows == [rows[0]] + rows[1..];
    }
  }

  lemma BareRow(rows: seq<Firmware>, f: Firmware)
    ensures f in rows ==> f.(latest := false) in Bare(rows)
    ensures f in Bare(rows) ==> exists g :: g in rows && g.(latest := false) == f
  {
    var b := Bare(rows);
    if f in rows {
      var i :| 0 <= i < |rows| && rows[i] == f;
      assert b[i] in b;
    }
    if f in b {
      var i :| 0 <= i < |b| && b[i] == f;
      assert rows[i] in rows;
    }
  }

  /** Where the rows of a refreshed table come from. */
  lemma RefreshedRows(db: FirmwareEngine, s: State, limit: nat, bucket: Manifest.Bucket, names: seq<string>,
                      draws: seq<Draw>, f: Firmware)
    requires Conforms(db, Columns) && PlainBucket(bucket)
    requires |draws| == |names| && FreshDraws(s.rows, draws) && Distinct(names)
    requires forall n :: n in bucket ==> n in names
    ensures var t, kept := Refreshed(db, s, limit, bucket, names, draws), Kept(Young(s.rows, limit), bucket);
            (f in t.rows ==> f.imageDate >= limit || f.(latest := false) in Missing(kept, bucket, names, draws)) &&
            (f in Missing(kept, bucket, names, draws) ==> f in Bare(t.rows))
  {
    FreshForYoung(s.rows, limit, draws);
    var r := Young(s.rows, limit);
    RecentIsYoung(db, s.rows, limit);
    TableFollowsManifest(db, State(r, s.cache), bucket, names, draws);
    MatchingIs(s.rows, NotBefore(limit));
    MatchingIs(r, Listed(bucket));
    var t, kept := Refreshed(db, s, limit, bucket, names, draws), Kept(r, bucket);
    BareRow(t.rows, f);
    BareRow(kept, f.(latest := false));
    hide Conforms, Brought, Missing, Bare, TableWalk.Matching, AllListed, AllPresent, PlainBucket, FreshDraws;
  }

  lemma RefreshFollows(db: FirmwareEngine, s: State, limit: nat, bucket: Manifest.Bucket, names: seq<string>,
                       draws: seq<Draw>)
    requires Conforms(db, Columns) && PlainBucket(bucket)
    requires |draws| == |names| && FreshDraws(s.rows, draws) && Distinct(names)
    requires forall n :: n in bucket ==> n in names
    ensures var t := Refreshed(db, s, limit, bucket, names, draws);
            AllListed(t.rows, bucket) && AllPresent(t.rows, bucket)
  {
    FreshForYoung(s.rows, limit, draws);
    RecentIsYoung(db, s.rows, limit);
    TableFollowsManifest(db, State(Young(s.rows, limit), s.cache), bucket, names, draws);
    hide Recent, Conforms, Brought, AllListed, AllPresent, PlainBucket, FreshDraws;
  }

  lemma MissingIsDrawn(rows: seq<Firmware>, bucket: Manifest.Bucket, names: seq<string>, draws: seq<Draw>, f: Firmware)
    requires |draws| == |names| && f in Missing(rows, bucket, names, draws)
    ensures exists i :: 0 <= i < |draws| && draws[i].id == f.id
  {
    MissingAreNamed(rows, bucket, names, draws);
    hide Missing, Lacks;
  }

  /** An old image that was inserted goes with the next refresh: no row of that identifier is left. */
  lemma OldInsertGoes(db: FirmwareEngine, t: State, limit: nat, bucket: Manifest.Bucket, names: seq<string>,
                      again: seq<Draw>, f: Firmware)
    requires Conforms(db, Columns) && PlainBucket(bucket)
    requires |again| == |names| && FreshDraws(t.rows, again) && Distinct(names)
    requires forall n :: n in bucket ==> n in names
    requires f in t.rows && f.imageDate < limit
    ensures f !in Refreshed(db, t, limit, bucket, names, again).rows
  {
    hide Conforms, Refreshed, Missing, PlainBucket;
    var u := Refreshed(db, t, limit, bucket, names, again);
    assert f.id in Ids(t.rows);
    if f in u.rows {
      RefreshedRows(db, t, limit, bucket, names, again, f);
      MissingIsDrawn(Kept(Young(t.rows, limit), bucket), bucket, names, again, f.(latest := false));
    }
  }

  lemma YoungInserts(rows: seq<Firmware>, limit: nat, bucket: Manifest.Bucket, names: seq<string>, draws: seq<Draw>)
    requires |draws| == |names|
    requires forall n :: n in bucket ==> n in names
    ensures InsertsAreYoung(rows, limit, bucket) <==>
            forall f :: f in Missing(Kept(Young(rows, limit), bucket), bucket, names, draws) ==> f.imageDate >= limit
  {
    var kept := Kept(Young(rows, limit), bucket);
    MissingAreNamed(kept, bucket, names, draws);
    hide Missing, Kept, Young, HasRow;
  }

  lemma UnchangedRefresh(db: FirmwareEngine, t: State, limit: nat, bucket: Manifest.Bucket, names: seq<string>,
                         again: seq<Draw>)
    requires Conforms(db, Columns) && |again| == |names| && Young(t.rows, limit) == t.rows
    ensures Refreshed(db, t, limit, bucket, names, again) == Brought(db, t, bucket, names, again)
  {
    hide Conforms, Brought, Recent, Young;
    RecentIsYoung(db, t.rows, limit);
    assert State(t.rows, t.cache) == t;
  }

  /** The same entries judged again: none has become valid or changed its device type. */
  ghost predicate JudgedAgain(bucket: Manifest.Bucket, next: Manifest.Bucket)
  {
    bucket.Keys == next.Keys &&
    forall n :: n in next && next[n].valid ==> bucket[n].valid && next[n].compatible == bucket[n].compatible
  }

  /** A later limit judges a bucket that way. */
  lemma LaterLimitJudgesAgain(b: Manifest.Bucket, limit: nat, later: nat, parse: string -> Manifest.Doc)
    requires limit <= later && forall n :: n in b ==> !b[n].valid
    ensures JudgedAgain(WithoutStaging(Manifest.AllJudged(b, limit, parse)),
                        WithoutStaging(Manifest.AllJudged(b, later, parse)))
  {
    hide StandsAt;
  }

  lemma PresentForJudgedAgain(rows: seq<Firmware>, bucket: Manifest.Bucket, next: Manifest.Bucket)
    requires JudgedAgain(bucket, next) && AllListed(rows, bucket) && AllPresent(rows, bucket)
    ensures AllListed(rows, next) && AllPresent(rows, next)
  {
    hide HasRow;
  }

  /** A second refresh, at whatever limit, on the same entries judged again changes nothing exactly when
      every row the first one left has an image that is not older than the second limit. */
  lemma RefreshAgainExactly(db: FirmwareEngine, s: State, limit: nat, bucket: Manifest.Bucket, names: seq<string>,
                            draws: seq<Draw>, later: nat, next: Manifest.Bucket, again: seq<Draw>)
    requires Conforms(db, Columns) && PlainBucket(bucket) && JudgedAgain(bucket, next)
    requires |draws| == |names| == |again| && FreshDraws(s.rows, draws) && Distinct(names)
    requires forall n :: n in bucket ==> n in names
    requires FreshDraws(Refreshed(db, s, limit, bucket, names, draws).rows, again)
    ensures var t := Refreshed(db, s, limit, bucket, names, draws);
            Refreshed(db, t, later, next, names, again) == t <==> forall f :: f in t.rows ==> f.imageDate >= later
  {
    hide Conforms, Missing, Brought, FreshDraws, Refreshed;
    var t := Refreshed(db, s, limit, bucket, names, draws);
    if forall f :: f in t.rows ==> f.imageDate >= later {
      AllYoung(t.rows, later);
      RefreshFollows(db, s, limit, bucket, names, draws);
      PresentForJudgedAgain(t.rows, bucket, next);
      UnchangedRefresh(db, t, later, next, names, again);
      ManifestChangesNothing(db, t, next, names, again);
    } else {
      var f :| f in t.rows && f.imageDate < later;
      OldInsertGoes(db, t, later, next, names, again, f);
    }
  }

  /** With the limit unchanged, that is when no image the first refresh had to insert is older than the
      limit. Judgement looks at the time stamp in the manifest, the removal of old rows at the date of the
      image, so nothing else makes sure of that. */
  lemma RefreshTwiceExactly(db: FirmwareEngine, s: State, limit: nat, bucket: Manifest.Bucket, names: seq<string>,
                            draws: seq<Draw>, again: seq<Draw>)
    requires Conforms(db, Columns) && PlainBucket(bucket)
    requires |draws| == |names| == |again| && FreshDraws(s.rows, draws) && Distinct(names)
    requires forall n :: n in bucket ==> n in names
    requires FreshDraws(Refreshed(db, s, limit, bucket, names, draws).rows, again)
    ensures var t := Refreshed(db, s, limit, bucket, names, draws);
            Refreshed(db, t, limit, bucket, names, again) == t <==> InsertsAreYoung(s.rows, limit, bucket)
  {
    hide Conforms, PlainBucket, InsertsAreYoung, Missing, Brought, FreshDraws, Refreshed;
    var t := Refreshed(db, s, limit, bucket, names, draws);
    var m := Missing(Kept(Young(s.rows, limit), bucket), bucket, names, draws);
    RefreshAgainExactly(db, s, limit, bucket, names, draws, limit, bucket, again);
    YoungInserts(s.rows, limit, bucket, names, draws);
    if InsertsAreYoung(s.rows, limit, bucket) {
      forall f | f in t.rows ensures f.imageDate >= limit {
        RefreshedRows(db, s, limit, bucket, names, draws, f);
      }
    } else {
      var f :| f in m && f.imageDate < limit;
      RefreshedRows(db, s, limit, bucket, names, draws, f);
      BareRow(t.rows, f);
    }
  }

  /** The rows of a refreshed table, by the ages of the images: those that stay, and those that come in for
      the valid entries that had none. */
  lemma RefreshedTable(db: FirmwareEngine, s: State, now: nat, maxAge: nat, bucket: Manifest.Bucket, names: seq<string>,
                       draws: seq<Draw>, f: Firmware)
    requires Conforms(db, Columns) && PlainBucket(bucket) && maxAge <= now < U64
    requires |draws| == |names| && FreshDraws(s.rows, draws) && Distinct(names)
    requires forall n :: n in bucket ==> n in names
    ensures var t := Refreshed(db, s, Manifest.Limit(now, maxAge), bucket, names, draws);
            var kept := Kept(Young(s.rows, Manifest.Limit(now, maxAge)), bucket);
            (f in kept <==> f in s.rows && f.imageDate + maxAge >= now && f.release in bucket) &&
            Bare(t.rows) == Bare(kept) + Missing(kept, bucket, names, draws)
  {
    var limit := Manifest.Limit(now, maxAge);
    FreshForYoung(s.rows, limit, draws);
    RecentIsYoung(db, s.rows, limit);
    YoungByAge(s.rows, now, maxAge);
    MatchingIs(Young(s.rows, limit), Listed(bucket));
    TableFollowsManifest(db, State(Young(s.rows, limit), s.cache), bucket, names, draws);
    hide Conforms, Brought, Recent, Young, Missing, Bare, TableWalk.Matching, PlainBucket, FreshDraws, Manifest.Limit;
  }

  // ----- ages after a refresh -----

  /** Some row of a device type is at least as new as the cached firmware of the type, if there is one. */
  ghost predicate AsNew(rows: seq<Firmware>, d: string, cache: map<string, LatestFirmware.Entry>)
  {
    exists f :: f in rows && f.deviceType == d && (d in cache ==> cache[d].timeStamp <= f.imageDate)
  }

  /** The cached firmware of a device type is one of the rows. */
  ghost predicate CachedAmong(cache: map<string, LatestFirmware.Entry>, d: string, rows: seq<Firmware>)
  {
    d in cache && cache[d].id in Ids(rows)
  }

  lemma AsNewStep(rows: seq<Firmware>, f: Firmware, d: string, cache: map<string, LatestFirmware.Entry>)
    ensures AsNew(rows + [f], d, cache) <==>
            AsNew(rows, d, cache) || (f.deviceType == d && (d in cache ==> cache[d].timeStamp <= f.imageDate))
    ensures Ids(rows + [f]) == Ids(rows) + {f.id}
  {
    assert f in rows + [f];
    assert forall g :: g in rows ==> g in rows + [f];
  }

  /** What one insertion does to the cached firmware of a device type. */
  lemma CacheStep(db: FirmwareEngine, t: State, f: Firmware, id: string, d: string)
    ensures var c, c' := t.cache.all, Added(db, t, f, id).cache.all;
            if f.deviceType == d && (d in c ==> c[d].timeStamp <= f.imageDate) then d in c' && c'[d].id == id
            else (d in c <==> d in c') && (d in c ==> c'[d] == c[d])
  {
    hide Cleared, Select;
  }

  /** Insertions put an inserted row into the cache if one is new enough and else leave it alone. */
  lemma {:induction false} CacheAfterInserts(db: FirmwareEngine, s: State, bucket: Manifest.Bucket, names: seq<string>,
                                             draws: seq<Draw>, d: string)
    requires Conforms(db, Columns) && PlainBucket(bucket)
    requires |draws| == |names| && FreshDraws(s.rows, draws) && Distinct(names)
    ensures var c, c' := s.cache.all, InsertedAll(db, s, bucket, names, draws).cache.all;
            var m := Missing(s.rows, bucket, names, draws);
            if AsNew(m, d, c) then CachedAmong(c', d, m)
            else (d in c <==> d in c') && (d in c ==> c'[d] == c[d])
  {
    if names != [] {
      var k := |names| - 1;
      var n, draw := names[k], draws[k];
      CacheAfterInserts(db, s, bucket, names[..k], draws[..k], d);
      InsertsAreMissing(db, s, bucket, names[..k], draws[..k]);
      var t := InsertedAll(db, s, bucket, names[..k], draws[..k]);
      var m := Missing(s.rows, bucket, names[..k], draws[..k]);
      if n in bucket {
        var e := bucket[n];
        MissingAreNamed(s.rows, bucket, names[..k], draws[..k]);
        assert !HasRow(m, n, e.compatible);
        WantedLater(db, s, t, m, n, e);
        var f := RowOf(n, e, draw);
        CacheStep(db, t, f, draw.id, d);
        AsNewStep(m, f, d, s.cache.all);
      }
      hide Conforms, HasRow, Wanted, Added, Ids, AsNew, Bare;
    }
  }

  lemma AgeNeedsCachedRow(db: FirmwareEngine, table: seq<Firmware>, cache: LatestFirmware.Cache, d: string,
                          revision: string)
    ensures DeviceReport.ComputeFirmwareAge(db, table, cache, d, revision).Some? <==> CachedAmong(cache.all, d, table)
  {
    if d in cache.all {
      var id := cache.all[d].id;
      DeviceReport.FirstMatching(table, (f: Firmware) => f.id == id, 1);
      assert id in Ids(table) <==> exists i :: 0 <= i < |table| && table[i].id == id;
    }
    hide DeviceReport.GetFirmwareByRevision;
  }

  lemma IdsOfSum(a: seq<Firmware>, b: seq<Firmware>)
    ensures Ids(a + b) == Ids(a) + Ids(b)
  {
    forall f | f in a + b ensures f in a || f in b {
    }
    assert forall f :: f in a || f in b ==> f in a + b;
  }

  /** The cache is not told when rows go. After a manifest is brought in, the ages of a device type are
      determined exactly when a firmware at least as new as the cached one came in, or the cached one
      is of a release that is still in the bucket. */
  lemma AgesAfterManifest(db: FirmwareEngine, s: State, bucket: Manifest.Bucket, names: seq<string>, draws: seq<Draw>,
                          d: string, revision: string)
    requires Conforms(db, Columns) && PlainBucket(bucket)
    requires |draws| == |names| && FreshDraws(s.rows, draws) && Distinct(names)
    requires forall n :: n in bucket ==> n in names
    requires d in s.cache.all ==> forall i :: 0 <= i < |draws| ==> draws[i].id != s.cache.all[d].id
    ensures var t, kept := Brought(db, s, bucket, names, draws), Kept(s.rows, bucket);
            DeviceReport.ComputeFirmwareAge(db, t.rows, t.cache, d, revision).Some? <==>
            AsNew(Missing(kept, bucket, names, draws), d, s.cache.all) || CachedAmong(s.cache.all, d, kept)
  {
    hide Conforms, PlainBucket, Missing, InsertedAll, Kept, FreshDraws, DeviceReport.ComputeFirmwareAge, AsNew, Ids,
        Bare, AllListed, AllPresent;
    var t, kept := Brought(db, s, bucket, names, draws), Kept(s.rows, bucket);
    var m := Missing(kept, bucket, names, draws);
    AgeNeedsCachedRow(db, t.rows, t.cache, d, revision);
    FreshForKept(s.rows, bucket, draws);
    CacheAfterInserts(db, State(kept, s.cache), bucket, names, draws, d);
    TableFollowsManifest(db, s, bucket, names, draws);
    BareIds(t.rows);
    BareIds(kept);
    IdsOfSum(Bare(kept), m);
    DrawnIds(kept, bucket, names, draws);
  }

  lemma DrawnIds(rows: seq<Firmware>, bucket: Manifest.Bucket, names: seq<string>, draws: seq<Draw>)
    requires |draws| == |names|
    ensures forall id :: id in Ids(Missing(rows, bucket, names, draws)) ==>
                           exists i :: 0 <= i < |draws| && draws[i].id == id
  {
    forall id | id in Ids(Missing(rows, bucket, names, draws))
      ensures exists i :: 0 <= i < |draws| && draws[i].id == id
    {
      var f :| f in Missing(rows, bucket, names, draws) && f.id == id;
      MissingIsDrawn(rows, bucket, names, draws, f);
    }
    hide Missing;
  }

  /** A cache that was filled from the table satisfies what is asked of the identifiers drawn. */
  lemma FilledCacheIsFresh(rows: seq<Firmware>, draws: seq<Draw>, d: string)
    requires FreshDraws(rows, draws)
    ensures var c := LatestFirmware.Run(DeviceReport.CallsOf(rows)).all;
            (d in c ==> forall i :: 0 <= i < |draws| ==> draws[i].id != c[d].id)
  {
    var calls := DeviceReport.CallsOf(rows);
    var c := LatestFirmware.Run(calls).all;
    LatestFirmware.CacheHoldsLatest(calls, d);
    if d in c {
      var i: nat :| LatestFirmware.IsLastGreatest(calls, d, LatestFirmware.Any, i) &&
                    c[d] == LatestFirmware.EntryOf(calls[i]);
      assert rows[i] in rows && rows[i].id == c[d].id;
      assert c[d].id in Ids(rows);
    }
    hide LatestFirmware.Run;
  }
}
