/** The table of firmwares: adding one, and bringing the table in line with a judged manifest. */
module FirmwareTable {
  import opened Options
  import opened Characters
  import opened Clauses
  import opened Decimals
  import SqlText
  import opened Widths
  import TableWalk
  import LatestFirmware
  import Manifest

  datatype Firmware = Firmware(id: string, release: string, deviceType: string, revision: string, uri: string,
                               image: string, imageDate: nat, size: nat, created: nat, latest: bool)

  /** The rows of the table and the cache of latest firmwares. */
  datatype State = State(rows: seq<Firmware>, cache: LatestFirmware.Cache)

  /** A fresh identifier and a reading of the clock. */
  datatype Draw = Draw(id: string, now: nat)

  const MANY: nat := 200

  // ----- statements over the rows -----

  function Flagged(deviceType: string): Firmware -> bool
  {
    (f: Firmware) => f.deviceType == deviceType && f.latest
  }

  function Named(release: string, deviceType: string): Firmware -> bool
  {
    (f: Firmware) => f.release == release && f.deviceType == deviceType
  }

  // ----- statements with a clause -----

  type FirmwareEngine = Engine<Firmware>

  function Columns(f: Firmware): string -> SqlText.Value
  {
    (name: string) =>
      if name == "latest" then SqlText.Bool(f.latest)
      else if name == "imagedate" then SqlText.Int(f.imageDate)
      else if name == "size" then SqlText.Int(f.size)
      else if name == "created" then SqlText.Int(f.created)
      else SqlText.Text(if name == "id" then f.id else if name == "release" then f.release
                        else if name == "devicetype" then f.deviceType else if name == "revision" then f.revision
                        else if name == "uri" then f.uri else f.image)
  }

  function LatestClause(deviceType: string): string
  {
    TwoClause("deviceType", SqlText.Text(deviceType), "AND", "Latest", SqlText.Bool(true))
  }

  function NameClause(release: string, deviceType: string): string
  {
    TwoClause("release", SqlText.Text(release), "and", "DeviceType", SqlText.Text(deviceType))
  }

  lemma LowerNames()
    ensures Lower("deviceType") == "devicetype" && Lower("DeviceType") == "devicetype" && Lower("Latest") == "latest"
    ensures Lower("release") == "release" && Lower("Revision") == "revision" && Lower("AND") == "and" &&
            Lower("and") == "and"
    ensures SqlText.IsFieldName("deviceType") && SqlText.IsFieldName("DeviceType") && SqlText.IsFieldName("Latest")
    ensures SqlText.IsFieldName("release") && SqlText.IsFieldName("Revision")
  {
    hide Lower, SqlText.IsFieldName;
    FieldIs("deviceType", "devicetype");
    FieldIs("DeviceType", "devicetype");
    FieldIs("Latest", "latest");
    FieldIs("release", "release");
    FieldIs("Revision", "revision");
    LowerIs("AND", "and");
    LowerIs("and", "and");
  }

  lemma LowerIs(f: string, l: string)
    requires |f| == |l| && forall i :: 0 <= i < |f| ==> LowerChar(f[i]) == l[i]
    ensures Lower(f) == l
  {
  }

  lemma FieldIs(f: string, l: string)
    requires |f| == |l| > 5 && forall i :: 0 <= i < |f| ==> LowerChar(f[i]) == l[i] && SqlText.IsLetter(f[i])
    ensures Lower(f) == l && SqlText.IsFieldName(f)
  {
    LowerIs(f, l);
  }

  lemma LatestClauseSelects(db: FirmwareEngine, d: string, f: Firmware)
    requires Conforms(db, Columns) && Plain(d)
    ensures db(LatestClause(d))(f) <==> Flagged(d)(f)
  {
    LowerNames();
    TwoClauseSelects(db, Columns, "deviceType", SqlText.Text(d), "AND", "Latest", SqlText.Bool(true), f);
    hide Lower, SqlText.IsFieldName, Conforms;
  }

  lemma NameClauseSelects(db: FirmwareEngine, release: string, d: string, f: Firmware)
    requires Conforms(db, Columns) && Plain(release) && Plain(d)
    ensures db(NameClause(release, d))(f) <==> Named(release, d)(f)
  {
    LowerNames();
    TwoClauseSelects(db, Columns, "release", SqlText.Text(release), "and", "DeviceType", SqlText.Text(d), f);
    hide Lower, SqlText.IsFieldName, Conforms;
  }

  lemma {:induction false} SameMatching(rows: seq<Firmware>, p: Firmware -> bool, q: Firmware -> bool)
    requires forall f :: p(f) <==> q(f)
    ensures TableWalk.Matching(rows, p) == TableWalk.Matching(rows, q)
  {
    if rows != [] {
      SameMatching(rows[1..], p, q);
    }
  }

  /** With plain values the clauses select what they are meant to. */
  lemma ClausesSelect(db: FirmwareEngine, rows: seq<Firmware>, release: string, d: string, howMany: nat)
    requires Conforms(db, Columns)
    ensures Plain(d) ==> Select(rows, db(LatestClause(d)), howMany) == Select(rows, Flagged(d), howMany)
    ensures Plain(release) && Plain(d) ==>
            Select(rows, db(NameClause(release, d)), howMany) == Select(rows, Named(release, d), howMany)
  {
    hide Conforms, LatestClause, NameClause, Plain;
    if Plain(d) {
      forall f ensures db(LatestClause(d))(f) <==> Flagged(d)(f) {
        LatestClauseSelects(db, d, f);
      }
      SameMatching(rows, db(LatestClause(d)), Flagged(d));
      if Plain(release) {
        forall f ensures db(NameClause(release, d))(f) <==> Named(release, d)(f) {
          NameClauseSelects(db, release, d, f);
        }
        SameMatching(rows, db(NameClause(release, d)), Named(release, d));
      }
    }
  }

  /** No release name and no device type of a valid entry holds a quote. */
  ghost predicate PlainBucket(bucket: Manifest.Bucket)
  {
    forall n :: n in bucket && bucket[n].valid ==> Plain(n) && Plain(bucket[n].compatible)
  }

  function Listed(bucket: Manifest.Bucket): Firmware -> bool
  {
    (f: Firmware) => f.release in bucket
  }

  function Select(rows: seq<Firmware>, where: Firmware -> bool, howMany: nat): seq<Firmware>
  {
    TableWalk.Page(TableWalk.Matching(rows, where), 0, howMany)
  }

  function Ids(rows: seq<Firmware>): set<string>
  {
    set f | f in rows :: f.id
  }

  function Members(ids: seq<string>): set<string>
  {
    set x | x in ids
  }

  /** Identifiers are the primary key. */
  ghost predicate DistinctIds(rows: seq<Firmware>)
  {
    forall i, j :: 0 <= i < j < |rows| ==> rows[i].id != rows[j].id
  }

  function Updated(rows: seq<Firmware>, id: string, f: Firmware): (r: seq<Firmware>)
    ensures |r| == |rows|
  {
    seq(|rows|, i requires 0 <= i < |rows| => if rows[i].id == id then f else rows[i])
  }

  function Deleted(rows: seq<Firmware>, ids: set<string>): seq<Firmware>
  {
    if rows == [] then []
    else (if rows[0].id in ids then [] else [rows[0]]) + Deleted(rows[1..], ids)
  }

  function Cleared(rows: seq<Firmware>, ids: set<string>): (r: seq<Firmware>)
    ensures |r| == |rows|
  {
    seq(|rows|, i requires 0 <= i < |rows| => if rows[i].id in ids then rows[i].(latest := false) else rows[i])
  }

  function CallOf(f: Firmware): LatestFirmware.Call
  {
    LatestFirmware.Call(f.deviceType, f.revision, f.id, f.imageDate)
  }

  function Stored(f: Firmware, id: string): Firmware
  {
    f.(id := id, latest := true)
  }

  /** The flags of the rows selected as latest so far are cleared, and the new row carries the flag;
      a row whose identifier is taken is not stored, but has passed through the cache. */
  function Added(db: FirmwareEngine, s: State, f: Firmware, id: string): State
  {
    var rows := Cleared(s.rows, Ids(Select(s.rows, db(LatestClause(f.deviceType)), MANY)));
    State(if id in Ids(s.rows) then rows else rows + [Stored(f, id)],
          LatestFirmware.Added(s.cache, CallOf(Stored(f, id))))
  }

  function Kept(rows: seq<Firmware>, bucket: Manifest.Bucket): seq<Firmware>
  {
    TableWalk.Matching(rows, Listed(bucket))
  }

  function RowOf(release: string, e: Manifest.Entry, d: Draw): Firmware
  {
    Firmware(d.id, release, e.compatible, e.revision, e.uri, e.image, e.s3TimeStamp, e.s3Size, d.now, false)
  }

  predicate Wanted(db: FirmwareEngine, rows: seq<Firmware>, release: string, e: Manifest.Entry)
  {
    e.valid && Select(rows, db(NameClause(release, e.compatible)), 2) == []
  }

  function Inserted(db: FirmwareEngine, s: State, release: string, e: Manifest.Entry, d: Draw): State
  {
    if Wanted(db, s.rows, release, e) then Added(db, s, RowOf(release, e, d), d.id) else s
  }

  /** The bucket's entries in the order of the names; names that are not in the bucket are passed over. */
  function InsertedAll(db: FirmwareEngine, s: State, bucket: Manifest.Bucket, names: seq<string>,
                       draws: seq<Draw>): State
    requires |draws| == |names|
  {
    if names == [] then s
    else
      var k := |names| - 1;
      var t := InsertedAll(db, s, bucket, names[..k], draws[..k]);
      if names[k] in bucket then Inserted(db, t, names[k], bucket[names[k]], draws[k]) else t
  }

  predicate StandsAt(s: string, t: string, i: nat)
  {
    i + |t| <= |s| && s[i..i + |t|] == t
  }

  predicate IsStaging(e: Manifest.Entry)
  {
    exists i | 0 <= i < |e.uri| :: StandsAt(e.uri, "-staging-", i)
  }

  /** A text stands somewhere in another. */
  ghost predicate HoldsText(s: string, t: string)
  {
    exists a: string, c: string :: s == a + t + c
  }

  lemma StagingIsByUri(e: Manifest.Entry)
    ensures IsStaging(e) <==> HoldsText(e.uri, "-staging-")
  {
    var t := "-staging-";
    if IsStaging(e) {
      var i :| 0 <= i < |e.uri| && StandsAt(e.uri, t, i);
      assert e.uri == e.uri[..i] + t + e.uri[i + |t|..];
    }
    if HoldsText(e.uri, t) {
      var a: string, c: string :| e.uri == a + t + c;
      assert e.uri[|a|..|a| + |t|] == t;
      assert StandsAt(e.uri, t, |a|);
    }
  }

  function WithoutStaging(bucket: Manifest.Bucket): Manifest.Bucket
  {
    map n | n in bucket && !IsStaging(bucket[n]) :: bucket[n]
  }

  ghost predicate Enumerates(names: seq<string>, bucket: Manifest.Bucket)
  {
    (forall i, j :: 0 <= i < j < |names| ==> names[i] != names[j]) && forall n :: n in names <==> n in bucket
  }

  function Brought(db: FirmwareEngine, s: State, bucket: Manifest.Bucket, names: seq<string>, draws: seq<Draw>): State
    requires |draws| == |names|
  {
    InsertedAll(db, State(Kept(s.rows, bucket), s.cache), bucket, names, draws)
  }

  /** The rows whose image is not older than a limit. */
  function Young(rows: seq<Firmware>, limit: nat): seq<Firmware>
  {
    TableWalk.Matching(rows, NotBefore(limit))
  }

  lemma YoungByAge(rows: seq<Firmware>, now: nat, maxAge: nat)
    requires maxAge <= now < U64
    ensures forall f :: f in Young(rows, Manifest.Limit(now, maxAge)) <==> f in rows && f.imageDate + maxAge >= now
  {
    MatchingIs(rows, NotBefore(Manifest.Limit(now, maxAge)));
    hide TableWalk.Matching;
  }

  /** The rows that the clause for old images does not select. */
  function Recent(db: FirmwareEngine, rows: seq<Firmware>, limit: nat): seq<Firmware>
  {
    TableWalk.Matching(rows, Unselected(db(AgeClause(limit))))
  }

  function Unselected(where: Firmware -> bool): Firmware -> bool
  {
    (f: Firmware) => !where(f)
  }

  function AgeClause(limit: nat): string
  {
    NumberClause("imageDate", limit)
  }

  lemma RecentIsYoung(db: FirmwareEngine, rows: seq<Firmware>, limit: nat)
    requires Conforms(db, Columns)
    ensures Recent(db, rows, limit) == Young(rows, limit)
  {
    forall f: Firmware ensures Unselected(db(AgeClause(limit)))(f) <==> NotBefore(limit)(f) {
      FieldIs("imageDate", "imagedate");
      NumberClauseSelects(db, Columns, "imageDate", limit, f);
      assert Columns(f)("imagedate") == SqlText.Int(f.imageDate);
    }
    SameMatching(rows, Unselected(db(AgeClause(limit))), NotBefore(limit));
    hide Conforms, AgeClause;
  }

  function NotBefore(limit: nat): Firmware -> bool
  {
    (f: Firmware) => f.imageDate >= limit
  }

  /** A whole refresh: the old images go, then the manifest is brought in. */
  function Refreshed(db: FirmwareEngine, s: State, limit: nat, bucket: Manifest.Bucket, names: seq<string>,
                     draws: seq<Draw>): State
    requires |draws| == |names|
  {
    Brought(db, State(Recent(db, s.rows, limit), s.cache), bucket, names, draws)
  }

  // ----- the operations -----

  class FirmwaresDB {
    var Rows: seq<Firmware>
    const Latest: LatestFirmware.LatestFirmwareCache
    const db: FirmwareEngine

    constructor (latest: LatestFirmware.LatestFirmwareCache, engine: FirmwareEngine)
      ensures Rows == [] && Latest == latest && db == engine
    {
      Rows, Latest, db := [], latest, engine;
    }

    function Now(): State
      reads this, Latest
    {
      State(Rows, Latest.State())
    }

    method UpdateRecord(id: string, f: Firmware)
      modifies this
      ensures Rows == Updated(old(Rows), id, f)
    {
      Rows := Updated(Rows, id, f);
    }

    method CreateRecord(f: Firmware) returns (ok: bool)
      modifies this
      ensures ok <==> f.id !in Ids(old(Rows))
      ensures Rows == if ok then old(Rows) + [f] else old(Rows)
    {
      ok := f.id !in Ids(Rows);
      if ok {
        Rows := Rows + [f];
      }
    }

    method DeleteRecord(id: string)
      modifies this
      ensures Rows == Deleted(old(Rows), {id})
    {
      Rows := Deleted(Rows, {id});
    }

    method AddFirmware(F: Firmware, uuid: string) returns (ok: bool)
      requires DistinctIds(Rows)
      modifies this, Latest
      ensures Now() == Added(db, old(Now()), F, uuid)
      ensures ok <==> uuid !in Ids(old(Rows))
    {
      hide DistinctIds, Cleared, Updated, LatestFirmware.Added, TableWalk.Page, TableWalk.Matching;
      ghost var before := Rows;
      var f := F.(id := uuid);
      var latest := Latest.AddToCache(f.deviceType, f.revision, f.id, f.imageDate);
      if latest {
        f := f.(latest := true);
        var found, Fs := TableWalk.GetRecords(Rows, db(LatestClause(f.deviceType)), 0, MANY, []);
        assert Fs == Select(before, db(LatestClause(f.deviceType)), MANY);
        ClearedNothing(before);
        SelectedAreRows(before, db(LatestClause(f.deviceType)), MANY);
        if found {
          var k := 0;
          while k < |Fs|
            invariant 0 <= k <= |Fs|
            invariant Rows == Cleared(before, Ids(Fs[..k]))
            modifies this
          {
            ClearedStep(before, Fs, k);
            UpdateRecord(Fs[k].id, Fs[k].(latest := false));
            k := k + 1;
          }
          assert Fs[..k] == Fs;
        }
        ClearedKeepsIds(before, Ids(Fs));
      } else {
        f := f.(latest := false);
      }
      ok := CreateRecord(f);
    }

    method GetFirmwareByName(release: string, deviceType: string) returns (f: Option<Firmware>)
      ensures f.None? <==> Select(Rows, db(NameClause(release, deviceType)), 2) == []
      ensures f.Some? ==> f.value in Rows
      ensures Conforms(db, Columns) && Plain(release) && Plain(deviceType) ==>
                (f.Some? <==> HasRow(Rows, release, deviceType)) &&
                (f.Some? ==> f.value.release == release && f.value.deviceType == deviceType)
    {
      var found, Fs := TableWalk.GetRecords(Rows, db(NameClause(release, deviceType)), 0, 2, []);
      SelectedAreRows(Rows, db(NameClause(release, deviceType)), 2);
      SelectedAreRows(Rows, Named(release, deviceType), 2);
      if Conforms(db, Columns) {
        ClausesSelect(db, Rows, release, deviceType, 2);
      }
      f := if found then Some(Fs[0]) else None;
    }

    method RemoveOldDBEntriesNotInManifest(bucket: Manifest.Bucket) returns (n: nat)
      requires DistinctIds(Rows)
      modifies this
      ensures Rows == Kept(old(Rows), bucket)
      ensures n == |old(Rows)| - |Rows|
    {
      hide DistinctIds, Kept, Deleted;
      ghost var before := Rows;
      KeptNothing(bucket);
      assert before[..0] == [];
      var ids: seq<string> := [];
      var k := 0;
      while k < |Rows|
        invariant 0 <= k <= |Rows| && Rows == before
        invariant forall x :: x in ids <==> exists i :: 0 <= i < k && before[i].id == x && before[i].release !in bucket
        invariant |ids| + |Kept(before[..k], bucket)| == k
      {
        KeptStep(before, k, bucket);
        if Rows[k].release !in bucket {
          ids := ids + [Rows[k].id];
        }
        k := k + 1;
      }
      assert before[..k] == before;
      DeletedNothing(before);
      var j := 0;
      while j < |ids|
        invariant 0 <= j <= |ids|
        invariant Rows == Deleted(before, Members(ids[..j]))
        modifies this
      {
        DeletedTwice(before, Members(ids[..j]), ids[j]);
        assert Members(ids[..j + 1]) == Members(ids[..j]) + {ids[j]};
        DeleteRecord(ids[j]);
        j := j + 1;
      }
      assert ids[..j] == ids;
      DeletedIsKept(before, Members(ids), bucket);
      return |ids|;
    }

    /** Exactly the rows whose image is older than the limit go. */
    method RemoveOldFirmware(now: nat, maxAge: nat)
      modifies this
      ensures Rows == Recent(db, old(Rows), Manifest.Limit(now, maxAge))
      ensures Conforms(db, Columns) ==> Rows == Young(old(Rows), Manifest.Limit(now, maxAge))
      ensures Conforms(db, Columns) && maxAge <= now < U64 ==>
                forall f :: f in Rows <==> f in old(Rows) && f.imageDate + maxAge >= now
    {
      if Conforms(db, Columns) {
        RecentIsYoung(db, Rows, Manifest.Limit(now, maxAge));
        if maxAge <= now < U64 {
          YoungByAge(Rows, now, maxAge);
        }
      }
      Rows := TableWalk.Matching(Rows, Unselected(db(AgeClause(Manifest.Limit(now, maxAge)))));
    }

    /** What the refresh does with the table, around the reading and the judgement of the bucket. */
    method Refresh(now: nat, maxAge: nat, bucket: Manifest.Bucket, names: seq<string>, draws: seq<Draw>)
      returns (content: Manifest.Bucket)
      requires DistinctIds(Rows) && Enumerates(names, bucket) && |draws| == |names|
      modifies this, Latest
      ensures content == WithoutStaging(bucket)
      ensures Now() == Refreshed(db, old(Now()), Manifest.Limit(now, maxAge), content, names, draws)
    {
      hide Manifest.Limit, InsertedAll, Kept;
      MatchingIsDistinct(Rows, Unselected(db(AgeClause(Manifest.Limit(now, maxAge)))));
      RemoveOldFirmware(now, maxAge);
      content := AddManifestToDB(bucket, names, draws);
    }

    method DropStaging(bucket: Manifest.Bucket, names: seq<string>) returns (content: Manifest.Bucket)
      requires Enumerates(names, bucket)
      ensures content == WithoutStaging(bucket)
      ensures forall n :: n in content <==> n in bucket && !HoldsText(bucket[n].uri, "-staging-")
      ensures forall n :: n in content ==> content[n] == bucket[n]
    {
      hide IsStaging, HoldsText;
      forall n | n in bucket ensures IsStaging(bucket[n]) <==> HoldsText(bucket[n].uri, "-staging-") {
        StagingIsByUri(bucket[n]);
      }
      content := bucket;
      var i := 0;
      while i < |names|
        invariant 0 <= i <= |names|
        invariant content == map n | n in bucket && !(n in names[..i] && IsStaging(bucket[n])) :: bucket[n]
      {
        if IsStaging(bucket[names[i]]) {
          content := content - {names[i]};
        }
        i := i + 1;
      }
    }

    method InsertMissing(content: Manifest.Bucket, names: seq<string>, draws: seq<Draw>)
      requires DistinctIds(Rows) && |draws| == |names|
      modifies this, Latest
      ensures Now() == InsertedAll(db, old(Now()), content, names, draws)
    {
      hide DistinctIds, Added, Select;
      var i := 0;
      while i < |names|
        invariant 0 <= i <= |names|
        invariant DistinctIds(Rows) && Now() == InsertedAll(db, old(Now()), content, names[..i], draws[..i])
      {
        InsertedStep(db, old(Now()), content, names, draws, i);
        if names[i] in content {
          var e := content[names[i]];
          AddedIsDistinct(db, Now(), RowOf(names[i], e, draws[i]), draws[i].id);
          if e.valid {
            var present := GetFirmwareByName(names[i], e.compatible);
            if present.None? {
              var F := Firmware(draws[i].id, names[i], e.compatible, e.revision, e.uri, e.image, e.s3TimeStamp,
                                e.s3Size, draws[i].now, false);
              var added := AddFirmware(F, draws[i].id);
            }
          }
        }
        i := i + 1;
      }
      assert names[..i] == names && draws[..i] == draws;
    }

    /** The names come in the order in which the bucket lists them; each has a draw of its own. */
    method AddManifestToDB(bucket: Manifest.Bucket, names: seq<string>, draws: seq<Draw>)
      returns (content: Manifest.Bucket)
      requires DistinctIds(Rows) && Enumerates(names, bucket) && |draws| == |names|
      modifies this, Latest
      ensures content == WithoutStaging(bucket)
      ensures Now() == Brought(db, old(Now()), content, names, draws)
    {
      hide DistinctIds, Kept, InsertedAll;
      content := DropStaging(bucket, names);
      KeptIsDistinct(Rows, content);
      var removed := RemoveOldDBEntriesNotInManifest(content);
      InsertMissing(content, names, draws);
    }
  }

  // ----- lemmas for the operations -----

  lemma {:induction false} MatchingIs(rows: seq<Firmware>, where: Firmware -> bool)
    ensures forall f :: f in TableWalk.Matching(rows, where) <==> f in rows && where(f)
  {
    if rows != [] {
      MatchingIs(rows[1..], where);
      assert rows == [rows[0]] + rows[1..];
    }
  }

  lemma SelectedAreRows(rows: seq<Firmware>, where: Firmware -> bool, howMany: nat)
    ensures forall f :: f in Select(rows, where, howMany) ==> f in rows && where(f)
    ensures howMany > 0 ==> (Select(rows, where, howMany) == [] <==> forall f :: f in rows ==> !where(f))
  {
    MatchingIs(rows, where);
    var m := TableWalk.Matching(rows, where);
    hide TableWalk.Matching;
    if m != [] {
      assert m[0] in m;
    }
  }

  lemma ClearedNothing(rows: seq<Firmware>)
    ensures Cleared(rows, Ids([])) == rows
  {
  }

  lemma ClearedKeepsIds(rows: seq<Firmware>, ids: set<string>)
    ensures Ids(Cleared(rows, ids)) == Ids(rows)
  {
    var c := Cleared(rows, ids);
    forall i | 0 <= i < |rows| ensures c[i] in c && rows[i] in rows && c[i].id == rows[i].id {
    }
    forall x | x in Ids(rows) ensures x in Ids(c) {
      var i :| 0 <= i < |rows| && rows[i].id == x;
      assert c[i].id == x;
    }
  }

  lemma ClearedStep(rows: seq<Firmware>, Fs: seq<Firmware>, k: nat)
    requires DistinctIds(rows) && k < |Fs| && Fs[k] in rows
    ensures Updated(Cleared(rows, Ids(Fs[..k])), Fs[k].id, Fs[k].(latest := false)) == Cleared(rows, Ids(Fs[..k + 1]))
  {
    assert Fs[..k + 1] == Fs[..k] + [Fs[k]];
    assert Ids(Fs[..k + 1]) == Ids(Fs[..k]) + {Fs[k].id};
  }

  lemma KeptStep(rows: seq<Firmware>, k: nat, bucket: Manifest.Bucket)
    requires k < |rows|
    ensures |Kept(rows[..k + 1], bucket)| == |Kept(rows[..k], bucket)| + if rows[k].release in bucket then 1 else 0
  {
    assert rows[..k + 1] == rows[..k] + [rows[k]];
    MatchingAppend(rows[..k], [rows[k]], Listed(bucket));
  }

  lemma KeptNothing(bucket: Manifest.Bucket)
    ensures Kept([], bucket) == []
  {
  }

  lemma MatchingStep(rows: seq<Firmware>, where: Firmware -> bool)
    requires rows != []
    ensures TableWalk.Matching(rows, where) ==
            if where(rows[0]) then [rows[0]] + TableWalk.Matching(rows[1..], where)
            else TableWalk.Matching(rows[1..], where)
  {
  }

  lemma {:induction false} MatchingAppend(a: seq<Firmware>, b: seq<Firmware>, where: Firmware -> bool)
    ensures TableWalk.Matching(a + b, where) == TableWalk.Matching(a, where) + TableWalk.Matching(b, where)
  {
    hide TableWalk.Matching;
    if a == [] {
      MatchingNothing(where);
      assert a + b == b;
    } else {
      var r, rest := a[0], a[1..];
      assert a == [r] + rest && a + b == [r] + (rest + b);
      MatchingFront(r, rest, where);
      MatchingFront(r, rest + b, where);
      MatchingAppend(rest, b, where);
      FrontConcat(r, TableWalk.Matching(rest, where), TableWalk.Matching(b, where));
    }
  }

  lemma MatchingFront(r: Firmware, rest: seq<Firmware>, where: Firmware -> bool)
    ensures TableWalk.Matching([r] + rest, where) ==
            if where(r) then [r] + TableWalk.Matching(rest, where) else TableWalk.Matching(rest, where)
  {
    assert ([r] + rest)[1..] == rest;
  }

  lemma FrontConcat(r: Firmware, a: seq<Firmware>, b: seq<Firmware>)
    ensures [r] + a + b == [r] + (a + b)
  {
  }

  lemma MatchingNothing(where: Firmware -> bool)
    ensures TableWalk.Matching([], where) == []
  {
  }

  lemma {:induction false} DeletedNothing(rows: seq<Firmware>)
    ensures Deleted(rows, Members([])) == rows
  {
    if rows != [] {
      DeletedNothing(rows[1..]);
    }
  }

  lemma DeletedRow(r: Firmware, rest: seq<Firmware>, ids: set<string>)
    ensures Deleted([r] + rest, ids) == if r.id in ids then Deleted(rest, ids) else [r] + Deleted(rest, ids)
  {
    assert ([r] + rest)[1..] == rest;
  }

  lemma {:induction false} DeletedTwice(rows: seq<Firmware>, ids: set<string>, id: string)
    ensures Deleted(Deleted(rows, ids), {id}) == Deleted(rows, ids + {id})
  {
    if rows != [] {
      var r, rest := rows[0], rows[1..];
      assert rows == [r] + rest;
      DeletedTwice(rest, ids, id);
      DeletedRow(r, rest, ids);
      DeletedRow(r, rest, ids + {id});
      DeletedRow(r, Deleted(rest, ids), {id});
      hide Deleted;
    }
  }

  lemma DeletedIsKept(rows: seq<Firmware>, ids: set<string>, bucket: Manifest.Bucket)
    requires DistinctIds(rows)
    requires forall x :: x in ids <==> exists i :: 0 <= i < |rows| && rows[i].id == x && rows[i].release !in bucket
    ensures Deleted(rows, ids) == Kept(rows, bucket)
  {
    forall i | 0 <= i < |rows| ensures rows[i].id in ids <==> rows[i].release !in bucket {
    }
    DeletedByRelease(rows, ids, bucket);
  }

  lemma {:induction false} DeletedByRelease(rows: seq<Firmware>, ids: set<string>, bucket: Manifest.Bucket)
    requires forall i :: 0 <= i < |rows| ==> (rows[i].id in ids <==> rows[i].release !in bucket)
    ensures Deleted(rows, ids) == Kept(rows, bucket)
  {
    if rows != [] {
      DeletedByRelease(rows[1..], ids, bucket);
    }
  }

  lemma {:induction false} MatchingIsDistinct(rows: seq<Firmware>, where: Firmware -> bool)
    requires DistinctIds(rows)
    ensures DistinctIds(TableWalk.Matching(rows, where))
  {
    if rows != [] {
      MatchingIsDistinct(rows[1..], where);
      MatchingIs(rows[1..], where);
      var m := TableWalk.Matching(rows[1..], where);
      forall i | 0 <= i < |m| ensures m[i].id != rows[0].id {
        assert m[i] in m;
      }
    }
  }

  lemma KeptIsDistinct(rows: seq<Firmware>, bucket: Manifest.Bucket)
    requires DistinctIds(rows)
    ensures DistinctIds(Kept(rows, bucket))
  {
    MatchingIsDistinct(rows, Listed(bucket));
  }

  lemma AddedIsDistinct(db: FirmwareEngine, s: State, f: Firmware, id: string)
    requires DistinctIds(s.rows)
    ensures DistinctIds(Added(db, s, f, id).rows)
  {
    hide TableWalk.Page, TableWalk.Matching, LatestFirmware.Added;
  }

  lemma InsertedStep(db: FirmwareEngine, s: State, bucket: Manifest.Bucket, names: seq<string>, draws: seq<Draw>,
                     i: nat)
    requires |names| == |draws| && i < |names|
    ensures var t := InsertedAll(db, s, bucket, names[..i], draws[..i]);
            InsertedAll(db, s, bucket, names[..i + 1], draws[..i + 1]) ==
            if names[i] in bucket then Inserted(db, t, names[i], bucket[names[i]], draws[i]) else t
  {
    assert names[..i + 1][..i] == names[..i] && draws[..i + 1][..i] == draws[..i];
  }

  // ----- the flag of the latest firmware -----

  function Flags(rows: seq<Firmware>, deviceType: string): seq<Firmware>
  {
    TableWalk.Matching(rows, Flagged(deviceType))
  }

  lemma ClearedRow(r: Firmware, rest: seq<Firmware>, ids: set<string>)
    ensures Cleared([r] + rest, ids) == [if r.id in ids then r.(latest := false) else r] + Cleared(rest, ids)
  {
  }

  lemma FlagsOfRow(r: Firmware, rest: seq<Firmware>, d: string)
    ensures Flags([r] + rest, d) == if r.deviceType == d && r.latest then [r] + Flags(rest, d) else Flags(rest, d)
  {
    assert ([r] + rest)[1..] == rest;
  }

  lemma ClearedElsewhere(rows: seq<Firmware>, ids: set<string>, id: string)
    requires id !in Ids(rows)
    ensures Cleared(rows, ids + {id}) == Cleared(rows, ids)
  {
    forall i | 0 <= i < |rows| ensures rows[i].id != id {
      assert rows[i] in rows;
    }
  }

  /** Rows of one device type keep their flags when rows of another are cleared. */
  lemma {:induction false} OtherFlagsStay(rows: seq<Firmware>, ids: set<string>, d: string)
    requires forall f :: f in rows && f.id in ids ==> f.deviceType != d
    ensures Flags(Cleared(rows, ids), d) == Flags(rows, d)
  {
    if rows != [] {
      var r, rest := rows[0], rows[1..];
      assert rows == [r] + rest;
      OtherFlagsStay(rest, ids, d);
      ClearedRow(r, rest, ids);
      FlagsOfRow(r, rest, d);
      FlagsOfRow(if r.id in ids then r.(latest := false) else r, Cleared(rest, ids), d);
      hide Flags, Cleared;
    }
  }

  lemma PageOfRow(r: Firmware, m: seq<Firmware>, n: nat)
    requires n > 0
    ensures TableWalk.Page([r] + m, 0, n) == [r] + TableWalk.Page(m, 0, n - 1)
    ensures Ids(TableWalk.Page([r] + m, 0, n)) == Ids(TableWalk.Page(m, 0, n - 1)) + {r.id}
  {
    assert TableWalk.Page([r] + m, 0, n) == [r] + TableWalk.Page(m, 0, n - 1);
  }

  lemma SelectedIds(rows: seq<Firmware>, where: Firmware -> bool, n: nat)
    ensures Ids(Select(rows, where, n)) <= Ids(rows)
  {
    SelectedAreRows(rows, where, n);
    hide Select;
  }

  lemma RestIsDistinct(r: Firmware, rest: seq<Firmware>)
    requires DistinctIds([r] + rest)
    ensures DistinctIds(rest) && r.id !in Ids(rest)
  {
    forall i | 0 <= i < |rest| ensures rest[i].id != r.id {
      assert ([r] + rest)[0] == r && ([r] + rest)[i + 1] == rest[i];
    }
    forall i, j | 0 <= i < j < |rest| ensures rest[i].id != rest[j].id {
      assert ([r] + rest)[i + 1] == rest[i] && ([r] + rest)[j + 1] == rest[j];
    }
  }

  lemma FlaggedRowGoes(r: Firmware, rest: seq<Firmware>, d: string, n: nat)
    requires DistinctIds([r] + rest) && n > 0 && r.deviceType == d && r.latest
    ensures Flags(Cleared([r] + rest, Ids(Select([r] + rest, Flagged(d), n))), d) ==
            Flags(Cleared(rest, Ids(Select(rest, Flagged(d), n - 1))), d)
  {
    hide Cleared, TableWalk.Matching, TableWalk.Page, DistinctIds, Ids;
    RestIsDistinct(r, rest);
    FlagsOfRow(r, rest, d);
    PageOfRow(r, Flags(rest, d), n);
    var ids := Ids(Select(rest, Flagged(d), n - 1));
    ClearedRow(r, rest, ids + {r.id});
    ClearedElsewhere(rest, ids, r.id);
    FlagsOfRow(r.(latest := false), Cleared(rest, ids), d);
  }

  lemma OtherRowStays(r: Firmware, rest: seq<Firmware>, d: string, n: nat)
    requires DistinctIds([r] + rest) && !(r.deviceType == d && r.latest)
    ensures Flags(Cleared([r] + rest, Ids(Select([r] + rest, Flagged(d), n))), d) ==
            Flags(Cleared(rest, Ids(Select(rest, Flagged(d), n))), d)
  {
    hide Cleared, TableWalk.Matching, TableWalk.Page, DistinctIds, Ids;
    RestIsDistinct(r, rest);
    FlagsOfRow(r, rest, d);
    var ids := Ids(Select(rest, Flagged(d), n));
    SelectedIds(rest, Flagged(d), n);
    ClearedRow(r, rest, ids);
    FlagsOfRow(r, Cleared(rest, ids), d);
  }

  lemma DropFront(r: Firmware, flags: seq<Firmware>, n: nat)
    requires n > 0
    ensures ([r] + flags)[Min(n, |flags| + 1)..] == flags[Min(n - 1, |flags|)..]
  {
  }

  lemma NoFlags(d: string, ids: set<string>)
    ensures Flags([], d) == [] && Cleared([], ids) == []
  {
  }

  lemma NothingToClear(rows: seq<Firmware>, d: string)
    ensures Cleared(rows, Ids(Select(rows, Flagged(d), 0))) == rows
  {
    ClearedNothing(rows);
  }

  /** Clearing the first n flagged rows leaves the flags of the others. */
  lemma {:induction false} FirstFlagsGo(rows: seq<Firmware>, d: string, n: nat)
    requires DistinctIds(rows)
    ensures Flags(Cleared(rows, Ids(Select(rows, Flagged(d), n))), d) == Flags(rows, d)[Min(n, |Flags(rows, d)|)..]
  {
    hide Flags, Cleared, DistinctIds, Ids, Select;
    if n == 0 {
      NothingToClear(rows, d);
    } else if rows == [] {
      NoFlags(d, Ids(Select(rows, Flagged(d), n)));
    } else {
      var r, rest := rows[0], rows[1..];
      assert rows == [r] + rest;
      RestIsDistinct(r, rest);
      FlagsOfRow(r, rest, d);
      if r.deviceType == d && r.latest {
        FlaggedRowGoes(r, rest, d, n);
        FirstFlagsGo(rest, d, n - 1);
        DropFront(r, Flags(rest, d), n);
      } else {
        OtherRowStays(r, rest, d, n);
        FirstFlagsGo(rest, d, n);
      }
    }
  }

  lemma FlagsOfAppended(rows: seq<Firmware>, f: Firmware, d: string)
    ensures Flags(rows + [f], d) == if f.deviceType == d && f.latest then Flags(rows, d) + [f] else Flags(rows, d)
  {
    MatchingAppend(rows, [f], Flagged(d));
    FlagsOfRow(f, [], d);
    assert [f] + [] == [f];
  }

  /** A firmware that is stored becomes the one flagged row of its device type, exactly when no more
      than 200 rows of the type were flagged; the rows of other types keep their flags. */
  lemma AddingFlagsOne(db: FirmwareEngine, s: State, f: Firmware, id: string)
    requires Conforms(db, Columns) && Plain(f.deviceType)
    requires DistinctIds(s.rows) && id !in Ids(s.rows)
    ensures var t := Added(db, s, f, id);
            (Flags(t.rows, f.deviceType) == [f.(id := id, latest := true)] <==> |Flags(s.rows, f.deviceType)| <= 200) &&
            forall d :: d != f.deviceType ==> Flags(t.rows, d) == Flags(s.rows, d)
  {
    ClausesSelect(db, s.rows, "", f.deviceType, MANY);
    var fs := Select(s.rows, Flagged(f.deviceType), MANY);
    var cleared := Cleared(s.rows, Ids(fs));
    FirstFlagsGo(s.rows, f.deviceType, MANY);
    SelectedAreRows(s.rows, Flagged(f.deviceType), MANY);
    assert Added(db, s, f, id).rows == cleared + [Stored(f, id)];
    FlagsOfAppended(cleared, Stored(f, id), f.deviceType);
    assert Flags(cleared, f.deviceType) == [] ==> Flags(cleared, f.deviceType) + [Stored(f, id)] == [Stored(f, id)];
    forall d | d != f.deviceType ensures Flags(Added(db, s, f, id).rows, d) == Flags(s.rows, d) {
      forall g | g in s.rows && g.id in Ids(fs) ensures g.deviceType != d {
        SameRow(s.rows, fs, g);
      }
      OtherFlagsStay(s.rows, Ids(fs), d);
      FlagsOfAppended(cleared, Stored(f, id), d);
    }
    hide Conforms, Flags, Cleared, Select, DistinctIds, Ids;
  }

  /** With distinct identifiers a row whose identifier was selected is the selected row. */
  lemma SameRow(rows: seq<Firmware>, fs: seq<Firmware>, g: Firmware)
    requires DistinctIds(rows) && g in rows && g.id in Ids(fs) && forall f :: f in fs ==> f in rows
    ensures g in fs
  {
    var f :| f in fs && f.id == g.id;
    var i :| 0 <= i < |rows| && rows[i] == f;
    var j :| 0 <= j < |rows| && rows[j] == g;
    assert i == j;
  }

  /** The flagged row is the cached firmware exactly when no newer one of its type had been cached:
      adding an older image moves the flag but not the cache. */
  lemma FlagFollowsCache(db: FirmwareEngine, s: State, f: Firmware, id: string)
    requires Conforms(db, Columns) && Plain(f.deviceType)
    requires DistinctIds(s.rows) && id !in Ids(s.rows) && |Flags(s.rows, f.deviceType)| <= 200
    requires f.deviceType in s.cache.all ==> s.cache.all[f.deviceType].id != id
    ensures var t := Added(db, s, f, id);
            |Flags(t.rows, f.deviceType)| == 1 && f.deviceType in t.cache.all &&
            (t.cache.all[f.deviceType].id == Flags(t.rows, f.deviceType)[0].id <==>
             (f.deviceType in s.cache.all ==> s.cache.all[f.deviceType].timeStamp <= f.imageDate))
  {
    AddingFlagsOne(db, s, f, id);
    hide Conforms, Flags, Cleared, DistinctIds, Ids;
  }

  /** At most one row of a device type is flagged. */
  ghost predicate OneFlagEach(rows: seq<Firmware>)
  {
    forall d :: |Flags(rows, d)| <= 1
  }

  lemma {:induction false} MatchingIsNoMore(rows: seq<Firmware>, where: Firmware -> bool, d: string)
    ensures |Flags(TableWalk.Matching(rows, where), d)| <= |Flags(rows, d)|
  {
    if rows != [] {
      var r, rest := rows[0], rows[1..];
      assert rows == [r] + rest;
      MatchingIsNoMore(rest, where, d);
      MatchingStep(rows, where);
      FlagsOfRow(r, rest, d);
      FlagsOfRow(r, TableWalk.Matching(rest, where), d);
      hide Flags, TableWalk.Matching;
    }
  }

  /** Identifiers drawn for a call: new ones, each drawn once. */
  ghost predicate FreshDraws(rows: seq<Firmware>, draws: seq<Draw>)
  {
    (forall i :: 0 <= i < |draws| ==> draws[i].id !in Ids(rows)) &&
    forall i, j :: 0 <= i < j < |draws| ==> draws[i].id != draws[j].id
  }

  // ----- the table and the manifest -----

  function Bare(rows: seq<Firmware>): (r: seq<Firmware>)
    ensures |r| == |rows|
  {
    seq(|rows|, i requires 0 <= i < |rows| => rows[i].(latest := false))
  }

  /** The rows for the valid entries that the table lacks, in the order of the names. */
  function Missing(rows: seq<Firmware>, bucket: Manifest.Bucket, names: seq<string>, draws: seq<Draw>): seq<Firmware>
    requires |draws| == |names|
  {
    if names == [] then []
    else
      var k := |names| - 1;
      var before := Missing(rows, bucket, names[..k], draws[..k]);
      if Lacks(rows, bucket, names[k]) then before + [RowOf(names[k], bucket[names[k]], draws[k])] else before
  }

  predicate HasRow(rows: seq<Firmware>, release: string, deviceType: string)
  {
    exists f | f in rows :: f.release == release && f.deviceType == deviceType
  }

  ghost predicate Distinct(names: seq<string>)
  {
    forall i, j :: 0 <= i < j < |names| ==> names[i] != names[j]
  }

  lemma WantedIsMissing(db: FirmwareEngine, rows: seq<Firmware>, release: string, e: Manifest.Entry)
    requires Conforms(db, Columns) && (e.valid ==> Plain(release) && Plain(e.compatible))
    ensures Wanted(db, rows, release, e) <==> e.valid && !HasRow(rows, release, e.compatible)
  {
    SelectedAreRows(rows, Named(release, e.compatible), 2);
    ClausesSelect(db, rows, release, e.compatible, 2);
    hide Select, Conforms;
  }

  lemma HasRowInBare(rows: seq<Firmware>, release: string, d: string)
    ensures HasRow(Bare(rows), release, d) <==> HasRow(rows, release, d)
  {
    var b := Bare(rows);
    forall i | 0 <= i < |rows|
      ensures b[i] in b && rows[i] in rows && b[i].release == rows[i].release && b[i].deviceType == rows[i].deviceType
    {
    }
    if f :| f in rows && f.release == release && f.deviceType == d {
      var i :| 0 <= i < |rows| && rows[i] == f;
      assert b[i] in b;
    }
  }

  lemma HasRowInSum(a: seq<Firmware>, b: seq<Firmware>, release: string, d: string)
    ensures HasRow(a + b, release, d) <==> HasRow(a, release, d) || HasRow(b, release, d)
  {
    if f :| f in a && f.release == release && f.deviceType == d {
      assert f in a + b;
    }
    if f :| f in b && f.release == release && f.deviceType == d {
      assert f in a + b;
    }
  }

  lemma BareAdded(db: FirmwareEngine, s: State, f: Firmware, id: string)
    requires id !in Ids(s.rows)
    ensures Bare(Added(db, s, f, id).rows) == Bare(s.rows) + [Stored(f, id).(latest := false)]
  {
    hide LatestFirmware.Added, Select;
  }

  lemma BareIds(rows: seq<Firmware>)
    ensures Ids(Bare(rows)) == Ids(rows)
  {
    var b := Bare(rows);
    forall i | 0 <= i < |rows| ensures b[i] in b && rows[i] in rows && b[i].id == rows[i].id {
    }
    forall x | x in Ids(rows) ensures x in Ids(b) {
      var i :| 0 <= i < |rows| && rows[i].id == x;
      assert b[i].id == x;
    }
  }

  lemma {:induction false} MissingAreNamed(rows: seq<Firmware>, bucket: Manifest.Bucket, names: seq<string>,
                                           draws: seq<Draw>)
    requires |draws| == |names|
    ensures forall f :: f in Missing(rows, bucket, names, draws) ==>
              exists i :: 0 <= i < |names| && Lacks(rows, bucket, names[i]) &&
                  f == RowOf(names[i], bucket[names[i]], draws[i])
    ensures forall n :: n in names && Lacks(rows, bucket, n) ==>
              exists f :: f in Missing(rows, bucket, names, draws) && f.release == n &&
                          f.deviceType == bucket[n].compatible && f.imageDate == bucket[n].s3TimeStamp
  {
    hide HasRow;
    if names != [] {
      var k := |names| - 1;
      var before, all := Missing(rows, bucket, names[..k], draws[..k]), Missing(rows, bucket, names, draws);
      MissingAreNamed(rows, bucket, names[..k], draws[..k]);
      assert names == names[..k] + [names[k]];
      if Lacks(rows, bucket, names[k]) {
        assert all[|all| - 1] == RowOf(names[k], bucket[names[k]], draws[k]);
      }
      assert forall f :: f in before ==> f in all;
    }
  }

  /** The bucket has a valid entry of the name for which the rows have none. */
  predicate Lacks(rows: seq<Firmware>, bucket: Manifest.Bucket, n: string)
  {
    n in bucket && bucket[n].valid && !HasRow(rows, n, bucket[n].compatible)
  }

  /** Each inserted row carries the data of its entry, the identifier drawn for it and the time of the
      draw, and is of an entry that is valid. */
  lemma MissingRowsAreTheirEntries(rows: seq<Firmware>, bucket: Manifest.Bucket, names: seq<string>, draws: seq<Draw>,
                                   f: Firmware)
    requires |draws| == |names| && f in Missing(rows, bucket, names, draws)
    ensures exists i :: 0 <= i < |names| && names[i] in bucket && bucket[names[i]].valid &&
                        f.release == names[i] && f.deviceType == bucket[names[i]].compatible &&
                        f.revision == bucket[names[i]].revision && f.uri == bucket[names[i]].uri &&
                        f.image == bucket[names[i]].image && f.imageDate == bucket[names[i]].s3TimeStamp &&
                        f.size == bucket[names[i]].s3Size && f.id == draws[i].id && f.created == draws[i].now
  {
    MissingAreNamed(rows, bucket, names, draws);
    hide Missing, HasRow;
  }

  /** So nothing of an entry that is in staging comes in. */
  lemma NothingInStagingComesIn(rows: seq<Firmware>, bucket: Manifest.Bucket, names: seq<string>, draws: seq<Draw>,
                                f: Firmware)
    requires |draws| == |names| && f in Missing(rows, WithoutStaging(bucket), names, draws)
    ensures f.release in bucket && f.uri == bucket[f.release].uri && !HoldsText(f.uri, "-staging-")
  {
    MissingRowsAreTheirEntries(rows, WithoutStaging(bucket), names, draws, f);
    StagingIsByUri(bucket[f.release]);
    hide Missing, IsStaging, HoldsText;
  }

  /** The texts of the clauses, as the database gets them. */
  lemma ClauseTexts(release: string, d: string, limit: nat)
    ensures LatestClause(d) == " deviceType='" + d + "' AND Latest=true "
    ensures NameClause(release, d) == " release='" + release + "' and DeviceType='" + d + "' "
    ensures AgeClause(limit) == "imageDate < " + Decimal(limit)
  {
    hide LatestClause, NameClause, AgeClause;
    LatestText(d);
    NameText(release, d);
    AgeText(limit);
  }

  lemma LatestText(d: string)
    ensures LatestClause(d) == " deviceType='" + d + "' AND Latest=true "
  {
    TwoText("deviceType", d, "AND", "Latest", SqlText.Bool(true));
    hide TwoClause;
    assert " " + "deviceType" + "='" == " deviceType='";
    assert "' " + "AND" + " " + "Latest" + "=" == "' AND Latest=";
    var head := " deviceType='" + d;
    assert head + "' AND Latest=" + "true" + " " == head + ("' AND Latest=" + "true" + " ");
    assert "' AND Latest=" + "true" + " " == "' AND Latest=true ";
  }

  lemma NameText(release: string, d: string)
    ensures NameClause(release, d) == " release='" + release + "' and DeviceType='" + d + "' "
  {
    TwoText("release", release, "and", "DeviceType", SqlText.Text(d));
    hide TwoClause;
    assert " " + "release" + "='" == " release='";
    assert "' " + "and" + " " + "DeviceType" + "=" == "' and DeviceType=";
    var head := " release='" + release;
    assert head + "' and DeviceType=" + ("'" + d + "'") + " " == head + ("' and DeviceType=" + "'") + d + ("'" + " ");
    assert "' and DeviceType=" + "'" == "' and DeviceType='" && "'" + " " == "' ";
  }

  lemma AgeText(limit: nat)
    ensures AgeClause(limit) == "imageDate < " + Decimal(limit)
  {
    assert "imageDate" + " < " == "imageDate < ";
  }

  /** Whether an entry is inserted does not depend on what was inserted for others. */
  lemma WantedLater(db: FirmwareEngine, s: State, t: State, m: seq<Firmware>, n: string, e: Manifest.Entry)
    requires Conforms(db, Columns) && (e.valid ==> Plain(n) && Plain(e.compatible))
    requires Bare(t.rows) == Bare(s.rows) + m && !HasRow(m, n, e.compatible)
    ensures Wanted(db, t.rows, n, e) <==> e.valid && !HasRow(s.rows, n, e.compatible)
  {
    hide Conforms, Bare, HasRow, Wanted;
    HasRowInSum(Bare(s.rows), m, n, e.compatible);
    HasRowInBare(s.rows, n, e.compatible);
    HasRowInBare(t.rows, n, e.compatible);
    WantedIsMissing(db, t.rows, n, e);
  }

  lemma InsertIsMissing(db: FirmwareEngine, s: State, t: State, m: seq<Firmware>, n: string, e: Manifest.Entry, d: Draw)
    requires Conforms(db, Columns) && (e.valid ==> Plain(n) && Plain(e.compatible))
    requires Bare(t.rows) == Bare(s.rows) + m && !HasRow(m, n, e.compatible)
    requires d.id !in Ids(s.rows) && forall f :: f in m ==> f.id != d.id
    ensures Bare(Inserted(db, t, n, e, d).rows) ==
            Bare(s.rows) + if e.valid && !HasRow(s.rows, n, e.compatible) then m + [RowOf(n, e, d)] else m
  {
    hide Conforms, Bare, HasRow, Wanted, Added, Ids;
    WantedLater(db, s, t, m, n, e);
    NewIdStaysNew(s, t, m, d.id);
    if e.valid && !HasRow(s.rows, n, e.compatible) {
      BareAdded(db, t, RowOf(n, e, d), d.id);
      assert Stored(RowOf(n, e, d), d.id).(latest := false) == RowOf(n, e, d);
      assert Bare(s.rows) + m + [RowOf(n, e, d)] == Bare(s.rows) + (m + [RowOf(n, e, d)]);
    }
  }

  /** Up to the flags the table gains exactly the rows for the valid entries that it lacks. */
  lemma {:induction false} InsertsAreMissing(db: FirmwareEngine, s: State, bucket: Manifest.Bucket, names: seq<string>,
                                             draws: seq<Draw>)
    requires Conforms(db, Columns) && PlainBucket(bucket)
    requires |draws| == |names| && FreshDraws(s.rows, draws) && Distinct(names)
    ensures Bare(InsertedAll(db, s, bucket, names, draws).rows) == Bare(s.rows) + Missing(s.rows, bucket, names, draws)
  {
    if names == [] {
      assert Bare(s.rows) + [] == Bare(s.rows);
    } else {
      var k := |names| - 1;
      var n, d := names[k], draws[k];
      InsertsAreMissing(db, s, bucket, names[..k], draws[..k]);
      var t := InsertedAll(db, s, bucket, names[..k], draws[..k]);
      var m := Missing(s.rows, bucket, names[..k], draws[..k]);
      if n in bucket {
        var e := bucket[n];
        MissingAreNamed(s.rows, bucket, names[..k], draws[..k]);
        assert !HasRow(m, n, e.compatible);
        InsertIsMissing(db, s, t, m, n, e, d);
      }
      hide Conforms, Bare, HasRow, Wanted, Added, Ids;
    }
  }

  lemma NewIdStaysNew(s: State, t: State, m: seq<Firmware>, id: string)
    requires Bare(t.rows) == Bare(s.rows) + m && id !in Ids(s.rows) && forall f :: f in m ==> f.id != id
    ensures id !in Ids(t.rows)
  {
    BareIds(s.rows);
    BareIds(t.rows);
    hide Bare;
  }

  lemma {:induction false} MissingCovers(rows: seq<Firmware>, bucket: Manifest.Bucket, names: seq<string>,
                                         draws: seq<Draw>, n: string)
    requires |draws| == |names| && n in names && n in bucket && bucket[n].valid
    ensures HasRow(rows, n, bucket[n].compatible) ||
            HasRow(Missing(rows, bucket, names, draws), n, bucket[n].compatible)
  {
    var k := |names| - 1;
    assert names == names[..k] + [names[k]];
    if n in names[..k] {
      MissingCovers(rows, bucket, names[..k], draws[..k], n);
    }
    if n == names[k] && !HasRow(rows, n, bucket[n].compatible) {
      assert Missing(rows, bucket, names, draws)[|Missing(rows, bucket, names, draws)| - 1].release == n;
    }
  }

  lemma FreshForKept(rows: seq<Firmware>, bucket: Manifest.Bucket, draws: seq<Draw>)
    requires FreshDraws(rows, draws)
    ensures FreshDraws(Kept(rows, bucket), draws)
  {
    MatchingIs(rows, Listed(bucket));
    hide TableWalk.Matching;
  }

  /** Every row is of a release in the bucket. */
  ghost predicate AllListed(rows: seq<Firmware>, bucket: Manifest.Bucket)
  {
    forall f :: f in rows ==> f.release in bucket
  }

  /** Every valid entry has a row. */
  ghost predicate AllPresent(rows: seq<Firmware>, bucket: Manifest.Bucket)
  {
    forall n :: n in bucket && bucket[n].valid ==> HasRow(rows, n, bucket[n].compatible)
  }

  lemma ListedInBare(rows: seq<Firmware>, bucket: Manifest.Bucket)
    ensures AllListed(Bare(rows), bucket) <==> AllListed(rows, bucket)
  {
    var b := Bare(rows);
    forall i | 0 <= i < |rows| ensures b[i] in b && rows[i] in rows && b[i].release == rows[i].release {
    }
    hide Bare;
    if AllListed(b, bucket) {
      forall f | f in rows ensures f.release in bucket {
        var i :| 0 <= i < |rows| && rows[i] == f;
        assert b[i] in b;
      }
    }
    if AllListed(rows, bucket) {
      forall f | f in b ensures f.release in bucket {
        var i :| 0 <= i < |b| && b[i] == f;
        assert rows[i] in rows;
      }
    }
  }

  /** After a manifest is brought in, the table holds no release outside the bucket and a row for each
      valid entry; up to the flags it is the rows that stay, unchanged and in order, and behind them
      the rows it lacked. */
  lemma TableFollowsManifest(db: FirmwareEngine, s: State, bucket: Manifest.Bucket, names: seq<string>,
                             draws: seq<Draw>)
    requires Conforms(db, Columns) && PlainBucket(bucket)
    requires |draws| == |names| && FreshDraws(s.rows, draws) && Distinct(names)
    requires forall n :: n in bucket ==> n in names
    ensures var t, kept := Brought(db, s, bucket, names, draws), Kept(s.rows, bucket);
            Bare(t.rows) == Bare(kept) + Missing(kept, bucket, names, draws) &&
            AllListed(t.rows, bucket) && AllPresent(t.rows, bucket)
  {
    var kept := Kept(s.rows, bucket);
    var t, m := Brought(db, s, bucket, names, draws), Missing(kept, bucket, names, draws);
    FreshForKept(s.rows, bucket, draws);
    InsertsAreMissing(db, State(kept, s.cache), bucket, names, draws);
    MatchingIs(s.rows, Listed(bucket));
    MissingAreNamed(kept, bucket, names, draws);
    ListedInBare(kept, bucket);
    ListedInBare(t.rows, bucket);
    assert AllListed(Bare(kept), bucket);
    assert AllListed(m, bucket);
    forall n | n in bucket && bucket[n].valid ensures HasRow(t.rows, n, bucket[n].compatible) {
      MissingCovers(kept, bucket, names, draws, n);
      HasRowInBare(kept, n, bucket[n].compatible);
      HasRowInSum(Bare(kept), m, n, bucket[n].compatible);
      HasRowInBare(t.rows, n, bucket[n].compatible);
    }
    hide Conforms, Bare, Missing, HasRow, InsertedAll, Kept, FreshDraws;
  }

  lemma {:induction false} NothingToInsert(db: FirmwareEngine, s: State, bucket: Manifest.Bucket, names: seq<string>,
                                           draws: seq<Draw>)
    requires Conforms(db, Columns) && PlainBucket(bucket)
    requires |draws| == |names| && AllPresent(s.rows, bucket)
    ensures InsertedAll(db, s, bucket, names, draws) == s
  {
    if names != [] {
      var k := |names| - 1;
      NothingToInsert(db, s, bucket, names[..k], draws[..k]);
      if names[k] in bucket {
        WantedIsMissing(db, s.rows, names[k], bucket[names[k]]);
      }
      hide Conforms, Wanted, Added, HasRow;
    }
  }

  lemma {:induction false} NothingToRemove(rows: seq<Firmware>, bucket: Manifest.Bucket)
    requires AllListed(rows, bucket)
    ensures Kept(rows, bucket) == rows
  {
    if rows != [] {
      MatchingStep(rows, Listed(bucket));
      NothingToRemove(rows[1..], bucket);
      assert rows == [rows[0]] + rows[1..];
    }
  }

  /** A manifest changes nothing, neither rows nor flags nor the cache, exactly when every row is
      listed and every valid entry has its row. */
  lemma ManifestChangesNothing(db: FirmwareEngine, s: State, bucket: Manifest.Bucket, names: seq<string>,
                               draws: seq<Draw>)
    requires Conforms(db, Columns) && PlainBucket(bucket)
    requires |draws| == |names| && FreshDraws(s.rows, draws) && Distinct(names)
    requires forall n :: n in bucket ==> n in names
    ensures Brought(db, s, bucket, names, draws) == s <==> AllListed(s.rows, bucket) && AllPresent(s.rows, bucket)
  {
    TableFollowsManifest(db, s, bucket, names, draws);
    if AllListed(s.rows, bucket) && AllPresent(s.rows, bucket) {
      NothingToRemove(s.rows, bucket);
      NothingToInsert(db, s, bucket, names, draws);
    }
    hide Conforms, InsertedAll, Kept, AllListed, AllPresent;
  }

  /** So the same manifest brought in again changes nothing. */
  lemma SecondTimeChangesNothing(db: FirmwareEngine, s: State, bucket: Manifest.Bucket, names: seq<string>,
                                 draws: seq<Draw>, again: seq<Draw>)
    requires Conforms(db, Columns) && PlainBucket(bucket)
    requires |draws| == |names| == |again| && FreshDraws(s.rows, draws) && Distinct(names)
    requires forall n :: n in bucket ==> n in names
    requires FreshDraws(Brought(db, s, bucket, names, draws).rows, again)
    ensures Brought(db, Brought(db, s, bucket, names, draws), bucket, names, again) ==
            Brought(db, s, bucket, names, draws)
  {
    TableFollowsManifest(db, s, bucket, names, draws);
    ManifestChangesNothing(db, Brought(db, s, bucket, names, draws), bucket, names, again);
    hide Conforms, Brought, AllListed, AllPresent, FreshDraws;
  }

  lemma AddingKeepsOneFlag(db: FirmwareEngine, s: State, f: Firmware, id: string)
    requires Conforms(db, Columns) && Plain(f.deviceType)
    requires DistinctIds(s.rows) && id !in Ids(s.rows) && OneFlagEach(s.rows)
    ensures DistinctIds(Added(db, s, f, id).rows) && OneFlagEach(Added(db, s, f, id).rows)
  {
    AddingFlagsOne(db, s, f, id);
    AddedIsDistinct(db, s, f, id);
    hide Conforms, Flags, Added, DistinctIds, Ids;
  }

  lemma InsertedIds(db: FirmwareEngine, s: State, release: string, e: Manifest.Entry, d: Draw)
    ensures Ids(Inserted(db, s, release, e, d).rows) <= Ids(s.rows) + {d.id}
  {
    ClearedKeepsIds(s.rows, Ids(Select(s.rows, db(LatestClause(e.compatible)), MANY)));
    hide Cleared, Wanted, LatestFirmware.Added, Select;
  }

  lemma {:induction false} InsertsKeepOneFlag(db: FirmwareEngine, s: State, bucket: Manifest.Bucket, names: seq<string>,
                                              draws: seq<Draw>)
    requires Conforms(db, Columns) && PlainBucket(bucket)
    requires |draws| == |names| && FreshDraws(s.rows, draws) && DistinctIds(s.rows) && OneFlagEach(s.rows)
    ensures var t := InsertedAll(db, s, bucket, names, draws);
            DistinctIds(t.rows) && OneFlagEach(t.rows) && Ids(t.rows) <= Ids(s.rows) + set d | d in draws :: d.id
  {
    if names != [] {
      var k := |names| - 1;
      InsertsKeepOneFlag(db, s, bucket, names[..k], draws[..k]);
      var t := InsertedAll(db, s, bucket, names[..k], draws[..k]);
      if names[k] in bucket {
        assert draws[k].id !in Ids(t.rows);
        var e := bucket[names[k]];
        InsertedIds(db, t, names[k], e, draws[k]);
        if e.valid {
          AddingKeepsOneFlag(db, t, RowOf(names[k], e, draws[k]), draws[k].id);
        } else {
          assert Inserted(db, t, names[k], e, draws[k]) == t;
        }
      }
      hide Conforms, Wanted, Added, OneFlagEach, DistinctIds, Ids;
    }
  }

  /** Over any manifest no device type comes to have two flagged rows. */
  lemma ManifestKeepsOneFlag(db: FirmwareEngine, s: State, bucket: Manifest.Bucket, names: seq<string>,
                             draws: seq<Draw>)
    requires Conforms(db, Columns) && PlainBucket(bucket)
    requires |draws| == |names| && FreshDraws(s.rows, draws) && DistinctIds(s.rows) && OneFlagEach(s.rows)
    ensures var t := Brought(db, s, bucket, names, draws);
            DistinctIds(t.rows) && OneFlagEach(t.rows)
  {
    var kept := Kept(s.rows, bucket);
    KeptIsDistinct(s.rows, bucket);
    FreshForKept(s.rows, bucket, draws);
    forall d: string ensures |Flags(kept, d)| <= 1 {
      MatchingIsNoMore(s.rows, Listed(bucket), d);
    }
    InsertsKeepOneFlag(db, State(kept, s.cache), bucket, names, draws);
    hide Conforms, InsertedAll, DistinctIds, OneFlagEach;
  }
}
