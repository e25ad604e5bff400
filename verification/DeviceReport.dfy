/** The age of a device's firmware, and the report that counts devices over the whole table. */
module DeviceReport {
  import opened Widths
  import opened Options
  import LatestFirmware
  import TableWalk
  import FirmwareTable
  import opened Characters
  import opened Clauses
  import SqlText

  type Firmware = FirmwareTable.Firmware

  datatype Device = Device(serialNumber: string, revision: string, deviceType: string, endPoint: string, status: string)

  // ----- firmware age -----

  function First<R>(rows: seq<R>): Option<R>
  {
    if rows == [] then None else Some(rows[0])
  }

  function RevisionClause(revision: string, deviceType: string): string
  {
    TwoClause("Revision", SqlText.Text(revision), "and", "DeviceType", SqlText.Text(deviceType))
  }

  lemma RevisionClauseText(revision: string, deviceType: string)
    ensures RevisionClause(revision, deviceType) == " Revision='" + revision + "' and DeviceType='" + deviceType + "' "
  {
    TwoText("Revision", revision, "and", "DeviceType", SqlText.Text(deviceType));
    hide TwoClause;
    assert " " + "Revision" + "='" == " Revision='";
    assert "' " + "and" + " " + "DeviceType" + "=" == "' and DeviceType=";
    var head := " Revision='" + revision;
    assert head + "' and DeviceType=" + ("'" + deviceType + "'") + " " ==
           head + ("' and DeviceType=" + "'") + deviceType + ("'" + " ");
    assert "' and DeviceType=" + "'" == "' and DeviceType='" && "'" + " " == "' ";
  }

  function GetFirmwareByRevision(db: FirmwareTable.FirmwareEngine, table: seq<Firmware>, revision: string,
                                 deviceType: string): Option<Firmware>
  {
    First(TableWalk.Page(TableWalk.Matching(table, db(RevisionClause(revision, deviceType))), 0, 2))
  }

  lemma RevisionClauseSelects(db: FirmwareTable.FirmwareEngine, revision: string, deviceType: string, f: Firmware)
    requires Conforms(db, FirmwareTable.Columns) && Plain(revision) && Plain(deviceType)
    ensures db(RevisionClause(revision, deviceType))(f) <==> f.revision == revision && f.deviceType == deviceType
  {
    FirmwareTable.LowerNames();
    TwoClauseSelects(db, FirmwareTable.Columns, "Revision", SqlText.Text(revision), "and", "DeviceType",
                     SqlText.Text(deviceType), f);
    hide Lower, SqlText.IsFieldName, Conforms;
  }

  function GetFirmware(table: seq<Firmware>, id: string): Option<Firmware>
  {
    First(TableWalk.Page(TableWalk.Matching(table, (f: Firmware) => f.id == id), 0, 1))
  }

  datatype Age = Age(latest: bool, age: nat)

  function ComputeFirmwareAge(db: FirmwareTable.FirmwareEngine, table: seq<Firmware>, cache: LatestFirmware.Cache,
                              deviceType: string, revision: string): Option<Age>
  {
    var current := GetFirmwareByRevision(db, table, revision, deviceType);
    match Lookup(cache.all, deviceType)
    case None => None
    case Some(entry) =>
      match GetFirmware(table, entry.id)
      case None => None
      case Some(latest) =>
        Some(Age(revision == latest.revision,
                 if current.Some? then (latest.imageDate - current.value.imageDate) % U64 else 0))
  }

  function CallsOf(table: seq<Firmware>): (calls: seq<LatestFirmware.Call>)
    ensures |calls| == |table|
  {
    seq(|table|, i requires 0 <= i < |table| => FirmwareTable.CallOf(table[i]))
  }

  function Remembered(cache: LatestFirmware.Cache, f: Firmware): (LatestFirmware.Cache, bool)
  {
    (LatestFirmware.Added(cache, FirmwareTable.CallOf(f)), true)
  }

  lemma FoldAppend<S, R>(rows: seq<R>, r: R, f: TableWalk.Visitor<S, R>, s: S)
    ensures TableWalk.Fold(rows + [r], f, s) == f(TableWalk.Fold(rows, f, s), r).0
  {
    if rows == [] {
      assert (rows + [r])[1..] == [];
    } else {
      assert (rows + [r])[1..] == rows[1..] + [r];
      FoldAppend(rows[1..], r, f, f(s, rows[0]).0);
    }
  }

  lemma {:induction false} MatchingAll<R>(table: seq<R>)
    ensures TableWalk.Matching(table, _ => true) == table
  {
    if table != [] {
      MatchingAll(table[1..]);
      assert table == [table[0]] + table[1..];
    }
  }

  lemma {:induction false} FoldIsRun(table: seq<Firmware>)
    ensures TableWalk.Fold(table, Remembered, LatestFirmware.EMPTY) == LatestFirmware.Run(CallsOf(table))
  {
    if table != [] {
      var front, f := table[..|table| - 1], table[|table| - 1];
      FoldIsRun(front);
      assert table == front + [f];
      FoldAppend(front, f, Remembered, LatestFirmware.EMPTY);
      assert CallsOf(table)[..|table| - 1] == CallsOf(front);
    }
  }

  /** Fills the cache from the whole firmware table. */
  method PopulateLatestFirmwareCache(table: seq<Firmware>) returns (cache: LatestFirmware.Cache)
    ensures cache == LatestFirmware.Run(CallsOf(table))
  {
    cache := TableWalk.Iterate(table, _ => true, Remembered, LatestFirmware.EMPTY);
    MatchingAll(table);
    TableWalk.WalkIsFold(table, Remembered, LatestFirmware.EMPTY);
    FoldIsRun(table);
  }

  lemma {:induction false} FirstMatching<R>(table: seq<R>, where: R -> bool, n: nat)
    requires n > 0
    ensures First(TableWalk.Page(TableWalk.Matching(table, where), 0, n)).Some? <==>
            exists i :: 0 <= i < |table| && where(table[i])
    ensures var r := First(TableWalk.Page(TableWalk.Matching(table, where), 0, n));
            r.Some? ==> r.value in table && where(r.value)
  {
    if table != [] {
      FirstMatching(table[1..], where, n);
      if where(table[0]) {
        assert TableWalk.Matching(table, where)[0] == table[0];
      } else {
        assert TableWalk.Matching(table, where) == TableWalk.Matching(table[1..], where);
        forall i | 0 <= i < |table| && where(table[i]) ensures 0 <= i - 1 < |table[1..]| && where(table[1..][i - 1]) {
        }
        if i :| 0 <= i < |table[1..]| && where(table[1..][i]) {
          assert table[i + 1] == table[1..][i];
        }
      }
    }
  }

  /** The newest firmware of a device type: no other of that type has a later image date. */
  ghost predicate Newest(table: seq<Firmware>, deviceType: string, f: Firmware)
  {
    f in table && f.deviceType == deviceType &&
    forall g :: g in table && g.deviceType == deviceType ==> g.imageDate <= f.imageDate
  }

  lemma CachedIsNewest(table: seq<Firmware>, deviceType: string)
    requires FirmwareTable.DistinctIds(table)
    ensures var e := Lookup(LatestFirmware.Run(CallsOf(table)).all, deviceType);
            (e.None? ==> forall f :: f in table ==> f.deviceType != deviceType) &&
            (e.Some? ==>
               GetFirmware(table, e.value.id).Some? &&
               Newest(table, deviceType, GetFirmware(table, e.value.id).value))
  {
    var calls := CallsOf(table);
    var m := LatestFirmware.Run(calls).all;
    LatestFirmware.CacheHoldsLatest(calls, deviceType);
    if deviceType in m {
      var i: nat :| LatestFirmware.IsLastGreatest(calls, deviceType, LatestFirmware.Any, i) &&
                    m[deviceType] == LatestFirmware.EntryOf(calls[i]);
      var id := table[i].id;
      FirstMatching(table, (f: Firmware) => f.id == id, 1);
      var got := GetFirmware(table, id).value;
      var k :| 0 <= k < |table| && table[k] == got;
      assert k == i;
      forall g | g in table && g.deviceType == deviceType ensures g.imageDate <= got.imageDate {
        var j :| 0 <= j < |table| && table[j] == g;
        assert calls[j].deviceType == deviceType && LatestFirmware.Any(calls[j]);
      }
    } else {
      forall f | f in table ensures f.deviceType != deviceType {
        var j :| 0 <= j < |table| && table[j] == f;
        assert calls[j].deviceType == f.deviceType && LatestFirmware.Any(calls[j]);
      }
    }
  }

  lemma CurrentIsRow(db: FirmwareTable.FirmwareEngine, table: seq<Firmware>, revision: string, deviceType: string)
    requires Conforms(db, FirmwareTable.Columns) && Plain(revision) && Plain(deviceType)
    ensures var current := GetFirmwareByRevision(db, table, revision, deviceType);
            (current.Some? <==> exists f :: f in table && f.revision == revision && f.deviceType == deviceType) &&
            (current.Some? ==>
               current.value in table && current.value.revision == revision && current.value.deviceType == deviceType)
  {
    var where := db(RevisionClause(revision, deviceType));
    forall f ensures where(f) <==> f.revision == revision && f.deviceType == deviceType {
      RevisionClauseSelects(db, revision, deviceType, f);
    }
    FirstMatching(table, where, 2);
    hide RevisionClause, Conforms;
  }

  /** The distance from the current firmware, when that is known, to a newest one. */
  ghost predicate TrueAge(age: Age, revision: string, newest: Firmware, current: Option<Firmware>)
  {
    age.latest == (revision == newest.revision) &&
    match current
    case None => age.age == 0
    case Some(c) => c.imageDate <= newest.imageDate && age.age == newest.imageDate - c.imageDate
  }

  /** With a cache filled from the table, an age is determined exactly for the device types in the
      table; it counts from a firmware none is newer than, and the subtraction never wraps. */
  lemma FreshCacheGivesTrueAges(db: FirmwareTable.FirmwareEngine, table: seq<Firmware>, deviceType: string,
                                revision: string)
    requires Conforms(db, FirmwareTable.Columns) && Plain(revision) && Plain(deviceType)
    requires FirmwareTable.DistinctIds(table) && forall f :: f in table ==> f.imageDate < U64
    ensures var age := ComputeFirmwareAge(db, table, LatestFirmware.Run(CallsOf(table)), deviceType, revision);
            (age.Some? <==> exists f :: f in table && f.deviceType == deviceType) &&
            (age.Some? ==> exists newest ::
               Newest(table, deviceType, newest) &&
               TrueAge(age.value, revision, newest, GetFirmwareByRevision(db, table, revision, deviceType)))
  {
    hide Conforms, GetFirmware, GetFirmwareByRevision, LatestFirmware.Run, FirmwareTable.DistinctIds;
    CachedIsNewest(table, deviceType);
    CurrentIsRow(db, table, revision, deviceType);
    var e := Lookup(LatestFirmware.Run(CallsOf(table)).all, deviceType);
    if e.Some? {
      var newest := GetFirmware(table, e.value.id).value;
      assert Newest(table, deviceType, newest);
      var current := GetFirmwareByRevision(db, table, revision, deviceType);
      assert current.Some? ==> current.value.imageDate <= newest.imageDate < U64;
    }
  }

  // ----- counted maps -----

  function Bumped(m: map<string, nat>, s: string, increment: nat): map<string, nat>
  {
    m[s := if s in m then (m[s] + increment) % U64 else increment]
  }

  /** The map a caller passes by reference is handed in and back. */
  method UpdateCountedMap(M: map<string, nat>, s: string, increment: nat) returns (M': map<string, nat>)
    ensures M' == Bumped(M, s, increment)
  {
    M' := M;
    if s !in M' {
      M' := M'[s := increment];
    } else {
      M' := M'[s := (M'[s] + increment) % U64];
    }
  }

  /** The counter under a key and an index; one that was never touched stands at zero. */
  function CounterAt(m: map<string, map<nat, nat>>, s: string, index: nat): nat
  {
    if s in m && index in m[s] then m[s][index] else 0
  }

  /** Raises one counter; every other counter of the same key and of other keys stays, and no key or
      index appears but the one that is raised. */
  method UpdateCounted3DMap(M: map<string, map<nat, nat>>, s: string, index: nat, increment: nat)
    returns (M': map<string, map<nat, nat>>)
    requires increment < U64
    ensures CounterAt(M', s, index) == (CounterAt(M, s, index) + increment) % U64
    ensures forall t, i :: t != s || i != index ==> CounterAt(M', t, i) == CounterAt(M, t, i)
    ensures M'.Keys == M.Keys + {s}
    ensures forall t :: t in M && t != s ==> M'[t] == M[t]
    ensures M'[s].Keys == (if s in M then M[s].Keys else {}) + {index}
  {
    M' := M;
    if s !in M' {
      var E: map<nat, nat> := map[];
      E := E[index := increment];
      M' := M'[s := E];
    } else {
      var indexMap := M'[s];
      if index !in indexMap {
        indexMap := indexMap[index := increment];
      } else {
        indexMap := indexMap[index := (indexMap[index] + increment) % U64];
      }
      M' := M'[s := indexMap];
    }
  }

  ghost function Sum(m: map<string, nat>): nat
  {
    if m == map[] then 0 else
    var k :| k in m;
    m[k] + Sum(m - {k})
  }

  lemma {:induction false} SumWithout(m: map<string, nat>, k: string)
    requires k in m
    ensures Sum(m) == m[k] + Sum(m - {k})
    decreases |m|
  {
    var j :| j in m && Sum(m) == m[j] + Sum(m - {j});
    if j != k {
      SumWithout(m - {j}, k);
      SumWithout(m - {k}, j);
      assert m - {j} - {k} == m - {k} - {j};
    }
  }

  lemma SumBumped(m: map<string, nat>, s: string, increment: nat)
    requires s in m ==> m[s] + increment < U64
    ensures Sum(Bumped(m, s, increment)) == Sum(m) + increment
  {
    var n := Bumped(m, s, increment);
    SumWithout(n, s);
    if s in m {
      SumWithout(m, s);
      assert n - {s} == m - {s};
    } else {
      assert n - {s} == m;
    }
  }

  // ----- the report -----

  datatype Report = Report(numberOfDevices: nat, deviceTypes: map<string, nat>, revisions: map<string, nat>,
                           status: map<string, nat>, endPoints: map<string, nat>, oui: map<string, nat>,
                           matchedRevisions: map<string, nat>, usingLatest: map<string, nat>,
                           unknownFirmwares: map<string, nat>, totalSecondsOld: map<string, nat>)

  const EMPTY: Report := Report(0, map[], map[], map[], map[], map[], map[], map[], map[], map[])

  /** The firmware tables the report looks things up in. */
  datatype Firmwares = Firmwares(db: FirmwareTable.FirmwareEngine, table: seq<Firmware>, cache: LatestFirmware.Cache)
  {
    function Matched(d: Device): bool
    {
      GetFirmwareByRevision(db, table, d.revision, d.deviceType).Some?
    }

    function AgeOf(d: Device): Option<Age>
    {
      ComputeFirmwareAge(db, table, cache, d.deviceType, d.revision)
    }
  }

  function Vendor(serialNumber: string): string
  {
    if |serialNumber| < 6 then serialNumber else serialNumber[..6]
  }

  // What a device is counted under in each map, if it is.

  function ByType(d: Device): Option<string> { Some(d.deviceType) }

  function ByRevision(d: Device): Option<string> { Some(d.revision) }

  function ByStatus(d: Device): Option<string> { Some(d.status) }

  function ByEndPoint(d: Device): Option<string> { Some(d.endPoint) }

  function ByVendor(d: Device): Option<string> { Some(Vendor(d.serialNumber)) }

  function ByMatch(fw: Firmwares): Device -> Option<string>
  {
    d => if fw.Matched(d) then Some(d.revision) else None
  }

  predicate UsesLatest(fw: Firmwares, d: Device) { fw.AgeOf(d).Some? && fw.AgeOf(d).value.latest }

  predicate IsUnknown(fw: Firmwares, d: Device)
  {
    fw.AgeOf(d).Some? && !fw.AgeOf(d).value.latest && fw.AgeOf(d).value.age == 0
  }

  predicate IsOld(fw: Firmwares, d: Device)
  {
    fw.AgeOf(d).Some? && !fw.AgeOf(d).value.latest && fw.AgeOf(d).value.age != 0
  }

  function ByLatest(fw: Firmwares): Device -> Option<string>
  {
    d => if UsesLatest(fw, d) then Some(d.revision) else None
  }

  function ByUnknown(fw: Firmwares): Device -> Option<string>
  {
    d => if IsUnknown(fw, d) then Some(d.revision) else None
  }

  function Tallied(m: map<string, nat>, key: Option<string>): map<string, nat>
  {
    if key.Some? then Bumped(m, key.value, 1) else m
  }

  function CountedTotals(r: Report, d: Device): Report
  {
    r.(numberOfDevices := (r.numberOfDevices + 1) % U64,
       deviceTypes := Tallied(r.deviceTypes, ByType(d)), revisions := Tallied(r.revisions, ByRevision(d)),
       status := Tallied(r.status, ByStatus(d)), endPoints := Tallied(r.endPoints, ByEndPoint(d)),
       oui := Tallied(r.oui, ByVendor(d)))
  }

  function CountedFirmware(r: Report, d: Device, fw: Firmwares): Report
  {
    r.(matchedRevisions := Tallied(r.matchedRevisions, ByMatch(fw)(d)),
       usingLatest := Tallied(r.usingLatest, ByLatest(fw)(d)),
       unknownFirmwares := Tallied(r.unknownFirmwares, ByUnknown(fw)(d)),
       totalSecondsOld :=
         if IsOld(fw, d) then Bumped(r.totalSecondsOld, "total_seconds", fw.AgeOf(d).value.age) else r.totalSecondsOld)
  }

  /** What the report's callback makes of one device. */
  function Counted(r: Report, d: Device, fw: Firmwares): Report
  {
    CountedFirmware(CountedTotals(r, d), d, fw)
  }

  class ReportInProgress {
    var numberOfDevices: nat
    var DeviceTypes_: map<string, nat>
    var Revisions_: map<string, nat>
    var Status_: map<string, nat>
    var EndPoints_: map<string, nat>
    var OUI_: map<string, nat>
    var MatchedRevisions_: map<string, nat>
    var UsingLatest_: map<string, nat>
    var UnknownFirmwares_: map<string, nat>
    var totalSecondsOld_: map<string, nat>

    function State(): Report
      reads this
    {
      Report(numberOfDevices, DeviceTypes_, Revisions_, Status_, EndPoints_, OUI_,
             MatchedRevisions_, UsingLatest_, UnknownFirmwares_, totalSecondsOld_)
    }

    constructor ()
      ensures State() == EMPTY
    {
      numberOfDevices := 0;
      DeviceTypes_, Revisions_, Status_, EndPoints_, OUI_ := map[], map[], map[], map[], map[];
      MatchedRevisions_, UsingLatest_, UnknownFirmwares_, totalSecondsOld_ := map[], map[], map[], map[];
    }

    method CountTotals(D: Device)
      modifies this
      ensures State() == CountedTotals(old(State()), D)
    {
      hide Bumped, Vendor;
      numberOfDevices := (numberOfDevices + 1) % U64;
      DeviceTypes_ := UpdateCountedMap(DeviceTypes_, D.deviceType, 1);
      Revisions_ := UpdateCountedMap(Revisions_, D.revision, 1);
      Status_ := UpdateCountedMap(Status_, D.status, 1);
      EndPoints_ := UpdateCountedMap(EndPoints_, D.endPoint, 1);
      OUI_ := UpdateCountedMap(OUI_, Vendor(D.serialNumber), 1);
    }

    /** The callback, with the lookups the firmware tables answer. */
    method Count(D: Device, fw: Firmwares)
      modifies this
      ensures State() == Counted(old(State()), D, fw)
    {
      CountTotals(D);
      hide Bumped, CountedTotals, ComputeFirmwareAge, GetFirmwareByRevision;
      if fw.Matched(D) {
        MatchedRevisions_ := UpdateCountedMap(MatchedRevisions_, D.revision, 1);
      }
      var age := fw.AgeOf(D);
      if age.Some? {
        if age.value.latest {
          UsingLatest_ := UpdateCountedMap(UsingLatest_, D.revision, 1);
        } else if age.value.age == 0 {
          UnknownFirmwares_ := UpdateCountedMap(UnknownFirmwares_, D.revision, 1);
        } else {
          totalSecondsOld_ := UpdateCountedMap(totalSecondsOld_, "total_seconds", age.value.age);
        }
      }
    }
  }

  function Visit(fw: Firmwares): TableWalk.Visitor<Report, Device>
  {
    (r: Report, d: Device) => (Counted(r, d, fw), true)
  }

  function Tally(rows: seq<Device>, fw: Firmwares): Report
  {
    TableWalk.Fold(rows, Visit(fw), EMPTY)
  }

  method GenerateDeviceReport(rows: seq<Device>, fw: Firmwares) returns (report: Report)
    ensures report == Tally(rows, fw)
  {
    report := TableWalk.Iterate(rows, _ => true, Visit(fw), EMPTY);
    MatchingAll(rows);
    TableWalk.WalkIsFold(rows, Visit(fw), EMPTY);
  }

  // ----- what the report says about the table -----

  function CountKey(rows: seq<Device>, key: Device -> Option<string>, k: string): (n: nat)
    ensures n <= |rows|
  {
    if rows == [] then 0
    else CountKey(rows[..|rows| - 1], key, k) + if key(rows[|rows| - 1]) == Some(k) then 1 else 0
  }

  function CountKeyed(rows: seq<Device>, key: Device -> Option<string>): (n: nat)
    ensures n <= |rows|
  {
    if rows == [] then 0
    else CountKeyed(rows[..|rows| - 1], key) + if key(rows[|rows| - 1]).Some? then 1 else 0
  }

  /** The map holds, for every key that occurs, the number of rows counted under it; its values add
      up to the number of rows counted at all. */
  ghost predicate Tallies(m: map<string, nat>, rows: seq<Device>, key: Device -> Option<string>)
  {
    (forall k :: k in m <==> CountKey(rows, key, k) > 0) &&
    (forall k :: k in m ==> m[k] == CountKey(rows, key, k)) &&
    Sum(m) == CountKeyed(rows, key)
  }

  lemma CountStep(rows: seq<Device>, d: Device, key: Device -> Option<string>, k: string)
    ensures CountKey(rows + [d], key, k) == CountKey(rows, key, k) + if key(d) == Some(k) then 1 else 0
    ensures CountKeyed(rows + [d], key) == CountKeyed(rows, key) + if key(d).Some? then 1 else 0
  {
    assert (rows + [d])[..|rows|] == rows;
  }

  lemma TalliesStep(m: map<string, nat>, rows: seq<Device>, d: Device, key: Device -> Option<string>)
    requires Tallies(m, rows, key) && |rows| + 1 < U64
    ensures Tallies(Tallied(m, key(d)), rows + [d], key)
  {
    hide CountKey, CountKeyed, Sum;
    forall k: string
      ensures CountKey(rows + [d], key, k) == CountKey(rows, key, k) + if key(d) == Some(k) then 1 else 0
    {
      CountStep(rows, d, key, k);
    }
    CountStep(rows, d, key, "");
    if key(d).Some? {
      SumBumped(m, key(d).value, 1);
    }
  }

  function SecondsOld(rows: seq<Device>, fw: Firmwares): nat
  {
    if rows == [] then 0
    else
      var d := rows[|rows| - 1];
      SecondsOld(rows[..|rows| - 1], fw) + if IsOld(fw, d) then fw.AgeOf(d).value.age else 0
  }

  /** Every map of a fresh report counts the devices under their key, exactly. */
  ghost predicate ReportIsExact(r: Report, rows: seq<Device>, fw: Firmwares)
  {
    r.numberOfDevices == |rows| &&
    Tallies(r.deviceTypes, rows, ByType) && Tallies(r.revisions, rows, ByRevision) &&
    Tallies(r.status, rows, ByStatus) &&
    Tallies(r.endPoints, rows, ByEndPoint) && Tallies(r.oui, rows, ByVendor) &&
    Tallies(r.matchedRevisions, rows, ByMatch(fw)) && Tallies(r.usingLatest, rows, ByLatest(fw)) &&
    Tallies(r.unknownFirmwares, rows, ByUnknown(fw))
  }

  lemma TallyStep(rows: seq<Device>, d: Device, fw: Firmwares)
    ensures Tally(rows + [d], fw) == Counted(Tally(rows, fw), d, fw)
  {
    hide Counted;
    FoldAppend(rows, d, Visit(fw), EMPTY);
  }

  lemma CountedIsExact(r: Report, rows: seq<Device>, d: Device, fw: Firmwares)
    requires ReportIsExact(r, rows, fw) && |rows| + 1 < U64
    ensures ReportIsExact(Counted(r, d, fw), rows + [d], fw)
  {
    hide Tallies, Tallied, ByMatch, ByLatest, ByUnknown, ByVendor, Bumped, ComputeFirmwareAge;
    TalliesStep(r.deviceTypes, rows, d, ByType);
    TalliesStep(r.revisions, rows, d, ByRevision);
    TalliesStep(r.status, rows, d, ByStatus);
    TalliesStep(r.endPoints, rows, d, ByEndPoint);
    TalliesStep(r.oui, rows, d, ByVendor);
    TalliesStep(r.matchedRevisions, rows, d, ByMatch(fw));
    TalliesStep(r.usingLatest, rows, d, ByLatest(fw));
    TalliesStep(r.unknownFirmwares, rows, d, ByUnknown(fw));
  }

  lemma EmptyReportIsExact(fw: Firmwares)
    ensures Tally([], fw) == EMPTY && ReportIsExact(EMPTY, [], fw)
  {
  }

  /** A fresh report is exact for every table. */
  lemma {:induction false} TallyIsExact(rows: seq<Device>, fw: Firmwares)
    requires |rows| < U64
    ensures ReportIsExact(Tally(rows, fw), rows, fw)
  {
    hide ReportIsExact, Tally, Counted;
    if rows == [] {
      EmptyReportIsExact(fw);
    } else {
      var front, d := rows[..|rows| - 1], rows[|rows| - 1];
      TallyIsExact(front, fw);
      assert rows == front + [d];
      TallyStep(front, d, fw);
      CountedIsExact(Tally(front, fw), front, d, fw);
    }
  }

  lemma {:induction false} EveryDeviceHasAKey(rows: seq<Device>, key: Device -> Option<string>)
    requires forall d :: key(d).Some?
    ensures CountKeyed(rows, key) == |rows|
  {
    if rows != [] {
      EveryDeviceHasAKey(rows[..|rows| - 1], key);
    }
  }

  lemma {:induction false} KeysAreApart(rows: seq<Device>, fw: Firmwares, k: string)
    ensures CountKey(rows, ByLatest(fw), k) + CountKey(rows, ByUnknown(fw), k) <= CountKey(rows, ByRevision, k)
    ensures CountKey(rows, ByMatch(fw), k) <= CountKey(rows, ByRevision, k)
  {
    if rows != [] {
      KeysAreApart(rows[..|rows| - 1], fw, k);
    }
  }

  function At(m: map<string, nat>, k: string): nat { if k in m then m[k] else 0 }

  /** In a fresh report each of the five total maps adds up to the number of devices, which is the
      number of rows, and no revision is used by fewer devices than are counted as up to date,
      unknown or matched under it. */
  lemma ReportIsConserved(rows: seq<Device>, fw: Firmwares, k: string)
    requires |rows| < U64
    ensures var r := Tally(rows, fw);
            r.numberOfDevices == |rows| &&
            Sum(r.deviceTypes) == Sum(r.revisions) == Sum(r.status) == Sum(r.endPoints) == Sum(r.oui) == |rows| &&
            At(r.usingLatest, k) + At(r.unknownFirmwares, k) <= At(r.revisions, k) &&
            At(r.matchedRevisions, k) <= At(r.revisions, k)
  {
    TallyIsExact(rows, fw);
    EveryDeviceHasAKey(rows, ByType);
    EveryDeviceHasAKey(rows, ByRevision);
    EveryDeviceHasAKey(rows, ByStatus);
    EveryDeviceHasAKey(rows, ByEndPoint);
    EveryDeviceHasAKey(rows, ByVendor);
    KeysAreApart(rows, fw, k);
  }

  lemma SecondsStep(m: map<string, nat>, total: nat, seconds: nat)
    requires At(m, "total_seconds") == total % U64 && seconds < U64
    ensures At(Bumped(m, "total_seconds", seconds), "total_seconds") == (total + seconds) % U64
  {
  }

  lemma AgeFitsIn64Bits(fw: Firmwares, d: Device)
    ensures fw.AgeOf(d).Some? ==> fw.AgeOf(d).value.age < U64
  {
  }

  /** The seconds of all old devices are added up in 64 bits, and nothing else is kept with them. */
  lemma {:induction false} SecondsAreAddedUp(rows: seq<Device>, fw: Firmwares)
    ensures At(Tally(rows, fw).totalSecondsOld, "total_seconds") == SecondsOld(rows, fw) % U64
    ensures Tally(rows, fw).totalSecondsOld.Keys <= {"total_seconds"}
  {
    hide Tally, Tallied, ComputeFirmwareAge, GetFirmwareByRevision;
    if rows == [] {
      EmptyReportIsExact(fw);
    } else {
      var front, d := rows[..|rows| - 1], rows[|rows| - 1];
      SecondsAreAddedUp(front, fw);
      assert rows == front + [d];
      TallyStep(front, d, fw);
      AgeFitsIn64Bits(fw, d);
      if IsOld(fw, d) {
        SecondsStep(Tally(front, fw).totalSecondsOld, SecondsOld(front, fw), fw.AgeOf(d).value.age);
      }
    }
  }

  // ----- the report by the fields of the devices -----

  function HowMany(rows: seq<Device>, p: Device -> bool): nat
  {
    if rows == [] then 0 else HowMany(rows[..|rows| - 1], p) + if p(rows[|rows| - 1]) then 1 else 0
  }

  function Total(rows: seq<Device>, f: Device -> nat): nat
  {
    if rows == [] then 0 else Total(rows[..|rows| - 1], f) + f(rows[|rows| - 1])
  }

  lemma {:induction false} CountIsHowMany(rows: seq<Device>, key: Device -> Option<string>, k: string,
                                          p: Device -> bool)
    requires forall d :: key(d) == Some(k) <==> p(d)
    ensures CountKey(rows, key, k) == HowMany(rows, p)
  {
    if rows != [] {
      CountIsHowMany(rows[..|rows| - 1], key, k, p);
    }
  }

  lemma TalliedIsHowMany(m: map<string, nat>, rows: seq<Device>, key: Device -> Option<string>, k: string,
                         p: Device -> bool)
    requires Tallies(m, rows, key) && forall d :: key(d) == Some(k) <==> p(d)
    ensures At(m, k) == HowMany(rows, p)
  {
    CountIsHowMany(rows, key, k, p);
  }

  /** In a fresh report each of the five total maps counts, for every key, the devices whose field has that
      value; the vendor is the first six characters of the serial number. */
  lemma TotalsAreByField(rows: seq<Device>, fw: Firmwares, k: string)
    requires |rows| < U64
    ensures var r := Tally(rows, fw);
            At(r.deviceTypes, k) == HowMany(rows, (d: Device) => d.deviceType == k) &&
            At(r.revisions, k) == HowMany(rows, (d: Device) => d.revision == k) &&
            At(r.status, k) == HowMany(rows, (d: Device) => d.status == k) &&
            At(r.endPoints, k) == HowMany(rows, (d: Device) => d.endPoint == k) &&
            At(r.oui, k) ==
            HowMany(rows, (d: Device) => k == if |d.serialNumber| < 6 then d.serialNumber else d.serialNumber[..6])
  {
    var r := Tally(rows, fw);
    TallyIsExact(rows, fw);
    hide Tally, Tallies;
    TalliedIsHowMany(r.deviceTypes, rows, ByType, k, (d: Device) => d.deviceType == k);
    TalliedIsHowMany(r.revisions, rows, ByRevision, k, (d: Device) => d.revision == k);
    TalliedIsHowMany(r.status, rows, ByStatus, k, (d: Device) => d.status == k);
    TalliedIsHowMany(r.endPoints, rows, ByEndPoint, k, (d: Device) => d.endPoint == k);
    TalliedIsHowMany(r.oui, rows, ByVendor, k,
                     (d: Device) => k == if |d.serialNumber| < 6 then d.serialNumber else d.serialNumber[..6]);
  }

  /** The other maps count, for every revision, the devices whose firmware is known, up to date, or of no
      known age. */
  lemma MatchedAreByRevision(rows: seq<Device>, fw: Firmwares, k: string, p: Device -> bool)
    requires |rows| < U64
    requires forall d :: p(d) <==>
                         d.revision == k && GetFirmwareByRevision(fw.db, fw.table, d.revision, d.deviceType).Some?
    ensures At(Tally(rows, fw).matchedRevisions, k) == HowMany(rows, p)
  {
    TallyIsExact(rows, fw);
    hide Tally, Tallies, GetFirmwareByRevision;
    TalliedIsHowMany(Tally(rows, fw).matchedRevisions, rows, ByMatch(fw), k, p);
  }

  lemma UpToDateAreByAge(rows: seq<Device>, fw: Firmwares, k: string, p: Device -> bool)
    requires |rows| < U64
    requires forall d :: p(d) <==>
                         var age := ComputeFirmwareAge(fw.db, fw.table, fw.cache, d.deviceType, d.revision);
                         d.revision == k && age.Some? && age.value.latest
    ensures At(Tally(rows, fw).usingLatest, k) == HowMany(rows, p)
  {
    TallyIsExact(rows, fw);
    hide Tally, Tallies, ComputeFirmwareAge;
    TalliedIsHowMany(Tally(rows, fw).usingLatest, rows, ByLatest(fw), k, p);
  }

  lemma UnknownAreByAge(rows: seq<Device>, fw: Firmwares, k: string, p: Device -> bool)
    requires |rows| < U64
    requires forall d :: p(d) <==>
                         var age := ComputeFirmwareAge(fw.db, fw.table, fw.cache, d.deviceType, d.revision);
                         d.revision == k && age.Some? && !age.value.latest && age.value.age == 0
    ensures At(Tally(rows, fw).unknownFirmwares, k) == HowMany(rows, p)
  {
    TallyIsExact(rows, fw);
    hide Tally, Tallies, ComputeFirmwareAge;
    TalliedIsHowMany(Tally(rows, fw).unknownFirmwares, rows, ByUnknown(fw), k, p);
  }

  /** The ages of the devices that are out of date add up, in 64 bits. */
  lemma SecondsAreByAge(rows: seq<Device>, fw: Firmwares, f: Device -> nat)
    requires forall d :: f(d) == var age := ComputeFirmwareAge(fw.db, fw.table, fw.cache, d.deviceType, d.revision);
                                 if age.Some? && !age.value.latest then age.value.age else 0
    ensures At(Tally(rows, fw).totalSecondsOld, "total_seconds") == Total(rows, f) % U64
  {
    SecondsAreAddedUp(rows, fw);
    hide Tally, ComputeFirmwareAge;
    SecondsAreTotal(rows, fw, f);
  }

  lemma {:induction false} SecondsAreTotal(rows: seq<Device>, fw: Firmwares, f: Device -> nat)
    requires forall d :: f(d) == if fw.AgeOf(d).Some? && !fw.AgeOf(d).value.latest then fw.AgeOf(d).value.age else 0
    ensures SecondsOld(rows, fw) == Total(rows, f)
  {
    hide ComputeFirmwareAge;
    if rows != [] {
      SecondsAreTotal(rows[..|rows| - 1], fw, f);
    }
  }
}
