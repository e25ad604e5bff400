/** The device table and the upgrade history, under the operations the two message handlers run. */
module DeviceStore {
  import opened Characters
  import opened Clauses
  import SqlText

  datatype Device = Device(revision: string, deviceType: string, endPoint: string, lastUpdate: nat, status: string)

  datatype Upgrade = Upgrade(serialNumber: string, fromRelease: string, toRelease: string, revisionId: string,
                             upgraded: nat)

  datatype Store = Store(devices: map<string, Device>, history: seq<Upgrade>)

  /** Which of the storage calls of one operation succeed: the read of the device row, the change of
      the history, and the change of the device table. */
  datatype Io = Io(read: bool, log: bool, write: bool)

  const OK: Io := Io(true, true, true)

  datatype Operation =
    | Connected(serial: string, revision: string, deviceType: string, endPoint: string, now: nat, revisionId: string)
    | Disconnected(serial: string, endPoint: string)
    | Deleted(serial: string)

  function Of(history: seq<Upgrade>, serial: string): seq<Upgrade>
  {
    if history == [] then []
    else
      var e := history[|history| - 1];
      Of(history[..|history| - 1], serial) + (if e.serialNumber == serial then [e] else [])
  }

  /** The history without the entries a clause selects. */
  function Without(history: seq<Upgrade>, where: Upgrade -> bool): seq<Upgrade>
  {
    if history == [] then []
    else
      var e := history[|history| - 1];
      Without(history[..|history| - 1], where) + (if where(e) then [] else [e])
  }

  // ----- the clause that names a device -----

  type HistoryEngine = Engine<Upgrade>

  function Columns(e: Upgrade): string -> SqlText.Value
  {
    (name: string) =>
      if name == "serialnumber" then SqlText.Text(e.serialNumber)
      else if name == "fromrelease" then SqlText.Text(e.fromRelease)
      else if name == "torelease" then SqlText.Text(e.toRelease)
      else if name == "revisionid" then SqlText.Text(e.revisionId)
      else SqlText.Int(e.upgraded)
  }

  function HistoryClause(serial: string): string
  {
    OneClause("serialNumber", SqlText.Text(serial))
  }

  lemma HistoryClauseSelects(db: HistoryEngine, serial: string, e: Upgrade)
    requires Conforms(db, Columns) && Plain(serial)
    ensures db(HistoryClause(serial))(e) <==> e.serialNumber == serial
  {
    assert Lower("serialNumber") == "serialnumber";
    OneClauseSelects(db, Columns, "serialNumber", SqlText.Text(serial), e);
  }

  lemma HistoryClauseText(serial: string)
    ensures HistoryClause(serial) == " serialNumber='" + serial + "' "
  {
    hide OneClause;
    OneText("serialNumber", serial);
    SerialNumberHead();
  }

  lemma SerialNumberHead()
    ensures " " + "serialNumber" + "='" == " serialNumber='"
  {
  }

  // ----- what each operation does -----

  function AfterConnected(s: Store, op: Operation, io: Io): Store
    requires op.Connected?
  {
    if io.read && op.serial in s.devices then
      var d := s.devices[op.serial];
      var entry := Upgrade(op.serial, d.revision, op.revision, op.revisionId, op.now);
      var row := Device(op.revision, op.deviceType, op.endPoint, d.lastUpdate, "connected");
      Store(if io.write then s.devices[op.serial := row] else s.devices,
            if d.revision != op.revision && io.log then s.history + [entry] else s.history)
    else if io.write && op.serial !in s.devices then
      s.(devices := s.devices[op.serial := Device(op.revision, op.deviceType, op.endPoint, op.now, "connected")])
    else s
  }

  function AfterDisconnected(s: Store, op: Operation, io: Io): Store
    requires op.Disconnected?
  {
    if io.read && op.serial in s.devices && io.write then
      s.(devices := s.devices[op.serial := s.devices[op.serial].(status := "not connected", endPoint := op.endPoint)])
    else s
  }

  function AfterDeleted(db: HistoryEngine, s: Store, op: Operation, io: Io): Store
    requires op.Deleted?
  {
    Store(if io.write then s.devices - {op.serial} else s.devices,
          if io.log then Without(s.history, db(HistoryClause(op.serial))) else s.history)
  }

  function After(db: HistoryEngine, s: Store, op: Operation, io: Io): Store
  {
    match op
    case Connected(_, _, _, _, _, _) => AfterConnected(s, op, io)
    case Disconnected(_, _) => AfterDisconnected(s, op, io)
    case Deleted(_) => AfterDeleted(db, s, op, io)
  }

  class StorageService {
    const db: HistoryEngine
    var Devices: map<string, Device>
    var History: seq<Upgrade>

    function State(): Store
      reads this
    {
      Store(Devices, History)
    }

    constructor (engine: HistoryEngine)
      ensures State() == Store(map[], []) && db == engine
    {
      Devices, History, db := map[], [], engine;
    }

    method GetRecord(serial: string, io: Io) returns (found: bool, d: Device)
      ensures found <==> io.read && serial in Devices
      ensures found ==> d == Devices[serial]
    {
      found, d := false, Device("", "", "", 0, "");
      if io.read && serial in Devices {
        found, d := true, Devices[serial];
      }
    }

    /** Replaces the row with this primary key. */
    method UpdateRecord(serial: string, d: Device, io: Io) returns (ok: bool)
      modifies this`Devices
      ensures ok == io.write
      ensures Devices == if io.write && serial in old(Devices) then old(Devices)[serial := d] else old(Devices)
    {
      if io.write && serial in Devices {
        Devices := Devices[serial := d];
      }
      ok := io.write;
    }

    /** Fails on a primary key that is already there. */
    method CreateRecord(serial: string, d: Device, io: Io) returns (ok: bool)
      modifies this`Devices
      ensures ok <==> io.write && serial !in old(Devices)
      ensures Devices == if ok then old(Devices)[serial := d] else old(Devices)
    {
      ok := io.write && serial !in Devices;
      if ok {
        Devices := Devices[serial := d];
      }
    }

    method SetDeviceRevision(serial: string, revision: string, deviceType: string, endPoint: string,
                             now: nat, revisionId: string, io: Io) returns (ok: bool)
      modifies this
      ensures State() == After(db, old(State()), Connected(serial, revision, deviceType, endPoint, now, revisionId), io)
      ensures ok <==> io.write && (io.read || serial !in old(Devices))
    {
      var found, D := GetRecord(serial, io);
      if found {
        if D.revision != revision {
          if io.log {
            History := History + [Upgrade(serial, D.revision, revision, revisionId, now)];
          }
        }
        D := D.(revision := revision, deviceType := deviceType, endPoint := endPoint, status := "connected");
        ok := UpdateRecord(serial, D, io);
      } else {
        ok := CreateRecord(serial, Device(revision, deviceType, endPoint, now, "connected"), io);
      }
    }

    method SetDeviceDisconnected(serial: string, endPoint: string, io: Io) returns (ok: bool)
      modifies this
      ensures State() == After(db, old(State()), Disconnected(serial, endPoint), io)
      ensures ok <==> io.read && io.write && serial in old(Devices)
    {
      var found, D := GetRecord(serial, io);
      if found {
        D := D.(status := "not connected", endPoint := endPoint);
        ok := UpdateRecord(serial, D, io);
        return;
      }
      ok := false;
    }

    /** With a serial number that holds no quote exactly the device's own entries go. */
    method DeleteHistory(serial: string, io: Io)
      modifies this`History
      ensures History == if io.log then Without(old(History), db(HistoryClause(serial))) else old(History)
      ensures Conforms(db, Columns) && Plain(serial) && io.log ==>
                forall s :: Of(History, s) == if s == serial then [] else Of(old(History), s)
    {
      if !io.log {
        return;
      }
      ghost var before := History;
      var selected, kept := db(HistoryClause(serial)), [];
      for i := 0 to |History|
        invariant History == before && kept == Without(before[..i], selected)
      {
        assert before[..i + 1][..i] == before[..i];
        if !selected(History[i]) {
          kept := kept + [History[i]];
        }
      }
      assert before[..|before|] == before;
      if Conforms(db, Columns) && Plain(serial) {
        forall s ensures Of(kept, s) == if s == serial then [] else Of(before, s) {
          OfWithout(db, before, serial, s);
        }
      }
      History := kept;
    }

    /** A delete command counts only when it names the device it was sent for. */
    method HandleCommand(key: string, command: string, serial: string, io: Io)
      modifies this
      ensures State() == if command == "delete_device" && serial == key then After(db, old(State()), Deleted(key), io)
              else old(State())
    {
      if command == "delete_device" {
        if serial == key {
          DeleteHistory(key, io);
          if io.write {
            Devices := Devices - {key};
          }
        }
      }
    }
  }

  // ----- what is stored, field by field -----

  /** After a connection whose row could be written, the row says what was reported and that the device is
      connected; the time of an earlier row stays, a new row has the time of the report. */
  lemma ConnectedRow(db: HistoryEngine, s: Store, op: Operation, io: Io)
    requires op.Connected? && io.write && (io.read || op.serial !in s.devices)
    ensures var t := After(db, s, op, io);
            op.serial in t.devices && t.devices[op.serial].revision == op.revision &&
            t.devices[op.serial].deviceType == op.deviceType && t.devices[op.serial].endPoint == op.endPoint &&
            t.devices[op.serial].status == "connected" &&
            t.devices[op.serial].lastUpdate ==
            (if op.serial in s.devices then s.devices[op.serial].lastUpdate else op.now) &&
            t.devices.Keys == s.devices.Keys + {op.serial} &&
            forall d :: d in s.devices && d != op.serial ==> t.devices[d] == s.devices[d]
  {
  }

  /** A change of revision of a known device is entered behind the history with the device, both revisions,
      the identifier of the firmware and the time; nothing else ever is. */
  lemma ConnectedEntry(db: HistoryEngine, s: Store, op: Operation, io: Io)
    requires op.Connected?
    ensures var t := After(db, s, op, io);
            if io.read && io.log && op.serial in s.devices && s.devices[op.serial].revision != op.revision then
              |t.history| == |s.history| + 1 && t.history[..|s.history|] == s.history &&
              var e := t.history[|s.history|];
              e.serialNumber == op.serial && e.fromRelease == s.devices[op.serial].revision &&
              e.toRelease == op.revision && e.revisionId == op.revisionId && e.upgraded == op.now
            else t.history == s.history
  {
  }

  /** After a disconnection of a known device its row has the end point and says so; the rest of the row,
      the other rows and the history stay. */
  lemma DisconnectedRow(db: HistoryEngine, s: Store, op: Operation, io: Io)
    requires op.Disconnected? && io.read && io.write && op.serial in s.devices
    ensures var t, d := After(db, s, op, io), s.devices[op.serial];
            op.serial in t.devices && t.devices[op.serial].endPoint == op.endPoint &&
            t.devices[op.serial].status == "not connected" && t.devices[op.serial].revision == d.revision &&
            t.devices[op.serial].deviceType == d.deviceType && t.devices[op.serial].lastUpdate == d.lastUpdate &&
            t.devices.Keys == s.devices.Keys && t.history == s.history &&
            forall e :: e in s.devices && e != op.serial ==> t.devices[e] == s.devices[e]
  {
  }

  /** A deletion takes the row of its device and no other. */
  lemma DeletedRow(db: HistoryEngine, s: Store, op: Operation, io: Io)
    requires op.Deleted? && io.write
    ensures var t := After(db, s, op, io);
            t.devices.Keys == s.devices.Keys - {op.serial} &&
            forall d :: d in t.devices ==> t.devices[d] == s.devices[d]
  {
  }

  // ----- runs in which storage does not fail -----

  function Run(db: HistoryEngine, ops: seq<Operation>): Store
  {
    if ops == [] then Store(map[], []) else After(db, Run(db, ops[..|ops| - 1]), ops[|ops| - 1], OK)
  }

  /** The device is named by a serial number that the clause of a deletion can hold. */
  predicate Named(op: Operation) { op.Deleted? ==> Plain(op.serial) }

  ghost predicate AllNamed(ops: seq<Operation>)
  {
    forall i :: 0 <= i < |ops| ==> Named(ops[i])
  }

  /** The revisions a device has reported since it was last deleted. */
  function Reported(ops: seq<Operation>, serial: string): seq<string>
  {
    if ops == [] then []
    else
      var front, op := Reported(ops[..|ops| - 1], serial), ops[|ops| - 1];
      if op.serial != serial || op.Disconnected? then front
      else if op.Deleted? then []
      else front + [op.revision]
  }

  /** The changes along a sequence of revisions, as pairs of neighbours that differ. */
  function Changes(revisions: seq<string>): seq<(string, string)>
  {
    if |revisions| < 2 then []
    else
      var x, y := revisions[|revisions| - 2], revisions[|revisions| - 1];
      Changes(revisions[..|revisions| - 1]) + (if x == y then [] else [(x, y)])
  }

  function Pairs(h: seq<Upgrade>): (p: seq<(string, string)>)
    ensures |p| == |h|
  {
    seq(|h|, i requires 0 <= i < |h| => (h[i].fromRelease, h[i].toRelease))
  }

  lemma OfStep(history: seq<Upgrade>, e: Upgrade, serial: string)
    ensures Of(history + [e], serial) == if e.serialNumber == serial then Of(history, serial) + [e]
            else Of(history, serial)
  {
    assert (history + [e])[..|history|] == history;
  }

  lemma WithoutStep(history: seq<Upgrade>, e: Upgrade, where: Upgrade -> bool)
    ensures Without(history + [e], where) == if where(e) then Without(history, where) else Without(history, where) + [e]
  {
    assert (history + [e])[..|history|] == history;
  }

  lemma OfWithout(db: HistoryEngine, history: seq<Upgrade>, deleted: string, serial: string)
    requires Conforms(db, Columns) && Plain(deleted)
    ensures Of(Without(history, db(HistoryClause(deleted))), serial) == if serial == deleted then []
            else Of(history, serial)
  {
    hide Of, Without, HistoryClause, Conforms;
    var where := db(HistoryClause(deleted));
    forall e ensures where(e) <==> e.serialNumber == deleted {
      HistoryClauseSelects(db, deleted, e);
    }
    OfOthers(history, where, deleted, serial);
  }

  lemma {:induction false} OfOthers(history: seq<Upgrade>, where: Upgrade -> bool, deleted: string, serial: string)
    requires forall e :: where(e) <==> e.serialNumber == deleted
    ensures Of(Without(history, where), serial) == if serial == deleted then [] else Of(history, serial)
  {
    if history != [] {
      var front, e := history[..|history| - 1], history[|history| - 1];
      hide Of, Without;
      OfOthers(front, where, deleted, serial);
      assert history == front + [e];
      OfStep(front, e, serial);
      WithoutStep(front, e, where);
      OfStep(Without(front, where), e, serial);
    }
  }

  lemma ReportedStep(ops: seq<Operation>, serial: string)
    requires ops != []
    ensures var r, op := Reported(ops[..|ops| - 1], serial), ops[|ops| - 1];
            Reported(ops, serial) ==
            if op.serial != serial || op.Disconnected? then r else if op.Deleted? then [] else r + [op.revision]
  {
  }

  lemma ChangesStep(revisions: seq<string>, x: string)
    ensures Changes(revisions + [x]) ==
            Changes(revisions) +
            (if revisions != [] && revisions[|revisions| - 1] != x then [(revisions[|revisions| - 1], x)] else [])
  {
    assert (revisions + [x])[..|revisions|] == revisions;
  }

  lemma PairsStep(h: seq<Upgrade>, e: Upgrade)
    ensures Pairs(h + [e]) == Pairs(h) + [(e.fromRelease, e.toRelease)]
  {
  }

  /** What one operation does to the row and the history of one device. */
  lemma AfterStep(db: HistoryEngine, s: Store, op: Operation, serial: string)
    requires Conforms(db, Columns) && Named(op)
    ensures var t := After(db, s, op, OK);
            var p, q := Pairs(Of(s.history, serial)), Pairs(Of(t.history, serial));
            if op.serial != serial || op.Disconnected? then
              q == p && (serial in t.devices <==> serial in s.devices) &&
              (serial in s.devices ==> t.devices[serial].revision == s.devices[serial].revision)
            else if op.Deleted? then q == [] && serial !in t.devices
            else
              serial in t.devices && t.devices[serial].revision == op.revision &&
              q == p + (if serial in s.devices && s.devices[serial].revision != op.revision
                        then [(s.devices[serial].revision, op.revision)] else [])
  {
    hide Of, Without, Pairs, Conforms, HistoryClause;
    match op
    case Deleted(d) =>
      OfWithout(db, s.history, d, serial);
      assert Pairs([]) == [];
    case Disconnected(_, _) =>
    case Connected(_, _, _, _, _, _) =>
      if op.serial in s.devices {
        var e := Upgrade(op.serial, s.devices[op.serial].revision, op.revision, op.revisionId, op.now);
        OfStep(s.history, e, serial);
        PairsStep(Of(s.history, serial), e);
      }
  }

  /** Over every run, a device's history is exactly the list of the revision changes it reported
      since it was last deleted, and its row holds the last one. */
  lemma {:induction false} HistoryIsReportedChanges(db: HistoryEngine, ops: seq<Operation>, serial: string)
    requires Conforms(db, Columns) && AllNamed(ops)
    ensures Pairs(Of(Run(db, ops).history, serial)) == Changes(Reported(ops, serial))
    ensures serial in Run(db, ops).devices <==> Reported(ops, serial) != []
    ensures serial in Run(db, ops).devices ==>
              Run(db, ops).devices[serial].revision == Reported(ops, serial)[|Reported(ops, serial)| - 1]
  {
    if ops != [] {
      var front, op := ops[..|ops| - 1], ops[|ops| - 1];
      hide Run, Reported, Changes, After, Of, Pairs, Conforms;
      HistoryIsReportedChanges(db, front, serial);
      HistoryStep(db, Run(db, front), op, serial, Reported(front, serial));
      ReportedStep(ops, serial);
      RunStep(db, ops);
    } else {
      NoChanges();
    }
  }

  /** History and row of a device are those of the revisions it has reported. */
  predicate Follows(s: Store, serial: string, reported: seq<string>)
  {
    Pairs(Of(s.history, serial)) == Changes(reported) &&
    (serial in s.devices <==> reported != []) &&
    (serial in s.devices ==> s.devices[serial].revision == reported[|reported| - 1])
  }

  lemma HistoryStep(db: HistoryEngine, s: Store, op: Operation, serial: string, r: seq<string>)
    requires Conforms(db, Columns) && Named(op) && Follows(s, serial, r)
    ensures Follows(After(db, s, op, OK), serial,
                    if op.serial != serial || op.Disconnected? then r else if op.Deleted? then []
                        else r + [op.revision])
  {
    hide Changes, After, Of, Pairs, Conforms, Named;
    AfterStep(db, s, op, serial);
    NoChanges();
    if op.serial == serial && op.Connected? {
      ChangesStep(r, op.revision);
    }
  }

  lemma RunStep(db: HistoryEngine, ops: seq<Operation>)
    requires ops != []
    ensures Run(db, ops) == After(db, Run(db, ops[..|ops| - 1]), ops[|ops| - 1], OK)
  {
  }

  lemma NoChanges()
    ensures Changes([]) == []
  {
  }

  // ----- linked chains -----

  ghost predicate Linked(p: seq<(string, string)>)
  {
    (forall i :: 0 <= i < |p| ==> p[i].0 != p[i].1) &&
    forall i :: 0 < i < |p| ==> p[i].0 == p[i - 1].1
  }

  lemma FewChanges(revisions: seq<string>)
    ensures |revisions| < 2 ==> Changes(revisions) == []
  {
  }

  lemma {:induction false} ChangesAreLinked(revisions: seq<string>)
    ensures Linked(Changes(revisions))
    ensures Changes(revisions) != [] ==>
              Changes(revisions)[|Changes(revisions)| - 1].1 == revisions[|revisions| - 1] &&
              Changes(revisions)[0].0 == revisions[0]
    ensures |revisions| > 0 && Changes(revisions) == [] ==> forall i :: 0 <= i < |revisions| ==>
            revisions[i] == revisions[0]
  {
    hide Changes;
    FewChanges(revisions);
    if |revisions| >= 2 {
      var front, x := revisions[..|revisions| - 1], revisions[|revisions| - 1];
      var y := front[|front| - 1];
      ChangesAreLinked(front);
      assert revisions == front + [x];
      ChangesStep(front, x);
      FewChanges(front);
      if x != y {
        LinkedStep(Changes(front), (y, x));
      }
    }
  }

  /** A device's history is a linked chain that ends at the revision in its row. */
  ghost predicate Chained(s: Store, serial: string)
  {
    var h := Of(s.history, serial);
    Linked(Pairs(h)) &&
    (h != [] ==> serial in s.devices && h[|h| - 1].toRelease == s.devices[serial].revision)
  }

  /** Every run in which storage does not fail leaves every history a chain. */
  lemma HistoryIsChained(db: HistoryEngine, ops: seq<Operation>, serial: string)
    requires Conforms(db, Columns) && AllNamed(ops)
    ensures Chained(Run(db, ops), serial)
  {
    HistoryIsReportedChanges(db, ops, serial);
    ChangesAreLinked(Reported(ops, serial));
    var h := Of(Run(db, ops).history, serial);
    assert |Pairs(h)| == |h|;
    if h != [] {
      assert Pairs(h)[|h| - 1].1 == h[|h| - 1].toRelease;
    }
  }

  // ----- storage failures -----

  /** The results of the storage calls with which one operation keeps a chain: a revision change must
      be logged and written both or not at all, unless there is no history to contradict; a device
      must not be deleted while its history stays. */
  predicate Consistent(s: Store, op: Operation, io: Io)
  {
    match op
    case Connected(serial, revision, _, _, _, _) =>
      !(io.read && serial in s.devices) || s.devices[serial].revision == revision || io.log == io.write ||
      (io.write && Of(s.history, serial) == [])
    case Disconnected(_, _) => true
    case Deleted(serial) => io.log || !io.write || Of(s.history, serial) == []
  }

  lemma LinkedStep(p: seq<(string, string)>, x: (string, string))
    requires Linked(p) && x.0 != x.1 && (p != [] ==> p[|p| - 1].1 == x.0)
    ensures Linked(p + [x])
  {
  }

  lemma ConnectedKeepsChain(db: HistoryEngine, s: Store, op: Operation, io: Io)
    requires op.Connected? && Chained(s, op.serial)
    ensures Chained(After(db, s, op, io), op.serial) <==> Consistent(s, op, io)
  {
    hide Of, Pairs, Linked;
    if io.read && op.serial in s.devices && s.devices[op.serial].revision != op.revision && io.log {
      var e := Upgrade(op.serial, s.devices[op.serial].revision, op.revision, op.revisionId, op.now);
      var h := Of(s.history, op.serial);
      OfStep(s.history, e, op.serial);
      PairsStep(h, e);
      PairsEnd(h);
      LinkedStep(Pairs(h), (e.fromRelease, e.toRelease));
    }
  }

  lemma PairsEnd(h: seq<Upgrade>)
    ensures h != [] ==> Pairs(h)[|h| - 1].1 == h[|h| - 1].toRelease
  {
  }

  lemma OtherDevice(db: HistoryEngine, s: Store, op: Operation, io: Io, serial: string)
    requires Conforms(db, Columns) && Named(op)
    requires op.serial != serial
    ensures Of(After(db, s, op, io).history, serial) == Of(s.history, serial)
    ensures serial in After(db, s, op, io).devices <==> serial in s.devices
    ensures serial in s.devices ==> After(db, s, op, io).devices[serial] == s.devices[serial]
  {
    match op
    case Deleted(d) =>
      OfWithout(db, s.history, d, serial);
    case Disconnected(_, _) =>
    case Connected(_, _, _, _, _, _) =>
      if op.serial in s.devices {
        OfStep(s.history, Upgrade(op.serial, s.devices[op.serial].revision, op.revision, op.revisionId, op.now),
               serial);
      }
  }

  /** Whatever storage calls fail, an operation keeps the chain of its own device exactly when the
      results are consistent, and the chain of every other device always. */
  lemma OperationKeepsChains(db: HistoryEngine, s: Store, op: Operation, io: Io, serial: string)
    requires Conforms(db, Columns) && Named(op)
    requires Chained(s, serial)
    ensures Chained(After(db, s, op, io), serial) <==> op.serial != serial || Consistent(s, op, io)
  {
    hide Of, Pairs, Linked, AfterConnected, AfterDeleted;
    if op.serial != serial {
      OtherDevice(db, s, op, io, serial);
    } else if op.Connected? {
      ConnectedKeepsChain(db, s, op, io);
    } else if op.Deleted? {
      DeletedKeepsChain(db, s, op, io);
    }
  }

  lemma DeletedKeepsChain(db: HistoryEngine, s: Store, op: Operation, io: Io)
    requires Conforms(db, Columns) && Named(op)
    requires op.Deleted? && Chained(s, op.serial)
    ensures Chained(After(db, s, op, io), op.serial) <==> Consistent(s, op, io)
  {
    assert Linked(Pairs([]));
    hide Of, Pairs, Linked, Without;
    OfWithout(db, s.history, op.serial, op.serial);
  }
}
