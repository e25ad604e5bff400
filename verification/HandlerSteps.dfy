/** The storage calls of the connection handler and of the command handler, which run on threads of their
    own: in which interleavings of the two an upgrade history stays a linked chain. */
module HandlerSteps {
  import opened Options
  import opened Clauses
  import opened DeviceStore

  /** The connection handler: at rest, or with the row it has read for a report. */
  datatype Connection = Idle | HasRead(op: Operation, row: Option<Device>, logged: bool)

  /** The command handler: at rest, or between the two parts of a deletion. */
  datatype Command = Resting | Forgot(serial: string)

  datatype World = World(store: Store, conn: Connection, cmd: Command)

  /** The storage calls, one by one. A call whose handler is not there yet does nothing. */
  datatype Call =
    | Read(op: Operation)      // the device row is looked up for a report
    | Log                      // a change of revision is entered in the history
    | Write                    // the row is updated or created
    | Forget(serial: string)   // the history of a device is deleted
    | Drop                     // its row is deleted

  const START: World := World(Store(map[], []), Idle, Resting)

  /** The report is of another revision than the row, and that is not in the history yet. */
  predicate CanLog(w: World, serial: string)
  {
    w.conn.HasRead? && w.conn.op.Connected? && w.conn.op.serial == serial && w.conn.row.Some? && !w.conn.logged &&
    w.conn.row.value.revision != w.conn.op.revision
  }

  function NewRow(op: Operation, row: Option<Device>): Option<Device>
  {
    match op
    case Connected(_, revision, deviceType, endPoint, now, _) =>
      Some(Device(revision, deviceType, endPoint, if row.Some? then row.value.lastUpdate else now, "connected"))
    case Disconnected(_, endPoint) =>
      if row.Some? then Some(row.value.(status := "not connected", endPoint := endPoint)) else None
    case Deleted(_) => None
  }

  /** An update acts on a row that is there, a creation on one that is not. */
  function Written(devices: map<string, Device>, op: Operation, row: Option<Device>): map<string, Device>
  {
    var d := NewRow(op, row);
    if d.Some? && (row.Some? <==> op.serial in devices) then devices[op.serial := d.value] else devices
  }

  function Entry(op: Operation, row: Device): Upgrade
    requires op.Connected?
  {
    Upgrade(op.serial, row.revision, op.revision, op.revisionId, op.now)
  }

  function WithEntry(w: World, e: Upgrade): World
    requires w.conn.HasRead?
  {
    w.(store := w.store.(history := w.store.history + [e]), conn := w.conn.(logged := true))
  }

  function Next(db: HistoryEngine, w: World, c: Call): World
  {
    match c
    case Read(op) =>
      if w.conn.Idle? && !op.Deleted? then w.(conn := HasRead(op, Lookup(w.store.devices, op.serial), false)) else w
    case Log =>
      if w.conn.HasRead? && CanLog(w, w.conn.op.serial) then
        WithEntry(w, Entry(w.conn.op, w.conn.row.value))
      else w
    case Write =>
      if w.conn.HasRead? && !CanLog(w, w.conn.op.serial) then
        w.(store := w.store.(devices := Written(w.store.devices, w.conn.op, w.conn.row)), conn := Idle)
      else w
    case Forget(serial) =>
      if w.cmd.Resting? then
        w.(store := w.store.(history := Without(w.store.history, db(HistoryClause(serial)))), cmd := Forgot(serial))
      else w
    case Drop =>
      if w.cmd.Forgot? then w.(store := w.store.(devices := w.store.devices - {w.cmd.serial}), cmd := Resting) else w
  }

  function Reached(db: HistoryEngine, calls: seq<Call>): World
  {
    if calls == [] then START else Next(db, Reached(db, calls[..|calls| - 1]), calls[|calls| - 1])
  }

  function Continued(db: HistoryEngine, w: World, calls: seq<Call>): World
    decreases |calls|
  {
    if calls == [] then w else Continued(db, Next(db, w, calls[0]), calls[1..])
  }

  /** Alone, the calls of an operation do what the operation does. */
  lemma CallsMakeOperations(db: HistoryEngine, w: World, op: Operation)
    requires w.conn.Idle? && w.cmd.Resting?
    ensures !op.Deleted? ==>
              Continued(db, w, [Read(op), Log, Write]) == w.(store := DeviceStore.After(db, w.store, op, OK))
    ensures op.Deleted? ==>
              Continued(db, w, [Forget(op.serial), Drop]) == w.(store := DeviceStore.After(db, w.store, op, OK))
  {
    if op.Deleted? {
      TwoCalls(db, w, Forget(op.serial), Drop);
    } else {
      ThreeCalls(db, w, Read(op), Log, Write);
    }
    hide Continued, Without;
  }

  lemma TwoCalls(db: HistoryEngine, w: World, a: Call, b: Call)
    ensures Continued(db, w, [a, b]) == Next(db, Next(db, w, a), b)
  {
    hide Next;
    var x := Next(db, w, a);
    assert [a, b][0] == a && [a, b][1..] == [b] && [b][0] == b && [b][1..] == [];
    assert Continued(db, w, [a, b]) == Continued(db, x, [b]) == Continued(db, Next(db, x, b), []);
  }

  lemma ThreeCalls(db: HistoryEngine, w: World, a: Call, b: Call, c: Call)
    ensures Continued(db, w, [a, b, c]) == Next(db, Next(db, Next(db, w, a), b), c)
  {
    hide Next;
    assert [a, b, c][0] == a && [a, b, c][1..] == [b, c];
    TwoCalls(db, Next(db, w, a), b, c);
  }

  // ----- entries that come too late -----

  /** The entry of a change comes after a deletion has deleted the history, and the row the change was
      read from is gone or about to go. */
  predicate Late(w: World, c: Call, serial: string)
  {
    c.Log? && CanLog(w, serial) && (w.cmd == Forgot(serial) || serial !in w.store.devices)
  }

  predicate NamedCall(c: Call) { c.Forget? ==> Plain(c.serial) }

  /** What holds for one device all the time, as long as no entry of its own is late. */
  ghost predicate Inv(w: World, serial: string)
  {
    var h := Of(w.store.history, serial);
    Linked(Pairs(h)) &&
    (w.cmd == Forgot(serial) ==> h == []) &&
    (h != [] ==> serial in w.store.devices && h[|h| - 1].toRelease == CurrentRevision(w, serial)) &&
    (w.conn.HasRead? && w.conn.op.serial == serial ==> !w.conn.op.Deleted?) &&
    (w.conn.HasRead? && w.conn.op.serial == serial && serial in w.store.devices ==>
       w.conn.row.Some? && w.store.devices[serial].revision == w.conn.row.value.revision)
  }

  /** The revision of the row, or the one that is about to be written to it. */
  function CurrentRevision(w: World, serial: string): string
    requires serial in w.store.devices
  {
    if w.conn.HasRead? && w.conn.op.serial == serial && w.conn.logged && w.conn.op.Connected? then w.conn.op.revision
    else w.store.devices[serial].revision
  }

  lemma OwnEntryKeeps(w: World, serial: string)
    requires Inv(w, serial) && CanLog(w, serial) && !Late(w, Log, serial)
    ensures Inv(WithEntry(w, Entry(w.conn.op, w.conn.row.value)), serial)
  {
    hide Of, Pairs, Linked;
    var h, e := Of(w.store.history, serial), Entry(w.conn.op, w.conn.row.value);
    OfStep(w.store.history, e, serial);
    PairsStep(h, e);
    PairsEnd(h);
    LinkedStep(Pairs(h), (e.fromRelease, e.toRelease));
  }

  lemma OtherEntryKeeps(w: World, e: Upgrade, serial: string)
    requires Inv(w, serial) && w.conn.HasRead? && w.conn.op.serial == e.serialNumber != serial
    ensures Inv(WithEntry(w, e), serial)
  {
    hide Of, Pairs, Linked;
    OfStep(w.store.history, e, serial);
  }

  lemma LogKeeps(db: HistoryEngine, w: World, serial: string)
    requires Inv(w, serial) && !Late(w, Log, serial)
    ensures Inv(Next(db, w, Log), serial)
  {
    hide Inv, Late;
    if w.conn.HasRead? && CanLog(w, w.conn.op.serial) {
      if w.conn.op.serial == serial {
        OwnEntryKeeps(w, serial);
      } else {
        OtherEntryKeeps(w, Entry(w.conn.op, w.conn.row.value), serial);
      }
    }
  }

  lemma WriteKeeps(db: HistoryEngine, w: World, serial: string)
    requires Inv(w, serial)
    ensures Inv(Next(db, w, Write), serial)
  {
    hide Of, Pairs, Linked;
  }

  lemma ForgetKeeps(db: HistoryEngine, w: World, deleted: string, serial: string)
    requires Conforms(db, Columns) && Plain(deleted) && Inv(w, serial)
    ensures Inv(Next(db, w, Forget(deleted)), serial)
  {
    hide Inv, Of, Conforms, Without, HistoryClause;
    OfWithout(db, w.store.history, deleted, serial);
    if w.cmd.Resting? {
      ForgottenKeeps(w, Without(w.store.history, db(HistoryClause(deleted))), deleted, serial);
    }
  }

  lemma ForgottenKeeps(w: World, history: seq<Upgrade>, deleted: string, serial: string)
    requires Inv(w, serial) && w.cmd.Resting?
    requires Of(history, serial) == if serial == deleted then [] else Of(w.store.history, serial)
    ensures Inv(w.(store := w.store.(history := history), cmd := Forgot(deleted)), serial)
  {
    assert Linked(Pairs([]));
    hide Of, Pairs, Linked;
  }

  /** Every call keeps what holds for a device, but for a late entry of its own. */
  lemma CallKeeps(db: HistoryEngine, w: World, c: Call, serial: string)
    requires Conforms(db, Columns) && NamedCall(c) && Inv(w, serial) && !Late(w, c, serial)
    ensures Inv(Next(db, w, c), serial)
  {
    hide Of, Pairs, Linked, Conforms, Without;
    match c
    case Log => LogKeeps(db, w, serial);
    case Write => WriteKeeps(db, w, serial);
    case Forget(deleted) => ForgetKeeps(db, w, deleted, serial);
    case Read(_) =>
    case Drop =>
  }

  ghost predicate NeverLate(db: HistoryEngine, calls: seq<Call>, serial: string)
  {
    forall i :: 0 <= i < |calls| ==> !Late(Reached(db, calls[..i]), calls[i], serial)
  }

  ghost predicate NamedCalls(calls: seq<Call>)
  {
    forall i :: 0 <= i < |calls| ==> NamedCall(calls[i])
  }

  lemma {:induction false} RunKeeps(db: HistoryEngine, calls: seq<Call>, serial: string)
    requires Conforms(db, Columns) && NamedCalls(calls) && NeverLate(db, calls, serial)
    ensures Inv(Reached(db, calls), serial)
  {
    if calls == [] {
      assert Of([], serial) == [] && Linked(Pairs([]));
    } else {
      var front := calls[..|calls| - 1];
      hide Conforms, Inv, Late, Next;
      assert forall i :: 0 <= i <= |front| ==> front[..i] == calls[..i];
      RunKeeps(db, front, serial);
      CallKeeps(db, Reached(db, front), calls[|calls| - 1], serial);
    }
  }

  /** Whenever both handlers are at rest. */
  predicate AtRest(w: World) { w.conn.Idle? && w.cmd.Resting? }

  /** In every interleaving in which no entry for a device is late, its history is a linked chain up to
      the revision in its row whenever both handlers are at rest. */
  lemma TimelyRunsKeepChains(db: HistoryEngine, calls: seq<Call>, serial: string)
    requires Conforms(db, Columns) && NamedCalls(calls) && NeverLate(db, calls, serial) && AtRest(Reached(db, calls))
    ensures Chained(Reached(db, calls).store, serial)
  {
    hide Conforms, Of, Pairs, Linked, Reached;
    RunKeeps(db, calls, serial);
  }

  // ----- a late entry breaks the chain -----

  /** The call takes a device up again. */
  predicate TakesUp(c: Call, serial: string)
  {
    (c.Forget? && c.serial == serial) || (c.Read? && c.op.serial == serial)
  }

  /** A history without a row, for good until somebody takes the device up again. */
  ghost predicate Orphaned(w: World, serial: string)
  {
    Of(w.store.history, serial) != [] && (serial !in w.store.devices || w.cmd == Forgot(serial)) &&
    (w.conn.HasRead? && w.conn.op.serial == serial ==> w.conn.row.Some?)
  }

  lemma LateEntryOrphans(db: HistoryEngine, w: World, serial: string)
    requires Late(w, Log, serial)
    ensures Orphaned(Next(db, w, Log), serial) && !CanLog(Next(db, w, Log), serial)
  {
    OfStep(w.store.history, Entry(w.conn.op, w.conn.row.value), serial);
    hide Of;
  }

  lemma OrphansStay(db: HistoryEngine, w: World, c: Call, serial: string)
    requires Conforms(db, Columns) && NamedCall(c) && !TakesUp(c, serial) && Orphaned(w, serial)
    ensures Orphaned(Next(db, w, c), serial)
  {
    hide Of, Without, Conforms, HistoryClause;
    if c.Forget? {
      OfWithout(db, w.store.history, c.serial, serial);
    } else if c.Log? && w.conn.HasRead? && CanLog(w, w.conn.op.serial) {
      OfStep(w.store.history, Entry(w.conn.op, w.conn.row.value), serial);
    }
  }

  ghost predicate LeftAlone(calls: seq<Call>, serial: string)
  {
    forall i :: 0 <= i < |calls| ==> NamedCall(calls[i]) && !TakesUp(calls[i], serial)
  }

  lemma {:induction false} OrphansStayOrphans(db: HistoryEngine, w: World, calls: seq<Call>, serial: string)
    requires Conforms(db, Columns) && LeftAlone(calls, serial) && Orphaned(w, serial)
    ensures Orphaned(Continued(db, w, calls), serial)
    decreases |calls|
  {
    if calls != [] {
      hide Conforms, Orphaned, Next;
      OrphansStay(db, w, calls[0], serial);
      OrphansStayOrphans(db, Next(db, w, calls[0]), calls[1..], serial);
    }
  }

  /** A device that nobody takes up gets no further entry, so none that is late. */
  lemma {:induction false} LeftAloneKeeps(db: HistoryEngine, w: World, calls: seq<Call>, serial: string)
    requires Conforms(db, Columns) && LeftAlone(calls, serial) && Inv(w, serial) && !CanLog(w, serial)
    ensures Inv(Continued(db, w, calls), serial)
    decreases |calls|
  {
    if calls != [] {
      NoNewEntry(db, w, calls[0], serial);
      hide Conforms, Inv, Next, CanLog;
      CallKeeps(db, w, calls[0], serial);
      LeftAloneKeeps(db, Next(db, w, calls[0]), calls[1..], serial);
    }
  }

  lemma NoNewEntry(db: HistoryEngine, w: World, c: Call, serial: string)
    requires !CanLog(w, serial) && !TakesUp(c, serial)
    ensures !CanLog(Next(db, w, c), serial) && !Late(w, c, serial)
  {
    hide Without;
  }

  /** After a run in which no entry for a device was late, one more entry, and calls that leave the device
      alone until both handlers are at rest, its history is a linked chain exactly when that entry was
      not late. */
  lemma ChainIsKeptExactly(db: HistoryEngine, before: seq<Call>, after: seq<Call>, serial: string)
    requires Conforms(db, Columns) && NamedCalls(before) && NeverLate(db, before, serial) && LeftAlone(after, serial)
    requires CanLog(Reached(db, before), serial) && AtRest(Continued(db, Next(db, Reached(db, before), Log), after))
    ensures Chained(Continued(db, Next(db, Reached(db, before), Log), after).store, serial) <==>
            !Late(Reached(db, before), Log, serial)
  {
    var w := Reached(db, before);
    RunKeeps(db, before, serial);
    hide Conforms, Of, Pairs, Linked, Reached, Continued;
    if Late(w, Log, serial) {
      LateEntryOrphans(db, w, serial);
      OrphansStayOrphans(db, Next(db, w, Log), after, serial);
    } else {
      LogKeeps(db, w, serial);
      LeftAloneKeeps(db, Next(db, w, Log), after, serial);
    }
  }
}
