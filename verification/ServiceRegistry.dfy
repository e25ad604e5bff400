/** The registry of other services that a service keeps from the messages on its bus. */
module ServiceRegistry {
  import opened Characters
  import opened Widths
  import opened Options

  const ZOMBIE_AGE: nat := 120

  datatype Meta = Meta(id: nat, typ: string, privateEndPoint: string, publicEndPoint: string,
                       accessKey: string, version: string, lastUpdate: nat)

  /** A payload: one the JSON parser rejects, or an object with the fields it carries. */
  datatype Message =
    | Unparsable
    | Object(id: Option<nat>, event: Option<string>, typ: Option<string>, publicEndPoint: Option<string>,
             privateEndPoint: Option<string>, version: Option<string>, key: Option<string>)

  /** A message with the two clock readings taken while it is handled. */
  datatype Arrival = Arrival(msg: Message, stamp: nat, sweep: nat)

  type Services = map<string, Meta>

  /** A join, keep-alive or leave event of another service with every field present. */
  predicate Complete(own: nat, msg: Message)
  {
    msg.Object? && msg.id.Some? && msg.event.Some? && msg.id.value != own &&
    (msg.event.value == "join" || msg.event.value == "keep-alive" || msg.event.value == "leave") &&
    msg.typ.Some? && msg.publicEndPoint.Some? && msg.privateEndPoint.Some? && msg.version.Some? && msg.key.Some?
  }

  function MetaOf(own: nat, a: Arrival): Meta
    requires Complete(own, a.msg)
  {
    var m := a.msg;
    Meta(m.id.value, Lower(m.typ.value), m.privateEndPoint.value, m.publicEndPoint.value, m.key.value, m.version.value,
         a.stamp)
  }

  /** Unsigned subtraction in 64 bits. */
  function Elapsed(now: nat, since: nat): nat
  {
    (now - since) % U64
  }

  predicate Alive(m: Meta, now: nat)
  {
    Elapsed(now, m.lastUpdate) <= ZOMBIE_AGE
  }

  function Registered(own: nat, services: Services, a: Arrival): Services
  {
    if !Complete(own, a.msg) then services
    else if a.msg.event.value == "leave" then services - {a.msg.privateEndPoint.value}
    else services[a.msg.privateEndPoint.value := MetaOf(own, a)]
  }

  function Swept(services: Services, now: nat): Services
  {
    map p | p in services && Alive(services[p], now) :: services[p]
  }

  function Step(own: nat, services: Services, a: Arrival): Services
  {
    if a.msg.Unparsable? then services else Swept(Registered(own, services, a), a.sweep)
  }

  class MicroService {
    const ID: nat
    var Services_: Services

    constructor (id: nat)
      ensures ID == id && Services_ == map[]
    {
      ID, Services_ := id, map[];
    }

    method BusMessageReceived(msg: Message, stamp: nat, sweep: nat)
      modifies this
      ensures Services_ == Step(ID, old(Services_), Arrival(msg, stamp, sweep))
    {
      if msg.Unparsable? {
        return;
      }
      hide Lower;
      if msg.id.Some? && msg.event.Some? {
        if msg.id.value != ID {
          var event := msg.event.value;
          if event == "join" || event == "keep-alive" || event == "leave" {
            if msg.typ.Some? && msg.publicEndPoint.Some? && msg.privateEndPoint.Some? && msg.version.Some? &&
                msg.key.Some? {
              var endPoint := msg.privateEndPoint.value;
              if event == "leave" {
                Services_ := Services_ - {endPoint};
              } else {
                Services_ := Services_[endPoint := Meta(msg.id.value, Lower(msg.typ.value), endPoint,
                                                        msg.publicEndPoint.value, msg.key.value, msg.version.value,
                                                        stamp)];
              }
            }
          }
        }
      }
      RemoveZombies(sweep);
    }

    method RemoveZombies(now: nat)
      modifies this
      ensures Services_ == Swept(old(Services_), now)
    {
      hide Alive;
      ghost var before := Services_;
      var pending := Services_.Keys;
      while pending != {}
        invariant pending <= before.Keys
        invariant forall p :: p in Services_ <==> p in before && (p in pending || Alive(before[p], now))
        invariant forall p :: p in Services_ ==> Services_[p] == before[p]
        decreases |pending|
      {
        var p :| p in pending;
        if !Alive(Services_[p], now) {
          Services_ := Services_ - {p};
        }
        pending := pending - {p};
      }
    }

    /** The records of one type: each as often as it is filed. */
    method GetServices(typ: string) returns (res: seq<Meta>)
      ensures forall m :: multiset(res)[m] == |set p | p in Services_ && Services_[p] == m && m.typ == Lower(typ)|
    {
      var T := Lower(typ);
      res := [];
      var pending := Services_.Keys;
      while pending != {}
        invariant pending <= Services_.Keys
        invariant forall m :: multiset(res)[m] == |FiledAs(Services_, Services_.Keys - pending, T, m)|
        decreases |pending|
      {
        var p :| p in pending;
        forall m ensures |FiledAs(Services_, Services_.Keys - (pending - {p}), T, m)| ==
                         |FiledAs(Services_, Services_.Keys - pending, T, m)| +
                         if Services_[p] == m && m.typ == T then 1 else 0
        {
          FiledStep(Services_, pending, p, T, m);
        }
        pending := pending - {p};
        if Services_[p].typ == T {
          res := res + [Services_[p]];
        }
      }
      assert Services_.Keys - pending == Services_.Keys;
      forall m ensures FiledAs(Services_, Services_.Keys, T, m) ==
                       set p | p in Services_ && Services_[p] == m && m.typ == Lower(typ)
      {
      }
    }
  }

  /** Those of the end points under which a record of that type is filed. */
  function FiledAs(services: Services, among: set<string>, typ: string, m: Meta): set<string>
  {
    set p | p in among && p in services && services[p] == m && m.typ == typ
  }

  lemma FiledStep(services: Services, pending: set<string>, p: string, typ: string, m: Meta)
    requires p in pending && pending <= services.Keys
    ensures |FiledAs(services, services.Keys - (pending - {p}), typ, m)| ==
            |FiledAs(services, services.Keys - pending, typ, m)| + if services[p] == m && m.typ == typ then 1 else 0
  {
    var before := FiledAs(services, services.Keys - pending, typ, m);
    var after := FiledAs(services, services.Keys - (pending - {p}), typ, m);
    assert p !in before;
    if services[p] == m && m.typ == typ {
      assert after == before + {p};
    } else {
      assert after == before;
    }
  }

  // ----- the registry as a function of the trace -----

  function Run(own: nat, trace: seq<Arrival>): Services
  {
    if trace == [] then map[] else Step(own, Run(own, trace[..|trace| - 1]), trace[|trace| - 1])
  }

  /** The clock never goes back and stays within 64 bits. */
  ghost predicate Clocked(trace: seq<Arrival>)
  {
    (forall i :: 0 <= i < |trace| ==> trace[i].stamp <= trace[i].sweep < U64) &&
    forall i, j :: 0 <= i < j < |trace| ==> trace[i].sweep <= trace[j].stamp
  }

  predicate About(own: nat, a: Arrival, p: string)
  {
    Complete(own, a.msg) && a.msg.privateEndPoint.value == p
  }

  /** The last complete event of the trace about an end point. */
  function LastEvent(own: nat, trace: seq<Arrival>, p: string): (r: Option<nat>)
    ensures r.Some? ==>
              r.value < |trace| && About(own, trace[r.value], p) &&
              forall i :: r.value < i < |trace| ==> !About(own, trace[i], p)
    ensures r.None? ==> forall i :: 0 <= i < |trace| ==> !About(own, trace[i], p)
  {
    if trace == [] then None
    else if About(own, trace[|trace| - 1], p) then Some(|trace| - 1)
    else LastEvent(own, trace[..|trace| - 1], p)
  }

  /** When zombies were last removed: at the last message that could be parsed. */
  function LastSweep(trace: seq<Arrival>): (now: nat)
    ensures now == 0 || exists i :: 0 <= i < |trace| && now == trace[i].sweep
    ensures (exists i :: 0 <= i < |trace| && trace[i].msg.Object?) ==>
              exists i :: 0 <= i < |trace| && trace[i].msg.Object? && now == trace[i].sweep &&
                          forall j :: i < j < |trace| ==> trace[j].msg.Unparsable?
  {
    if trace == [] then 0
    else if trace[|trace| - 1].msg.Object? then trace[|trace| - 1].sweep
    else LastSweep(trace[..|trace| - 1])
  }

  /** What the registry holds for an end point, read off the trace. */
  function Expected(own: nat, trace: seq<Arrival>, p: string): Option<Meta>
  {
    match LastEvent(own, trace, p)
    case None => None
    case Some(i) =>
      if trace[i].msg.event.value != "leave" && LastSweep(trace) <= trace[i].stamp + ZOMBIE_AGE
      then Some(MetaOf(own, trace[i])) else None
  }

  lemma ElapsedIsDifference(now: nat, since: nat)
    requires since <= now < U64
    ensures Elapsed(now, since) == now - since
  {
  }

  lemma ClockedPrefix(trace: seq<Arrival>)
    requires Clocked(trace) && trace != []
    ensures Clocked(trace[..|trace| - 1])
  {
  }

  /** The sweep at the last event or later has seen it. */
  lemma SweptSince(own: nat, trace: seq<Arrival>, p: string)
    requires Clocked(trace) && LastEvent(own, trace, p).Some?
    ensures trace[LastEvent(own, trace, p).value].stamp <= LastSweep(trace) < U64
  {
    var k := LastEvent(own, trace, p).value;
    assert trace[k].msg.Object?;
    var i :| 0 <= i < |trace| && trace[i].msg.Object? && LastSweep(trace) == trace[i].sweep &&
             forall j :: i < j < |trace| ==> trace[j].msg.Unparsable?;
    assert k <= i;
  }

  lemma SweptBefore(trace: seq<Arrival>)
    requires Clocked(trace) && trace != []
    ensures LastSweep(trace[..|trace| - 1]) <= trace[|trace| - 1].stamp
  {
    var front := trace[..|trace| - 1];
    if LastSweep(front) != 0 {
      var i :| 0 <= i < |front| && LastSweep(front) == front[i].sweep;
      assert trace[i] == front[i];
    }
  }

  lemma StepAt(own: nat, services: Services, a: Arrival, p: string)
    requires a.stamp <= a.sweep < U64
    ensures a.msg.Unparsable? ==> Lookup(Step(own, services, a), p) == Lookup(services, p)
    ensures About(own, a, p) ==>
              Lookup(Step(own, services, a), p) ==
              if a.msg.event.value != "leave" && a.sweep <= a.stamp + ZOMBIE_AGE then Some(MetaOf(own, a)) else None
    ensures a.msg.Object? && !About(own, a, p) ==>
              Lookup(Step(own, services, a), p) ==
              if p in services && Alive(services[p], a.sweep) then Some(services[p]) else None
  {
    ElapsedIsDifference(a.sweep, a.stamp);
  }

  /** For any messages under a clock that never goes back: an end point is present exactly when its
      last complete event was a join or keep-alive no more than 120 seconds before the last message
      that could be parsed, and it carries the data of that event. */
  lemma {:induction false} RegistryIsFunctionOfTrace(own: nat, trace: seq<Arrival>, p: string)
    requires Clocked(trace)
    ensures Lookup(Run(own, trace), p) == Expected(own, trace, p)
  {
    if trace != [] {
      var front, a := trace[..|trace| - 1], trace[|trace| - 1];
      ClockedPrefix(trace);
      RegistryIsFunctionOfTrace(own, front, p);
      StepAt(own, Run(own, front), a, p);
      if a.msg.Object? && !About(own, a, p) && LastEvent(own, front, p).Some? {
        SweptSince(own, front, p);
        SweptBefore(trace);
        ElapsedIsDifference(a.sweep, front[LastEvent(own, front, p).value].stamp);
      }
      hide Step, Clocked;
    }
  }

  /** Every record is filed under its own private end point and belongs to another service. */
  lemma {:induction false} RecordsAreFiledUnderThemselves(own: nat, trace: seq<Arrival>, p: string)
    requires Clocked(trace) && p in Run(own, trace)
    ensures Run(own, trace)[p].privateEndPoint == p && Run(own, trace)[p].id != own
  {
    RegistryIsFunctionOfTrace(own, trace, p);
  }

  /** A record has each of its fields from the field of that name of a message, and its time from the clock. */
  ghost predicate IsRecordOf(r: Meta, a: Arrival)
  {
    a.msg.Object? && a.msg.id == Some(r.id) && a.msg.privateEndPoint == Some(r.privateEndPoint) &&
    a.msg.publicEndPoint == Some(r.publicEndPoint) && a.msg.key == Some(r.accessKey) &&
    a.msg.version == Some(r.version) && a.msg.typ.Some? && Lower(a.msg.typ.value) == r.typ && a.stamp == r.lastUpdate
  }

  /** Every record is what a join or keep-alive of another service said, field by field, and no sweep since
      was more than 120 seconds later. */
  lemma RecordIsOfItsMessage(own: nat, trace: seq<Arrival>, p: string)
    requires Clocked(trace) && p in Run(own, trace)
    ensures var r := Run(own, trace)[p];
            r.privateEndPoint == p && r.id != own &&
            exists i :: 0 <= i < |trace| && IsRecordOf(r, trace[i]) &&
                        (trace[i].msg.event == Some("join") || trace[i].msg.event == Some("keep-alive")) &&
                        forall j :: i <= j < |trace| && trace[j].msg.Object? ==> trace[j].sweep <= r.lastUpdate + 120
  {
    RegistryIsFunctionOfTrace(own, trace, p);
    var i, r := LastEvent(own, trace, p).value, Run(own, trace)[p];
    assert IsRecordOf(r, trace[i]);
    LastSweepIsGreatest(trace);
    hide Run, LastSweep, LastEvent;
  }

  lemma LastSweepIsGreatest(trace: seq<Arrival>)
    requires Clocked(trace)
    ensures forall j :: 0 <= j < |trace| && trace[j].msg.Object? ==> trace[j].sweep <= LastSweep(trace)
  {
    hide LastSweep, Clocked;
    forall k | 0 <= k < |trace| && trace[k].msg.Object? ensures trace[k].sweep <= LastSweep(trace) {
      var i :| 0 <= i < |trace| && trace[i].msg.Object? && LastSweep(trace) == trace[i].sweep &&
               forall j :: i < j < |trace| ==> trace[j].msg.Unparsable?;
      assert k <= i;
      LaterSweepIsNoEarlier(trace, k, i);
    }
  }

  lemma LaterSweepIsNoEarlier(trace: seq<Arrival>, k: nat, i: nat)
    requires Clocked(trace) && k <= i < |trace|
    ensures trace[k].sweep <= trace[i].sweep
  {
    assert k < i ==> trace[k].sweep <= trace[i].stamp;
  }

  /** A service that has joined or said that it is alive, with all seven fields, is registered as long as no
      complete event about its end point follows and every reading of the clock is within 120 seconds. */
  lemma AnnouncedIsRegistered(own: nat, trace: seq<Arrival>, i: nat)
    requires Clocked(trace) && i < |trace| && trace[i].msg.Object?
    requires trace[i].msg.event == Some("join") || trace[i].msg.event == Some("keep-alive")
    requires trace[i].msg.id.Some? && trace[i].msg.id.value != own && trace[i].msg.typ.Some?
    requires trace[i].msg.publicEndPoint.Some? && trace[i].msg.privateEndPoint.Some?
    requires trace[i].msg.version.Some? && trace[i].msg.key.Some?
    requires forall j :: i < j < |trace| ==> !About(own, trace[j], trace[i].msg.privateEndPoint.value)
    requires forall j :: i <= j < |trace| ==> trace[j].sweep <= trace[i].stamp + 120
    ensures var p := trace[i].msg.privateEndPoint.value;
            p in Run(own, trace) && IsRecordOf(Run(own, trace)[p], trace[i])
  {
    var p := trace[i].msg.privateEndPoint.value;
    RegistryIsFunctionOfTrace(own, trace, p);
    assert About(own, trace[i], p);
    assert LastEvent(own, trace, p) == Some(i);
    assert LastSweep(trace) <= trace[i].stamp + 120;
    hide Run, LastSweep, LastEvent;
  }

  /** A service that has left is not registered until it says so again. */
  lemma LeftIsGone(own: nat, trace: seq<Arrival>, i: nat, p: string)
    requires Clocked(trace) && i < |trace| && About(own, trace[i], p) && trace[i].msg.event == Some("leave")
    requires forall j :: i < j < |trace| ==> !About(own, trace[j], p)
    ensures p !in Run(own, trace)
  {
    RegistryIsFunctionOfTrace(own, trace, p);
    assert LastEvent(own, trace, p) == Some(i);
    hide Run, LastSweep, LastEvent;
  }

  /** A record that no message renews survives a sweep exactly when its stamp is within the last 120
      seconds; a clock set back makes every record a zombie at once. */
  lemma SurvivesExactly(own: nat, services: Services, a: Arrival, p: string)
    requires a.msg.Object? && p in services && !About(own, a, p)
    requires a.sweep < U64 && services[p].lastUpdate < U64 - 120
    ensures p in Step(own, services, a) <==> services[p].lastUpdate <= a.sweep <= services[p].lastUpdate + 120
  {
    var since := services[p].lastUpdate;
    assert a.sweep < since ==> Elapsed(a.sweep, since) == a.sweep - since + U64;
    assert a.sweep >= since ==> Elapsed(a.sweep, since) == a.sweep - since;
  }
}
