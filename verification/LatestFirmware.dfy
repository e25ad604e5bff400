/** The cache of the latest firmware of each device type, filled one firmware at a time. */
module LatestFirmware {
  import opened Characters
  import opened Options

  datatype Entry = Entry(id: string, timeStamp: nat, revision: string)

  /** The arguments of one call that adds a firmware. */
  datatype Call = Call(deviceType: string, revision: string, id: string, timeStamp: nat)

  datatype Cache = Cache(all: map<string, Entry>, rc: map<string, Entry>, revisions: set<string>, devices: set<string>)

  const EMPTY: Cache := Cache(map[], map[], {}, {})

  // ----- release candidates -----

  function TrimRight(s: string): (r: string)
    ensures |r| <= |s|
  {
    if s != [] && IsSpace(s[|s| - 1]) then TrimRight(s[..|s| - 1]) else s
  }

  /** The tokens between slashes, trimmed; an empty text has none. */
  function Tokens(s: string): seq<string>
    decreases |s|
  {
    if s == [] then [] else
    var k := FirstOf(s, '/');
    if k == |s| then [TrimRight(TrimLeft(s))]
    else [TrimRight(TrimLeft(s[..k]))] + (if k + 1 == |s| then [""] else Tokens(s[k + 1..]))
  }

  function Prefix(s: string, n: nat): string { if |s| <= n then s else s[..n] }

  predicate IsRC(revision: string)
  {
    var tokens := Tokens(revision);
    |tokens| == 2 && Prefix(tokens[1], 5) == "TIP-v"
  }

  predicate ReleaseShapeAt(revision: string, k: nat)
  {
    k < |revision| && revision[k] == '/' && '/' !in revision[..k] && '/' !in revision[k + 1..] &&
    "TIP-v" <= TrimLeft(revision[k + 1..])
  }

  /** Exactly one slash, and what follows it and any space starts with the release mark. */
  ghost predicate ReleaseShape(revision: string)
  {
    exists k: nat :: ReleaseShapeAt(revision, k)
  }

  lemma {:induction false} TrimRightKeepsMark(s: string)
    ensures "TIP-v" <= s <==> "TIP-v" <= TrimRight(s)
    decreases |s|
  {
    if s != [] && IsSpace(s[|s| - 1]) {
      var t := s[..|s| - 1];
      TrimRightKeepsMark(t);
      if "TIP-v" <= s {
        assert s[4] == 'v';
        assert |s| > 5;
        assert "TIP-v" <= t;
      }
      if "TIP-v" <= t {
        assert t <= s;
      }
    }
  }

  lemma {:induction false} FirstSlashIs(s: string, k: nat)
    requires k < |s| && s[k] == '/' && '/' !in s[..k]
    ensures FirstOf(s, '/') == k
  {
    if k > 0 {
      assert s[0] in s[..k];
      assert s[..k][1..] == s[1..][..k - 1];
      FirstSlashIs(s[1..], k - 1);
    }
  }

  lemma ShapeHasSlash(s: string, m: nat)
    requires ReleaseShapeAt(s, m)
    ensures m < |s| && s[m] == '/' && '/' !in s[..m]
  {
  }

  lemma ShapeAtSlash(s: string, k: nat)
    requires k <= |s| && '/' !in s[..k] && (k < |s| ==> s[k] == '/')
    ensures ReleaseShapeAt(s, k) <==> k < |s| && '/' !in s[k + 1..] && "TIP-v" <= TrimLeft(s[k + 1..])
  {
    hide TrimLeft;
  }

  lemma ShapeAtFirstSlash(s: string)
    ensures ReleaseShape(s) <==> ReleaseShapeAt(s, FirstOf(s, '/'))
  {
    hide FirstOf, ReleaseShapeAt;
    if ReleaseShape(s) {
      var m: nat :| ReleaseShapeAt(s, m);
      ShapeHasSlash(s, m);
      FirstSlashIs(s, m);
    }
  }

  lemma NoSlash(s: string)
    ensures FirstOf(s, '/') == |s| <==> '/' !in s
  {
    var k := FirstOf(s, '/');
    if k == |s| {
      assert s[..k] == s;
    }
  }

  lemma MarkIsPrefix(s: string)
    ensures Prefix(TrimRight(s), 5) == "TIP-v" <==> "TIP-v" <= s
  {
    TrimRightKeepsMark(s);
  }

  /** The tokenised test accepts exactly the revisions of that shape. */
  lemma IsRcExactly(revision: string)
    ensures IsRC(revision) <==> ReleaseShape(revision)
  {
    hide TrimLeft, TrimRight, ReleaseShape, ReleaseShapeAt;
    ShapeAtFirstSlash(revision);
    var k := FirstOf(revision, '/');
    ShapeAtSlash(revision, k);
    if k < |revision| {
      var rest := revision[k + 1..];
      NoSlash(rest);
      MarkIsPrefix(TrimLeft(rest));
      var first := TrimRight(TrimLeft(revision[..k]));
      if rest == [] {
        assert Tokens(revision) == [first, ""];
        TrimNothing();
      } else if FirstOf(rest, '/') == |rest| {
        assert Tokens(rest) == [TrimRight(TrimLeft(rest))];
        assert Tokens(revision) == [first] + Tokens(rest);
      } else {
        assert |Tokens(rest)| >= 2;
        assert Tokens(revision) == [first] + Tokens(rest);
      }
    }
  }

  lemma TrimNothing()
    ensures TrimLeft("") == ""
  {
  }

  // ----- the cache -----

  function EntryOf(c: Call): Entry { Entry(c.id, c.timeStamp, c.revision) }

  function Raised(m: map<string, Entry>, c: Call): map<string, Entry>
  {
    if c.deviceType !in m || c.timeStamp >= m[c.deviceType].timeStamp then m[c.deviceType := EntryOf(c)] else m
  }

  function Added(s: Cache, c: Call): Cache
  {
    Cache(Raised(s.all, c), if IsRC(c.revision) then Raised(s.rc, c) else s.rc,
          s.revisions + {c.revision}, s.devices + {c.deviceType})
  }

  class LatestFirmwareCache {
    var Cache_: map<string, Entry>
    var rcCache_: map<string, Entry>
    var RevisionSet_: set<string>
    var DeviceSet_: set<string>

    function State(): Cache
      reads this
    {
      Cache(Cache_, rcCache_, RevisionSet_, DeviceSet_)
    }

    constructor ()
      ensures State() == EMPTY
    {
      Cache_, rcCache_, RevisionSet_, DeviceSet_ := map[], map[], {}, {};
    }

    method AddToCache(deviceType: string, revision: string, id: string, timeStamp: nat) returns (latest: bool)
      modifies this
      ensures State() == Added(old(State()), Call(deviceType, revision, id, timeStamp))
      ensures latest
    {
      RevisionSet_ := RevisionSet_ + {revision};
      DeviceSet_ := DeviceSet_ + {deviceType};
      if deviceType !in Cache_ || timeStamp >= Cache_[deviceType].timeStamp {
        Cache_ := Cache_[deviceType := Entry(id, timeStamp, revision)];
      }
      if !IsRC(revision) {
        return true;
      }
      if deviceType !in rcCache_ || timeStamp >= rcCache_[deviceType].timeStamp {
        rcCache_ := rcCache_[deviceType := Entry(id, timeStamp, revision)];
      }
      return true;
    }

    method FindLatestFirmware(deviceType: string) returns (e: Option<Entry>)
      ensures e == Lookup(State().all, deviceType)
    {
      if deviceType in Cache_ {
        return Some(Cache_[deviceType]);
      }
      return None;
    }

    method FindLatestRCOnlyFirmware(deviceType: string) returns (e: Option<Entry>)
      ensures e == Lookup(State().rc, deviceType)
    {
      if deviceType in rcCache_ {
        return Some(rcCache_[deviceType]);
      }
      return None;
    }

    method IsLatest(deviceType: string, revision: string) returns (b: bool)
      ensures b <==> Lookup(State().all, deviceType).Some? && Lookup(State().all, deviceType).value.revision == revision
    {
      if deviceType in Cache_ {
        return Cache_[deviceType].revision == revision;
      }
      return false;
    }

    method IsLatestRCOnly(deviceType: string, revision: string) returns (b: bool)
      ensures b <==> Lookup(State().rc, deviceType).Some? && Lookup(State().rc, deviceType).value.revision == revision
    {
      if deviceType in rcCache_ {
        return rcCache_[deviceType].revision == revision;
      }
      return false;
    }
  }

  function Run(calls: seq<Call>): Cache
  {
    if calls == [] then EMPTY else Added(Run(calls[..|calls| - 1]), calls[|calls| - 1])
  }

  /** Call i is the last of those with the greatest time stamp among the calls for d that `wanted`
      selects. */
  ghost predicate IsLastGreatest(calls: seq<Call>, d: string, wanted: Call -> bool, i: nat)
  {
    i < |calls| && calls[i].deviceType == d && wanted(calls[i]) &&
    forall k :: 0 <= k < |calls| && calls[k].deviceType == d && wanted(calls[k]) ==>
      calls[k].timeStamp < calls[i].timeStamp || (calls[k].timeStamp == calls[i].timeStamp && k <= i)
  }

  ghost predicate Wanted(calls: seq<Call>, d: string, wanted: Call -> bool)
  {
    exists k :: 0 <= k < |calls| && calls[k].deviceType == d && wanted(calls[k])
  }

  /** The map holds the last greatest call for d, or nothing when there was no call for d. */
  ghost predicate Holds(m: map<string, Entry>, calls: seq<Call>, d: string, wanted: Call -> bool)
  {
    if d in m then exists i: nat :: IsLastGreatest(calls, d, wanted, i) && m[d] == EntryOf(calls[i])
    else !Wanted(calls, d, wanted)
  }

  lemma HeldIffWanted(m: map<string, Entry>, calls: seq<Call>, d: string, wanted: Call -> bool)
    requires Holds(m, calls, d, wanted)
    ensures d in m <==> Wanted(calls, d, wanted)
  {
  }

  lemma WantedStep(calls: seq<Call>, c: Call, d: string, wanted: Call -> bool)
    ensures Wanted(calls + [c], d, wanted) <==> Wanted(calls, d, wanted) || (c.deviceType == d && wanted(c))
  {
    var all := calls + [c];
    assert all[|calls|] == c && forall k :: 0 <= k < |calls| ==> all[k] == calls[k];
  }

  lemma RaisedHolds(m: map<string, Entry>, calls: seq<Call>, c: Call, d: string, wanted: Call -> bool)
    requires Holds(m, calls, d, wanted)
    ensures Holds(if wanted(c) then Raised(m, c) else m, calls + [c], d, wanted)
  {
    var all := calls + [c];
    assert all[|calls|] == c && forall k :: 0 <= k < |calls| ==> all[k] == calls[k];
    WantedStep(calls, c, d, wanted);
    if d in m {
      var i: nat :| IsLastGreatest(calls, d, wanted, i) && m[d] == EntryOf(calls[i]);
      if wanted(c) && c.deviceType == d && c.timeStamp >= calls[i].timeStamp {
        assert IsLastGreatest(all, d, wanted, |calls|);
      } else {
        assert IsLastGreatest(all, d, wanted, i);
      }
    } else if wanted(c) && c.deviceType == d {
      assert IsLastGreatest(all, d, wanted, |calls|);
    }
  }

  predicate Any(c: Call) { true }

  predicate CallIsRC(c: Call) { IsRC(c.revision) }

  /** After any calls the cache holds, for every device type, the last-arriving call among those of
      maximal time stamp, and the release cache holds the same over release revisions. */
  lemma {:induction false} CacheHoldsLatest(calls: seq<Call>, d: string)
    ensures Holds(Run(calls).all, calls, d, Any)
    ensures Holds(Run(calls).rc, calls, d, CallIsRC)
  {
    if calls != [] {
      var front, c := calls[..|calls| - 1], calls[|calls| - 1];
      assert calls == front + [c];
      CacheHoldsLatest(front, d);
      RaisedHolds(Run(front).all, front, c, d, Any);
      RaisedHolds(Run(front).rc, front, c, d, CallIsRC);
    }
  }

  ghost predicate SeenDevice(calls: seq<Call>, d: string)
  {
    exists k :: 0 <= k < |calls| && calls[k].deviceType == d
  }

  ghost predicate SeenRevision(calls: seq<Call>, r: string)
  {
    exists k :: 0 <= k < |calls| && calls[k].revision == r
  }

  lemma SeenStep(calls: seq<Call>, c: Call, x: string)
    ensures SeenDevice(calls + [c], x) <==> SeenDevice(calls, x) || x == c.deviceType
    ensures SeenRevision(calls + [c], x) <==> SeenRevision(calls, x) || x == c.revision
  {
    var all := calls + [c];
    assert all[|calls|] == c;
    assert forall k :: 0 <= k < |calls| ==> all[k] == calls[k];
  }

  lemma AddedKeepsOrder(s: Cache, c: Call)
    requires s.devices == s.all.Keys && forall d :: d in s.rc ==> d in s.all && s.rc[d].timeStamp <= s.all[d].timeStamp
    ensures var t := Added(s, c);
            t.devices == t.all.Keys && forall d :: d in t.rc ==> d in t.all && t.rc[d].timeStamp <= t.all[d].timeStamp
  {
  }

  /** The sets hold exactly the device types and revisions seen, and a release entry is never newer
      than the entry of the whole cache. */
  lemma {:induction false} SetsAndOrder(calls: seq<Call>)
    ensures Run(calls).devices == Run(calls).all.Keys
    ensures forall d :: d in Run(calls).devices <==> SeenDevice(calls, d)
    ensures forall r :: r in Run(calls).revisions <==> SeenRevision(calls, r)
    ensures forall d :: d in Run(calls).rc ==>
              d in Run(calls).all && Run(calls).rc[d].timeStamp <= Run(calls).all[d].timeStamp
  {
    if calls != [] {
      var front, c := calls[..|calls| - 1], calls[|calls| - 1];
      SetsAndOrder(front);
      assert calls == front + [c];
      AddedKeepsOrder(Run(front), c);
      hide IsRC, Raised, SeenDevice, SeenRevision;
      forall x: string ensures x in Run(calls).devices <==> SeenDevice(calls, x) {
        SeenStep(front, c, x);
      }
      forall x: string ensures x in Run(calls).revisions <==> SeenRevision(calls, x) {
        SeenStep(front, c, x);
      }
    }
  }

  // ----- arrival order -----

  ghost predicate SameCalls(a: seq<Call>, b: seq<Call>)
  {
    forall c :: c in a <==> c in b
  }

  /** No two different firmwares of a device type have the same time stamp. */
  ghost predicate DistinctStamps(calls: seq<Call>)
  {
    forall c, e :: c in calls && e in calls && c.deviceType == e.deviceType && c.timeStamp == e.timeStamp ==> c == e
  }

  /** A call of maximal time stamp among those for its device type that `wanted` selects. */
  ghost predicate IsTop(calls: seq<Call>, c: Call, wanted: Call -> bool)
  {
    c in calls && wanted(c) &&
    forall e :: e in calls && e.deviceType == c.deviceType && wanted(e) ==> e.timeStamp <= c.timeStamp
  }

  /** For each device type all calls of maximal time stamp make the same entry. */
  ghost predicate TopsAgree(calls: seq<Call>, wanted: Call -> bool)
  {
    forall c, e :: IsTop(calls, c, wanted) && IsTop(calls, e, wanted) && c.deviceType == e.deviceType ==>
        EntryOf(c) == EntryOf(e)
  }

  lemma DistinctStampsAgree(calls: seq<Call>, wanted: Call -> bool)
    requires DistinctStamps(calls)
    ensures TopsAgree(calls, wanted)
  {
  }

  lemma SameWanted(a: seq<Call>, b: seq<Call>, d: string, wanted: Call -> bool)
    requires SameCalls(a, b) && Wanted(a, d, wanted)
    ensures Wanted(b, d, wanted)
  {
    var k :| 0 <= k < |a| && a[k].deviceType == d && wanted(a[k]);
    assert a[k] in b;
  }

  lemma LastGreatestIsTop(calls: seq<Call>, d: string, wanted: Call -> bool, i: nat)
    requires IsLastGreatest(calls, d, wanted, i)
    ensures IsTop(calls, calls[i], wanted)
  {
    forall e | e in calls && e.deviceType == d && wanted(e) ensures e.timeStamp <= calls[i].timeStamp {
      var k :| 0 <= k < |calls| && calls[k] == e;
    }
  }

  lemma SameHeld(m: map<string, Entry>, n: map<string, Entry>, a: seq<Call>, b: seq<Call>, d: string,
                 wanted: Call -> bool)
    requires Holds(m, a, d, wanted) && Holds(n, b, d, wanted)
    requires SameCalls(a, b) && TopsAgree(a, wanted)
    ensures Lookup(m, d) == Lookup(n, d)
  {
    HeldIffWanted(m, a, d, wanted);
    HeldIffWanted(n, b, d, wanted);
    if Wanted(a, d, wanted) {
      SameWanted(a, b, d, wanted);
      var i: nat :| IsLastGreatest(a, d, wanted, i) && m[d] == EntryOf(a[i]);
      var j: nat :| IsLastGreatest(b, d, wanted, j) && n[d] == EntryOf(b[j]);
      assert a[i] in b && b[j] in a;
      LastGreatestIsTop(a, d, wanted, i);
      LastGreatestIsTop(b, d, wanted, j);
      assert IsTop(a, b[j], wanted);
    } else if Wanted(b, d, wanted) {
      SameWanted(b, a, d, wanted);
      assert false;
    }
  }

  /** When the newest calls agree, and with distinct time stamps they do, the caches depend neither on
      the order of the calls nor on how often a call is repeated. */
  lemma ArrivalOrderDoesNotMatter(a: seq<Call>, b: seq<Call>)
    requires SameCalls(a, b)
    requires DistinctStamps(a) || (TopsAgree(a, Any) && TopsAgree(a, CallIsRC))
    ensures Run(a) == Run(b)
  {
    if DistinctStamps(a) {
      DistinctStampsAgree(a, Any);
      DistinctStampsAgree(a, CallIsRC);
    }
    forall d: string
      ensures Lookup(Run(a).all, d) == Lookup(Run(b).all, d) && Lookup(Run(a).rc, d) == Lookup(Run(b).rc, d)
    {
      CacheHoldsLatest(a, d);
      CacheHoldsLatest(b, d);
      SameHeld(Run(a).all, Run(b).all, a, b, d, Any);
      SameHeld(Run(a).rc, Run(b).rc, a, b, d, CallIsRC);
    }
    SameMaps(Run(a).all, Run(b).all);
    SameMaps(Run(a).rc, Run(b).rc);
    SetsAndOrder(a);
    SetsAndOrder(b);
    forall r ensures r in Run(a).revisions <==> r in Run(b).revisions {
      SameRevisions(a, b, r);
      SameRevisions(b, a, r);
    }
  }

  lemma SameMaps(m: map<string, Entry>, n: map<string, Entry>)
    requires forall d: string :: Lookup(m, d) == Lookup(n, d)
    ensures m == n
  {
    forall d: string ensures d in m <==> d in n {
      assert Lookup(m, d) == Lookup(n, d);
    }
    forall d | d in m ensures m[d] == n[d] {
      assert Lookup(m, d) == Lookup(n, d);
    }
  }

  lemma SameRevisions(a: seq<Call>, b: seq<Call>, r: string)
    requires SameCalls(a, b)
    ensures SeenRevision(a, r) ==> SeenRevision(b, r)
  {
    if k :| 0 <= k < |a| && a[k].revision == r {
      assert a[k] in b;
    }
  }

  /** The same calls in another order. */
  ghost predicate Arrangement(a: seq<Call>, b: seq<Call>)
  {
    multiset(a) == multiset(b)
  }

  function MovedLast(calls: seq<Call>, i: nat): seq<Call>
    requires i < |calls|
  {
    calls[..i] + calls[i + 1..] + [calls[i]]
  }

  lemma MovedIsArrangement(calls: seq<Call>, i: nat)
    requires i < |calls|
    ensures Arrangement(calls, MovedLast(calls, i)) && SameCalls(calls, MovedLast(calls, i))
  {
    assert calls == calls[..i] + [calls[i]] + calls[i + 1..];
  }

  lemma ArrangementHasSameCalls(a: seq<Call>, b: seq<Call>)
    requires Arrangement(a, b)
    ensures SameCalls(a, b)
  {
    forall c ensures c in a <==> c in b {
      assert c in a <==> c in multiset(a);
      assert c in b <==> c in multiset(b);
    }
  }

  /** A map that holds the last greatest calls holds the entry of a newest call that comes last. */
  lemma LastTopIsHeld(m: map<string, Entry>, calls: seq<Call>, c: Call, wanted: Call -> bool)
    requires calls != [] && calls[|calls| - 1] == c && IsTop(calls, c, wanted) && Holds(m, calls, c.deviceType, wanted)
    ensures c.deviceType in m && m[c.deviceType] == EntryOf(c)
  {
    hide IsTop, Wanted;
    LastIsWanted(calls, c, wanted);
    HeldIffWanted(m, calls, c.deviceType, wanted);
    var i: nat :| IsLastGreatest(calls, c.deviceType, wanted, i) && m[c.deviceType] == EntryOf(calls[i]);
    LastTopIsGreatest(calls, c, wanted, i);
  }

  lemma LastIsWanted(calls: seq<Call>, c: Call, wanted: Call -> bool)
    requires calls != [] && calls[|calls| - 1] == c && IsTop(calls, c, wanted)
    ensures Wanted(calls, c.deviceType, wanted)
  {
  }

  lemma LastTopIsGreatest(calls: seq<Call>, c: Call, wanted: Call -> bool, i: nat)
    requires calls != [] && calls[|calls| - 1] == c && IsTop(calls, c, wanted)
    requires IsLastGreatest(calls, c.deviceType, wanted, i)
    ensures i == |calls| - 1
  {
    assert calls[i] in calls;
  }

  lemma TopMovedLast(calls: seq<Call>, c: Call, wanted: Call -> bool) returns (b: seq<Call>)
    requires IsTop(calls, c, wanted)
    ensures Arrangement(calls, b) && b != [] && b[|b| - 1] == c && IsTop(b, c, wanted)
  {
    var i :| 0 <= i < |calls| && calls[i] == c;
    MovedIsArrangement(calls, i);
    b := MovedLast(calls, i);
  }

  /** Two newest calls with different entries: each wins when it comes last. */
  lemma DisagreeingTopsDisagree(calls: seq<Call>) returns (x: seq<Call>, y: seq<Call>)
    requires !TopsAgree(calls, Any) || !TopsAgree(calls, CallIsRC)
    ensures Arrangement(calls, x) && Arrangement(calls, y) && Run(x) != Run(y)
  {
    var wanted := if !TopsAgree(calls, Any) then Any else CallIsRC;
    var c, e :| IsTop(calls, c, wanted) && IsTop(calls, e, wanted) && c.deviceType == e.deviceType &&
        EntryOf(c) != EntryOf(e);
    x := TopMovedLast(calls, c, wanted);
    y := TopMovedLast(calls, e, wanted);
    CacheHoldsLatest(x, c.deviceType);
    CacheHoldsLatest(y, c.deviceType);
    hide IsTop, Holds, Run;
    if !TopsAgree(calls, Any) {
      LastTopIsHeld(Run(x).all, x, c, Any);
      LastTopIsHeld(Run(y).all, y, e, Any);
    } else {
      LastTopIsHeld(Run(x).rc, x, c, CallIsRC);
      LastTopIsHeld(Run(y).rc, y, e, CallIsRC);
    }
  }

  /** The caches are the same for every order of the calls exactly when for each device type all calls
      of maximal time stamp make the same entry, and likewise over the release revisions. */
  lemma OrderMattersExactly(calls: seq<Call>)
    ensures (forall b: seq<Call> :: Arrangement(calls, b) ==> Run(b) == Run(calls)) <==>
            TopsAgree(calls, Any) && TopsAgree(calls, CallIsRC)
  {
    if TopsAgree(calls, Any) && TopsAgree(calls, CallIsRC) {
      forall b: seq<Call> | Arrangement(calls, b) ensures Run(b) == Run(calls) {
        ArrangementHasSameCalls(calls, b);
        ArrivalOrderDoesNotMatter(calls, b);
      }
    } else {
      var x, y := DisagreeingTopsDisagree(calls);
    }
  }
}
