/** The per-client rate limiter of the REST servers. */
module RateLimiter {
  import opened Options
  import opened Sequences
  import opened Widths

  datatype ClientCacheEntry = ClientCacheEntry(Start: int, Count: nat)

  /** How often a client may call: at most MaxCalls times in a window of Period milliseconds. */
  datatype Rate = Rate(Period: int, MaxCalls: int)

  /** One call at time now: what is remembered, and whether the call is refused. */
  function Step(e: Option<ClientCacheEntry>, now: int, rate: Rate): (ClientCacheEntry, bool)
  {
    match e
    case None => (ClientCacheEntry(now, 1), false)
    case Some(c) =>
      if now - c.Start < rate.Period then (c.(Count := c.Count + 1), c.Count + 1 > rate.MaxCalls)
      else (ClientCacheEntry(now, 1), false)
  }

  class RESTAPI_RateLimiter {
    var Cache_: map<nat, ClientCacheEntry>

    constructor ()
      ensures Cache_ == map[]
    {
      Cache_ := map[];
    }

    /** h is the hash of the path and the client address. */
    method IsRateLimited(h: nat, now: int, rate: Rate) returns (limited: bool)
      modifies this
      ensures var (e, l) := Step(Lookup(old(Cache_), h), now, rate); Cache_ == old(Cache_)[h := e] && limited == l
    {
      if h !in Cache_ {
        Cache_ := Cache_[h := ClientCacheEntry(now, 1)];
        return false;
      }
      var E := Cache_[h];
      if now - E.Start < rate.Period {
        E := E.(Count := E.Count + 1);
        Cache_ := Cache_[h := E];
        return E.Count > rate.MaxCalls;
      }
      E := ClientCacheEntry(now, 1);
      Cache_ := Cache_[h := E];
      return false;
    }
  }

  // ----- one client -----

  function StateAfter(times: seq<int>, rate: Rate): (e: Option<ClientCacheEntry>)
    ensures e.None? <==> times == []
  {
    if times == [] then None
    else Some(Step(StateAfter(times[..|times| - 1], rate), times[|times| - 1], rate).0)
  }

  /** Whether call i of a client is refused. */
  predicate Limited(times: seq<int>, rate: Rate, i: nat)
    requires i < |times|
  {
    Step(StateAfter(times[..i], rate), times[i], rate).1
  }

  ghost predicate Clocked(times: seq<int>)
  {
    forall i, j :: 0 <= i < j < |times| ==> times[i] <= times[j]
  }

  /** The calls made in [from, to). */
  function CallsIn(times: seq<int>, from: int, to: int): nat
  {
    if times == [] then 0
    else CallsIn(times[..|times| - 1], from, to) + if from <= times[|times| - 1] < to then 1 else 0
  }

  /** The calls made in [from, to) that are not refused. */
  function AdmittedIn(times: seq<int>, rate: Rate, from: int, to: int): nat
  {
    if times == [] then 0
    else
      AdmittedIn(times[..|times| - 1], rate, from, to) +
      (if from <= times[|times| - 1] < to && !Limited(times, rate, |times| - 1) then 1 else 0)
  }

  function AtLeastOne(m: int): (k: int)
    ensures k >= 1 && k >= m && (k == 1 || k == m)
  {
    if m < 1 then 1 else m
  }

  /** The most an interval that starts at `from` can have admitted, given the window that is open. */
  function Budget(e: ClientCacheEntry, rate: Rate, from: int): int
  {
    var k := AtLeastOne(rate.MaxCalls);
    if e.Start < from then Min(e.Count, k) - 1
    else if e.Start < from + rate.Period then k - 1 + Min(e.Count, k)
    else 2 * k - 1
  }

  lemma ClockedPrefix(times: seq<int>)
    requires Clocked(times) && times != []
    ensures Clocked(times[..|times| - 1]) && forall i :: 0 <= i < |times| ==> times[i] <= times[|times| - 1]
  {
  }

  lemma {:induction false} NothingAdmittedYet(times: seq<int>, rate: Rate, from: int, to: int)
    requires forall i :: 0 <= i < |times| ==> times[i] < from
    ensures AdmittedIn(times, rate, from, to) == 0
  {
    if times != [] {
      NothingAdmittedYet(times[..|times| - 1], rate, from, to);
    }
  }

  lemma {:induction false} AdmittedWithinBudget(times: seq<int>, rate: Rate, from: int)
    requires Clocked(times) && times != []
    ensures AdmittedIn(times, rate, from, from + rate.Period) <= Budget(StateAfter(times, rate).value, rate, from)
    ensures 1 <= StateAfter(times, rate).value.Count && StateAfter(times, rate).value.Start <= times[|times| - 1]
  {
    var front, t := times[..|times| - 1], times[|times| - 1];
    ClockedPrefix(times);
    if t < from {
      NothingAdmittedYet(front, rate, from, from + rate.Period);
    }
    if front != [] {
      AdmittedWithinBudget(front, rate, from);
    }
  }

  /** Under a clock that never goes back, no interval of length Period admits more than
      2 * max(1, MaxCalls) - 1 calls of a client. */
  lemma BurstIsBounded(times: seq<int>, rate: Rate, from: int)
    requires Clocked(times)
    ensures AdmittedIn(times, rate, from, from + rate.Period) <= 2 * AtLeastOne(rate.MaxCalls) - 1
  {
    if times != [] {
      AdmittedWithinBudget(times, rate, from);
    }
  }

  /** The most a closed interval [from, from + Period] can have admitted, given the window that is open:
      a window that starts at its left end can be followed by one that starts at its right end. */
  function ClosedBudget(e: ClientCacheEntry, rate: Rate, from: int): int
  {
    var k := AtLeastOne(rate.MaxCalls);
    if e.Start < from then Min(e.Count, k) - 1
    else if e.Start == from then Min(e.Count, k)
    else if e.Start < from + rate.Period then k - 1 + Min(e.Count, k)
    else if e.Start == from + rate.Period then k + Min(e.Count, k)
    else 2 * k
  }

  lemma {:induction false} AdmittedWithinClosedBudget(times: seq<int>, rate: Rate, from: int)
    requires Clocked(times) && times != [] && rate.Period > 0
    ensures AdmittedIn(times, rate, from, from + rate.Period + 1) <=
            ClosedBudget(StateAfter(times, rate).value, rate, from)
    ensures 1 <= StateAfter(times, rate).value.Count && StateAfter(times, rate).value.Start <= times[|times| - 1]
    ensures times[|times| - 1] - StateAfter(times, rate).value.Start < rate.Period
  {
    var front, t := times[..|times| - 1], times[|times| - 1];
    ClockedPrefix(times);
    if t < from {
      NothingAdmittedYet(front, rate, from, from + rate.Period + 1);
    }
    if front != [] {
      AdmittedWithinClosedBudget(front, rate, from);
      if front[|front| - 1] < from {
        NothingAdmittedYet(front, rate, from, from + rate.Period + 1);
      }
    }
  }

  lemma {:induction false} AllAdmittedAtOnce(t: int, n: nat, rate: Rate)
    requires rate.Period == 0
    ensures AdmittedIn(Repeat(t, n), rate, t, t + 1) == n
    ensures Clocked(Repeat(t, n)) && (n > 0 ==> StateAfter(Repeat(t, n), rate) == Some(ClientCacheEntry(t, 1)))
  {
    if n > 0 {
      AllAdmittedAtOnce(t, n - 1, rate);
      assert Repeat(t, n)[..n - 1] == Repeat(t, n - 1);
    }
  }

  lemma {:induction false} NothingInEmptyInterval(times: seq<int>, rate: Rate, from: int, to: int)
    requires to <= from
    ensures AdmittedIn(times, rate, from, to) == 0
  {
    if times != [] {
      NothingInEmptyInterval(times[..|times| - 1], rate, from, to);
    }
  }

  /** The calls admitted in [from, from + Period]. */
  function AdmittedClosed(times: seq<int>, rate: Rate, from: int): nat
  {
    AdmittedIn(times, rate, from, from + rate.Period + 1)
  }

  /** With both ends counted the bound is one more, except that a Period of zero refuses nobody. */
  lemma ClosedBurstIsBounded(rate: Rate)
    ensures (forall times: seq<int>, from: int :: Clocked(times) ==>
               AdmittedClosed(times, rate, from) <= 2 * AtLeastOne(rate.MaxCalls)) <==> rate.Period != 0
  {
    var k := AtLeastOne(rate.MaxCalls);
    if rate.Period == 0 {
      AllAdmittedAtOnce(0, 2 * k + 1, rate);
      assert AdmittedClosed(Repeat(0, 2 * k + 1), rate, 0) == 2 * k + 1;
    } else {
      forall times: seq<int>, from: int | Clocked(times) ensures AdmittedClosed(times, rate, from) <= 2 * k {
        if rate.Period < 0 {
          NothingInEmptyInterval(times, rate, from, from + rate.Period + 1);
        } else if times != [] {
          AdmittedWithinClosedBudget(times, rate, from);
        }
      }
    }
  }

  // ----- the bound is attained -----

  lemma {:induction false} MoreInWindow(times: seq<int>, t: int, n: nat, rate: Rate, from: int, to: int)
    requires times != [] && t - StateAfter(times, rate).value.Start < rate.Period
    requires StateAfter(times, rate).value.Count + n <= rate.MaxCalls && from <= t < to
    ensures var e, all := StateAfter(times, rate).value, times + Repeat(t, n);
            StateAfter(all, rate) == Some(e.(Count := e.Count + n)) &&
            AdmittedIn(all, rate, from, to) == AdmittedIn(times, rate, from, to) + n
  {
    hide StateAfter, AdmittedIn;
    var all := times + Repeat(t, n);
    if n == 0 {
      assert all == times;
    } else {
      MoreInWindow(times, t, n - 1, rate, from, to);
      OneMoreCall(times + Repeat(t, n - 1), t, rate, from, to);
      assert all == times + Repeat(t, n - 1) + [t];
    }
  }

  /** A client that calls once, MaxCalls - 1 times just before its window closes and MaxCalls times in
      the next one. */
  function WorstCase(rate: Rate): seq<int>
    requires rate.MaxCalls >= 1
  {
    [0] + Repeat(rate.Period - 1, rate.MaxCalls - 1) + [rate.Period] + Repeat(rate.Period, rate.MaxCalls - 1)
  }

  lemma OneMoreCall(times: seq<int>, t: int, rate: Rate, from: int, to: int)
    ensures var (e, limited) := Step(StateAfter(times, rate), t, rate);
            StateAfter(times + [t], rate) == Some(e) &&
            AdmittedIn(times + [t], rate, from, to) ==
            AdmittedIn(times, rate, from, to) + if from <= t < to && !limited then 1 else 0
  {
    assert (times + [t])[..|times|] == times;
  }

  lemma NoCalls(rate: Rate, from: int, to: int)
    ensures StateAfter([], rate) == None && AdmittedIn([], rate, from, to) == 0
  {
  }

  /** One window filled up at s and, in the next one that starts at t, MaxCalls calls at once. */
  lemma TwoWindows(rate: Rate, s: int, t: int, from: int, to: int) returns (times: seq<int>)
    requires rate.MaxCalls >= 1 && 0 <= from <= s < rate.Period <= t < to
    ensures times == [0] + Repeat(s, rate.MaxCalls - 1) + [t] + Repeat(t, rate.MaxCalls - 1)
    ensures Clocked(times)
    ensures AdmittedIn(times, rate, from, to) == 2 * rate.MaxCalls - if from == 0 then 0 else 1
  {
    hide StateAfter, AdmittedIn;
    var first: seq<int> := [0];
    NoCalls(rate, from, to);
    OneMoreCall([], 0, rate, from, to);
    assert [] + [0] == first;
    MoreInWindow(first, s, rate.MaxCalls - 1, rate, from, to);
    var half := first + Repeat(s, rate.MaxCalls - 1);
    OneMoreCall(half, t, rate, from, to);
    MoreInWindow(half + [t], t, rate.MaxCalls - 1, rate, from, to);
    times := half + [t] + Repeat(t, rate.MaxCalls - 1);
  }

  /** The bound is sharp for every MaxCalls and every Period of at least two. */
  lemma BurstIsAttained(rate: Rate)
    requires rate.MaxCalls >= 1 && rate.Period >= 2
    ensures Clocked(WorstCase(rate))
    ensures var from := rate.Period - 1;
            AdmittedIn(WorstCase(rate), rate, from, from + rate.Period) == 2 * AtLeastOne(rate.MaxCalls) - 1
  {
    var p := rate.Period;
    var times := TwoWindows(rate, p - 1, p, p - 1, p - 1 + p);
  }

  /** MaxCalls calls at the left end of a closed interval and MaxCalls at its right end. */
  lemma ClosedBurstIsAttained(rate: Rate)
    requires rate.MaxCalls >= 1 && rate.Period >= 1
    ensures exists times: seq<int>, from: int ::
              Clocked(times) && AdmittedClosed(times, rate, from) == 2 * AtLeastOne(rate.MaxCalls)
  {
    var times := TwoWindows(rate, 0, rate.Period, 0, rate.Period + 1);
    assert AdmittedClosed(times, rate, 0) == 2 * rate.MaxCalls;
  }

  // ----- when the limit is kept -----

  /** The calls admitted in [from, from + Period). */
  function AdmittedFrom(times: seq<int>, rate: Rate, from: int): nat
  {
    AdmittedIn(times, rate, from, from + rate.Period)
  }

  /** The limit is kept by every client in every interval of one period. */
  ghost predicate KeepsLimit(rate: Rate)
  {
    forall times: seq<int>, from: int :: Clocked(times) ==> AdmittedFrom(times, rate, from) <= rate.MaxCalls
  }

  lemma {:induction false} InstantIsOneWindow(times: seq<int>, rate: Rate, from: int)
    requires Clocked(times) && times != [] && rate.Period == 1 && rate.MaxCalls >= 1
    ensures var e := StateAfter(times, rate).value;
            1 <= e.Count && e.Start == times[|times| - 1] &&
            AdmittedIn(times, rate, from, from + 1) <=
            if e.Start < from then 0 else if e.Start == from then Min(e.Count, rate.MaxCalls) else rate.MaxCalls
  {
    var front, t := times[..|times| - 1], times[|times| - 1];
    ClockedPrefix(times);
    if front != [] {
      InstantIsOneWindow(front, rate, from);
    }
  }

  lemma FirstCallIsAdmitted(rate: Rate)
    requires rate.Period >= 1
    ensures Clocked([0]) && AdmittedFrom([0], rate, 0) == 1
  {
    NoCalls(rate, 0, rate.Period);
    OneMoreCall([], 0, rate, 0, rate.Period);
    assert [] + [0] == [0];
  }

  /** No more than MaxCalls calls are admitted in any interval of one period exactly when there is no
      such interval, when a window admits one call only, or when a window is a single instant. */
  lemma LimitIsKeptExactly(rate: Rate)
    ensures KeepsLimit(rate) <==>
            rate.MaxCalls >= 0 && (rate.Period <= 0 || rate.MaxCalls == 1 || (rate.MaxCalls > 1 && rate.Period == 1))
  {
    if rate.MaxCalls < 0 {
      assert AdmittedFrom([], rate, 0) == 0 && Clocked([]);
    } else if rate.Period <= 0 {
      forall times: seq<int>, from: int ensures AdmittedFrom(times, rate, from) == 0 {
        NothingInEmptyInterval(times, rate, from, from + rate.Period);
      }
    } else if rate.MaxCalls == 0 {
      FirstCallIsAdmitted(rate);
    } else if rate.MaxCalls == 1 {
      forall times: seq<int>, from: int | Clocked(times) ensures AdmittedFrom(times, rate, from) <= 1 {
        BurstIsBounded(times, rate, from);
      }
    } else if rate.Period == 1 {
      forall times: seq<int>, from: int | Clocked(times) ensures AdmittedFrom(times, rate, from) <= rate.MaxCalls {
        if times != [] {
          InstantIsOneWindow(times, rate, from);
        }
      }
    } else {
      BurstIsAttained(rate);
      assert AdmittedFrom(WorstCase(rate), rate, rate.Period - 1) > rate.MaxCalls;
    }
  }

  // ----- well-behaved clients -----

  /** The calls made in the interval of length Period that starts at `from`. */
  function CallsFrom(times: seq<int>, rate: Rate, from: int): nat
  {
    CallsIn(times, from, from + rate.Period)
  }

  lemma {:induction false} CallsInPrefix(times: seq<int>, n: nat, from: int, to: int)
    requires n <= |times|
    ensures CallsIn(times[..n], from, to) <= CallsIn(times, from, to)
  {
    if n == |times| {
      assert times[..n] == times;
    } else {
      CallsInPrefix(times[..|times| - 1], n, from, to);
      assert times[..|times| - 1][..n] == times[..n];
    }
  }

  lemma {:induction false} CountIsCallsInWindow(times: seq<int>, rate: Rate)
    requires Clocked(times) && times != [] && rate.Period > 0
    ensures var e := StateAfter(times, rate).value;
            e.Count <= CallsIn(times, e.Start, e.Start + rate.Period) && e.Start <= times[|times| - 1]
  {
    var front := times[..|times| - 1];
    ClockedPrefix(times);
    if front != [] {
      CountIsCallsInWindow(front, rate);
    }
  }

  /** A client that never makes more than MaxCalls calls in any interval of length Period is never
      refused. */
  lemma PoliteClientIsNeverLimited(times: seq<int>, rate: Rate, i: nat)
    requires Clocked(times) && rate.Period > 0 && rate.MaxCalls >= 1
    requires forall from :: CallsFrom(times, rate, from) <= rate.MaxCalls
    requires i < |times|
    ensures !Limited(times, rate, i)
  {
    var upTo := times[..i + 1];
    assert upTo[..i] == times[..i] && upTo[i] == times[i];
    CountIsCallsInWindow(upTo, rate);
    var e := StateAfter(upTo, rate).value;
    CallsInPrefix(times, i + 1, e.Start, e.Start + rate.Period);
    assert CallsFrom(times, rate, e.Start) <= rate.MaxCalls;
  }

  // ----- many clients -----

  datatype Call = Call(client: nat, now: int)

  function RunAll(calls: seq<Call>, rate: Rate): map<nat, ClientCacheEntry>
  {
    if calls == [] then map[]
    else
      var cache, c := RunAll(calls[..|calls| - 1], rate), calls[|calls| - 1];
      cache[c.client := Step(Lookup(cache, c.client), c.now, rate).0]
  }

  function TimesOf(calls: seq<Call>, client: nat): seq<int>
  {
    if calls == [] then []
    else
      var c := calls[|calls| - 1];
      TimesOf(calls[..|calls| - 1], client) + (if c.client == client then [c.now] else [])
  }

  /** What is remembered about a client, and so every decision about it, depends on its own calls
      only. */
  lemma {:induction false} ClientsAreIndependent(calls: seq<Call>, rate: Rate, client: nat)
    ensures Lookup(RunAll(calls, rate), client) == StateAfter(TimesOf(calls, client), rate)
  {
    if calls != [] {
      var front, c := calls[..|calls| - 1], calls[|calls| - 1];
      ClientsAreIndependent(front, rate, client);
      var times := TimesOf(front, client);
      if c.client == client {
        assert (times + [c.now])[..|times|] == times;
      } else {
        assert times + [] == times;
      }
    }
  }
}
