/** The queue between the bus callbacks and the worker thread of the two message handlers. Every
    access to shared state is one atomic step. */
module WorkQueue {
  import opened Options

  /** Where the worker stands in its loops. */
  datatype Place =
    | Begin        // about to set the running flag
    | OuterCheck   // about to test the flag of the outer loop
    | Asleep       // in the timed sleep
    | Woken        // about to test the flag behind the sleep
    | EmptyTest    // about to test, without the lock, whether the queue is empty
    | InnerCheck   // about to test the flag of the inner loop
    | Popping      // about to take the front of the queue under the lock
    | Processing   // with an item in hand
    | Stopped
    | Crashed      // took the front of an empty queue

  datatype State<T> = State(queue: seq<T>, running: bool, place: Place, inHand: Option<T>, processed: seq<T>,
                            arrived: seq<T>)

  function Initial<T>(): State<T> { State([], false, Begin, None, [], []) }

  /** A callback delivers an item, somebody stops the handler, or the worker takes its next step. */
  datatype Step<T> = Arrive(item: T) | Stop | Work

  function Worked<T>(s: State<T>): State<T>
  {
    match s.place
    case Begin => s.(running := true, place := OuterCheck)
    case OuterCheck => s.(place := if s.running then Asleep else Stopped)
    case Asleep => s.(place := Woken)
    case Woken => s.(place := if s.running then EmptyTest else Stopped)
    case EmptyTest => s.(place := if s.queue == [] then OuterCheck else InnerCheck)
    case InnerCheck => s.(place := if s.running then Popping else OuterCheck)
    case Popping =>
      if s.queue == [] then s.(place := Crashed)
      else s.(place := Processing, inHand := Some(s.queue[0]), queue := s.queue[1..])
    case Processing => if s.inHand.None? then s
        else s.(place := EmptyTest, inHand := None, processed := s.processed + [s.inHand.value])
    case Stopped => s
    case Crashed => s
  }

  function After<T>(s: State<T>, step: Step<T>): State<T>
  {
    match step
    case Arrive(x) => s.(queue := s.queue + [x], arrived := s.arrived + [x])
    case Stop => s.(running := false)
    case Work => Worked(s)
  }

  class Handler<T> {
    var Queue_: seq<T>
    var Running_: bool
    var place: Place
    var inHand: Option<T>
    ghost var processed: seq<T>
    ghost var arrived: seq<T>

    ghost function Now(): State<T>
      reads this
    {
      State(Queue_, Running_, place, inHand, processed, arrived)
    }

    constructor ()
      ensures Now() == Initial()
    {
      Queue_, Running_, place, inHand, processed, arrived := [], false, Begin, None, [], [];
    }

    method Received(item: T)
      modifies this
      ensures Now() == After(old(Now()), Arrive(item))
    {
      Queue_ := Queue_ + [item];
      arrived := arrived + [item];
    }

    method RequestStop()
      modifies this
      ensures Now() == After(old(Now()), Stop)
    {
      Running_ := false;
    }

    /** The next step of the worker; it may be taken only where the front of the queue exists. */
    method WorkerStep()
      requires Safe(Now())
      modifies this
      ensures Now() == After(old(Now()), Work)
    {
      match place
      case Begin => Running_, place := true, OuterCheck;
      case OuterCheck => place := if Running_ then Asleep else Stopped;
      case Asleep => place := Woken;
      case Woken => place := if Running_ then EmptyTest else Stopped;
      case EmptyTest => place := if Queue_ == [] then OuterCheck else InnerCheck;
      case InnerCheck => place := if Running_ then Popping else OuterCheck;
      case Popping =>
        inHand := Some(Queue_[0]);
        Queue_ := Queue_[1..];
        place := Processing;
      case Processing =>
        processed := processed + [inHand.value];
        inHand, place := None, EmptyTest;
      case Stopped =>
      case Crashed =>
    }
  }

  function Run<T>(steps: seq<Step<T>>): State<T>
  {
    if steps == [] then Initial() else After(Run(steps[..|steps| - 1]), steps[|steps| - 1])
  }

  function Held<T>(s: State<T>): seq<T>
  {
    if s.inHand.Some? then [s.inHand.value] else []
  }

  /** Between the test and the pop the queue is not empty, and nothing is lost, doubled or reordered. */
  ghost predicate Safe<T>(s: State<T>)
  {
    s.place != Crashed &&
    (s.place == InnerCheck || s.place == Popping ==> s.queue != []) &&
    (s.place == Processing <==> s.inHand.Some?) &&
    s.processed + Held(s) + s.queue == s.arrived
  }

  lemma StepIsSafe<T>(s: State<T>, step: Step<T>)
    requires Safe(s)
    ensures Safe(After(s, step))
  {
    match step
    case Arrive(x) =>
      assert s.processed + Held(s) + (s.queue + [x]) == s.processed + Held(s) + s.queue + [x];
    case Stop =>
    case Work =>
      if s.place == Popping {
        assert s.queue == [s.queue[0]] + s.queue[1..];
      }
  }

  /** In every interleaving of any number of producers with the one worker, the unlocked emptiness
      test followed by the locked pop never pops an empty queue, and what has been processed, is in
      hand and is queued is always what arrived, in order. */
  lemma {:induction false} EveryInterleavingIsSafe<T>(steps: seq<Step<T>>)
    ensures Safe(Run(steps))
  {
    if steps != [] {
      EveryInterleavingIsSafe(steps[..|steps| - 1]);
      StepIsSafe(Run(steps[..|steps| - 1]), steps[|steps| - 1]);
    } else {
      assert Safe(Initial<T>());
    }
  }

  // ----- stopping -----

  function Continued<T>(s: State<T>, steps: seq<Step<T>>): State<T>
    decreases steps
  {
    if steps == [] then s else Continued(After(s, steps[0]), steps[1..])
  }

  function WorkSteps<T>(steps: seq<Step<T>>): nat
  {
    if steps == [] then 0 else (if steps[0].Work? then 1 else 0) + WorkSteps(steps[1..])
  }

  // ----- every item is processed -----

  /** How many steps the worker still needs until it has processed as many items as wanted: four for
      each that is still queued, and those that bring it to the inner loop. */
  function Needed<T>(s: State<T>, wanted: nat): nat
  {
    var queued := wanted - |s.processed| - |Held(s)|;
    if |s.processed| >= wanted || queued < 0 then 0 else
    match s.place
    case OuterCheck => 4 * queued + 3
    case Asleep => 4 * queued + 2
    case Woken => 4 * queued + 1
    case EmptyTest => 4 * queued
    case InnerCheck => if queued == 0 then 0 else 4 * queued - 1
    case Popping => if queued == 0 then 0 else 4 * queued - 2
    case Processing => 4 * queued + 1
    case _ => 0
  }

  /** A worker that has begun and that nobody has stopped. */
  predicate AtWork<T>(s: State<T>)
  {
    s.running && s.place != Begin && s.place != Stopped
  }

  lemma StepIsProgress<T>(s: State<T>, step: Step<T>, wanted: nat)
    requires Safe(s) && AtWork(s) && step != Stop && wanted <= |s.arrived|
    ensures var t := After(s, step);
            AtWork(t) && s.arrived <= t.arrived && |s.processed| <= |t.processed| &&
            Needed(t, wanted) <= Needed(s, wanted) &&
            (step.Work? && Needed(s, wanted) > 0 ==> Needed(t, wanted) < Needed(s, wanted))
  {
    assert |s.arrived| == |s.processed| + |Held(s)| + |s.queue|;
  }

  lemma NothingNeeded<T>(s: State<T>, wanted: nat)
    requires Safe(s) && AtWork(s) && wanted <= |s.arrived| && Needed(s, wanted) == 0
    ensures wanted <= |s.processed|
  {
    assert |s.arrived| == |s.processed| + |Held(s)| + |s.queue|;
  }

  lemma {:induction false} WorkIsProgress<T>(s: State<T>, steps: seq<Step<T>>, wanted: nat)
    requires Safe(s) && AtWork(s) && Stop !in steps && wanted <= |s.arrived| && Needed(s, wanted) <= WorkSteps(steps)
    ensures var t := Continued(s, steps);
            Safe(t) && wanted <= |t.processed| && s.arrived <= t.arrived
    decreases steps
  {
    if steps == [] {
      NothingNeeded(s, wanted);
    } else {
      assert steps[0] in steps;
      hide Safe, AtWork, Needed, After;
      StepIsSafe(s, steps[0]);
      StepIsProgress(s, steps[0], wanted);
      WorkIsProgress(After(s, steps[0]), steps[1..], wanted);
    }
  }

  /** Whatever arrives meanwhile, a worker at work has processed everything that had arrived, in order,
      after four steps for each item it has not finished and three more. */
  lemma EverythingIsProcessed<T>(s: State<T>, steps: seq<Step<T>>)
    requires Safe(s) && s.running && s.place != Begin && s.place != Stopped && Stop !in steps
    requires 4 * (|Held(s)| + |s.queue|) + 3 <= WorkSteps(steps)
    ensures s.arrived <= Continued(s, steps).processed
  {
    var t := Continued(s, steps);
    assert |s.arrived| == |s.processed| + |Held(s)| + |s.queue|;
    WorkIsProgress(s, steps, |s.arrived|);
    assert t.arrived == t.processed + (Held(t) + t.queue);
    PrefixOfSum(s.arrived, t.processed, Held(t) + t.queue);
  }

  lemma PrefixOfSum<T>(a: seq<T>, b: seq<T>, c: seq<T>)
    requires a <= b + c && |a| <= |b|
    ensures a <= b
  {
    assert forall i :: 0 <= i < |a| ==> a[i] == (b + c)[i] == b[i];
  }

  // ----- ending -----

  function Taken<T>(s: State<T>): nat { |s.processed| + |Held(s)| }

  /** How many steps a worker whose flag is cleared takes to its end. */
  function Left(p: Place): nat
  {
    match p
    case Popping => 5
    case Processing => 4
    case EmptyTest => 3
    case InnerCheck => 2
    case Asleep => 2
    case OuterCheck => 1
    case Woken => 1
    case Begin => 0
    case Stopped => 0
    case Crashed => 0
  }

  /** A stop request that comes after the worker has begun takes effect: at most one more item is
      taken from the queue, and the worker has ended after at most five of its own steps. */
  lemma {:induction false} StopTakesEffect<T>(s: State<T>, steps: seq<Step<T>>)
    requires Safe(s) && !s.running && s.place != Begin
    ensures var t := Continued(s, steps);
            Taken(t) <= Taken(s) + (if s.place == Popping then 1 else 0) &&
            (Left(s.place) <= WorkSteps(steps) ==> t.place == Stopped)
    decreases steps
  {
    if steps != [] {
      StepIsSafe(s, steps[0]);
      StopTakesEffect(After(s, steps[0]), steps[1..]);
    }
  }

  /** Whatever happens before, a stop request after the worker's first step, followed by at least five
      of its steps, ends it with at most one more item taken. */
  lemma StoppedWithinFiveSteps<T>(before: seq<Step<T>>, after: seq<Step<T>>)
    requires Run(before).place != Begin && WorkSteps(after) >= 5
    ensures var s := Run(before + [Stop]);
            Continued(s, after).place == Stopped && Taken(Continued(s, after)) <= Taken(s) + 1
  {
    assert (before + [Stop])[..|before|] == before;
    EveryInterleavingIsSafe(before + [Stop]);
    StopTakesEffect(Run(before + [Stop]), after);
  }

  /** The worker is still to begin or goes on: its flag is set unless it is about to set it. */
  predicate GoesOn<T>(s: State<T>)
  {
    s.place != Stopped && (s.running || s.place == Begin)
  }

  /** As long as nobody asks again, a worker that goes on never ends. */
  lemma {:induction false} NeverStops<T>(s: State<T>, steps: seq<Step<T>>)
    requires GoesOn(s) && Stop !in steps
    ensures GoesOn(Continued(s, steps))
    decreases steps
  {
    if steps != [] {
      assert steps[0] in steps;
      NeverStops(After(s, steps[0]), steps[1..]);
    }
  }

  /** A stop request that comes before the worker's first step is lost: whatever has happened before,
      the worker does not end until somebody asks again. */
  lemma EarlyStopIsLost<T>(before: seq<Step<T>>, after: seq<Step<T>>)
    requires Run(before).place == Begin && Stop !in after
    ensures Continued(Run(before + [Stop]), after).place != Stopped
  {
    assert (before + [Stop])[..|before|] == before;
    NeverStops(Run(before + [Stop]), after);
  }

  /** A stop request ends the worker exactly when the worker had begun. */
  lemma StopEndsExactlyTheBegun<T>(before: seq<Step<T>>, after: seq<Step<T>>)
    requires WorkSteps(after) >= 5 && Stop !in after
    ensures Continued(Run(before + [Stop]), after).place == Stopped <==> Run(before).place != Begin
  {
    if Run(before).place == Begin {
      EarlyStopIsLost(before, after);
    } else {
      StoppedWithinFiveSteps(before, after);
    }
  }
}
