/** The fixed-size queue of the micro-service framework, over a circular buffer. */
module Fifo {
  import opened Options
  import opened Widths

  lemma WrapStep(n: nat)
    ensures Wrap32(Wrap32(n) + 1) == Wrap32(n + 1)
    ensures n > 0 ==> Wrap32(Wrap32(n) - 1) == Wrap32(n - 1)
  {
    var q, r := n / U32, n % U32;
    assert n == U32 * q + r;
    WrapIs(n + 1, if r + 1 == U32 then q + 1 else q, if r + 1 == U32 then 0 else r + 1);
    WrapIs(r + 1, if r + 1 == U32 then 1 else 0, if r + 1 == U32 then 0 else r + 1);
    WrapIs(n - 1, if r == 0 then q - 1 else q, if r == 0 then U32 - 1 else r - 1);
    WrapIs(r - 1, if r == 0 then -1 else 0, if r == 0 then U32 - 1 else r - 1);
  }

  lemma WrapIs(n: int, q: int, r: nat)
    requires n == U32 * q + r && r < U32
    ensures Wrap32(n) == r
  {
  }

  /** What can be read, how many items overruns have lost, and the greatest value of the counter. */
  datatype Queue<T> = Queue(items: seq<T>, lost: nat, maxUsed: nat)
  {
    /** The 32-bit counter of used slots, which an overrun does not reset. */
    function Used(): nat { Wrap32(|items| + lost) }
  }

  function Max(a: nat, b: nat): nat { if a < b then b else a }

  /** The write that fills the last slot makes the buffer look empty. */
  function Written<T>(q: Queue<T>, t: T, size: nat): Queue<T>
  {
    var maxUsed := Max(Wrap32(|q.items| + q.lost + 1), q.maxUsed);
    if |q.items| + 1 == size then Queue([], q.lost + size, maxUsed) else Queue(q.items + [t], q.lost, maxUsed)
  }

  /** The index i places behind the read index. */
  function Slot(read: nat, i: nat, size: nat): (k: nat)
    requires read < size && i < size
    ensures k < size
  {
    if read + i < size then read + i else read + i - size
  }

  lemma SlotNext(read: nat, i: nat, size: nat)
    requires read < size && i < size
    ensures var k := Slot(read, i, size) + 1;
            (if k == size then 0 else k) == Slot(read, if i + 1 == size then 0 else i + 1, size)
  {
  }

  /** The items stand in the buffer from the read index on, around its end. */
  ghost predicate Stored<T>(buffer: seq<T>, read: nat, items: seq<T>)
    requires read < |buffer| && |items| < |buffer|
  {
    forall i :: 0 <= i < |items| ==> items[i] == buffer[Slot(read, i, |buffer|)]
  }

  lemma StoredFirst<T>(buffer: seq<T>, read: nat, items: seq<T>)
    requires read < |buffer| && |items| < |buffer| && Stored(buffer, read, items) && items != []
    ensures buffer[read] == items[0] && Stored(buffer, Slot(read, 1, |buffer|), items[1..])
  {
    assert Slot(read, 0, |buffer|) == read;
    forall i | 0 <= i < |items[1..]| ensures items[1..][i] == buffer[Slot(Slot(read, 1, |buffer|), i, |buffer|)] {
      assert items[1..][i] == items[i + 1];
      assert Slot(Slot(read, 1, |buffer|), i, |buffer|) == Slot(read, i + 1, |buffer|);
    }
  }

  lemma StoredNext<T>(buffer: seq<T>, read: nat, items: seq<T>, t: T)
    requires read < |buffer| && |items| < |buffer| && Stored(buffer, read, items)
    ensures Stored(buffer[Slot(read, |items|, |buffer|) := t], read,
                   if |items| + 1 == |buffer| then [] else items + [t])
  {
    forall i | 0 <= i < |items| ensures Slot(read, i, |buffer|) != Slot(read, |items|, |buffer|) {
    }
  }

  class FIFO<T(0)> {
    const Size_: nat
    const Buffer_: array<T>
    var Read_: nat
    var Write_: nat
    var Used_: nat
    var MaxEverUsed_: nat
    ghost var Items: seq<T>
    ghost var Lost: nat

    ghost predicate Valid()
      reads this, Buffer_
    {
      0 < Size_ < U32 && Buffer_.Length == Size_ && Read_ < Size_ && |Items| < Size_ &&
      Write_ == Slot(Read_, |Items|, Size_) &&
      Stored(Buffer_[..], Read_, Items) &&
      Used_ == State().Used()
    }

    ghost function State(): Queue<T>
      reads this
    {
      Queue(Items, Lost, MaxEverUsed_)
    }

    constructor (Size: nat)
      requires 0 < Size < U32
      ensures Valid() && fresh(Buffer_) && Size_ == Size
      ensures State() == Queue([], 0, 0)
    {
      Size_, Buffer_ := Size, new T[Size];
      Read_, Write_, Used_, MaxEverUsed_ := 0, 0, 0, 0;
      Items, Lost := [], 0;
    }

    method Read() returns (ok: bool, t: T)
      requires Valid()
      modifies this
      ensures Valid()
      ensures ok <==> old(State()).items != []
      ensures ok ==> t == old(State()).items[0]
      ensures State() == if ok then old(State()).(items := old(State()).items[1..]) else old(State())
    {
      if Write_ == Read_ {
        return false, Buffer_[0];
      }
      t := Buffer_[Read_];
      StoredFirst(Buffer_[..], Read_, Items);
      Read_ := Read_ + 1;
      if Read_ == Size_ {
        Read_ := 0;
      }
      WrapStep(|Items| + Lost);
      Used_ := Wrap32(Used_ - 1);
      Items := Items[1..];
      return true, t;
    }

    /** The result is always false. */
    method Write(t: T) returns (ok: bool)
      requires Valid()
      modifies this, Buffer_
      ensures Valid() && !ok
      ensures State() == Written(old(State()), t, Size_)
    {
      WrapStep(|Items| + Lost);
      SlotNext(Read_, |Items|, Size_);
      hide Wrap32, Stored, Max, Slot;
      ghost var before, count := Buffer_[..], |Items| + Lost;
      StoredNext(before, Read_, Items, t);
      Buffer_[Write_] := t;
      assert Buffer_[..] == before[Write_ := t];
      Write_ := Write_ + 1;
      if Write_ == Size_ {
        Write_ := 0;
      }
      Used_ := Wrap32(Used_ + 1);
      MaxEverUsed_ := Max(Used_, MaxEverUsed_);
      Items, Lost := if |Items| + 1 == Size_ then [] else Items + [t],
                     if |Items| + 1 == Size_ then Lost + Size_ else Lost;
      assert |Items| + Lost == count + 1;
      return false;
    }
  }

  // ----- against an unbounded queue -----

  datatype Op<T> = Put(t: T) | Take

  function Step<T>(q: Queue<T>, op: Op<T>, size: nat): (Queue<T>, Option<T>)
  {
    match op
    case Put(t) => (Written(q, t, size), None)
    case Take => if q.items == [] then (q, None) else (q.(items := q.items[1..]), Some(q.items[0]))
  }

  function Run<T>(ops: seq<Op<T>>, size: nat): (Queue<T>, seq<Option<T>>)
  {
    if ops == [] then (Queue([], 0, 0), [])
    else
      var (q, out) := Run(ops[..|ops| - 1], size);
      var (r, x) := Step(q, ops[|ops| - 1], size);
      (r, out + [x])
  }

  function Unbounded<T>(ops: seq<Op<T>>): (seq<T>, seq<Option<T>>)
  {
    if ops == [] then ([], [])
    else
      var (q, out) := Unbounded(ops[..|ops| - 1]);
      match ops[|ops| - 1]
      case Put(t) => (q + [t], out + [None])
      case Take => if q == [] then (q, out + [None]) else (q[1..], out + [Some(q[0])])
  }

  /** The greatest number of items outstanding so far. */
  function Peak<T>(ops: seq<Op<T>>): nat
  {
    if ops == [] then 0 else Max(|Unbounded(ops).0|, Peak(ops[..|ops| - 1]))
  }

  /** Over every run that keeps fewer than `size` items outstanding the queue behaves as an unbounded
      one, and its counters are the number of items and its running maximum. */
  lemma {:induction false} RefinesUnbounded<T>(ops: seq<Op<T>>, size: nat)
    requires Peak(ops) < size < U32
    ensures var (q, out) := Run(ops, size);
            q.items == Unbounded(ops).0 && out == Unbounded(ops).1 && q.lost == 0 &&
            q.Used() == |q.items| && q.maxUsed == Peak(ops)
  {
    if ops != [] {
      RefinesUnbounded(ops[..|ops| - 1], size);
      UnboundedPeak(ops[..|ops| - 1]);
    }
  }

  lemma {:induction false} UnboundedPeak<T>(ops: seq<Op<T>>)
    ensures |Unbounded(ops).0| <= Peak(ops)
  {
  }

  lemma {:induction false} ItemsFit<T>(ops: seq<Op<T>>, size: nat)
    requires size > 0
    ensures |Run(ops, size).0.items| < size
  {
    if ops != [] {
      ItemsFit(ops[..|ops| - 1], size);
    }
  }

  lemma {:induction false} PeakIsReached<T>(ops: seq<Op<T>>) returns (n: nat)
    ensures n <= |ops| && |Unbounded(ops[..n]).0| == Peak(ops)
  {
    if ops == [] || Peak(ops) == |Unbounded(ops).0| {
      assert ops[..|ops|] == ops;
      return |ops|;
    }
    n := PeakIsReached(ops[..|ops| - 1]);
    assert ops[..|ops| - 1][..n] == ops[..n];
  }

  lemma {:induction false} PeakOfPrefix<T>(ops: seq<Op<T>>, n: nat)
    requires n <= |ops|
    ensures Peak(ops[..n]) <= Peak(ops)
  {
    if n == |ops| {
      assert ops[..n] == ops;
    } else {
      PeakOfPrefix(ops[..|ops| - 1], n);
      assert ops[..|ops| - 1][..n] == ops[..n];
    }
  }

  /** The items agree with an unbounded queue at every point of a run exactly when fewer than `size`
      are outstanding throughout: the write that fills the buffer loses all of it. */
  lemma RefinesExactlyWithinCapacity<T>(ops: seq<Op<T>>, size: nat)
    requires 0 < size < U32
    ensures (forall n :: 0 <= n <= |ops| ==> Run(ops[..n], size).0.items == Unbounded(ops[..n]).0) <==> Peak(ops) < size
  {
    var n := PeakIsReached(ops);
    ItemsFit(ops[..n], size);
    if Peak(ops) < size {
      forall n | 0 <= n <= |ops| ensures Run(ops[..n], size).0.items == Unbounded(ops[..n]).0 {
        PeakOfPrefix(ops, n);
        RefinesUnbounded(ops[..n], size);
      }
    }
  }
}
