/** Walking a table page by page, against one plain scan of its rows. */
module TableWalk {
  import opened Widths

  const BATCH: nat := 50

  /** A callback: from what it has collected and a record to what it then has, and whether to go on. */
  type Visitor<!S, !R> = (S, R) -> (S, bool)

  /** One scan: every row in order, up to the first for which the callback returns false. */
  function Walk<S, R>(rows: seq<R>, f: Visitor<S, R>, s: S): S
    decreases |rows|
  {
    if rows == [] then s
    else
      var (t, more) := f(s, rows[0]);
      if more then Walk(rows[1..], f, t) else t
  }

  function Matching<R>(table: seq<R>, where: R -> bool): (rows: seq<R>)
    ensures |rows| <= |table|
  {
    if table == [] then [] else (if where(table[0]) then [table[0]] else []) + Matching(table[1..], where)
  }

  /** A condition picks out of each part of a table what fits, in order, and of one row the row or nothing. */
  lemma {:induction false} MatchingPicksInOrder<R>(a: seq<R>, b: seq<R>, where: R -> bool)
    ensures Matching(a + b, where) == Matching(a, where) + Matching(b, where)
    ensures |a| == 1 ==> Matching(a, where) == if where(a[0]) then a else []
  {
    if a == [] {
      assert a + b == b;
    } else {
      assert (a + b)[1..] == a[1..] + b;
      MatchingPicksInOrder(a[1..], b, where);
    }
  }

  /** The rows a statement with LIMIT and OFFSET selects. */
  function Page<R>(rows: seq<R>, offset: nat, howMany: nat): seq<R>
  {
    rows[Min(offset, |rows|)..Min(offset + howMany, |rows|)]
  }

  /** Appends the selected rows; true when there were any. */
  method GetRecords<R>(table: seq<R>, where: R -> bool, offset: nat, howMany: nat, before: seq<R>)
    returns (ok: bool, records: seq<R>)
    ensures records == before + Page(Matching(table, where), offset, howMany)
    ensures ok <==> Page(Matching(table, where), offset, howMany) != []
  {
    records := before;
    var RL := Page(Matching(table, where), offset, howMany);
    if |RL| > 0 {
      for i := 0 to |RL|
        invariant records == before + RL[..i]
      {
        records := records + [RL[i]];
      }
      return true, records;
    }
    return false, records;
  }

  lemma PageIsNext<R>(rows: seq<R>, offset: nat, howMany: nat)
    requires howMany > 0
    ensures Page(rows, offset, howMany) == [] <==> offset >= |rows|
    ensures offset < |rows| ==>
              var page := Page(rows, offset, howMany);
              |page| == Min(howMany, |rows| - offset) && forall i :: 0 <= i < |page| ==> page[i] == rows[offset + i]
  {
  }

  lemma WalkStep<S, R>(rows: seq<R>, i: nat, f: Visitor<S, R>, s: S)
    ensures i < |rows| ==>
              Walk(rows[i..], f, s) == var (t, more) := f(s, rows[i]); if more then Walk(rows[i + 1..], f, t) else t
    ensures i == |rows| ==> Walk(rows[i..], f, s) == s
  {
    if i < |rows| {
      assert rows[i..][1..] == rows[i + 1..];
    }
  }

  /** Pages of fifty rows, until a page is not full or the callback has had enough. */
  method Iterate<S, R>(table: seq<R>, where: R -> bool, F: Visitor<S, R>, init: S) returns (s: S)
    ensures s == Walk(Matching(table, where), F, init)
  {
    hide Walk, Page, Matching;
    ghost var rows := Matching(table, where);
    s := init;
    var Offset, Done := 0, false;
    assert rows[0..] == rows;
    while !Done
      invariant 0 <= Offset <= |rows|
      invariant Walk(rows, F, init) == Walk(rows[Offset..], F, s)
      invariant Done ==> Offset == |rows|
      decreases |rows| - Offset, !Done
    {
      PageIsNext(rows, Offset, BATCH);
      var ok, records := GetRecords(table, where, Offset, BATCH, []);
      if ok {
        var i := 0;
        while i < |records|
          invariant 0 <= i <= |records|
          invariant Walk(rows, F, init) == Walk(rows[Offset + i..], F, s)
        {
          WalkStep(rows, Offset + i, F, s);
          var (t, more) := F(s, records[i]);
          s := t;
          if !more {
            return;
          }
          i := i + 1;
        }
        if |records| < BATCH {
          WalkStep(rows, Offset + |records|, F, s);
          return;
        }
        Offset := Offset + BATCH;
      } else {
        Done := true;
      }
    }
    WalkStep(rows, |rows|, F, s);
  }

  // ----- what a scan visits -----

  function Fold<S, R>(rows: seq<R>, f: Visitor<S, R>, s: S): S
  {
    if rows == [] then s else Fold(rows[1..], f, f(s, rows[0]).0)
  }

  /** How many rows are visited. */
  function Visits<S, R>(rows: seq<R>, f: Visitor<S, R>, s: S): (n: nat)
    ensures n <= |rows|
    decreases |rows|
  {
    if rows == [] then 0
    else if f(s, rows[0]).1 then 1 + Visits(rows[1..], f, f(s, rows[0]).0)
    else 1
  }

  /** Whether the callback goes on after row k. */
  predicate GoesOn<S, R>(rows: seq<R>, f: Visitor<S, R>, s: S, k: nat)
    requires k < |rows|
  {
    f(Fold(rows[..k], f, s), rows[k]).1
  }

  /** A scan visits a prefix of the rows, each once and in order; all of them, unless the last
      visit is the first to return false. */
  lemma {:induction false} WalkVisitsUpToFirstStop<S, R>(rows: seq<R>, f: Visitor<S, R>, s: S)
    ensures Walk(rows, f, s) == Fold(rows[..Visits(rows, f, s)], f, s)
    ensures forall k :: 0 <= k < Visits(rows, f, s) - 1 ==> GoesOn(rows, f, s, k)
    ensures Visits(rows, f, s) < |rows| ==> Visits(rows, f, s) > 0 && !GoesOn(rows, f, s, Visits(rows, f, s) - 1)
    decreases |rows|
  {
    if rows != [] {
      var rest, t := rows[1..], f(s, rows[0]).0;
      assert rows[..0] == [];
      if f(s, rows[0]).1 {
        WalkVisitsUpToFirstStop(rest, f, t);
        var n := Visits(rows, f, s);
        assert rows[..n][1..] == rest[..n - 1];
        forall k | 1 <= k < |rows| ensures GoesOn(rows, f, s, k) == GoesOn(rest, f, t, k - 1) {
          assert rows[..k][1..] == rest[..k - 1];
        }
      } else {
        assert rows[..1][1..] == [];
      }
    }
  }

  /** A callback that never stops sees every row. */
  lemma {:induction false} WalkIsFold<S, R>(rows: seq<R>, f: Visitor<S, R>, s: S)
    requires forall t: S, r: R :: f(t, r).1
    ensures Walk(rows, f, s) == Fold(rows, f, s)
    decreases |rows|
  {
    if rows != [] {
      WalkIsFold(rows[1..], f, f(s, rows[0]).0);
    }
  }
}
