/** The statement texts of a table and the numbering of their placeholders. */
module Placeholders {
  import opened Characters
  import opened Decimals

  datatype DBType = sqlite | pgsql | mysql

  /** Items separated by a comma and a space. */
  function Listed(items: seq<string>): string
  {
    if items == [] then "" else if |items| == 1 then items[0] else items[0] + ", " + Listed(items[1..])
  }

  lemma {:induction false} ListedAppend(items: seq<string>, x: string)
    ensures Listed(items + [x]) == if items == [] then x else Listed(items) + ", " + x
  {
    if items == [] {
      assert items + [x] == [x];
    } else {
      assert (items + [x])[1..] == items[1..] + [x];
      ListedAppend(items[1..], x);
      if |items| > 1 {
        var a, b := items[0] + ", ", Listed(items[1..]);
        assert a + (b + ", " + x) == a + b + ", " + x;
      }
    }
  }

  function Selected(fields: seq<string>): (r: seq<string>)
    ensures |r| == |fields|
  {
    seq(|fields|, i requires 0 <= i < |fields| => Lower(fields[i]))
  }

  function Updated(fields: seq<string>): (r: seq<string>)
    ensures |r| == |fields|
  {
    seq(|fields|, i requires 0 <= i < |fields| => Lower(fields[i]) + "=?")
  }

  function Marks(n: nat): seq<string>
  {
    seq(n, _ => "?")
  }

  /** The text with its placeholders numbered from idx on. */
  function Numbered(s: string, idx: nat): string
    decreases s
  {
    if s == [] then []
    else if s[0] == '?' then "$" + Digits(idx) + Numbered(s[1..], idx + 1)
    else [s[0]] + Numbered(s[1..], idx)
  }

  /** Each column name is mapped to the last place it has in the list. */
  ghost predicate Places(m: map<string, nat>, names: seq<string>)
  {
    (forall n :: n in m <==> n in names) &&
    forall n :: n in m ==> m[n] < |names| && names[m[n]] == n && forall i :: m[n] < i < |names| ==> names[i] != n
  }

  lemma PlacesAppend(m: map<string, nat>, names: seq<string>, n: string)
    requires Places(m, names)
    ensures Places(m[n := |names|], names + [n])
  {
  }

  lemma NoColumns(fields: seq<string>)
    ensures Listed(Selected(fields[..0])) == "" && Listed(Updated(fields[..0])) == "" && Listed(Marks(0)) == ""
    ensures Places(map[], Selected(fields[..0]))
  {
  }

  lemma ColumnAppend(fields: seq<string>, k: nat)
    requires k < |fields|
    ensures Selected(fields[..k + 1]) == Selected(fields[..k]) + [Lower(fields[k])]
    ensures Listed(Selected(fields[..k + 1])) ==
            (if k == 0 then "" else Listed(Selected(fields[..k])) + ", ") + Lower(fields[k])
    ensures Listed(Updated(fields[..k + 1])) ==
            (if k == 0 then "" else Listed(Updated(fields[..k])) + ", ") + (Lower(fields[k]) + "=?")
    ensures Listed(Marks(k + 1)) == (if k == 0 then "" else Listed(Marks(k)) + ", ") + "?"
  {
    hide Listed, Lower;
    var before := fields[..k];
    assert fields[..k + 1] == before + [fields[k]];
    assert Selected(fields[..k + 1]) == Selected(before) + [Lower(fields[k])];
    assert Updated(fields[..k + 1]) == Updated(before) + [Lower(fields[k]) + "=?"];
    assert Marks(k + 1) == Marks(k) + ["?"];
    ListedAppend(Selected(before), Lower(fields[k]));
    ListedAppend(Updated(before), Lower(fields[k]) + "=?");
    ListedAppend(Marks(k), "?");
  }

  class DB {
    const tableName: string
    const dbType: DBType
    var SelectFields: string
    var SelectList: string
    var UpdateFields: string
    var FieldNames: map<string, nat>

    constructor (t: DBType, table: string, fields: seq<string>)
      ensures dbType == t && tableName == table
      ensures SelectFields == Listed(Selected(fields))
      ensures UpdateFields == Listed(Updated(fields))
      ensures SelectList == (if fields == [] then "" else "(") + Listed(Marks(|fields|)) + ")"
      ensures Places(FieldNames, Selected(fields))
    {
      dbType, tableName := t, table;
      SelectFields, SelectList, UpdateFields, FieldNames := "", "", "", map[];
      new;
      hide Lower, Listed, Places, Selected, Updated, Marks;
      NoColumns(fields);
      var first, place := true, 0;
      while place < |fields|
        invariant 0 <= place <= |fields| && first == (place == 0)
        invariant dbType == t && tableName == table
        invariant SelectFields == Listed(Selected(fields[..place]))
        invariant UpdateFields == Listed(Updated(fields[..place]))
        invariant SelectList == (if place == 0 then "" else "(") + Listed(Marks(place))
        invariant Places(FieldNames, Selected(fields[..place]))
      {
        var fieldName := Lower(fields[place]);
        ColumnAppend(fields, place);
        PlacesAppend(FieldNames, Selected(fields[..place]), fieldName);
        FieldNames := FieldNames[fieldName := place];
        if !first {
          SelectFields := SelectFields + ", ";
          UpdateFields := UpdateFields + ", ";
          SelectList := SelectList + ", ";
        } else {
          SelectList := SelectList + "(";
        }
        SelectFields := SelectFields + fieldName;
        UpdateFields := UpdateFields + (fieldName + "=?");
        SelectList := SelectList + "?";
        first := false;
        place := place + 1;
      }
      assert fields[..place] == fields;
      SelectList := SelectList + ")";
    }

    /** Placeholders are numbered for PostgreSQL only. */
    method ConvertParams(S: string) returns (R: string)
      ensures R == if dbType != pgsql then S else Numbered(S, 1)
    {
      if dbType != pgsql {
        return S;
      }
      R := "";
      var Idx: nat := 1;
      for i := 0 to |S|
        invariant R + Numbered(S[i..], Idx) == Numbered(S, 1)
      {
        assert S[i..][0] == S[i] && S[i..][1..] == S[i + 1..];
        ghost var before := R;
        if S[i] == '?' {
          R := R + "$";
          R := R + Digits(Idx);
          assert before + ("$" + Digits(Idx) + Numbered(S[i + 1..], Idx + 1)) == R + Numbered(S[i + 1..], Idx + 1);
          Idx := Idx + 1;
        } else {
          R := R + [S[i]];
          assert before + ([S[i]] + Numbered(S[i + 1..], Idx)) == R + Numbered(S[i + 1..], Idx);
        }
      }
    }
  }

  /** The statement that creates a record. */
  function InsertText(table: string, fields: seq<string>): string
  {
    "insert into  " + table + " ( " + Listed(Selected(fields)) + " ) values "
    + ((if fields == [] then "" else "(") + Listed(Marks(|fields|)) + ")")
  }

  /** The statement that updates the records whose `key` has a given value. */
  function UpdateText(table: string, fields: seq<string>, key: string): string
  {
    "update " + table + " set " + Listed(Updated(fields)) + " where " + key + "=?"
  }

  // ----- how many placeholders -----

  function Count(s: string): nat
  {
    if s == [] then 0 else (if s[0] == '?' then 1 else 0) + Count(s[1..])
  }

  lemma {:induction false} CountConcat(a: string, b: string)
    ensures Count(a + b) == Count(a) + Count(b)
  {
    if a == [] {
      assert a + b == b;
    } else {
      assert (a + b)[1..] == a[1..] + b;
      CountConcat(a[1..], b);
    }
  }

  lemma {:induction false} NoMarkNoCount(s: string)
    requires '?' !in s
    ensures Count(s) == 0
  {
    if s != [] {
      NoMarkNoCount(s[1..]);
    }
  }

  lemma {:induction false} CountListed(items: seq<string>, n: nat)
    requires forall i :: 0 <= i < |items| ==> Count(items[i]) == n
    ensures Count(Listed(items)) == n * |items|
  {
    if |items| > 1 {
      CountListed(items[1..], n);
      CountConcat(items[0], ", ");
      CountConcat(items[0] + ", ", Listed(items[1..]));
      NoMarkNoCount(", ");
      assert n * |items| == n + n * |items[1..]|;
    }
  }

  predicate Plain(s: string) { '?' !in s && '$' !in s }

  predicate PlainNames(table: string, fields: seq<string>)
  {
    Plain(table) && forall i :: 0 <= i < |fields| ==> Plain(fields[i])
  }

  lemma LowerIsPlain(s: string)
    requires Plain(s)
    ensures Plain(Lower(s))
  {
    forall c | c in Lower(s) ensures c != '?' && c != '$' {
      var i :| 0 <= i < |s| && Lower(s)[i] == c;
      assert s[i] in s;
    }
  }

  lemma OneMark()
    ensures Count("?") == 1 && Count("=?") == 1
  {
    assert "=?"[1..] == "?" && "?"[1..] == "";
  }

  lemma {:induction false} ListedPlain(items: seq<string>)
    requires forall i :: 0 <= i < |items| ==> Plain(items[i])
    ensures Plain(Listed(items))
  {
    if |items| > 1 {
      ListedPlain(items[1..]);
    }
  }

  lemma InsertCount(table: string, fields: seq<string>)
    requires PlainNames(table, fields)
    ensures Count(InsertText(table, fields)) == |fields|
  {
    forall i | 0 <= i < |fields| ensures Plain(Selected(fields)[i]) {
      LowerIsPlain(fields[i]);
    }
    OneMark();
    ListedPlain(Selected(fields));
    CountListed(Marks(|fields|), 1);
    hide Count, Listed;
    var list, open := Listed(Marks(|fields|)), if fields == [] then "" else "(";
    var head := "insert into  " + table + " ( " + Listed(Selected(fields)) + " ) values ";
    NoMarkNoCount(head);
    NoMarkNoCount(open);
    NoMarkNoCount(")");
    CountConcat(open, list);
    CountConcat(open + list, ")");
    CountConcat(head, open + list + ")");
  }

  lemma UpdateCount(table: string, fields: seq<string>, key: string)
    requires PlainNames(table, fields) && Plain(key)
    ensures Count(UpdateText(table, fields, key)) == |fields| + 1
  {
    OneMark();
    forall i | 0 <= i < |fields| ensures Count(Updated(fields)[i]) == 1 {
      LowerIsPlain(fields[i]);
      CountConcat(Lower(fields[i]), "=?");
      NoMarkNoCount(Lower(fields[i]));
    }
    CountListed(Updated(fields), 1);
    hide Count, Listed;
    var updates, front, where := Listed(Updated(fields)), "update " + table + " set ", " where " + key;
    NoMarkNoCount(front);
    NoMarkNoCount(where);
    CountConcat(front, updates);
    CountConcat(front + updates, where);
    CountConcat(front + updates + where, "=?");
    assert UpdateText(table, fields, key) == front + updates + where + "=?";
  }

  // ----- numbering and back -----

  predicate DigitAhead(s: string) { s != [] && IsDigit(s[0]) }

  /** The numbers of the `$n` in a text, from left to right. */
  function Indices(r: string): seq<nat>
    decreases |r|
  {
    if r == [] then []
    else if r[0] == '$' && DigitAhead(r[1..]) then var (n, rest) := TakeNumber(r[1..]); [n] + Indices(rest)
    else Indices(r[1..])
  }

  /** The text with every `$n` put back to `?`. */
  function Restored(r: string): string
    decreases |r|
  {
    if r == [] then []
    else if r[0] == '$' && DigitAhead(r[1..]) then "?" + Restored(TakeNumber(r[1..]).1)
    else [r[0]] + Restored(r[1..])
  }

  /** No placeholder and no dollar sign is directly followed by a digit. */
  predicate Separated(s: string)
  {
    forall i :: 0 <= i < |s| - 1 && (s[i] == '?' || s[i] == '$') ==> !IsDigit(s[i + 1])
  }

  lemma {:induction false} NumberedDigits(d: string, tail: string, idx: nat)
    requires forall c :: c in d ==> IsDigit(c)
    ensures Numbered(d + tail, idx) == d + Numbered(tail, idx)
  {
    if d == [] {
      assert d + tail == tail;
    } else {
      assert d[0] in d;
      assert (d + tail)[1..] == d[1..] + tail;
      NumberedDigits(d[1..], tail, idx);
      assert d == [d[0]] + d[1..];
    }
  }

  lemma NumberedKeepsDigitAhead(s: string, idx: nat)
    ensures DigitAhead(Numbered(s, idx)) <==> DigitAhead(s)
  {
  }

  /** Behind a placeholder or a dollar sign the digits that follow are taken for its number. */
  lemma RunOfDigits(s: string, idx: nat) returns (m: nat)
    ensures m == Span(s, IsDigit) && (m > 0 <==> DigitAhead(s)) && !DigitAhead(s[m..])
    ensures Numbered(s, idx) == s[..m] + Numbered(s[m..], idx)
    ensures forall c :: c in s[..m] ==> IsDigit(c)
  {
    m := Span(s, IsDigit);
    SpanTakesWhile(s, IsDigit);
    SpanStops(s);
    assert s == s[..m] + s[m..];
    NumberedDigits(s[..m], s[m..], idx);
  }

  lemma {:induction false} SpanStops(s: string)
    ensures !DigitAhead(s[Span(s, IsDigit)..])
  {
    if s != [] && IsDigit(s[0]) {
      SpanStops(s[1..]);
      assert s[1..][Span(s[1..], IsDigit)..] == s[Span(s, IsDigit)..];
    }
  }

  lemma TakeDigits(d: string, rest: string)
    requires d != [] && (forall c :: c in d ==> IsDigit(c)) && !DigitAhead(rest)
    ensures DigitAhead(d + rest) && TakeNumber(d + rest).1 == rest
  {
    assert d[0] in d;
    SpanOfPrefix(d, rest, IsDigit);
    assert (d + rest)[|d|..] == rest;
  }

  lemma RestoredNumber(d: string, tail: string)
    requires d != [] && (forall c :: c in d ==> IsDigit(c)) && !DigitAhead(tail)
    ensures Restored("$" + (d + tail)) == "?" + Restored(tail)
  {
    hide TakeNumber;
    TakeDigits(d, tail);
    var r := "$" + (d + tail);
    assert r[1..] == d + tail;
  }

  lemma NumberedMark(s: string, idx: nat)
    requires s != [] && s[0] == '?'
    ensures Numbered(s, idx) == "$" + Digits(idx) + Numbered(s[1..], idx + 1)
  {
    hide Digits;
  }

  lemma NumberAndRun(d: string, run: string, tail: string)
    ensures "$" + d + (run + tail) == "$" + ((d + run) + tail)
  {
  }

  lemma RestoreMark(s: string, idx: nat, m: nat)
    requires s != [] && s[0] == '?'
    requires m <= |s[1..]| && !DigitAhead(s[1..][m..])
    requires Numbered(s[1..], idx + 1) == s[1..][..m] + Numbered(s[1..][m..], idx + 1)
    requires forall c :: c in s[1..][..m] ==> IsDigit(c)
    ensures Restored(Numbered(s, idx)) == "?" + Restored(Numbered(s[1..][m..], idx + 1))
  {
    hide TakeNumber, Digits, Span, Numbered, Restored;
    var run, tail := s[1..][..m], Numbered(s[1..][m..], idx + 1);
    NumberedKeepsDigitAhead(s[1..][m..], idx + 1);
    NumberedMark(s, idx);
    NumberAndRun(Digits(idx), run, tail);
    RestoredNumber(Digits(idx) + run, tail);
  }

  lemma RestoreDollar(s: string, idx: nat, m: nat)
    requires s != [] && s[0] == '$'
    requires m <= |s[1..]| && !DigitAhead(s[1..][m..]) && (m > 0 <==> DigitAhead(s[1..]))
    requires Numbered(s[1..], idx) == s[1..][..m] + Numbered(s[1..][m..], idx)
    requires forall c :: c in s[1..][..m] ==> IsDigit(c)
    ensures Restored(Numbered(s, idx)) == (if m > 0 then "?" else "$") + Restored(Numbered(s[1..][m..], idx))
  {
    var d, tail := s[1..][..m], Numbered(s[1..][m..], idx);
    NumberedKeepsDigitAhead(s[1..][m..], idx);
    var r := Numbered(s, idx);
    assert r[1..] == d + tail;
    if m > 0 {
      TakeDigits(d, tail);
    } else {
      assert d + tail == tail;
    }
  }

  lemma RestoreOrdinary(s: string, idx: nat)
    requires s != [] && s[0] != '?' && s[0] != '$'
    ensures Restored(Numbered(s, idx)) == [s[0]] + Restored(Numbered(s[1..], idx))
  {
    assert Numbered(s, idx)[1..] == Numbered(s[1..], idx);
  }

  lemma SeparatedTail(s: string, m: nat)
    requires s != [] && m <= |s[1..]|
    requires m == 0 || ((s[0] == '?' || s[0] == '$') && DigitAhead(s[1..]))
    ensures m == 0 && !((s[0] == '?' || s[0] == '$') && DigitAhead(s[1..])) ==>
            (Separated(s) <==> Separated(s[1..][m..]))
    ensures m == 0 && Separated(s) ==> Separated(s[1..])
    ensures (s[0] == '?' || s[0] == '$') && DigitAhead(s[1..]) ==> !Separated(s)
  {
    var t := s[1..];
    assert t[0..] == t;
    forall i | 0 <= i < |t| - 1 && (t[i] == '?' || t[i] == '$') && Separated(s) ensures !IsDigit(t[i + 1]) {
      assert s[i + 1] == t[i];
    }
    if m == 0 && Separated(t) && !((s[0] == '?' || s[0] == '$') && DigitAhead(t)) {
      forall i | 0 <= i < |s| - 1 && (s[i] == '?' || s[i] == '$') ensures !IsDigit(s[i + 1]) {
        if i > 0 {
          assert t[i - 1] == s[i];
        }
      }
    }
  }

  predicate NumberAhead(s: string)
  {
    s != [] && (s[0] == '?' || s[0] == '$') && DigitAhead(s[1..])
  }

  /** The first character comes back as itself, or as `?` together with the m digits behind it. */
  lemma RestoreStep(s: string, idx: nat) returns (m: nat, x: char, next: nat)
    requires s != []
    ensures m <= |s[1..]| && (m > 0 <==> NumberAhead(s)) && (m == 0 ==> x == s[0])
    ensures Restored(Numbered(s, idx)) == [x] + Restored(Numbered(s[1..][m..], next))
  {
    hide Restored, Numbered;
    next := if s[0] == '?' then idx + 1 else idx;
    if s[0] == '?' {
      m := RunOfDigits(s[1..], next);
      RestoreMark(s, idx, m);
      x := '?';
    } else if s[0] == '$' {
      m := RunOfDigits(s[1..], next);
      RestoreDollar(s, idx, m);
      x := if m > 0 then '?' else '$';
    } else {
      RestoreOrdinary(s, idx);
      assert s[1..][0..] == s[1..];
      m, x := 0, s[0];
    }
  }

  /** Putting `?` back restores a text exactly when none of its placeholders and dollar signs is
      directly followed by a digit. */
  lemma {:induction false} NumberingIsReversible(s: string, idx: nat)
    ensures Restored(Numbered(s, idx)) == s <==> Separated(s)
    ensures |Restored(Numbered(s, idx))| <= |s|
    decreases |s|
  {
    if s != [] {
      var m, x, next := RestoreStep(s, idx);
      var tail := s[1..][m..];
      NumberingIsReversible(tail, next);
      SeparatedTail(s, m);
      hide Restored, Numbered, Separated, DigitAhead;
      var r := Restored(Numbered(tail, next));
      assert Restored(Numbered(s, idx)) == [x] + r;
      if m == 0 {
        assert tail == s[1..] && s == [x] + tail;
        assert ([x] + r)[1..] == r;
      } else {
        assert |[x] + r| < |s|;
      }
    }
  }

  function UpFrom(idx: nat, n: nat): seq<nat>
  {
    seq(n, i => idx + i)
  }

  lemma IndicesStep(s: string, idx: nat)
    requires s != [] && (s[0] == '?' || s[0] == '$' ==> !DigitAhead(s[1..]))
    ensures Indices(Numbered(s, idx)) ==
            if s[0] == '?' then [idx] + Indices(Numbered(s[1..], idx + 1)) else Indices(Numbered(s[1..], idx))
  {
    hide TakeNumber, Digits;
    var t, r := s[1..], Numbered(s, idx);
    NumberedKeepsDigitAhead(t, idx);
    NumberedKeepsDigitAhead(t, idx + 1);
    if s[0] == '?' {
      var tail := Numbered(t, idx + 1);
      NumberReadBack(idx, tail);
      assert r[1..] == Digits(idx) + tail;
      assert Digits(idx)[0] in Digits(idx);
    } else {
      assert r[1..] == Numbered(t, idx);
    }
  }

  /** The placeholders are numbered idx, idx + 1, ... from left to right. */
  lemma {:induction false} NumberingIsInOrder(s: string, idx: nat)
    requires Separated(s)
    ensures Indices(Numbered(s, idx)) == UpFrom(idx, Count(s))
    decreases |s|
  {
    if s != [] {
      hide Indices, Numbered, UpFrom, Separated;
      var t := s[1..];
      SeparatedTail(s, 0);
      assert t[0..] == t;
      NumberingIsInOrder(t, if s[0] == '?' then idx + 1 else idx);
      IndicesStep(s, idx);
      UpFromStep(idx, Count(t));
    }
  }

  lemma UpFromStep(idx: nat, n: nat)
    ensures UpFrom(idx, n + 1) == [idx] + UpFrom(idx + 1, n)
  {
  }

  // ----- the two statements -----

  lemma SeparatedConcat(a: string, b: string)
    requires Separated(a) && Separated(b)
    requires a == [] || b == [] || !IsDigit(b[0]) || (a[|a| - 1] != '?' && a[|a| - 1] != '$')
    ensures Separated(a + b)
  {
    var s := a + b;
    forall i | 0 <= i < |s| - 1 && (s[i] == '?' || s[i] == '$') ensures !IsDigit(s[i + 1]) {
      if i >= |a| {
        assert b[i - |a|] == s[i] && b[i + 1 - |a|] == s[i + 1];
      }
    }
  }

  lemma PlainIsSeparated(s: string)
    requires Plain(s)
    ensures Separated(s)
  {
  }

  lemma {:induction false} ListedIsSeparated(items: seq<string>)
    requires forall i :: 0 <= i < |items| ==> Separated(items[i])
    ensures Separated(Listed(items))
  {
    if |items| > 1 {
      ListedIsSeparated(items[1..]);
      SeparatedConcat(items[0], ", ");
      SeparatedConcat(items[0] + ", ", Listed(items[1..]));
    }
  }

  lemma InsertIsSeparated(table: string, fields: seq<string>)
    requires PlainNames(table, fields)
    ensures Separated(InsertText(table, fields))
  {
    forall i | 0 <= i < |fields| ensures Plain(Selected(fields)[i]) {
      LowerIsPlain(fields[i]);
    }
    ListedPlain(Selected(fields));
    ListedIsSeparated(Marks(|fields|));
    hide Listed, Separated, Lower, Marks, Selected;
    var list, open := Listed(Marks(|fields|)), if fields == [] then "" else "(";
    var head := "insert into  " + table + " ( " + Listed(Selected(fields)) + " ) values ";
    PlainIsSeparated(head);
    PlainIsSeparated(open);
    PlainIsSeparated(")");
    SeparatedConcat(open, list);
    SeparatedConcat(open + list, ")");
    SeparatedConcat(head, open + list + ")");
  }

  lemma UpdateIsSeparated(table: string, fields: seq<string>, key: string)
    requires PlainNames(table, fields) && Plain(key)
    ensures Separated(UpdateText(table, fields, key))
  {
    MarkIsSeparated();
    forall i | 0 <= i < |fields| ensures Separated(Updated(fields)[i]) {
      LowerIsPlain(fields[i]);
      SeparatedConcat(Lower(fields[i]), "=?");
    }
    ListedIsSeparated(Updated(fields));
    hide Listed, Separated;
    var updates, front, where := Listed(Updated(fields)), "update " + table + " set ", " where " + key;
    PlainIsSeparated(front);
    PlainIsSeparated(where);
    SeparatedConcat(front, updates);
    SeparatedConcat(front + updates, where);
    SeparatedConcat(front + updates + where, "=?");
    assert UpdateText(table, fields, key) == front + updates + where + "=?";
  }

  lemma MarkIsSeparated()
    ensures Separated("=?")
  {
  }

  /** Both statements are numbered $1 to $k from left to right, one placeholder for each field and
      one more for the key of an update, and nothing else in them changes. */
  lemma StatementsAreNumbered(table: string, fields: seq<string>, key: string)
    requires PlainNames(table, fields) && Plain(key)
    ensures Indices(Numbered(InsertText(table, fields), 1)) == UpFrom(1, |fields|)
    ensures Indices(Numbered(UpdateText(table, fields, key), 1)) == UpFrom(1, |fields| + 1)
    ensures Restored(Numbered(InsertText(table, fields), 1)) == InsertText(table, fields)
    ensures Restored(Numbered(UpdateText(table, fields, key), 1)) == UpdateText(table, fields, key)
  {
    InsertIsSeparated(table, fields);
    UpdateIsSeparated(table, fields, key);
    InsertCount(table, fields);
    UpdateCount(table, fields, key);
    NumberingIsInOrder(InsertText(table, fields), 1);
    NumberingIsInOrder(UpdateText(table, fields, key), 1);
    NumberingIsReversible(InsertText(table, fields), 1);
    NumberingIsReversible(UpdateText(table, fields, key), 1);
  }

  /** What a create or an update sends to the database driver. */
  method PrepareStatements(db: DB, fields: seq<string>, key: string) returns (insert: string, update: string)
    requires db.SelectFields == Listed(Selected(fields)) && db.UpdateFields == Listed(Updated(fields))
    requires db.SelectList == (if fields == [] then "" else "(") + Listed(Marks(|fields|)) + ")"
    ensures insert == var s := InsertText(db.tableName, fields); if db.dbType == pgsql then Numbered(s, 1) else s
    ensures update == var s := UpdateText(db.tableName, fields, key); if db.dbType == pgsql then Numbered(s, 1) else s
  {
    insert := db.ConvertParams("insert into  " + db.tableName + " ( " + db.SelectFields + " ) values " + db.SelectList);
    update := db.ConvertParams("update " + db.tableName + " set " + db.UpdateFields + " where " + key + "=?");
  }

  // ----- the statements, piece by piece -----

  /** The items of a list, between the commas that are followed by a space. */
  function Items(s: string): seq<string>
    decreases |s|
  {
    var k := FirstOf(s, ',');
    if k + 1 < |s| && s[k + 1] == ' ' then [s[..k]] + Items(s[k + 2..]) else [s]
  }

  lemma {:induction false} FirstComma(a: string, rest: string)
    requires ',' !in a
    ensures FirstOf(a + "," + rest, ',') == |a| && FirstOf(a, ',') == |a|
  {
    if a != [] {
      assert a == [a[0]] + a[1..] && a[0] in a;
      assert (a + "," + rest)[1..] == a[1..] + "," + rest;
      FirstComma(a[1..], rest);
    }
  }

  lemma FirstItem(a: string, rest: string)
    requires ',' !in a
    ensures Items(a) == [a] && Items(a + ", " + rest) == [a] + Items(rest)
  {
    FirstComma(a, " " + rest);
    assert a + ", " + rest == a + "," + (" " + rest);
    var s := a + ", " + rest;
    assert s[|a| + 1] == ' ' && s[..|a|] == a && s[|a| + 2..] == rest;
    hide FirstOf;
  }

  lemma {:induction false} ItemsOfList(items: seq<string>)
    requires items != [] && forall i :: 0 <= i < |items| ==> ',' !in items[i]
    ensures Items(Listed(items)) == items
  {
    hide Items;
    if |items| == 1 {
      FirstItem(items[0], "");
    } else {
      ItemsOfList(items[1..]);
      FirstItem(items[0], Listed(items[1..]));
      assert items == [items[0]] + items[1..];
    }
  }

  lemma LowerHasNoComma(s: string)
    requires ',' !in s
    ensures ',' !in Lower(s)
  {
    forall i | 0 <= i < |Lower(s)| ensures Lower(s)[i] != ',' {
      assert s[i] in s;
    }
  }

  /** The insert statement names the table, then the columns in the order of the fields, and has as many
      placeholders as there are columns. */
  lemma InsertReadsBack(table: string, fields: seq<string>)
    requires fields != [] && forall i :: 0 <= i < |fields| ==> ',' !in fields[i]
    ensures exists columns: string, values: string ::
              InsertText(table, fields) == "insert into  " + table + " ( " + columns + " ) values (" + values + ")" &&
              |Items(columns)| == |Items(values)| == |fields| &&
              (forall i :: 0 <= i < |fields| ==> Items(columns)[i] == Lower(fields[i])) &&
              forall i :: 0 <= i < |fields| ==> Items(values)[i] == "?"
  {
    var columns, values := Listed(Selected(fields)), Listed(Marks(|fields|));
    hide Lower, Listed, Items;
    forall i | 0 <= i < |fields| ensures ',' !in Selected(fields)[i] {
      LowerHasNoComma(fields[i]);
    }
    ItemsOfList(Selected(fields));
    ItemsOfList(Marks(|fields|));
    assert InsertText(table, fields) == "insert into  " + table + " ( " + columns + " ) values (" + values + ")";
  }

  /** The update statement names the table, then each column in the order of the fields with a placeholder
      of its own, and last the key with its placeholder. */
  lemma UpdateReadsBack(table: string, fields: seq<string>, key: string)
    requires fields != [] && forall i :: 0 <= i < |fields| ==> ',' !in fields[i]
    ensures exists columns: string ::
              UpdateText(table, fields, key) == "update " + table + " set " + columns + " where " + key + "=?" &&
              |Items(columns)| == |fields| &&
              forall i :: 0 <= i < |fields| ==> Items(columns)[i] == Lower(fields[i]) + "=?"
  {
    var columns := Listed(Updated(fields));
    hide Lower, Listed, Items;
    forall i | 0 <= i < |fields| ensures ',' !in Updated(fields)[i] {
      LowerHasNoComma(fields[i]);
    }
    ItemsOfList(Updated(fields));
    assert UpdateText(table, fields, key) == "update " + table + " set " + columns + " where " + key + "=?";
  }
}
