/** Where clauses that callers put together by hand, with values pasted between quotes as they are, and
    the rows such a clause selects. */
module Clauses {
  import opened Options
  import opened Characters
  import opened Decimals
  import opened SqlText

  function PastedValue(v: Value): string
  {
    if v.Text? then "'" + v.s + "'" else ValueText(v)
  }

  function Pasted(f: string, v: Value): string
  {
    f + "=" + PastedValue(v)
  }

  function OneClause(f: string, v: Value): string
  {
    " " + Pasted(f, v) + " "
  }

  function TwoClause(f: string, v: Value, word: string, g: string, w: Value): string
  {
    " " + Pasted(f, v) + " " + word + " " + Pasted(g, w) + " "
  }

  /** A value that can be pasted: no quote in it. */
  predicate Plain(s: string) { '\'' !in s }

  predicate PlainValue(v: Value) { v.Text? ==> Plain(v.s) }

  // ----- plain values are read back -----

  lemma {:induction false} PlainIsEscaped(s: string)
    ensures Plain(s) ==> Escaped(s) == s
  {
    if s != [] && Plain(s) {
      assert s == [s[0]] + s[1..];
      assert s[0] in s;
      PlainIsEscaped(s[1..]);
    }
  }

  lemma PastedIsPrinted(f: string, v: Value)
    requires PlainValue(v)
    ensures Pasted(f, v) == f + ComparisonText(EQ) + ValueText(v)
  {
    if v.Text? {
      PlainIsEscaped(v.s);
    }
  }

  lemma PastedReadBack(f: string, v: Value, rest: string)
    requires IsFieldName(f) && PlainValue(v)
    ensures Lex(" " + (Pasted(f, v) + (" " + rest))) == Prepend(ComparisonTokens(f, EQ, v), Lex(rest))
  {
    hide Lex, Pasted, ComparisonText, ValueText, ComparisonTokens, IsFieldName;
    PastedIsPrinted(f, v);
    LexSpace(Pasted(f, v) + (" " + rest));
    ComparisonReadBack(f, EQ, v, " " + rest);
    LexSpace(rest);
  }

  lemma AndReadBack(word: string, rest: string)
    requires Lower(word) == "and" && rest != [] && rest[0] == ' '
    ensures Lex(word + rest) == Prepend([And], Lex(rest))
  {
    assert forall i :: 0 <= i < |word| ==> LowerChar(word[i]) == "and"[i];
    assert forall c :: c in word ==> IsLetter(c);
    WordReadBack(word, rest);
    LexStep(word + rest, And, rest);
  }

  lemma OnePlainReadsBack(f: string, v: Value)
    requires IsFieldName(f) && PlainValue(v)
    ensures Read(OneClause(f, v)) == Some(Comparison(f, EQ, v))
  {
    hide Lex, Pasted, ComparisonTokens, IsFieldName, ParseOr, ParsePrimary;
    PastedReadBack(f, v, "");
    assert OneClause(f, v) == " " + (Pasted(f, v) + (" " + ""));
    LexOfNothing();
    var ts := ComparisonTokens(f, EQ, v);
    assert ts + [] == ts;
    PrimaryComparison(f, EQ, v, []);
    WholeText(ts, Comparison(f, EQ, v));
  }

  lemma TwoPlainReadBack(f: string, v: Value, word: string, g: string, w: Value)
    requires IsFieldName(f) && IsFieldName(g) && PlainValue(v) && PlainValue(w) && Lower(word) == "and"
    ensures Read(TwoClause(f, v, word, g, w)) == Some(Both(Comparison(f, EQ, v), Comparison(g, EQ, w)))
  {
    hide Lex, Pasted, ComparisonTokens, IsFieldName, ParseOr, ParseAnd, ParseAndRest, ParseOrRest, ParsePrimary;
    var second := " " + (Pasted(g, w) + (" " + ""));
    PastedReadBack(f, v, word + second);
    AndReadBack(word, second);
    PastedReadBack(g, w, "");
    LexOfNothing();
    assert TwoClause(f, v, word, g, w) == " " + (Pasted(f, v) + (" " + (word + second)));
    var us := ComparisonTokens(g, EQ, w);
    assert us + [] == us;
    var ts := ComparisonTokens(f, EQ, v) + ([And] + us);
    assert Lex(TwoClause(f, v, word, g, w)) == Some(ts);
    TwoParse(f, v, g, w);
  }

  lemma TwoParse(f: string, v: Value, g: string, w: Value)
    ensures ParseOr(ComparisonTokens(f, EQ, v) + ([And] + ComparisonTokens(g, EQ, w))) ==
            Some((Both(Comparison(f, EQ, v), Comparison(g, EQ, w)), []))
  {
    hide ComparisonTokens, ParseOr, ParseAnd, ParseAndRest, ParseOrRest, ParsePrimary;
    var c, e, us := Comparison(f, EQ, v), Comparison(g, EQ, w), ComparisonTokens(g, EQ, w);
    var ts := ComparisonTokens(f, EQ, v) + ([And] + us);
    PrimaryComparison(f, EQ, v, [And] + us);
    PrimaryComparison(g, EQ, w, []);
    assert us + [] == us;
    AndTakes(c, ts, c, [And] + us);
    AndTakes(c, us, e, []);
    AndStops(Both(c, e), []);
    OrTakes(c, ts, Both(c, e), []);
    OrStops(Both(c, e), []);
  }

  // ----- quotes are used up by literals -----

  function Quotes(s: string): nat
  {
    if s == [] then 0 else (if s[0] == '\'' then 1 else 0) + Quotes(s[1..])
  }

  lemma {:induction false} QuotesConcat(a: string, b: string)
    ensures Quotes(a + b) == Quotes(a) + Quotes(b)
  {
    if a == [] {
      assert a + b == b;
    } else {
      assert (a + b)[1..] == a[1..] + b;
      QuotesConcat(a[1..], b);
    }
  }

  lemma {:induction false} NoQuotes(s: string)
    ensures Quotes(s) == 0 <==> Plain(s)
  {
    if s != [] {
      assert s == [s[0]] + s[1..];
      NoQuotes(s[1..]);
    }
  }

  /** How many quotes of a text a token stands for: a literal has one at each end and two for each of
      its own. */
  function TokenWeight(t: Token): nat
  {
    if t.Quoted? then 2 + 2 * Quotes(t.s) else 0
  }

  function Weight(ts: seq<Token>): nat
  {
    if ts == [] then 0 else TokenWeight(ts[0]) + Weight(ts[1..])
  }

  lemma WeightStep(ts: seq<Token>, i: nat)
    requires i < |ts|
    ensures Weight(ts[i..]) == TokenWeight(ts[i]) + Weight(ts[i + 1..])
  {
    assert ts[i..][1..] == ts[i + 1..];
  }

  function ValueWeight(v: Value): nat
  {
    if v.Text? then 2 + 2 * Quotes(v.s) else 0
  }

  function TreeWeight(t: Tree): nat
  {
    match t
    case Comparison(_, _, v) => ValueWeight(v)
    case Both(l, r) => TreeWeight(l) + TreeWeight(r)
    case Either(l, r) => TreeWeight(l) + TreeWeight(r)
  }

  lemma {:induction false} QuotedWeight(s: string)
    ensures var r := QuotedRest(s); r.Some? ==> Quotes(s) == 1 + 2 * Quotes(r.value.0) + Quotes(r.value.1)
    decreases |s|
  {
    if s != [] && s[0] != '\'' {
      QuotedWeight(s[1..]);
      var r := QuotedRest(s[1..]);
      if r.Some? {
        assert ([s[0]] + r.value.0)[1..] == r.value.0;
      }
    } else if |s| > 1 && s[1] == '\'' {
      QuotedWeight(s[2..]);
      assert s[1..][1..] == s[2..];
      var r := QuotedRest(s[2..]);
      if r.Some? {
        assert (['\''] + r.value.0)[1..] == r.value.0;
      }
    }
  }

  lemma SpanHasNoQuotes(s: string, p: char -> bool)
    requires !p('\'')
    ensures Quotes(s) == Quotes(s[Span(s, p)..])
  {
    SpanTakesWhile(s, p);
    var n := Span(s, p);
    assert s == s[..n] + s[n..];
    QuotesConcat(s[..n], s[n..]);
    NoQuotes(s[..n]);
  }

  lemma OneQuoteLess(s: string)
    requires s != []
    ensures Quotes(s) == (if s[0] == '\'' then 1 else 0) + Quotes(s[1..])
    ensures |s| > 1 ==> Quotes(s) == (if s[0] == '\'' then 1 else 0) + (if s[1] == '\'' then 1 else 0) + Quotes(s[2..])
  {
    if |s| > 1 {
      assert s[1..][1..] == s[2..];
    }
  }

  lemma NextTokenWeight(s: string)
    requires s != [] && s[0] != ' '
    ensures var r := NextToken(s); r.Some? ==> Quotes(s) == TokenWeight(r.value.0) + Quotes(r.value.1)
  {
    hide Quotes, Span, QuotedRest, Word, DigitsValue;
    OneQuoteLess(s);
    QuotedWeight(s[1..]);
    SpanHasNoQuotes(s, IsDigit);
    SpanHasNoQuotes(s[1..], IsDigit);
    SpanHasNoQuotes(s, IsNameChar);
    WordIsNoLiteral(s[..Span(s, IsNameChar)]);
  }

  lemma WordIsNoLiteral(w: string)
    ensures !Word(w).Quoted?
  {
  }

  lemma {:induction false} LexWeight(s: string)
    ensures Lex(s).Some? ==> Quotes(s) == Weight(Lex(s).value)
    decreases |s|
  {
    if s != [] && s[0] == ' ' {
      LexWeight(s[1..]);
    } else if s != [] {
      NextTokenWeight(s);
      var r := NextToken(s);
      if r.Some? {
        LexWeight(r.value.1);
        if Lex(r.value.1).Some? {
          assert ([r.value.0] + Lex(r.value.1).value)[1..] == Lex(r.value.1).value;
        }
      }
      hide NextToken;
    }
  }

  lemma {:induction false} PrimaryWeight(ts: seq<Token>)
    ensures var r := ParsePrimary(ts); r.Some? ==> Weight(ts) == TreeWeight(r.value.0) + Weight(r.value.1)
    decreases |ts|, 0
  {
    if ts != [] {
      if ts[0].LParen? {
        OrWeight(ts[1..]);
      } else if |ts| >= 3 {
        WeightStep(ts, 0);
        WeightStep(ts, 1);
        WeightStep(ts, 2);
        assert ts[0..] == ts;
      }
    }
  }

  lemma {:induction false} AndWeight(ts: seq<Token>)
    ensures var r := ParseAnd(ts); r.Some? ==> Weight(ts) == TreeWeight(r.value.0) + Weight(r.value.1)
    decreases |ts|, 1
  {
    PrimaryWeight(ts);
    if ParsePrimary(ts).Some? {
      var (t, rest) := ParsePrimary(ts).value;
      AndRestWeight(t, rest);
    }
  }

  lemma {:induction false} AndRestWeight(left: Tree, ts: seq<Token>)
    ensures var r := ParseAndRest(left, ts);
            r.Some? ==> TreeWeight(left) + Weight(ts) == TreeWeight(r.value.0) + Weight(r.value.1)
    decreases |ts|, 0
  {
    if ts != [] && ts[0].And? {
      PrimaryWeight(ts[1..]);
      if ParsePrimary(ts[1..]).Some? {
        var (t, rest) := ParsePrimary(ts[1..]).value;
        AndRestWeight(Both(left, t), rest);
      }
    }
  }

  lemma {:induction false} OrWeight(ts: seq<Token>)
    ensures var r := ParseOr(ts); r.Some? ==> Weight(ts) == TreeWeight(r.value.0) + Weight(r.value.1)
    decreases |ts|, 2
  {
    AndWeight(ts);
    if ParseAnd(ts).Some? {
      var (t, rest) := ParseAnd(ts).value;
      OrRestWeight(t, rest);
    }
  }

  lemma {:induction false} OrRestWeight(left: Tree, ts: seq<Token>)
    ensures var r := ParseOrRest(left, ts);
            r.Some? ==> TreeWeight(left) + Weight(ts) == TreeWeight(r.value.0) + Weight(r.value.1)
    decreases |ts|, 0
  {
    if ts != [] && ts[0].Or? {
      AndWeight(ts[1..]);
      if ParseAnd(ts[1..]).Some? {
        var (t, rest) := ParseAnd(ts[1..]).value;
        OrRestWeight(Either(left, t), rest);
      }
    }
  }

  /** Every quote of a text that reads back as a condition belongs to a literal of the condition. */
  lemma ReadWeight(text: string)
    ensures Read(text).Some? ==> Quotes(text) == TreeWeight(Read(text).value)
  {
    LexWeight(text);
    if Lex(text).Some? {
      OrWeight(Lex(text).value);
    }
    hide Lex, ParseOr;
  }

  // ----- exactly the plain values are read back -----

  function OwnQuotes(v: Value): nat
  {
    if v.Text? then Quotes(v.s) else 0
  }

  lemma PlainValues(v: Value)
    ensures PlainValue(v) <==> OwnQuotes(v) == 0
    ensures ValueWeight(v) == (if v.Text? then 2 else 0) + 2 * OwnQuotes(v)
  {
    if v.Text? {
      NoQuotes(v.s);
    }
  }

  lemma QuotesOfPasted(f: string, v: Value)
    requires IsFieldName(f)
    ensures Quotes(Pasted(f, v)) == (if v.Text? then 2 else 0) + OwnQuotes(v)
  {
    NoQuotes(f);
    QuotesConcat(f, "=");
    QuotesConcat(f + "=", PastedValue(v));
    if v.Text? {
      QuotesConcat("'", v.s);
      QuotesConcat("'" + v.s, "'");
    } else {
      assert ValueText(v) + "" == ValueText(v);
      ValueReadBack(v, "");
      LexOfNothing();
      LexWeight(ValueText(v));
      assert Weight([ValueToken(v)]) == 0;
    }
  }

  /** A clause on one pasted value says what it is meant to say exactly when the value has no quote. */
  lemma OneClauseExactly(f: string, v: Value)
    requires IsFieldName(f)
    ensures Read(OneClause(f, v)) == Some(Comparison(f, EQ, v)) <==> PlainValue(v)
  {
    PlainValues(v);
    if PlainValue(v) {
      OnePlainReadsBack(f, v);
    } else {
      ReadWeight(OneClause(f, v));
      QuotesOfPasted(f, v);
      QuotesConcat(" ", Pasted(f, v));
      QuotesConcat(" " + Pasted(f, v), " ");
      hide Read, Pasted, ValueWeight, OwnQuotes;
    }
  }

  lemma QuotesOfTwo(f: string, v: Value, word: string, g: string, w: Value)
    requires Lower(word) == "and"
    ensures Quotes(TwoClause(f, v, word, g, w)) == Quotes(Pasted(f, v)) + Quotes(Pasted(g, w))
  {
    assert forall i :: 0 <= i < |word| ==> LowerChar(word[i]) == "and"[i];
    NoQuotes(word);
    hide Pasted;
    QuotesConcat(" ", Pasted(f, v));
    QuotesConcat(" " + Pasted(f, v), " ");
    QuotesConcat(" " + Pasted(f, v) + " ", word);
    QuotesConcat(" " + Pasted(f, v) + " " + word, " ");
    QuotesConcat(" " + Pasted(f, v) + " " + word + " ", Pasted(g, w));
    QuotesConcat(" " + Pasted(f, v) + " " + word + " " + Pasted(g, w), " ");
  }

  /** So does a clause on two. */
  lemma TwoClauseExactly(f: string, v: Value, word: string, g: string, w: Value)
    requires IsFieldName(f) && IsFieldName(g) && Lower(word) == "and"
    ensures Read(TwoClause(f, v, word, g, w)) == Some(Both(Comparison(f, EQ, v), Comparison(g, EQ, w))) <==>
            PlainValue(v) && PlainValue(w)
  {
    PlainValues(v);
    PlainValues(w);
    hide Read, Pasted, ValueWeight, OwnQuotes, TwoClause, Lower, IsFieldName;
    if PlainValue(v) && PlainValue(w) {
      TwoPlainReadBack(f, v, word, g, w);
    } else {
      ReadWeight(TwoClause(f, v, word, g, w));
      QuotesOfPasted(f, v);
      QuotesOfPasted(g, w);
      QuotesOfTwo(f, v, word, g, w);
    }
  }

  // ----- the rows a clause selects -----

  /** What a database makes of the text of a where clause. */
  type Engine<!R> = string -> (R -> bool)

  /** Nothing but tests of columns for a value or below a number, all of which must hold. */
  predicate Tests(t: Tree)
  {
    match t
    case Comparison(_, o, v) => o.EQ? || (o.LT? && v.Int?)
    case Both(l, r) => Tests(l) && Tests(r)
    case Either(_, _) => false
  }

  /** Column names count in lower case. */
  predicate Fits(t: Tree, row: string -> Value)
    requires Tests(t)
  {
    match t
    case Comparison(f, o, v) =>
      if o.EQ? then row(Lower(f)) == v else row(Lower(f)).Int? && row(Lower(f)).n < v.n
    case Both(l, r) => Fits(l, row) && Fits(r, row)
  }

  /** The database selects by what a text says, at least when it says that some columns have some values
      or are below some numbers; about any other text nothing is known. */
  ghost predicate Conforms<R(!new)>(db: Engine<R>, columns: R -> (string -> Value))
  {
    forall text: string, r: R ::
      Read(text).Some? && Tests(Read(text).value) ==> (db(text)(r) <==> Fits(Read(text).value, columns(r)))
  }

  lemma OneClauseSelects<R(!new)>(db: Engine<R>, columns: R -> (string -> Value), f: string, v: Value, r: R)
    requires Conforms(db, columns) && IsFieldName(f) && PlainValue(v)
    ensures db(OneClause(f, v))(r) <==> columns(r)(Lower(f)) == v
  {
    hide Read, OneClause, Lower, Tests, Fits;
    OnePlainReadsBack(f, v);
    OneEquation(f, v, columns(r));
  }

  lemma TwoClauseSelects<R(!new)>(db: Engine<R>, columns: R -> (string -> Value), f: string, v: Value, word: string,
                                  g: string, w: Value, r: R)
    requires Conforms(db, columns) && IsFieldName(f) && IsFieldName(g) && PlainValue(v) && PlainValue(w) &&
             Lower(word) == "and"
    ensures db(TwoClause(f, v, word, g, w))(r) <==> columns(r)(Lower(f)) == v && columns(r)(Lower(g)) == w
  {
    hide Read, TwoClause, Lower, IsFieldName, Tests, Fits;
    TwoPlainReadBack(f, v, word, g, w);
    TwoEquations(f, v, g, w, columns(r));
  }

  lemma TwoEquations(f: string, v: Value, g: string, w: Value, row: string -> Value)
    ensures var t := Both(Comparison(f, EQ, v), Comparison(g, EQ, w));
            Tests(t) && (Fits(t, row) <==> row(Lower(f)) == v && row(Lower(g)) == w)
  {
    hide Lower;
    OneEquation(f, v, row);
    OneEquation(g, w, row);
  }

  lemma OneEquation(f: string, v: Value, row: string -> Value)
    ensures var t := Comparison(f, EQ, v); Tests(t) && (Fits(t, row) <==> row(Lower(f)) == v)
  {
  }

  /** A clause on a number holds no literal. */
  function NumberClause(f: string, n: int): string
  {
    f + " < " + Decimal(n)
  }

  lemma NumberClauseReadsBack(f: string, n: int)
    requires IsFieldName(f)
    ensures Read(NumberClause(f, n)) == Some(Comparison(f, LT, Int(n)))
  {
    NumberClauseTokens(f, n);
    hide Lex, ParseOr, ParsePrimary, ComparisonTokens;
    var ts := ComparisonTokens(f, LT, Int(n));
    assert ts + [] == ts;
    PrimaryComparison(f, LT, Int(n), []);
    WholeText(ts, Comparison(f, LT, Int(n)));
  }

  lemma NumberClauseTokens(f: string, n: int)
    requires IsFieldName(f)
    ensures Lex(NumberClause(f, n)) == Some(ComparisonTokens(f, LT, Int(n)))
  {
    hide Lex, NextToken, ValueText, Lower;
    var d := ValueText(Int(n));
    ValueReadBack(Int(n), "");
    assert d + "" == d;
    LexOfNothing();
    LexSpace(d);
    OpReadBack(LT, " " + d);
    LexSpace("<" + (" " + d));
    var afterName := " " + ("<" + (" " + d));
    WordReadBack(f, afterName);
    LexStep(f + afterName, Name(f), afterName);
    IntText(n);
    assert NumberClause(f, n) == f + afterName;
    assert ComparisonTokens(f, LT, Int(n)) == [Name(f)] + ([Compares(LT)] + ([Number(n)] + []));
  }

  lemma IntText(n: int)
    ensures ValueText(Int(n)) == Decimal(n)
  {
  }

  lemma NumberClauseSelects<R(!new)>(db: Engine<R>, columns: R -> (string -> Value), f: string, n: int, r: R)
    requires Conforms(db, columns) && IsFieldName(f)
    ensures db(NumberClause(f, n))(r) <==> columns(r)(Lower(f)).Int? && columns(r)(Lower(f)).n < n
  {
    hide Read, NumberClause, Lower, Tests, Fits;
    NumberClauseReadsBack(f, n);
    OneBelow(f, n, columns(r));
  }

  lemma OneBelow(f: string, n: int, row: string -> Value)
    ensures var t := Comparison(f, LT, Int(n));
            Tests(t) && (Fits(t, row) <==> row(Lower(f)).Int? && row(Lower(f)).n < n)
  {
  }

  // ----- the texts themselves -----

  lemma OneText(f: string, v: string)
    ensures OneClause(f, Text(v)) == (" " + f + "='") + v + "' "
  {
    hide ValueText;
    assert "'" + " " == "' " && "=" + "'" == "='";
    assert OneClause(f, Text(v)) == " " + (f + "=" + ("'" + v + "'")) + " ";
    assert " " + (f + "=" + ("'" + v + "'")) + " " == (" " + f + ("=" + "'")) + v + ("'" + " ");
  }

  lemma TwoText(f: string, v: string, word: string, g: string, w: Value)
    ensures TwoClause(f, Text(v), word, g, w) ==
            (" " + f + "='") + v + ("' " + word + " " + g + "=") + PastedValue(w) + " "
  {
    OneText(f, v);
    hide ValueText, PastedValue;
    var rest := word + " " + (g + "=" + PastedValue(w)) + " ";
    assert TwoClause(f, Text(v), word, g, w) == OneClause(f, Text(v)) + rest;
    assert rest == (word + " " + g + "=") + PastedValue(w) + " ";
    assert "' " + (word + " " + g + "=") == "' " + word + " " + g + "=";
    var head, tail := (" " + f + "='") + v, PastedValue(w) + " ";
    assert head + "' " + ((word + " " + g + "=") + PastedValue(w) + " ") ==
           head + ("' " + (word + " " + g + "=")) + PastedValue(w) + " ";
  }
}
