/** Conditions printed as SQL text, and the reading of that text under the rules of
    ISO/IEC 9075:1992: character literals (section 5.3) and AND before OR (section 8.12). */
module SqlText {
  import opened Characters
  import opened Decimals
  import opened Options

  datatype SqlComparison = EQ | NEQ | LT | LTE | GT | GTE
  datatype SqlBinaryOp = AND | OR
  datatype Value = Bool(b: bool) | Int(n: int) | Text(s: string)

  // ----- the printer -----

  function Escaped(s: string): string
  {
    if s == [] then [] else (if s[0] == '\'' then "''" else [s[0]]) + Escaped(s[1..])
  }

  lemma {:induction false} EscapedAppend(s: string, c: char)
    ensures Escaped(s + [c]) == Escaped(s) + (if c == '\'' then "''" else [c])
  {
    if s == [] {
      assert s + [c] == [c];
    } else {
      assert (s + [c])[1..] == s[1..] + [c];
      EscapedAppend(s[1..], c);
    }
  }

  /** Doubles every quote of S. */
  method Escape(S: string) returns (R: string)
    ensures R == Escaped(S)
  {
    R := "";
    for i := 0 to |S|
      invariant R == Escaped(S[..i])
    {
      assert S[..i + 1] == S[..i] + [S[i]];
      EscapedAppend(S[..i], S[i]);
      if S[i] == '\'' {
        R := R + "''";
      } else {
        R := R + [S[i]];
      }
    }
    assert S[..|S|] == S;
  }

  function ComparisonText(o: SqlComparison): string
  {
    match o
    case EQ => "="
    case NEQ => "!="
    case LT => "<"
    case LTE => "<="
    case GT => ">"
    case GTE => ">="
  }

  function BinaryOpText(b: SqlBinaryOp): string
  {
    if b.AND? then " and " else " or "
  }

  function ValueText(v: Value): (s: string)
    ensures s != [] && s[0] != ' ' && s[0] != '=' && s[0] != '>'
  {
    match v
    case Bool(b) => if b then "true" else "false"
    case Int(n) => Decimal(n)
    case Text(s) => "'" + Escaped(s) + "'"
  }

  /** The arguments of a variadic call after the first operand. */
  datatype Others<T> = Last(bop: SqlBinaryOp, operand: T) | More(bop: SqlBinaryOp, operand: T, others: Others<T>)

  function OpComparison(field: string, o: SqlComparison, v: Value): string
  {
    "(" + field + ComparisonText(o) + ValueText(v) + ")"
  }

  /** The overloads that carry on an already opened parenthesis. */
  function OpOpened(p1: string, rest: Others<string>): string
    decreases rest
  {
    match rest
    case Last(bop, p2) => p1 + BinaryOpText(bop) + p2 + ")"
    case More(bop, p2, more) => p1 + BinaryOpText(bop) + OpOpened(p2, more) + ")"
  }

  /** The two-operand overload and the variadic one. */
  function Op(p1: string, rest: Others<string>): string
  {
    match rest
    case Last(bop, p2) => "(" + p1 + BinaryOpText(bop) + p2 + ")"
    case More(bop, p2, more) => "(" + p1 + BinaryOpText(bop) + OpOpened(p2, more)
  }

  /** A nest of calls: comparisons, combined by calls with two or more operands. */
  datatype Cond = Compare(field: string, op: SqlComparison, value: Value) | Logic(first: Cond, rest: Others<Cond>)

  function Print(c: Cond): string
  {
    match c
    case Compare(f, o, v) => OpComparison(f, o, v)
    case Logic(p, rest) => Op(Print(p), PrintOthers(rest))
  }

  function PrintOthers(o: Others<Cond>): Others<string>
  {
    match o
    case Last(bop, p) => Last(bop, Print(p))
    case More(bop, p, more) => More(bop, Print(p), PrintOthers(more))
  }

  // ----- the reader: tokens -----

  datatype Token =
    | LParen | RParen | And | Or | True | False
    | Name(name: string) | Compares(op: SqlComparison) | Number(n: int) | Quoted(s: string)

  predicate IsLetter(c: char) { 'a' <= c <= 'z' || 'A' <= c <= 'Z' }

  predicate IsNameChar(c: char) { IsLetter(c) || IsDigit(c) || c == '_' }

  /** Reserved words are recognised in either case. */
  function Word(w: string): Token
  {
    var l := Lower(w);
    if l == "and" then And else if l == "or" then Or
    else if l == "true" then True else if l == "false" then False
    else Name(w)
  }

  /** A regular identifier that is no reserved word. */
  predicate IsFieldName(f: string)
  {
    f != [] && IsLetter(f[0]) && (forall c :: c in f ==> IsNameChar(c)) && Word(f) == Name(f)
  }

  /** The rest of a character literal: two quotes stand for one, a single quote ends it. */
  function QuotedRest(s: string): (r: Option<(string, string)>)
    ensures r.Some? ==> |r.value.1| < |s|
  {
    if s == [] then None
    else if s[0] != '\'' then
      match QuotedRest(s[1..])
      case None => None
      case Some((v, rest)) => Some(([s[0]] + v, rest))
    else if |s| > 1 && s[1] == '\'' then
      match QuotedRest(s[2..])
      case None => None
      case Some((v, rest)) => Some((['\''] + v, rest))
    else Some(("", s[1..]))
  }

  function TakeWord(s: string): (r: (Token, string))
    requires s != [] && IsLetter(s[0])
    ensures |r.1| < |s|
  {
    var n := Span(s, IsNameChar);
    (Word(s[..n]), s[n..])
  }

  function NextToken(s: string): (r: Option<(Token, string)>)
    requires s != [] && s[0] != ' '
    ensures r.Some? ==> |r.value.1| < |s|
  {
    var c, next := s[0], if |s| > 1 then s[1] else ' ';
    if c == '(' then Some((LParen, s[1..]))
    else if c == ')' then Some((RParen, s[1..]))
    else if c == '\'' then
      match QuotedRest(s[1..])
      case None => None
      case Some((v, rest)) => Some((Quoted(v), rest))
    else if c == '=' then Some((Compares(EQ), s[1..]))
    else if c == '!' then if next == '=' then Some((Compares(NEQ), s[2..])) else None
    else if c == '<' then
      if next == '=' then Some((Compares(LTE), s[2..]))
      else if next == '>' then Some((Compares(NEQ), s[2..]))
      else Some((Compares(LT), s[1..]))
    else if c == '>' then if next == '=' then Some((Compares(GTE), s[2..])) else Some((Compares(GT), s[1..]))
    else if c == '-' then
      if IsDigit(next) then var t := TakeNumber(s[1..]); Some((Number(0 - t.0), t.1)) else None
    else if IsDigit(c) then var t := TakeNumber(s); Some((Number(t.0), t.1))
    else if IsLetter(c) then Some(TakeWord(s))
    else None
  }

  function Prepend(ts: seq<Token>, o: Option<seq<Token>>): Option<seq<Token>>
  {
    if o.Some? then Some(ts + o.value) else None
  }

  function Lex(s: string): Option<seq<Token>>
    decreases |s|
  {
    if s == [] then Some([])
    else if s[0] == ' ' then Lex(s[1..])
    else
      match NextToken(s)
      case None => None
      case Some((t, rest)) => Prepend([t], Lex(rest))
  }

  // ----- the reader: search conditions -----

  datatype Tree =
    | Comparison(field: string, op: SqlComparison, value: Value)
    | Both(l: Tree, r: Tree)
    | Either(l: Tree, r: Tree)

  /** Opening minus closing parentheses. */
  function Balance(ts: seq<Token>): int
  {
    if ts == [] then 0 else Balance(ts[1..]) + if ts[0].LParen? then 1 else if ts[0].RParen? then -1 else 0
  }

  function TokenValue(t: Token): Option<Value>
  {
    match t
    case True => Some(Bool(true))
    case False => Some(Bool(false))
    case Number(n) => Some(Int(n))
    case Quoted(s) => Some(Text(s))
    case _ => None
  }

  function ParsePrimary(ts: seq<Token>): (r: Option<(Tree, seq<Token>)>)
    ensures r.Some? ==> |r.value.1| < |ts| && Balance(r.value.1) == Balance(ts)
    decreases |ts|, 0
  {
    if ts == [] then None
    else if ts[0].LParen? then
      match ParseOr(ts[1..])
      case None => None
      case Some((t, rest)) => if rest != [] && rest[0].RParen? then Some((t, rest[1..])) else None
    else if |ts| >= 3 && ts[0].Name? && ts[1].Compares? && TokenValue(ts[2]).Some? then
      assert Balance(ts) == Balance(ts[1..]) == Balance(ts[1..][1..]) == Balance(ts[1..][1..][1..]);
      assert ts[1..][1..][1..] == ts[3..];
      Some((Comparison(ts[0].name, ts[1].op, TokenValue(ts[2]).value), ts[3..]))
    else None
  }

  function ParseAnd(ts: seq<Token>): (r: Option<(Tree, seq<Token>)>)
    ensures r.Some? ==> |r.value.1| < |ts| && Balance(r.value.1) == Balance(ts)
    decreases |ts|, 1
  {
    match ParsePrimary(ts)
    case None => None
    case Some((t, rest)) => ParseAndRest(t, rest)
  }

  function ParseAndRest(left: Tree, ts: seq<Token>): (r: Option<(Tree, seq<Token>)>)
    ensures r.Some? ==> |r.value.1| <= |ts| && Balance(r.value.1) == Balance(ts)
    decreases |ts|, 0
  {
    if ts == [] || !ts[0].And? then Some((left, ts))
    else
      match ParsePrimary(ts[1..])
      case None => None
      case Some((t, rest)) => ParseAndRest(Both(left, t), rest)
  }

  function ParseOr(ts: seq<Token>): (r: Option<(Tree, seq<Token>)>)
    ensures r.Some? ==> |r.value.1| < |ts| && Balance(r.value.1) == Balance(ts)
    decreases |ts|, 2
  {
    match ParseAnd(ts)
    case None => None
    case Some((t, rest)) => ParseOrRest(t, rest)
  }

  function ParseOrRest(left: Tree, ts: seq<Token>): (r: Option<(Tree, seq<Token>)>)
    ensures r.Some? ==> |r.value.1| <= |ts| && Balance(r.value.1) == Balance(ts)
    decreases |ts|, 0
  {
    if ts == [] || !ts[0].Or? then Some((left, ts))
    else
      match ParseAnd(ts[1..])
      case None => None
      case Some((t, rest)) => ParseOrRest(Either(left, t), rest)
  }

  /** The condition a whole text stands for, if it is one. */
  function Read(text: string): Option<Tree>
  {
    match Lex(text)
    case None => None
    case Some(ts) =>
      match ParseOr(ts)
      case None => None
      case Some((t, rest)) => if rest == [] then Some(t) else None
  }

  // ----- what a nest of calls is meant to say -----

  predicate WellNamed(c: Cond)
  {
    match c
    case Compare(f, _, _) => IsFieldName(f)
    case Logic(p, rest) => WellNamed(p) && WellNamedOthers(rest)
  }

  predicate WellNamedOthers(o: Others<Cond>)
  {
    WellNamed(o.operand) && (o.More? ==> WellNamedOthers(o.others))
  }

  /** Every call combines two or three operands. */
  predicate Short(c: Cond)
  {
    match c
    case Compare(_, _, _) => true
    case Logic(p, rest) => Short(p) && ShortOthers(rest) && (rest.More? ==> rest.others.Last?)
  }

  predicate ShortOthers(o: Others<Cond>)
  {
    Short(o.operand) && (o.More? ==> ShortOthers(o.others))
  }

  function Join(bop: SqlBinaryOp, l: Tree, r: Tree): Tree
  {
    if bop.AND? then Both(l, r) else Either(l, r)
  }

  /** Two operands are joined; of three, AND binds first and equal operators group to the left. */
  function Meaning(c: Cond): Tree
    requires Short(c)
  {
    match c
    case Compare(f, o, v) => Comparison(f, o, v)
    case Logic(p, rest) =>
      match rest
      case Last(b, q) =>
        assert ShortOthers(rest);
        Join(b, Meaning(p), Meaning(q))
      case More(b1, q, last) =>
        assert ShortOthers(rest) && ShortOthers(last);
        if b1.OR? && last.bop.AND? then Either(Meaning(p), Both(Meaning(q), Meaning(last.operand)))
        else Join(last.bop, Join(b1, Meaning(p), Meaning(q)), Meaning(last.operand))
  }

  // ----- reading back literals, names and numbers -----

  /** The literal printed for a value ends at its own closing quote and nowhere else. */
  lemma {:induction false} LiteralEndsAtItsOwnQuote(v: string, rest: string)
    requires rest == [] || rest[0] != '\''
    ensures QuotedRest(Escaped(v) + "'" + rest) == Some((v, rest))
  {
    var s := Escaped(v) + "'" + rest;
    if v == [] {
      assert s[1..] == rest;
    } else {
      LiteralEndsAtItsOwnQuote(v[1..], rest);
      var tail := Escaped(v[1..]) + "'" + rest;
      assert v == [v[0]] + v[1..];
      if v[0] == '\'' {
        assert s == "''" + tail;
        assert s[2..] == tail;
      } else {
        assert s == [v[0]] + tail;
        assert s[1..] == tail;
      }
    }
  }

  /** Distinct values print as distinct literals. */
  lemma EscapeIsInjective(a: string, b: string)
    requires Escaped(a) == Escaped(b)
    ensures a == b
  {
    LiteralEndsAtItsOwnQuote(a, "");
    LiteralEndsAtItsOwnQuote(b, "");
  }

  lemma WordReadBack(w: string, rest: string)
    requires w != [] && IsLetter(w[0]) && (forall c :: c in w ==> IsNameChar(c))
    requires rest == [] || !IsNameChar(rest[0])
    ensures NextToken(w + rest) == Some((Word(w), rest))
  {
    SpanOfPrefix(w, rest, IsNameChar);
    assert (w + rest)[..|w|] == w && (w + rest)[|w|..] == rest;
  }

  function ValueToken(v: Value): Token
  {
    match v
    case Bool(b) => if b then True else False
    case Int(n) => Number(n)
    case Text(s) => Quoted(s)
  }

  /** What follows a printed value in a condition. */
  predicate Delimited(rest: string)
  {
    rest == [] || rest[0] == ')' || rest[0] == ' '
  }

  lemma LexStep(s: string, t: Token, rest: string)
    requires s != [] && s[0] != ' ' && NextToken(s) == Some((t, rest))
    ensures Lex(s) == Prepend([t], Lex(rest))
  {
  }

  lemma LexSpace(rest: string)
    ensures Lex(" " + rest) == Lex(rest)
  {
    assert (" " + rest)[1..] == rest;
  }

  lemma IntReadBack(n: int, rest: string)
    requires Delimited(rest)
    ensures NextToken(Decimal(n) + rest) == Some((Number(n), rest))
  {
    hide TakeNumber, Digits;
    if n < 0 {
      var d := Digits(-n) + rest;
      NumberReadBack(-n, rest);
      assert d[0] in Digits(-n);
      var s := "-" + d;
      assert Decimal(n) + rest == s;
      assert s[1..] == d && s[1] == d[0];
    } else {
      var d := Digits(n) + rest;
      NumberReadBack(n, rest);
      assert d[0] in Digits(n);
    }
  }

  lemma ReservedWords()
    ensures Word("true") == True && Word("false") == False && Word("and") == And && Word("or") == Or
  {
    assert Lower("true") == "true" && Lower("false") == "false";
    assert Lower("and") == "and" && Lower("or") == "or";
  }

  lemma TextReadBack(t: string, rest: string)
    requires Delimited(rest)
    ensures NextToken("'" + Escaped(t) + "'" + rest) == Some((Quoted(t), rest))
  {
    hide Escaped, QuotedRest;
    LiteralEndsAtItsOwnQuote(t, rest);
    var s := "'" + Escaped(t) + "'" + rest;
    assert s[1..] == Escaped(t) + "'" + rest;
  }

  lemma ValueReadBack(v: Value, rest: string)
    requires Delimited(rest)
    ensures Lex(ValueText(v) + rest) == Prepend([ValueToken(v)], Lex(rest))
  {
    hide Lex, NextToken, Word;
    var s := ValueText(v) + rest;
    match v
    case Bool(b) =>
      ReservedWords();
      WordReadBack(ValueText(v), rest);
      LexStep(s, ValueToken(v), rest);
    case Int(n) =>
      IntReadBack(n, rest);
      LexStep(s, ValueToken(v), rest);
    case Text(t) =>
      TextReadBack(t, rest);
      LexStep(s, ValueToken(v), rest);
  }

  function ComparisonTokens(f: string, o: SqlComparison, v: Value): seq<Token>
  {
    [Name(f), Compares(o), ValueToken(v)]
  }

  /** `field`, comparison and value read back as the three tokens they were printed from. */
  lemma ComparisonReadBack(f: string, o: SqlComparison, v: Value, rest: string)
    requires IsFieldName(f) && Delimited(rest)
    ensures Lex(f + ComparisonText(o) + ValueText(v) + rest) == Prepend(ComparisonTokens(f, o, v), Lex(rest))
  {
    hide Lex, ValueText, NextToken, ComparisonText, Lower;
    var afterOp := ValueText(v) + rest;
    var afterName := ComparisonText(o) + afterOp;
    ValueReadBack(v, rest);
    OpReadBack(o, afterOp);
    WordReadBack(f, afterName);
    LexStep(f + afterName, Name(f), afterName);
    assert f + ComparisonText(o) + ValueText(v) + rest == f + afterName;
    PrependTwice([Compares(o)], [ValueToken(v)], Lex(rest));
    PrependTwice([Name(f)], [Compares(o)] + [ValueToken(v)], Lex(rest));
    assert ComparisonTokens(f, o, v) == [Name(f)] + ([Compares(o)] + [ValueToken(v)]);
  }

  lemma OpReadBack(o: SqlComparison, rest: string)
    requires rest != [] && rest[0] != '=' && rest[0] != '>'
    ensures Lex(ComparisonText(o) + rest) == Prepend([Compares(o)], Lex(rest))
    ensures !IsNameChar((ComparisonText(o) + rest)[0])
  {
    hide Lex;
    var s := ComparisonText(o) + rest;
    assert s[|ComparisonText(o)|..] == rest;
    assert s[1] == (ComparisonText(o) + rest)[1];
    LexStep(s, Compares(o), rest);
  }

  lemma PrependTwice(a: seq<Token>, b: seq<Token>, o: Option<seq<Token>>)
    ensures Prepend(a, Prepend(b, o)) == Prepend(a + b, o)
  {
    if o.Some? {
      assert a + (b + o.value) == (a + b) + o.value;
    }
  }

  lemma BinaryOpReadBack(b: SqlBinaryOp, rest: string)
    ensures Lex(BinaryOpText(b) + rest) == Prepend([BinaryOpToken(b)], Lex(rest))
  {
    var w := if b.AND? then "and" else "or";
    assert BinaryOpText(b) + rest == " " + (w + (" " + rest));
    LexSpace(w + (" " + rest));
    WordReadBack(w, " " + rest);
    ReservedWords();
    LexStep(w + (" " + rest), BinaryOpToken(b), " " + rest);
    LexSpace(rest);
  }

  // ----- the tokens of a printed nest -----

  function BinaryOpToken(b: SqlBinaryOp): Token
  {
    if b.AND? then And else Or
  }

  function OpenedTokens(p1: seq<Token>, rest: Others<seq<Token>>): seq<Token>
    decreases rest
  {
    match rest
    case Last(b, p2) => p1 + [BinaryOpToken(b)] + p2 + [RParen]
    case More(b, p2, more) => p1 + [BinaryOpToken(b)] + OpenedTokens(p2, more) + [RParen]
  }

  function LogicTokens(p1: seq<Token>, rest: Others<seq<Token>>): seq<Token>
  {
    match rest
    case Last(b, p2) => [LParen] + OpenedTokens(p1, rest)
    case More(b, p2, more) => [LParen] + p1 + [BinaryOpToken(b)] + OpenedTokens(p2, more)
  }

  function TokensOf(c: Cond): seq<Token>
  {
    match c
    case Compare(f, o, v) => [LParen] + ComparisonTokens(f, o, v) + [RParen]
    case Logic(p, rest) => LogicTokens(TokensOf(p), TokensOfOthers(rest))
  }

  function TokensOfOthers(o: Others<Cond>): Others<seq<Token>>
  {
    match o
    case Last(b, p) => Last(b, TokensOf(p))
    case More(b, p, more) => More(b, TokensOf(p), TokensOfOthers(more))
  }

  lemma ParenReadBack(rest: string)
    ensures Lex("(" + rest) == Prepend([LParen], Lex(rest))
    ensures Lex(")" + rest) == Prepend([RParen], Lex(rest))
  {
    assert ("(" + rest)[1..] == rest && (")" + rest)[1..] == rest;
  }

  function Size(c: Cond): nat
  {
    match c
    case Compare(_, _, _) => 1
    case Logic(p, rest) => 1 + Size(p) + SizeOthers(rest)
  }

  function SizeOthers(o: Others<Cond>): nat
  {
    1 + Size(o.operand) + if o.More? then SizeOthers(o.others) else 0
  }

  lemma ConcatFour<T>(a: seq<T>, b: seq<T>, c: seq<T>, d: seq<T>, rest: seq<T>)
    ensures a + b + c + d + rest == a + (b + (c + (d + rest)))
  {
  }

  /** Four pieces of text, each read back in front of what follows it, are read back together. */
  lemma LexFour(a: string, ta: seq<Token>, b: string, tb: seq<Token>, c: string, tc: seq<Token>,
                d: string, td: seq<Token>, rest: string)
    requires Lex(a + (b + (c + (d + rest)))) == Prepend(ta, Lex(b + (c + (d + rest))))
    requires Lex(b + (c + (d + rest))) == Prepend(tb, Lex(c + (d + rest)))
    requires Lex(c + (d + rest)) == Prepend(tc, Lex(d + rest))
    requires Lex(d + rest) == Prepend(td, Lex(rest))
    ensures Lex(a + b + c + d + rest) == Prepend(ta + tb + tc + td, Lex(rest))
  {
    hide Lex;
    ConcatFour(a, b, c, d, rest);
    PrependFour(ta, tb, tc, td, Lex(rest));
  }

  /** The lexer undoes the printer, for arbitrary values inside the literals and any text behind. */
  lemma {:induction false} LexPrint(c: Cond, rest: string)
    requires WellNamed(c)
    ensures Lex(Print(c) + rest) == Prepend(TokensOf(c), Lex(rest))
    decreases Size(c)
  {
    hide Lex, TokensOf, Print, OpOpened, OpenedTokens;
    match c
    case Compare(f, o, v) =>
      LexComparison(f, o, v, rest);
      PrintOfComparison(f, o, v);
    case Logic(p, Last(b, q)) =>
      LexOpened(p, c.rest, rest);
      LexLogicOfTwo(p, b, q, rest);
    case Logic(p, More(b, q, more)) =>
      assert Size(c) == 1 + Size(p) + SizeOthers(More(b, q, more));
      LexOpened(q, more, rest);
      LexPrint(p, BinaryOpText(b) + (OpOpened(Print(q), PrintOthers(more)) + rest));
      LexLogicOfMore(p, b, q, more, rest);
  }

  lemma PrintOfComparison(f: string, o: SqlComparison, v: Value)
    ensures Print(Compare(f, o, v)) == OpComparison(f, o, v)
    ensures TokensOf(Compare(f, o, v)) == [LParen] + ComparisonTokens(f, o, v) + [RParen]
  {
  }

  lemma ConcatFront(a: string, b: string, c: string, d: string, e: string)
    ensures a + b + c + d + e == a + (b + c + d + e)
  {
  }

  lemma PrintOfTwo(p: Cond, b: SqlBinaryOp, q: Cond)
    ensures Print(Logic(p, Last(b, q))) == "(" + OpOpened(Print(p), PrintOthers(Last(b, q)))
    ensures TokensOf(Logic(p, Last(b, q))) == [LParen] + OpenedTokens(TokensOf(p), TokensOfOthers(Last(b, q)))
  {
    PrintOfLast(b, q);
    PrintOfLogic(p, Last(b, q));
    hide Print, TokensOf, PrintOthers, TokensOfOthers, BinaryOpText;
    ConcatFront("(", Print(p), BinaryOpText(b), Print(q), ")");
  }

  lemma PrintOfLogic(p: Cond, o: Others<Cond>)
    ensures Print(Logic(p, o)) == Op(Print(p), PrintOthers(o))
    ensures TokensOf(Logic(p, o)) == LogicTokens(TokensOf(p), TokensOfOthers(o))
  {
  }

  lemma PrintOfMore(b: SqlBinaryOp, q: Cond, more: Others<Cond>)
    ensures PrintOthers(More(b, q, more)) == More(b, Print(q), PrintOthers(more))
    ensures TokensOfOthers(More(b, q, more)) == More(b, TokensOf(q), TokensOfOthers(more))
  {
  }

  lemma PrintOfLast(b: SqlBinaryOp, q: Cond)
    ensures PrintOthers(Last(b, q)) == Last(b, Print(q))
    ensures TokensOfOthers(Last(b, q)) == Last(b, TokensOf(q))
  {
  }

  lemma LexLogicOfTwo(p: Cond, b: SqlBinaryOp, q: Cond, rest: string)
    requires Lex(OpOpened(Print(p), PrintOthers(Last(b, q))) + rest) ==
             Prepend(OpenedTokens(TokensOf(p), TokensOfOthers(Last(b, q))), Lex(rest))
    ensures Lex(Print(Logic(p, Last(b, q))) + rest) == Prepend(TokensOf(Logic(p, Last(b, q))), Lex(rest))
  {
    PrintOfTwo(p, b, q);
    hide Lex, Print, TokensOf, OpOpened, OpenedTokens;
    var s, ts := OpOpened(Print(p), PrintOthers(Last(b, q))), OpenedTokens(TokensOf(p), TokensOfOthers(Last(b, q)));
    LexParenthesis(s, ts, rest);
  }

  lemma LexLogicOfMore(p: Cond, b: SqlBinaryOp, q: Cond, more: Others<Cond>, rest: string)
    requires var s := OpOpened(Print(q), PrintOthers(more));
             && Lex(s + rest) == Prepend(OpenedTokens(TokensOf(q), TokensOfOthers(more)), Lex(rest))
             && Lex(Print(p) + (BinaryOpText(b) + (s + rest))) ==
                 Prepend(TokensOf(p), Lex(BinaryOpText(b) + (s + rest)))
    ensures Lex(Print(Logic(p, More(b, q, more))) + rest) == Prepend(TokensOf(Logic(p, More(b, q, more))), Lex(rest))
  {
    PrintOfLogic(p, More(b, q, more));
    PrintOfMore(b, q, more);
    hide Lex, Print, TokensOf, PrintOthers, TokensOfOthers, OpOpened, OpenedTokens, BinaryOpText;
    var s, ts := OpOpened(Print(q), PrintOthers(more)), OpenedTokens(TokensOf(q), TokensOfOthers(more));
    BinaryOpReadBack(b, s + rest);
    ParenReadBack(Print(p) + (BinaryOpText(b) + (s + rest)));
    LexFour("(", [LParen], Print(p), TokensOf(p), BinaryOpText(b), [BinaryOpToken(b)], s, ts, rest);
  }

  lemma LexParenthesis(s: string, ts: seq<Token>, rest: string)
    requires Lex(s + rest) == Prepend(ts, Lex(rest))
    ensures Lex("(" + s + rest) == Prepend([LParen] + ts, Lex(rest))
  {
    hide Lex;
    ParenReadBack(s + rest);
    assert "(" + s + rest == "(" + (s + rest);
    PrependTwice([LParen], ts, Lex(rest));
  }

  lemma ComparisonInParentheses(f: string, o: SqlComparison, v: Value, rest: string)
    ensures OpComparison(f, o, v) + rest == "(" + (f + ComparisonText(o) + ValueText(v) + (")" + rest))
  {
    hide ComparisonText, ValueText;
    ConcatFour("(", f, ComparisonText(o), ValueText(v), ")" + rest);
    assert OpComparison(f, o, v) + rest == "(" + f + ComparisonText(o) + ValueText(v) + (")" + rest);
    ConcatThree(f, ComparisonText(o), ValueText(v), ")" + rest);
  }

  lemma ConcatThree<T>(a: seq<T>, b: seq<T>, c: seq<T>, rest: seq<T>)
    ensures a + b + c + rest == a + (b + (c + rest))
  {
  }

  lemma LexComparison(f: string, o: SqlComparison, v: Value, rest: string)
    requires IsFieldName(f)
    ensures Lex(OpComparison(f, o, v) + rest) == Prepend([LParen] + ComparisonTokens(f, o, v) + [RParen], Lex(rest))
  {
    hide Lex, OpComparison, ComparisonText, ValueText, ComparisonTokens;
    var inner := f + ComparisonText(o) + ValueText(v) + (")" + rest);
    ComparisonInParentheses(f, o, v, rest);
    ParenReadBack(inner);
    ParenReadBack(rest);
    ComparisonReadBack(f, o, v, ")" + rest);
    PrependTwice(ComparisonTokens(f, o, v), [RParen], Lex(rest));
    PrependTwice([LParen], ComparisonTokens(f, o, v) + [RParen], Lex(rest));
    assert [LParen] + (ComparisonTokens(f, o, v) + [RParen]) == [LParen] + ComparisonTokens(f, o, v) + [RParen];
  }

  lemma PrependFour(a: seq<Token>, b: seq<Token>, c: seq<Token>, d: seq<Token>, o: Option<seq<Token>>)
    ensures Prepend(a, Prepend(b, Prepend(c, Prepend(d, o)))) == Prepend(a + b + c + d, o)
  {
    PrependTwice(c, d, o);
    PrependTwice(b, c + d, o);
    PrependTwice(a, b + (c + d), o);
    assert a + (b + (c + d)) == a + b + c + d;
  }

  lemma {:induction false} LexOpened(p: Cond, o: Others<Cond>, rest: string)
    requires WellNamed(p) && WellNamedOthers(o)
    ensures Lex(OpOpened(Print(p), PrintOthers(o)) + rest) ==
            Prepend(OpenedTokens(TokensOf(p), TokensOfOthers(o)), Lex(rest))
    decreases Size(p) + SizeOthers(o)
  {
    hide Lex;
    var b, t := BinaryOpText(o.bop), [BinaryOpToken(o.bop)];
    var s, ts;
    if o.Last? {
      s, ts := Print(o.operand), TokensOf(o.operand);
      LexPrint(o.operand, ")" + rest);
    } else {
      s, ts := OpOpened(Print(o.operand), PrintOthers(o.others)),
          OpenedTokens(TokensOf(o.operand), TokensOfOthers(o.others));
      LexOpened(o.operand, o.others, ")" + rest);
    }
    ParenReadBack(rest);
    BinaryOpReadBack(o.bop, s + (")" + rest));
    LexPrint(p, b + (s + (")" + rest)));
    LexFour(Print(p), TokensOf(p), b, t, s, ts, ")", [RParen], rest);
  }

  // ----- the parser undoes the printer -----

  lemma AndStops(t: Tree, ts: seq<Token>)
    requires ts == [] || !ts[0].And?
    ensures ParseAndRest(t, ts) == Some((t, ts))
  {
  }

  lemma OrStops(t: Tree, ts: seq<Token>)
    requires ts == [] || !ts[0].Or?
    ensures ParseOrRest(t, ts) == Some((t, ts))
  {
  }

  lemma AndTakes(l: Tree, ts: seq<Token>, t: Tree, rest: seq<Token>)
    requires ParsePrimary(ts) == Some((t, rest))
    ensures ParseAndRest(l, [And] + ts) == ParseAndRest(Both(l, t), rest)
    ensures ParseAnd(ts) == ParseAndRest(t, rest)
  {
    assert ([And] + ts)[1..] == ts;
  }

  lemma OrTakes(l: Tree, ts: seq<Token>, t: Tree, rest: seq<Token>)
    requires ParseAnd(ts) == Some((t, rest))
    ensures ParseOrRest(l, [Or] + ts) == ParseOrRest(Either(l, t), rest)
    ensures ParseOr(ts) == ParseOrRest(t, rest)
  {
    assert ([Or] + ts)[1..] == ts;
  }

  lemma TwoOperands(t1: Tree, b: SqlBinaryOp, t2: Tree, ts1: seq<Token>, ts2: seq<Token>, close: seq<Token>)
    requires ParsePrimary(ts1) == Some((t1, [BinaryOpToken(b)] + ts2))
    requires ParsePrimary(ts2) == Some((t2, close))
    requires close != [] && close[0].RParen?
    ensures ParseOr(ts1) == Some((Join(b, t1, t2), close))
  {
    hide ParsePrimary, ParseAnd, ParseOr, ParseAndRest, ParseOrRest;
    AndTakes(t1, ts1, t1, [BinaryOpToken(b)] + ts2);
    AndTakes(t1, ts2, t2, close);
    OrStops(Join(b, t1, t2), close);
    if b.AND? {
      AndStops(Both(t1, t2), close);
      OrTakes(t1, ts1, Both(t1, t2), close);
    } else {
      AndStops(t1, [BinaryOpToken(b)] + ts2);
      AndStops(t2, close);
      OrTakes(t1, ts1, t1, [Or] + ts2);
      OrTakes(t1, ts2, t2, close);
    }
  }

  lemma ThreeOperands(t1: Tree, b1: SqlBinaryOp, t2: Tree, b2: SqlBinaryOp, t3: Tree,
                      ts1: seq<Token>, ts2: seq<Token>, ts3: seq<Token>, close: seq<Token>)
    requires ParsePrimary(ts1) == Some((t1, [BinaryOpToken(b1)] + ts2))
    requires ParsePrimary(ts2) == Some((t2, [BinaryOpToken(b2)] + ts3))
    requires ParsePrimary(ts3) == Some((t3, close))
    requires close != [] && close[0].RParen?
    ensures ParseOr(ts1) ==
            Some((if b1.OR? && b2.AND? then Either(t1, Both(t2, t3)) else Join(b2, Join(b1, t1, t2), t3), close))
  {
    hide ParsePrimary, ParseAnd, ParseOr, ParseAndRest, ParseOrRest;
    var u1, u2 := [BinaryOpToken(b1)] + ts2, [BinaryOpToken(b2)] + ts3;
    AndTakes(t1, ts1, t1, u1);
    AndTakes(t1, ts2, t2, u2);
    AndTakes(t2, ts3, t3, close);
    AndStops(t3, close);
    if b1.AND? {
      var both := Both(t1, t2);
      if b2.AND? {
        AndTakes(both, ts3, t3, close);
        AndStops(Both(both, t3), close);
        OrTakes(t1, ts1, Both(both, t3), close);
        OrStops(Both(both, t3), close);
      } else {
        AndStops(both, u2);
        OrTakes(t1, ts1, both, u2);
        OrTakes(both, ts3, t3, close);
        OrStops(Either(both, t3), close);
      }
    } else {
      AndStops(t1, u1);
      OrTakes(t1, ts1, t1, u1);
      if b2.AND? {
        AndStops(Both(t2, t3), close);
        OrTakes(t1, ts2, Both(t2, t3), close);
        OrStops(Either(t1, Both(t2, t3)), close);
      } else {
        AndStops(t2, u2);
        OrTakes(t1, ts2, t2, u2);
        OrTakes(Either(t1, t2), ts3, t3, close);
        OrStops(Either(Either(t1, t2), t3), close);
      }
    }
  }

  lemma InParentheses(ts: seq<Token>, t: Tree, rest: seq<Token>)
    requires ParseOr(ts) == Some((t, [RParen] + rest))
    ensures ParsePrimary([LParen] + ts) == Some((t, rest))
  {
    hide ParseOr;
    assert ([LParen] + ts)[1..] == ts && ([RParen] + rest)[1..] == rest;
  }

  lemma PrimaryComparison(f: string, o: SqlComparison, v: Value, rest: seq<Token>)
    ensures ParsePrimary(ComparisonTokens(f, o, v) + rest) == Some((Comparison(f, o, v), rest))
  {
    hide ParseAnd, ParseOr, ParseAndRest, ParseOrRest;
    var ts := ComparisonTokens(f, o, v) + rest;
    assert ts[3..] == rest && ts[2] == ValueToken(v);
    assert TokenValue(ValueToken(v)) == Some(v);
  }

  lemma ParseComparison(f: string, o: SqlComparison, v: Value, rest: seq<Token>)
    requires rest != [] && rest[0].RParen?
    ensures ParseOr(ComparisonTokens(f, o, v) + rest) == Some((Comparison(f, o, v), rest))
  {
    hide ParsePrimary, ParseAnd, ParseOr, ParseAndRest, ParseOrRest;
    var ts, t := ComparisonTokens(f, o, v) + rest, Comparison(f, o, v);
    PrimaryComparison(f, o, v, rest);
    AndTakes(t, ts, t, rest);
    AndStops(t, rest);
    OrTakes(t, ts, t, rest);
    OrStops(t, rest);
  }

  /** An arbitrary nest of two- and three-operand calls is parsed back as the condition it is
      meant to say, up to its own closing parenthesis. */
  lemma {:induction false} ParsePrint(c: Cond, rest: seq<Token>)
    requires Short(c)
    ensures ParsePrimary(TokensOf(c) + rest) == Some((Meaning(c), rest))
    decreases c
  {
    hide ParsePrimary, ParseOr, TokensOf;
    var close := [RParen] + rest;
    match c
    case Compare(f, o, v) =>
      ParseComparison(f, o, v, close);
      InParentheses(ComparisonTokens(f, o, v) + close, Meaning(c), rest);
      TokensOfComparison(f, o, v, rest);
    case Logic(p, Last(b, q)) =>
      var ts2 := TokensOf(q) + close;
      var ts1 := TokensOf(p) + ([BinaryOpToken(b)] + ts2);
      ParsePrint(q, close);
      ParsePrint(p, [BinaryOpToken(b)] + ts2);
      TwoOperands(Meaning(p), b, Meaning(q), ts1, ts2, close);
      InParentheses(ts1, Meaning(c), rest);
      TokensOfTwo(p, b, q, rest);
    case Logic(p, More(b1, q, last)) =>
      ThirdOperandIsShort(c);
      ParsePrintThree(c, p, b1, q, last.bop, last.operand, rest);
  }

  lemma TokensOfComparison(f: string, o: SqlComparison, v: Value, rest: seq<Token>)
    ensures TokensOf(Compare(f, o, v)) + rest == [LParen] + (ComparisonTokens(f, o, v) + ([RParen] + rest))
  {
  }

  lemma TokensOfTwo(p: Cond, b: SqlBinaryOp, q: Cond, rest: seq<Token>)
    ensures TokensOf(Logic(p, Last(b, q))) + rest ==
            [LParen] + (TokensOf(p) + ([BinaryOpToken(b)] + (TokensOf(q) + ([RParen] + rest))))
  {
    var o, last := Last(b, q), Last(b, TokensOf(q));
    assert TokensOfOthers(o) == last;
    assert TokensOf(Logic(p, o)) == LogicTokens(TokensOf(p), last);
    hide TokensOf, TokensOfOthers, LogicTokens;
    LogicTokensOfTwo(TokensOf(p), b, TokensOf(q), rest);
  }

  lemma LogicTokensOfTwo(x: seq<Token>, b: SqlBinaryOp, y: seq<Token>, rest: seq<Token>)
    ensures LogicTokens(x, Last(b, y)) + rest == [LParen] + (x + ([BinaryOpToken(b)] + (y + ([RParen] + rest))))
  {
    var inner := x + [BinaryOpToken(b)] + y + [RParen];
    assert OpenedTokens(x, Last(b, y)) == inner;
    hide OpenedTokens;
    ConcatFour(x, [BinaryOpToken(b)], y, [RParen], rest);
    ConcatTwo([LParen], inner, rest);
  }

  lemma ConcatTwo<T>(a: seq<T>, b: seq<T>, rest: seq<T>)
    ensures a + b + rest == a + (b + rest)
  {
  }

  lemma TokensOfThree(p: Cond, b1: SqlBinaryOp, q: Cond, b2: SqlBinaryOp, r: Cond, rest: seq<Token>)
    ensures TokensOf(Logic(p, More(b1, q, Last(b2, r)))) + rest ==
            [LParen] + (TokensOf(p) + ([BinaryOpToken(b1)] + (TokensOf(q) +
              ([BinaryOpToken(b2)] + (TokensOf(r) + ([RParen] + rest))))))
  {
    var o := More(b1, q, Last(b2, r));
    var last := Last(b2, TokensOf(r));
    assert TokensOfOthers(Last(b2, r)) == last;
    assert TokensOfOthers(o) == More(b1, TokensOf(q), last);
    assert TokensOf(Logic(p, o)) == LogicTokens(TokensOf(p), More(b1, TokensOf(q), last));
    hide TokensOf, TokensOfOthers;
    var inner := TokensOf(q) + [BinaryOpToken(b2)] + TokensOf(r) + [RParen];
    assert OpenedTokens(TokensOf(q), last) == inner;
    ConcatFour(TokensOf(q), [BinaryOpToken(b2)], TokensOf(r), [RParen], rest);
    ConcatFour([LParen], TokensOf(p), [BinaryOpToken(b1)], inner, rest);
  }

  lemma ThirdOperandIsShort(c: Cond)
    requires Short(c) && c.Logic? && c.rest.More?
    ensures c.rest.others.Last? && Short(c.first) && Short(c.rest.operand) && Short(c.rest.others.operand)
  {
    assert ShortOthers(c.rest) && ShortOthers(c.rest.others);
  }

  lemma {:induction false} ParsePrintThree(c: Cond, p: Cond, b1: SqlBinaryOp, q: Cond, b2: SqlBinaryOp, r: Cond,
                                           rest: seq<Token>)
    requires c == Logic(p, More(b1, q, Last(b2, r))) && Short(c) && Short(p) && Short(q) && Short(r)
    ensures ParsePrimary(TokensOf(c) + rest) == Some((Meaning(c), rest))
    decreases c, 0
  {
    hide ParsePrimary, ParseOr, TokensOf;
    var close := [RParen] + rest;
    var ts3 := TokensOf(r) + close;
    var ts2 := TokensOf(q) + ([BinaryOpToken(b2)] + ts3);
    var ts1 := TokensOf(p) + ([BinaryOpToken(b1)] + ts2);
    ParsePrint(r, close);
    ParsePrint(q, [BinaryOpToken(b2)] + ts3);
    ParsePrint(p, [BinaryOpToken(b1)] + ts2);
    ThreeOperands(Meaning(p), b1, Meaning(q), b2, Meaning(r), ts1, ts2, ts3, close);
    InParentheses(ts1, Meaning(c), rest);
    TokensOfThree(p, b1, q, b2, r, rest);
  }

  // ----- calls with four or more operands are not balanced -----

  lemma {:induction false} BalanceConcat(a: seq<Token>, b: seq<Token>)
    ensures Balance(a + b) == Balance(a) + Balance(b)
  {
    if a == [] {
      assert a + b == b;
    } else {
      assert (a + b)[1..] == a[1..] + b;
      BalanceConcat(a[1..], b);
    }
  }

  lemma BalanceOfComparison(f: string, o: SqlComparison, v: Value)
    ensures Balance([LParen] + ComparisonTokens(f, o, v) + [RParen]) == 0
  {
    var ts := ComparisonTokens(f, o, v);
    assert ts[1..][1..][1..] == [] && ts[1..][1..] == [ValueToken(v)];
    assert Balance(ts) == Balance(ts[1..]) == Balance(ts[1..][1..]) == 0;
    BalanceConcat([LParen], ts);
    BalanceConcat([LParen] + ts, [RParen]);
  }

  /** How many closing parentheses the calls of a nest print too many. */
  function Surplus(c: Cond): nat
  {
    match c
    case Compare(_, _, _) => 0
    case Logic(p, rest) => Surplus(p) + SurplusOthers(rest) + if rest.More? then Count(rest) - 2 else 0
  }

  function SurplusOthers(o: Others<Cond>): nat
  {
    Surplus(o.operand) + if o.More? then SurplusOthers(o.others) else 0
  }

  function Count<T>(o: Others<T>): (n: nat)
    ensures o.More? ==> n >= 2
  {
    if o.Last? then 1 else 1 + Count(o.others)
  }

  /** A call with n operands opens one parenthesis and closes max(1, n - 2). */
  lemma {:induction false} ParenthesesPrinted(c: Cond)
    ensures Balance(TokensOf(c)) == 0 - Surplus(c)
    decreases c, 0
  {
    match c
    case Compare(f, o, v) =>
      BalanceOfComparison(f, o, v);
    case Logic(p, o) =>
      ParenthesesPrinted(p);
      if o.Last? {
        OpenedParentheses(TokensOf(p), o);
        BalanceConcat([LParen], OpenedTokens(TokensOf(p), TokensOfOthers(o)));
      } else {
        ParenthesesPrinted(o.operand);
        OpenedParentheses(TokensOf(o.operand), o.others);
        var t, u := TokensOf(p), [BinaryOpToken(o.bop)];
        BalanceConcat([LParen], t);
        BalanceConcat([LParen] + t, u);
        BalanceConcat([LParen] + t + u, OpenedTokens(TokensOf(o.operand), TokensOfOthers(o.others)));
      }
  }

  lemma {:induction false} OpenedParentheses(p: seq<Token>, o: Others<Cond>)
    ensures Balance(OpenedTokens(p, TokensOfOthers(o))) == Balance(p) - SurplusOthers(o) - Count(o)
    decreases o, 1
  {
    var u := [BinaryOpToken(o.bop)];
    ParenthesesPrinted(o.operand);
    var inner := if o.Last? then TokensOf(o.operand) else OpenedTokens(TokensOf(o.operand), TokensOfOthers(o.others));
    if o.More? {
      OpenedParentheses(TokensOf(o.operand), o.others);
    }
    BalanceConcat(p, u);
    BalanceConcat(p + u, inner);
    BalanceConcat(p + u + inner, [RParen]);
  }

  lemma {:induction false} SurplusMeansLong(c: Cond)
    ensures Surplus(c) == 0 <==> Short(c)
    decreases c
  {
    if c.Logic? {
      SurplusMeansLong(c.first);
      SurplusMeansLongOthers(c.rest);
      if c.rest.More? {
        assert Count(c.rest) == 1 + Count(c.rest.others);
      }
    }
  }

  lemma {:induction false} SurplusMeansLongOthers(o: Others<Cond>)
    ensures SurplusOthers(o) == 0 <==> ShortOthers(o)
    decreases o
  {
    SurplusMeansLong(o.operand);
    if o.More? {
      SurplusMeansLongOthers(o.others);
    }
  }

  // ----- main results -----

  /** Any nest of calls on any values reads back as exactly the condition it is meant to say when
      no call has more than three operands; otherwise the text is no condition at all. */
  lemma ReadBack(c: Cond)
    requires WellNamed(c)
    ensures Read(Print(c)) == if Short(c) then Some(Meaning(c)) else None
  {
    hide Lex, ParseOr, TokensOf, Print;
    LexPrint(c, "");
    assert Print(c) + "" == Print(c) && TokensOf(c) + [] == TokensOf(c);
    LexOfNothing();
    var ts := TokensOf(c);
    if Short(c) {
      ParsePrint(c, []);
      WholeText(ts, Meaning(c));
    } else {
      SurplusMeansLong(c);
      ParenthesesPrinted(c);
      assert Balance([]) == 0;
    }
  }

  lemma LexOfNothing()
    ensures Lex("") == Some([])
  {
  }

  lemma WholeText(ts: seq<Token>, t: Tree)
    requires ParsePrimary(ts) == Some((t, []))
    ensures ParseOr(ts) == Some((t, []))
  {
    AndTakes(t, ts, t, []);
    AndStops(t, []);
    OrTakes(t, ts, t, []);
    OrStops(t, []);
  }

  /** Two nests that print the same text say the same thing, or neither of them prints a condition. */
  lemma PrintIsUnambiguous(a: Cond, b: Cond)
    requires WellNamed(a) && WellNamed(b) && Print(a) == Print(b)
    ensures Short(a) <==> Short(b)
    ensures Short(a) ==> Meaning(a) == Meaning(b)
  {
    ReadBack(a);
    ReadBack(b);
  }

  // ----- the variadic conjunction -----

  function Equality(a: (string, Value)): string
  {
    a.0 + "=" + ValueText(a.1)
  }

  /** The text already printed, followed by the equalities for the arguments that are not empty. */
  function WhereAnd_(result: string, args: seq<(string, Value)>): string
    decreases args
  {
    if args == [] then result
    else if args[0].1 == Text("") then WhereAnd_(result, args[1..])
    else WhereAnd_((if result == [] then "" else result + " and ") + Equality(args[0]), args[1..])
  }

  function WhereAnd(args: seq<(string, Value)>): string
  {
    WhereAnd_("", args)
  }

  function Given(args: seq<(string, Value)>): seq<(string, Value)>
  {
    if args == [] then [] else (if args[0].1 == Text("") then [] else [args[0]]) + Given(args[1..])
  }

  /** Exactly the empty strings are left out, and the rest keeps its order. */
  lemma {:induction false} GivenAreNotEmpty(a: seq<(string, Value)>, b: seq<(string, Value)>)
    ensures Given(a + b) == Given(a) + Given(b)
    ensures |a| == 1 ==> Given(a) == if a[0].1 == Text("") then [] else a
  {
    if a == [] {
      assert a + b == b;
    } else {
      assert (a + b)[1..] == a[1..] + b;
      GivenAreNotEmpty(a[1..], b);
    }
  }

  function Conjunction(t: Tree, args: seq<(string, Value)>): Tree
    decreases args
  {
    if args == [] then t else Conjunction(Both(t, Comparison(args[0].0, EQ, args[0].1)), args[1..])
  }

  function Tail(args: seq<(string, Value)>): (s: string)
    ensures Delimited(s)
  {
    if args == [] then "" else " and " + (Equality(args[0]) + Tail(args[1..]))
  }

  function TailTokens(args: seq<(string, Value)>): seq<Token>
  {
    if args == [] then [] else [And] + (ComparisonTokens(args[0].0, EQ, args[0].1) + TailTokens(args[1..]))
  }

  lemma GivenStep(args: seq<(string, Value)>)
    requires args != [] && args[0].1 != Text("")
    ensures Given(args) != [] && Given(args)[0] == args[0] && Given(args)[1..] == Given(args[1..])
  {
  }

  lemma {:induction false} WhereAndIsTail(result: string, args: seq<(string, Value)>)
    requires result != []
    ensures WhereAnd_(result, args) == result + Tail(Given(args))
    decreases args
  {
    if args == [] {
    } else if args[0].1 == Text("") {
      WhereAndIsTail(result, args[1..]);
      assert Given(args) == Given(args[1..]);
    } else {
      hide Equality;
      var piece := Equality(args[0]);
      WhereAndIsTail(result + " and " + piece, args[1..]);
      GivenStep(args);
      ConcatFour(result, " and ", piece, Tail(Given(args[1..])), []);
    }
  }

  lemma {:induction false} LexTail(args: seq<(string, Value)>)
    requires forall a :: a in args ==> IsFieldName(a.0)
    ensures Lex(Tail(args)) == Some(TailTokens(args))
  {
    hide Lex;
    if args == [] {
      LexOfNothing();
    } else {
      var (f, v) := args[0];
      assert args[0] in args;
      LexTail(args[1..]);
      ComparisonReadBack(f, EQ, v, Tail(args[1..]));
      BinaryOpReadBack(AND, f + "=" + ValueText(v) + Tail(args[1..]));
    }
  }

  lemma {:induction false} ParseTail(t: Tree, args: seq<(string, Value)>)
    ensures ParseAndRest(t, TailTokens(args)) == Some((Conjunction(t, args), []))
    decreases args
  {
    hide ParsePrimary, ParseAnd, ParseOr, ParseAndRest, ParseOrRest;
    if args == [] {
      AndStops(t, []);
    } else {
      var (f, v) := args[0];
      var c := Comparison(f, EQ, v);
      PrimaryComparison(f, EQ, v, TailTokens(args[1..]));
      AndTakes(t, ComparisonTokens(f, EQ, v) + TailTokens(args[1..]), c, TailTokens(args[1..]));
      ParseTail(Both(t, c), args[1..]);
    }
  }

  lemma {:induction false} WhereAndFirst(args: seq<(string, Value)>)
    ensures Given(args) == [] ==> WhereAnd(args) == ""
    ensures Given(args) != [] ==>
              WhereAnd(args) == Equality(Given(args)[0]) + Tail(Given(args)[1..])
  {
    if args == [] {
    } else if args[0].1 == Text("") {
      WhereAndFirst(args[1..]);
      assert Given(args) == Given(args[1..]);
    } else {
      var piece := Equality(args[0]);
      assert "" + piece == piece;
      WhereAndIsTail(piece, args[1..]);
      GivenStep(args);
    }
  }

  /** The text reads back as the conjunction of exactly the arguments that carry a value, and is
      empty when none does. */
  lemma WhereAndReadsBack(args: seq<(string, Value)>)
    requires forall a :: a in Given(args) ==> IsFieldName(a.0)
    ensures var g := Given(args);
            if g == [] then WhereAnd(args) == ""
            else Read(WhereAnd(args)) == Some(Conjunction(Comparison(g[0].0, EQ, g[0].1), g[1..]))
  {
    hide Lex, ParsePrimary, ParseAnd, ParseOr, ParseAndRest, ParseOrRest, WhereAnd, IsFieldName;
    var g := Given(args);
    WhereAndFirst(args);
    if g != [] {
      var (f, v) := g[0];
      assert g[0] in g;
      var c, ts := Comparison(f, EQ, v), ComparisonTokens(f, EQ, v) + TailTokens(g[1..]);
      LexTail(g[1..]);
      ComparisonReadBack(f, EQ, v, Tail(g[1..]));
      PrimaryComparison(f, EQ, v, TailTokens(g[1..]));
      AndTakes(c, ts, c, TailTokens(g[1..]));
      ParseTail(c, g[1..]);
      OrTakes(c, ts, Conjunction(c, g[1..]), []);
      OrStops(Conjunction(c, g[1..]), []);
    }
  }
}
