/** Decimal notation, as std::to_string prints it, and how it is read back from a longer text. */
module Decimals {

  predicate IsDigit(c: char) { '0' <= c <= '9' }

  function Digits(n: nat): (s: string)
    ensures s != [] && forall c :: c in s ==> IsDigit(c)
  {
    if n < 10 then ["0123456789"[n]] else Digits(n / 10) + ["0123456789"[n % 10]]
  }

  function Decimal(n: int): (s: string)
    ensures s != [] && (s[0] == '-' || IsDigit(s[0]))
  {
    if n < 0 then "-" + Digits(-n) else Digits(n)
  }

  function Span(s: string, p: char -> bool): (n: nat)
    ensures n <= |s|
  {
    if s != [] && p(s[0]) then 1 + Span(s[1..], p) else 0
  }

  function DigitsValue(s: string): nat
    requires forall c :: c in s ==> IsDigit(c)
  {
    if s == [] then 0 else
    assert s[|s| - 1] in s && IsDigit(s[|s| - 1]);
    DigitsValue(s[..|s| - 1]) * 10 + (s[|s| - 1] as int - '0' as int)
  }

  lemma {:induction false} SpanTakesWhile(s: string, p: char -> bool)
    ensures forall i :: 0 <= i < Span(s, p) ==> p(s[i])
  {
    if s != [] && p(s[0]) {
      SpanTakesWhile(s[1..], p);
    }
  }

  function TakeNumber(s: string): (r: (nat, string))
    requires s != [] && IsDigit(s[0])
    ensures |r.1| < |s|
  {
    SpanTakesWhile(s, IsDigit);
    var n := Span(s, IsDigit);
    (DigitsValue(s[..n]), s[n..])
  }

  lemma {:induction false} SpanOfPrefix(a: string, rest: string, p: char -> bool)
    requires forall c :: c in a ==> p(c)
    requires rest == [] || !p(rest[0])
    ensures Span(a + rest, p) == |a|
  {
    if a == [] {
      assert a + rest == rest;
    } else {
      assert (a + rest)[1..] == a[1..] + rest;
      SpanOfPrefix(a[1..], rest, p);
    }
  }

  lemma {:induction false} DigitsReadBack(n: nat)
    ensures DigitsValue(Digits(n)) == n
  {
    var s := Digits(n);
    if n < 10 {
      assert s[..|s| - 1] == [];
    } else {
      assert s[..|s| - 1] == Digits(n / 10);
      DigitsReadBack(n / 10);
    }
  }

  lemma NumberReadBack(n: nat, rest: string)
    requires rest == [] || !IsDigit(rest[0])
    ensures TakeNumber(Digits(n) + rest) == (n, rest)
  {
    var d := Digits(n);
    SpanOfPrefix(d, rest, IsDigit);
    assert (d + rest)[..|d|] == d && (d + rest)[|d|..] == rest;
    DigitsReadBack(n);
  }
}
