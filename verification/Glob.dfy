/** The recursive wildcard matcher of the utility library, and the language it decides. */
module Glob {
  import opened Characters
  import opened Sequences

  /** PastEnd: the call read `second` beyond its terminator. */
  datatype Outcome = Matched | Unmatched | PastEnd

  /** Drops all but the last star of a leading run. */
  function SkipStars(first: string): (rest: string)
    ensures |rest| <= |first|
  {
    if |first| > 1 && first[0] == '*' && first[1] == '*' then SkipStars(first[1..]) else first
  }

  /** The matcher itself. Both arguments are the characters before a terminating NUL, so a read
      at the end of a sequence is a read of the terminator. */
  function Match(first: string, second: string): Outcome
    decreases |first| + |second|
  {
    if first == [] && second == [] then Matched else
    var p := SkipStars(first);
    if p == [] then Unmatched
    else if p[0] == '*' && |p| > 1 && second == [] then Unmatched
    else if p[0] == '?' || (second != [] && p[0] == second[0]) then
      if second == [] then PastEnd else Match(p[1..], second[1..])
    else if p[0] == '*' then
      match Match(p[1..], second)
      case Matched => Matched
      case PastEnd => PastEnd
      case Unmatched => if second == [] then PastEnd else Match(p, second[1..])
    else Unmatched
  }

  /** The language of a pattern: `*` stands for any text, `?` for any one character. */
  ghost predicate InGlob(pattern: string, text: string)
  {
    if pattern == [] then text == []
    else if pattern[0] == '*' then exists k :: 0 <= k <= |text| && InGlob(pattern[1..], text[k..])
    else text != [] && (pattern[0] == '?' || pattern[0] == text[0]) && InGlob(pattern[1..], text[1..])
  }

  /** The text is used up exactly in front of a `?` at position i that does not follow a star. */
  ghost predicate RunsOutAt(pattern: string, text: string, i: nat)
  {
    i < |pattern| && pattern[i] == '?' && (i == 0 || pattern[i - 1] != '*') && InGlob(pattern[..i], text)
  }

  ghost predicate RunsOut(pattern: string, text: string)
  {
    exists i: nat :: RunsOutAt(pattern, text, i)
  }

  // ----- the language -----

  lemma StarUnroll(rest: string, text: string)
    ensures InGlob("*" + rest, text) <==> InGlob(rest, text) || (text != [] && InGlob("*" + rest, text[1..]))
  {
    assert ("*" + rest)[1..] == rest;
    if InGlob("*" + rest, text) {
      var k :| 0 <= k <= |text| && InGlob(rest, text[k..]);
      if k == 0 {
        assert text[k..] == text;
      } else {
        assert text[1..][k - 1..] == text[k..];
      }
    }
    if InGlob(rest, text) {
      assert text[0..] == text;
    }
    if text != [] && InGlob("*" + rest, text[1..]) {
      var k :| 0 <= k <= |text[1..]| && InGlob(rest, text[1..][k..]);
      assert text[1..][k..] == text[k + 1..];
    }
  }

  lemma StarAbsorbs(rest: string, text: string, k: nat)
    requires k <= |text| && InGlob("*" + rest, text[k..])
    ensures InGlob("*" + rest, text)
  {
    assert ("*" + rest)[1..] == rest;
    var m :| 0 <= m <= |text[k..]| && InGlob(rest, text[k..][m..]);
    assert text[k..][m..] == text[k + m..];
  }

  lemma DoubleStar(rest: string, text: string)
    ensures InGlob("**" + rest, text) <==> InGlob("*" + rest, text)
  {
    assert "**" + rest == "*" + ("*" + rest);
    assert ("**" + rest)[1..] == "*" + rest;
    if InGlob("**" + rest, text) {
      var k :| 0 <= k <= |text| && InGlob("*" + rest, text[k..]);
      StarAbsorbs(rest, text, k);
    }
    if InGlob("*" + rest, text) {
      assert text[0..] == text;
    }
  }

  // ----- where the text runs out -----

  lemma RunsOutStep(c: char, rest: string, text: string)
    requires c != '*'
    ensures RunsOut([c] + rest, text) <==>
            (c == '?' && text == []) || (text != [] && (c == '?' || c == text[0]) && RunsOut(rest, text[1..]))
  {
    var p := [c] + rest;
    if RunsOut(p, text) {
      var i: nat :| RunsOutAt(p, text, i);
      if i > 0 {
        assert p[..i][1..] == rest[..i - 1];
        assert RunsOutAt(rest, text[1..], i - 1);
      }
    }
    if c == '?' && text == [] {
      assert RunsOutAt(p, text, 0);
    }
    if text != [] && (c == '?' || c == text[0]) && RunsOut(rest, text[1..]) {
      var i: nat :| RunsOutAt(rest, text[1..], i);
      assert p[..i + 1][1..] == rest[..i];
      assert RunsOutAt(p, text, i + 1);
    }
  }

  lemma {:induction false} EmptyTextNeedsStars(pattern: string)
    requires InGlob(pattern, [])
    ensures pattern == [] || pattern[|pattern| - 1] == '*'
  {
    if pattern != [] {
      assert pattern[0] == '*';
      EmptyTextNeedsStars(pattern[1..]);
    }
  }

  lemma RunsOutStarAt(rest: string, text: string, i: nat)
    requires RunsOutAt("*" + rest, text, i)
    ensures exists k :: 0 <= k < |text| && RunsOut(rest, text[k..])
  {
    var p := "*" + rest;
    assert p[..i][1..] == rest[..i - 1];
    var k :| 0 <= k <= |text| && InGlob(rest[..i - 1], text[k..]);
    if k == |text| {
      EmptyTextNeedsStars(rest[..i - 1]);
      assert false;
    }
    assert RunsOutAt(rest, text[k..], i - 1);
  }

  lemma RunsOutStarFrom(rest: string, text: string, k: nat, i: nat)
    requires k < |text| && RunsOutAt(rest, text[k..], i)
    ensures RunsOut("*" + rest, text)
  {
    var p := "*" + rest;
    assert i != 0;
    assert p[..i + 1][1..] == rest[..i];
    assert InGlob(p[..i + 1], text);
    assert RunsOutAt(p, text, i + 1);
  }

  lemma RunsOutStar(rest: string, text: string)
    ensures RunsOut("*" + rest, text) <==> exists k :: 0 <= k < |text| && RunsOut(rest, text[k..])
  {
    if RunsOut("*" + rest, text) {
      var i: nat :| RunsOutAt("*" + rest, text, i);
      RunsOutStarAt(rest, text, i);
    }
    if k :| 0 <= k < |text| && RunsOut(rest, text[k..]) {
      var i: nat :| RunsOutAt(rest, text[k..], i);
      RunsOutStarFrom(rest, text, k, i);
    }
  }

  lemma RunsOutStarUnroll(rest: string, text: string)
    requires text != []
    ensures RunsOut("*" + rest, text) <==> RunsOut(rest, text) || RunsOut("*" + rest, text[1..])
  {
    RunsOutStar(rest, text);
    RunsOutStar(rest, text[1..]);
    assert text[0..] == text;
    if k :| 0 <= k < |text| && RunsOut(rest, text[k..]) {
      if k > 0 {
        assert text[1..][k - 1..] == text[k..];
      }
    }
    if k :| 0 <= k < |text[1..]| && RunsOut(rest, text[1..][k..]) {
      assert text[1..][k..] == text[k + 1..];
    }
  }

  lemma RunsOutDoubleStar(rest: string, text: string)
    ensures RunsOut("**" + rest, text) <==> RunsOut("*" + rest, text)
  {
    assert "**" + rest == "*" + ("*" + rest);
    RunsOutStar("*" + rest, text);
    RunsOutStar(rest, text);
    if k :| 0 <= k < |text| && RunsOut("*" + rest, text[k..]) {
      RunsOutStar(rest, text[k..]);
      var m :| 0 <= m < |text[k..]| && RunsOut(rest, text[k..][m..]);
      assert text[k..][m..] == text[k + m..];
    }
    if RunsOut("*" + rest, text) && text != [] {
      assert text[0..] == text;
    }
  }

  lemma {:induction false} SkipStarsKeepsLanguage(first: string, text: string)
    ensures InGlob(SkipStars(first), text) <==> InGlob(first, text)
    ensures RunsOut(SkipStars(first), text) <==> RunsOut(first, text)
    ensures first != [] ==> SkipStars(first) != [] && SkipStars(first)[0] == first[0]
    ensures |SkipStars(first)| > 1 && SkipStars(first)[0] == '*' ==> SkipStars(first)[1] != '*'
    ensures forall c :: c in SkipStars(first) ==> c in first
  {
    if |first| > 1 && first[0] == '*' && first[1] == '*' {
      var rest := first[2..];
      assert first == "**" + rest && first[1..] == "*" + rest;
      DoubleStar(rest, text);
      RunsOutDoubleStar(rest, text);
      SkipStarsKeepsLanguage(first[1..], text);
    }
  }

  /** If the text runs out inside the pattern and the pattern fits a suffix of the text, it fits
      the whole text: so trying the shortest stretch for a star first loses no match. */
  lemma {:induction false} ShortestStretchSuffices(pattern: string, text: string, k: nat)
    requires k <= |text| && InGlob(pattern, text[k..]) && RunsOut(pattern, text)
    ensures InGlob(pattern, text)
  {
    if pattern[0] == '*' {
      assert pattern == "*" + pattern[1..];
      StarAbsorbs(pattern[1..], text, k);
    } else {
      assert pattern == [pattern[0]] + pattern[1..];
      RunsOutStep(pattern[0], pattern[1..], text);
      assert text[1..][k..] == text[k..][1..];
      ShortestStretchSuffices(pattern[1..], text[1..], k);
    }
  }

  // ----- the matcher decides the language -----

  /** For a pattern or a text without `*`: the call matches exactly the texts in the language,
      and reads past the terminator exactly when it does not match and the text runs out. */
  lemma {:induction false} MatchDecides(first: string, second: string)
    requires '*' !in first || '*' !in second
    ensures Match(first, second) == Matched <==> InGlob(first, second)
    ensures Match(first, second) == PastEnd <==> !InGlob(first, second) && RunsOut(first, second)
    decreases |first| + |second|
  {
    var p := SkipStars(first);
    SkipStarsKeepsLanguage(first, second);
    if p != [] {
      var rest := p[1..];
      assert p == [p[0]] + rest;
      if p[0] == '*' {
        StarDecides(rest, second);
      } else {
        RunsOutStep(p[0], rest, second);
        if second != [] && (p[0] == '?' || p[0] == second[0]) {
          MatchDecides(rest, second[1..]);
        }
      }
    }
  }

  lemma {:induction false} StarDecides(rest: string, text: string)
    requires '*' !in text
    requires rest != [] ==> rest[0] != '*'
    ensures Match("*" + rest, text) == Matched <==> InGlob("*" + rest, text)
    ensures Match("*" + rest, text) == PastEnd <==> !InGlob("*" + rest, text) && RunsOut("*" + rest, text)
    decreases 1 + |rest| + |text|, 0
  {
    var p := "*" + rest;
    assert p[1..] == rest && SkipStars(p) == p;
    StarUnroll(rest, text);
    if text == [] {
      RunsOutStar(rest, text);
    } else {
      RunsOutStarUnroll(rest, text);
      MatchDecides(rest, text);
      StarDecides(rest, text[1..]);
      if Match(rest, text) == PastEnd && InGlob(p, text) {
        var k :| 0 <= k <= |text| && InGlob(rest, text[k..]);
        ShortestStretchSuffices(rest, text, k);
      }
    }
  }

  lemma {:induction false} SkipStarsKeepsLetters(first: string)
    ensures forall c :: c in SkipStars(first) ==> c in first
    ensures first != [] ==> SkipStars(first) != []
  {
    if |first| > 1 && first[0] == '*' && first[1] == '*' {
      SkipStarsKeepsLetters(first[1..]);
    }
  }

  /** A pattern without `?` keeps every read inside the text, whatever is in the text. */
  lemma {:induction false} NoQuestionMarkStaysInside(first: string, second: string)
    requires '?' !in first
    ensures Match(first, second) != PastEnd
    decreases |first| + |second|
  {
    var p := SkipStars(first);
    SkipStarsKeepsLetters(first);
    if p != [] {
      if second != [] && p[0] == second[0] {
        NoQuestionMarkStaysInside(p[1..], second[1..]);
      } else if p[0] == '*' {
        NoQuestionMarkStaysInside(p[1..], second);
        if second != [] {
          NoQuestionMarkStaysInside(p, second[1..]);
        }
      }
    }
  }

  /** What stands before the first `?` of a pattern, with runs of stars collapsed: as a text it keeps
      step with the pattern and ends in front of the `?`. */
  function BeforeQuestionMark(pattern: string): string
    decreases |pattern|
  {
    var p := SkipStars(pattern);
    if p == [] || p[0] == '?' then [] else [p[0]] + BeforeQuestionMark(p[1..])
  }

  lemma {:induction false} QuestionMarkRunsOver(pattern: string)
    requires '?' in pattern
    ensures Match(pattern, BeforeQuestionMark(pattern)) == PastEnd
    decreases |pattern|
  {
    var p := SkipStars(pattern);
    SkipStarsKeepsQuestionMark(pattern);
    if p[0] != '?' {
      assert p == [p[0]] + p[1..];
      QuestionMarkRunsOver(p[1..]);
      var text := BeforeQuestionMark(pattern);
      assert text[1..] == BeforeQuestionMark(p[1..]);
    }
  }

  lemma {:induction false} SkipStarsKeepsQuestionMark(first: string)
    ensures '?' in SkipStars(first) <==> '?' in first
  {
    if |first| > 1 && first[0] == '*' && first[1] == '*' {
      SkipStarsKeepsQuestionMark(first[1..]);
      assert first == [first[0]] + first[1..];
    }
  }

  /** A pattern is safe on every text exactly when it has no `?`. */
  lemma SafePatternsHaveNoQuestionMark(pattern: string)
    ensures (forall text: string :: Match(pattern, text) != PastEnd) <==> '?' !in pattern
  {
    if '?' in pattern {
      QuestionMarkRunsOver(pattern);
    } else {
      forall text: string ensures Match(pattern, text) != PastEnd {
        NoQuestionMarkStaysInside(pattern, text);
      }
    }
  }

  /** The call stays inside the text and tells whether the text is in the language of the pattern. */
  ghost predicate Right(pattern: string, text: string)
  {
    Match(pattern, text) != PastEnd && (Match(pattern, text) == Matched <==> InGlob(pattern, text))
  }

  // ----- patterns that are right on every text -----

  function WithoutStars(s: string): string
  {
    if s == [] then [] else if s[0] == '*' then WithoutStars(s[1..]) else [s[0]] + WithoutStars(s[1..])
  }

  lemma {:induction false} EmptyStretches(pattern: string)
    ensures InGlob(pattern, WithoutStars(pattern))
  {
    if pattern != [] {
      EmptyStretches(pattern[1..]);
      var text := WithoutStars(pattern);
      if pattern[0] == '*' {
        assert text[0..] == text;
      } else {
        assert text[1..] == WithoutStars(pattern[1..]);
      }
    }
  }

  /** Two stars in the text where the pattern has its first: the first of them is taken for the star of
      the pattern, and nothing fits the second. */
  function StarsDoubled(pattern: string): string
  {
    if pattern == [] then []
    else if pattern[0] == '*' then "**" + WithoutStars(pattern)
    else [pattern[0]] + StarsDoubled(pattern[1..])
  }

  lemma DoubledStarFits(rest: string)
    ensures InGlob("*" + rest, "**" + WithoutStars("*" + rest))
  {
    var text := WithoutStars("*" + rest);
    assert ("*" + rest)[1..] == rest && text == WithoutStars(rest);
    EmptyStretches(rest);
    assert ("**" + text)[2..] == text;
  }

  lemma {:induction false} StarIsWrong(pattern: string)
    requires '*' in pattern && '?' !in pattern
    ensures !Right(pattern, StarsDoubled(pattern))
    decreases |pattern|
  {
    var text := StarsDoubled(pattern);
    if pattern[0] == '*' {
      var p := SkipStars(pattern);
      SkipStarsKeepsLanguage(pattern, text);
      SkipStarsKeepsLetters(pattern);
      assert pattern == "*" + pattern[1..];
      DoubledStarFits(pattern[1..]);
      assert text[1..] == "*" + WithoutStars(pattern);
      assert Match(pattern, text) == Match(p[1..], text[1..]);
      assert p[1..] != [] ==> p[1] in p && p[1] != '*' && p[1] != '?';
      assert p[1..] != [] ==> SkipStars(p[1..]) == p[1..];
    } else {
      assert pattern == [pattern[0]] + pattern[1..];
      StarIsWrong(pattern[1..]);
      assert text[1..] == StarsDoubled(pattern[1..]);
      assert SkipStars(pattern) == pattern;
    }
  }

  /** The call is right on every text exactly for the patterns that are plain text. */
  lemma RightPatternsArePlain(pattern: string)
    ensures (forall text: string :: Right(pattern, text)) <==> '?' !in pattern && '*' !in pattern
  {
    if '?' in pattern {
      QuestionMarkRunsOver(pattern);
      assert !Right(pattern, BeforeQuestionMark(pattern));
    } else if '*' in pattern {
      StarIsWrong(pattern);
    } else {
      forall text: string ensures Right(pattern, text) {
        NoQuestionMarkStaysInside(pattern, text);
        MatchDecides(pattern, text);
      }
    }
  }

  lemma {:induction false} TextThenQuestionMark(text: string)
    requires '*' !in text
    ensures Match(text + "?", text) == PastEnd
  {
    var p := text + "?";
    if text != [] {
      assert text == [text[0]] + text[1..];
      assert p[1..] == text[1..] + "?" && SkipStars(p) == p;
      TextThenQuestionMark(text[1..]);
    }
  }

  /** No text is matched rightly by every pattern. */
  lemma NoTextIsRightForEveryPattern(text: string) returns (pattern: string)
    ensures !Right(pattern, text)
  {
    if '*' in text {
      MatchedIsInGlobForTextsWithoutStars(text);
      pattern :| !(Match(pattern, text) == Matched <==> InGlob(pattern, text));
    } else {
      pattern := text + "?";
      TextThenQuestionMark(text);
    }
  }

  // ----- texts that hold a star -----

  lemma {:induction false} QuestionMarks(n: nat, rest: string, text: string)
    requires n <= |text|
    ensures InGlob(Repeat('?', n) + rest, text) <==> InGlob(rest, text[n..])
    ensures Match(Repeat('?', n) + rest, text) == Match(rest, text[n..])
  {
    var p := Repeat('?', n) + rest;
    if n == 0 {
      assert p == rest && text[0..] == text;
    } else {
      assert p[1..] == Repeat('?', n - 1) + rest;
      assert text[1..][n - 1..] == text[n..];
      QuestionMarks(n - 1, rest, text[1..]);
    }
  }

  /** A star in the pattern that meets a star in the text stands for that one character only. So if
      reads beyond the terminator are set aside, and taken for refusals, the call tells exactly the
      patterns in whose language a text is when the text has no star. */
  lemma MatchedIsInGlobForTextsWithoutStars(text: string)
    ensures (forall p: string :: Match(p, text) == Matched <==> InGlob(p, text)) <==> '*' !in text
  {
    if '*' in text {
      var k :| 0 <= k < |text| && text[k] == '*';
      var n := |text| - k;
      var q := "*" + Repeat('?', n);
      var p := Repeat('?', k) + q;
      var tail := text[k..];
      QuestionMarks(k, q, text);
      assert q[1..] == Repeat('?', n) && tail[0..] == tail && tail[n..] == [];
      assert Repeat('?', n) == Repeat('?', n) + [];
      QuestionMarks(n, [], tail);
      assert InGlob(q, tail);
      assert SkipStars(q) == q;
      assert Match(q, tail) == Match(Repeat('?', n), tail[1..]);
      assert Repeat('?', n) == Repeat('?', n - 1) + "?";
      QuestionMarks(n - 1, "?", tail[1..]);
      assert tail[1..][n - 1..] == [];
      assert Match(p, text) == PastEnd;
    } else {
      forall p: string ensures Match(p, text) == Matched <==> InGlob(p, text) {
        MatchDecides(p, text);
      }
    }
  }

  /** No star, or none but the last character. */
  predicate StarAtEndOnly(text: string)
  {
    forall i :: 0 <= i < |text| - 1 ==> text[i] != '*'
  }

  lemma StarFitsNoOther(rest: string)
    requires rest != [] ==> rest[0] != '*' && rest[0] != '?'
    ensures InGlob("*" + rest, "*") <==> InGlob(rest, "")
  {
    StarUnroll(rest, "*");
    StarUnroll(rest, "");
  }

  lemma {:induction false} DecidesWithoutQuestionMarks(first: string, second: string)
    requires '?' !in first && StarAtEndOnly(second)
    ensures Match(first, second) == Matched <==> InGlob(first, second)
    decreases |first| + |second|
  {
    var p := SkipStars(first);
    SkipStarsKeepsLanguage(first, second);
    if p != [] && second != [] {
      var rest, text := p[1..], second[1..];
      assert p == [p[0]] + rest;
      if p[0] != '*' {
        if p[0] == second[0] {
          DecidesWithoutQuestionMarks(rest, text);
        }
      } else if second[0] == '*' {
        assert second == "*";
        StarFitsNoOther(rest);
        DecidesWithoutQuestionMarks(rest, text);
      } else {
        StarUnroll(rest, second);
        NoQuestionMarkStaysInside(rest, second);
        DecidesWithoutQuestionMarks(rest, second);
        DecidesWithoutQuestionMarks(p, text);
      }
    } else {
      MatchDecides(first, second);
    }
  }

  lemma {:induction false} LoneStar(text: string, k: nat)
    requires k < |text| - 1 && text[k] == '*' && '*' !in text[..k]
    ensures Match("*", text) != Matched && InGlob("*", text)
    decreases k
  {
    var p := "*";
    assert SkipStars(p) == p && p[1..] == [] && text[|text|..] == [];
    assert InGlob([], text[|text|..]);
    if k > 0 {
      assert text[0] in text[..k];
      assert text[..k][1..] == text[1..][..k - 1];
      LoneStar(text[1..], k - 1);
    }
  }

  /** Patterns without `?` are less easily misled: a text is matched rightly by all of them exactly
      when no star stands in front of its last character. */
  lemma MatchIsRightWithoutQuestionMarks(text: string)
    ensures (forall p: string :: '?' !in p ==> Right(p, text)) <==> StarAtEndOnly(text)
  {
    if StarAtEndOnly(text) {
      forall p: string | '?' !in p ensures Right(p, text) {
        NoQuestionMarkStaysInside(p, text);
        DecidesWithoutQuestionMarks(p, text);
      }
    } else {
      LoneStar(text, FirstOf(text, '*'));
      assert !Right("*", text);
      assert '?' !in "*";
    }
  }
}
