/** Letter case and white space of the C locale. */
module Characters {

  function LowerChar(c: char): char { if 'A' <= c <= 'Z' then c - 'A' + 'a' else c }

  function Lower(s: string): (r: string)
    ensures |r| == |s|
  {
    seq(|s|, i requires 0 <= i < |s| => LowerChar(s[i]))
  }

  /** Lower case goes by the alphabet and leaves every other character alone. */
  lemma LowerGoesByTheAlphabet(c: char)
    ensures var upper, lower := "ABCDEFGHIJKLMNOPQRSTUVWXYZ", "abcdefghijklmnopqrstuvwxyz";
            (forall i :: 0 <= i < 26 ==> LowerChar(upper[i]) == lower[i]) && (c !in upper ==> LowerChar(c) == c)
  {
    var upper, lower := "ABCDEFGHIJKLMNOPQRSTUVWXYZ", "abcdefghijklmnopqrstuvwxyz";
    assert forall i :: 0 <= i < 26 ==> upper[i] as int == 'A' as int + i;
    assert forall i :: 0 <= i < 26 ==> lower[i] as int == 'a' as int + i;
    if 'A' <= c <= 'Z' {
      assert c == upper[c as int - 'A' as int];
    }
  }

  /** The first place of a character, or the length of a text without it. */
  function FirstOf(s: string, d: char): (k: nat)
    ensures k <= |s| && d !in s[..k] && (k < |s| ==> s[k] == d)
  {
    if s == [] || s[0] == d then 0 else
    var k := FirstOf(s[1..], d);
    assert s[..k + 1] == [s[0]] + s[1..][..k];
    1 + k
  }

  predicate IsSpace(c: char)
  {
    c == ' ' || c == '\t' || c == '\n' || c == '\U{0B}' || c == '\U{0C}' || c == '\r'
  }

  function TrimLeft(s: string): (r: string)
    ensures |r| <= |s|
  {
    if s != [] && IsSpace(s[0]) then TrimLeft(s[1..]) else s
  }
}
