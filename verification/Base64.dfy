/** The base64 codec of the utility library, against section 4 of RFC 4648. Texts are sequences
    of bytes, as the characters of a std::string are. */
module Base64 {
  import opened Options
  import opened Widths

  datatype DecodeError = BadLength | BadPadding | BadCharacter
  datatype Result = Ok(bytes: seq<bv8>) | Err(error: DecodeError)

  const PAD: bv8 := 0x3D

  // ----- one character -----

  /** The character for a digit below 64: A to Z, a to z, 0 to 9, plus, slash. */
  function Letter(d: bv8): bv8
  {
    if d < 26 then d + 0x41
    else if d < 52 then d + 0x47
    else if d < 62 then d - 4
    else if d == 62 then 0x2B
    else 0x2F
  }

  function Digit(c: bv8): Option<bv8>
  {
    if 0x41 <= c <= 0x5A then Some(c - 0x41)
    else if 0x61 <= c <= 0x7A then Some(c - 0x47)
    else if 0x30 <= c <= 0x39 then Some(c + 0x04)
    else if c == 0x2B then Some(0x3E)
    else if c == 0x2F then Some(0x3F)
    else None
  }

  lemma DigitOfLetter(d: bv8)
    requires d < 64
    ensures Digit(Letter(d)) == Some(d) && Letter(d) != PAD
  {
  }

  lemma LetterOfDigit(c: bv8)
    requires Digit(c).Some?
    ensures Letter(Digit(c).value) == c && Digit(c).value < 64 && c != PAD
  {
  }

  // ----- the meaning of a text -----

  /** The four digits of a group of three bytes. */
  function D0(a: bv8): (d: bv8)
    ensures d < 64
  { a >> 2 }

  function D1(a: bv8, b: bv8): (d: bv8)
    ensures d < 64
  { ((a & 0x03) << 4) | (b >> 4) }

  function D2(b: bv8, c: bv8): (d: bv8)
    ensures d < 64
  { ((b & 0x0F) << 2) | (c >> 6) }

  function D3(c: bv8): (d: bv8)
    ensures d < 64
  { c & 0x3F }

  /** The three bytes of a group of four digits. */
  function B0(p: bv8, q: bv8): bv8 { (p << 2) | (q >> 4) }

  function B1(q: bv8, r: bv8): bv8 { (q << 4) | (r >> 2) }

  function B2(r: bv8, s: bv8): bv8 { (r << 6) | s }

  lemma GroupThereAndBack(a: bv8, b: bv8, c: bv8)
    ensures B0(D0(a), D1(a, b)) == a && B1(D1(a, b), D2(b, c)) == b && B2(D2(b, c), D3(c)) == c
  {
  }

  lemma GroupBackAndThere(p: bv8, q: bv8, r: bv8, s: bv8)
    requires p < 64 && q < 64 && r < 64 && s < 64
    ensures D0(B0(p, q)) == p && D1(B0(p, q), B1(q, r)) == q && D2(B1(q, r), B2(r, s)) == r && D3(B2(r, s)) == s
    ensures D1(B0(p, q), 0) == q <==> q & 0x0F == 0
    ensures D2(B1(q, r), 0) == r <==> r & 0x03 == 0
  {
  }

  function EncodedGroup(a: bv8, b: bv8, c: bv8): seq<bv8>
  {
    [Letter(D0(a)), Letter(D1(a, b)), Letter(D2(b, c)), Letter(D3(c))]
  }

  function Encoded(b: seq<bv8>): seq<bv8>
  {
    if b == [] then []
    else if |b| == 1 then [Letter(D0(b[0])), Letter(D1(b[0], 0)), PAD, PAD]
    else if |b| == 2 then [Letter(D0(b[0])), Letter(D1(b[0], b[1])), Letter(D2(b[1], 0)), PAD]
    else EncodedGroup(b[0], b[1], b[2]) + Encoded(b[3..])
  }

  function Bad(c: bv8): Result
  {
    Err(if c == PAD then BadPadding else BadCharacter)
  }

  function Behind(front: seq<bv8>, r: Result): Result
  {
    if r.Ok? then Ok(front + r.bytes) else r
  }

  /** A text of whole groups; padding is accepted in the last two places of the last group. */
  function DecodedGroups(s: seq<bv8>): Result
    requires |s| % 4 == 0
  {
    if s == [] then Ok([])
    else if Digit(s[0]).None? then Bad(s[0])
    else if Digit(s[1]).None? then Bad(s[1])
    else
      var p, q := Digit(s[0]).value, Digit(s[1]).value;
      if Digit(s[2]).None? then
        if s[2] == PAD && |s| == 4 then Ok([B0(p, q)]) else Bad(s[2])
      else
        var r := Digit(s[2]).value;
        if Digit(s[3]).None? then
          if s[3] == PAD && |s| == 4 then Ok([B0(p, q), B1(q, r)]) else Bad(s[3])
        else Behind([B0(p, q), B1(q, r), B2(r, Digit(s[3]).value)], DecodedGroups(s[4..]))
  }

  function Decoded(s: seq<bv8>): Result
  {
    if |s| % 4 != 0 then Err(BadLength) else DecodedGroups(s)
  }

  // ----- the encoder -----

  /** The four groups of six bits of a 24-bit word. */
  function Bits18(temp: bv32): bv8 { ((temp & 0x00FC0000) >> 18) as bv8 }

  function Bits12(temp: bv32): bv8 { ((temp & 0x0003F000) >> 12) as bv8 }

  function Bits6(temp: bv32): bv8 { ((temp & 0x00000FC0) >> 6) as bv8 }

  function Bits0(temp: bv32): bv8 { (temp & 0x0000003F) as bv8 }

  /** Up to three bytes packed from the top of a 24-bit word. */
  function Packed(a: bv8, b: bv8, c: bv8): bv32
  {
    (a as bv32 << 16) + (b as bv32 << 8) + c as bv32
  }

  lemma BitsOfPacked(a: bv8, b: bv8, c: bv8)
    ensures Bits18(Packed(a, b, c)) == D0(a) && Bits12(Packed(a, b, c)) == D1(a, b)
    ensures Bits6(Packed(a, b, c)) == D2(b, c) && Bits0(Packed(a, b, c)) == D3(c)
  {
  }

  lemma EncodedStep(s: seq<bv8>, i: nat)
    requires i + 3 <= |s|
    ensures Encoded(s[i..]) == EncodedGroup(s[i], s[i + 1], s[i + 2]) + Encoded(s[i + 3..])
  {
    assert s[i..][3..] == s[i + 3..];
  }

  lemma AppendGroup(s: seq<bv8>, group: seq<bv8>, rest: seq<bv8>)
    ensures s + group + rest == s + (group + rest)
  {
  }

  /** The last one or two bytes, padded to a whole group. */
  method EncodeRemainder(input: seq<bv8>, i: nat) returns (tail: seq<bv8>)
    requires i <= |input| < i + 3
    ensures tail == Encoded(input[i..])
  {
    hide D0, D1, D2, D3, Letter, Bits18, Bits12, Bits6, Bits0, Packed;
    match |input| - i
    case 1 =>
      var temp := Packed(input[i], 0, 0);
      BitsOfPacked(input[i], 0, 0);
      tail := [Letter(Bits18(temp)), Letter(Bits12(temp)), PAD, PAD];
    case 2 =>
      var temp := Packed(input[i], input[i + 1], 0);
      BitsOfPacked(input[i], input[i + 1], 0);
      tail := [Letter(Bits18(temp)), Letter(Bits12(temp)), Letter(Bits6(temp)), PAD];
    case _ =>
      tail := [];
  }

  method Encode(input: seq<bv8>) returns (encoded: seq<bv8>)
    requires |input| < U32
    ensures encoded == Encoded(input)
  {
    hide D0, D1, D2, D3, Letter, Encoded, Bits18, Bits12, Bits6, Bits0, Packed;
    encoded := [];
    var ee := |input| / 3;
    var i := 0;
    assert input[0..] == input && [] + Encoded(input) == Encoded(input);
    while i < 3 * ee
      invariant 0 <= i <= 3 * ee && i % 3 == 0
      invariant encoded + Encoded(input[i..]) == Encoded(input)
    {
      ghost var rest := input[i + 3..];
      EncodedStep(input, i);
      AppendGroup(encoded, EncodedGroup(input[i], input[i + 1], input[i + 2]), Encoded(rest));
      BitsOfPacked(input[i], input[i + 1], input[i + 2]);
      var temp := Packed(input[i], input[i + 1], input[i + 2]);
      encoded := encoded + [Letter(Bits18(temp)), Letter(Bits12(temp)), Letter(Bits6(temp)), Letter(Bits0(temp))];
      i := i + 3;
    }
    var tail := EncodeRemainder(input, i);
    encoded := encoded + tail;
  }

  // ----- the decoder, whose accumulator is never reset -----

  function Low2(p: bv8, q: bv8): bv32 { (p as bv32 << 6) | q as bv32 }

  function Low3(p: bv8, q: bv8, r: bv8): bv32 { (p as bv32 << 12) | (q as bv32 << 6) | r as bv32 }

  function Low4(p: bv8, q: bv8, r: bv8, s: bv8): bv32
  {
    (p as bv32 << 18) | (q as bv32 << 12) | (r as bv32 << 6) | s as bv32
  }

  /** The low 6k bits of the accumulator are the first k digits of the current group. */
  ghost predicate LowDigits(temp: bv32, d: seq<bv8>)
    requires |d| <= 4
  {
    if |d| == 0 then true
    else if |d| == 1 then temp & 0x3F == d[0] as bv32
    else if |d| == 2 then temp & 0xFFF == Low2(d[0], d[1])
    else if |d| == 3 then temp & 0x3FFFF == Low3(d[0], d[1], d[2])
    else temp & 0xFFFFFF == Low4(d[0], d[1], d[2], d[3])
  }

  function ShiftIn(temp: bv32, x: bv8): bv32 { (temp << 6) | x as bv32 }

  lemma ShiftInOne(temp: bv32, x: bv8)
    requires x < 64
    ensures ShiftIn(temp, x) & 0x3F == x as bv32
  {
  }

  lemma ShiftInTwo(temp: bv32, p: bv8, x: bv8)
    requires x < 64 && temp & 0x3F == p as bv32
    ensures ShiftIn(temp, x) & 0xFFF == Low2(p, x)
  {
  }

  lemma ShiftInMasked(temp: bv32, x: bv8)
    requires x < 64
    ensures ShiftIn(temp, x) & 0x3FFFF == ShiftIn(temp & 0xFFF, x)
    ensures ShiftIn(temp, x) & 0xFFFFFF == ShiftIn(temp & 0x3FFFF, x)
  {
  }

  lemma ShiftInLow(p: bv8, q: bv8, r: bv8, x: bv8)
    ensures ShiftIn(Low2(p, q), x) == Low3(p, q, x)
    ensures ShiftIn(Low3(p, q, r), x) == Low4(p, q, r, x)
  {
  }

  /** Shifting a digit in pushes older bits up and leaves the low bits to the newest digits. */
  lemma NextDigit(temp: bv32, d: seq<bv8>, x: bv8)
    requires |d| < 4 && LowDigits(temp, d) && x < 64
    ensures LowDigits(ShiftIn(temp, x), d + [x])
  {
    hide Low2, Low3, Low4, ShiftIn;
    if |d| == 0 {
      ShiftInOne(temp, x);
    } else if |d| == 1 {
      ShiftInTwo(temp, d[0], x);
    } else if |d| == 2 {
      ShiftInMasked(temp, x);
      ShiftInLow(d[0], d[1], 0, x);
    } else {
      ShiftInMasked(temp, x);
      ShiftInLow(d[0], d[1], d[2], x);
    }
  }

  function Byte16(temp: bv32): bv8 { ((temp >> 16) & 0x000000FF) as bv8 }

  function Byte10(temp: bv32): bv8 { ((temp >> 10) & 0x000000FF) as bv8 }

  function Byte8(temp: bv32): bv8 { ((temp >> 8) & 0x000000FF) as bv8 }

  function Byte0(temp: bv32): bv8 { (temp & 0x000000FF) as bv8 }

  /** Stale high bits never reach the output: the bytes depend on the current group only. */
  lemma WholeGroup(temp: bv32, p: bv8, q: bv8, r: bv8, s: bv8)
    requires temp & 0xFFFFFF == Low4(p, q, r, s) && p < 64 && q < 64 && r < 64 && s < 64
    ensures Byte16(temp) == B0(p, q) && Byte8(temp) == B1(q, r) && Byte0(temp) == B2(r, s)
  {
  }

  lemma ThreeDigits(temp: bv32, p: bv8, q: bv8, r: bv8)
    requires temp & 0x3FFFF == Low3(p, q, r) && p < 64 && q < 64 && r < 64
    ensures Byte16(temp << 6) == B0(p, q) && Byte8(temp << 6) == B1(q, r)
  {
  }

  lemma TwoDigits(temp: bv32, p: bv8, q: bv8)
    requires temp & 0xFFF == Low2(p, q) && p < 64 && q < 64
    ensures Byte10(temp << 6) == B0(p, q)
  {
  }

  lemma BytesOfDigits(temp: bv32, d: seq<bv8>)
    requires |d| <= 4 && LowDigits(temp, d) && forall k :: 0 <= k < |d| ==> d[k] < 64
    ensures |d| == 2 ==> Byte10(temp << 6) == B0(d[0], d[1])
    ensures |d| == 3 ==> Byte16(temp << 6) == B0(d[0], d[1]) && Byte8(temp << 6) == B1(d[1], d[2])
    ensures |d| == 4 ==>
              Byte16(temp) == B0(d[0], d[1]) && Byte8(temp) == B1(d[1], d[2]) && Byte0(temp) == B2(d[2], d[3])
  {
    hide Low2, Low3, Low4, Byte16, Byte10, Byte8, Byte0, B0, B1, B2;
    if |d| == 2 {
      TwoDigits(temp, d[0], d[1]);
    } else if |d| == 3 {
      ThreeDigits(temp, d[0], d[1], d[2]);
    } else if |d| == 4 {
      WholeGroup(temp, d[0], d[1], d[2], d[3]);
    }
  }

  // ----- one step of the reading of a group -----

  lemma DecodedStep(s: seq<bv8>, d: seq<bv8>)
    requires |s| % 4 == 0 && |s| > 0 && |d| <= 4
    requires forall k :: 0 <= k < |d| ==> Digit(s[k]) == Some(d[k])
    ensures |d| < 4 && Digit(s[|d|]).None? ==>
              DecodedGroups(s) ==
              if s[|d|] == PAD && |s| == 4 && |d| >= 2 then
                Ok(if |d| == 2 then [B0(d[0], d[1])] else [B0(d[0], d[1]), B1(d[1], d[2])])
              else Bad(s[|d|])
    ensures |d| == 4 ==>
              DecodedGroups(s) ==
              Behind([B0(d[0], d[1]), B1(d[1], d[2]), B2(d[2], d[3])], DecodedGroups(s[4..]))
  {
    hide Digit, B0, B1, B2;
  }

  /** How the reading of one group ends: with the whole text, or with the accumulator. */
  datatype GroupEnd = Finished(last: Result) | Carry(temp: bv32)

  /** The inner loop: up to four characters, shifted into an accumulator that still holds the
      digits of the groups before. */
  method DecodeGroup(input: seq<bv8>, start: nat, before: bv32) returns (end: GroupEnd)
    requires start < |input| && |input| % 4 == 0 && start % 4 == 0
    ensures end.Finished? ==> end.last == DecodedGroups(input[start..])
    ensures end.Carry? ==>
              DecodedGroups(input[start..]) ==
              Behind([Byte16(end.temp), Byte8(end.temp), Byte0(end.temp)], DecodedGroups(input[start + 4..]))
  {
    hide B0, B1, B2, LowDigits, Digit, DecodedGroups, Byte16, Byte10, Byte8, Byte0, ShiftIn;
    ghost var group := input[start..];
    ghost var digits: seq<bv8> := [];
    assert |group| % 4 == 0;
    NoDigits(before);
    var temp, it, i := before, start, 0;
    while i < 4
      invariant 0 <= i <= 4 && it == start + i
      invariant |digits| == i && LowDigits(temp, digits)
      invariant forall k :: 0 <= k < i ==> Digit(group[k]) == Some(digits[k]) && digits[k] < 64
    {
      var c := input[it];
      assert c == group[i];
      var d := Digit(c);
      ghost var was := temp;
      temp := temp << 6;
      if d.Some? {
        LetterOfDigit(c);
        NextDigit(was, digits, d.value);
        PushIsShiftIn(was, d.value);
        digits := digits + [d.value];
        temp := temp | d.value as bv32;
      } else {
        DecodedStep(group, digits);
        if c == PAD {
          BytesOfDigits(was, digits);
          match |input| - it
          case 1 => return Finished(Ok([Byte16(temp), Byte8(temp)]));
          case 2 => return Finished(Ok([Byte10(temp)]));
          case _ => return Finished(Err(BadPadding));
        } else {
          return Finished(Err(BadCharacter));
        }
      }
      it := it + 1;
      i := i + 1;
    }
    BytesOfDigits(temp, digits);
    DecodedStep(group, digits);
    assert group[4..] == input[start + 4..];
    return Carry(temp);
  }

  method Decode(input: seq<bv8>) returns (r: Result)
    ensures r == Decoded(input)
  {
    if |input| % 4 != 0 {
      return Err(BadLength);
    }
    hide DecodedGroups, Byte16, Byte8, Byte0;
    var decoded := [];
    var temp: bv32 := 0;
    var it := 0;
    assert input[0..] == input;
    while it < |input|
      invariant 0 <= it <= |input| && it % 4 == 0
      invariant Behind(decoded, DecodedGroups(input[it..])) == DecodedGroups(input)
    {
      var end := DecodeGroup(input, it, temp);
      if end.Finished? {
        return Behind(decoded, end.last);
      }
      temp := end.temp;
      BehindTwice(decoded, [Byte16(temp), Byte8(temp), Byte0(temp)], DecodedGroups(input[it + 4..]));
      decoded := decoded + [Byte16(temp), Byte8(temp), Byte0(temp)];
      it := it + 4;
    }
    assert input[it..] == [];
    NothingToDecode();
    return Ok(decoded);
  }

  lemma NothingToDecode()
    ensures DecodedGroups([]) == Ok([])
  {
  }

  lemma PushIsShiftIn(temp: bv32, x: bv8)
    ensures (temp << 6) | x as bv32 == ShiftIn(temp, x)
  {
  }

  lemma NoDigits(temp: bv32)
    ensures LowDigits(temp, [])
  {
  }

  lemma BehindTwice(a: seq<bv8>, b: seq<bv8>, r: Result)
    ensures Behind(a, Behind(b, r)) == Behind(a + b, r)
  {
    if r.Ok? {
      assert a + (b + r.bytes) == a + b + r.bytes;
    }
  }

  // ----- laws -----

  lemma DigitOfGroup(a: bv8, b: bv8, c: bv8)
    ensures var g := EncodedGroup(a, b, c);
            Digit(g[0]) == Some(D0(a)) && Digit(g[1]) == Some(D1(a, b)) &&
            Digit(g[2]) == Some(D2(b, c)) && Digit(g[3]) == Some(D3(c))
  {
    hide D0, D1, D2, D3, Letter, Digit;
    DigitOfLetter(D0(a));
    DigitOfLetter(D1(a, b));
    DigitOfLetter(D2(b, c));
    DigitOfLetter(D3(c));
  }

  lemma PadIsNoDigit()
    ensures Digit(PAD) == None
  {
  }

  /** Decoding undoes encoding on every byte sequence. */
  lemma {:induction false} DecodeUndoesEncode(b: seq<bv8>)
    ensures Decoded(Encoded(b)) == Ok(b)
    ensures |Encoded(b)| % 4 == 0
  {
    hide D0, D1, D2, D3, Letter, Digit, B0, B1, B2;
    PadIsNoDigit();
    var s := Encoded(b);
    if b == [] {
    } else {
      var x := if |b| > 1 then b[1] else 0;
      var y := if |b| > 2 then b[2] else 0;
      var g := EncodedGroup(b[0], x, y);
      DigitOfGroup(b[0], x, y);
      GroupThereAndBack(b[0], x, y);
      if |b| == 1 {
        assert s == [g[0], g[1], PAD, PAD];
        assert b == [b[0]];
      } else if |b| == 2 {
        assert s == [g[0], g[1], g[2], PAD];
        assert b == [b[0], b[1]];
      } else {
        DecodeUndoesEncode(b[3..]);
        assert s == g + Encoded(b[3..]);
        assert s[4..] == Encoded(b[3..]);
        assert b == [b[0], b[1], b[2]] + b[3..];
      }
    }
  }

  /** The position of the first padding character, or the length of the text. */
  function FirstPad(s: seq<bv8>): (n: nat)
    ensures n <= |s|
  {
    if s == [] || s[0] == PAD then 0 else 1 + FirstPad(s[1..])
  }

  lemma {:induction false} FirstPadIs(s: seq<bv8>, k: nat)
    requires k <= |s| && forall i :: 0 <= i < k ==> s[i] != PAD
    ensures FirstPad(s) == k + FirstPad(s[k..])
  {
    if k == 0 {
      assert s[0..] == s;
    } else {
      FirstPadIs(s[1..], k - 1);
      assert s[1..][k - 1..] == s[k..];
    }
  }

  /** Padding in the last two places only, and nothing but the alphabet in front of it. */
  ghost predicate WellFormed(s: seq<bv8>)
  {
    |s| <= FirstPad(s) + 2 && forall i :: 0 <= i < FirstPad(s) ==> Digit(s[i]).Some?
  }

  /** The first character of a group that is no digit decides. */
  lemma StopsAt(s: seq<bv8>, k: nat)
    requires k < 4 <= |s| && Digit(s[k]).None? && forall i :: 0 <= i < k ==> Digit(s[i]).Some?
    ensures WellFormed(s) <==> s[k] == PAD && |s| <= k + 2
  {
    hide Digit;
    forall i | 0 <= i < k ensures s[i] != PAD {
      LetterOfDigit(s[i]);
    }
    FirstPadIs(s, k);
  }

  lemma WellFormedTail(s: seq<bv8>)
    requires |s| >= 4 && forall i :: 0 <= i < 4 ==> Digit(s[i]).Some?
    ensures WellFormed(s) <==> WellFormed(s[4..])
  {
    hide Digit;
    forall i | 0 <= i < 4 ensures s[i] != PAD {
      LetterOfDigit(s[i]);
    }
    FirstPadIs(s, 4);
    var t := s[4..];
    if WellFormed(s) {
      forall i | 0 <= i < FirstPad(t) ensures Digit(t[i]).Some? {
        assert t[i] == s[i + 4];
      }
    }
    if WellFormed(t) {
      forall i | 0 <= i < FirstPad(s) ensures Digit(s[i]).Some? {
        if i >= 4 {
          assert s[i] == t[i - 4];
        }
      }
    }
  }

  /** Decoding succeeds exactly on the well-formed texts of whole groups; what stands behind the
      first padding character is not looked at. */
  lemma {:induction false} DecodesExactly(s: seq<bv8>)
    ensures Decoded(s).Ok? <==> |s| % 4 == 0 && WellFormed(s)
  {
    hide Digit, B0, B1, B2;
    if |s| % 4 == 0 && s != [] {
      if Digit(s[0]).None? {
        StopsAt(s, 0);
      } else if Digit(s[1]).None? {
        StopsAt(s, 1);
      } else if Digit(s[2]).None? {
        StopsAt(s, 2);
      } else if Digit(s[3]).None? {
        StopsAt(s, 3);
      } else {
        WellFormedTail(s);
        DecodesExactly(s[4..]);
      }
    }
  }

  /** Padding fills the last group up, and the bits it makes unused are zero (section 3.5). */
  ghost predicate Canonical(s: seq<bv8>)
    requires |s| % 4 == 0
  {
    s == [] ||
    var p, q, r, t := s[|s| - 4], s[|s| - 3], s[|s| - 2], s[|s| - 1];
    if r == PAD then t == PAD && Digit(q).Some? && Digit(q).value & 0x0F == 0
    else t == PAD ==> Digit(r).Some? && Digit(r).value & 0x03 == 0
  }

  lemma LettersOfGroup(s: seq<bv8>)
    requires |s| >= 4 && Digit(s[0]).Some? && Digit(s[1]).Some?
    ensures Letter(Digit(s[0]).value) == s[0] && Letter(Digit(s[1]).value) == s[1]
    ensures Digit(s[2]).Some? ==> Letter(Digit(s[2]).value) == s[2] && s[2] != PAD
    ensures Digit(s[3]).Some? ==> Letter(Digit(s[3]).value) == s[3] && s[3] != PAD
  {
    hide Digit, Letter;
    LetterOfDigit(s[0]);
    LetterOfDigit(s[1]);
    if Digit(s[2]).Some? {
      LetterOfDigit(s[2]);
    }
    if Digit(s[3]).Some? {
      LetterOfDigit(s[3]);
    }
  }

  lemma LetterIsInjective(a: bv8, b: bv8)
    requires a < 64 && b < 64
    ensures Letter(a) == Letter(b) <==> a == b
    ensures Letter(a) != PAD
  {
  }

  lemma LastGroupOfOne(s: seq<bv8>)
    requires |s| == 4 && Decoded(s).Ok? && Digit(s[2]).None?
    ensures Encoded(Decoded(s).bytes) == s <==> Canonical(s)
  {
    hide D0, D1, D2, D3, Letter, Digit, B0, B1, B2;
    LettersOfGroup(s);
    LetterOfDigit(s[0]);
    LetterOfDigit(s[1]);
    PadIsNoDigit();
    var p, q := Digit(s[0]).value, Digit(s[1]).value;
    GroupBackAndThere(p, q, 0, 0);
    LetterIsInjective(q, D1(B0(p, q), 0));
    assert Encoded(Decoded(s).bytes) == [Letter(D0(B0(p, q))), Letter(D1(B0(p, q), 0)), PAD, PAD];
  }

  lemma LastGroupOfTwo(s: seq<bv8>)
    requires |s| == 4 && Decoded(s).Ok? && Digit(s[2]).Some? && Digit(s[3]).None?
    ensures Encoded(Decoded(s).bytes) == s <==> Canonical(s)
  {
    hide D0, D1, D2, D3, Letter, Digit, B0, B1, B2;
    LettersOfGroup(s);
    LetterOfDigit(s[0]);
    LetterOfDigit(s[1]);
    LetterOfDigit(s[2]);
    PadIsNoDigit();
    var p, q, r := Digit(s[0]).value, Digit(s[1]).value, Digit(s[2]).value;
    GroupBackAndThere(p, q, r, 0);
    LetterIsInjective(r, D2(B1(q, r), 0));
    assert Encoded(Decoded(s).bytes) ==
           [Letter(D0(B0(p, q))), Letter(D1(B0(p, q), B1(q, r))), Letter(D2(B1(q, r), 0)), PAD];
  }

  /** The last group comes back exactly when it is canonical. */
  lemma LastGroup(s: seq<bv8>)
    requires |s| == 4 && Decoded(s).Ok? && (Digit(s[2]).None? || Digit(s[3]).None?)
    ensures Encoded(Decoded(s).bytes) == s <==> Canonical(s)
  {
    if Digit(s[2]).None? {
      LastGroupOfOne(s);
    } else {
      LastGroupOfTwo(s);
    }
  }

  lemma FullGroup(s: seq<bv8>)
    requires |s| % 4 == 0 && |s| >= 4 && forall i :: 0 <= i < 4 ==> Digit(s[i]).Some?
    requires DecodedGroups(s[4..]).Ok?
    ensures Decoded(s).Ok? && Encoded(Decoded(s).bytes) == s[..4] + Encoded(DecodedGroups(s[4..]).bytes)
  {
    LettersOfGroup(s);
    LetterOfDigit(s[0]);
    LetterOfDigit(s[1]);
    LetterOfDigit(s[2]);
    LetterOfDigit(s[3]);
    var p, q, r, t := Digit(s[0]).value, Digit(s[1]).value, Digit(s[2]).value, Digit(s[3]).value;
    GroupBackAndThere(p, q, r, t);
    hide D0, D1, D2, D3, Letter, Digit, B0, B1, B2;
    var b := DecodedGroups(s[4..]).bytes;
    var bytes := [B0(p, q), B1(q, r), B2(r, t)] + b;
    assert bytes[3..] == b;
    assert s[..4] == [s[0], s[1], s[2], s[3]];
  }

  lemma CanonicalTail(s: seq<bv8>)
    requires |s| >= 4 && |s| % 4 == 0 && Digit(s[2]).Some? && Digit(s[3]).Some? && Digit(s[0]).Some? &&
             Digit(s[1]).Some?
    ensures Canonical(s) <==> Canonical(s[4..])
  {
    LettersOfGroup(s);
    hide Digit, Letter;
  }

  lemma SameBehind<T>(s: seq<T>, e: seq<T>)
    requires |s| >= 4
    ensures s[..4] + e == s <==> e == s[4..]
  {
    assert (s[..4] + e)[4..] == e;
    assert s == s[..4] + s[4..];
  }

  lemma TailDecoded(s: seq<bv8>)
    requires Decoded(s).Ok? && s != []
    ensures |s| % 4 == 0 && |s| >= 4 && Digit(s[0]).Some? && Digit(s[1]).Some?
    ensures Digit(s[2]).None? || Digit(s[3]).None? ==> |s| == 4
    ensures Digit(s[2]).Some? && Digit(s[3]).Some? ==>
            DecodedGroups(s[4..]).Ok? && Decoded(s[4..]) == DecodedGroups(s[4..])
  {
    hide Digit, B0, B1, B2;
  }

  lemma GroupInFront(s: seq<bv8>)
    requires |s| >= 4 && |s| % 4 == 0 && |s[4..]| % 4 == 0 && Decoded(s).Ok? && Digit(s[2]).Some? && Digit(s[3]).Some?
    requires Decoded(s[4..]).Ok? && (Encoded(Decoded(s[4..]).bytes) == s[4..] <==> Canonical(s[4..]))
    ensures Encoded(Decoded(s).bytes) == s <==> Canonical(s)
  {
    hide Encoded, Decoded, DecodedGroups, Canonical, Digit;
    TailDecoded(s);
    FullGroup(s);
    SameBehind(s, Encoded(DecodedGroups(s[4..]).bytes));
    CanonicalTail(s);
  }

  /** Encoding gives a decoded text back exactly when the text is canonical. */
  lemma {:induction false} EncodeUndoesDecode(s: seq<bv8>)
    requires Decoded(s).Ok?
    ensures Encoded(Decoded(s).bytes) == s <==> Canonical(s)
  {
    if s != [] {
      hide Encoded, Decoded, DecodedGroups, Canonical, Digit;
      TailDecoded(s);
      if Digit(s[2]).None? || Digit(s[3]).None? {
        LastGroup(s);
      } else {
        EncodeUndoesDecode(s[4..]);
        GroupInFront(s);
      }
    }
  }

  // ----- the table of RFC 4648 -----

  const ALPHABET: string := "ABCDEFGHIJKLMNOPQRSTUVWXYZ" + "abcdefghijklmnopqrstuvwxyz" + "0123456789+/"

  /** Bit j of a byte, the first one on top, is set. */
  predicate BitSet(x: bv8, j: nat)
    requires j < 8
  {
    match j
    case 0 => x & 0x80 != 0
    case 1 => x & 0x40 != 0
    case 2 => x & 0x20 != 0
    case 3 => x & 0x10 != 0
    case 4 => x & 0x08 != 0
    case 5 => x & 0x04 != 0
    case 6 => x & 0x02 != 0
    case 7 => x & 0x01 != 0
  }

  /** Bit k of a byte sequence, zero behind its end. */
  function BitAt(b: seq<bv8>, k: nat): nat
  {
    if k < 8 * |b| && BitSet(b[k / 8], k % 8) then 1 else 0
  }

  /** Six bits from bit k on, as a number. */
  function SixBits(b: seq<bv8>, k: nat): (n: nat)
    ensures n < 64
  {
    32 * BitAt(b, k) + 16 * BitAt(b, k + 1) + 8 * BitAt(b, k + 2) +
    4 * BitAt(b, k + 3) + 2 * BitAt(b, k + 4) + BitAt(b, k + 5)
  }

  function Choose(c: bool, n: nat): nat { if c then n else 0 }

  lemma D0Bits(a: bv8)
    ensures D0(a) as int == Choose(BitSet(a, 0), 32) + Choose(BitSet(a, 1), 16) + Choose(BitSet(a, 2), 8) +
                            Choose(BitSet(a, 3), 4) + Choose(BitSet(a, 4), 2) + Choose(BitSet(a, 5), 1)
  {
  }

  lemma D1Bits(a: bv8, b: bv8)
    ensures D1(a, b) as int == Choose(BitSet(a, 6), 32) + Choose(BitSet(a, 7), 16) + Choose(BitSet(b, 0), 8) +
                               Choose(BitSet(b, 1), 4) + Choose(BitSet(b, 2), 2) + Choose(BitSet(b, 3), 1)
  {
  }

  lemma D2Bits(b: bv8, c: bv8)
    ensures D2(b, c) as int == Choose(BitSet(b, 4), 32) + Choose(BitSet(b, 5), 16) + Choose(BitSet(b, 6), 8) +
                               Choose(BitSet(b, 7), 4) + Choose(BitSet(c, 0), 2) + Choose(BitSet(c, 1), 1)
  {
  }

  lemma D3Bits(c: bv8)
    ensures D3(c) as int == Choose(BitSet(c, 2), 32) + Choose(BitSet(c, 3), 16) + Choose(BitSet(c, 4), 8) +
                            Choose(BitSet(c, 5), 4) + Choose(BitSet(c, 6), 2) + Choose(BitSet(c, 7), 1)
  {
  }

  lemma LetterIsInTable(d: bv8)
    requires d < 64
    ensures (d as int) < 64 && Letter(d) as int == ALPHABET[d as int] as int
  {
    TableUpper();
    TableLower();
    TableRest();
  }

  lemma TableUpper()
    ensures forall i :: 0 <= i < 26 ==> ALPHABET[i] as int == 65 + i
  {
  }

  lemma TableLower()
    ensures forall i :: 26 <= i < 52 ==> ALPHABET[i] as int == 71 + i
  {
  }

  lemma TableRest()
    ensures forall i :: 52 <= i < 62 ==> ALPHABET[i] as int == i - 4
    ensures ALPHABET[62] as int == 43 && ALPHABET[63] as int == 47
  {
  }

  lemma BitsMove(b: seq<bv8>, k: nat)
    requires |b| >= 3
    ensures BitAt(b, k + 24) == BitAt(b[3..], k)
  {
    assert (k + 24) / 8 == k / 8 + 3 && (k + 24) % 8 == k % 8;
    hide BitSet;
  }

  lemma SixBitsMove(b: seq<bv8>, k: nat)
    requires |b| >= 3
    ensures SixBits(b, k + 24) == SixBits(b[3..], k)
  {
    BitsMove(b, k);
    BitsMove(b, k + 1);
    BitsMove(b, k + 2);
    BitsMove(b, k + 3);
    BitsMove(b, k + 4);
    BitsMove(b, k + 5);
    hide BitAt;
  }

  lemma BitOf(b: seq<bv8>, k: nat, i: nat, j: nat)
    requires k == 8 * i + j && j < 8
    ensures BitAt(b, k) == Choose(BitSet(if i < |b| then b[i] else 0, j), 1)
  {
    NoBits();
    hide BitSet;
    assert k / 8 == i && k % 8 == j;
  }

  lemma NoBits()
    ensures forall j :: 0 <= j < 8 ==> !BitSet(0, j)
  {
  }

  /** The four digits of the first three bytes; a byte that is not there counts as zero. */
  lemma FirstDigit0(b: seq<bv8>)
    ensures SixBits(b, 0) == D0(if 0 < |b| then b[0] else 0) as int
  {
    D0Bits(if 0 < |b| then b[0] else 0);
    hide BitSet, D0, BitAt;
    BitOf(b, 0, 0, 0);
    BitOf(b, 1, 0, 1);
    BitOf(b, 2, 0, 2);
    BitOf(b, 3, 0, 3);
    BitOf(b, 4, 0, 4);
    BitOf(b, 5, 0, 5);
  }

  lemma FirstDigit1(b: seq<bv8>)
    ensures SixBits(b, 6) == D1(if 0 < |b| then b[0] else 0, if 1 < |b| then b[1] else 0) as int
  {
    D1Bits(if 0 < |b| then b[0] else 0, if 1 < |b| then b[1] else 0);
    hide BitSet, D1, BitAt;
    BitOf(b, 6, 0, 6);
    BitOf(b, 7, 0, 7);
    BitOf(b, 8, 1, 0);
    BitOf(b, 9, 1, 1);
    BitOf(b, 10, 1, 2);
    BitOf(b, 11, 1, 3);
  }

  lemma FirstDigit2(b: seq<bv8>)
    ensures SixBits(b, 12) == D2(if 1 < |b| then b[1] else 0, if 2 < |b| then b[2] else 0) as int
  {
    D2Bits(if 1 < |b| then b[1] else 0, if 2 < |b| then b[2] else 0);
    hide BitSet, D2, BitAt;
    BitOf(b, 12, 1, 4);
    BitOf(b, 13, 1, 5);
    BitOf(b, 14, 1, 6);
    BitOf(b, 15, 1, 7);
    BitOf(b, 16, 2, 0);
    BitOf(b, 17, 2, 1);
  }

  lemma FirstDigit3(b: seq<bv8>)
    ensures SixBits(b, 18) == D3(if 2 < |b| then b[2] else 0) as int
  {
    D3Bits(if 2 < |b| then b[2] else 0);
    hide BitSet, D3, BitAt;
    BitOf(b, 18, 2, 2);
    BitOf(b, 19, 2, 3);
    BitOf(b, 20, 2, 4);
    BitOf(b, 21, 2, 5);
    BitOf(b, 22, 2, 6);
    BitOf(b, 23, 2, 7);
  }

  /** What stands at place i of an encoding. */
  function TableAt(b: seq<bv8>, i: nat): char
  {
    if 6 * i < 8 * |b| then ALPHABET[SixBits(b, 6 * i)] else '='
  }

  lemma TableMoves(b: seq<bv8>, i: nat)
    requires |b| >= 3 && i >= 4
    ensures TableAt(b, i) == TableAt(b[3..], i - 4)
  {
    hide SixBits;
    SixBitsMove(b, 6 * (i - 4));
  }

  lemma FirstCharacters(b: seq<bv8>)
    requires b != []
    ensures var x, y := if 1 < |b| then b[1] else 0, if 2 < |b| then b[2] else 0;
            |Encoded(b)| >= 4 && Encoded(b)[0] == Letter(D0(b[0])) && Encoded(b)[1] == Letter(D1(b[0], x)) &&
            Encoded(b)[2] == (if |b| > 1 then Letter(D2(x, y)) else PAD) &&
            Encoded(b)[3] == (if |b| > 2 then Letter(D3(y)) else PAD)
  {
    hide D0, D1, D2, D3, Letter;
  }

  lemma PadIsEqualsSign()
    ensures PAD as int == '=' as int
  {
  }

  lemma FirstFour(b: seq<bv8>, i: nat)
    requires b != [] && i < 4
    ensures i < |Encoded(b)| && Encoded(b)[i] as int == TableAt(b, i) as int
  {
    hide D0, D1, D2, D3, Letter, SixBits, Encoded, PAD, ALPHABET;
    FirstCharacters(b);
    PadIsEqualsSign();
    var x, y := if 1 < |b| then b[1] else 0, if 2 < |b| then b[2] else 0;
    if i == 0 {
      FirstDigit0(b);
      LetterIsInTable(D0(b[0]));
    } else if i == 1 {
      FirstDigit1(b);
      LetterIsInTable(D1(b[0], x));
    } else if i == 2 {
      FirstDigit2(b);
      LetterIsInTable(D2(x, y));
    } else {
      FirstDigit3(b);
      LetterIsInTable(D3(y));
    }
  }

  lemma {:induction false} EncodedLength(b: seq<bv8>)
    ensures |Encoded(b)| == 4 * ((|b| + 2) / 3)
  {
    if |b| >= 3 {
      EncodedLength(b[3..]);
    }
  }

  /** The characters of an encoding are the characters of the table of section 4 of RFC 4648 at the
      groups of six bits of the input, which is padded with zero bits, and '=' in the places left. */
  lemma {:induction false} EncodedIsByTheTable(b: seq<bv8>, i: nat)
    requires i < |Encoded(b)|
    ensures |Encoded(b)| == 4 * ((|b| + 2) / 3)
    ensures Encoded(b)[i] as int == (if 6 * i < 8 * |b| then ALPHABET[SixBits(b, 6 * i)] else '=') as int
    decreases |b|
  {
    EncodedLength(b);
    if i < 4 {
      FirstFour(b, i);
    } else {
      EncodedBehind(b, i);
      EncodedIsByTheTable(b[3..], i - 4);
      TableMoves(b, i);
    }
    hide Encoded, SixBits;
  }

  lemma EncodedBehind(b: seq<bv8>, i: nat)
    requires 4 <= i < |Encoded(b)|
    ensures |b| > 3 && i - 4 < |Encoded(b[3..])| && Encoded(b)[i] == Encoded(b[3..])[i - 4]
  {
    hide D0, D1, D2, D3, Letter;
  }

  // ----- the errors -----

  lemma DigitIsInTable(c: bv8)
    ensures Digit(c).Some? <==> exists i :: 0 <= i < 64 && ALPHABET[i] as int == c as int
  {
    if Digit(c).Some? {
      LetterOfDigit(c);
      LetterIsInTable(Digit(c).value);
      assert ALPHABET[Digit(c).value as int] as int == c as int;
    }
    TableUpper();
    TableLower();
    TableRest();
    if i :| 0 <= i < 64 && ALPHABET[i] as int == c as int {
      TableCharacter(i, c);
    }
  }

  lemma TableCharacter(i: nat, c: bv8)
    requires i < 64 && ALPHABET[i] as int == c as int
    ensures Digit(c).Some?
  {
    TableUpper();
    TableLower();
    TableRest();
    hide ALPHABET;
    var n := c as int;
    assert 65 <= n <= 90 || 97 <= n <= 122 || 48 <= n <= 57 || n == 43 || n == 47;
  }

  /** A text of whole groups that does not decode raises the error of its first character that is not in
      the table: a misplaced '=' is a padding error, any other a character error. */
  lemma {:induction false} ErrorIsOfFirstBad(s: seq<bv8>, k: nat)
    requires |s| % 4 == 0 && k < |s| && Decoded(s).Err?
    requires Digit(s[k]).None? && forall i :: 0 <= i < k ==> Digit(s[i]).Some?
    ensures Decoded(s).error == if s[k] as int == '=' as int then BadPadding else BadCharacter
    decreases |s|
  {
    PadIsEqualsSign();
    assert s[k] == PAD <==> s[k] as int == PAD as int;
    hide Digit, B0, B1, B2, PAD;
    if k >= 4 {
      assert Decoded(s[4..]) == DecodedGroups(s[4..]);
      assert Decoded(s) == DecodedGroups(s);
      ErrorIsOfFirstBad(s[4..], k - 4);
    }
  }

  lemma LengthError(s: seq<bv8>)
    ensures Decoded(s) == Err(BadLength) <==> |s| % 4 != 0
  {
    if |s| % 4 == 0 {
      NoLengthError(s);
    }
  }

  lemma {:induction false} NoLengthError(s: seq<bv8>)
    requires |s| % 4 == 0
    ensures DecodedGroups(s) != Err(BadLength)
    decreases |s|
  {
    hide Digit, B0, B1, B2;
    if |s| >= 4 {
      NoLengthError(s[4..]);
    }
  }
}
