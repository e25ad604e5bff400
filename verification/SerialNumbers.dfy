/** Serial numbers, MAC addresses and list splitting of the utility library. */
module SerialNumbers {
  import opened Characters
  import opened Quotients
  import opened Widths

  // ----- hexadecimal digits -----

  predicate IsHex(c: char) { '0' <= c <= '9' || 'a' <= c <= 'f' || 'A' <= c <= 'F' }

  /** The value of a digit; any other character counts for nothing. */
  function HexDigit(c: char): (d: nat)
    ensures d < 16
  {
    if '0' <= c <= '9' then c as int - '0' as int
    else if 'a' <= c <= 'f' then c as int - 'a' as int + 10
    else if 'A' <= c <= 'F' then c as int - 'A' as int + 10
    else 0
  }

  function HexChar(d: nat): (c: char)
    requires d < 16
    ensures IsHex(c) && HexDigit(c) == d && !('A' <= c <= 'F')
  {
    if d < 10 then ('0' as int + d) as char else ('a' as int + d - 10) as char
  }

  lemma HexCharOfDigit(c: char)
    requires IsHex(c)
    ensures HexChar(HexDigit(c)) == LowerChar(c)
  {
  }

  /** Digits stand in the table at their values, in either case; nothing else is a digit. */
  lemma DigitsGoByTheTable(c: char)
    ensures IsHex(c) ==> LowerChar(c) == "0123456789abcdef"[HexDigit(c)]
    ensures !IsHex(c) ==> LowerChar(c) !in "0123456789abcdef" && HexDigit(c) == 0
  {
    var table := "0123456789abcdef";
    assert forall i :: 0 <= i < 10 ==> table[i] as int == '0' as int + i;
    assert forall i :: 10 <= i < 16 ==> table[i] as int == 'a' as int + i - 10;
  }

  predicate AllHex(s: string) { forall i :: 0 <= i < |s| ==> IsHex(s[i]) }

  /** The number a string of digits stands for. */
  function HexValue(s: string): nat
  {
    if s == [] then 0 else HexValue(s[..|s| - 1]) * 16 + HexDigit(s[|s| - 1])
  }

  function Pow16(k: nat): (p: nat)
    ensures p > 0
  {
    if k == 0 then 1 else 16 * Pow16(k - 1)
  }

  lemma {:induction false} HexValueBound(s: string)
    ensures HexValue(s) < Pow16(|s|)
  {
    if s != [] {
      HexValueBound(s[..|s| - 1]);
    }
  }

  lemma {:induction false} HexValueConcat(a: string, b: string)
    ensures HexValue(a + b) == HexValue(a) * Pow16(|b|) + HexValue(b)
  {
    if b == [] {
      assert a + b == a;
    } else {
      var b', c := b[..|b| - 1], b[|b| - 1];
      assert (a + b)[..|a + b| - 1] == a + b' && (a + b)[|a + b| - 1] == c;
      HexValueConcat(a, b');
      assert HexValue(a + b) == HexValue(a + b') * 16 + HexDigit(c);
      Distribute(HexValue(a), Pow16(|b'|), HexValue(b'));
    }
  }

  lemma Distribute(x: nat, p: nat, y: nat)
    ensures (x * p + y) * 16 == x * (16 * p) + y * 16
  {
  }

  /** The last k digits of a number. */
  function HexText(n: nat, k: nat): (s: string)
    ensures |s| == k && AllHex(s)
    decreases k
  {
    if k == 0 then [] else HexText(n / 16, k - 1) + [HexChar(n % 16)]
  }

  lemma {:induction false} ValueOfHexText(n: nat, k: nat)
    ensures HexValue(HexText(n, k)) == n % Pow16(k)
    decreases k
  {
    if k > 0 {
      ValueOfHexText(n / 16, k - 1);
      var s := HexText(n, k);
      assert s[..|s| - 1] == HexText(n / 16, k - 1);
      ModStep(n, Pow16(k - 1));
    }
  }

  lemma ModStep(n: nat, p: nat)
    requires p > 0
    ensures n % (16 * p) == (n / 16) % p * 16 + n % 16
  {
    var q, r := n / 16, n % 16;
    var a, b := q / p, q % p;
    assert q == p * a + b;
    assert n == 16 * (p * a + b) + r == (16 * p) * a + (16 * b + r);
    QuotientIs(n, 16 * p, a, 16 * b + r);
  }

  lemma {:induction false} HexTextOfValue(s: string)
    requires AllHex(s)
    ensures HexText(HexValue(s), |s|) == Lower(s)
  {
    if s != [] {
      var t, c := s[..|s| - 1], s[|s| - 1];
      HexTextOfValue(t);
      HexCharOfDigit(c);
      assert HexValue(s) / 16 == HexValue(t) && HexValue(s) % 16 == HexDigit(c);
      assert Lower(s) == Lower(t) + [LowerChar(c)];
    }
  }

  /** The text of a number has the digit of each power of sixteen in its place. */
  lemma {:induction false} TextGoesByTheTable(n: nat, k: nat, i: nat)
    requires i < k
    ensures HexText(n, k)[i] == "0123456789abcdef"[n / Pow16(k - 1 - i) % 16]
  {
    if i == k - 1 {
      LastDigit(n);
    } else {
      TextGoesByTheTable(n / 16, k - 1, i);
      QuotientTwice(n, 16, Pow16(k - 2 - i));
    }
    hide HexChar;
  }

  lemma LastDigit(n: nat)
    ensures HexChar(n % 16) == "0123456789abcdef"[n % 16] && n / Pow16(0) == n
  {
    var table := "0123456789abcdef";
    assert forall i :: 0 <= i < 10 ==> table[i] as int == '0' as int + i;
    assert forall i :: 10 <= i < 16 ==> table[i] as int == 'a' as int + i - 10;
  }

  // ----- serial number to integer and back -----

  datatype Parsed = Number(n: nat) | InvalidArgument | OutOfRange

  function HexPrefix(s: string): (p: string)
    ensures p <= s && AllHex(p)
  {
    if s != [] && IsHex(s[0]) then [s[0]] + HexPrefix(s[1..]) else []
  }

  function WithoutSign(s: string): string
  {
    if s != [] && (s[0] == '-' || s[0] == '+') then s[1..] else s
  }

  function WithoutPrefix(t: string): string
  {
    if |t| > 2 && t[0] == '0' && (t[1] == 'x' || t[1] == 'X') && IsHex(t[2]) then t[2..] else t
  }

  /** std::stoull in base 16: leading space, a sign and an 0x prefix are accepted, anything
      behind the digits is ignored. */
  function SerialNumberToInt(serial: string): Parsed
  {
    var s := TrimLeft(serial);
    var negative := s != [] && s[0] == '-';
    var digits := HexPrefix(WithoutPrefix(WithoutSign(s)));
    if digits == [] then InvalidArgument
    else if HexValue(digits) >= U64 then OutOfRange
    else Number(if negative then (U64 - HexValue(digits)) % U64 else HexValue(digits))
  }

  lemma {:induction false} HexPrefixOfHex(s: string)
    requires AllHex(s)
    ensures HexPrefix(s) == s
  {
    if s != [] {
      assert forall i :: 0 <= i < |s[1..]| ==> s[1..][i] == s[i + 1];
      HexPrefixOfHex(s[1..]);
    }
  }

  lemma {:induction false} SpaceIsSkipped(space: string, rest: string)
    requires (forall c :: c in space ==> IsSpace(c)) && (rest == [] || !IsSpace(rest[0]))
    ensures TrimLeft(space + rest) == rest
  {
    if space == [] {
      assert space + rest == rest;
    } else {
      assert space[0] in space;
      assert (space + rest)[1..] == space[1..] + rest;
      SpaceIsSkipped(space[1..], rest);
    }
  }

  lemma {:induction false} PrefixStops(digits: string, rest: string)
    requires AllHex(digits) && (rest == [] || !IsHex(rest[0]))
    ensures HexPrefix(digits + rest) == digits
  {
    if digits == [] {
      assert digits + rest == rest;
    } else {
      assert (digits + rest)[1..] == digits[1..] + rest;
      PrefixStops(digits[1..], rest);
    }
  }

  /** What a read number is: negated in 64 bits behind a minus sign, and an error when it does not fit. */
  function ReadNumber(negative: bool, n: nat): Parsed
  {
    if n >= U64 then OutOfRange else Number(if negative && n > 0 then U64 - n else n)
  }

  lemma SignIsSkipped(sign: string, t: string)
    requires (sign == "" || sign == "+" || sign == "-") && (t == [] || (t[0] != '+' && t[0] != '-'))
    ensures WithoutSign(sign + t) == t
    ensures sign + t != [] && (sign + t)[0] == '-' <==> sign == "-"
    ensures t != [] && !IsSpace(t[0]) ==> sign + t != [] && !IsSpace((sign + t)[0])
  {
    if sign == "" {
      assert sign + t == t;
    } else {
      assert (sign + t)[1..] == t;
    }
  }

  lemma PrefixIsSkipped(prefix: string, digits: string, rest: string)
    requires prefix == "" || prefix == "0x" || prefix == "0X"
    requires digits != [] && AllHex(digits)
    requires prefix == "" ==> digits != "0" || |rest| < 2 || (rest[0] != 'x' && rest[0] != 'X') || !IsHex(rest[1])
    ensures WithoutPrefix(prefix + (digits + rest)) == digits + rest
    ensures IsHex((prefix + (digits + rest))[0])
  {
    var u := digits + rest;
    var t := prefix + u;
    if prefix == "" {
      assert t == u;
      if |digits| >= 2 {
        assert u[1] == digits[1];
      } else {
        assert digits == [digits[0]];
        assert |u| > 2 ==> u[1] == rest[0] && u[2] == rest[1];
      }
    } else {
      assert t[2..] == u && t[2] == digits[0];
    }
  }

  /** Space, a sign and a 0x prefix may stand in front of the digits, and anything but a digit behind them. */
  lemma NumbersAreRead(space: string, sign: string, prefix: string, digits: string, rest: string)
    requires forall c :: c in space ==> IsSpace(c)
    requires sign == "" || sign == "+" || sign == "-"
    requires prefix == "" || prefix == "0x" || prefix == "0X"
    requires digits != [] && AllHex(digits) && (rest == [] || !IsHex(rest[0]))
    requires prefix == "" ==> digits != "0" || |rest| < 2 || (rest[0] != 'x' && rest[0] != 'X') || !IsHex(rest[1])
    ensures SerialNumberToInt(space + (sign + (prefix + (digits + rest)))) == ReadNumber(sign == "-", HexValue(digits))
  {
    hide TrimLeft, HexPrefix, HexValue, WithoutSign, WithoutPrefix;
    PrefixStops(digits, rest);
    PrefixIsSkipped(prefix, digits, rest);
    SignIsSkipped(sign, prefix + (digits + rest));
    SpaceIsSkipped(space, sign + (prefix + (digits + rest)));
  }

  /** Without a digit there is nothing to read. */
  lemma NoDigitsAreInvalid(space: string, sign: string, rest: string)
    requires forall c :: c in space ==> IsSpace(c)
    requires sign == "" || sign == "+" || sign == "-"
    requires rest == [] || (!IsHex(rest[0]) && !IsSpace(rest[0]) && rest[0] != '+' && rest[0] != '-')
    ensures SerialNumberToInt(space + (sign + rest)) == InvalidArgument
  {
    SignIsSkipped(sign, rest);
    SpaceIsSkipped(space, sign + rest);
    hide TrimLeft, HexValue, WithoutSign;
  }

  predicate IsSerial(s: string) { |s| == 12 && AllHex(s) }

  lemma Pow16Values()
    ensures Pow16(6) == 0x100_0000 && Pow16(12) == 0x1_0000_0000_0000
  {
    assert Pow16(3) == 0x1000;
    assert Pow16(6) == 0x100_0000;
    assert Pow16(9) == 0x10_0000_0000;
  }

  lemma SerialToIntIsValue(s: string)
    requires IsSerial(s)
    ensures SerialNumberToInt(s) == Number(HexValue(s)) && HexValue(s) < 0x1_0000_0000_0000
  {
    HexPrefixOfHex(s);
    HexValueBound(s);
    Pow16Values();
    assert IsHex(s[0]) && IsHex(s[1]);
  }

  lemma HexTextStep(n: nat, k: nat, done: string)
    requires k > 0
    ensures HexText(n, k) + done == HexText(n / 16, k - 1) + ([HexChar(n % 16)] + done)
  {
  }

  /** Twelve digits, written into a buffer from its end. */
  method IntToSerialNumber(n: nat) returns (r: string)
    requires n < U64
    ensures r == HexText(n, 12)
  {
    hide HexText;
    var b := new char[16](_ => '\0');
    var S := n;
    assert HexText(n, 12) + b[12..12] == HexText(n, 12);
    for i := 0 to 12
      invariant HexText(S, 12 - i) + b[12 - i..12] == HexText(n, 12)
    {
      var B := S % 16;
      ghost var done := b[12 - i..12];
      HexTextStep(S, 12 - i, done);
      b[11 - i] := if B < 10 then ('0' as int + B) as char else ('a' as int + B - 10) as char;
      assert b[12 - i..12] == done;
      assert b[11 - i..12] == [b[11 - i]] + b[12 - i..12];
      S := S / 16;
    }
    b[12] := '\0';
    r := b[..12];
    assert r == b[0..12];
  }

  /** Every 64-bit number comes back modulo 2^48. */
  lemma IntThereAndBack(n: nat)
    requires n < U64
    ensures SerialNumberToInt(HexText(n, 12)) == Number(n % 0x1_0000_0000_0000)
  {
    ValueOfHexText(n, 12);
    SerialToIntIsValue(HexText(n, 12));
    Pow16Values();
  }

  /** Every serial number comes back in lower case. */
  lemma SerialThereAndBack(s: string)
    requires IsSerial(s)
    ensures SerialNumberToInt(s).Number? && HexText(SerialNumberToInt(s).n, 12) == Lower(s)
  {
    SerialToIntIsValue(s);
    HexTextOfValue(s);
  }

  // ----- MAC addresses -----

  function CString(s: string): string
  {
    if s == [] || s[0] == '\0' then [] else [s[0]] + CString(s[1..])
  }

  /** The serial number made twelve characters long. */
  function Fitted(s: string): (r: string)
    ensures |r| == 12
  {
    if |s| < 12 then s + seq(12 - |s| % 12, _ => '0') else s[..12]
  }

  /** A serial number that is too short is filled up with zeros, one that is too long is cut. */
  lemma FittedIs(s: string, i: nat)
    requires i < 12
    ensures Fitted(s)[i] == if i < |s| then s[i] else '0'
  {
  }

  /** Pairs of characters separated by colons. */
  function Paired(s: string): string
  {
    if |s| <= 2 then s else [s[0]] + ([s[1]] + ([':'] + Paired(s[2..])))
  }

  method SerialToMAC(serial: string) returns (r: string)
    ensures r == CString(Paired(Fitted(serial)))
  {
    hide Paired, CString, Fitted;
    var R := Fitted(serial);
    var buf := new char[18] [R[0], R[1], ':', R[2], R[3], ':', R[4], R[5], ':',
                             R[6], R[7], ':', R[8], R[9], ':', R[10], R[11], '\0'];
    PairedTwelve(R);
    assert buf[..] == Paired(R) + "\0" + "";
    CStringStops(Paired(R), "");
    r := CString(buf[..]);
  }

  lemma PairedAt(s: string, i: nat)
    requires i + 2 < |s|
    ensures Paired(s[i..]) == [s[i], s[i + 1], ':'] + Paired(s[i + 2..])
  {
    var t := s[i..];
    assert t[2..] == s[i + 2..] && t[0] == s[i] && t[1] == s[i + 1];
    PairedFront(t);
    hide Paired;
    ThreeInFront(s[i], s[i + 1], ':', Paired(t[2..]));
  }

  lemma PairedLastSix(s: string)
    requires |s| == 12
    ensures Paired(s[6..]) == [s[6], s[7], ':', s[8], s[9], ':', s[10], s[11]]
  {
    assert Paired(s[10..]) == [s[10], s[11]];
    hide Paired;
    PairedAt(s, 8);
    assert Paired(s[8..]) == [s[8], s[9], ':', s[10], s[11]];
    PairedAt(s, 6);
  }

  lemma PairedLastTen(s: string)
    requires |s| == 12
    ensures Paired(s[2..]) == [s[2], s[3], ':', s[4], s[5], ':', s[6], s[7], ':', s[8], s[9], ':', s[10], s[11]]
  {
    hide Paired;
    PairedLastSix(s);
    PairedAt(s, 4);
    assert Paired(s[4..]) == [s[4], s[5], ':', s[6], s[7], ':', s[8], s[9], ':', s[10], s[11]];
    PairedAt(s, 2);
  }

  lemma PairedTwelve(s: string)
    requires |s| == 12
    ensures Paired(s) == [s[0], s[1], ':', s[2], s[3], ':', s[4], s[5], ':', s[6], s[7], ':', s[8], s[9], ':', s[10],
                          s[11]]
  {
    hide Paired;
    PairedLastTen(s);
    PairedFront(s);
    ThreeInFront(s[0], s[1], ':', Paired(s[2..]));
  }

  lemma {:induction false} CStringStops(s: string, rest: string)
    ensures CString(s + "\0" + rest) == CString(s)
    ensures '\0' !in s ==> CString(s) == s
  {
    if s != [] && s[0] != '\0' {
      assert (s + "\0" + rest)[1..] == s[1..] + "\0" + rest;
      CStringStops(s[1..], rest);
    }
  }

  /** The digits of a MAC address: colons dropped, any other character a zero. */
  function MacDigits(mac: string): string
  {
    if mac == [] then []
    else
      var front, c := MacDigits(mac[..|mac| - 1]), mac[|mac| - 1];
      if c == ':' then front else front + [if IsHex(c) then c else '0']
  }

  lemma MacStep(v: nat, d: nat)
    requires d < 16
    ensures Wrap64(Wrap64(v) * 16) == Wrap64(v * 16)
    ensures Wrap64(Wrap64(Wrap64(v) * 16) + d) == Wrap64(v * 16 + d)
  {
    var q, r := v / U64, v % U64;
    var q', r' := r * 16 / U64, r * 16 % U64;
    QuotientIs(v * 16, U64, 16 * q + q', r');
    QuotientIs(v * 16 + d, U64, 16 * q + q' + (r' + d) / U64, (r' + d) % U64);
  }

  lemma MacDigitsStep(mac: string, i: nat)
    requires i < |mac|
    ensures mac[i] == ':' ==> MacDigits(mac[..i + 1]) == MacDigits(mac[..i])
    ensures !IsHex(mac[i]) ==> HexDigit(mac[i]) == 0
    ensures mac[i] != ':' ==> HexValue(MacDigits(mac[..i + 1])) == HexValue(MacDigits(mac[..i])) * 16 + HexDigit(mac[i])
  {
    assert mac[..i + 1][..i] == mac[..i];
    var d, c := MacDigits(mac[..i]), if IsHex(mac[i]) then mac[i] else '0';
    assert (d + [c])[..|d + [c]| - 1] == d;
  }

  lemma MacStart()
    ensures Wrap64(HexValue(MacDigits([]))) == 0
  {
  }

  lemma MacNext(mac: string, i: nat)
    requires i < |mac|
    ensures var r, c := Wrap64(HexValue(MacDigits(mac[..i]))), mac[i];
            Wrap64(HexValue(MacDigits(mac[..i + 1]))) ==
            if c == ':' then r else if IsHex(c) then Wrap64(Wrap64(r * 16) + HexDigit(c)) else Wrap64(r * 16)
  {
    hide MacDigits, HexValue, IsHex, HexDigit, Wrap64;
    MacDigitsStep(mac, i);
    MacStep(HexValue(MacDigits(mac[..i])), HexDigit(mac[i]));
  }

  /** Folds the characters into a 64-bit number, which keeps the last sixteen digits. */
  method MACToInt(mac: string) returns (r: nat)
    ensures r == Wrap64(HexValue(MacDigits(mac)))
  {
    hide MacDigits, HexValue, IsHex, HexDigit, Wrap64;
    r := 0;
    MacStart();
    assert mac[..0] == [];
    for i := 0 to |mac|
      invariant r == Wrap64(HexValue(MacDigits(mac[..i])))
    {
      MacNext(mac, i);
      var c := mac[i];
      if c != ':' {
        r := Wrap64(r * 16);
        if IsHex(c) {
          r := Wrap64(r + HexDigit(c));
        }
      }
    }
    assert mac[..|mac|] == mac;
  }

  lemma {:induction false} MacDigitsFront(c: char, rest: string)
    ensures MacDigits([c] + rest) == (if c == ':' then [] else [if IsHex(c) then c else '0']) + MacDigits(rest)
  {
    hide MacDigits, IsHex;
    NoMacDigits();
    if rest == [] {
      MacDigitsAppend([], c);
      assert [c] + rest == [] + [c];
    } else {
      var r, e := rest[..|rest| - 1], rest[|rest| - 1];
      assert rest == r + [e] && [c] + rest == [c] + r + [e];
      MacDigitsFront(c, r);
      MacDigitsAppend([c] + r, e);
      MacDigitsAppend(r, e);
    }
  }

  lemma HexIsNoColon(c: char)
    ensures IsHex(c) ==> c != ':'
  {
  }

  lemma MacDigitsOfOne(s: string)
    ensures |s| <= 1 && AllHex(s) ==> MacDigits(s) == s
  {
    hide MacDigits, IsHex;
    NoMacDigits();
    if |s| == 1 {
      HexIsNoColon(s[0]);
      MacDigitsAppend([], s[0]);
      assert s == [] + [s[0]];
    }
  }

  lemma NoMacDigits()
    ensures MacDigits([]) == []
  {
  }

  lemma MacDigitsAppend(front: string, c: char)
    ensures MacDigits(front + [c]) == if c == ':' then MacDigits(front)
            else MacDigits(front) + [if IsHex(c) then c else '0']
  {
    assert (front + [c])[..|front|] == front;
  }

  lemma MacDigitsOfPair(s: string)
    requires AllHex(s) && |s| <= 2
    ensures MacDigits(Paired(s)) == s
  {
    assert Paired(s) == s;
    hide Paired, IsHex, MacDigits;
    MacDigitsOfOne(s);
    if |s| == 2 {
      MacDigitsOfOne(s[..1]);
      assert s == s[..1] + [s[1]];
      HexIsNoColon(s[1]);
      MacDigitsAppend(s[..1], s[1]);
    }
  }

  lemma ThreeInFront(a: char, b: char, c: char, rest: string)
    ensures [a, b, c] + rest == [a] + ([b] + ([c] + rest))
  {
  }

  lemma PairedFront(s: string)
    requires |s| > 2
    ensures Paired(s) == [s[0]] + ([s[1]] + ([':'] + Paired(s[2..])))
  {
  }

  lemma {:induction false} MacDigitsOfPaired(s: string)
    requires AllHex(s)
    ensures MacDigits(Paired(s)) == s
  {
    if |s| <= 2 {
      MacDigitsOfPair(s);
    } else {
      var rest := s[2..];
      MacDigitsOfPaired(rest);
      PairedFront(s);
      hide Paired, MacDigits;
      MacDigitsFront(s[0], [s[1]] + ([':'] + Paired(rest)));
      MacDigitsFront(s[1], [':'] + Paired(rest));
      MacDigitsFront(':', Paired(rest));
      assert s == [s[0]] + ([s[1]] + rest);
    }
  }

  lemma {:induction false} NoNulInPaired(s: string)
    requires AllHex(s)
    ensures '\0' !in Paired(s)
  {
    if |s| > 2 {
      NoNulInPaired(s[2..]);
    }
  }

  lemma FittedSerial(s: string)
    requires |s| == 12
    ensures Fitted(s) == s
  {
  }

  lemma NoNulIsWhole(s: string)
    requires '\0' !in s
    ensures CString(s) == s
  {
    CStringStops(s, "");
  }

  /** The MAC address of a serial number has the value of the serial number. */
  lemma MacOfSerialKeepsValue(s: string)
    requires IsSerial(s)
    ensures Wrap64(HexValue(MacDigits(CString(Paired(Fitted(s)))))) == HexValue(s)
    ensures SerialNumberToInt(s) == Number(HexValue(s))
  {
    hide Paired, MacDigits, CString, HexValue, Fitted, SerialNumberToInt, IsHex;
    SerialToIntIsValue(s);
    FittedSerial(s);
    NoNulInPaired(s);
    NoNulIsWhole(Paired(s));
    MacDigitsOfPaired(s);
  }

  // ----- vendor prefixes -----

  /** The first n digits of a text, whatever stands between them. */
  function FirstDigits(s: string, n: nat): string
  {
    if s == [] || n == 0 then []
    else if IsHex(s[0]) then [s[0]] + FirstDigits(s[1..], n - 1)
    else FirstDigits(s[1..], n)
  }

  lemma OneMoreDigit(taken: string, c: char)
    requires |taken| < 6
    ensures HexValue(taken + [c]) == Wrap64(HexValue(taken) * 16 + HexDigit(c))
  {
    var t := taken + [c];
    assert t[..|t| - 1] == taken;
    HexValueBound(taken);
    Pow16Values();
    Pow16Grows(|taken|, 6);
  }

  lemma {:induction false} Pow16Grows(a: nat, b: nat)
    requires a <= b
    ensures Pow16(a) <= Pow16(b)
  {
    if a < b {
      Pow16Grows(a, b - 1);
    }
  }

  lemma FirstDigitsStep(taken: string, s: string, i: nat, n: nat)
    requires i < |s| && n > 0
    ensures IsHex(s[i]) ==> taken + FirstDigits(s[i..], n) == taken + [s[i]] + FirstDigits(s[i + 1..], n - 1)
    ensures !IsHex(s[i]) ==> FirstDigits(s[i..], n) == FirstDigits(s[i + 1..], n)
    ensures n == 1 && IsHex(s[i]) ==> taken + FirstDigits(s[i..], n) == taken + [s[i]]
  {
    assert s[i..][1..] == s[i + 1..];
    assert FirstDigits(s[i + 1..], 0) == [];
    assert taken + ([s[i]] + FirstDigits(s[i + 1..], n - 1)) == taken + [s[i]] + FirstDigits(s[i + 1..], n - 1);
  }

  lemma NoDigits(s: string)
    ensures HexValue([]) == 0 && forall n: nat :: FirstDigits([], n) == []
    ensures [] + FirstDigits(s[0..], 6) == FirstDigits(s, 6)
  {
    assert s[0..] == s;
  }

  method SerialNumberToOUI(s: string) returns (r: nat)
    ensures r == HexValue(FirstDigits(s, 6))
  {
    NoDigits(s);
    hide HexValue, FirstDigits, IsHex, HexDigit, Wrap64;
    r := 0;
    var digits, i := 0, 0;
    ghost var taken: string := [];
    while i < |s|
      invariant 0 <= i <= |s| && digits == |taken| < 6
      invariant r == HexValue(taken) && taken + FirstDigits(s[i..], 6 - digits) == FirstDigits(s, 6)
    {
      var c := s[i];
      FirstDigitsStep(taken, s, i, 6 - digits);
      if IsHex(c) {
        OneMoreDigit(taken, c);
        r := Wrap64(r * 16 + HexDigit(c));
        taken := taken + [c];
        digits := digits + 1;
        if digits == 6 {
          return;
        }
      }
      i := i + 1;
    }
    assert s[i..] == [] && taken + [] == taken;
  }

  lemma {:induction false} FirstDigitsOfHex(s: string, n: nat)
    requires AllHex(s) && n <= |s|
    ensures FirstDigits(s, n) == s[..n]
  {
    if n > 0 {
      assert forall i :: 0 <= i < |s[1..]| ==> s[1..][i] == s[i + 1];
      FirstDigitsOfHex(s[1..], n - 1);
    }
  }

  function OnlyDigits(s: string): string
  {
    if s == [] then [] else OnlyDigits(s[..|s| - 1]) + (if IsHex(s[|s| - 1]) then [s[|s| - 1]] else [])
  }

  lemma {:induction false} OnlyDigitsFront(s: string)
    requires s != []
    ensures OnlyDigits(s) == (if IsHex(s[0]) then [s[0]] else []) + OnlyDigits(s[1..])
  {
    if |s| > 1 {
      var front := s[..|s| - 1];
      OnlyDigitsFront(front);
      assert front[1..] == s[1..][..|s| - 2];
    } else {
      assert s[..0] == [] && s[1..] == [];
    }
  }

  /** The digits taken are the first ones of all the digits in the text. */
  lemma {:induction false} FirstDigitsAreFirst(s: string, n: nat)
    ensures FirstDigits(s, n) == OnlyDigits(s)[..if n < |OnlyDigits(s)| then n else |OnlyDigits(s)|]
  {
    if s != [] && n > 0 {
      OnlyDigitsFront(s);
      FirstDigitsAreFirst(s[1..], if IsHex(s[0]) then n - 1 else n);
    }
    hide OnlyDigits, IsHex;
  }

  /** The vendor prefix of a serial number is the upper half of its value. */
  lemma OuiIsUpperHalf(s: string)
    requires IsSerial(s)
    ensures HexValue(FirstDigits(s, 6)) == HexValue(s) / 0x100_0000
  {
    FirstDigitsOfHex(s, 6);
    assert s == s[..6] + s[6..];
    HexValueConcat(s[..6], s[6..]);
    HexValueBound(s[6..]);
    Pow16Values();
    QuotientIs(HexValue(s), 0x100_0000, HexValue(s[..6]), HexValue(s[6..]));
  }

  datatype Matching = Compared(equal: bool) | Raised(error: Parsed)

  function SerialNumberMatch(s1: string, s2: string, bits: nat): Matching
    requires bits < 64
  {
    var a, b := SerialNumberToInt(s1), SerialNumberToInt(s2);
    if !a.Number? then Raised(a)
    else if !b.Number? then Raised(b)
    else Compared(a.n / Pow2(bits) == b.n / Pow2(bits))
  }

  /** Two serial numbers match at a number of bits exactly when their values agree after division by that
      power of two. */
  lemma MatchIsSameQuotient(s1: string, s2: string, bits: nat)
    requires IsSerial(s1) && IsSerial(s2) && bits < 64
    ensures SerialNumberMatch(s1, s2, bits) == Compared(HexValue(s1) / Pow2(bits) == HexValue(s2) / Pow2(bits))
  {
    hide Pow2, SerialNumberToInt;
    SerialToIntIsValue(s1);
    SerialToIntIsValue(s2);
  }

  /** At 24 bits two serial numbers match exactly when they have the same vendor prefix. */
  lemma MatchIsSameVendor(s1: string, s2: string)
    requires IsSerial(s1) && IsSerial(s2)
    ensures SerialNumberMatch(s1, s2, 24) == Compared(HexValue(FirstDigits(s1, 6)) == HexValue(FirstDigits(s2, 6)))
  {
    SerialToIntIsValue(s1);
    SerialToIntIsValue(s2);
    OuiIsUpperHalf(s1);
    OuiIsUpperHalf(s2);
    assert Pow2(8) == 256;
    assert Pow2(16) == 256 * 256;
    assert Pow2(24) == 0x100_0000;
  }

  // ----- splitting a list -----

  function Pieces(s: string, d: char): seq<string>
    decreases |s|
  {
    var k := FirstOf(s, d);
    if s == [] then [] else if k == |s| then [s] else [s[..k]] + Pieces(s[k + 1..], d)
  }

  lemma NextPiece(list: string, P: nat, d: char)
    requires P < |list|
    ensures var k := FirstOf(list[P..], d);
            Pieces(list[P..], d) ==
            if P + k == |list| then [list[P..]] else [list[P..P + k]] + Pieces(list[P + k + 1..], d)
  {
    hide FirstOf;
    var s, k := list[P..], FirstOf(list[P..], d);
    if P + k < |list| {
      assert s[..k] == list[P..P + k] && s[k + 1..] == list[P + k + 1..];
    }
  }

  lemma PieceBehind(pieces: seq<string>, piece: string, rest: seq<string>)
    ensures pieces + ([piece] + rest) == pieces + [piece] + rest
  {
  }

  lemma NoPieces(d: char)
    ensures Pieces([], d) == []
  {
  }

  method Split(list: string, delimiter: char) returns (pieces: seq<string>)
    ensures pieces == Pieces(list, delimiter)
  {
    hide Pieces, FirstOf;
    pieces := [];
    var P := 0;
    assert list[0..] == list;
    while P < |list|
      invariant 0 <= P <= |list|
      invariant pieces + Pieces(list[P..], delimiter) == Pieces(list, delimiter)
    {
      var k := FirstOf(list[P..], delimiter);
      NextPiece(list, P, delimiter);
      if k == |list[P..]| {
        pieces := pieces + [list[P..]];
        return;
      }
      PieceBehind(pieces, list[P..P + k], Pieces(list[P + k + 1..], delimiter));
      pieces := pieces + [list[P..P + k]];
      P := P + k + 1;
    }
    NoPieces(delimiter);
    assert list[P..] == [];
  }

  function Joined(pieces: seq<string>, d: char): string
  {
    if pieces == [] then [] else if |pieces| == 1 then pieces[0] else pieces[0] + [d] + Joined(pieces[1..], d)
  }

  lemma SplitAt(s: string, k: nat)
    requires k < |s|
    ensures s == s[..k] + [s[k]] + s[k + 1..]
  {
  }

  lemma FoundInside(s: string, d: char)
    ensures d in s ==> FirstOf(s, d) < |s|
  {
    hide FirstOf;
    if FirstOf(s, d) == |s| {
      assert s[..|s|] == s;
    }
  }

  lemma FirstOfFound(s: string, d: char)
    requires d in s
    ensures var k := FirstOf(s, d); k < |s| && s == s[..k] + [d] + s[k + 1..]
  {
    hide FirstOf;
    FoundInside(s, d);
    SplitAt(s, FirstOf(s, d));
  }

  lemma PiecesStep(s: string, d: char)
    requires d in s
    ensures var k := FirstOf(s, d); k < |s| && Pieces(s, d) == [s[..k]] + Pieces(s[k + 1..], d)
    ensures var k := FirstOf(s, d); s == s[..k] + [d] + s[k + 1..]
  {
    hide FirstOf;
    FirstOfFound(s, d);
  }

  lemma PiecesEnd(s: string, d: char)
    requires d !in s
    ensures Pieces(s, d) == if s == [] then [] else [s]
  {
  }

  lemma JoinedStep(p: string, rest: seq<string>, d: char)
    ensures Joined([p] + rest, d) == if rest == [] then p else p + [d] + Joined(rest, d)
  {
    assert ([p] + rest)[1..] == rest;
  }

  /** Joining the pieces gives the list back, less one trailing delimiter; no piece holds one. */
  lemma {:induction false} SplitAndJoin(s: string, d: char)
    ensures forall p :: p in Pieces(s, d) ==> d !in p
    ensures Joined(Pieces(s, d), d) + (if s != [] && s[|s| - 1] == d then [d] else []) == s
    decreases |s|
  {
    hide Pieces, FirstOf;
    if d in s {
      PiecesStep(s, d);
      var k := FirstOf(s, d);
      var first, rest := s[..k], s[k + 1..];
      SplitAndJoin(rest, d);
      JoinedStep(first, Pieces(rest, d), d);
      if rest == [] {
        PiecesEnd(rest, d);
      } else {
        assert rest[|rest| - 1] == s[|s| - 1];
        assert Pieces(rest, d) != [] by {
          if d in rest {
            PiecesStep(rest, d);
          } else {
            PiecesEnd(rest, d);
          }
        }
        var last := if s[|s| - 1] == d then [d] else [];
        assert first + [d] + Joined(Pieces(rest, d), d) + last == first + [d] + (Joined(Pieces(rest, d), d) + last);
      }
    } else {
      PiecesEnd(s, d);
      if s != [] {
        assert s[|s| - 1] in s;
      }
    }
  }
}
