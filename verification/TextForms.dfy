/**
 The texts spelled out: which characters are white space, how bytes are written in hexadecimal and base64 (tables 5 and
 1 of RFC 4648), and which texts are read as numbers.
 */
module TextForms {
  import opened Wrappers
  import opened Encodings
  import opened Text
  import opened Wg

  const HEX_DIGITS := "0123456789abcdef"
  const UPPER_HEX_DIGITS := "0123456789ABCDEF"
  const DECIMAL_DIGITS := "0123456789"
  const UPPER_LETTERS := "ABCDEFGHIJKLMNOPQRSTUVWXYZ"
  const LOWER_LETTERS := "abcdefghijklmnopqrstuvwxyz"
  const BASE64_DIGITS := UPPER_LETTERS + LOWER_LETTERS + DECIMAL_DIGITS + "+/"

  // ---- white space and brackets ----

  /** The characters that trimming takes away: the ASCII ones, then the others with the property White_Space. */
  lemma SpacesAre(c: char)
    ensures IsSpace(c) <==>
            c in "\t\n\U{0B}\U{0C}\r \U{85}\U{A0}\U{1680}\U{2000}\U{2001}\U{2002}\U{2003}\U{2004}"
            || c in "\U{2005}\U{2006}\U{2007}\U{2008}\U{2009}\U{200A}\U{2028}\U{2029}\U{202F}\U{205F}\U{3000}"
  {
  }

  /** Trimming takes white space away from both ends, and nothing else. */
  lemma {:induction false} TrimExactly(s: string) returns (left: string, right: string)
    ensures s == left + TrimSpace(s) + right && Tight(TrimSpace(s))
    ensures forall c :: c in left || c in right ==> IsSpace(c)
    decreases |s|
  {
    hide IsSpace;
    if s == "" {
      left, right := "", "";
    } else if IsSpace(s[0]) {
      left, right := TrimExactly(s[1..]);
      left := [s[0]] + left;
    } else if IsSpace(s[|s| - 1]) {
      left, right := TrimExactly(s[..|s| - 1]);
      right := right + [s[|s| - 1]];
    } else {
      left, right := "", "";
    }
  }

  /** Trimming brackets takes them away from both ends, and nothing else. */
  lemma {:induction false} TrimBracketsExactly(s: string) returns (left: string, right: string)
    ensures var t := TrimBrackets(s);
            s == left + t + right && (t != "" ==> t[0] !in "[]" && t[|t| - 1] !in "[]")
    ensures forall c :: c in left || c in right ==> c in "[]"
    decreases |s|
  {
    if s == "" {
      left, right := "", "";
    } else if s[0] == '[' || s[0] == ']' {
      left, right := TrimBracketsExactly(s[1..]);
      left := [s[0]] + left;
    } else if s[|s| - 1] == '[' || s[|s| - 1] == ']' {
      left, right := TrimBracketsExactly(s[..|s| - 1]);
      right := right + [s[|s| - 1]];
    } else {
      left, right := "", "";
    }
  }

  /** Joining puts one separator before every piece but the first. */
  lemma {:induction false} JoinOneMore(pieces: seq<string>, piece: string, sep: char)
    ensures Join(pieces + [piece], sep) == if pieces == [] then piece else Join(pieces, sep) + [sep] + piece
  {
    var all := pieces + [piece];
    if |pieces| == 0 {
      assert all == [piece];
    } else {
      assert all[1..] == pieces[1..] + [piece];
      JoinOneMore(pieces[1..], piece, sep);
    }
  }

  // ---- hexadecimal ----

  lemma HexTables(c: char, n: int)
    requires 0 <= n < 16
    ensures HexDigit(n) == HEX_DIGITS[n]
    ensures HexValue(c) == Some(n) <==> c == HEX_DIGITS[n] || c == UPPER_HEX_DIGITS[n]
  {
  }

  /** Each byte is written as two lower-case digits, the upper half first. */
  lemma {:induction false} HexWritten(bytes: seq<byte>, i: nat)
    requires i < |bytes|
    ensures |HexEncode(bytes)| == 2 * |bytes|
    ensures HexEncode(bytes)[2 * i] == HEX_DIGITS[bytes[i] / 16]
    ensures HexEncode(bytes)[2 * i + 1] == HEX_DIGITS[bytes[i] % 16]
  {
    hide HexDigit;
    HexRoundTrip(bytes);
    HexTables(' ', bytes[0] / 16);
    HexTables(' ', bytes[0] % 16);
    hide HexDecode;
    if i > 0 {
      HexWritten(bytes[1..], i - 1);
    }
  }

  /** A text is read when it has an even number of digits, and then two of them give a byte. */
  lemma {:induction false} HexRead(s: string)
    ensures HexDecode(s).Some? <==> |s| % 2 == 0 && forall c :: c in s ==> HexValue(c).Some?
    ensures HexDecode(s).Some? ==>
              |HexDecode(s).value| == |s| / 2
              && forall i :: 0 <= i < |s| / 2 ==>
                               HexDecode(s).value[i] == 16 * HexValue(s[2 * i]).value + HexValue(s[2 * i + 1]).value
  {
    hide HexValue;
    if |s| >= 2 {
      var rest := s[2..];
      HexRead(rest);
      assert s == [s[0], s[1]] + rest;
      if HexDecode(s).Some? {
        forall i | 0 <= i < |s| / 2
          ensures HexDecode(s).value[i] == 16 * HexValue(s[2 * i]).value + HexValue(s[2 * i + 1]).value
        {
          if i > 0 {
            assert rest[2 * (i - 1)] == s[2 * i] && rest[2 * (i - 1) + 1] == s[2 * i + 1];
          }
        }
      }
    }
  }

  // ---- base64 ----

  lemma UpperLetter(n: int)
    requires 0 <= n < 26
    ensures UPPER_LETTERS[n] == 'A' + n as char
  {
  }

  lemma LowerLetter(n: int)
    requires 0 <= n < 26
    ensures LOWER_LETTERS[n] == 'a' + n as char
  {
  }

  lemma DecimalDigit(n: int)
    requires 0 <= n < 10
    ensures DECIMAL_DIGITS[n] == '0' + n as char
  {
  }

  lemma Alphabet(n: int)
    requires 0 <= n < 64
    ensures BASE64_DIGITS[n] ==
            if n < 26 then UPPER_LETTERS[n] else if n < 52 then LOWER_LETTERS[n - 26]
            else if n < 62 then DECIMAL_DIGITS[n - 52] else "+/"[n - 62]
  {
  }

  lemma Base64DigitAt(n: int)
    requires 0 <= n < 64
    ensures Base64Digit(n) == BASE64_DIGITS[n]
  {
    hide Base64Value;
    Alphabet(n);
    if n < 26 {
      UpperLetter(n);
    } else if n < 52 {
      LowerLetter(n - 26);
    } else if n < 62 {
      DecimalDigit(n - 52);
    }
  }

  lemma ValueOfDigit(c: char, n: int)
    requires 0 <= n < 64
    ensures Base64Value(c) == Some(n) <==> c == Base64Digit(n)
  {
  }

  lemma Base64Tables(c: char, n: int)
    requires 0 <= n < 64
    ensures Base64Digit(n) == BASE64_DIGITS[n]
    ensures Base64Value(c) == Some(n) <==> c == BASE64_DIGITS[n]
  {
    hide Base64Digit, Base64Value;
    Base64DigitAt(n);
    ValueOfDigit(c, n);
  }

  /** Three bytes as a number of twenty-four bits. */
  function Number(x: byte, y: byte, z: byte): (v: int)
    ensures 0 <= v < 0x100_0000
  {
    0x1_0000 * x + 0x100 * y + z
  }

  /** The four digits of a number of twenty-four bits. */
  function Quad(v: int): string
    requires 0 <= v < 0x100_0000
  {
    [BASE64_DIGITS[v / 0x4_0000], BASE64_DIGITS[v / 0x1000 % 64], BASE64_DIGITS[v / 64 % 64], BASE64_DIGITS[v % 64]]
  }

  lemma LowPart(a: int, b: int)
    requires 0 <= b < 64
    ensures (64 * a + b) % 64 == b && (64 * a + b) / 64 == a
  {
  }

  lemma FourParts(v: int, a: int, b: int, c: int, d: int, t: int, u: int)
    requires 0 <= a < 64 && 0 <= b < 64 && 0 <= c < 64 && 0 <= d < 64
    requires v == 64 * t + d && t == 64 * u + c && u == 64 * a + b
    ensures v / 0x4_0000 == a && v / 0x1000 % 64 == b && v / 64 % 64 == c && v % 64 == d
  {
    LowPart(t, d);
    LowPart(u, c);
    LowPart(a, b);
    assert v / 0x1000 == v / 64 / 64;
    assert v / 0x4_0000 == v / 0x1000 / 64;
  }

  lemma Sextets(x: byte, y: byte, z: byte)
    ensures var v := Number(x, y, z);
            v / 0x4_0000 == x / 4 && v / 0x1000 % 64 == x % 4 * 16 + y / 16
            && v / 64 % 64 == y % 16 * 4 + z / 64 && v % 64 == z % 64
  {
    FourParts(Number(x, y, z), x / 4, x % 4 * 16 + y / 16, y % 16 * 4 + z / 64, z % 64,
              1024 * x + 4 * y + z / 64, 16 * x + y / 16);
  }

  /** Three bytes are written as the four digits of their number, before the rest. */
  lemma Base64Written(bytes: seq<byte>)
    requires |bytes| >= 3
    ensures Base64Encode(bytes) == Quad(Number(bytes[0], bytes[1], bytes[2])) + Base64Encode(bytes[3..])
  {
    hide Base64Digit, Base64Value, Number, Quad, Base64Encode;
    QuadDigits(bytes[0], bytes[1], bytes[2]);
    EncodeThree(bytes);
  }

  lemma EncodeThree(bytes: seq<byte>)
    requires |bytes| >= 3
    ensures var x, y, z := bytes[0], bytes[1], bytes[2];
            Base64Encode(bytes) == [Base64Digit(x / 4), Base64Digit(x % 4 * 16 + y / 16),
                                    Base64Digit(y % 16 * 4 + z / 64), Base64Digit(z % 64)] + Base64Encode(bytes[3..])
  {
    hide Base64Digit, Base64Value;
  }

  /** One or two bytes at the end are padded. */
  lemma Base64WrittenEnd(x: byte, y: byte)
    ensures Base64Encode([]) == ""
    ensures Base64Encode([x]) == Quad(Number(x, 0, 0))[..2] + "=="
    ensures Base64Encode([x, y]) == Quad(Number(x, y, 0))[..3] + "="
  {
    hide Base64Digit, Base64Value, Number, Quad;
    QuadDigits(x, 0, 0);
    QuadDigits(x, y, 0);
  }

  lemma QuadDigits(x: byte, y: byte, z: byte)
    ensures Quad(Number(x, y, z)) == [Base64Digit(x / 4), Base64Digit(x % 4 * 16 + y / 16),
                                      Base64Digit(y % 16 * 4 + z / 64), Base64Digit(z % 64)]
  {
    hide Base64Digit, Base64Value, Number;
    Sextets(x, y, z);
    Base64Tables(' ', x / 4);
    Base64Tables(' ', x % 4 * 16 + y / 16);
    Base64Tables(' ', y % 16 * 4 + z / 64);
    Base64Tables(' ', z % 64);
  }

  predicate Base64Char(c: char) {
    c in BASE64_DIGITS
  }

  /** A group of four digits stands for three bytes; a last group may end in one or two equals signs. */
  predicate Base64Shape(s: string)
    decreases |s|
  {
    s == ""
    || (|s| >= 4 && Base64Char(s[0]) && Base64Char(s[1]) && Base64Char(s[2]) && Base64Char(s[3]) && Base64Shape(s[4..]))
    || (|s| == 4 && Base64Char(s[0]) && Base64Char(s[1]) && Base64Char(s[2]) && s[3] == '=')
    || (|s| == 4 && Base64Char(s[0]) && Base64Char(s[1]) && s[2..] == "==")
  }

  lemma Base64CharValue(c: char)
    ensures Base64Char(c) <==> Base64Value(c).Some?
    ensures Base64Value(c).Some? ==> c == BASE64_DIGITS[Base64Value(c).value]
  {
    if Base64Value(c).Some? {
      Base64Tables(c, Base64Value(c).value);
    }
    if Base64Char(c) {
      var n :| 0 <= n < 64 && BASE64_DIGITS[n] == c;
      Base64Tables(c, n);
    }
  }

  /** Exactly these texts are read. */
  lemma {:induction false} Base64Accepts(s: string)
    ensures Base64DecodeGroups(s).Some? <==> Base64Shape(s)
    decreases |s|
  {
    hide Base64Char, Base64Value;
    PaddingIsNoDigit();
    if |s| >= 4 {
      Base64CharValue(s[0]);
      Base64CharValue(s[1]);
      Base64CharValue(s[2]);
      Base64CharValue(s[3]);
      Base64Accepts(s[4..]);
    }
  }

  /** A group of four digits gives the three bytes of their number; the unused bits of a last group are ignored. */
  lemma Base64Read(a: int, b: int, c: int, d: int, t: string)
    requires 0 <= a < 64 && 0 <= b < 64 && 0 <= c < 64 && 0 <= d < 64
    ensures var v := ((a * 64 + b) * 64 + c) * 64 + d;
            var digits := [BASE64_DIGITS[a], BASE64_DIGITS[b], BASE64_DIGITS[c], BASE64_DIGITS[d]];
            Base64DecodeGroups(digits[..2] + "==") == Some([v / 0x1_0000])
            && Base64DecodeGroups(digits[..3] + "=") == Some([v / 0x1_0000, v / 0x100 % 0x100])
            && Base64DecodeGroups(digits + t) ==
               match Base64DecodeGroups(t)
               case None => None
               case Some(rest) => Some([v / 0x1_0000, v / 0x100 % 0x100, v % 0x100] + rest)
  {
    hide Base64Digit, Base64Value, Base64DecodeGroups;
    var digits := [Base64Digit(a), Base64Digit(b), Base64Digit(c), Base64Digit(d)];
    Base64DigitAt(a);
    Base64DigitAt(b);
    Base64DigitAt(c);
    Base64DigitAt(d);
    Octets(a, b, c, d);
    DigitsRead(a, b, c, d, t);
    EndRead(a, b, c);
    assert digits[..2] + "==" == [Base64Digit(a), Base64Digit(b), '=', '='];
    assert digits[..3] + "=" == [Base64Digit(a), Base64Digit(b), Base64Digit(c), '='];
  }

  lemma DigitsRead(a: int, b: int, c: int, d: int, t: string)
    requires 0 <= a < 64 && 0 <= b < 64 && 0 <= c < 64 && 0 <= d < 64
    ensures Base64DecodeGroups([Base64Digit(a), Base64Digit(b), Base64Digit(c), Base64Digit(d)] + t) ==
            match Base64DecodeGroups(t)
            case None => None
            case Some(rest) => Some([a * 4 + b / 16, b % 16 * 16 + c / 4, c % 4 * 64 + d] + rest)
  {
    hide Base64Digit, Base64Value;
    var s := [Base64Digit(a), Base64Digit(b), Base64Digit(c), Base64Digit(d)] + t;
    assert s[4..] == t;
  }

  lemma EndRead(a: int, b: int, c: int)
    requires 0 <= a < 64 && 0 <= b < 64 && 0 <= c < 64
    ensures Base64DecodeGroups([Base64Digit(a), Base64Digit(b), '=', '=']) == Some([a * 4 + b / 16])
    ensures Base64DecodeGroups([Base64Digit(a), Base64Digit(b), Base64Digit(c), '=']) ==
            Some([a * 4 + b / 16, b % 16 * 16 + c / 4])
  {
    hide Base64Digit, Base64Value;
    PaddingIsNoDigit();
  }

  lemma Octets(a: int, b: int, c: int, d: int)
    requires 0 <= a < 64 && 0 <= b < 64 && 0 <= c < 64 && 0 <= d < 64
    ensures var v := ((a * 64 + b) * 64 + c) * 64 + d;
            v / 0x1_0000 == a * 4 + b / 16 && v / 0x100 % 0x100 == b % 16 * 16 + c / 4 && v % 0x100 == c % 4 * 64 + d
  {
    var v := ((a * 64 + b) * 64 + c) * 64 + d;
    LowByte(0x100 * (a * 4 + b / 16) + (b % 16 * 16 + c / 4), c % 4 * 64 + d);
    LowByte(a * 4 + b / 16, b % 16 * 16 + c / 4);
    assert v / 0x1_0000 == v / 0x100 / 0x100;
  }

  lemma LowByte(a: int, b: int)
    requires 0 <= b < 0x100
    ensures (0x100 * a + b) % 0x100 == b && (0x100 * a + b) / 0x100 == a
  {
  }

  /** Line breaks are dropped before reading, and nothing else. */
  lemma {:induction false} BreaksDropped(a: string, c: char, b: string)
    ensures WithoutBreaks(a + [c] + b) == WithoutBreaks(a) + (if c in "\r\n" then "" else [c]) + WithoutBreaks(b)
  {
    if a == "" {
      assert ([c] + b)[1..] == b;
      assert "" + [c] + b == [c] + b;
    } else {
      assert (a + [c] + b)[1..] == a[1..] + [c] + b;
      BreaksDropped(a[1..], c, b);
    }
  }

  // ---- decimal ----

  function Pow10(n: nat): nat {
    if n == 0 then 1 else 10 * Pow10(n - 1)
  }

  predicate Digits(s: string) {
    s != "" && forall c :: c in s ==> '0' <= c <= '9'
  }

  function DigitValue(c: char): nat {
    if '0' <= c <= '9' then c as int - '0' as int else 0
  }

  /** The number that decimal digits stand for, by their places. */
  function Positional(s: string): nat {
    if s == "" then 0 else DigitValue(s[0]) * Pow10(|s| - 1) + Positional(s[1..])
  }

  lemma {:induction false} PositionalOneMore(s: string, c: char)
    ensures Positional(s + [c]) == 10 * Positional(s) + DigitValue(c)
  {
    hide DigitValue;
    if s == "" {
      assert [c][1..] == "" && "" + [c] == [c];
      assert Positional("") == 0 && Pow10(0) == 1;
    } else {
      assert (s + [c])[1..] == s[1..] + [c];
      PositionalOneMore(s[1..], c);
      TimesTen(DigitValue(s[0]), Pow10(|s| - 1));
      assert Pow10(|s|) == 10 * Pow10(|s| - 1);
    }
  }

  lemma TimesTen(d: int, p: nat)
    ensures d * (10 * p) == 10 * (d * p)
  {
  }

  lemma DigitsOneMore(s: string, c: char)
    ensures Digits(s + [c]) <==> (s == "" || Digits(s)) && '0' <= c <= '9'
  {
    var more := s + [c];
    assert more[|s|] == c && c in more;
    assert forall x :: x in more <==> x in s || x == c;
  }

  /** A natural number is read from digits only, by their places; leading zeros do not matter. */
  lemma {:induction false} NaturalRead(s: string)
    ensures ParseNat(s) == if Digits(s) then Some(Positional(s)) else None
  {
    if s != "" {
      var front, c := s[..|s| - 1], s[|s| - 1];
      assert s == front + [c];
      DigitsOneMore(front, c);
      NaturalRead(front);
      if Digits(s) {
        PositionalOneMore(front, c);
      }
    }
  }

  /** The text of a natural number: its digits, without a leading zero. */
  lemma NaturalWritten(n: nat, s: string)
    ensures s == PrintNat(n) <==> Digits(s) && (s == "0" || s[0] != '0') && Positional(s) == n
  {
    NatRoundTrip(n);
    NaturalRead(PrintNat(n));
    if n == 0 {
      assert PrintNat(0) == "0";
    }
    if Digits(s) && (s == "0" || s[0] != '0') {
      NoLeadingZeroWritten(s);
    }
  }

  lemma {:induction false} NoLeadingZeroWritten(s: string)
    requires Digits(s) && (s == "0" || s[0] != '0')
    ensures PrintNat(Positional(s)) == s && (s != "0" ==> Positional(s) > 0)
  {
    hide PrintNat;
    var front, c := s[..|s| - 1], s[|s| - 1];
    var d := c as int - '0' as int;
    assert s == front + [c];
    PositionalOneMore(front, c);
    assert c in s && s[0] in s;
    if front == "" {
      PrintOneDigit(d);
    } else {
      assert |s| != |"0"| && front[0] == s[0];
      DigitsOneMore(front, c);
      NoLeadingZeroWritten(front);
      PrintOneMore(Positional(front), d);
    }
  }

  lemma PrintOneDigit(d: int)
    requires 0 <= d < 10
    ensures PrintNat(d) == ['0' + d as char]
  {
  }

  lemma PrintOneMore(n: nat, d: int)
    requires n > 0 && 0 <= d < 10
    ensures PrintNat(10 * n + d) == PrintNat(n) + ['0' + d as char]
  {
    assert (10 * n + d) / 10 == n && (10 * n + d) % 10 == d;
  }

  /** An integer is read from digits after an optional sign when it fits 64 bits. */
  lemma IntegerRead(s: string)
    ensures var signed := s != "" && (s[0] == '-' || s[0] == '+');
            var digits := if signed then s[1..] else s;
            ParseInt64(s) ==
            if !Digits(digits) then None
            else
              var n: int := Positional(digits);
              if signed && s[0] == '-' then if n <= 9223372036854775808 then Some(-n) else None
              else if n <= 9223372036854775807 then Some(n) else None
  {
    hide Digits;
    NaturalRead(s);
    if s != "" {
      NaturalRead(s[1..]);
    }
  }

  /** The text of an integer: a minus sign before a negative one, and no sign before any other. */
  lemma IntegerWritten(n: int)
    ensures n >= 0 ==> PrintInt(n) == PrintNat(n)
    ensures n < 0 ==> PrintInt(n) == "-" + PrintNat(-n)
  {
  }

  // ---- times ----

  /** A keep-alive interval is written in whole seconds of a thousand million nanoseconds, truncated toward zero. */
  lemma SecondsWritten(d: int, s: int, rest: int)
    requires 0 <= rest < 1000000000 && s >= 0
    ensures d == 1000000000 * s + rest ==> WholeSeconds(d) == s
    ensures d == -(1000000000 * s + rest) ==> WholeSeconds(d) == -s
  {
  }

  /** Zero seconds stand for no handshake; every other number is the time since the epoch. */
  lemma HandshakeRead(sec: int)
    ensures HandshakeTime(sec) == None <==> sec == 0
    ensures sec != 0 ==> HandshakeTime(sec) == Some(sec)
  {
  }
}
