/** Hexadecimal and base64 text of byte strings (RFC 4648, sections 8 and 4) and decimal numbers. */
module Encodings {
  import opened Wrappers

  type byte = b: int | 0 <= b < 256

  // ---- hexadecimal ----

  /** Upper-case digits are accepted when decoding. */
  function HexValue(c: char): (n: Option<int>)
    ensures n.Some? ==> 0 <= n.value < 16
  {
    if '0' <= c <= '9' then Some(c as int - '0' as int)
    else if 'a' <= c <= 'f' then Some(c as int - 'a' as int + 10)
    else if 'A' <= c <= 'F' then Some(c as int - 'A' as int + 10)
    else None
  }

  predicate IsLowerHex(c: char) {
    '0' <= c <= '9' || 'a' <= c <= 'f'
  }

  function HexDigit(n: int): (c: char)
    requires 0 <= n < 16
    ensures HexValue(c) == Some(n) && IsLowerHex(c)
  {
    if n < 10 then '0' + n as char else 'a' + (n - 10) as char
  }

  /** hex.EncodeToString */
  function HexEncode(bytes: seq<byte>): (s: string) {
    if bytes == [] then ""
    else [HexDigit(bytes[0] / 16), HexDigit(bytes[0] % 16)] + HexEncode(bytes[1..])
  }

  /** hex.DecodeString */
  function HexDecode(s: string): (r: Option<seq<byte>>) {
    if s == "" then Some([])
    else if |s| == 1 then None
    else match (HexValue(s[0]), HexValue(s[1]), HexDecode(s[2..]))
      case (Some(hi), Some(lo), Some(rest)) => Some([hi * 16 + lo] + rest)
      case _ => None
  }

  /** Decoding undoes encoding, which only writes lower-case digits, two for each byte. */
  lemma {:induction false} HexRoundTrip(bytes: seq<byte>)
    ensures HexDecode(HexEncode(bytes)) == Some(bytes)
    ensures |HexEncode(bytes)| == 2 * |bytes|
    ensures forall c :: c in HexEncode(bytes) ==> IsLowerHex(c)
  {
    hide HexValue, HexDigit;
    if bytes != [] {
      HexRoundTrip(bytes[1..]);
      var s := HexEncode(bytes);
      assert s[2..] == HexEncode(bytes[1..]);
      assert bytes == [bytes[0]] + bytes[1..];
    }
  }

  // ---- base64 ----

  function Base64Value(c: char): (n: Option<int>)
    ensures n.Some? ==> 0 <= n.value < 64
  {
    if 'A' <= c <= 'Z' then Some(c as int - 'A' as int)
    else if 'a' <= c <= 'z' then Some(c as int - 'a' as int + 26)
    else if '0' <= c <= '9' then Some(c as int - '0' as int + 52)
    else if c == '+' then Some(62)
    else if c == '/' then Some(63)
    else None
  }

  function Base64Digit(n: int): (c: char)
    requires 0 <= n < 64
    ensures Base64Value(c) == Some(n)
  {
    if n < 26 then 'A' + n as char
    else if n < 52 then 'a' + (n - 26) as char
    else if n < 62 then '0' + (n - 52) as char
    else if n == 62 then '+'
    else '/'
  }

  /** base64.StdEncoding.EncodeToString */
  function Base64Encode(bytes: seq<byte>): (s: string) {
    if bytes == [] then ""
    else if |bytes| == 1 then
      [Base64Digit(bytes[0] / 4), Base64Digit(bytes[0] % 4 * 16), '=', '=']
    else if |bytes| == 2 then
      [Base64Digit(bytes[0] / 4), Base64Digit(bytes[0] % 4 * 16 + bytes[1] / 16),
       Base64Digit(bytes[1] % 16 * 4), '=']
    else
      [Base64Digit(bytes[0] / 4), Base64Digit(bytes[0] % 4 * 16 + bytes[1] / 16),
       Base64Digit(bytes[1] % 16 * 4 + bytes[2] / 64), Base64Digit(bytes[2] % 64)] + Base64Encode(bytes[3..])
  }

  /** Four characters at a time; the unused low bits of a padded last group are ignored. */
  function Base64DecodeGroups(s: string): (r: Option<seq<byte>>) {
    if s == "" then Some([])
    else if |s| < 4 then None
    else match (Base64Value(s[0]), Base64Value(s[1]), Base64Value(s[2]), Base64Value(s[3]))
      case (Some(a), Some(b), Some(c), Some(d)) =>
        (match Base64DecodeGroups(s[4..])
         case None => None
         case Some(rest) => Some([a * 4 + b / 16, b % 16 * 16 + c / 4, c % 4 * 64 + d] + rest))
      case (Some(a), Some(b), Some(c), None) =>
        if |s| == 4 && s[3] == '=' then Some([a * 4 + b / 16, b % 16 * 16 + c / 4]) else None
      case (Some(a), Some(b), None, None) =>
        if |s| == 4 && s[2] == '=' && s[3] == '=' then Some([a * 4 + b / 16]) else None
      case _ => None
  }

  /** The line breaks that the decoder skips. */
  function WithoutBreaks(s: string): string {
    if s == "" then ""
    else if s[0] == '\r' || s[0] == '\n' then WithoutBreaks(s[1..])
    else [s[0]] + WithoutBreaks(s[1..])
  }

  /** base64.StdEncoding.DecodeString */
  function Base64Decode(s: string): Option<seq<byte>> {
    Base64DecodeGroups(WithoutBreaks(s))
  }

  /** Three bytes are recovered from the four six-bit values they are cut into. */
  lemma ThreeBytes(x: byte, y: byte, z: byte)
    ensures var (a, b, c, d) := (x / 4, x % 4 * 16 + y / 16, y % 16 * 4 + z / 64, z % 64);
            a * 4 + b / 16 == x && b % 16 * 16 + c / 4 == y && c % 4 * 64 + d == z
  {
  }

  /** A full group of four digits decodes to three bytes, before the rest of the text. */
  lemma FullGroup(x: byte, y: byte, z: byte, t: string)
    ensures var g := [Base64Digit(x / 4), Base64Digit(x % 4 * 16 + y / 16),
                      Base64Digit(y % 16 * 4 + z / 64), Base64Digit(z % 64)] + t;
            Base64DecodeGroups(g) ==
            match Base64DecodeGroups(t) case None => None case Some(rest) => Some([x, y, z] + rest)
  {
    hide Base64Digit, Base64Value;
    ThreeBytes(x, y, z);
    var g := [Base64Digit(x / 4), Base64Digit(x % 4 * 16 + y / 16),
              Base64Digit(y % 16 * 4 + z / 64), Base64Digit(z % 64)] + t;
    assert g[4..] == t;
  }

  lemma NothingToDecode()
    ensures Base64DecodeGroups("") == Some([])
  {
  }

  lemma OneByteLeft(x: byte)
    ensures Base64DecodeGroups(Base64Encode([x])) == Some([x])
  {
    ThreeBytes(x, 0, 0);
  }

  lemma PaddingIsNoDigit()
    ensures Base64Value('=') == None
  {
  }

  lemma TwoBytesLeft(x: byte, y: byte)
    ensures Base64DecodeGroups(Base64Encode([x, y])) == Some([x, y])
  {
    hide Base64Digit, Base64Value;
    ThreeBytes(x, y, 0);
    PaddingIsNoDigit();
    assert Base64Encode([x, y])[4..] == "";
  }

  lemma {:induction false} Base64GroupsRoundTrip(bytes: seq<byte>)
    ensures Base64DecodeGroups(Base64Encode(bytes)) == Some(bytes)
  {
    hide Base64Digit, Base64Value, Base64DecodeGroups;
    if bytes == [] {
      NothingToDecode();
    } else if |bytes| == 1 {
      OneByteLeft(bytes[0]);
      assert bytes == [bytes[0]];
    } else if |bytes| == 2 {
      TwoBytesLeft(bytes[0], bytes[1]);
      assert bytes == [bytes[0], bytes[1]];
    } else if |bytes| >= 3 {
      Base64GroupsRoundTrip(bytes[3..]);
      FullGroup(bytes[0], bytes[1], bytes[2], Base64Encode(bytes[3..]));
      assert bytes == [bytes[0], bytes[1], bytes[2]] + bytes[3..];
    }
  }

  lemma {:induction false} Base64HasNoBreaks(bytes: seq<byte>)
    ensures '\r' !in Base64Encode(bytes) && '\n' !in Base64Encode(bytes)
  {
    if |bytes| >= 3 {
      Base64HasNoBreaks(bytes[3..]);
    }
  }

  lemma {:induction false} NoBreaks(s: string)
    requires '\r' !in s && '\n' !in s
    ensures WithoutBreaks(s) == s
  {
    if s != "" {
      NoBreaks(s[1..]);
    }
  }

  lemma Base64RoundTrip(bytes: seq<byte>)
    ensures Base64Decode(Base64Encode(bytes)) == Some(bytes)
  {
    Base64GroupsRoundTrip(bytes);
    Base64HasNoBreaks(bytes);
    NoBreaks(Base64Encode(bytes));
  }

  /** Different byte strings have different base64 texts. */
  lemma Base64Injective(a: seq<byte>, b: seq<byte>)
    requires Base64Encode(a) == Base64Encode(b)
    ensures a == b
  {
    Base64RoundTrip(a);
    Base64RoundTrip(b);
  }

  // ---- decimal ----

  function Digit(n: int): (c: char)
    requires 0 <= n < 10
  {
    '0' + n as char
  }

  predicate IsDigit(c: char) {
    '0' <= c <= '9'
  }

  /** The `%d` text of a natural number. */
  function PrintNat(n: nat): (s: string)
    ensures s != ""
  {
    if n < 10 then [Digit(n)] else PrintNat(n / 10) + [Digit(n % 10)]
  }

  /** The number written by a non-empty run of decimal digits. */
  function ParseNat(s: string): Option<nat> {
    if s == "" || !IsDigit(s[|s| - 1]) then None
    else if |s| == 1 then Some(s[0] as int - '0' as int)
    else match ParseNat(s[..|s| - 1])
      case None => None
      case Some(n) => Some(n * 10 + (s[|s| - 1] as int - '0' as int))
  }

  /** No leading zero, except for zero itself. */
  predicate NoLeadingZero(s: string) {
    s != "" && (|s| == 1 || s[0] != '0')
  }

  lemma {:induction false} NatRoundTrip(n: nat)
    ensures ParseNat(PrintNat(n)) == Some(n)
    ensures forall c :: c in PrintNat(n) ==> IsDigit(c)
    ensures n > 0 ==> PrintNat(n)[0] != '0'
    ensures NoLeadingZero(PrintNat(n))
    ensures n < 10 ==> |PrintNat(n)| == 1
  {
    if n >= 10 {
      NatRoundTrip(n / 10);
      var s := PrintNat(n);
      assert s[..|s| - 1] == PrintNat(n / 10);
    }
  }

  const INT64_MIN: int := -0x8000_0000_0000_0000
  const INT64_MAX: int := 0x7FFF_FFFF_FFFF_FFFF

  predicate InInt64(n: int) {
    INT64_MIN <= n <= INT64_MAX
  }

  /** The `%d` text of an integer. */
  function PrintInt(n: int): (s: string) {
    if n < 0 then "-" + PrintNat(-n) else PrintNat(n)
  }

  /** strconv.Atoi and strconv.ParseInt(s, 10, 64). */
  function ParseInt64(s: string): (r: Option<int>)
    ensures r.Some? ==> InInt64(r.value)
  {
    var signed := s != "" && (s[0] == '-' || s[0] == '+');
    match ParseNat(if signed then s[1..] else s)
      case None => None
      case Some(n) =>
        var m: int := n;
        var v := if signed && s[0] == '-' then -m else m;
        if InInt64(v) then Some(v) else None
  }

  lemma IntRoundTrip(n: int)
    requires InInt64(n)
    ensures ParseInt64(PrintInt(n)) == Some(n)
    ensures forall c :: c in PrintInt(n) ==> IsDigit(c) || c == '-'
  {
    NatRoundTrip(if n < 0 then -n else n);
    if n < 0 {
      assert PrintInt(n)[1..] == PrintNat(-n);
    } else {
      assert PrintInt(n)[0] in PrintInt(n);
    }
  }
}
