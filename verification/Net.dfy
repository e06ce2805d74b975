/**
 IP addresses, prefixes and endpoints and their text. IPv4 text is modelled character by character;
 IPv6 text goes through a codec that every theorem quantifies over.
 */
module Net {
  import opened Wrappers
  import opened Encodings
  import Text

  /** An address is its bytes: four for IPv4, sixteen for IPv6. */
  type Addr = a: seq<byte> | |a| == 4 || |a| == 16 witness [0, 0, 0, 0]

  datatype RawPrefix = Prefix(addr: Addr, bits: nat)

  type Prefix = p: RawPrefix | p.bits <= 8 * |p.addr| witness Prefix([0, 0, 0, 0], 0)

  /** A UDP endpoint. */
  datatype UdpAddr = UdpAddr(ip: Addr, port: int)

  predicate IsV4(a: Addr) {
    |a| == 4
  }

  // ---- masks ----

  /** The value of a byte whose low `8 - keep` bits are cleared. */
  function MaskByte(b: byte, keep: int): (m: byte)
    ensures m <= b
  {
    if keep <= 0 then 0
    else if keep == 1 then b / 128 * 128
    else if keep == 2 then b / 64 * 64
    else if keep == 3 then b / 32 * 32
    else if keep == 4 then b / 16 * 16
    else if keep == 5 then b / 8 * 8
    else if keep == 6 then b / 4 * 4
    else if keep == 7 then b / 2 * 2
    else b
  }

  /** The address with only its first `bits` bits kept. */
  function MaskAddr(a: Addr, bits: nat): (m: Addr)
    ensures |m| == |a|
  {
    seq(|a|, i requires 0 <= i < |a| => MaskByte(a[i], bits - 8 * i))
  }

  /** netip.Prefix.Masked */
  function Masked(p: Prefix): (m: Prefix)
    ensures m.bits == p.bits
  {
    Prefix(MaskAddr(p.addr, p.bits), p.bits)
  }

  lemma MaskByteTwice(b: byte, keep: int)
    ensures MaskByte(MaskByte(b, keep), keep) == MaskByte(b, keep)
  {
    if keep == 1 {
      assert (b / 128 * 128) / 128 == b / 128;
    } else if keep == 2 {
      assert (b / 64 * 64) / 64 == b / 64;
    } else if keep == 3 {
      assert (b / 32 * 32) / 32 == b / 32;
    } else if keep == 4 {
      assert (b / 16 * 16) / 16 == b / 16;
    } else if keep == 5 {
      assert (b / 8 * 8) / 8 == b / 8;
    } else if keep == 6 {
      assert (b / 4 * 4) / 4 == b / 4;
    } else if keep == 7 {
      assert (b / 2 * 2) / 2 == b / 2;
    }
  }

  lemma MaskedTwice(p: Prefix)
    ensures Masked(Masked(p)) == Masked(p)
  {
    var m := MaskAddr(p.addr, p.bits);
    forall i | 0 <= i < |m|
      ensures MaskAddr(m, p.bits)[i] == m[i]
    {
      MaskByteTwice(p.addr[i], p.bits - 8 * i);
    }
    assert MaskAddr(m, p.bits) == m;
  }

  // ---- the text of an address ----

  /** The first character that tells the two families apart. */
  function FamilyMark(s: string): Option<char> {
    if s == "" then None
    else if s[0] == '.' || s[0] == ':' || s[0] == '%' then Some(s[0])
    else FamilyMark(s[1..])
  }

  predicate IsV6Char(c: char) {
    IsLowerHex(c) || 'A' <= c <= 'F' || c == ':' || c == '.'
  }

  predicate LooksV6(s: string) {
    FamilyMark(s) == Some(':') && forall c :: c in s ==> IsV6Char(c)
  }

  /** How IPv6 addresses are written (RFC 5952) and read: only the laws below are used. */
  datatype V6Codec = V6Codec(show: seq<byte> -> string, parse: string -> Option<seq<byte>>) {
    ghost predicate Lawful() {
      && (forall a :: |a| == 16 ==> parse(show(a)) == Some(a) && LooksV6(show(a)))
      && (forall s :: parse(s).Some? ==> |parse(s).value| == 16 && LooksV6(s))
    }
  }

  /** One lawful way to write addresses: a colon and the bytes in hexadecimal. */
  function HexShow(a: seq<byte>): string {
    ":" + HexEncode(a)
  }

  function HexParse(s: string): Option<seq<byte>> {
    if s == "" || s[0] != ':' then None
    else match HexDecode(s[1..])
      case None => None
      case Some(a) => if |a| == 16 then Some(a) else None
  }

  lemma {:induction false} HexDecodedChars(s: string)
    requires HexDecode(s).Some?
    ensures forall c :: c in s ==> IsV6Char(c)
  {
    if s != "" {
      HexDecodedChars(s[2..]);
      assert s == [s[0], s[1]] + s[2..];
    }
  }

  /** The laws of a codec can be met. */
  lemma LawfulCodecExists()
    ensures V6Codec(HexShow, HexParse).Lawful()
  {
    hide HexEncode, HexDecode, IsV6Char;
    forall a: seq<byte> | |a| == 16
      ensures HexParse(HexShow(a)) == Some(a) && LooksV6(HexShow(a))
    {
      HexRoundTrip(a);
      assert HexShow(a)[1..] == HexEncode(a);
      ColonIsV6Char(HexEncode(a));
    }
    forall s | HexParse(s).Some?
      ensures |HexParse(s).value| == 16 && LooksV6(s)
    {
      HexDecodedChars(s[1..]);
      assert s == ":" + s[1..];
      ColonIsV6Char("");
    }
  }

  lemma ColonIsV6Char(s: string)
    requires forall c :: c in s ==> IsLowerHex(c)
    ensures forall c :: c in ":" + s ==> IsV6Char(c)
  {
  }

  function ParseOctet(s: string): Option<byte> {
    match ParseNat(s)
    case None => None
    case Some(n) => if n <= 255 && NoLeadingZero(s) then Some(n) else None
  }

  function ParseV4(s: string): Option<Addr> {
    var f := Text.Split(s, '.');
    if |f| != 4 then None
    else match (ParseOctet(f[0]), ParseOctet(f[1]), ParseOctet(f[2]), ParseOctet(f[3]))
      case (Some(a), Some(b), Some(c), Some(d)) => Some([a, b, c, d])
      case _ => None
  }

  /** netip.ParseAddr without zones. */
  function ParseAddr(v6: V6Codec, s: string): Option<Addr> {
    match FamilyMark(s)
    case Some(c) =>
      if c == '.' then ParseV4(s)
      else if c == ':' then
        match v6.parse(s)
        case Some(a) => if |a| == 16 then Some(a) else None
        case None => None
      else None
    case None => None
  }

  /** netip.Addr.String */
  function AddrText(v6: V6Codec, a: Addr): string {
    if IsV4(a) then Text.Join([PrintNat(a[0]), PrintNat(a[1]), PrintNat(a[2]), PrintNat(a[3])], '.')
    else v6.show(a)
  }

  /** Reading an address back; its text has no character that the surrounding syntax uses. */
  lemma AddrRoundTrip(v6: V6Codec, a: Addr)
    requires v6.Lawful()
    ensures ParseAddr(v6, AddrText(v6, a)) == Some(a)
    ensures forall c :: c in AddrText(v6, a) ==> IsV6Char(c)
    ensures FamilyMark(AddrText(v6, a)) == Some(if IsV4(a) then '.' else ':')
    ensures IsV4(a) ==> forall c :: c in AddrText(v6, a) ==> IsDigit(c) || c == '.'
  {
    if IsV4(a) {
      V4RoundTrip(a);
    }
  }

  lemma V4RoundTrip(a: Addr)
    requires IsV4(a)
    ensures var s := Text.Join([PrintNat(a[0]), PrintNat(a[1]), PrintNat(a[2]), PrintNat(a[3])], '.');
            ParseV4(s) == Some(a) && FamilyMark(s) == Some('.') && forall c :: c in s ==> IsDigit(c) || c == '.'
  {
    var f := [PrintNat(a[0]), PrintNat(a[1]), PrintNat(a[2]), PrintNat(a[3])];
    forall i | 0 <= i < 4
      ensures ParseOctet(f[i]) == Some(a[i]) && '.' !in f[i] && forall c :: c in f[i] ==> IsDigit(c)
    {
      NatRoundTrip(a[i]);
    }
    Text.SplitUndoesJoin(f, '.');
    assert a == [a[0], a[1], a[2], a[3]];
    var rest := Text.Join(f[1..], '.');
    assert Text.Join(f, '.') == f[0] + ['.'] + rest;
    MarkAfterDigits(f[0], '.', rest);
    JoinedChars(f, '.');
  }

  lemma {:induction false} MarkAfterDigits(digits: string, mark: char, rest: string)
    requires (forall c :: c in digits ==> IsDigit(c)) && (mark == '.' || mark == ':')
    ensures FamilyMark(digits + [mark] + rest) == Some(mark)
  {
    if digits != "" {
      assert digits[0] in digits;
      assert (digits + [mark] + rest)[1..] == digits[1..] + [mark] + rest;
      MarkAfterDigits(digits[1..], mark, rest);
    }
  }

  lemma {:induction false} JoinedChars(pieces: seq<string>, sep: char)
    requires forall p, c :: p in pieces && c in p ==> IsDigit(c)
    ensures forall c :: c in Text.Join(pieces, sep) ==> IsDigit(c) || c == sep
  {
    if |pieces| > 1 {
      JoinedChars(pieces[1..], sep);
    }
  }

  // ---- the text of a prefix ----

  /** netip.Prefix.String */
  function PrefixText(v6: V6Codec, p: Prefix): string {
    AddrText(v6, p.addr) + "/" + PrintNat(p.bits)
  }

  function ReadPrefix(v6: V6Codec, s: string, zerosAllowed: bool): Option<Prefix> {
    var parts := Text.Split(s, '/');
    if |parts| != 2 then None
    else match (ParseAddr(v6, parts[0]), ParseNat(parts[1]))
      case (Some(a), Some(n)) =>
        if n <= 8 * |a| && (zerosAllowed || NoLeadingZero(parts[1])) then Some(Prefix(a, n)) else None
      case _ => None
  }

  /** netip.ParsePrefix: the host bits are kept. */
  function ParsePrefix(v6: V6Codec, s: string): Option<Prefix> {
    ReadPrefix(v6, s, false)
  }

  /** The network that net.ParseCIDR returns: the host bits are cleared. */
  function ParseCIDR(v6: V6Codec, s: string): Option<Prefix> {
    match ReadPrefix(v6, s, true)
    case None => None
    case Some(p) => Some(Masked(p))
  }

  lemma NoSlash(s: string)
    requires forall c :: c in s ==> IsV6Char(c) || IsDigit(c)
    ensures '/' !in s && forall c :: c in s ==> IsV6Char(c)
  {
  }

  lemma PrefixRoundTrip(v6: V6Codec, p: Prefix)
    requires v6.Lawful()
    ensures ParsePrefix(v6, PrefixText(v6, p)) == Some(p)
    ensures ParseCIDR(v6, PrefixText(v6, p)) == Some(Masked(p))
    ensures forall c :: c in PrefixText(v6, p) ==> IsV6Char(c) || c == '/'
  {
    AddrRoundTrip(v6, p.addr);
    NatRoundTrip(p.bits);
    var a, b := AddrText(v6, p.addr), PrintNat(p.bits);
    hide AddrText, ParseAddr, PrintNat, ParseNat, IsV6Char;
    NoSlash(a);
    NoSlash(b);
    Text.SplitAtSeparator(a, '/', b);
    Text.SplitWithoutSeparator(b, '/');
    assert a + "/" + b == a + ['/'] + b;
  }

  /** Two prefixes with the same text are the same prefix. */
  lemma PrefixTextInjective(v6: V6Codec, p: Prefix, q: Prefix)
    requires v6.Lawful() && PrefixText(v6, p) == PrefixText(v6, q)
    ensures p == q
  {
    PrefixRoundTrip(v6, p);
    PrefixRoundTrip(v6, q);
  }

  /** An IPv4 address in IPv6 form, which net.IP prints as IPv4. */
  predicate IsMapped(a: Addr) {
    |a| == 16 && a[..12] == [0, 0, 0, 0, 0, 0, 0, 0, 0, 0, 255, 255]
  }

  function UnmapAddr(a: Addr): (u: Addr)
    ensures !IsMapped(u)
  {
    if IsMapped(a) then a[12..] else a
  }

  /** The prefix that net.IPNet prints: an IPv4-mapped one loses its first 96 bits. */
  function Unmapped(p: Prefix): Prefix {
    if IsMapped(p.addr) then Prefix(UnmapAddr(p.addr), if p.bits < 96 then 0 else p.bits - 96) else p
  }

  /** net.IPNet.String */
  function IPNetText(v6: V6Codec, p: Prefix): string {
    PrefixText(v6, Unmapped(p))
  }

  // ---- endpoints ----

  /** The parts on both sides of the last `sep`. */
  function CutLast(s: string, sep: char): Option<(string, string)> {
    if s == "" then None
    else if s[|s| - 1] == sep then Some((s[..|s| - 1], ""))
    else match CutLast(s[..|s| - 1], sep)
      case None => None
      case Some((a, b)) => Some((a, b + [s[|s| - 1]]))
  }

  lemma {:induction false} CutLastAt(a: string, sep: char, b: string)
    requires sep !in b
    ensures CutLast(a + [sep] + b, sep) == Some((a, b))
  {
    var s := a + [sep] + b;
    if b == "" {
      assert s[..|s| - 1] == a;
    } else {
      assert s[..|s| - 1] == a + [sep] + b[..|b| - 1];
      CutLastAt(a, sep, b[..|b| - 1]);
      assert b == b[..|b| - 1] + [b[|b| - 1]];
    }
  }

  /** net.UDPAddr.String */
  function EndpointText(v6: V6Codec, e: UdpAddr): string {
    var ip := UnmapAddr(e.ip);
    if IsV4(ip) then AddrText(v6, ip) + ":" + PrintInt(e.port)
    else "[" + AddrText(v6, ip) + "]:" + PrintInt(e.port)
  }

  /** The endpoint that the text of an endpoint names. */
  function UnmapEndpoint(e: UdpAddr): UdpAddr {
    UdpAddr(UnmapAddr(e.ip), e.port)
  }

  /** netip.ParseAddrPort, with which the WireGuard device reads an endpoint. */
  function ParseAddrPort(v6: V6Codec, s: string): Option<UdpAddr> {
    match CutLast(s, ':')
    case None => None
    case Some((host, port)) =>
      var bracketed := host != "" && host[0] == '[';
      if bracketed && (|host| < 2 || host[|host| - 1] != ']') then None
      else match (ParseAddr(v6, if bracketed then host[1..|host| - 1] else host), ParseNat(port))
        case (Some(a), Some(n)) =>
          if n <= 65535 && bracketed == !IsV4(a) then Some(UdpAddr(a, n)) else None
        case _ => None
  }

  lemma ReadPlainEndpoint(v6: V6Codec, host: string, port: string, ip: Addr, n: nat)
    requires host != "" && host[0] != '[' && ':' !in port
    requires ParseAddr(v6, host) == Some(ip) && ParseNat(port) == Some(n) && n <= 65535 && IsV4(ip)
    ensures ParseAddrPort(v6, host + ":" + port) == Some(UdpAddr(ip, n))
  {
    CutLastAt(host, ':', port);
    assert host + [':'] + port == host + ":" + port;
  }

  lemma ReadBracketedEndpoint(v6: V6Codec, host: string, port: string, ip: Addr, n: nat)
    requires ':' !in port
    requires ParseAddr(v6, host) == Some(ip) && ParseNat(port) == Some(n) && n <= 65535 && !IsV4(ip)
    ensures ParseAddrPort(v6, "[" + host + "]:" + port) == Some(UdpAddr(ip, n))
  {
    var outer := "[" + host + "]";
    CutLastAt(outer, ':', port);
    assert outer + [':'] + port == "[" + host + "]:" + port;
    assert outer[1..|outer| - 1] == host;
  }

  lemma EndpointRoundTrip(v6: V6Codec, e: UdpAddr)
    requires v6.Lawful() && 0 <= e.port <= 65535
    ensures ParseAddrPort(v6, EndpointText(v6, e)) == Some(UnmapEndpoint(e))
    ensures forall c :: c in EndpointText(v6, e) ==> IsV6Char(c) || c == '[' || c == ']'
  {
    hide AddrText, ParseAddr, UnmapAddr, ParseAddrPort, ParseNat, PrintNat, IsV6Char, FamilyMark, EndpointText;
    var ip := UnmapAddr(e.ip);
    AddrRoundTrip(v6, ip);
    NatRoundTrip(e.port);
    var a, port := AddrText(v6, ip), PrintNat(e.port);
    EndpointParts(v6, e);
    EndpointChars(a, port);
    if IsV4(ip) {
      StartsPlain(a);
      ReadPlainEndpoint(v6, a, port, ip, e.port);
    } else {
      ReadBracketedEndpoint(v6, a, port, ip, e.port);
    }
  }

  lemma EndpointParts(v6: V6Codec, e: UdpAddr)
    requires e.port >= 0
    ensures var a, port := AddrText(v6, UnmapAddr(e.ip)), PrintNat(e.port);
            EndpointText(v6, e) == if IsV4(UnmapAddr(e.ip)) then a + ":" + port else "[" + a + "]:" + port
  {
    hide AddrText, UnmapAddr, PrintNat;
  }

  lemma EndpointChars(a: string, port: string)
    requires (forall c :: c in a ==> IsV6Char(c)) && forall c :: c in port ==> IsDigit(c)
    ensures ':' !in port
    ensures forall c :: c in a + ":" + port ==> IsV6Char(c)
    ensures forall c :: c in "[" + a + "]:" + port ==> IsV6Char(c) || c == '[' || c == ']'
  {
  }

  lemma StartsPlain(a: string)
    requires (forall c :: c in a ==> IsV6Char(c)) && FamilyMark(a).Some?
    ensures a != "" && a[0] != '['
  {
    assert a != "" && a[0] in a;
  }

  /** net.SplitHostPort for a text that does not start with a bracket. */
  function SplitHostPort(s: string): Option<(string, string)> {
    match CutLast(s, ':')
    case None => None
    case Some((host, port)) =>
      if ':' in host || '[' in s || ']' in s then None else Some((host, port))
  }

  /** What a status keeps of an endpoint: the address is absent when its text is not an address. */
  datatype StatusEndpoint = StatusEndpoint(ip: Option<Addr>, port: int)

  /** How a status reads the value of an endpoint line. */
  function ParseStatusEndpoint(v6: V6Codec, val: string): Option<StatusEndpoint> {
    match SplitHostPort(Text.TrimBrackets(val))
    case None => None
    case Some((host, port)) =>
      match ParseInt64(port)
      case None => None
      case Some(n) => Some(StatusEndpoint(ParseAddr(v6, host), n))
  }

  lemma TrimBracketsAround(s: string)
    requires s != "" && s[0] != '[' && s[0] != ']' && s[|s| - 1] != '[' && s[|s| - 1] != ']'
    ensures Text.TrimBrackets(s) == s && Text.TrimBrackets("[" + s) == s
  {
    assert ("[" + s)[1..] == s;
  }

  lemma StatusReadsPlain(v6: V6Codec, host: string, port: string)
    requires host != "" && port != "" && forall c :: c in host + port ==> IsDigit(c) || c == '.'
    ensures ParseStatusEndpoint(v6, host + ":" + port) ==
            match ParseInt64(port)
            case None => None
            case Some(n) => Some(StatusEndpoint(ParseAddr(v6, host), n))
  {
    var text := host + ":" + port;
    assert text[0] in host + port && text[|text| - 1] in host + port;
    TrimBracketsAround(text);
    assert ':' !in port && ':' !in host by {
      assert forall c :: c in port || c in host ==> c in host + port;
    }
    CutLastAt(host, ':', port);
    assert host + [':'] + port == text;
    forall c | c in text
      ensures c != '[' && c != ']'
    {
      assert c in host + port || c == ':';
    }
  }

  lemma StatusSkipsBracketed(v6: V6Codec, host: string, port: string)
    requires host != "" && host[0] != '[' && host[0] != ']'
    requires port != "" && forall c :: c in port ==> IsDigit(c)
    ensures ParseStatusEndpoint(v6, "[" + host + "]:" + port) == None
  {
    var text := host + "]:" + port;
    assert text[0] == host[0] && text[|text| - 1] in port;
    TrimBracketsAround(text);
    assert "[" + text == "[" + host + "]:" + port;
    assert text[|host|] == ']';
  }

  /** A status recovers the endpoint exactly when it is IPv4; a bracketed IPv6 endpoint is never read. */
  lemma StatusEndpointOnlyV4(v6: V6Codec, e: UdpAddr)
    requires v6.Lawful() && 0 <= e.port <= 65535
    ensures ParseStatusEndpoint(v6, EndpointText(v6, e)) ==
            if IsV4(UnmapAddr(e.ip)) then Some(StatusEndpoint(Some(UnmapAddr(e.ip)), e.port)) else None
  {
    var ip := UnmapAddr(e.ip);
    AddrRoundTrip(v6, ip);
    IntRoundTrip(e.port);
    NatRoundTrip(e.port);
    var a := AddrText(v6, ip);
    MarkIsIn(a);
    assert a[0] in a;
    if IsV4(ip) {
      StatusReadsPlain(v6, a, PrintNat(e.port));
    } else {
      StatusSkipsBracketed(v6, a, PrintNat(e.port));
    }
  }

  lemma {:induction false} MarkIsIn(s: string)
    ensures FamilyMark(s).Some? ==> FamilyMark(s).value in s
  {
    if s != "" {
      MarkIsIn(s[1..]);
    }
  }
}
