/** Which texts are read as addresses, prefixes and endpoints, and what they name. */
module AddressForms {
  import opened Wrappers
  import opened Encodings
  import opened Text
  import opened Net
  import opened TextForms
  import opened Bits

  // ---- pieces of a text ----

  /** Joining the pieces of a text gives it back, and no piece holds the separator. */
  lemma {:induction false} JoinUndoesSplit(s: string, sep: char)
    ensures Join(Split(s, sep), sep) == s && forall p :: p in Split(s, sep) ==> sep !in p
  {
    if s == "" {
      assert Split(s, sep) == [""];
    } else {
      JoinUndoesSplit(s[1..], sep);
      var rest := Split(s[1..], sep);
      if s[0] == sep {
        assert Split(s, sep)[1..] == rest;
        assert s == [sep] + s[1..];
        assert "" + [sep] == [sep];
      } else {
        var pieces := [[s[0]] + rest[0]] + rest[1..];
        assert pieces[1..] == rest[1..];
        JoinFirst([s[0]], rest, sep);
        assert s == [s[0]] + s[1..];
      }
    }
  }

  lemma JoinFirst(a: string, pieces: seq<string>, sep: char)
    requires pieces != []
    ensures Join([a + pieces[0]] + pieces[1..], sep) == a + Join(pieces, sep)
  {
    var all := [a + pieces[0]] + pieces[1..];
    assert all[1..] == pieces[1..];
    if |pieces| > 1 {
      var rest := Join(pieces[1..], sep);
      assert a + pieces[0] + [sep] + rest == a + (pieces[0] + [sep] + rest);
    }
  }

  lemma {:induction false} CutLastExactly(s: string, sep: char)
    ensures match CutLast(s, sep)
            case None => sep !in s
            case Some((a, b)) => s == a + [sep] + b && sep !in b
  {
    if s != "" {
      var front, c := s[..|s| - 1], s[|s| - 1];
      assert s == front + [c];
      CutLastExactly(front, sep);
    }
  }

  // ---- addresses ----

  /** The text of an IPv4 address: its bytes in decimal, with dots between them. */
  function Dotted(a: seq<byte>): string
    requires |a| == 4
  {
    PrintNat(a[0]) + "." + PrintNat(a[1]) + "." + PrintNat(a[2]) + "." + PrintNat(a[3])
  }

  lemma DottedText(v6: V6Codec, a: Addr)
    ensures AddrText(v6, a) == if |a| == 4 then Dotted(a) else v6.show(a)
  {
    hide PrintNat;
    if |a| == 4 {
      var w, x, y, z := PrintNat(a[0]), PrintNat(a[1]), PrintNat(a[2]), PrintNat(a[3]);
      JoinOneMore([w], x, '.');
      JoinOneMore([w, x], y, '.');
      JoinOneMore([w, x, y], z, '.');
      assert [w] + [x] == [w, x] && [w, x] + [y] == [w, x, y] && [w, x, y] + [z] == [w, x, y, z];
    }
  }

  lemma OctetExactly(s: string, b: byte)
    ensures ParseOctet(s) == Some(b) <==> s == PrintNat(b)
  {
    hide Digits, PrintNat;
    NatRoundTrip(b);
    NaturalRead(s);
    NaturalWritten(b, s);
    if ParseOctet(s) == Some(b) {
      ZeroAlone(s);
    }
  }

  lemma ZeroAlone(s: string)
    requires Digits(s) && NoLeadingZero(s)
    ensures s == "0" || s[0] != '0'
  {
    if |s| == 1 {
      assert s == [s[0]];
    }
  }

  /** An IPv4 address is read from its text only. */
  lemma V4Exactly(s: string, a: Addr)
    requires |a| == 4
    ensures ParseV4(s) == Some(a) <==> s == Dotted(a)
  {
    hide PrintNat, ParseOctet;
    var f := Split(s, '.');
    JoinUndoesSplit(s, '.');
    V4RoundTrip(a);
    DottedText(V6Codec(HexShow, HexParse), a);
    if ParseV4(s) == Some(a) {
      OctetExactly(f[0], a[0]);
      OctetExactly(f[1], a[1]);
      OctetExactly(f[2], a[2]);
      OctetExactly(f[3], a[3]);
      assert f == [PrintNat(a[0]), PrintNat(a[1]), PrintNat(a[2]), PrintNat(a[3])];
    }
  }

  /** An address is read from its dotted text, or by the codec. */
  lemma AddrExactly(v6: V6Codec, s: string, a: Addr)
    requires v6.Lawful()
    ensures ParseAddr(v6, s) == Some(a) <==> if |a| == 4 then s == Dotted(a) else v6.parse(s) == Some(a)
  {
    hide Dotted, ParseV4, PrintNat;
    V4Only(s);
    if |a| == 4 {
      V4Exactly(s, a);
      AddrRoundTrip(v6, a);
      DottedText(v6, a);
    }
  }

  lemma V4Only(s: string)
    ensures ParseV4(s).Some? ==> |ParseV4(s).value| == 4
  {
    hide ParseOctet;
  }

  // ---- prefixes ----

  /** A prefix is read from an address, a slash and a number of at most its bits without a leading zero. */
  lemma PrefixExactly(v6: V6Codec, s: string, p: Prefix)
    requires v6.Lawful()
    ensures ParsePrefix(v6, s) == Some(p) <==>
            exists t :: ParseAddr(v6, t) == Some(p.addr) && s == t + "/" + PrintNat(p.bits)
  {
    hide PrintNat, ParseAddr;
    var f := Split(s, '/');
    JoinUndoesSplit(s, '/');
    if ParsePrefix(v6, s) == Some(p) {
      SlashParts(f);
      NaturalRead(f[1]);
      ZeroAlone(f[1]);
      NaturalWritten(p.bits, f[1]);
      assert s == f[0] + "/" + PrintNat(p.bits);
    }
    if t :| ParseAddr(v6, t) == Some(p.addr) && s == t + "/" + PrintNat(p.bits) {
      NatRoundTrip(p.bits);
      SlashRead(v6, t, PrintNat(p.bits));
    }
  }

  lemma SlashParts(f: seq<string>)
    requires |f| == 2
    ensures Join(f, '/') == f[0] + "/" + f[1]
  {
    assert f[1..] == [f[1]];
  }

  lemma SlashRead(v6: V6Codec, t: string, d: string)
    requires v6.Lawful() && ParseAddr(v6, t).Some? && forall c :: c in d ==> IsDigit(c)
    ensures Split(t + "/" + d, '/') == [t, d]
  {
    AddrChars(v6, t);
    SplitAtSeparator(t, '/', d);
    SplitWithoutSeparator(d, '/');
    assert t + "/" + d == t + ['/'] + d;
  }

  /** The text of an address has no character of the syntax around it. */
  lemma AddrChars(v6: V6Codec, t: string)
    requires v6.Lawful() && ParseAddr(v6, t).Some?
    ensures forall c :: c in t ==> IsV6Char(c)
    ensures '/' !in t && '[' !in t && ']' !in t && t != ""
    ensures |ParseAddr(v6, t).value| == 4 ==> ':' !in t
  {
    var a := ParseAddr(v6, t).value;
    AddrExactly(v6, t, a);
    AddrRoundTrip(v6, a);
    DottedText(v6, a);
    hide ParseAddr, Dotted, AddrText;
    if |a| == 16 {
      assert LooksV6(t);
    }
    assert forall c :: c in t ==> IsV6Char(c);
  }

  /** A network is read likewise; its length may have leading zeros, and its host bits are cleared. */
  lemma NetworkExactly(v6: V6Codec, s: string, q: Prefix)
    requires v6.Lawful()
    ensures ParseCIDR(v6, s) == Some(q) <==>
            exists t, d :: ParseAddr(v6, t).Some? && Digits(d) && s == t + "/" + d
                           && Positional(d) <= 8 * |ParseAddr(v6, t).value|
                           && q == Masked(Prefix(ParseAddr(v6, t).value, Positional(d)))
  {
    hide ParseAddr, Masked, Positional;
    var f := Split(s, '/');
    JoinUndoesSplit(s, '/');
    if ParseCIDR(v6, s) == Some(q) {
      SlashParts(f);
      NaturalRead(f[1]);
    }
    if t, d :| ParseAddr(v6, t).Some? && Digits(d) && s == t + "/" + d
               && Positional(d) <= 8 * |ParseAddr(v6, t).value|
               && q == Masked(Prefix(ParseAddr(v6, t).value, Positional(d))) {
      SlashRead(v6, t, d);
      NaturalRead(d);
    }
  }

  // ---- IPv4 addresses in IPv6 form ----

  /** The last four bytes after ten zeros and two bytes of ones. */
  lemma UnmappedBytes(a: Addr)
    ensures IsMapped(a) <==>
            |a| == 16 && a[10] == 255 && a[11] == 255 && forall i :: 0 <= i < 10 ==> a[i] == 0
    ensures if IsMapped(a) then UnmapAddr(a) == [a[12], a[13], a[14], a[15]] else UnmapAddr(a) == a
  {
    if |a| == 16 {
      var zeros: seq<byte> := [0, 0, 0, 0, 0, 0, 0, 0, 0, 0, 255, 255];
      assert IsMapped(a) <==> forall i :: 0 <= i < 12 ==> a[i] == zeros[i];
    }
  }

  /** An IPv4-mapped network of at most 96 bits is printed as the default route; other networks stay as they are. */
  lemma UnmappedLength(p: Prefix)
    ensures IsMapped(p.addr) ==> Unmapped(p).bits == if p.bits <= 96 then 0 else p.bits - 96
    ensures Unmapped(p).addr == UnmapAddr(p.addr) && (!IsMapped(p.addr) ==> Unmapped(p) == p)
  {
  }

  /** An IPv4-mapped address is in an IPv4-mapped network exactly when the unmapped one is in the unmapped network. */
  lemma UnmappedNetwork(p: Prefix, a: Addr)
    requires IsMapped(p.addr) && IsMapped(a) && p.bits >= 96
    ensures InNetwork(Unmapped(p), UnmapAddr(a)) <==> InNetwork(p, a)
  {
    hide Bit;
    UnmappedBytes(p.addr);
    UnmappedBytes(a);
    var b, c := UnmapAddr(p.addr), UnmapAddr(a);
    forall i | 0 <= i < 32
      ensures AddrBit(b, i) == AddrBit(p.addr, i + 96) && AddrBit(c, i) == AddrBit(a, i + 96)
    {
    }
    forall i | 0 <= i < 96
      ensures AddrBit(p.addr, i) == AddrBit(a, i)
    {
    }
    if InNetwork(Unmapped(p), c) {
      forall i | 96 <= i < p.bits
        ensures AddrBit(p.addr, i) == AddrBit(a, i)
      {
        assert AddrBit(b, i - 96) == AddrBit(c, i - 96);
      }
    }
    if InNetwork(p, a) {
      forall i | 0 <= i < p.bits - 96
        ensures AddrBit(b, i) == AddrBit(c, i)
      {
        assert AddrBit(p.addr, i + 96) == AddrBit(a, i + 96);
      }
    }
  }

  // ---- endpoints ----

  /** The text of an endpoint: the unmapped address, in brackets when it is IPv6, a colon and the port. */
  lemma EndpointWritten(v6: V6Codec, e: UdpAddr)
    ensures EndpointText(v6, e) ==
            if |UnmapAddr(e.ip)| == 4 then Dotted(UnmapAddr(e.ip)) + ":" + PrintInt(e.port)
            else "[" + v6.show(UnmapAddr(e.ip)) + "]:" + PrintInt(e.port)
  {
    hide UnmapAddr, PrintInt, Dotted, AddrText;
    DottedText(v6, UnmapAddr(e.ip));
  }

  /**
   A device reads an endpoint from an address, in brackets when it is IPv6, a colon and a decimal port of sixteen bits.
   */
  lemma EndpointExactly(v6: V6Codec, s: string, e: UdpAddr)
    requires v6.Lawful()
    ensures ParseAddrPort(v6, s) == Some(e) <==>
            exists t, d :: ParseAddr(v6, t) == Some(e.ip) && Digits(d) && e.port == Positional(d) <= 65535
                           && s == if |e.ip| == 4 then t + ":" + d else "[" + t + "]:" + d
  {
    hide ParseAddr, ParseAddrPort, Positional, Digits;
    if ParseAddrPort(v6, s) == Some(e) {
      var t, d := PartsOfEndpoint(v6, s, e);
    }
    if t, d :| ParseAddr(v6, t) == Some(e.ip) && Digits(d) && e.port == Positional(d) <= 65535
               && s == if |e.ip| == 4 then t + ":" + d else "[" + t + "]:" + d {
      EndpointOfParts(v6, s, e, t, d);
    }
  }

  lemma EndpointOfParts(v6: V6Codec, s: string, e: UdpAddr, t: string, d: string)
    requires v6.Lawful() && ParseAddr(v6, t) == Some(e.ip) && Digits(d) && e.port == Positional(d) <= 65535
    requires s == if |e.ip| == 4 then t + ":" + d else "[" + t + "]:" + d
    ensures ParseAddrPort(v6, s) == Some(e)
  {
    hide ParseAddr, ParseAddrPort, Positional, Digits;
    NaturalRead(d);
    AddrChars(v6, t);
    NoColon(d);
    if |e.ip| == 4 {
      ReadPlainEndpoint(v6, t, d, e.ip, e.port);
    } else {
      ReadBracketedEndpoint(v6, t, d, e.ip, e.port);
    }
  }

  lemma PartsOfEndpoint(v6: V6Codec, s: string, e: UdpAddr) returns (t: string, d: string)
    requires v6.Lawful() && ParseAddrPort(v6, s) == Some(e)
    ensures ParseAddr(v6, t) == Some(e.ip) && Digits(d) && e.port == Positional(d) <= 65535
    ensures s == if |e.ip| == 4 then t + ":" + d else "[" + t + "]:" + d
  {
    hide ParseAddr, Positional, Digits, CutLast;
    CutLastExactly(s, ':');
    var (host, port) := CutLast(s, ':').value;
    NaturalRead(port);
    d := port;
    if |e.ip| == 4 {
      t := host;
    } else {
      t := host[1..|host| - 1];
      assert host == "[" + t + "]";
    }
  }

  lemma NoColon(d: string)
    requires Digits(d)
    ensures ':' !in d
  {
  }

  /**
   A status reads an endpoint, without the brackets around it, from a host without colons and brackets, a colon and a
   number; a host that is no address is left out.
   */
  lemma StatusEndpointExactly(v6: V6Codec, val: string, e: StatusEndpoint)
    ensures ParseStatusEndpoint(v6, val) == Some(e) <==>
            exists host, port :: TrimBrackets(val) == host + ":" + port
                                 && (forall c :: c in host || c in port ==> c !in "[]:")
                                 && ParseInt64(port) == Some(e.port) && e.ip == ParseAddr(v6, host)
  {
    hide ParseAddr, ParseInt64, TrimBrackets;
    var s := TrimBrackets(val);
    CutLastExactly(s, ':');
    if ParseStatusEndpoint(v6, val) == Some(e) {
      var (host, port) := CutLast(s, ':').value;
      assert s == host + ":" + port;
    }
    if host, port :| s == host + ":" + port && (forall c :: c in host || c in port ==> c !in "[]:")
                     && ParseInt64(port) == Some(e.port) && e.ip == ParseAddr(v6, host) {
      CutLastAt(host, ':', port);
      assert s == host + [':'] + port;
    }
  }
}
