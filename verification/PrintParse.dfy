/** Printing a configuration and reading it back with parseStatus: what is recovered, for every configuration. */
module PrintParse {
  import opened Wrappers
  import opened Encodings
  import opened Text
  import opened Net
  import opened Wg
  import opened UapiText
  import opened Status
  import opened Printer

  function PeerEntries(v6: V6Codec, p: PeerConfig): seq<Entry> {
    PeerHead(p) + PeerTail(v6, p)
  }

  function PeersEntries(v6: V6Codec, peers: seq<PeerConfig>): seq<Entry> {
    if peers == [] then []
    else PeersEntries(v6, peers[..|peers| - 1]) + PeerEntries(v6, peers[|peers| - 1])
  }

  /** The numbers of a configuration fit the integers of the original. */
  predicate Representable(cfg: Config) {
    && (cfg.listenPort.Some? ==> InInt64(cfg.listenPort.value))
    && (cfg.firewallMark.Some? ==> InInt64(cfg.firewallMark.value))
    && (forall p :: p in cfg.peers ==> RepresentablePeer(p))
  }

  predicate RepresentablePeer(p: PeerConfig) {
    && (p.endpoint.Some? ==> 0 <= p.endpoint.value.port <= 65535)
    && (p.keepalive.Some? ==> InInt64(p.keepalive.value))
  }

  // ---- what is expected back ----

  function MaskedAll(ips: seq<Prefix>): (masked: seq<Prefix>)
    ensures |masked| == |ips| && forall i :: 0 <= i < |ips| ==> masked[i] == Masked(Unmapped(ips[i]))
  {
    if ips == [] then [] else MaskedAll(ips[..|ips| - 1]) + [Masked(Unmapped(ips[|ips| - 1]))]
  }

  function ExpectedEndpoint(e: Option<UdpAddr>): StatusEndpoint {
    match e
    case None => NO_ENDPOINT
    case Some(ep) =>
      if IsV4(UnmapAddr(ep.ip)) then StatusEndpoint(Some(UnmapAddr(ep.ip)), ep.port) else NO_ENDPOINT
  }

  function ExpectedPeer(p: PeerConfig): Peer {
    Peer(KeyText(p.publicKey), ExpectedEndpoint(p.endpoint), MaskedAll(p.allowedIPs), 0, 0, None,
         p.presharedKey.Some? && p.presharedKey.value != ZeroKey())
  }

  function ExpectedPeers(peers: seq<PeerConfig>): (expected: seq<Peer>)
    ensures |expected| == |peers| && forall i :: 0 <= i < |peers| ==> expected[i] == ExpectedPeer(peers[i])
  {
    if peers == [] then [] else ExpectedPeers(peers[..|peers| - 1]) + [ExpectedPeer(peers[|peers| - 1])]
  }

  function OrZero(n: Option<int>): int {
    match n case Some(v) => v case None => 0
  }

  // ---- the printed text is a list of assignments ----

  lemma {:induction false} PeersTextIsEntries(v6: V6Codec, peers: seq<PeerConfig>)
    requires forall p :: p in peers ==> !p.remove
    ensures PeersText(v6, peers) == EntriesText(PeersEntries(v6, peers))
  {
    hide EntriesText, PeerHead, PeerTail, Line;
    if peers == [] {
      NothingWritten();
    } else {
      var front, p := peers[..|peers| - 1], peers[|peers| - 1];
      PeersTextIsEntries(v6, front);
      EntriesTextConcat(PeersEntries(v6, front), PeerEntries(v6, p));
      EntriesTextConcat(PeerHead(p), PeerTail(v6, p));
      assert PeerText(v6, p) == EntriesText(PeerEntries(v6, p));
    }
  }

  lemma HexValueIsPlain(bytes: seq<byte>)
    requires bytes != []
    ensures PlainValue(HexEncode(bytes))
  {
    HexRoundTrip(bytes);
    var s := HexEncode(bytes);
    assert s[|s| - 1] in s;
  }

  lemma NumberIsPlain(n: int)
    ensures PlainValue(PrintInt(n))
  {
    NatRoundTrip(if n < 0 then -n else n);
    var s := PrintNat(if n < 0 then -n else n);
    assert s[|s| - 1] in s;
    assert PrintInt(n)[|PrintInt(n)| - 1] == s[|s| - 1];
  }

  lemma AddressCharsArePlain(s: string)
    requires s != "" && forall c :: c in s ==> IsV6Char(c) || c == '/' || c == '[' || c == ']'
    ensures PlainValue(s)
  {
    assert s[|s| - 1] in s;
  }

  lemma PrefixIsPlain(v6: V6Codec, p: Prefix)
    requires v6.Lawful()
    ensures PlainValue(IPNetText(v6, p))
  {
    PrefixRoundTrip(v6, Unmapped(p));
    hide AddrText, Unmapped;
    AddressCharsArePlain(IPNetText(v6, p));
  }

  lemma EndpointIsPlain(v6: V6Codec, e: UdpAddr)
    requires v6.Lawful()
    ensures PlainValue(EndpointText(v6, e))
  {
    AddrRoundTrip(v6, UnmapAddr(e.ip));
    NumberIsPlain(e.port);
    AddressHasNoNewline(AddrText(v6, UnmapAddr(e.ip)));
    hide AddrText, UnmapAddr, PrintInt, IsV6Char, FamilyMark, ParseAddr;
  }

  lemma AddressHasNoNewline(s: string)
    requires forall c :: c in s ==> IsV6Char(c)
    ensures '\n' !in s
  {
  }

  lemma TrueIsPlain()
    ensures PlainValue("true")
  {
  }

  lemma PrintableConcat(a: seq<Entry>, b: seq<Entry>)
    requires Printable(a) && Printable(b)
    ensures Printable(a + b)
  {
    hide PlainValue;
  }

  lemma OptPrintable(f: Field, val: Option<string>)
    requires f != Unknown && (val.Some? ==> PlainValue(val.value))
    ensures Printable(Opt(f, val))
  {
    hide PlainValue;
  }

  lemma FlagPrintable(f: Field, on: bool)
    requires f != Unknown
    ensures Printable(Flag(f, on))
  {
    TrueIsPlain();
    hide PlainValue;
  }

  lemma KeyHexIsPlain(k: Option<Key>)
    ensures KeyHex(k).Some? ==> PlainValue(KeyHex(k).value)
  {
    if k.Some? {
      HexValueIsPlain(k.value);
    }
  }

  lemma NumberTextIsPlain(n: Option<int>)
    ensures NumberText(n).Some? ==> PlainValue(NumberText(n).value)
    ensures SecondsText(n).Some? ==> PlainValue(SecondsText(n).value)
  {
    if n.Some? {
      NumberIsPlain(n.value);
      NumberIsPlain(WholeSeconds(n.value));
    }
    hide PlainValue, PrintInt, WholeSeconds;
  }

  lemma DevicePrintable(cfg: Config)
    ensures Printable(DeviceEntries(cfg))
  {
    KeyHexIsPlain(cfg.privateKey);
    NumberTextIsPlain(cfg.listenPort);
    NumberTextIsPlain(cfg.firewallMark);
    hide KeyHex, NumberText, PlainValue, Opt, Flag, Printable;
    var a, b := Opt(PrivateKey, KeyHex(cfg.privateKey)), Opt(ListenPort, NumberText(cfg.listenPort));
    var c, d := Flag(ReplacePeers, cfg.replacePeers), Opt(FwMark, NumberText(cfg.firewallMark));
    OptPrintable(PrivateKey, KeyHex(cfg.privateKey));
    OptPrintable(ListenPort, NumberText(cfg.listenPort));
    FlagPrintable(ReplacePeers, cfg.replacePeers);
    OptPrintable(FwMark, NumberText(cfg.firewallMark));
    PrintableConcat(a, b);
    PrintableConcat(a + b, c);
    PrintableConcat(a + b + c, d);
  }

  lemma {:induction false} AllowedPrintable(v6: V6Codec, ips: seq<Prefix>)
    requires v6.Lawful()
    ensures Printable(AllowedEntries(v6, ips))
  {
    hide IPNetText, PlainValue;
    if ips != [] {
      AllowedPrintable(v6, ips[..|ips| - 1]);
      PrefixIsPlain(v6, ips[|ips| - 1]);
    }
  }

  lemma HeadPrintable(p: PeerConfig)
    ensures Printable(PeerHead(p))
  {
    HexValueIsPlain(p.publicKey);
    KeyHexIsPlain(p.presharedKey);
    hide HexEncode, KeyHex, PlainValue;
  }

  lemma TailPrintable(v6: V6Codec, p: PeerConfig)
    requires v6.Lawful()
    ensures Printable(PeerTail(v6, p))
  {
    var r, a := Flag(ReplaceAllowedIPs, p.replaceAllowedIPs), AllowedEntries(v6, p.allowedIPs);
    var e, d := Opt(Endpoint, AddressText(v6, p.endpoint)), Opt(Keepalive, SecondsText(p.keepalive));
    AllowedPrintable(v6, p.allowedIPs);
    FlagPrintable(ReplaceAllowedIPs, p.replaceAllowedIPs);
    if p.endpoint.Some? {
      EndpointIsPlain(v6, p.endpoint.value);
    }
    OptPrintable(Endpoint, AddressText(v6, p.endpoint));
    NumberTextIsPlain(p.keepalive);
    OptPrintable(Keepalive, SecondsText(p.keepalive));
    hide Printable, AllowedEntries, Flag, Opt, AddressText, SecondsText;
    PrintableConcat(r, a);
    PrintableConcat(r + a, e);
    PrintableConcat(r + a + e, d);
  }

  lemma {:induction false} PeersPrintable(v6: V6Codec, peers: seq<PeerConfig>)
    requires v6.Lawful()
    ensures Printable(PeersEntries(v6, peers))
  {
    hide PeerHead, PeerTail, PlainValue;
    if peers != [] {
      var p := peers[|peers| - 1];
      PeersPrintable(v6, peers[..|peers| - 1]);
      HeadPrintable(p);
      TailPrintable(v6, p);
      PrintableConcat(PeerHead(p), PeerTail(v6, p));
      PrintableConcat(PeersEntries(v6, peers[..|peers| - 1]), PeerEntries(v6, p));
    }
  }

  // ---- the values that the assignments of a peer give ----

  lemma OptValues(g: Field, val: Option<string>, f: Field)
    ensures Values(Opt(g, val), f) == if val.Some? && f == g then [val.value] else []
  {
    if val.Some? {
      assert [(g, val.value)][..0] == [];
    }
  }

  lemma FlagValues(g: Field, on: bool, f: Field)
    ensures Values(Flag(g, on), f) == if on && f == g then ["true"] else []
  {
    if on {
      assert [(g, "true")][..0] == [];
    }
  }

  lemma {:induction false} AllowedValues(v6: V6Codec, ips: seq<Prefix>, f: Field)
    requires v6.Lawful()
    ensures f != AllowedIP ==> Values(AllowedEntries(v6, ips), f) == []
    ensures Networks(v6, Values(AllowedEntries(v6, ips), AllowedIP)) == MaskedAll(ips)
  {
    hide IPNetText, ParseCIDR;
    if ips != [] {
      var front, ip := ips[..|ips| - 1], ips[|ips| - 1];
      AllowedValues(v6, front, f);
      ValuesOneMore(AllowedEntries(v6, front), (AllowedIP, IPNetText(v6, ip)), f);
      ValuesOneMore(AllowedEntries(v6, front), (AllowedIP, IPNetText(v6, ip)), AllowedIP);
      OneMoreValue(v6, Values(AllowedEntries(v6, front), AllowedIP), IPNetText(v6, ip));
      NetTextReadsBack(v6, ip);
    }
  }

  lemma NetTextReadsBack(v6: V6Codec, p: Prefix)
    requires v6.Lawful()
    ensures ParseCIDR(v6, IPNetText(v6, p)) == Some(Masked(Unmapped(p)))
  {
    PrefixRoundTrip(v6, Unmapped(p));
  }

  /** The values of a printed peer come from its six parts. */
  lemma PeerValuesSplit(v6: V6Codec, p: PeerConfig, f: Field)
    requires f != PublicKey
    ensures Values(PeerEntries(v6, p), f) ==
            ([] + Values(Opt(PresharedKey, KeyHex(p.presharedKey)), f))
            + (Values(Flag(ReplaceAllowedIPs, p.replaceAllowedIPs), f)
               + Values(AllowedEntries(v6, p.allowedIPs), f)
               + Values(Opt(Endpoint, AddressText(v6, p.endpoint)), f)
               + Values(Opt(Keepalive, SecondsText(p.keepalive)), f))
  {
    var k, s := [(PublicKey, HexEncode(p.publicKey))], Opt(PresharedKey, KeyHex(p.presharedKey));
    var r, a := Flag(ReplaceAllowedIPs, p.replaceAllowedIPs), AllowedEntries(v6, p.allowedIPs);
    var e, d := Opt(Endpoint, AddressText(v6, p.endpoint)), Opt(Keepalive, SecondsText(p.keepalive));
    KeyLineHasNoValues(v6, k[0]);
    hide Values, AllowedEntries, Opt, Flag, HexEncode, AddressText, SecondsText, KeyHex;
    ValuesConcat(k, s, f);
    ValuesConcat(r, a, f);
    ValuesConcat(r + a, e, f);
    ValuesConcat(r + a + e, d, f);
    ValuesConcat(k + s, r + a + e + d, f);
  }

  lemma PeerValues(v6: V6Codec, p: PeerConfig, f: Field)
    requires v6.Lawful()
    requires f != PublicKey && f != ReplaceAllowedIPs && f != Keepalive && f != AllowedIP
    ensures Values(PeerEntries(v6, p), f) ==
            match (if f == Endpoint then AddressText(v6, p.endpoint)
                   else if f == PresharedKey then KeyHex(p.presharedKey) else None)
            case Some(v) => [v]
            case None => []
  {
    hide Values, PeerEntries, AllowedEntries, Opt, Flag, Networks, MaskedAll, KeyHex, AddressText, SecondsText;
    PeerValuesSplit(v6, p, f);
    OptValues(PresharedKey, KeyHex(p.presharedKey), f);
    FlagValues(ReplaceAllowedIPs, p.replaceAllowedIPs, f);
    AllowedValues(v6, p.allowedIPs, f);
    OptValues(Endpoint, AddressText(v6, p.endpoint), f);
    OptValues(Keepalive, SecondsText(p.keepalive), f);
  }

  lemma PeerNetworks(v6: V6Codec, p: PeerConfig)
    requires v6.Lawful()
    ensures Networks(v6, Values(PeerEntries(v6, p), AllowedIP)) == MaskedAll(p.allowedIPs)
  {
    PeerValuesSplit(v6, p, AllowedIP);
    OptValues(PresharedKey, KeyHex(p.presharedKey), AllowedIP);
    FlagValues(ReplaceAllowedIPs, p.replaceAllowedIPs, AllowedIP);
    AllowedValues(v6, p.allowedIPs, AllowedIP);
    OptValues(Endpoint, AddressText(v6, p.endpoint), AllowedIP);
    OptValues(Keepalive, SecondsText(p.keepalive), AllowedIP);
    hide Values, PeerEntries, AllowedEntries, Opt, Flag, Networks, MaskedAll, KeyHex, AddressText, SecondsText;
    NoneAround(Values(AllowedEntries(v6, p.allowedIPs), AllowedIP));
  }

  lemma NoneAround(a: seq<string>)
    ensures ([] + []) + ([] + a + [] + []) == a
  {
  }

  /** A printed key is a real preshared key unless it is zero. */
  lemma PresharedText(k: Key)
    ensures MeansPreshared(HexEncode(k)) <==> k != ZeroKey()
  {
    HexRoundTrip(k);
    HexRoundTrip(ZeroKey());
    ZerosInHex(32);
  }

  lemma {:induction false} ZerosInHex(n: nat)
    ensures HexEncode(seq(n, i => 0)) == seq(2 * n, i => '0')
  {
    if n > 0 {
      ZerosInHex(n - 1);
      var zeros: seq<byte> := seq(n, i => 0);
      assert zeros[1..] == seq(n - 1, i => 0);
      assert HexDigit(0) == '0';
      assert seq(2 * n, i => '0') == ['0', '0'] + seq(2 * (n - 1), i => '0');
    }
  }

  lemma PrintedKey(v6: V6Codec, p: PeerConfig)
    ensures BlockKey(PeerEntries(v6, p)) == KeyText(p.publicKey)
  {
    HexRoundTrip(p.publicKey);
    assert PeerEntries(v6, p)[0] == (PublicKey, HexEncode(p.publicKey));
    hide PeerEntries, HexEncode, HexDecode, Base64Encode;
  }

  lemma PrintedEndpoint(v6: V6Codec, p: PeerConfig)
    requires v6.Lawful() && RepresentablePeer(p)
    ensures LastEndpoint(v6, Values(PeerEntries(v6, p), Endpoint)) == ExpectedEndpoint(p.endpoint)
  {
    PeerValues(v6, p, Endpoint);
    if p.endpoint.Some? {
      var text := EndpointText(v6, p.endpoint.value);
      StatusEndpointOnlyV4(v6, p.endpoint.value);
      OneMoreValue(v6, [], text);
      hide PeerEntries, Values, EndpointText, ParseStatusEndpoint, UnmapAddr;
      assert [] + [text] == [text];
    }
  }

  lemma PrintedPreshared(v6: V6Codec, p: PeerConfig)
    requires v6.Lawful()
    ensures AnyPreshared(Values(PeerEntries(v6, p), PresharedKey)) <==>
            p.presharedKey.Some? && p.presharedKey.value != ZeroKey()
  {
    PeerValues(v6, p, PresharedKey);
    if p.presharedKey.Some? {
      var text := HexEncode(p.presharedKey.value);
      PresharedText(p.presharedKey.value);
      OneMoreValue(v6, [], text);
      hide PeerEntries, Values, HexEncode, MeansPreshared, ZeroKey;
      assert [] + [text] == [text];
    }
  }

  /** The printed block of a peer describes the peer. */
  lemma PrintedPeer(v6: V6Codec, p: PeerConfig)
    requires v6.Lawful() && RepresentablePeer(p)
    ensures PeerOf(v6, PeerEntries(v6, p)) == ExpectedPeer(p)
  {
    PrintedKey(v6, p);
    PrintedEndpoint(v6, p);
    PrintedPreshared(v6, p);
    PeerNetworks(v6, p);
    PeerValues(v6, p, TxBytes);
    PeerValues(v6, p, RxBytes);
    PeerValues(v6, p, HandshakeSec);
    KeyLineHasNoValues(v6, (PublicKey, ""));
    hide PeerEntries, Values, BlockKey, KeyText, Networks, MaskedAll, ExpectedEndpoint, AnyPreshared, ZeroKey,
      LastEndpoint, LastInt;
  }

  lemma {:induction false} AllowedHasNoKeys(v6: V6Codec, ips: seq<Prefix>)
    ensures forall e: Entry :: e in AllowedEntries(v6, ips) ==> e.0 == AllowedIP
  {
    hide IPNetText;
    if ips != [] {
      AllowedHasNoKeys(v6, ips[..|ips| - 1]);
    }
  }

  /** What follows the key line of a printed peer. */
  function PeerRest(v6: V6Codec, p: PeerConfig): seq<Entry> {
    Opt(PresharedKey, KeyHex(p.presharedKey)) + PeerTail(v6, p)
  }

  lemma PeerShape(v6: V6Codec, p: PeerConfig)
    ensures PeerEntries(v6, p) == [(PublicKey, HexEncode(p.publicKey))] + PeerRest(v6, p)
  {
    hide HexEncode, KeyHex, PeerTail, Opt;
  }

  lemma PrintedPeerIsOneBlock(v6: V6Codec, p: PeerConfig)
    ensures Blocks(PeerEntries(v6, p)) == [PeerEntries(v6, p)]
    ensures PeerEntries(v6, p) != [] && PeerEntries(v6, p)[0] == (PublicKey, HexEncode(p.publicKey))
  {
    PeerShape(v6, p);
    RestHasNoKey(v6, p);
    hide PeerEntries, PeerRest, HexEncode;
    OneBlock((PublicKey, HexEncode(p.publicKey)), PeerRest(v6, p));
  }

  lemma RestHasNoKey(v6: V6Codec, p: PeerConfig)
    ensures forall e: Entry :: e in PeerRest(v6, p) ==> e.0 != PublicKey
  {
    AllowedHasNoKeys(v6, p.allowedIPs);
    hide KeyHex, AddressText, SecondsText, AllowedEntries;
  }

  /** The blocks of the printed peers are the printed peers, and they describe the configured peers in order. */
  lemma {:induction false} PrintedPeers(v6: V6Codec, peers: seq<PeerConfig>)
    requires v6.Lawful() && forall p :: p in peers ==> RepresentablePeer(p)
    ensures PeersOf(v6, Blocks(PeersEntries(v6, peers))) == ExpectedPeers(peers)
    ensures ValidKeys(PeersEntries(v6, peers))
    ensures peers != [] ==> PeersEntries(v6, peers) != [] && PeersEntries(v6, peers)[0].0 == PublicKey
  {
    hide PeerEntries, PeerOf, ExpectedPeer, HexEncode, HexKey;
    if peers != [] {
      var front, p := peers[..|peers| - 1], peers[|peers| - 1];
      PrintedPeers(v6, front);
      PrintedPeerIsOneBlock(v6, p);
      PrintedPeer(v6, p);
      BlocksConcat(PeersEntries(v6, front), PeerEntries(v6, p));
      assert (Blocks(PeersEntries(v6, front)) + [PeerEntries(v6, p)])[..|front|] == Blocks(PeersEntries(v6, front));
      PeerKeyIsValid(v6, p);
    }
  }

  lemma PeerKeyIsValid(v6: V6Codec, p: PeerConfig)
    ensures ValidKeys(PeerEntries(v6, p))
  {
    KeyTextRoundTrip(p.publicKey);
    RestHasNoKey(v6, p);
    PeerShape(v6, p);
    hide HexEncode, HexKey, PeerRest, PeerEntries;
  }

  // ---- the device part ----

  lemma DeviceValues(cfg: Config, f: Field)
    requires f == PrivateKey || f == ListenPort || f == FwMark
    ensures Values(DeviceEntries(cfg), f) ==
            match (if f == PrivateKey then KeyHex(cfg.privateKey)
                   else NumberText(if f == ListenPort then cfg.listenPort else cfg.firewallMark))
            case Some(v) => [v]
            case None => []
  {
    var a, b := Opt(PrivateKey, KeyHex(cfg.privateKey)), Opt(ListenPort, NumberText(cfg.listenPort));
    var c, d := Flag(ReplacePeers, cfg.replacePeers), Opt(FwMark, NumberText(cfg.firewallMark));
    OptValues(PrivateKey, KeyHex(cfg.privateKey), f);
    OptValues(ListenPort, NumberText(cfg.listenPort), f);
    FlagValues(ReplacePeers, cfg.replacePeers, f);
    OptValues(FwMark, NumberText(cfg.firewallMark), f);
    hide Values, Opt, Flag, KeyHex, NumberText;
    ValuesConcat(a, b, f);
    ValuesConcat(a + b, c, f);
    ValuesConcat(a + b + c, d, f);
  }

  lemma PeerHasNoDeviceField(v6: V6Codec, p: PeerConfig)
    ensures forall e: Entry :: e in PeerEntries(v6, p) ==>
                                 e.0 != PrivateKey && e.0 != ListenPort && e.0 != FwMark && e.0 != ReplacePeers
  {
    AllowedHasNoKeys(v6, p.allowedIPs);
    hide HexEncode, KeyHex, AddressText, SecondsText, AllowedEntries;
  }

  lemma {:induction false} PeersHaveNoDeviceValues(v6: V6Codec, peers: seq<PeerConfig>, f: Field)
    requires f == PrivateKey || f == ListenPort || f == FwMark
    ensures Values(PeersEntries(v6, peers), f) == []
  {
    hide PeerEntries, Values;
    if peers == [] {
      Unassigned([], f);
    } else {
      var front, p := peers[..|peers| - 1], peers[|peers| - 1];
      PeersHaveNoDeviceValues(v6, front, f);
      ValuesConcat(PeersEntries(v6, front), PeerEntries(v6, p), f);
      PeerHasNoDeviceField(v6, p);
      Unassigned(PeerEntries(v6, p), f);
    }
  }

  lemma {:induction false} Unassigned(entries: seq<Entry>, f: Field)
    requires forall e: Entry :: e in entries ==> e.0 != f
    ensures Values(entries, f) == []
  {
    if entries != [] {
      assert entries[|entries| - 1] in entries;
      Unassigned(entries[..|entries| - 1], f);
    }
  }

  /** The entries of a printed configuration without removals. */
  function ConfigEntries(v6: V6Codec, cfg: Config): seq<Entry> {
    DeviceEntries(cfg) + PeersEntries(v6, cfg.peers)
  }

  lemma ConfigTextEntries(v6: V6Codec, cfg: Config)
    requires v6.Lawful() && Representable(cfg) && forall p :: p in cfg.peers ==> !p.remove
    ensures TextEntries(ConfigText(v6, cfg)) == ConfigEntries(v6, cfg) && TightLines(ConfigText(v6, cfg))
  {
    DevicePrintable(cfg);
    PeersPrintable(v6, cfg.peers);
    PeersTextIsEntries(v6, cfg.peers);
    EntriesTextConcat(DeviceEntries(cfg), PeersEntries(v6, cfg.peers));
    hide DeviceEntries, PeersEntries, EntriesText, TextEntries, TightLines, PeersText, PlainValue;
    PrintedEntries(ConfigEntries(v6, cfg));
  }

  lemma OneValue(n: int)
    requires InInt64(n)
    ensures LastInt([PrintInt(n)]) == n
  {
    IntRoundTrip(n);
    assert [PrintInt(n)][..0] == [];
  }

  lemma OneKey(k: Key)
    ensures LastKey([HexEncode(k)]) == Some(k)
  {
    KeyTextRoundTrip(k);
  }

  lemma ConfigValues(v6: V6Codec, cfg: Config, f: Field)
    requires f == PrivateKey || f == ListenPort || f == FwMark
    ensures Values(ConfigEntries(v6, cfg), f) == Values(DeviceEntries(cfg), f)
  {
    ValuesConcat(DeviceEntries(cfg), PeersEntries(v6, cfg.peers), f);
    PeersHaveNoDeviceValues(v6, cfg.peers, f);
    hide DeviceEntries, PeersEntries, Values;
  }

  lemma ConfigDeviceFields(v6: V6Codec, cfg: Config)
    requires Representable(cfg)
    ensures LastInt(Values(ConfigEntries(v6, cfg), ListenPort)) == OrZero(cfg.listenPort)
    ensures LastInt(Values(ConfigEntries(v6, cfg), FwMark)) == OrZero(cfg.firewallMark)
    ensures LastKey(Values(ConfigEntries(v6, cfg), PrivateKey)) == cfg.privateKey
  {
    ConfigValues(v6, cfg, PrivateKey);
    ConfigValues(v6, cfg, ListenPort);
    ConfigValues(v6, cfg, FwMark);
    DeviceValues(cfg, PrivateKey);
    DeviceValues(cfg, ListenPort);
    DeviceValues(cfg, FwMark);
    if cfg.listenPort.Some? {
      OneValue(cfg.listenPort.value);
    }
    if cfg.firewallMark.Some? {
      OneValue(cfg.firewallMark.value);
    }
    if cfg.privateKey.Some? {
      OneKey(cfg.privateKey.value);
    }
    hide ConfigEntries, DeviceEntries, Values, HexEncode, PrintInt;
  }

  lemma DeviceHasNoKeys(cfg: Config)
    ensures forall e: Entry :: e in DeviceEntries(cfg) ==> e.0 != PublicKey
  {
    hide KeyHex, NumberText;
  }

  lemma ConfigBlocks(v6: V6Codec, cfg: Config)
    requires v6.Lawful() && Representable(cfg)
    ensures Blocks(ConfigEntries(v6, cfg)) == Blocks(PeersEntries(v6, cfg.peers))
    ensures ValidKeys(ConfigEntries(v6, cfg))
  {
    PrintedPeers(v6, cfg.peers);
    DeviceHasNoKeys(cfg);
    if cfg.peers == [] {
      assert PeersEntries(v6, cfg.peers) == [];
    }
    hide DeviceEntries, PeersEntries, ExpectedPeers, PeersOf, HexKey;
    NoBlocks(DeviceEntries(cfg));
    BlocksConcat(DeviceEntries(cfg), PeersEntries(v6, cfg.peers));
  }

  /**
   Printing any configuration without removals and reading the text back recovers the private key, the listening
   port, the firewall mark and, in order, every peer: its key, its allowed networks with the host bits cleared, its
   endpoint when that is IPv4, and the preshared flag exactly when a non-zero key was given.
   */
  lemma PrintedConfigReadsBack(v6: V6Codec, device: string, cfg: Config)
    requires v6.Lawful() && Representable(cfg) && forall p :: p in cfg.peers ==> !p.remove
    ensures StatusOf(v6, device, ConfigText(v6, cfg)) ==
            Stats(device, cfg.privateKey, OrZero(cfg.listenPort), OrZero(cfg.firewallMark), ExpectedPeers(cfg.peers))
  {
    hide ConfigText, ConfigEntries, TextEntries, TightLines, Blocks, PeersOf, Values, LastInt, LastKey, StatusScan,
      PeersEntries, ExpectedPeers, TrimSpace, Representable, ValidKeys, OrZero;
    var text := ConfigText(v6, cfg);
    ConfigTextEntries(v6, cfg);
    ConfigBlocks(v6, cfg);
    RepresentablePeers(cfg);
    PrintedPeers(v6, cfg.peers);
    ConfigDeviceFields(v6, cfg);
    StatusReadsBlocks(v6, device, text);
    TrimKeepsEntries(text);
    ScanDeviceFields(v6, device, TextEntries(text));
  }

  lemma RepresentablePeers(cfg: Config)
    requires Representable(cfg)
    ensures forall p :: p in cfg.peers ==> RepresentablePeer(p)
  {
  }

  /** For masked prefixes, none of them IPv4-mapped, the allowed networks come back unchanged. */
  lemma MaskedPrefixesReadBack(ips: seq<Prefix>)
    requires forall p :: p in ips ==> Masked(p) == p && !IsMapped(p.addr)
    ensures MaskedAll(ips) == ips
  {
  }
}
