/**
 The configuration text spelled out: every line that is written and every line that is read, with its name. The other
 modules speak of fields; here the names are those of WireGuard's cross-platform interface.
 */
module WireText {
  import opened Wrappers
  import opened Encodings
  import opened Text
  import opened Net
  import opened Wg
  import opened UapiText
  import opened Status
  import opened Printer
  import opened PrintParse
  import opened Device
  import opened Dump

  // ---- names ----

  lemma DeviceLines(v: string)
    ensures Line(PrivateKey, v) == "private_key=" + v && Line(ListenPort, v) == "listen_port=" + v
    ensures Line(FwMark, v) == "fwmark=" + v && Line(ReplacePeers, v) == "replace_peers=" + v
  {
  }

  lemma PeerLines(v: string)
    ensures Line(PublicKey, v) == "public_key=" + v && Line(PresharedKey, v) == "preshared_key=" + v
    ensures Line(Remove, v) == "remove=" + v && Line(UpdateOnly, v) == "update_only=" + v
  {
  }

  lemma PrefixLines(v: string)
    ensures Line(ReplaceAllowedIPs, v) == "replace_allowed_ips=" + v && Line(AllowedIP, v) == "allowed_ip=" + v
  {
  }

  lemma EndLines(v: string)
    ensures Line(Endpoint, v) == "endpoint=" + v && Line(Keepalive, v) == "persistent_keepalive_interval=" + v
    ensures Line(ProtocolVersion, v) == "protocol_version=" + v
  {
  }

  lemma HandshakeLines(v: string)
    ensures Line(HandshakeSec, v) == "last_handshake_time_sec=" + v
    ensures Line(HandshakeNsec, v) == "last_handshake_time_nsec=" + v
  {
  }

  lemma CounterLines(v: string)
    ensures Line(TxBytes, v) == "tx_bytes=" + v && Line(RxBytes, v) == "rx_bytes=" + v
  {
  }

  /** Every name that is read or written, and the line that assigns to it. */
  lemma LineNames(v: string)
    ensures Line(PrivateKey, v) == "private_key=" + v && Line(ListenPort, v) == "listen_port=" + v
    ensures Line(FwMark, v) == "fwmark=" + v && Line(ReplacePeers, v) == "replace_peers=" + v
    ensures Line(PublicKey, v) == "public_key=" + v && Line(PresharedKey, v) == "preshared_key=" + v
    ensures Line(Remove, v) == "remove=" + v && Line(UpdateOnly, v) == "update_only=" + v
    ensures Line(ReplaceAllowedIPs, v) == "replace_allowed_ips=" + v && Line(AllowedIP, v) == "allowed_ip=" + v
    ensures Line(Endpoint, v) == "endpoint=" + v && Line(Keepalive, v) == "persistent_keepalive_interval=" + v
    ensures Line(ProtocolVersion, v) == "protocol_version=" + v
    ensures Line(HandshakeSec, v) == "last_handshake_time_sec=" + v
    ensures Line(HandshakeNsec, v) == "last_handshake_time_nsec=" + v
    ensures Line(TxBytes, v) == "tx_bytes=" + v && Line(RxBytes, v) == "rx_bytes=" + v
  {
    hide Line;
    DeviceLines(v);
    PeerLines(v);
    PrefixLines(v);
    EndLines(v);
    HandshakeLines(v);
    CounterLines(v);
  }

  // ---- what is written ----

  /** The text of a list of allowed networks. */
  function AllowedText(v6: V6Codec, ips: seq<Prefix>): string {
    if ips == [] then ""
    else AllowedText(v6, ips[..|ips| - 1]) + "allowed_ip=" + IPNetText(v6, ips[|ips| - 1]) + "\n"
  }

  function KeyLine(k: Option<Key>): string {
    match k case Some(key) => "preshared_key=" + HexEncode(key) + "\n" case None => ""
  }

  function EndpointLine(v6: V6Codec, e: Option<UdpAddr>): string {
    match e case Some(ep) => "endpoint=" + EndpointText(v6, ep) + "\n" case None => ""
  }

  function KeepaliveLine(d: Option<int>): string {
    match d
    case Some(time) => "persistent_keepalive_interval=" + PrintInt(WholeSeconds(time)) + "\n"
    case None => ""
  }

  /** The text of one peer of a configuration; the removal flag is not ended by a newline. */
  function WrittenPeer(v6: V6Codec, p: PeerConfig): string {
    ("public_key=" + HexEncode(p.publicKey) + "\n" + KeyLine(p.presharedKey))
    + (if p.remove then "remove=true" else "")
    + ((if p.replaceAllowedIPs then "replace_allowed_ips=true\n" else "")
       + AllowedText(v6, p.allowedIPs) + EndpointLine(v6, p.endpoint) + KeepaliveLine(p.keepalive))
  }

  function WrittenPeers(v6: V6Codec, ps: seq<PeerConfig>): string {
    if ps == [] then "" else WrittenPeers(v6, ps[..|ps| - 1]) + WrittenPeer(v6, ps[|ps| - 1])
  }

  function PrivateKeyLine(k: Option<Key>): string {
    match k case Some(key) => "private_key=" + HexEncode(key) + "\n" case None => ""
  }

  function PortLine(n: Option<int>): string {
    match n case Some(port) => "listen_port=" + PrintInt(port) + "\n" case None => ""
  }

  function MarkLine(n: Option<int>): string {
    match n case Some(mark) => "fwmark=" + PrintInt(mark) + "\n" case None => ""
  }

  /** The text of a configuration, line by line. */
  function WrittenConfig(v6: V6Codec, cfg: Config): string {
    (PrivateKeyLine(cfg.privateKey) + PortLine(cfg.listenPort)
     + (if cfg.replacePeers then "replace_peers=true\n" else "") + MarkLine(cfg.firewallMark))
    + WrittenPeers(v6, cfg.peers)
  }

  lemma OneLine(f: Field, v: string)
    ensures EntriesText([(f, v)]) == Line(f, v) + "\n"
  {
    hide Line;
    assert [(f, v)][..0] == [];
    assert EntriesText([]) == "";
    assert "" + Line(f, v) + "\n" == Line(f, v) + "\n";
  }

  lemma OptText(f: Field, val: Option<string>)
    ensures EntriesText(Opt(f, val)) == match val case Some(v) => Line(f, v) + "\n" case None => ""
  {
    hide Line;
    if val.Some? {
      OneLine(f, val.value);
    }
  }

  lemma FlagText(f: Field, on: bool)
    ensures EntriesText(Flag(f, on)) == if on then Line(f, "true") + "\n" else ""
  {
    hide Line;
    if on {
      OneLine(f, "true");
    }
  }

  lemma {:induction false} AllowedTextWritten(v6: V6Codec, ips: seq<Prefix>)
    ensures EntriesText(AllowedEntries(v6, ips)) == AllowedText(v6, ips)
  {
    hide IPNetText, Line;
    if ips != [] {
      var t := IPNetText(v6, ips[|ips| - 1]);
      AllowedTextWritten(v6, ips[..|ips| - 1]);
      LineNames(t);
      AllowedOneMore(AllowedEntries(v6, ips[..|ips| - 1]), AllowedIP, t);
    }
  }

  lemma AllowedOneMore(entries: seq<Entry>, f: Field, v: string)
    ensures EntriesText(entries + [(f, v)]) == EntriesText(entries) + Line(f, v) + "\n"
  {
    hide Line;
    assert (entries + [(f, v)])[..|entries|] == entries;
  }

  lemma TrueLines()
    ensures Line(ReplacePeers, "true") + "\n" == "replace_peers=true\n"
    ensures Line(ReplaceAllowedIPs, "true") + "\n" == "replace_allowed_ips=true\n"
    ensures Line(Remove, "true") == "remove=true"
  {
    hide Line;
    LineNames("true");
  }

  lemma OptionalLines(v6: V6Codec, k: Option<Key>, e: Option<UdpAddr>, d: Option<int>)
    ensures EntriesText(Opt(PresharedKey, KeyHex(k))) == KeyLine(k)
    ensures EntriesText(Opt(Endpoint, AddressText(v6, e))) == EndpointLine(v6, e)
    ensures EntriesText(Opt(Keepalive, SecondsText(d))) == KeepaliveLine(d)
  {
    hide Line, EntriesText, Opt, HexEncode, EndpointText, PrintInt, WholeSeconds;
    OptText(PresharedKey, KeyHex(k));
    OptText(Endpoint, AddressText(v6, e));
    OptText(Keepalive, SecondsText(d));
    LineNames(if k.Some? then HexEncode(k.value) else "");
    LineNames(if e.Some? then EndpointText(v6, e.value) else "");
    LineNames(if d.Some? then PrintInt(WholeSeconds(d.value)) else "");
  }

  lemma OptionalDeviceLines(k: Option<Key>, port: Option<int>, mark: Option<int>)
    ensures EntriesText(Opt(PrivateKey, KeyHex(k))) == PrivateKeyLine(k)
    ensures EntriesText(Opt(ListenPort, NumberText(port))) == PortLine(port)
    ensures EntriesText(Opt(FwMark, NumberText(mark))) == MarkLine(mark)
  {
    hide Line, EntriesText, Opt, HexEncode, PrintInt;
    OptText(PrivateKey, KeyHex(k));
    OptText(ListenPort, NumberText(port));
    OptText(FwMark, NumberText(mark));
    LineNames(if k.Some? then HexEncode(k.value) else "");
    LineNames(if port.Some? then PrintInt(port.value) else "");
    LineNames(if mark.Some? then PrintInt(mark.value) else "");
  }

  lemma PeerWritten(v6: V6Codec, p: PeerConfig)
    ensures PeerText(v6, p) == WrittenPeer(v6, p)
  {
    hide Line, EntriesText, Opt, Flag, AllowedEntries, AllowedText, KeyLine, EndpointLine, KeepaliveLine, KeyHex,
      AddressText, SecondsText, HexEncode;
    TrueLines();
    LineNames(HexEncode(p.publicKey));
    OneLine(PublicKey, HexEncode(p.publicKey));
    OptionalLines(v6, p.presharedKey, p.endpoint, p.keepalive);
    FlagText(ReplaceAllowedIPs, p.replaceAllowedIPs);
    AllowedTextWritten(v6, p.allowedIPs);
    var key, psk := [(PublicKey, HexEncode(p.publicKey))], Opt(PresharedKey, KeyHex(p.presharedKey));
    var r, a := Flag(ReplaceAllowedIPs, p.replaceAllowedIPs), AllowedEntries(v6, p.allowedIPs);
    var e, d := Opt(Endpoint, AddressText(v6, p.endpoint)), Opt(Keepalive, SecondsText(p.keepalive));
    EntriesTextConcat(key, psk);
    EntriesTextConcat(r, a);
    EntriesTextConcat(r + a, e);
    EntriesTextConcat(r + a + e, d);
  }

  lemma {:induction false} PeersWritten(v6: V6Codec, ps: seq<PeerConfig>)
    ensures PeersText(v6, ps) == WrittenPeers(v6, ps)
  {
    hide PeerText, WrittenPeer;
    if ps != [] {
      PeersWritten(v6, ps[..|ps| - 1]);
      PeerWritten(v6, ps[|ps| - 1]);
    }
  }

  /** The printer writes exactly these lines. */
  lemma ConfigWritten(v6: V6Codec, cfg: Config)
    ensures ConfigText(v6, cfg) == WrittenConfig(v6, cfg)
  {
    hide Line, EntriesText, Opt, Flag, PrivateKeyLine, PortLine, MarkLine, KeyHex, NumberText, PeersText, WrittenPeers;
    TrueLines();
    OptionalDeviceLines(cfg.privateKey, cfg.listenPort, cfg.firewallMark);
    FlagText(ReplacePeers, cfg.replacePeers);
    PeersWritten(v6, cfg.peers);
    var k, p := Opt(PrivateKey, KeyHex(cfg.privateKey)), Opt(ListenPort, NumberText(cfg.listenPort));
    var r, m := Flag(ReplacePeers, cfg.replacePeers), Opt(FwMark, NumberText(cfg.firewallMark));
    EntriesTextConcat(k, p);
    EntriesTextConcat(k + p, r);
    EntriesTextConcat(k + p + r, m);
  }

  // ---- what a device lists ----

  function ListedNets(v6: V6Codec, ips: seq<Prefix>): string {
    if ips == [] then ""
    else ListedNets(v6, ips[..|ips| - 1]) + "allowed_ip=" + PrefixText(v6, ips[|ips| - 1]) + "\n"
  }

  /** The text of one peer in the dump of a device. */
  function ListedPeer(v6: V6Codec, k: Key, p: DevPeer): string {
    "public_key=" + HexEncode(k) + "\n"
    + ("preshared_key=" + HexEncode(p.presharedKey) + "\n")
    + "protocol_version=1\n"
    + EndpointLine(v6, p.endpoint)
    + ("last_handshake_time_sec=" + PrintInt(p.handshakeSec) + "\n")
    + ("last_handshake_time_nsec=" + PrintInt(p.handshakeNsec) + "\n")
    + ("tx_bytes=" + PrintInt(p.txBytes) + "\n")
    + ("rx_bytes=" + PrintInt(p.rxBytes) + "\n")
    + ("persistent_keepalive_interval=" + PrintInt(p.keepalive) + "\n")
    + ListedNets(v6, p.allowedIPs)
  }

  function ListedPeers(v6: V6Codec, peers: Peers, order: seq<Key>): string
    requires forall k :: k in order ==> k in peers
  {
    if order == [] then ""
    else
      var k := order[|order| - 1];
      ListedPeers(v6, peers, order[..|order| - 1]) + ListedPeer(v6, k, peers[k])
  }

  /** The dump of a device, line by line; zero values of the device are left out. */
  function ListedDevice(v6: V6Codec, dev: Dev, order: seq<Key>): string
    requires forall k :: k in order ==> k in dev.peers
  {
    (PrivateKeyLine(if dev.privateKey == ZeroKey() then None else Some(dev.privateKey))
     + PortLine(if dev.listenPort == 0 then None else Some(dev.listenPort))
     + MarkLine(if dev.fwMark == 0 then None else Some(dev.fwMark)))
    + ListedPeers(v6, dev.peers, order)
  }

  function GroupText(g: Group): string {
    EntriesText(GroupEntries(g.0, g.1))
  }

  lemma OneMoreGroup(groups: seq<Group>, g: Group)
    ensures EntriesText(Ungroup(groups + [g])) == EntriesText(Ungroup(groups)) + GroupText(g)
  {
    hide EntriesText, Ungroup, GroupEntries;
    UngroupOneMore(groups, g);
    EntriesTextConcat(Ungroup(groups), GroupEntries(g.0, g.1));
  }

  lemma FiveGroups(before: seq<Group>, a: Group, b: Group, c: Group, d: Group, e: Group)
    ensures EntriesText(Ungroup(before + [a, b, c, d, e])) ==
            EntriesText(Ungroup(before)) + GroupText(a) + GroupText(b) + GroupText(c) + GroupText(d) + GroupText(e)
  {
    hide EntriesText, Ungroup, GroupText;
    OneMoreGroup(before, a);
    OneMoreGroup(before + [a], b);
    OneMoreGroup(before + [a] + [b], c);
    OneMoreGroup(before + [a] + [b] + [c], d);
    OneMoreGroup(before + [a] + [b] + [c] + [d], e);
    assert before + [a, b, c, d, e] == before + [a] + [b] + [c] + [d] + [e];
  }

  lemma SingleGroup(f: Field, v: string)
    ensures GroupText((f, [v])) == Line(f, v) + "\n"
  {
    hide EntriesText, Line;
    assert [v][..0] == [];
    assert GroupEntries(f, []) == [];
    assert GroupEntries(f, [v]) == [(f, v)];
    OneLine(f, v);
  }

  lemma EndpointGroup(v6: V6Codec, e: Option<UdpAddr>)
    ensures GroupText((Endpoint, EndpointTexts(v6, e))) == EndpointLine(v6, e)
  {
    hide EndpointText, Line;
    match e
    case None =>
      assert GroupEntries(Endpoint, []) == [] && EntriesText([]) == "";
    case Some(ep) =>
      SingleGroup(Endpoint, EndpointText(v6, ep));
      LineNames(EndpointText(v6, ep));
      hide EntriesText, GroupEntries;
  }

  lemma {:induction false} NetsGroup(v6: V6Codec, ips: seq<Prefix>)
    ensures GroupText((AllowedIP, NetTexts(v6, ips))) == ListedNets(v6, ips)
  {
    hide PrefixText, Line;
    if ips != [] {
      var front, t := ips[..|ips| - 1], PrefixText(v6, ips[|ips| - 1]);
      NetsGroup(v6, front);
      LineNames(t);
      assert NetTexts(v6, ips)[..|ips| - 1] == NetTexts(v6, front);
      AllowedOneMore(GroupEntries(AllowedIP, NetTexts(v6, front)), AllowedIP, t);
    }
  }

  lemma ListedNumbers(p: DevPeer)
    ensures GroupText((HandshakeSec, [PrintInt(p.handshakeSec)])) ==
            "last_handshake_time_sec=" + PrintInt(p.handshakeSec) + "\n"
    ensures GroupText((HandshakeNsec, [PrintInt(p.handshakeNsec)])) ==
            "last_handshake_time_nsec=" + PrintInt(p.handshakeNsec) + "\n"
    ensures GroupText((TxBytes, [PrintInt(p.txBytes)])) == "tx_bytes=" + PrintInt(p.txBytes) + "\n"
    ensures GroupText((RxBytes, [PrintInt(p.rxBytes)])) == "rx_bytes=" + PrintInt(p.rxBytes) + "\n"
    ensures GroupText((Keepalive, [PrintInt(p.keepalive)])) ==
            "persistent_keepalive_interval=" + PrintInt(p.keepalive) + "\n"
  {
    hide GroupText, Line, PrintInt;
    SingleGroup(HandshakeSec, PrintInt(p.handshakeSec));
    SingleGroup(HandshakeNsec, PrintInt(p.handshakeNsec));
    SingleGroup(TxBytes, PrintInt(p.txBytes));
    SingleGroup(RxBytes, PrintInt(p.rxBytes));
    SingleGroup(Keepalive, PrintInt(p.keepalive));
    LineNames(PrintInt(p.handshakeSec));
    LineNames(PrintInt(p.handshakeNsec));
    LineNames(PrintInt(p.txBytes));
    LineNames(PrintInt(p.rxBytes));
    LineNames(PrintInt(p.keepalive));
  }

  lemma ListedKeys(k: Key, psk: Key)
    ensures GroupText((PublicKey, [HexEncode(k)])) == "public_key=" + HexEncode(k) + "\n"
    ensures GroupText((PresharedKey, [HexEncode(psk)])) == "preshared_key=" + HexEncode(psk) + "\n"
    ensures GroupText((ProtocolVersion, ["1"])) == "protocol_version=1\n"
  {
    hide GroupText, Line, HexEncode;
    SingleGroup(PublicKey, HexEncode(k));
    SingleGroup(PresharedKey, HexEncode(psk));
    SingleGroup(ProtocolVersion, "1");
    LineNames(HexEncode(k));
    LineNames(HexEncode(psk));
    LineNames("1");
    assert "protocol_version=" + "1" + "\n" == "protocol_version=1\n";
  }

  lemma PeerListed(v6: V6Codec, k: Key, p: DevPeer)
    ensures EntriesText(PeerBlock(v6, k, p)) == ListedPeer(v6, k, p)
  {
    hide EntriesText, Ungroup, GroupText, HexEncode, PrintInt, EndpointTexts, NetTexts, EndpointLine, ListedNets;
    ListedKeys(k, p.presharedKey);
    EndpointGroup(v6, p.endpoint);
    ListedNumbers(p);
    NetsGroup(v6, p.allowedIPs);
    var g := PeerGroups(v6, k, p);
    NothingListed();
    FiveGroups([], g[0], g[1], g[2], g[3], g[4]);
    FiveGroups([] + [g[0], g[1], g[2], g[3], g[4]], g[5], g[6], g[7], g[8], g[9]);
    assert g == [] + [g[0], g[1], g[2], g[3], g[4]] + [g[5], g[6], g[7], g[8], g[9]];
    assert "" + GroupText(g[0]) == GroupText(g[0]);
  }

  lemma NothingListed()
    ensures EntriesText(Ungroup([])) == ""
  {
  }

  lemma {:induction false} PeersListed(v6: V6Codec, peers: Peers, order: seq<Key>)
    requires forall k :: k in order ==> k in peers
    ensures EntriesText(PeerBlocks(v6, peers, order)) == ListedPeers(v6, peers, order)
  {
    hide PeerBlock, ListedPeer;
    if order == [] {
      NothingWritten();
    } else {
      var front, k := order[..|order| - 1], order[|order| - 1];
      PeersListed(v6, peers, front);
      PeerListed(v6, k, peers[k]);
      EntriesTextConcat(PeerBlocks(v6, peers, front), PeerBlock(v6, k, peers[k]));
      hide EntriesText;
    }
  }

  /** The dump of a device consists of exactly these lines. */
  lemma DeviceListed(v6: V6Codec, dev: Dev, order: seq<Key>)
    requires Lists(order, dev.peers)
    ensures DumpText(v6, dev, order) == ListedDevice(v6, dev, order)
  {
    hide Line, EntriesText, Opt, PrivateKeyLine, PortLine, MarkLine, KeyHex, NumberText, PeerBlocks, ListedPeers;
    var cfg := DeviceConfig(dev);
    NothingWritten();
    OptionalDeviceLines(cfg.privateKey, cfg.listenPort, cfg.firewallMark);
    PeersListed(v6, dev.peers, order);
    var k, p := Opt(PrivateKey, KeyHex(cfg.privateKey)), Opt(ListenPort, NumberText(cfg.listenPort));
    var r, m := Flag(ReplacePeers, false), Opt(FwMark, NumberText(cfg.firewallMark));
    EntriesTextConcat(k, p);
    EntriesTextConcat(k + p, r);
    EntriesTextConcat(k + p + r, m);
    assert k + p + r == k + p;
    EntriesTextConcat(DeviceEntries(cfg), PeerBlocks(v6, dev.peers, order));
  }

  // ---- what a device makes of lines ----

  /** A device that is handed printed lines goes through their assignments. */
  lemma DeviceReads(v6: V6Codec, dev: Dev, es: seq<Entry>)
    requires Printable(es)
    ensures IpcSet(v6, dev, EntriesText(es)) ==
            match RunEntries(v6, Session(dev, None, false), es)
            case Stopped(d) => Answer(d, false)
            case Going(t) => Answer(t.dev, true)
  {
    hide EntriesText, RunEntries, RunLines, Split, Render, Printable;
    var s := Session(dev, None, false);
    PrintedLines(es, "");
    assert EntriesText(es) + "" == EntriesText(es);
    RunRendered(v6, s, es, [""]);
    if RunEntries(v6, s, es).Going? {
      NothingLeft(v6, RunEntries(v6, s, es).session);
    }
    BlankSplit();
  }

  lemma BlankSplit()
    ensures Split("", '\n') == [""]
  {
  }

  /** The numbers of a device: a port of sixteen bits and a mark of thirty-two. */
  lemma DeviceNumbersRead(v6: V6Codec, dev: Dev, n: int)
    ensures IpcSet(v6, dev, "listen_port=" + PrintInt(n) + "\n") ==
            if 0 <= n <= 65535 then Answer(dev.(listenPort := n), true) else Answer(dev, false)
    ensures IpcSet(v6, dev, "fwmark=" + PrintInt(n) + "\n") ==
            if 0 <= n <= 4294967295 then Answer(dev.(fwMark := n), true) else Answer(dev, false)
  {
    hide EntriesText, Line, RunEntries, PrintInt, IpcSet, ParseNat;
    var text, s := PrintInt(n), Session(dev, None, false);
    NumberIsPlain(n);
    LineNames(text);
    OneLine(ListenPort, text);
    OneLine(FwMark, text);
    DeviceReads(v6, dev, [(ListenPort, text)]);
    DeviceReads(v6, dev, [(FwMark, text)]);
    RunOne(v6, s, (ListenPort, text));
    RunOne(v6, s, (FwMark, text));
    if n >= 0 {
      NatRoundTrip(n);
      NaturalText(n);
    } else {
      OutOfRange(n, MAX_MARK);
      OutOfRange(n, MAX_PORT);
    }
  }

  lemma NaturalText(n: int)
    ensures n >= 0 ==> PrintInt(n) == PrintNat(n)
  {
  }

  /** A device that is told to update only leaves a missing peer missing, and an existing one as it is. */
  lemma UpdateOnlyRead(v6: V6Codec, dev: Dev, k: Key)
    ensures IpcSet(v6, dev, "public_key=" + HexEncode(k) + "\n" + "update_only=true\n") == Answer(dev, true)
  {
    hide EntriesText, Line, RunEntries, HexEncode, IpcSet, HexDecode;
    var a: Entry, b: Entry := (PublicKey, HexEncode(k)), (UpdateOnly, "true");
    TwoLines(k, UpdateOnly, "true");
    FlagLine();
    DeviceReads(v6, dev, [a, b]);
    RunTwo(v6, Session(dev, None, false), a, b);
    KeyTextRoundTrip(k);
    assert dev.peers[k := FreshPeer()] - {k} == dev.peers - {k};
    assert k !in dev.peers ==> dev.peers - {k} == dev.peers;
  }

  /** A flag with any value but `true`, and a protocol version other than 1, is rejected after the peer was selected. */
  lemma OtherValuesRejected(v6: V6Codec, dev: Dev, k: Key, v: string)
    requires PlainValue(v)
    ensures var start := "public_key=" + HexEncode(k) + "\n";
            var selected := Answer(dev.(peers := EnsurePeer(dev.peers, k)), false);
            (v != "true" ==> IpcSet(v6, dev, start + ("update_only=" + v + "\n")) == selected
                             && IpcSet(v6, dev, start + ("remove=" + v + "\n")) == selected
                             && IpcSet(v6, dev, start + ("replace_allowed_ips=" + v + "\n")) == selected)
            && (v != "1" ==> IpcSet(v6, dev, start + ("protocol_version=" + v + "\n")) == selected)
            && IpcSet(v6, dev, start + ("protocol_version=" + "1" + "\n")) == Answer(selected.dev, true)
  {
    hide EntriesText, Line, RunEntries, HexEncode, IpcSet, HexDecode, PlainValue, RunEntry, EnsurePeer;
    LineNames(v);
    LineNames("1");
    OneIsPlain();
    LineAfterKey(v6, dev, k, UpdateOnly, v);
    LineAfterKey(v6, dev, k, Remove, v);
    LineAfterKey(v6, dev, k, ReplaceAllowedIPs, v);
    LineAfterKey(v6, dev, k, ProtocolVersion, v);
    LineAfterKey(v6, dev, k, ProtocolVersion, "1");
    StepOfFlags(v6, Session(dev.(peers := EnsurePeer(dev.peers, k)), Some(k), k !in dev.peers), v);
  }

  lemma OneIsPlain()
    ensures PlainValue("1")
  {
  }

  lemma LineAfterKey(v6: V6Codec, dev: Dev, k: Key, f: Field, v: string)
    requires f != Unknown && PlainValue(v)
    ensures var s := Session(dev.(peers := EnsurePeer(dev.peers, k)), Some(k), k !in dev.peers);
            IpcSet(v6, dev, "public_key=" + HexEncode(k) + "\n" + (Line(f, v) + "\n")) ==
            match RunEntry(v6, s, (f, v)) case Stopped(d) => Answer(d, false) case Going(t) => Answer(t.dev, true)
  {
    hide EntriesText, Line, RunEntries, HexEncode, IpcSet, HexDecode, PlainValue, EnsurePeer;
    var a: Entry := (PublicKey, HexEncode(k));
    TwoLines(k, f, v);
    DeviceReads(v6, dev, [a, (f, v)]);
    RunTwo(v6, Session(dev, None, false), a, (f, v));
    KeyTextRoundTrip(k);
  }

  lemma StepOfFlags(v6: V6Codec, s: Session, v: string)
    requires s.current.Some?
    ensures v != "true" ==> RunEntry(v6, s, (UpdateOnly, v)) == Stopped(s.dev)
                            && RunEntry(v6, s, (Remove, v)) == Stopped(s.dev)
                            && RunEntry(v6, s, (ReplaceAllowedIPs, v)) == Stopped(s.dev)
    ensures v != "1" ==> RunEntry(v6, s, (ProtocolVersion, v)) == Stopped(s.dev)
    ensures RunEntry(v6, s, (ProtocolVersion, "1")) == Going(s)
  {
  }

  lemma FlagLine()
    ensures Line(UpdateOnly, "true") + "\n" == "update_only=true\n"
  {
    hide Line;
    LineNames("true");
  }

  lemma TwoLines(k: Key, f: Field, v: string)
    requires f != Unknown && PlainValue(v)
    ensures EntriesText([(PublicKey, HexEncode(k)), (f, v)]) ==
            "public_key=" + HexEncode(k) + "\n" + (Line(f, v) + "\n")
    ensures Printable([(PublicKey, HexEncode(k)), (f, v)])
  {
    hide EntriesText, Line, HexEncode, PlainValue;
    HexValueIsPlain(k);
    LineNames(HexEncode(k));
    OneLine(PublicKey, HexEncode(k));
    AllowedOneMore([(PublicKey, HexEncode(k))], f, v);
    assert [(PublicKey, HexEncode(k))] + [(f, v)] == [(PublicKey, HexEncode(k)), (f, v)];
  }

  lemma RunTwo(v6: V6Codec, s: Session, a: Entry, b: Entry)
    ensures RunEntries(v6, s, [a, b]) ==
            match RunEntry(v6, s, a) case Stopped(d) => Stopped(d) case Going(t) => RunEntry(v6, t, b)
  {
    hide RunEntry;
    RunConcat(v6, s, [a], [b]);
    RunOne(v6, s, a);
    if RunEntry(v6, s, a).Going? {
      RunOne(v6, RunEntry(v6, s, a).session, b);
    }
    assert [a] + [b] == [a, b];
  }
}
