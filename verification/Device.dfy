/**
 A WireGuard device as both configurers see it: its state, the effect of a configuration handed over directly, and
 the effect of the same configuration handed over as text. Printing a configuration and letting the device read it
 has the effect of the configuration.
 */
module Device {
  import opened Wrappers
  import opened Encodings
  import opened Text
  import opened Net
  import opened Wg
  import opened UapiText
  import opened Printer
  import opened PrintParse

  datatype DevPeer = DevPeer(
    presharedKey: Key,
    endpoint: Option<UdpAddr>,
    keepalive: int,
    allowedIPs: seq<Prefix>,
    handshakeSec: int,
    handshakeNsec: int,
    txBytes: int,
    rxBytes: int)

  type Peers = map<Key, DevPeer>

  datatype Dev = Dev(privateKey: Key, listenPort: int, fwMark: int, peers: Peers)

  // ---- configurations ----

  function FreshPeer(): DevPeer {
    DevPeer(ZeroKey(), None, 0, [], 0, 0, 0, 0)
  }

  function EnsurePeer(peers: Peers, k: Key): Peers {
    if k in peers then peers else peers[k := FreshPeer()]
  }

  function SetPreshared(peers: Peers, k: Key, psk: Option<Key>): Peers {
    if k in peers && psk.Some? then peers[k := peers[k].(presharedKey := psk.value)] else peers
  }

  function SetEndpoint(peers: Peers, k: Key, e: Option<UdpAddr>): Peers {
    if k in peers && e.Some? then peers[k := peers[k].(endpoint := Some(UnmapEndpoint(e.value)))] else peers
  }

  function SetKeepalive(peers: Peers, k: Key, seconds: Option<int>): Peers {
    if k in peers && seconds.Some? then peers[k := peers[k].(keepalive := seconds.value)] else peers
  }

  function ClearAllowed(peers: Peers, k: Key, clear: bool): Peers {
    if k in peers && clear then peers[k := peers[k].(allowedIPs := [])] else peers
  }

  /** The prefixes without any occurrence of one of them. */
  function Without(ips: seq<Prefix>, p: Prefix): seq<Prefix> {
    if ips == [] then []
    else
      var front := Without(ips[..|ips| - 1], p);
      if ips[|ips| - 1] == p then front else front + [ips[|ips| - 1]]
  }

  /** A prefix belongs to one peer only: it is taken from every peer and given to this one, at the end. */
  function Allow(peers: Peers, k: Key, p: Prefix): Peers {
    if k !in peers then peers
    else
      map q | q in peers ::
        var left := Without(peers[q].allowedIPs, Masked(p));
        peers[q].(allowedIPs := if q == k then left + [Masked(p)] else left)
  }

  function AllowAll(peers: Peers, k: Key, ips: seq<Prefix>): Peers {
    if ips == [] then peers else Allow(AllowAll(peers, k, ips[..|ips| - 1]), k, ips[|ips| - 1])
  }

  function Seconds(d: Option<int>): Option<int> {
    match d case None => None case Some(v) => Some(WholeSeconds(v))
  }

  /** The effect of one peer of a configuration. */
  function ConfigurePeer(peers: Peers, p: PeerConfig): Peers {
    var k := p.publicKey;
    if p.remove then peers - {k}
    else if p.updateOnly && k !in peers then peers
    else
      var a := SetPreshared(EnsurePeer(peers, k), k, p.presharedKey);
      var b := AllowAll(ClearAllowed(a, k, p.replaceAllowedIPs), k, p.allowedIPs);
      SetKeepalive(SetEndpoint(b, k, p.endpoint), k, Seconds(p.keepalive))
  }

  function ConfigurePeers(peers: Peers, ps: seq<PeerConfig>): Peers {
    if ps == [] then peers else ConfigurePeer(ConfigurePeers(peers, ps[..|ps| - 1]), ps[|ps| - 1])
  }

  function ConfigureDevice(dev: Dev, cfg: Config): Dev {
    dev.(privateKey := if cfg.privateKey.Some? then cfg.privateKey.value else dev.privateKey,
    listenPort := if cfg.listenPort.Some? then cfg.listenPort.value else dev.listenPort,
    fwMark := if cfg.firewallMark.Some? then cfg.firewallMark.value else dev.fwMark,
    peers := if cfg.replacePeers then map[] else dev.peers)
  }

  /** The effect of a configuration that is handed over directly. */
  function Configure(dev: Dev, cfg: Config): Dev {
    var d := ConfigureDevice(dev, cfg);
    d.(peers := ConfigurePeers(d.peers, cfg.peers))
  }

  // ---- configuration text ----

  /** A device while it reads text: the peer that the last key line selected, and whether that line created it. */
  datatype Session = Session(dev: Dev, current: Option<Key>, created: bool) {
    function With(peers: Peers): Session {
      this.(dev := dev.(peers := peers))
    }
  }

  function ReadRange(val: string, max: int): Option<int> {
    match ParseNat(val)
    case Some(n) => if n <= max then Some(n) else None
    case None => None
  }

  const MAX_PORT: int := 65535
  const MAX_MARK: int := 0xFFFF_FFFF

  /** The effect of one assignment; None when the device rejects it. */
  function DeviceStep(v6: V6Codec, s: Session, e: Entry): Option<Session> {
    if e.0 == PublicKey then
      match HexKey(e.1)
      case None => None
      case Some(k) => Some(Session(s.dev.(peers := EnsurePeer(s.dev.peers, k)), Some(k), k !in s.dev.peers))
    else match s.current
      case None =>
        (match e.0
         case PrivateKey =>
           (match HexKey(e.1) case Some(k) => Some(s.(dev := s.dev.(privateKey := k))) case None => None)
         case ListenPort =>
           (match ReadRange(e.1, MAX_PORT) case Some(n) => Some(s.(dev := s.dev.(listenPort := n))) case None => None)
         case FwMark =>
           (match ReadRange(e.1, MAX_MARK) case Some(n) => Some(s.(dev := s.dev.(fwMark := n))) case None => None)
         case ReplacePeers => if e.1 == "true" then Some(s.With(map[])) else None
         case _ => None)
      case Some(k) =>
        var peers := s.dev.peers;
        match e.0
        case PresharedKey =>
          (match HexKey(e.1) case Some(psk) => Some(s.With(SetPreshared(peers, k, Some(psk)))) case None => None)
        case ReplaceAllowedIPs => if e.1 == "true" then Some(s.With(ClearAllowed(peers, k, true))) else None
        case AllowedIP =>
          (match ParsePrefix(v6, e.1) case Some(p) => Some(s.With(Allow(peers, k, p))) case None => None)
        case Endpoint =>
          (match ParseAddrPort(v6, e.1)
           case Some(ep) => Some(s.With(SetEndpoint(peers, k, Some(ep))))
           case None => None)
        case Keepalive =>
          (match ReadRange(e.1, MAX_PORT)
           case Some(n) => Some(s.With(SetKeepalive(peers, k, Some(n))))
           case None => None)
        case Remove => if e.1 == "true" then Some(s.With(peers - {k})) else None
        case UpdateOnly =>
          if e.1 != "true" then None else Some(if s.created then s.With(peers - {k}) else s)
        case ProtocolVersion => if e.1 == "1" then Some(s) else None
        case _ => None
  }

  /** How far a device got with a text: it goes on, or it stopped at a line and keeps what the earlier ones did. */
  datatype Progress = Going(session: Session) | Stopped(dev: Dev)

  /** The state of a device after a text, and whether it took all of it. */
  datatype Answer = Answer(dev: Dev, ok: bool)

  /** Reading lines up to the first blank one. */
  function RunLines(v6: V6Codec, s: Session, lines: seq<string>): Answer
    decreases |lines|
  {
    if lines == [] || lines[0] == "" then Answer(s.dev, true)
    else match EntryOf(lines[0])
      case None => Answer(s.dev, false)
      case Some(e) =>
        match DeviceStep(v6, s, e)
        case None => Answer(s.dev, false)
        case Some(t) => RunLines(v6, t, lines[1..])
  }

  /** The effect of a configuration that is handed over as text. */
  function IpcSet(v6: V6Codec, dev: Dev, text: string): Answer {
    RunLines(v6, Session(dev, None, false), Split(text, '\n'))
  }

  function RunEntry(v6: V6Codec, s: Session, e: Entry): Progress {
    match DeviceStep(v6, s, e)
    case None => Stopped(s.dev)
    case Some(t) => Going(t)
  }

  function RunEntries(v6: V6Codec, s: Session, entries: seq<Entry>): Progress {
    if entries == [] then Going(s)
    else match RunEntries(v6, s, entries[..|entries| - 1])
      case Stopped(d) => Stopped(d)
      case Going(t) => RunEntry(v6, t, entries[|entries| - 1])
  }

  lemma {:induction false} RunConcat(v6: V6Codec, s: Session, a: seq<Entry>, b: seq<Entry>)
    ensures RunEntries(v6, s, a + b) ==
            match RunEntries(v6, s, a) case Stopped(d) => Stopped(d) case Going(t) => RunEntries(v6, t, b)
  {
    hide RunEntry;
    if b == [] {
      assert a + b == a;
    } else {
      RunConcat(v6, s, a, b[..|b| - 1]);
      assert (a + b)[..|a + b| - 1] == a + b[..|b| - 1];
    }
  }

  lemma RunOne(v6: V6Codec, s: Session, e: Entry)
    ensures RunEntries(v6, s, [e]) == RunEntry(v6, s, e)
  {
    hide RunEntry;
    assert [e][..0] == [];
  }

  /** Printed lines are read as the assignments that were printed, before the lines that follow. */
  lemma {:induction false} RunRendered(v6: V6Codec, s: Session, entries: seq<Entry>, rest: seq<string>)
    requires Printable(entries)
    ensures RunLines(v6, s, Render(entries) + rest) ==
            match RunEntries(v6, s, entries) case Stopped(d) => Answer(d, false) case Going(t) => RunLines(v6, t, rest)
    decreases |entries|
  {
    hide DeviceStep, EntryOf, Line, PlainValue;
    if entries == [] {
      assert Render(entries) + rest == rest;
    } else {
      var front, last := entries[..|entries| - 1], entries[|entries| - 1];
      var line := Line(last.0, last.1);
      assert last in entries;
      assert Render(entries) + rest == Render(front) + ([line] + rest);
      RunRendered(v6, s, front, [line] + rest);
      EntryOfLine(last.0, last.1);
      LineIsNotBlank(last.0, last.1);
      assert ([line] + rest)[1..] == rest;
    }
  }

  // ---- the printed text of a configuration has its effect ----

  /** The values of a configuration that the device can take. */
  predicate InRange(cfg: Config) {
    && (cfg.listenPort.Some? ==> 0 <= cfg.listenPort.value <= MAX_PORT)
    && (cfg.firewallMark.Some? ==> 0 <= cfg.firewallMark.value <= MAX_MARK)
    && (forall p :: p in cfg.peers ==> PeerInRange(p))
  }

  predicate PortInRange(e: Option<UdpAddr>) {
    e.Some? ==> 0 <= e.value.port <= MAX_PORT
  }

  predicate KeepaliveInRange(d: Option<int>) {
    d.Some? ==> 0 <= WholeSeconds(d.value) <= MAX_PORT
  }

  predicate PeerInRange(p: PeerConfig) {
    PortInRange(p.endpoint) && KeepaliveInRange(p.keepalive)
  }

  /** The prefixes as they are printed: IPv4-mapped ones as IPv4. */
  function UnmappedAll(ips: seq<Prefix>): (r: seq<Prefix>)
    ensures |r| == |ips| && forall i :: 0 <= i < |ips| ==> r[i] == Unmapped(ips[i])
  {
    seq(|ips|, i requires 0 <= i < |ips| => Unmapped(ips[i]))
  }

  predicate NoneMapped(ips: seq<Prefix>) {
    forall i :: 0 <= i < |ips| ==> !IsMapped(ips[i].addr)
  }

  lemma UnmappedAllIsUnmapped(ips: seq<Prefix>)
    ensures NoneMapped(UnmappedAll(ips))
    ensures NoneMapped(ips) ==> UnmappedAll(ips) == ips
  {
    hide IsMapped, UnmapAddr;
    forall i | 0 <= i < |ips|
      ensures !IsMapped(Unmapped(ips[i]).addr)
    {
      UnmappedIsNotMapped(ips[i]);
    }
  }

  lemma UnmappedIsNotMapped(p: Prefix)
    ensures !IsMapped(Unmapped(p).addr)
  {
    hide UnmapAddr;
  }

  lemma RangeRoundTrip(n: int, max: int)
    requires 0 <= n <= max
    ensures ReadRange(PrintInt(n), max) == Some(n)
  {
    NatRoundTrip(n);
  }

  lemma {:induction false} AllowedApply(v6: V6Codec, s: Session, k: Key, ips: seq<Prefix>)
    requires v6.Lawful() && s.current == Some(k)
    ensures RunEntries(v6, s, AllowedEntries(v6, ips)) == Going(s.With(AllowAll(s.dev.peers, k, UnmappedAll(ips))))
  {
    hide Allow, ParsePrefix, PrefixText, Unmapped, DeviceStep, UnmappedAll;
    if ips != [] {
      var front, ip := ips[..|ips| - 1], ips[|ips| - 1];
      AllowedApply(v6, s, k, front);
      PrefixRoundTrip(v6, Unmapped(ip));
      assert UnmappedAll(ips)[..|ips| - 1] == UnmappedAll(front);
      AllowedStep(v6, s.With(AllowAll(s.dev.peers, k, UnmappedAll(front))), k, IPNetText(v6, ip), Unmapped(ip));
    }
  }

  lemma AllowedStep(v6: V6Codec, s: Session, k: Key, val: string, p: Prefix)
    requires s.current == Some(k) && ParsePrefix(v6, val) == Some(p)
    ensures DeviceStep(v6, s, (AllowedIP, val)) == Some(s.With(Allow(s.dev.peers, k, p)))
  {
    hide Allow, ParsePrefix;
  }

  lemma OptApply(v6: V6Codec, s: Session, f: Field, val: Option<string>)
    ensures RunEntries(v6, s, Opt(f, val)) == if val.Some? then RunEntry(v6, s, (f, val.value)) else Going(s)
  {
    if val.Some? {
      RunOne(v6, s, (f, val.value));
    }
    hide RunEntry;
  }

  lemma FlagApply(v6: V6Codec, s: Session, k: Key, on: bool)
    requires s.current == Some(k)
    ensures RunEntries(v6, s, Flag(ReplaceAllowedIPs, on)) == Going(s.With(ClearAllowed(s.dev.peers, k, on)))
  {
    if on {
      RunOne(v6, s, (ReplaceAllowedIPs, "true"));
      hide RunEntries;
    }
  }

  /** The head of a printed peer selects it and sets its preshared key. */
  lemma HeadApplies(v6: V6Codec, s: Session, p: PeerConfig)
    ensures var k := p.publicKey;
            RunEntries(v6, s, PeerHead(p)) ==
            Going(Session(s.dev.(peers := SetPreshared(EnsurePeer(s.dev.peers, k), k, p.presharedKey)),
                         Some(k), k !in s.dev.peers))
  {
    var k := p.publicKey;
    var t := Session(s.dev.(peers := EnsurePeer(s.dev.peers, k)), Some(k), k !in s.dev.peers);
    KeyTextRoundTrip(k);
    RunOne(v6, s, (PublicKey, HexEncode(k)));
    SelectStep(v6, s, HexEncode(k), k);
    OptApply(v6, t, PresharedKey, KeyHex(p.presharedKey));
    if p.presharedKey.Some? {
      KeyTextRoundTrip(p.presharedKey.value);
      PresharedStep(v6, t, k, HexEncode(p.presharedKey.value), p.presharedKey.value);
    }
    hide RunEntries, Opt, HexEncode, HexKey, EnsurePeer, SetPreshared, DeviceStep;
    RunConcat(v6, s, [(PublicKey, HexEncode(k))], Opt(PresharedKey, KeyHex(p.presharedKey)));
  }

  lemma SelectStep(v6: V6Codec, s: Session, val: string, k: Key)
    requires HexKey(val) == Some(k)
    ensures DeviceStep(v6, s, (PublicKey, val)) ==
            Some(Session(s.dev.(peers := EnsurePeer(s.dev.peers, k)), Some(k), k !in s.dev.peers))
  {
  }

  lemma PresharedStep(v6: V6Codec, s: Session, k: Key, val: string, psk: Key)
    requires s.current == Some(k) && HexKey(val) == Some(psk)
    ensures DeviceStep(v6, s, (PresharedKey, val)) == Some(s.With(SetPreshared(s.dev.peers, k, Some(psk))))
  {
    hide HexKey, SetPreshared;
  }

  lemma EndpointApplies(v6: V6Codec, s: Session, k: Key, e: Option<UdpAddr>)
    requires v6.Lawful() && s.current == Some(k) && PortInRange(e)
    ensures RunEntries(v6, s, Opt(Endpoint, AddressText(v6, e))) == Going(s.With(SetEndpoint(s.dev.peers, k, e)))
  {
    OptApply(v6, s, Endpoint, AddressText(v6, e));
    if e.Some? {
      EndpointRoundTrip(v6, e.value);
      EndpointStep(v6, s, k, EndpointText(v6, e.value), e.value);
      hide RunEntries, EndpointText, ParseAddrPort, DeviceStep;
    }
  }

  lemma EndpointStep(v6: V6Codec, s: Session, k: Key, val: string, e: UdpAddr)
    requires s.current == Some(k) && ParseAddrPort(v6, val) == Some(UnmapEndpoint(e))
    ensures DeviceStep(v6, s, (Endpoint, val)) == Some(s.With(SetEndpoint(s.dev.peers, k, Some(e))))
  {
    assert UnmapEndpoint(UnmapEndpoint(e)) == UnmapEndpoint(e);
    hide ParseAddrPort, UnmapEndpoint;
  }

  lemma KeepaliveApplies(v6: V6Codec, s: Session, k: Key, d: Option<int>)
    requires s.current == Some(k) && KeepaliveInRange(d)
    ensures RunEntries(v6, s, Opt(Keepalive, SecondsText(d))) == Going(s.With(SetKeepalive(s.dev.peers, k, Seconds(d))))
  {
    OptApply(v6, s, Keepalive, SecondsText(d));
    if d.Some? {
      RangeRoundTrip(WholeSeconds(d.value), MAX_PORT);
    }
    hide RunEntries, PrintInt, WholeSeconds, ReadRange;
  }

  /** The tail of a printed peer sets its allowed prefixes, endpoint and keep-alive. */
  lemma TailApplies(v6: V6Codec, s: Session, p: PeerConfig)
    requires v6.Lawful() && PeerInRange(p) && s.current == Some(p.publicKey)
    ensures var k := p.publicKey;
            RunEntries(v6, s, PeerTail(v6, p)) ==
            Going(s.With(SetKeepalive(
                          SetEndpoint(AllowAll(ClearAllowed(s.dev.peers, k, p.replaceAllowedIPs), k,
                                               UnmappedAll(p.allowedIPs)), k, p.endpoint), k, Seconds(p.keepalive))))
  {
    var k := p.publicKey;
    var r, a := Flag(ReplaceAllowedIPs, p.replaceAllowedIPs), AllowedEntries(v6, p.allowedIPs);
    var e, d := Opt(Endpoint, AddressText(v6, p.endpoint)), Opt(Keepalive, SecondsText(p.keepalive));
    var s1 := s.With(ClearAllowed(s.dev.peers, k, p.replaceAllowedIPs));
    var s2 := s1.With(AllowAll(s1.dev.peers, k, UnmappedAll(p.allowedIPs)));
    var s3 := s2.With(SetEndpoint(s2.dev.peers, k, p.endpoint));
    FlagApply(v6, s, k, p.replaceAllowedIPs);
    AllowedApply(v6, s1, k, p.allowedIPs);
    EndpointApplies(v6, s2, k, p.endpoint);
    KeepaliveApplies(v6, s3, k, p.keepalive);
    hide RunEntries, Flag, Opt, AllowedEntries, ClearAllowed, AllowAll, SetEndpoint, SetKeepalive, AddressText,
      SecondsText;
    RunConcat(v6, s, r, a);
    RunConcat(v6, s, r + a, e);
    RunConcat(v6, s, r + a + e, d);
  }

  /** What the text of a peer says: the update-only flag is not printed, IPv4-mapped prefixes are printed as IPv4. */
  function AsPrinted(p: PeerConfig): PeerConfig {
    p.(updateOnly := false, allowedIPs := UnmappedAll(p.allowedIPs))
  }

  function AllAsPrinted(ps: seq<PeerConfig>): (r: seq<PeerConfig>)
    ensures |r| == |ps| && forall i :: 0 <= i < |ps| ==> r[i] == AsPrinted(ps[i])
  {
    seq(|ps|, i requires 0 <= i < |ps| => AsPrinted(ps[i]))
  }

  lemma PeerApplies(v6: V6Codec, s: Session, p: PeerConfig)
    requires v6.Lawful() && PeerInRange(p) && !p.remove
    ensures RunEntries(v6, s, PeerEntries(v6, p)) ==
            Going(Session(s.dev.(peers := ConfigurePeer(s.dev.peers, AsPrinted(p))), Some(p.publicKey),
                         p.publicKey !in s.dev.peers))
  {
    var k := p.publicKey;
    var t := Session(s.dev.(peers := SetPreshared(EnsurePeer(s.dev.peers, k), k, p.presharedKey)),
                     Some(k), k !in s.dev.peers);
    HeadApplies(v6, s, p);
    TailApplies(v6, t, p);
    hide RunEntries, PeerHead, PeerTail, EnsurePeer, SetPreshared, ClearAllowed, AllowAll, SetEndpoint, SetKeepalive;
    RunConcat(v6, s, PeerHead(p), PeerTail(v6, p));
  }

  lemma {:induction false} PeersApply(v6: V6Codec, s: Session, ps: seq<PeerConfig>)
    requires v6.Lawful() && forall p :: p in ps ==> PeerInRange(p) && !p.remove
    ensures RunEntries(v6, s, PeersEntries(v6, ps)).Going?
    ensures RunEntries(v6, s, PeersEntries(v6, ps)).session.dev ==
            s.dev.(peers := ConfigurePeers(s.dev.peers, AllAsPrinted(ps)))
  {
    hide DeviceStep, PeerEntries, ConfigurePeer;
    if ps != [] {
      var front, p := ps[..|ps| - 1], ps[|ps| - 1];
      PeersApply(v6, s, front);
      RunConcat(v6, s, PeersEntries(v6, front), PeerEntries(v6, p));
      PeerApplies(v6, RunEntries(v6, s, PeersEntries(v6, front)).session, p);
      assert AllAsPrinted(ps)[..|ps| - 1] == AllAsPrinted(front);
    }
  }

  lemma NumberApplies(v6: V6Codec, s: Session, f: Field, n: Option<int>)
    requires s.current == None
    requires f == ListenPort || f == FwMark
    requires n.Some? ==> 0 <= n.value <= if f == ListenPort then MAX_PORT else MAX_MARK
    ensures RunEntries(v6, s, Opt(f, NumberText(n))) ==
            Going(match n
                 case None => s
                 case Some(v) => s.(dev := if f == ListenPort then s.dev.(listenPort := v) else s.dev.(fwMark := v)))
  {
    OptApply(v6, s, f, NumberText(n));
    if n.Some? {
      RangeRoundTrip(n.value, if f == ListenPort then MAX_PORT else MAX_MARK);
    }
    hide RunEntries, PrintInt, ReadRange;
  }

  lemma PrivateKeyApplies(v6: V6Codec, s: Session, k: Option<Key>)
    requires s.current == None
    ensures RunEntries(v6, s, Opt(PrivateKey, KeyHex(k))) ==
            Going(s.(dev := s.dev.(privateKey := if k.Some? then k.value else s.dev.privateKey)))
  {
    OptApply(v6, s, PrivateKey, KeyHex(k));
    if k.Some? {
      KeyTextRoundTrip(k.value);
    }
    hide RunEntries, HexEncode, HexKey;
  }

  lemma ReplaceApplies(v6: V6Codec, s: Session, on: bool)
    requires s.current == None
    ensures RunEntries(v6, s, Flag(ReplacePeers, on)) == Going(if on then s.With(map[]) else s)
  {
    if on {
      RunOne(v6, s, (ReplacePeers, "true"));
    }
  }

  lemma DeviceApplies(v6: V6Codec, dev: Dev, cfg: Config)
    requires InRange(cfg)
    ensures RunEntries(v6, Session(dev, None, false), DeviceEntries(cfg)) ==
            Going(Session(ConfigureDevice(dev, cfg), None, false))
  {
    var a, b := Opt(PrivateKey, KeyHex(cfg.privateKey)), Opt(ListenPort, NumberText(cfg.listenPort));
    var c, d := Flag(ReplacePeers, cfg.replacePeers), Opt(FwMark, NumberText(cfg.firewallMark));
    var s0 := Session(dev, None, false);
    PrivateKeyApplies(v6, s0, cfg.privateKey);
    var s1 := RunEntries(v6, s0, a).session;
    NumberApplies(v6, s1, ListenPort, cfg.listenPort);
    var s2 := RunEntries(v6, s1, b).session;
    ReplaceApplies(v6, s2, cfg.replacePeers);
    var s3 := RunEntries(v6, s2, c).session;
    NumberApplies(v6, s3, FwMark, cfg.firewallMark);
    hide RunEntries, Opt, Flag, KeyHex, NumberText;
    RunConcat(v6, s0, a, b);
    RunConcat(v6, s0, a + b, c);
    RunConcat(v6, s0, a + b + c, d);
  }

  // ---- where removal flags may stand ----

  /** A removed peer is written last and has nothing after its removal flag. */
  predicate RemovalsLast(v6: V6Codec, ps: seq<PeerConfig>) {
    forall i :: 0 <= i < |ps| && ps[i].remove ==> i == |ps| - 1 && PeerTail(v6, ps[i]) == []
  }

  lemma {:induction false} PeersTextConcat(v6: V6Codec, a: seq<PeerConfig>, b: seq<PeerConfig>)
    ensures PeersText(v6, a + b) == PeersText(v6, a) + PeersText(v6, b)
  {
    hide PeerText;
    if b == [] {
      assert a + b == a;
    } else {
      PeersTextConcat(v6, a, b[..|b| - 1]);
      assert (a + b)[..|a + b| - 1] == a + b[..|b| - 1];
    }
  }

  lemma KeptPeersAreKept(v6: V6Codec, ps: seq<PeerConfig>)
    requires forall p :: p in ps ==> !p.remove
    ensures RemovalsLast(v6, ps)
  {
    hide PeerTail;
  }

  /** What is printed before the removal flag of the first removed peer. */
  function BeforeRemoval(v6: V6Codec, cfg: Config, i: nat): seq<Entry>
    requires i < |cfg.peers|
  {
    DeviceEntries(cfg) + PeersEntries(v6, cfg.peers[..i]) + PeerHead(cfg.peers[i])
  }

  /** What is printed after it. */
  function AfterRemoval(v6: V6Codec, cfg: Config, i: nat): string
    requires i < |cfg.peers|
  {
    EntriesText(PeerTail(v6, cfg.peers[i])) + PeersText(v6, cfg.peers[i + 1..])
  }

  lemma TextAroundRemoval(v6: V6Codec, cfg: Config, i: nat)
    requires i < |cfg.peers| && cfg.peers[i].remove && forall p :: p in cfg.peers[..i] ==> !p.remove
    ensures ConfigText(v6, cfg) ==
            EntriesText(BeforeRemoval(v6, cfg, i)) + (Line(Remove, "true") + AfterRemoval(v6, cfg, i))
  {
    hide PeersText, EntriesText, PeersEntries, PeerHead, PeerTail, DeviceEntries, Line, PeerText;
    var a, p, b := cfg.peers[..i], cfg.peers[i], cfg.peers[i + 1..];
    PeersTextIsEntries(v6, a);
    PeersTextAround(v6, cfg.peers, i);
    PeerTextParts(v6, p);
    EntriesTextConcat(DeviceEntries(cfg), PeersEntries(v6, a));
    EntriesTextConcat(DeviceEntries(cfg) + PeersEntries(v6, a), PeerHead(p));
    Regroup(EntriesText(DeviceEntries(cfg)), EntriesText(PeersEntries(v6, a)), EntriesText(PeerHead(p)),
            Line(Remove, "true"), EntriesText(PeerTail(v6, p)), PeersText(v6, b));
  }

  lemma PeerTextParts(v6: V6Codec, p: PeerConfig)
    ensures PeerText(v6, p) ==
            EntriesText(PeerHead(p)) + (if p.remove then Line(Remove, "true") else "") + EntriesText(PeerTail(v6, p))
  {
  }

  lemma PeersTextAround(v6: V6Codec, ps: seq<PeerConfig>, i: nat)
    requires i < |ps|
    ensures PeersText(v6, ps) == (PeersText(v6, ps[..i]) + PeerText(v6, ps[i])) + PeersText(v6, ps[i + 1..])
  {
    hide PeerText, PeersText;
    OnePeerText(v6, ps[i]);
    PeersTextConcat(v6, ps[..i], [ps[i]]);
    PeersTextConcat(v6, ps[..i] + [ps[i]], ps[i + 1..]);
    assert ps == ps[..i] + [ps[i]] + ps[i + 1..];
  }

  lemma Regroup(d: string, a: string, h: string, r: string, t: string, b: string)
    ensures d + ((a + (h + r + t)) + b) == (d + a + h) + (r + (t + b))
  {
  }

  lemma OnePeerText(v6: V6Codec, p: PeerConfig)
    ensures PeersText(v6, [p]) == PeerText(v6, p)
  {
    hide PeerText;
    assert [p][..0] == [];
  }

  lemma BeforeRemovalPrintable(v6: V6Codec, cfg: Config, i: nat)
    requires v6.Lawful() && InRange(cfg) && i < |cfg.peers|
    ensures Printable(BeforeRemoval(v6, cfg, i))
  {
    DevicePrintable(cfg);
    PeersPrintable(v6, cfg.peers[..i]);
    HeadPrintable(cfg.peers[i]);
    hide DeviceEntries, PeersEntries, PeerHead, Printable;
    PrintableConcat(DeviceEntries(cfg), PeersEntries(v6, cfg.peers[..i]));
    PrintableConcat(DeviceEntries(cfg) + PeersEntries(v6, cfg.peers[..i]), PeerHead(cfg.peers[i]));
  }

  lemma BeforeRemovalApplies(v6: V6Codec, dev: Dev, cfg: Config, i: nat)
    requires v6.Lawful() && InRange(cfg) && i < |cfg.peers| && forall p :: p in cfg.peers[..i] ==> !p.remove
    ensures var d := ConfigureDevice(dev, cfg);
            var peers := ConfigurePeers(d.peers, AllAsPrinted(cfg.peers[..i]));
            var p := cfg.peers[i];
            var k := p.publicKey;
            RunEntries(v6, Session(dev, None, false), BeforeRemoval(v6, cfg, i)) ==
            Going(Session(d.(peers := SetPreshared(EnsurePeer(peers, k), k, p.presharedKey)), Some(k), k !in peers))
  {
    var s0 := Session(dev, None, false);
    var d, a, h := DeviceEntries(cfg), PeersEntries(v6, cfg.peers[..i]), PeerHead(cfg.peers[i]);
    DeviceApplies(v6, dev, cfg);
    var s1 := Session(ConfigureDevice(dev, cfg), None, false);
    PeersApply(v6, s1, cfg.peers[..i]);
    var s2 := RunEntries(v6, s1, a).session;
    HeadApplies(v6, s2, cfg.peers[i]);
    hide RunEntries, DeviceEntries, PeersEntries, PeerHead, ConfigureDevice, ConfigurePeers, EnsurePeer, SetPreshared,
      AllAsPrinted;
    RunConcat(v6, s0, d, a);
    RunConcat(v6, s0, d + a, h);
  }

  /** A removal flag with nothing after it removes the peer. */
  lemma FinalRemovalStep(v6: V6Codec, s: Session, k: Key)
    requires s.current == Some(k)
    ensures RunLines(v6, s, [Line(Remove, "true")]) == Answer(s.dev.(peers := s.dev.peers - {k}), true)
  {
    EntryOfLine(Remove, "true");
    LineIsNotBlank(Remove, "true");
    var line := Line(Remove, "true");
    var t := s.With(s.dev.peers - {k});
    assert DeviceStep(v6, s, (Remove, "true")) == Some(t);
    hide Line, EntryOf, DeviceStep;
    assert [line][1..] == [];
    assert RunLines(v6, t, []) == Answer(t.dev, true);
  }

  /** A removal flag with anything on its line is rejected. */
  lemma LongerRemovalStep(v6: V6Codec, s: Session, k: Key, more: string, rest: seq<string>)
    requires s.current == Some(k) && more != ""
    ensures RunLines(v6, s, [Line(Remove, "true") + more] + rest) == Answer(s.dev, false)
  {
    assert Line(Remove, "true") + more == Line(Remove, "true" + more);
    assert "true" + more != "true";
    EntryOfLine(Remove, "true" + more);
    LineIsNotBlank(Remove, "true" + more);
    assert DeviceStep(v6, s, (Remove, "true" + more)) == None;
    hide Line, EntryOf, DeviceStep;
  }

  lemma RemovedPeerGone(peers: Peers, k: Key, psk: Option<Key>)
    ensures SetPreshared(EnsurePeer(peers, k), k, psk) - {k} == peers - {k}
  {
  }

  /** What is printed after a removal flag does not start with a newline. */
  lemma AfterRemovalStart(v6: V6Codec, cfg: Config, i: nat)
    requires v6.Lawful() && InRange(cfg) && i < |cfg.peers|
    ensures AfterRemoval(v6, cfg, i) == "" <==> i == |cfg.peers| - 1 && PeerTail(v6, cfg.peers[i]) == []
    ensures AfterRemoval(v6, cfg, i) != "" ==> Split(AfterRemoval(v6, cfg, i), '\n')[0] != ""
  {
    var tail, b := PeerTail(v6, cfg.peers[i]), cfg.peers[i + 1..];
    assert PeerInRange(cfg.peers[i]);
    TailPrintable(v6, cfg.peers[i]);
    PeersStart(v6, b);
    NothingWritten();
    hide PeerTail, EntriesText, PeersText, Split, Printable, PeerInRange, InRange;
    if tail != [] {
      PrintedStart(tail, PeersText(v6, b));
    } else {
      assert EntriesText([]) + PeersText(v6, b) == PeersText(v6, b);
    }
  }

  lemma PeersStart(v6: V6Codec, b: seq<PeerConfig>)
    ensures b == [] ==> PeersText(v6, b) == ""
    ensures b != [] ==> PeersText(v6, b) != "" && Split(PeersText(v6, b), '\n')[0] != ""
  {
    if b == [] {
      NoPeersText(v6);
    } else {
      var head, flag := PeerHead(b[0]), if b[0].remove then Line(Remove, "true") else "";
      var tail, later := EntriesText(PeerTail(v6, b[0])), PeersText(v6, b[1..]);
      HeadPrintable(b[0]);
      HeadHasKey(b[0]);
      PeersTextAround(v6, b, 0);
      PeerTextParts(v6, b[0]);
      NoPeersText(v6);
      hide PeerHead, PeerTail, PeerText, EntriesText, Line, PeersText, Split, Printable;
      assert b[..0] == [] && b[0 + 1..] == b[1..];
      RegroupHead(EntriesText(head), flag, tail, later);
      PrintedStart(head, flag + tail + later);
    }
  }

  lemma NoPeersText(v6: V6Codec)
    ensures PeersText(v6, []) == ""
  {
  }

  lemma HeadHasKey(p: PeerConfig)
    ensures PeerHead(p) != []
  {
    hide HexEncode, KeyHex;
  }

  lemma RegroupHead(h: string, r: string, t: string, b: string)
    ensures ("" + (h + r + t)) + b == h + (r + t + b)
  {
  }

  lemma PrintedStart(entries: seq<Entry>, rest: string)
    requires entries != [] && Printable(entries)
    ensures EntriesText(entries) + rest != "" && Split(EntriesText(entries) + rest, '\n')[0] != ""
  {
    PrintedLines(entries, rest);
    FirstRendered(entries);
    hide EntriesText, Render, Line;
    LineIsNotBlank(entries[0].0, entries[0].1);
  }

  lemma {:induction false} FirstRendered(entries: seq<Entry>)
    requires entries != []
    ensures Render(entries)[0] == Line(entries[0].0, entries[0].1)
  {
    hide Line;
    if |entries| > 1 {
      FirstRendered(entries[..|entries| - 1]);
    }
  }

  lemma LineHasNoNewline(f: Field, val: string)
    requires f != Unknown && PlainValue(val)
    ensures '\n' !in Line(f, val)
  {
    PlainLine((f, val));
  }

  /**
   A device that stopped at the removal flag of a peer: it has the earlier peers, and the key and preshared key of this
   one.
   */
  function StoppedAt(dev: Dev, cfg: Config, i: nat): Dev {
    var d := ConfigureDevice(dev, cfg);
    if i >= |cfg.peers| then d
    else
      var p := cfg.peers[i];
      var peers := ConfigurePeers(d.peers, AllAsPrinted(cfg.peers[..i]));
      d.(peers := SetPreshared(EnsurePeer(peers, p.publicKey), p.publicKey, p.presharedKey))
  }

  /** The device's answer to a configuration that removes a peer, by what follows the removal flag. */
  lemma RemovalAnswer(v6: V6Codec, dev: Dev, cfg: Config, i: nat)
    requires v6.Lawful() && InRange(cfg) && i < |cfg.peers|
    requires cfg.peers[i].remove && forall p :: p in cfg.peers[..i] ==> !p.remove
    ensures IpcSet(v6, dev, ConfigText(v6, cfg)) ==
            if AfterRemoval(v6, cfg, i) != "" then Answer(StoppedAt(dev, cfg, i), false)
            else var d := ConfigureDevice(dev, cfg);
                 Answer(d.(peers := ConfigurePeers(d.peers, AllAsPrinted(cfg.peers[..i])) - {cfg.peers[i].publicKey}),
                        true)
  {
    var es, line, more := BeforeRemoval(v6, cfg, i), Line(Remove, "true"), AfterRemoval(v6, cfg, i);
    var s0, k := Session(dev, None, false), cfg.peers[i].publicKey;
    TextAroundRemoval(v6, cfg, i);
    BeforeRemovalPrintable(v6, cfg, i);
    BeforeRemovalApplies(v6, dev, cfg, i);
    AfterRemovalStart(v6, cfg, i);
    TrueIsPlain();
    LineHasNoNewline(Remove, "true");
    var s := RunEntries(v6, s0, es).session;
    RemovedPeerGone(ConfigurePeers(ConfigureDevice(dev, cfg).peers, AllAsPrinted(cfg.peers[..i])), k,
                    cfg.peers[i].presharedKey);
    hide ConfigText, BeforeRemoval, AfterRemoval, RunEntries, Line, EntriesText, ConfigureDevice, ConfigurePeers,
      AllAsPrinted, EnsurePeer, SetPreshared, Split, RunLines, Render, Printable, PlainValue;
    PrintedLines(es, line + more);
    SplitAfterPlain(line, more, '\n');
    RunRendered(v6, s0, es, Split(line + more, '\n'));
    if more == "" {
      SplitWithoutSeparator(line, '\n');
      assert line + more == line;
      FinalRemovalStep(v6, s, k);
    } else {
      LongerRemovalStep(v6, s, k, Split(more, '\n')[0], Split(more, '\n')[1..]);
    }
  }

  /** The index of the first removed peer, or the number of peers. */
  function FirstRemoved(ps: seq<PeerConfig>): (i: nat)
    ensures i <= |ps| && (i < |ps| ==> ps[i].remove)
    ensures forall j :: 0 <= j < i ==> !ps[j].remove
  {
    if ps == [] then 0
    else
      var i := FirstRemoved(ps[..|ps| - 1]);
      if i < |ps| - 1 then i
      else if ps[|ps| - 1].remove then |ps| - 1
      else |ps|
  }

  /** Without removals the printed text has the effect of the configuration, except that update-only is not printed. */
  lemma PlainAnswer(v6: V6Codec, dev: Dev, cfg: Config)
    requires v6.Lawful() && InRange(cfg) && forall p :: p in cfg.peers ==> !p.remove
    ensures IpcSet(v6, dev, ConfigText(v6, cfg)) == Answer(Configure(dev, cfg.(peers := AllAsPrinted(cfg.peers))), true)
  {
    var s0, es := Session(dev, None, false), ConfigEntries(v6, cfg);
    DevicePrintable(cfg);
    PeersPrintable(v6, cfg.peers);
    PrintableConcat(DeviceEntries(cfg), PeersEntries(v6, cfg.peers));
    PeersTextIsEntries(v6, cfg.peers);
    EntriesTextConcat(DeviceEntries(cfg), PeersEntries(v6, cfg.peers));
    DeviceApplies(v6, dev, cfg);
    PeersApply(v6, Session(ConfigureDevice(dev, cfg), None, false), cfg.peers);
    RunConcat(v6, s0, DeviceEntries(cfg), PeersEntries(v6, cfg.peers));
    NothingLeft(v6, RunEntries(v6, s0, es).session);
    hide DeviceEntries, PeersEntries, EntriesText, RunEntries, ConfigureDevice, ConfigurePeers, AllAsPrinted, Printable,
      RunLines, Split, Render;
    PrintedLines(es, "");
    assert EntriesText(es) + "" == EntriesText(es);
    RunRendered(v6, s0, es, [""]);
  }

  lemma NothingLeft(v6: V6Codec, s: Session)
    ensures RunLines(v6, s, [""]) == Answer(s.dev, true) && Split("", '\n') == [""]
  {
  }

  /**
   The device takes the whole printed text of a configuration exactly when removed peers stand last and bare, and then
   the text has the effect of the configuration as it is printed. Otherwise the device stops at the first removal flag
   and keeps the effect of what stands before it, so that the peer to be removed is there.
   */
  lemma PrintedConfigApplies(v6: V6Codec, dev: Dev, cfg: Config)
    requires v6.Lawful() && InRange(cfg)
    ensures IpcSet(v6, dev, ConfigText(v6, cfg)) ==
            if RemovalsLast(v6, cfg.peers) then Answer(Configure(dev, cfg.(peers := AllAsPrinted(cfg.peers))), true)
            else Answer(StoppedAt(dev, cfg, FirstRemoved(cfg.peers)), false)
  {
    hide ConfigText, IpcSet, PeerTail, AfterRemoval, InRange, StoppedAt;
    var ps := cfg.peers;
    var i := FirstRemoved(ps);
    if i == |ps| {
      assert ps[..i] == ps;
      PlainAnswer(v6, dev, cfg);
      KeptPeersAreKept(v6, ps);
    } else {
      RemovalAnswer(v6, dev, cfg, i);
      AfterRemovalStart(v6, cfg, i);
      RemovalsLastAt(v6, ps, i);
      if i == |ps| - 1 {
        LastRemovedApplies(dev, cfg);
      }
      hide RemovalsLast, Configure, ConfigurePeers, ConfigureDevice, AllAsPrinted, FirstRemoved;
    }
  }

  /** A configuration whose last peer is removed. */
  lemma LastRemovedApplies(dev: Dev, cfg: Config)
    requires cfg.peers != [] && cfg.peers[|cfg.peers| - 1].remove
    ensures var d, n := ConfigureDevice(dev, cfg), |cfg.peers| - 1;
            Configure(dev, cfg.(peers := AllAsPrinted(cfg.peers))) ==
            d.(peers := ConfigurePeers(d.peers, AllAsPrinted(cfg.peers[..n])) - {cfg.peers[n].publicKey})
  {
    hide ConfigurePeers, ConfigureDevice, AllAsPrinted;
    LastRemoved(ConfigureDevice(dev, cfg).peers, cfg.peers);
    ConfigureDeviceOnly(dev, cfg, AllAsPrinted(cfg.peers));
  }

  lemma RemovalsLastAt(v6: V6Codec, ps: seq<PeerConfig>, i: nat)
    requires i < |ps| && ps[i].remove && forall j :: 0 <= j < i ==> !ps[j].remove
    ensures RemovalsLast(v6, ps) <==> i == |ps| - 1 && PeerTail(v6, ps[i]) == []
  {
    hide PeerTail;
  }

  lemma ConfigureDeviceOnly(dev: Dev, cfg: Config, ps: seq<PeerConfig>)
    ensures ConfigureDevice(dev, cfg.(peers := ps)) == ConfigureDevice(dev, cfg)
  {
  }

  lemma LastRemoved(peers: Peers, ps: seq<PeerConfig>)
    requires ps != [] && ps[|ps| - 1].remove
    ensures ConfigurePeers(peers, AllAsPrinted(ps)) ==
            ConfigurePeers(peers, AllAsPrinted(ps[..|ps| - 1])) - {ps[|ps| - 1].publicKey}
  {
    var r := AllAsPrinted(ps);
    assert r[..|r| - 1] == AllAsPrinted(ps[..|ps| - 1]);
  }

  // ---- one peer, whatever its values ----

  lemma {:induction false} SignIsNoNumber(s: string)
    ensures ParseNat("-" + s) == None
  {
    if s != "" {
      assert ("-" + s)[..|s|] == "-" + s[..|s| - 1];
      SignIsNoNumber(s[..|s| - 1]);
    }
  }

  lemma OutOfRange(n: int, max: int)
    requires !(0 <= n <= max) && max >= 0
    ensures ReadRange(PrintInt(n), max) == None
    ensures ParseNat(PrintInt(n)).Some? ==> ParseNat(PrintInt(n)).value > max
    ensures ':' !in PrintInt(n)
  {
    NatRoundTrip(if n < 0 then -n else n);
    if n < 0 {
      SignIsNoNumber(PrintNat(-n));
    }
  }

  /** An endpoint whose port does not fit 16 bits is not read. */
  lemma BadPort(v6: V6Codec, e: UdpAddr)
    requires v6.Lawful() && !(0 <= e.port <= MAX_PORT)
    ensures ParseAddrPort(v6, EndpointText(v6, e)) == None
  {
    hide PrintInt, AddrText, UnmapAddr, ParseAddrPort, CutLast, ParseNat;
    OutOfRange(e.port, MAX_PORT);
    var ip := UnmapAddr(e.ip);
    var a, port := AddrText(v6, ip), PrintInt(e.port);
    var host := if IsV4(ip) then a else "[" + a + "]";
    assert EndpointText(v6, e) == host + [':'] + port;
    CutLastAt(host, ':', port);
    PortUnread(v6, EndpointText(v6, e), host, port);
  }

  lemma PortUnread(v6: V6Codec, s: string, host: string, port: string)
    requires CutLast(s, ':') == Some((host, port)) && (ParseNat(port).Some? ==> ParseNat(port).value > MAX_PORT)
    ensures ParseAddrPort(v6, s) == None
  {
    hide CutLast, ParseAddr, ParseNat;
  }

  lemma EndpointStops(v6: V6Codec, s: Session, k: Key, e: Option<UdpAddr>)
    requires v6.Lawful() && s.current == Some(k) && !PortInRange(e)
    ensures RunEntries(v6, s, Opt(Endpoint, AddressText(v6, e))) == Stopped(s.dev)
  {
    hide RunEntries, EndpointText, ParseAddrPort;
    OptApply(v6, s, Endpoint, AddressText(v6, e));
    BadPort(v6, e.value);
  }

  lemma KeepaliveStops(v6: V6Codec, s: Session, k: Key, d: Option<int>)
    requires s.current == Some(k) && !KeepaliveInRange(d)
    ensures RunEntries(v6, s, Opt(Keepalive, SecondsText(d))) == Stopped(s.dev)
  {
    hide RunEntries, PrintInt, WholeSeconds, ReadRange;
    OptApply(v6, s, Keepalive, SecondsText(d));
    OutOfRange(WholeSeconds(d.value), MAX_PORT);
  }

  /** The tail of a printed peer stops at the first value that does not fit. */
  lemma TailStops(v6: V6Codec, s: Session, p: PeerConfig)
    requires v6.Lawful() && !PeerInRange(p) && s.current == Some(p.publicKey)
    ensures var k := p.publicKey;
            var peers := AllowAll(ClearAllowed(s.dev.peers, k, p.replaceAllowedIPs), k, UnmappedAll(p.allowedIPs));
            RunEntries(v6, s, PeerTail(v6, p)) ==
            Stopped(s.dev.(peers := if PortInRange(p.endpoint) then SetEndpoint(peers, k, p.endpoint) else peers))
  {
    hide RunEntries, Flag, Opt, AllowedEntries, ClearAllowed, AllowAll, SetEndpoint, AddressText, SecondsText,
      PortInRange, KeepaliveInRange;
    var k := p.publicKey;
    var r, a := Flag(ReplaceAllowedIPs, p.replaceAllowedIPs), AllowedEntries(v6, p.allowedIPs);
    var e, d := Opt(Endpoint, AddressText(v6, p.endpoint)), Opt(Keepalive, SecondsText(p.keepalive));
    var s1 := s.With(ClearAllowed(s.dev.peers, k, p.replaceAllowedIPs));
    var s2 := s1.With(AllowAll(s1.dev.peers, k, UnmappedAll(p.allowedIPs)));
    FlagApply(v6, s, k, p.replaceAllowedIPs);
    AllowedApply(v6, s1, k, p.allowedIPs);
    RunConcat(v6, s, r, a);
    RunConcat(v6, s, r + a, e);
    RunConcat(v6, s, r + a + e, d);
    if PortInRange(p.endpoint) {
      EndpointApplies(v6, s2, k, p.endpoint);
      KeepaliveStops(v6, s2.With(SetEndpoint(s2.dev.peers, k, p.endpoint)), k, p.keepalive);
    } else {
      EndpointStops(v6, s2, k, p.endpoint);
    }
  }

  /** What a device makes of the text of one peer that is not removed: everything before the first unfit value. */
  function PeerAnswer(dev: Dev, p: PeerConfig): Answer {
    var q := AsPrinted(p);
    if !PortInRange(p.endpoint) then
      Answer(dev.(peers := ConfigurePeer(dev.peers, q.(endpoint := None, keepalive := None))), false)
    else if !KeepaliveInRange(p.keepalive) then
      Answer(dev.(peers := ConfigurePeer(dev.peers, q.(keepalive := None))), false)
    else Answer(dev.(peers := ConfigurePeer(dev.peers, q)), true)
  }

  lemma PeerStops(v6: V6Codec, s: Session, p: PeerConfig)
    requires v6.Lawful() && !PeerInRange(p) && !p.remove
    ensures RunEntries(v6, s, PeerEntries(v6, p)) == Stopped(PeerAnswer(s.dev, p).dev)
  {
    var k := p.publicKey;
    var t := Session(s.dev.(peers := SetPreshared(EnsurePeer(s.dev.peers, k), k, p.presharedKey)),
                     Some(k), k !in s.dev.peers);
    hide RunEntries, PeerHead, PeerTail, EnsurePeer, SetPreshared, ClearAllowed, AllowAll, KeepaliveInRange,
      PortInRange, UnmappedAll;
    HeadApplies(v6, s, p);
    TailStops(v6, t, p);
    RunConcat(v6, s, PeerHead(p), PeerTail(v6, p));
  }

  lemma PeerAnswerInRange(dev: Dev, p: PeerConfig)
    ensures PeerAnswer(dev, p).ok <==> PeerInRange(p)
    ensures PeerInRange(p) ==> PeerAnswer(dev, p).dev == dev.(peers := ConfigurePeer(dev.peers, AsPrinted(p)))
  {
    hide ConfigurePeer, PortInRange, KeepaliveInRange;
  }

  /** The device's answer to the text of a configuration of one peer that is not removed, for all its values. */
  lemma OnePeerAnswer(v6: V6Codec, dev: Dev, p: PeerConfig)
    requires v6.Lawful() && !p.remove
    ensures IpcSet(v6, dev, ConfigText(v6, Config(None, None, None, false, [p]))) == PeerAnswer(dev, p)
  {
    var cfg := Config(None, None, None, false, [p]);
    var s0, es := Session(dev, None, false), PeerEntries(v6, p);
    PeerAnswerInRange(dev, p);
    OnePeerText(v6, p);
    OnePeerEntriesText(v6, p);
    HeadPrintable(p);
    TailPrintable(v6, p);
    PrintableConcat(PeerHead(p), PeerTail(v6, p));
    if PeerInRange(p) {
      PeerApplies(v6, s0, p);
      NothingLeft(v6, RunEntries(v6, s0, es).session);
    } else {
      PeerStops(v6, s0, p);
    }
    hide EntriesText, RunEntries, PeerAnswer, PeerHead, PeerTail, PeerText, PeersText, Printable, RunLines, Split,
      Render, PeerInRange, ConfigurePeer;
    NoDeviceText(v6, cfg);
    PrintedLines(es, "");
    assert EntriesText(es) + "" == EntriesText(es);
    RunRendered(v6, s0, es, [""]);
  }

  lemma OnePeerEntriesText(v6: V6Codec, p: PeerConfig)
    requires !p.remove
    ensures PeerText(v6, p) == EntriesText(PeerEntries(v6, p))
  {
    hide EntriesText, PeerHead, PeerTail;
    EntriesTextConcat(PeerHead(p), PeerTail(v6, p));
    assert EntriesText(PeerHead(p)) + "" == EntriesText(PeerHead(p));
  }

  lemma NoDeviceText(v6: V6Codec, cfg: Config)
    requires cfg.privateKey.None? && cfg.listenPort.None? && cfg.firewallMark.None? && !cfg.replacePeers
    ensures ConfigText(v6, cfg) == PeersText(v6, cfg.peers)
  {
    hide PeersText;
    assert DeviceEntries(cfg) == [];
    assert "" + PeersText(v6, cfg.peers) == PeersText(v6, cfg.peers);
  }
}
