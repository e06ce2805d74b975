/** WireGuard keys, configurations and the two kinds of statistics that the configurers report. */
module Wg {
  import opened Wrappers
  import opened Encodings
  import opened Net

  type Key = k: seq<byte> | |k| == 32 witness seq(32, i => 0)

  function ZeroKey(): Key {
    seq(32, i => 0)
  }

  /** wgtypes.Key.String */
  function KeyText(k: Key): string {
    Base64Encode(k)
  }

  /** wgtypes.ParseKey */
  function ParseKey(s: string): Option<Key> {
    match Base64Decode(s)
    case Some(b) => if |b| == 32 then Some(b) else None
    case None => None
  }

  /** hexToWireguardKey */
  function HexKey(s: string): Option<Key> {
    match HexDecode(s)
    case Some(b) => if |b| == 32 then Some(b) else None
    case None => None
  }

  lemma KeyTextRoundTrip(k: Key)
    ensures ParseKey(KeyText(k)) == Some(k)
    ensures HexKey(HexEncode(k)) == Some(k)
  {
    Base64RoundTrip(k);
    HexRoundTrip(k);
  }

  const NANOS: int := 1_000_000_000

  /** int(d.Seconds()): whole seconds, truncated toward zero. */
  function WholeSeconds(d: int): int {
    if d >= 0 then d / NANOS else -(-d / NANOS)
  }

  /** wgtypes.PeerConfig; the keep-alive interval is in nanoseconds. */
  datatype PeerConfig = PeerConfig(
    publicKey: Key,
    remove: bool,
    updateOnly: bool,
    presharedKey: Option<Key>,
    endpoint: Option<UdpAddr>,
    keepalive: Option<int>,
    replaceAllowedIPs: bool,
    allowedIPs: seq<Prefix>)

  /** wgtypes.Config */
  datatype Config = Config(
    privateKey: Option<Key>,
    listenPort: Option<int>,
    firewallMark: Option<int>,
    replacePeers: bool,
    peers: seq<PeerConfig>)

  /** A peer of a full status; the zero time is None. */
  datatype Peer = Peer(
    publicKey: string,
    endpoint: StatusEndpoint,
    allowedIPs: seq<Prefix>,
    txBytes: int,
    rxBytes: int,
    lastHandshake: Option<int>,
    presharedKey: bool)

  const NO_ENDPOINT := StatusEndpoint(None, 0)

  /** A full status; the private key stands for the public key that the original derives from it. */
  datatype Stats = Stats(
    deviceName: string,
    privateKey: Option<Key>,
    listenPort: int,
    fwMark: int,
    peers: seq<Peer>)

  /** The counters of one peer. */
  datatype WGStats = WGStats(lastHandshake: Option<int>, txBytes: int, rxBytes: int)

  function CountersOf(p: Peer): WGStats {
    WGStats(p.lastHandshake, p.txBytes, p.rxBytes)
  }

  /** toLastHandshake on a number of seconds: the epoch means that no handshake took place. */
  function HandshakeTime(sec: int): Option<int> {
    if sec == 0 then None else Some(sec)
  }
}
