/**
 The two scanners of go/iface/configurer/usp.go that read a device dump: parseStatus, which collects every
 field of every peer, and parseTransfers, which collects counters by key. Each is proved to compute what the
 peer blocks of the dump say, and so the two agree.
 */
module Status {
  import opened Wrappers
  import opened Encodings
  import opened Text
  import opened Net
  import opened Wg
  import opened UapiText

  // ---- what a block of a dump says ----

  /** The last readable number among the values of a key, or zero. */
  function LastInt(vals: seq<string>): int {
    if vals == [] then 0
    else match ParseInt64(vals[|vals| - 1])
      case Some(n) => n
      case None => LastInt(vals[..|vals| - 1])
  }

  /** The last readable endpoint among the values of a key. */
  function LastEndpoint(v6: V6Codec, vals: seq<string>): StatusEndpoint {
    if vals == [] then NO_ENDPOINT
    else match ParseStatusEndpoint(v6, vals[|vals| - 1])
      case Some(e) => e
      case None => LastEndpoint(v6, vals[..|vals| - 1])
  }

  /** The readable networks among the values of a key, in order. */
  function Networks(v6: V6Codec, vals: seq<string>): seq<Prefix> {
    if vals == [] then []
    else
      var front := Networks(v6, vals[..|vals| - 1]);
      match ParseCIDR(v6, vals[|vals| - 1])
      case Some(p) => front + [p]
      case None => front
  }

  /** Sixty-four zeros. */
  function ZeroKeyHex(): string {
    seq(64, i => '0')
  }

  predicate MeansPreshared(val: string) {
    val != "" && val != ZeroKeyHex()
  }

  /** Some value of a key is a real preshared key. */
  predicate AnyPreshared(vals: seq<string>) {
    vals != [] && (MeansPreshared(vals[|vals| - 1]) || AnyPreshared(vals[..|vals| - 1]))
  }

  lemma LastIntOneMore(vals: seq<string>, v: string)
    ensures LastInt(vals + [v]) == match ParseInt64(v) case Some(n) => n case None => LastInt(vals)
  {
    assert (vals + [v])[..|vals|] == vals;
  }

  lemma OneMoreValue(v6: V6Codec, vals: seq<string>, v: string)
    ensures LastEndpoint(v6, vals + [v]) ==
            (match ParseStatusEndpoint(v6, v) case Some(e) => e case None => LastEndpoint(v6, vals))
    ensures Networks(v6, vals + [v]) ==
            (match ParseCIDR(v6, v) case Some(p) => Networks(v6, vals) + [p] case None => Networks(v6, vals))
    ensures AnyPreshared(vals + [v]) <==> MeansPreshared(v) || AnyPreshared(vals)
  {
    hide ParseStatusEndpoint, ParseCIDR, MeansPreshared;
    assert (vals + [v])[..|vals|] == vals;
  }

  /** The base64 text of the key that opens a block. */
  function BlockKey(block: seq<Entry>): string {
    if block == [] then ""
    else match HexDecode(block[0].1)
      case Some(bytes) => Base64Encode(bytes)
      case None => ""
  }

  /** The peer that a block describes. */
  function PeerOf(v6: V6Codec, block: seq<Entry>): Peer {
    Peer(BlockKey(block),
         LastEndpoint(v6, Values(block, Endpoint)),
         Networks(v6, Values(block, AllowedIP)),
         LastInt(Values(block, TxBytes)),
         LastInt(Values(block, RxBytes)),
         HandshakeTime(LastInt(Values(block, HandshakeSec))),
         AnyPreshared(Values(block, PresharedKey)))
  }

  predicate ValidKeys(entries: seq<Entry>) {
    forall e :: e in entries && e.0 == PublicKey ==> HexKey(e.1).Some?
  }

  /** The peers that the blocks of a dump describe. */
  function PeersOf(v6: V6Codec, blocks: seq<seq<Entry>>): (peers: seq<Peer>)
    ensures |peers| == |blocks|
  {
    if blocks == [] then []
    else PeersOf(v6, blocks[..|blocks| - 1]) + [PeerOf(v6, blocks[|blocks| - 1])]
  }

  lemma {:induction false} PeersOfAt(v6: V6Codec, blocks: seq<seq<Entry>>, i: nat)
    requires i < |blocks|
    ensures PeersOf(v6, blocks)[i] == PeerOf(v6, blocks[i])
  {
    hide PeerOf;
    if i < |blocks| - 1 {
      PeersOfAt(v6, blocks[..|blocks| - 1], i);
    }
  }

  // ---- parseStatus ----

  /** One assignment inside the current peer. */
  function PeerStep(v6: V6Codec, p: Peer, e: Entry): Peer {
    match e.0
    case Endpoint =>
      (match ParseStatusEndpoint(v6, e.1) case Some(ep) => p.(endpoint := ep) case None => p)
    case AllowedIP =>
      (match ParseCIDR(v6, e.1) case Some(n) => p.(allowedIPs := p.allowedIPs + [n]) case None => p)
    case TxBytes => (match ParseInt64(e.1) case Some(n) => p.(txBytes := n) case None => p)
    case RxBytes => (match ParseInt64(e.1) case Some(n) => p.(rxBytes := n) case None => p)
    case HandshakeSec =>
      (match ParseInt64(e.1) case Some(n) => p.(lastHandshake := HandshakeTime(n)) case None => p)
    case PresharedKey => if MeansPreshared(e.1) then p.(presharedKey := true) else p
    case _ => p
  }

  /** The state of the scan: what was collected, and the peer being read. */
  datatype Scan = Scan(stats: Stats, current: Option<Peer>) {
    function Saved(): Stats {
      match current
      case Some(p) => stats.(peers := stats.peers + [p])
      case None => stats
    }
  }

  function NewPeer(k: Key): Peer {
    Peer(KeyText(k), NO_ENDPOINT, [], 0, 0, None, false)
  }

  function StatusStep(v6: V6Codec, s: Scan, e: Entry): Scan {
    match e.0
    case PrivateKey =>
      (match HexKey(e.1) case Some(k) => s.(stats := s.stats.(privateKey := Some(k))) case None => s)
    case ListenPort =>
      (match ParseInt64(e.1) case Some(n) => s.(stats := s.stats.(listenPort := n)) case None => s)
    case FwMark =>
      (match ParseInt64(e.1) case Some(n) => s.(stats := s.stats.(fwMark := n)) case None => s)
    case PublicKey =>
      (match HexKey(e.1)
       case Some(k) => Scan(s.Saved(), Some(NewPeer(k)))
       case None => s.(stats := s.Saved()))
    case _ =>
      match s.current
      case Some(p) => s.(current := Some(PeerStep(v6, p, e)))
      case None => s
  }

  function StatusScan(v6: V6Codec, device: string, entries: seq<Entry>): Scan {
    if entries == [] then Scan(Stats(device, None, 0, 0, []), None)
    else StatusStep(v6, StatusScan(v6, device, entries[..|entries| - 1]), entries[|entries| - 1])
  }

  /** The status read from a dump, for any text at all. */
  function StatusOf(v6: V6Codec, device: string, text: string): Stats {
    StatusScan(v6, device, TextEntries(TrimSpace(text))).Saved()
  }

  lemma NothingScanned(v6: V6Codec, device: string)
    ensures StatusScan(v6, device, Entries([])) == Scan(Stats(device, None, 0, 0, []), None)
  {
  }

  lemma ScanOneMore(v6: V6Codec, device: string, lines: seq<string>, i: nat)
    requires i < |lines|
    ensures StatusScan(v6, device, Entries(lines[..i + 1])) ==
            match EntryOf(lines[i])
            case None => StatusScan(v6, device, Entries(lines[..i]))
            case Some(e) => StatusStep(v6, StatusScan(v6, device, Entries(lines[..i])), e)
  {
    hide EntryOf, StatusStep, TransferStep;
    assert lines[..i + 1][..i] == lines[..i];
    match EntryOf(lines[i])
    case None =>
    case Some(e) =>
      var es := Entries(lines[..i + 1]);
      assert es[..|es| - 1] == Entries(lines[..i]);
  }

  method ParseStatus(v6: V6Codec, deviceName: string, ipcStr: string) returns (stats: Stats)
    ensures stats == StatusOf(v6, deviceName, ipcStr)
  {
    hide FieldOf, HexKey, ParseInt64, ParseStatusEndpoint, ParseCIDR, MeansPreshared, TrimSpace, StatusScan, Entries,
      Split, Cut;
    NothingScanned(v6, deviceName);
    stats := Stats(deviceName, None, 0, 0, []);
    var currentPeer: Option<Peer> := None;
    var lines := Split(TrimSpace(ipcStr), '\n');
    assert lines[..0] == [];
    for i := 0 to |lines|
      invariant Scan(stats, currentPeer) == StatusScan(v6, deviceName, Entries(lines[..i]))
    {
      ScanOneMore(v6, deviceName, lines, i);
      match Cut(lines[i]) {
        case None =>
          continue;
        case Some((key, val)) =>
          match FieldOf(key) {
            case PrivateKey =>
              var parsed := HexKey(val);
              if parsed.Some? {
                stats := stats.(privateKey := parsed);
              }
            case PublicKey =>
              if currentPeer.Some? {
                stats := stats.(peers := stats.peers + [currentPeer.value]);
              }
              var parsed := HexKey(val);
              if parsed.None? {
                continue;
              }
              currentPeer := Some(NewPeer(parsed.value));
            case ListenPort =>
              var port := ParseInt64(val);
              if port.Some? {
                stats := stats.(listenPort := port.value);
              }
            case FwMark =>
              var mark := ParseInt64(val);
              if mark.Some? {
                stats := stats.(fwMark := mark.value);
              }
            case Endpoint =>
              if currentPeer.None? {
                continue;
              }
              var ep := ParseStatusEndpoint(v6, val);
              if ep.Some? {
                currentPeer := Some(currentPeer.value.(endpoint := ep.value));
              }
            case AllowedIP =>
              if currentPeer.None? {
                continue;
              }
              var network := ParseCIDR(v6, val);
              if network.Some? {
                currentPeer := Some(currentPeer.value.(allowedIPs := currentPeer.value.allowedIPs + [network.value]));
              }
            case TxBytes =>
              if currentPeer.None? {
                continue;
              }
              var n := ParseInt64(val);
              if n.Some? {
                currentPeer := Some(currentPeer.value.(txBytes := n.value));
              }
            case RxBytes =>
              if currentPeer.None? {
                continue;
              }
              var n := ParseInt64(val);
              if n.Some? {
                currentPeer := Some(currentPeer.value.(rxBytes := n.value));
              }
            case HandshakeSec =>
              if currentPeer.None? {
                continue;
              }
              var n := ParseInt64(val);
              if n.Some? {
                currentPeer := Some(currentPeer.value.(lastHandshake := HandshakeTime(n.value)));
              }
            case PresharedKey =>
              if currentPeer.Some? && MeansPreshared(val) {
                currentPeer := Some(currentPeer.value.(presharedKey := true));
              }
            case _ =>
          }
      }
    }
    assert lines[..|lines|] == lines;
    if currentPeer.Some? {
      stats := stats.(peers := stats.peers + [currentPeer.value]);
    }
  }

  lemma ValuesOneMore(block: seq<Entry>, e: Entry, f: Field)
    ensures Values(block + [e], f) == if e.0 == f then Values(block, f) + [e.1] else Values(block, f)
  {
    assert (block + [e])[..|block|] == block;
  }

  lemma IntOneMore(block: seq<Entry>, e: Entry, f: Field)
    ensures LastInt(Values(block + [e], f)) ==
            if e.0 != f then LastInt(Values(block, f))
            else match ParseInt64(e.1) case Some(n) => n case None => LastInt(Values(block, f))
  {
    ValuesOneMore(block, e, f);
    LastIntOneMore(Values(block, f), e.1);
  }

  lemma EndpointOneMore(v6: V6Codec, block: seq<Entry>, e: Entry)
    ensures LastEndpoint(v6, Values(block + [e], Endpoint)) ==
            if e.0 != Endpoint then LastEndpoint(v6, Values(block, Endpoint))
            else match ParseStatusEndpoint(v6, e.1)
              case Some(ep) => ep
              case None => LastEndpoint(v6, Values(block, Endpoint))
  {
    ValuesOneMore(block, e, Endpoint);
    OneMoreValue(v6, Values(block, Endpoint), e.1);
  }

  lemma NetworksOneMore(v6: V6Codec, block: seq<Entry>, e: Entry)
    ensures Networks(v6, Values(block + [e], AllowedIP)) ==
            if e.0 != AllowedIP then Networks(v6, Values(block, AllowedIP))
            else match ParseCIDR(v6, e.1)
              case Some(n) => Networks(v6, Values(block, AllowedIP)) + [n]
              case None => Networks(v6, Values(block, AllowedIP))
  {
    ValuesOneMore(block, e, AllowedIP);
    OneMoreValue(v6, Values(block, AllowedIP), e.1);
  }

  lemma PresharedOneMore(v6: V6Codec, block: seq<Entry>, e: Entry)
    ensures AnyPreshared(Values(block + [e], PresharedKey)) ==
            (AnyPreshared(Values(block, PresharedKey)) || (e.0 == PresharedKey && MeansPreshared(e.1)))
  {
    ValuesOneMore(block, e, PresharedKey);
    OneMoreValue(v6, Values(block, PresharedKey), e.1);
  }

  /** Reading one more line of a block is one step on the peer of the block so far. */
  lemma PeerOfOneMore(v6: V6Codec, block: seq<Entry>, e: Entry)
    requires block != []
    ensures PeerOf(v6, block + [e]) == PeerStep(v6, PeerOf(v6, block), e)
  {
    hide BlockKey, HandshakeTime, LastInt, LastEndpoint, Networks, Values, AnyPreshared, ParseInt64, ParseCIDR,
      ParseStatusEndpoint, MeansPreshared, PeerStep;
    EndpointOneMore(v6, block, e);
    NetworksOneMore(v6, block, e);
    IntOneMore(block, e, TxBytes);
    IntOneMore(block, e, RxBytes);
    IntOneMore(block, e, HandshakeSec);
    PresharedOneMore(v6, block, e);
    KeyOneMore(block, e);
    PeerStepFields(v6, PeerOf(v6, block), e);
  }

  lemma KeyOneMore(block: seq<Entry>, e: Entry)
    requires block != []
    ensures BlockKey(block + [e]) == BlockKey(block)
  {
    hide HexDecode, Base64Encode;
  }

  lemma PeerStepFields(v6: V6Codec, p: Peer, e: Entry)
    ensures var q := PeerStep(v6, p, e);
            q.publicKey == p.publicKey
            && q.endpoint == (match ParseStatusEndpoint(v6, e.1)
                              case Some(ep) => if e.0 == Endpoint then ep else p.endpoint
                              case None => p.endpoint)
            && q.allowedIPs == (match ParseCIDR(v6, e.1)
                                case Some(n) => if e.0 == AllowedIP then p.allowedIPs + [n] else p.allowedIPs
                                case None => p.allowedIPs)
            && (match ParseInt64(e.1)
                case Some(n) =>
                  q.txBytes == (if e.0 == TxBytes then n else p.txBytes)
                  && q.rxBytes == (if e.0 == RxBytes then n else p.rxBytes)
                  && q.lastHandshake == (if e.0 == HandshakeSec then HandshakeTime(n) else p.lastHandshake)
                case None => q.txBytes == p.txBytes && q.rxBytes == p.rxBytes && q.lastHandshake == p.lastHandshake)
            && q.presharedKey == (p.presharedKey || (e.0 == PresharedKey && MeansPreshared(e.1)))
  {
    hide ParseStatusEndpoint, ParseCIDR, ParseInt64, MeansPreshared, HandshakeTime;
  }

  lemma KeyLineHasNoValues(v6: V6Codec, e: Entry)
    requires e.0 == PublicKey
    ensures forall f :: f != PublicKey ==> Values([e], f) == []
    ensures LastInt([]) == 0 && LastEndpoint(v6, []) == NO_ENDPOINT && Networks(v6, []) == [] && !AnyPreshared([])
  {
    assert [] + [e] == [e];
    forall f {
      ValuesOneMore([], e, f);
    }
  }

  lemma PeerOfKeyLine(v6: V6Codec, s: Scan, e: Entry)
    requires e.0 == PublicKey && HexKey(e.1).Some?
    ensures StatusStep(v6, s, e) == Scan(s.Saved(), Some(PeerOf(v6, [e])))
  {
    KeyLineHasNoValues(v6, e);
    hide HexDecode, Base64Encode, Values, LastInt, LastEndpoint, Networks, AnyPreshared, PeerStep, ParseInt64;
  }

  /** The scan has saved every closed block and holds the open one. */
  ghost predicate ScanMatches(v6: V6Codec, s: Scan, blocks: seq<seq<Entry>>) {
    if blocks == [] then s.current.None? && s.stats.peers == []
    else s.current == Some(PeerOf(v6, blocks[|blocks| - 1])) && s.stats.peers == PeersOf(v6, blocks[..|blocks| - 1])
  }

  lemma SavedPeers(v6: V6Codec, s: Scan, blocks: seq<seq<Entry>>)
    requires ScanMatches(v6, s, blocks)
    ensures s.Saved().peers == PeersOf(v6, blocks)
  {
    hide PeerOf;
  }

  lemma {:induction false} ScanFollowsBlocks(v6: V6Codec, device: string, entries: seq<Entry>)
    requires ValidKeys(entries)
    ensures ScanMatches(v6, StatusScan(v6, device, entries), Blocks(entries))
  {
    if entries != [] {
      var front, last := entries[..|entries| - 1], entries[|entries| - 1];
      ScanFollowsBlocks(v6, device, front);
      hide HexKey, PeerOf, PeersOf, WithLast, StatusStep, PeerStep;
      var s, blocks := StatusScan(v6, device, front), Blocks(front);
      if last.0 == PublicKey {
        assert last in entries;
        PeerOfKeyLine(v6, s, last);
        SavedPeers(v6, s, blocks);
        assert (blocks + [[last]])[..|blocks|] == blocks;
      } else {
        OtherStep(v6, s, last);
        if blocks != [] {
          PeerOfOneMore(v6, blocks[|blocks| - 1], last);
        }
      }
    }
  }

  lemma OtherStep(v6: V6Codec, s: Scan, e: Entry)
    requires e.0 != PublicKey
    ensures StatusStep(v6, s, e).stats.peers == s.stats.peers
    ensures StatusStep(v6, s, e).current ==
            match s.current case Some(p) => Some(PeerStep(v6, p, e)) case None => None
  {
  }

  /** The status of a text lists exactly the peers of the blocks of the trimmed text, in order. */
  lemma StatusReadsTrimmed(v6: V6Codec, device: string, text: string)
    requires ValidKeys(TextEntries(TrimSpace(text)))
    ensures StatusOf(v6, device, text).peers == PeersOf(v6, Blocks(TextEntries(TrimSpace(text))))
  {
    hide TrimSpace, StatusScan, TextEntries, Blocks, PeersOf, ValidKeys, ScanMatches;
    var entries := TextEntries(TrimSpace(text));
    ScanFollowsBlocks(v6, device, entries);
    SavedPeers(v6, StatusScan(v6, device, entries), Blocks(entries));
  }

  /** The status of a dump with valid keys lists exactly the peers of its blocks, in order. */
  lemma StatusReadsBlocks(v6: V6Codec, device: string, text: string)
    requires TightLines(text) && ValidKeys(TextEntries(text))
    ensures StatusOf(v6, device, text).peers == PeersOf(v6, Blocks(TextEntries(text)))
  {
    TrimKeepsEntries(text);
    ScanFollowsBlocks(v6, device, TextEntries(text));
    SavedPeers(v6, StatusScan(v6, device, TextEntries(text)), Blocks(TextEntries(text)));
  }

  /** The last readable key among the values of a key. */
  function LastKey(vals: seq<string>): Option<Key> {
    if vals == [] then None
    else match HexKey(vals[|vals| - 1])
      case Some(k) => Some(k)
      case None => LastKey(vals[..|vals| - 1])
  }

  lemma LastKeyOneMore(vals: seq<string>, v: string)
    ensures LastKey(vals + [v]) == match HexKey(v) case Some(k) => Some(k) case None => LastKey(vals)
  {
    hide HexKey;
    assert (vals + [v])[..|vals|] == vals;
  }

  /** The device fields are the last readable values of the whole dump. */
  lemma {:induction false} ScanDeviceFields(v6: V6Codec, device: string, entries: seq<Entry>)
    ensures var s := StatusScan(v6, device, entries).stats;
            s.deviceName == device && s.listenPort == LastInt(Values(entries, ListenPort))
            && s.fwMark == LastInt(Values(entries, FwMark))
            && s.privateKey == LastKey(Values(entries, PrivateKey))
  {
    if entries != [] {
      var front, last := entries[..|entries| - 1], entries[|entries| - 1];
      ScanDeviceFields(v6, device, front);
      assert entries == front + [last];
      var scan := StatusScan(v6, device, front);
      assert StatusScan(v6, device, entries) == StatusStep(v6, scan, last);
      IntOneMore(front, last, ListenPort);
      IntOneMore(front, last, FwMark);
      ValuesOneMore(front, last, PrivateKey);
      LastKeyOneMore(Values(front, PrivateKey), last.1);
      DeviceStep(v6, scan, last);
      hide Values, LastInt, LastKey, ParseInt64, HexKey, StatusStep, StatusScan;
    }
  }

  lemma DeviceStep(v6: V6Codec, s: Scan, e: Entry)
    ensures var t := StatusStep(v6, s, e).stats;
            t.deviceName == s.stats.deviceName
            && t.listenPort == (if e.0 == ListenPort && ParseInt64(e.1).Some? then ParseInt64(e.1).value
                                else s.stats.listenPort)
            && t.fwMark == (if e.0 == FwMark && ParseInt64(e.1).Some? then ParseInt64(e.1).value else s.stats.fwMark)
            && t.privateKey == (if e.0 == PrivateKey && HexKey(e.1).Some? then HexKey(e.1) else s.stats.privateKey)
  {
    hide ParseInt64, HexKey, PeerStep;
  }

  // ---- parseTransfers ----

  datatype TransferError = BadPeerID | BadHandshake | BadRxBytes | BadTxBytes

  datatype TransferScan = TransferScan(stats: map<string, WGStats>, current: Option<(string, WGStats)>) {
    function Put(key: string, s: WGStats): TransferScan {
      TransferScan(stats[key := s], Some((key, s)))
    }
  }

  const NO_TRAFFIC := WGStats(None, 0, 0)

  function TransferStep(s: TransferScan, e: Entry): Result<TransferScan, TransferError> {
    if e.0 == PublicKey then
      match HexDecode(e.1)
      case None => Failure(BadPeerID)
      case Some(bytes) => Success(s.Put(Base64Encode(bytes), NO_TRAFFIC))
    else match s.current
      case None => Success(s)
      case Some((key, now)) =>
        match (e.0, ParseInt64(e.1))
        case (HandshakeSec, None) => Failure(BadHandshake)
        case (HandshakeSec, Some(n)) => Success(s.Put(key, now.(lastHandshake := HandshakeTime(n))))
        case (RxBytes, None) => Failure(BadRxBytes)
        case (RxBytes, Some(n)) => Success(s.Put(key, now.(rxBytes := n)))
        case (TxBytes, None) => Failure(BadTxBytes)
        case (TxBytes, Some(n)) => Success(s.Put(key, now.(txBytes := n)))
        case _ => Success(s)
  }

  function TransferScanOf(entries: seq<Entry>): Result<TransferScan, TransferError> {
    if entries == [] then Success(TransferScan(map[], None))
    else
      var s :- TransferScanOf(entries[..|entries| - 1]);
      TransferStep(s, entries[|entries| - 1])
  }

  function TrimmedLines(lines: seq<string>): (trimmed: seq<string>)
    ensures |trimmed| == |lines|
  {
    seq(|lines|, i requires 0 <= i < |lines| => TrimSpace(lines[i]))
  }

  /** The counters read from a dump, for any text at all. */
  function TransfersOf(text: string): Result<map<string, WGStats>, TransferError> {
    var s :- TransferScanOf(Entries(TrimmedLines(Split(text, '\n'))));
    Success(s.stats)
  }

  lemma NothingTransferred()
    ensures TransferScanOf(Entries([])) == Success(TransferScan(map[], None))
  {
  }

  /** One more line: a failed scan stays failed. */
  lemma TransferOneMore(lines: seq<string>, i: nat)
    requires i < |lines|
    ensures TransferScanOf(Entries(lines[..i + 1])) ==
            match (TransferScanOf(Entries(lines[..i])), EntryOf(lines[i]))
            case (Success(s), Some(e)) => TransferStep(s, e)
            case (r, _) => r
  {
    hide EntryOf, StatusStep, TransferStep;
    assert lines[..i + 1][..i] == lines[..i];
    match EntryOf(lines[i])
    case None =>
    case Some(e) =>
      var es := Entries(lines[..i + 1]);
      assert es[..|es| - 1] == Entries(lines[..i]);
  }

  lemma {:induction false} TransferFailureStays(lines: seq<string>, i: nat)
    requires i <= |lines| && TransferScanOf(Entries(lines[..i])).Failure?
    ensures TransferScanOf(Entries(lines)) == TransferScanOf(Entries(lines[..i]))
    decreases |lines| - i
  {
    hide EntryOf, TransferStep, Entries, TransferScanOf;
    if i < |lines| {
      TransferOneMore(lines, i);
      TransferFailureStays(lines, i + 1);
    } else {
      assert lines[..i] == lines;
    }
  }

  method ParseTransfers(ipc: string) returns (r: Result<map<string, WGStats>, TransferError>)
    ensures r == TransfersOf(ipc)
  {
    hide FieldOf, FieldName, HexDecode, ParseInt64, Base64Encode, TrimSpace, TransferScanOf, Entries, Split, Cut;
    NothingTransferred();
    var stats: map<string, WGStats> := map[];
    var currentKey, currentStats, hasPeer := "", NO_TRAFFIC, false;
    var lines := Split(ipc, '\n');
    ghost var trimmed := TrimmedLines(lines);
    assert trimmed[..0] == [];
    for i := 0 to |lines|
      invariant TransferScanOf(Entries(trimmed[..i])) ==
                Success(TransferScan(stats, if hasPeer then Some((currentKey, currentStats)) else None))
    {
      var line := TrimSpace(lines[i]);
      TransferOneMore(trimmed, i);
      EntryByPrefix(PublicKey, line);
      if TransferScanOf(Entries(trimmed[..i + 1])).Failure? {
        TransferFailureStays(trimmed, i + 1);
      }
      if FieldName(PublicKey) + "=" <= line {
        var peerID := line[|FieldName(PublicKey)| + 1..];
        var h := HexDecode(peerID);
        if h.None? {
          return Failure(BadPeerID);
        }
        currentKey := Base64Encode(h.value);
        currentStats := NO_TRAFFIC;
        hasPeer := true;
        stats := stats[currentKey := currentStats];
        continue;
      }
      if !hasPeer {
        continue;
      }
      var key := Cut(line);
      if key.None? {
        continue;
      }
      match FieldOf(key.value.0) {
        case HandshakeSec =>
          var hs := ParseInt64(key.value.1);
          if hs.None? {
            return Failure(BadHandshake);
          }
          currentStats := currentStats.(lastHandshake := HandshakeTime(hs.value));
          stats := stats[currentKey := currentStats];
        case RxBytes =>
          var n := ParseInt64(key.value.1);
          if n.None? {
            return Failure(BadRxBytes);
          }
          currentStats := currentStats.(rxBytes := n.value);
          stats := stats[currentKey := currentStats];
        case TxBytes =>
          var n := ParseInt64(key.value.1);
          if n.None? {
            return Failure(BadTxBytes);
          }
          currentStats := currentStats.(txBytes := n.value);
          stats := stats[currentKey := currentStats];
        case _ =>
      }
    }
    assert trimmed[..|lines|] == trimmed;
    r := Success(stats);
  }

  // ---- the two scanners agree ----

  predicate IsCounter(f: Field) {
    f == HandshakeSec || f == RxBytes || f == TxBytes
  }

  /** Every key is readable and every counter that belongs to a peer is a number. */
  predicate Countable(entries: seq<Entry>) {
    && (forall e :: e in entries && e.0 == PublicKey ==> HexDecode(e.1).Some?)
    && (forall b, e :: b in Blocks(entries) && e in b && IsCounter(e.0) ==> ParseInt64(e.1).Some?)
  }

  /** The counters that a block gives. */
  function CountersIn(block: seq<Entry>): WGStats {
    WGStats(HandshakeTime(LastInt(Values(block, HandshakeSec))),
            LastInt(Values(block, TxBytes)), LastInt(Values(block, RxBytes)))
  }

  lemma CountersOneMore(block: seq<Entry>, e: Entry)
    requires IsCounter(e.0) ==> ParseInt64(e.1).Some?
    ensures CountersIn(block + [e]) ==
            match e.0
            case HandshakeSec => CountersIn(block).(lastHandshake := HandshakeTime(ParseInt64(e.1).value))
            case RxBytes => CountersIn(block).(rxBytes := ParseInt64(e.1).value)
            case TxBytes => CountersIn(block).(txBytes := ParseInt64(e.1).value)
            case _ => CountersIn(block)
  {
    ValuesOneMore(block, e, HandshakeSec);
    ValuesOneMore(block, e, TxBytes);
    ValuesOneMore(block, e, RxBytes);
    LastIntOneMore(Values(block, e.0), e.1);
    hide Values, LastInt, ParseInt64, HandshakeTime;
  }

  /** The map that the blocks define: a later block with the same key replaces an earlier one. */
  function CountersByKey(blocks: seq<seq<Entry>>): map<string, WGStats> {
    if blocks == [] then map[]
    else
      var last := blocks[|blocks| - 1];
      CountersByKey(blocks[..|blocks| - 1])[BlockKey(last) := CountersIn(last)]
  }

  lemma CountableFront(entries: seq<Entry>)
    requires entries != [] && Countable(entries)
    ensures Countable(entries[..|entries| - 1])
  {
    hide HexDecode, ParseInt64;
    var front, last := entries[..|entries| - 1], entries[|entries| - 1];
    var before: seq<seq<Entry>>, after: seq<seq<Entry>> := Blocks(front), Blocks(entries);
    forall b, e | b in before && e in b && IsCounter(e.0)
      ensures ParseInt64(e.1).Some?
    {
      var i :| 0 <= i < |before| && before[i] == b;
      assert i < |after| && (forall x :: x in before[i] ==> x in after[i]);
      assert after[i] in after;
    }
  }

  /** The transfer scan has stored every block, and its current key and counters are those of the open one. */
  ghost predicate TransferMatches(s: TransferScan, blocks: seq<seq<Entry>>) {
    && s.stats == CountersByKey(blocks)
    && s.current == if blocks == [] then None
                    else Some((BlockKey(blocks[|blocks| - 1]), CountersIn(blocks[|blocks| - 1])))
  }

  lemma TransferKeyStep(s: TransferScan, blocks: seq<seq<Entry>>, e: Entry)
    requires TransferMatches(s, blocks) && e.0 == PublicKey && HexDecode(e.1).Some?
    ensures TransferStep(s, e).Success? && TransferMatches(TransferStep(s, e).value, blocks + [[e]])
  {
    hide HexDecode, Base64Encode, ParseInt64, LastInt, CountersIn;
    assert (blocks + [[e]])[..|blocks|] == blocks;
    KeyLineHasNoCounters(e);
  }

  lemma KeyLineHasNoCounters(e: Entry)
    requires e.0 == PublicKey
    ensures CountersIn([e]) == NO_TRAFFIC
  {
    assert [] + [e] == [e];
    ValuesOneMore([], e, HandshakeSec);
    ValuesOneMore([], e, TxBytes);
    ValuesOneMore([], e, RxBytes);
  }

  lemma TransferCounterStep(s: TransferScan, blocks: seq<seq<Entry>>, e: Entry)
    requires TransferMatches(s, blocks) && e.0 != PublicKey && blocks != [] && blocks[|blocks| - 1] != []
    requires IsCounter(e.0) ==> ParseInt64(e.1).Some?
    ensures TransferStep(s, e).Success?
    ensures TransferMatches(TransferStep(s, e).value,
                            WithLast(blocks, blocks[|blocks| - 1] + [e]))
  {
    var open := blocks[|blocks| - 1];
    assert BlockKey(open + [e]) == BlockKey(open);
    CountersStep(s, open, e);
    CountersReplaced(blocks, open + [e]);
    hide BlockKey, CountersIn, CountersByKey, TransferStep, WithLast;
  }

  lemma CountersStep(s: TransferScan, open: seq<Entry>, e: Entry)
    requires e.0 != PublicKey && (IsCounter(e.0) ==> ParseInt64(e.1).Some?)
    requires s.current == Some((BlockKey(open), CountersIn(open)))
    ensures TransferStep(s, e) ==
            Success(if IsCounter(e.0) then s.Put(BlockKey(open), CountersIn(open + [e])) else s)
    ensures !IsCounter(e.0) ==> CountersIn(open + [e]) == CountersIn(open)
  {
    CountersOneMore(open, e);
    hide BlockKey, CountersIn, ParseInt64, HandshakeTime;
  }

  lemma CountersReplaced(blocks: seq<seq<Entry>>, block: seq<Entry>)
    requires blocks != [] && BlockKey(block) == BlockKey(blocks[|blocks| - 1])
    ensures CountersByKey(WithLast(blocks, block)) == CountersByKey(blocks)[BlockKey(block) := CountersIn(block)]
    ensures CountersIn(block) == CountersIn(blocks[|blocks| - 1]) ==>
              CountersByKey(WithLast(blocks, block)) == CountersByKey(blocks)
  {
    hide BlockKey, CountersIn, WithLast;
  }

  /** The transfer scan succeeds on countable entries, with the map that the blocks define. */
  lemma {:induction false} TransferScanFollowsBlocks(entries: seq<Entry>)
    requires Countable(entries)
    ensures TransferScanOf(entries).Success?
    ensures TransferMatches(TransferScanOf(entries).value, Blocks(entries))
  {
    hide HexDecode, ParseInt64, TransferMatches, TransferStep;
    if entries == [] {
      NothingTransferredMatches();
    } else {
      var front, last := entries[..|entries| - 1], entries[|entries| - 1];
      CountableFront(entries);
      TransferScanFollowsBlocks(front);
      var s := TransferScanOf(front).value;
      var before: seq<seq<Entry>>, after: seq<seq<Entry>> := Blocks(front), Blocks(entries);
      assert last in entries;
      if last.0 == PublicKey {
        TransferKeyStep(s, before, last);
      } else if before != [] {
        assert after[|after| - 1] in after && last in before[|before| - 1] + [last];
        TransferCounterStep(s, before, last);
      } else {
        TransferHeaderStep(s, last);
      }
    }
  }

  lemma NothingTransferredMatches()
    ensures TransferMatches(TransferScan(map[], None), [])
  {
  }

  lemma TransferHeaderStep(s: TransferScan, e: Entry)
    requires TransferMatches(s, []) && e.0 != PublicKey
    ensures TransferStep(s, e) == Success(s)
  {
  }

  /** A scan that fails at its last entry was given an unreadable key or counter there. */
  lemma TransferStepFails(s: TransferScan, blocks: seq<seq<Entry>>, e: Entry)
    requires TransferMatches(s, blocks)
    ensures TransferStep(s, e).Failure? <==>
            (e.0 == PublicKey && HexDecode(e.1).None?)
            || (blocks != [] && IsCounter(e.0) && ParseInt64(e.1).None?)
  {
    hide HexDecode, ParseInt64, CountersByKey, CountersIn;
  }

  lemma CountableExtends(entries: seq<Entry>)
    requires entries != [] && Countable(entries[..|entries| - 1])
    requires var last := entries[|entries| - 1];
             if last.0 == PublicKey then HexDecode(last.1).Some?
             else Blocks(entries[..|entries| - 1]) != [] && IsCounter(last.0) ==> ParseInt64(last.1).Some?
    ensures Countable(entries)
  {
    hide HexDecode, ParseInt64, Blocks, IsCounter;
    var front, last := entries[..|entries| - 1], entries[|entries| - 1];
    assert entries == front + [last];
    forall b: seq<Entry>, e: Entry | b in Blocks(entries) && e in b && IsCounter(e.0)
      ensures ParseInt64(e.1).Some?
    {
      BlockOfLonger(front, last, b);
      KeyIsNoCounter();
      NoBlockWithoutKey(front, last, b);
    }
  }

  lemma KeyIsNoCounter()
    ensures !IsCounter(PublicKey)
  {
  }

  lemma NoBlockWithoutKey(entries: seq<Entry>, last: Entry, b: seq<Entry>)
    requires b in Blocks(entries + [last])
    ensures Blocks(entries) == [] ==> last.0 == PublicKey
  {
    assert (entries + [last])[..|entries|] == entries;
  }

  /** parseTransfers succeeds exactly on countable dumps. */
  lemma {:induction false} TransfersSucceedExactly(entries: seq<Entry>)
    ensures TransferScanOf(entries).Success? <==> Countable(entries)
  {
    if entries == [] {
      NoBlocks([]);
    } else {
      var front, last := entries[..|entries| - 1], entries[|entries| - 1];
      TransfersSucceedExactly(front);
      if TransferScanOf(entries).Success? {
        TransferScanFollowsBlocks(front);
        TransferStepFails(TransferScanOf(front).value, Blocks(front), last);
        CountableExtends(entries);
      }
      if Countable(entries) {
        TransferScanFollowsBlocks(entries);
      }
    }
  }

  /** The map that a list of peers defines: the last peer of a key gives its counters. */
  function CountersByPeer(peers: seq<Peer>): map<string, WGStats> {
    if peers == [] then map[]
    else
      var last := peers[|peers| - 1];
      CountersByPeer(peers[..|peers| - 1])[last.publicKey := CountersOf(last)]
  }

  lemma {:induction false} BlocksAndPeersCountAlike(v6: V6Codec, blocks: seq<seq<Entry>>)
    ensures CountersByKey(blocks) == CountersByPeer(PeersOf(v6, blocks))
  {
    hide BlockKey, LastInt, LastEndpoint, Networks, Values, HandshakeTime;
    if blocks != [] {
      var front := blocks[..|blocks| - 1];
      BlocksAndPeersCountAlike(v6, front);
      var peers := PeersOf(v6, blocks);
      assert peers[..|peers| - 1] == PeersOf(v6, front);
    }
  }

  /** A key is in the map when some peer has it. */
  lemma {:induction false} CountedKeys(peers: seq<Peer>, k: string)
    ensures k in CountersByPeer(peers) <==> exists i :: 0 <= i < |peers| && peers[i].publicKey == k
  {
    if peers != [] {
      var front := peers[..|peers| - 1];
      CountedKeys(front, k);
      if k in CountersByPeer(front) {
        var i :| 0 <= i < |front| && front[i].publicKey == k;
        assert peers[i].publicKey == k;
      }
      if i :| 0 <= i < |peers| && peers[i].publicKey == k {
        assert i < |front| ==> front[i].publicKey == k;
      }
    }
  }

  /** A key maps to the counters of the last peer that has it. */
  lemma {:induction false} LastPeerCounts(peers: seq<Peer>, i: nat)
    requires i < |peers| && forall j :: i < j < |peers| ==> peers[j].publicKey != peers[i].publicKey
    ensures peers[i].publicKey in CountersByPeer(peers)
    ensures CountersByPeer(peers)[peers[i].publicKey] == CountersOf(peers[i])
  {
    var front := peers[..|peers| - 1];
    if i < |front| {
      assert peers[|front|].publicKey != peers[i].publicKey;
      LastPeerCounts(front, i);
    }
  }

  lemma TrimmedTightLines(text: string)
    requires TightLines(text)
    ensures TrimmedLines(Split(text, '\n')) == Split(text, '\n')
  {
    var lines := Split(text, '\n');
    forall i | 0 <= i < |lines|
      ensures TrimmedLines(lines)[i] == lines[i]
    {
      assert lines[i] in lines;
      TightLineIsTrimmed(lines[i]);
    }
  }

  /** Different keys have different texts, so peers of different blocks differ when their keys do. */
  lemma DistinctBlocksDistinctPeers(v6: V6Codec, device: string, text: string)
    requires TightLines(text) && ValidKeys(TextEntries(text))
    requires var blocks := Blocks(TextEntries(text));
             forall i, j :: 0 <= i < j < |blocks| ==> HexDecode(blocks[i][0].1) != HexDecode(blocks[j][0].1)
    ensures var peers := StatusOf(v6, device, text).peers;
            forall i, j :: 0 <= i < j < |peers| ==> peers[i].publicKey != peers[j].publicKey
  {
    var blocks: seq<seq<Entry>> := Blocks(TextEntries(text));
    StatusReadsBlocks(v6, device, text);
    hide HexDecode, StatusOf, Blocks, TextEntries, PeersOf, TightLines;
    var peers := StatusOf(v6, device, text).peers;
    forall i, j | 0 <= i < j < |peers|
      ensures peers[i].publicKey != peers[j].publicKey
    {
      PeersOfAt(v6, blocks, i);
      PeersOfAt(v6, blocks, j);
      BlockKeyDecodes(TextEntries(text), i);
      BlockKeyDecodes(TextEntries(text), j);
      if peers[i].publicKey == peers[j].publicKey {
        Base64Injective(HexDecode(blocks[i][0].1).value, HexDecode(blocks[j][0].1).value);
      }
    }
  }

  lemma BlockKeyDecodes(entries: seq<Entry>, i: nat)
    requires ValidKeys(entries) && i < |Blocks(entries)|
    ensures HexDecode(Blocks(entries)[i][0].1).Some?
    ensures BlockKey(Blocks(entries)[i]) == Base64Encode(HexDecode(Blocks(entries)[i][0].1).value)
  {
    BlockEntries(entries);
    var b: seq<Entry> := Blocks(entries)[i];
    assert b in Blocks(entries) && b[0] in b;
  }
}
