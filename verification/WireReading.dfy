/** What the three scanners read from text whose lines are spelled out. */
module WireReading {
  import opened Wrappers
  import opened Encodings
  import opened Text
  import opened Net
  import opened Wg
  import opened UapiText
  import opened Status
  import opened ScannerAgreement
  import opened Printer
  import opened PrintParse
  import opened Device
  import opened Dump
  import opened Removal
  import opened WireText

  const NAMES := ["private_key", "listen_port", "fwmark", "replace_peers", "public_key", "preshared_key", "remove",
                  "update_only", "replace_allowed_ips", "allowed_ip", "endpoint", "persistent_keepalive_interval",
                  "protocol_version", "last_handshake_time_sec", "last_handshake_time_nsec", "tx_bytes", "rx_bytes"]

  lemma NameIsPlain(f: Field)
    requires f != Unknown
    ensures FieldName(f) in NAMES
  {
  }

  /** A name that is none of these is not known, whatever its line assigns. */
  lemma OtherNames(name: string)
    ensures name !in NAMES ==> FieldOf(name) == Unknown
  {
    hide FieldName, FieldOf;
    FieldOfName(Unknown, name);
    if FieldOf(name) != Unknown {
      NameIsPlain(FieldOf(name));
    }
  }

  // ---- a text of the lines of one peer ----

  /** Reading a text of printed lines is going through its assignments. */
  lemma LinesRead(v6: V6Codec, device: string, es: seq<Entry>)
    requires Printable(es)
    ensures StatusOf(v6, device, EntriesText(es)) == StatusScan(v6, device, es).Saved()
    ensures TransfersOf(EntriesText(es)) ==
            match TransferScanOf(es) case Success(s) => Success(s.stats) case Failure(e) => Failure(e)
  {
    hide EntriesText, StatusScan, TransferScanOf, TrimSpace, TightLines, TightWhereRead, Printable, Entries, Split,
      ReadEntries, ReadLine, TrimmedLines;
    var text := EntriesText(es);
    PrintedEntries(es);
    TrimKeepsEntries(text);
    TightLinesAreEnough(text);
    TightWhereReadMeans(text);
    TrimmedLinesRead(Split(text, '\n'));
    SameRead(Entries(TrimmedLines(Split(text, '\n'))), TextEntries(text));
  }

  lemma ScanStep(v6: V6Codec, device: string, es: seq<Entry>, e: Entry)
    ensures StatusScan(v6, device, es + [e]) == StatusStep(v6, StatusScan(v6, device, es), e)
    ensures TransferScanOf(es + [e]) ==
            match TransferScanOf(es) case Success(s) => TransferStep(s, e) case Failure(err) => Failure(err)
  {
    hide StatusStep, TransferStep;
    assert (es + [e])[..|es|] == es;
  }

  /** A key line and the two lines of its byte counters, written out. */
  function CountersText(k: Key, n: int, m: int): string {
    "public_key=" + HexEncode(k) + "\ntx_bytes=" + PrintInt(n) + "\nrx_bytes=" + PrintInt(m) + "\n"
  }

  lemma CountersLines(k: Key, n: int, m: int)
    ensures var es := [(PublicKey, HexEncode(k)), (TxBytes, PrintInt(n)), (RxBytes, PrintInt(m))];
            EntriesText(es) == CountersText(k, n, m)
  {
    hide Line, EntriesText, HexEncode, PrintInt;
    var a, b, c := HexEncode(k), PrintInt(n), PrintInt(m);
    OneLine(PublicKey, a);
    AllowedOneMore([(PublicKey, a)], TxBytes, b);
    AllowedOneMore([(PublicKey, a)] + [(TxBytes, b)], RxBytes, c);
    assert [(PublicKey, a)] + [(TxBytes, b)] + [(RxBytes, c)] == [(PublicKey, a), (TxBytes, b), (RxBytes, c)];
    LineNames(a);
    LineNames(b);
    LineNames(c);
    Glued("public_key=" + a, b, c);
  }

  lemma Glued(a: string, b: string, c: string)
    ensures a + "\n" + ("tx_bytes=" + b) + "\n" + ("rx_bytes=" + c) + "\n" ==
            a + "\ntx_bytes=" + b + "\nrx_bytes=" + c + "\n"
  {
    assert "\n" + "tx_bytes=" == "\ntx_bytes=" && "\n" + "rx_bytes=" == "\nrx_bytes=";
  }

  lemma CountersPrintable(k: Key, n: int, m: int)
    ensures Printable([(PublicKey, HexEncode(k)), (TxBytes, PrintInt(n)), (RxBytes, PrintInt(m))])
  {
    hide HexEncode, PrintInt, PlainValue;
    HexValueIsPlain(k);
    NumberIsPlain(n);
    NumberIsPlain(m);
  }

  /** What is sent and what is received are not mistaken for each other. */
  lemma CountersRead(v6: V6Codec, device: string, k: Key, n: int, m: int)
    requires InInt64(n) && InInt64(m)
    ensures StatusOf(v6, device, CountersText(k, n, m)) ==
            Stats(device, None, 0, 0, [Peer(KeyText(k), StatusEndpoint(None, 0), [], n, m, None, false)])
    ensures TransfersOf(CountersText(k, n, m)) == Success(map[KeyText(k) := WGStats(None, n, m)])
  {
    hide EntriesText, HexEncode, PrintInt, StatusOf, TransfersOf, Printable, StatusScan, TransferScanOf, CountersText,
      StatusStep, TransferStep;
    var a, b, c := (PublicKey, HexEncode(k)), (TxBytes, PrintInt(n)), (RxBytes, PrintInt(m));
    CountersLines(k, n, m);
    CountersPrintable(k, n, m);
    LinesRead(v6, device, [a, b, c]);
    NothingScannedYet(v6, device);
    ScanStep(v6, device, [], a);
    ScanStep(v6, device, [a], b);
    ScanStep(v6, device, [a, b], c);
    assert [] + [a] == [a] && [a] + [b] == [a, b] && [a, b] + [c] == [a, b, c];
    StatusSteps(v6, device, k, n, m);
    TransferSteps(k, n, m);
  }

  lemma StatusSteps(v6: V6Codec, device: string, k: Key, n: int, m: int)
    requires InInt64(n) && InInt64(m)
    ensures var s := Scan(Stats(device, None, 0, 0, []), None);
            var t := StatusStep(v6, s, (PublicKey, HexEncode(k)));
            StatusStep(v6, StatusStep(v6, t, (TxBytes, PrintInt(n))), (RxBytes, PrintInt(m))) ==
            Scan(s.stats, Some(Peer(KeyText(k), NO_ENDPOINT, [], n, m, None, false)))
  {
    hide HexEncode, PrintInt, HexDecode, ParseInt64, Base64Encode;
    KeyTextRoundTrip(k);
    IntRoundTrip(n);
    IntRoundTrip(m);
  }

  lemma TransferSteps(k: Key, n: int, m: int)
    requires InInt64(n) && InInt64(m)
    ensures var s := TransferStep(TransferScan(map[], None), (PublicKey, HexEncode(k)));
            s.Success?
            && var t := TransferStep(s.value, (TxBytes, PrintInt(n)));
               t.Success?
               && var u := TransferStep(t.value, (RxBytes, PrintInt(m)));
                  u.Success? && u.value.stats == map[KeyText(k) := WGStats(None, n, m)]
  {
    hide HexEncode, PrintInt, HexDecode, ParseInt64, Base64Encode;
    HexRoundTrip(k);
    IntRoundTrip(n);
    IntRoundTrip(m);
    assert map[KeyText(k) := NO_TRAFFIC][KeyText(k) := WGStats(None, n, 0)][KeyText(k) := WGStats(None, n, m)] ==
           map[KeyText(k) := WGStats(None, n, m)];
  }

  lemma NothingScannedYet(v6: V6Codec, device: string)
    ensures StatusScan(v6, device, []) == Scan(Stats(device, None, 0, 0, []), None)
    ensures TransferScanOf([]) == Success(TransferScan(map[], None))
  {
  }

  /** A preshared key counts unless it is missing or sixty-four zeros. */
  lemma PresharedRead(val: string)
    ensures MeansPreshared(val) <==> val != "" && !(|val| == 64 && forall c :: c in val ==> c == '0')
  {
    if |val| == 64 && forall c :: c in val ==> c == '0' {
      assert forall i :: 0 <= i < 64 ==> val[i] in val;
      assert val == ZeroKeyHex();
    }
    assert forall c :: c in ZeroKeyHex() ==> c == '0';
  }

  // ---- the dump of a device ----

  lemma BlockHasNoDeviceField(v6: V6Codec, k: Key, p: DevPeer, f: Field)
    requires f == PrivateKey || f == ListenPort || f == FwMark
    ensures Values(PeerBlock(v6, k, p), f) == []
  {
    hide HexEncode, PrintInt, EndpointTexts, NetTexts, Ungroup, Values;
    NoGroup(PeerGroups(v6, k, p), f);
  }

  lemma {:induction false} BlocksHaveNoDeviceField(v6: V6Codec, peers: Peers, order: seq<Key>, f: Field)
    requires (forall k :: k in order ==> k in peers) && (f == PrivateKey || f == ListenPort || f == FwMark)
    ensures Values(PeerBlocks(v6, peers, order), f) == []
  {
    hide PeerBlock;
    if order != [] {
      var front, k := order[..|order| - 1], order[|order| - 1];
      BlocksHaveNoDeviceField(v6, peers, front, f);
      BlockHasNoDeviceField(v6, k, peers[k], f);
      ValuesConcat(PeerBlocks(v6, peers, front), PeerBlock(v6, k, peers[k]), f);
      hide Values;
    }
  }

  lemma DumpDeviceFields(v6: V6Codec, dev: Dev, order: seq<Key>)
    requires Lists(order, dev.peers) && InInt64(dev.listenPort) && InInt64(dev.fwMark)
    ensures var es := DumpEntries(v6, dev, order);
            LastInt(Values(es, ListenPort)) == dev.listenPort && LastInt(Values(es, FwMark)) == dev.fwMark
            && LastKey(Values(es, PrivateKey)) == if dev.privateKey == ZeroKey() then None else Some(dev.privateKey)
  {
    hide DeviceEntries, PeerBlocks, Values, PrintInt, HexEncode;
    var cfg := DeviceConfig(dev);
    DumpFieldValues(v6, dev, order, PrivateKey);
    DumpFieldValues(v6, dev, order, ListenPort);
    DumpFieldValues(v6, dev, order, FwMark);
    OneValue(dev.listenPort);
    OneValue(dev.fwMark);
    OneKey(dev.privateKey);
  }

  lemma DumpFieldValues(v6: V6Codec, dev: Dev, order: seq<Key>, f: Field)
    requires Lists(order, dev.peers) && (f == PrivateKey || f == ListenPort || f == FwMark)
    ensures var cfg := DeviceConfig(dev);
            Values(DumpEntries(v6, dev, order), f) ==
            match (if f == PrivateKey then KeyHex(cfg.privateKey)
                   else NumberText(if f == ListenPort then cfg.listenPort else cfg.firewallMark))
            case Some(v) => [v]
            case None => []
  {
    hide DeviceEntries, PeerBlocks, Values, DeviceConfig, KeyHex, NumberText;
    ValuesConcat(DeviceEntries(DeviceConfig(dev)), PeerBlocks(v6, dev.peers, order), f);
    BlocksHaveNoDeviceField(v6, dev.peers, order, f);
    DeviceValues(DeviceConfig(dev), f);
  }

  /** The status of the lines that a device lists is the device: its key, numbers and peers. */
  lemma ListedStatus(v6: V6Codec, name: string, dev: Dev, order: seq<Key>)
    requires v6.Lawful() && ValidDev(dev) && Lists(order, dev.peers)
    ensures StatusOf(v6, name, ListedDevice(v6, dev, order)) ==
            Stats(name, if dev.privateKey == ZeroKey() then None else Some(dev.privateKey), dev.listenPort, dev.fwMark,
                  ReportedPeers(dev.peers, order))
  {
    hide ListedDevice, DumpText, TextEntries, TightLines, TrimSpace, StatusScan, DumpEntries, ReportedPeers, Lists,
      Values, LastInt, LastKey, ValidPeer;
    var text := DumpText(v6, dev, order);
    DeviceListed(v6, dev, order);
    DumpTextEntries(v6, dev, order);
    TrimKeepsEntries(text);
    StatusOfDump(v6, name, dev, order);
    ScanDeviceFields(v6, name, DumpEntries(v6, dev, order));
    DumpDeviceFields(v6, dev, order);
  }

  lemma BlockCounts(v6: V6Codec, k: Key, p: DevPeer, e: Entry)
    requires ValidPeer(p) && e in PeerBlock(v6, k, p) && IsCounter(e.0)
    ensures ParseInt64(e.1).Some?
  {
    hide PeerBlock, Values, PrintInt, ParseInt64, HexEncode, NetTexts, EndpointTexts;
    BlockValues(v6, k, p);
    ValueIsAssigned(PeerBlock(v6, k, p), e.0, e.1);
    IntRoundTrip(p.handshakeSec);
    IntRoundTrip(p.txBytes);
    IntRoundTrip(p.rxBytes);
  }

  lemma DumpCountable(v6: V6Codec, dev: Dev, order: seq<Key>)
    requires v6.Lawful() && ValidDev(dev) && Lists(order, dev.peers)
    ensures Countable(DumpEntries(v6, dev, order)) && ValidKeys(DumpEntries(v6, dev, order))
  {
    hide DumpEntries, PeerBlock, BlockList, ParseInt64, HexDecode, ValidPeer, IsCounter, Blocks;
    DumpBlocks(v6, dev, order);
    var blocks := BlockList(v6, dev.peers, order);
    forall b, e | b in blocks && e in b && IsCounter(e.0)
      ensures ParseInt64(e.1).Some?
    {
      var i :| 0 <= i < |blocks| && blocks[i] == b;
      BlockListAt(v6, dev.peers, order, i);
      BlockCounts(v6, order[i], dev.peers[order[i]], e);
    }
  }

  /** The counters of a peer; zero seconds mean that there was no handshake. */
  function Counted(p: DevPeer): WGStats {
    WGStats(if p.handshakeSec == 0 then None else Some(p.handshakeSec), p.txBytes, p.rxBytes)
  }

  /** The transfers of the lines that a device lists: the counters of its peers by the texts of their keys. */
  lemma ListedTransfers(v6: V6Codec, dev: Dev, order: seq<Key>)
    requires v6.Lawful() && ValidDev(dev) && Lists(order, dev.peers)
    ensures var r := TransfersOf(ListedDevice(v6, dev, order));
            r.Success?
            && (forall t :: t in r.value <==> exists k :: k in dev.peers && KeyText(k) == t)
            && forall k :: k in dev.peers ==>
                             KeyText(k) in r.value
                             && r.value[KeyText(k)] == Counted(dev.peers[k])
  {
    hide ListedDevice, DumpText, TextEntries, TightLines, TightWhereRead, TransfersOf, StatusOf, DumpEntries, ValidDev,
      ReportedPeers, ValidKeys, Countable, KeyText, Lists, CountersOf, HandshakeTime;
    var text := DumpText(v6, dev, order);
    DeviceListed(v6, dev, order);
    DumpTextEntries(v6, dev, order);
    DumpCountable(v6, dev, order);
    TightLinesAreEnough(text);
    StatusOfDump(v6, "", dev, order);
    ScannersAgree(v6, "", text);
    CountersInOrder(dev.peers, order, TransfersOf(text).value);
  }

  lemma ReportedCounters(peers: Peers, order: seq<Key>, i: nat)
    requires (forall k :: k in order ==> k in peers) && i < |order|
    ensures var p, r := peers[order[i]], ReportedPeers(peers, order)[i];
            r.publicKey == KeyText(order[i])
            && CountersOf(r) == Counted(p)
  {
    hide KeyText, ReportedPeers, ExpectedEndpoint;
    ReportedPeerAt(peers, order, i);
  }

  /** Counters given by the reported peers are given by the keys of the device. */
  lemma CountersInOrder(peers: Peers, order: seq<Key>, m: map<string, WGStats>)
    requires Lists(order, peers)
    requires var r := ReportedPeers(peers, order);
             (forall t :: t in m <==> exists i :: 0 <= i < |r| && r[i].publicKey == t)
             && forall i :: 0 <= i < |r| && (forall j :: i < j < |r| ==> r[j].publicKey != r[i].publicKey)
                            ==> r[i].publicKey in m && m[r[i].publicKey] == CountersOf(r[i])
    ensures forall t :: t in m <==> exists k :: k in peers && KeyText(k) == t
    ensures forall k :: k in peers ==>
                          KeyText(k) in m
                          && m[KeyText(k)] == Counted(peers[k])
  {
    hide KeyText, ReportedPeers, CountersOf;
    var r := ReportedPeers(peers, order);
    forall i | 0 <= i < |order|
      ensures r[i].publicKey == KeyText(order[i])
    {
      ReportedCounters(peers, order, i);
    }
    DistinctTexts(peers, order);
    forall k | k in peers
      ensures KeyText(k) in m
              && m[KeyText(k)] == Counted(peers[k])
    {
      assert k in order;
      var i :| 0 <= i < |order| && order[i] == k;
      ReportedCounters(peers, order, i);
    }
    forall t | t in m
      ensures exists k :: k in peers && KeyText(k) == t
    {
      var i :| 0 <= i < |r| && r[i].publicKey == t;
      assert order[i] in order;
    }
  }

  lemma DistinctTexts(peers: Peers, order: seq<Key>)
    requires Lists(order, peers)
    ensures forall i, j :: 0 <= i < j < |order| ==> KeyText(order[i]) != KeyText(order[j])
  {
    hide Base64Encode;
    forall i, j | 0 <= i < j < |order|
      ensures KeyText(order[i]) != KeyText(order[j])
    {
      if KeyText(order[i]) == KeyText(order[j]) {
        Base64Injective(order[i], order[j]);
      }
    }
  }

  /** The removal scan of the lines that a device lists: the networks of the peer without the prefix, in order. */
  lemma ListedRemoval(v6: V6Codec, dev: Dev, order: seq<Key>, k: Key, p: Prefix)
    requires v6.Lawful() && ValidDev(dev) && Lists(order, dev.peers)
    ensures RemovalOf(v6, HexEncode(k), PrefixText(v6, p), ListedDevice(v6, dev, order)) ==
            if k in dev.peers
            then Some((p in dev.peers[k].allowedIPs, Without(dev.peers[k].allowedIPs, p)))
            else Some((false, []))
  {
    hide ListedDevice, DumpText, RemovalOf, PrefixText, HexEncode, Without, ValidPeer;
    DeviceListed(v6, dev, order);
    RemovalOfDump(v6, dev, order, k, p);
  }
}
