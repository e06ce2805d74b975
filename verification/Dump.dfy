/** The dump of a device, as text, and what the status scanner reads from it. */
module Dump {
  import opened Wrappers
  import opened Encodings
  import opened Net
  import opened Wg
  import opened UapiText
  import opened Status
  import opened Printer
  import opened PrintParse
  import opened Device

  // ---- assignments grouped by key ----

  /** Consecutive assignments to one key. */
  type Group = (Field, seq<string>)

  function GroupEntries(f: Field, vals: seq<string>): seq<Entry> {
    if vals == [] then [] else GroupEntries(f, vals[..|vals| - 1]) + [(f, vals[|vals| - 1])]
  }

  function Ungroup(groups: seq<Group>): seq<Entry> {
    if groups == [] then []
    else
      var last := groups[|groups| - 1];
      Ungroup(groups[..|groups| - 1]) + GroupEntries(last.0, last.1)
  }

  lemma {:induction false} GroupValues(f: Field, vals: seq<string>, g: Field)
    ensures Values(GroupEntries(f, vals), g) == if f == g then vals else []
  {
    if vals != [] {
      var front := vals[..|vals| - 1];
      GroupValues(f, front, g);
      ValuesOneMore(GroupEntries(f, front), (f, vals[|vals| - 1]), g);
    }
  }

  predicate DistinctFields(groups: seq<Group>) {
    forall i, j :: 0 <= i < j < |groups| ==> groups[i].0 != groups[j].0
  }

  lemma {:induction false} NoGroup(groups: seq<Group>, f: Field)
    requires forall i :: 0 <= i < |groups| ==> groups[i].0 != f
    ensures Values(Ungroup(groups), f) == []
  {
    if groups != [] {
      var front, last := groups[..|groups| - 1], groups[|groups| - 1];
      NoGroup(front, f);
      GroupValues(last.0, last.1, f);
      ValuesConcat(Ungroup(front), GroupEntries(last.0, last.1), f);
    }
  }

  /** The values of a key are those of its group. */
  lemma {:induction false} ValuesOfGroup(groups: seq<Group>, i: nat)
    requires DistinctFields(groups) && i < |groups|
    ensures Values(Ungroup(groups), groups[i].0) == groups[i].1
  {
    var front, last := groups[..|groups| - 1], groups[|groups| - 1];
    GroupValues(last.0, last.1, groups[i].0);
    ValuesConcat(Ungroup(front), GroupEntries(last.0, last.1), groups[i].0);
    if i < |front| {
      ValuesOfGroup(front, i);
    } else {
      NoGroup(front, last.0);
    }
  }

  predicate PlainGroup(g: Group) {
    g.0 != Unknown && forall v :: v in g.1 ==> PlainValue(v)
  }

  predicate PlainGroups(groups: seq<Group>) {
    forall i :: 0 <= i < |groups| ==> PlainGroup(groups[i])
  }

  lemma {:induction false} GroupPrintable(f: Field, vals: seq<string>)
    requires PlainGroup((f, vals))
    ensures Printable(GroupEntries(f, vals))
    ensures forall e: Entry :: e in GroupEntries(f, vals) ==> e.0 == f && e.1 in vals
  {
    hide PlainValue;
    if vals != [] {
      assert vals[|vals| - 1] in vals;
      GroupPrintable(f, vals[..|vals| - 1]);
    }
  }

  lemma {:induction false} UngroupPrintable(groups: seq<Group>)
    requires PlainGroups(groups)
    ensures Printable(Ungroup(groups))
    ensures forall e: Entry :: e in Ungroup(groups) ==> exists i :: 0 <= i < |groups| && groups[i].0 == e.0
  {
    hide PlainValue;
    if groups != [] {
      var front, last := groups[..|groups| - 1], groups[|groups| - 1];
      assert PlainGroup(last);
      UngroupPrintable(front);
      GroupPrintable(last.0, last.1);
      PrintableConcat(Ungroup(front), GroupEntries(last.0, last.1));
      forall e: Entry | e in Ungroup(groups)
        ensures exists i :: 0 <= i < |groups| && groups[i].0 == e.0
      {
        if e in Ungroup(front) {
          var i :| 0 <= i < |front| && front[i].0 == e.0;
          assert groups[i].0 == e.0;
        } else {
          assert groups[|groups| - 1].0 == e.0;
        }
      }
    }
  }

  // ---- the dump ----

  function NetTexts(v6: V6Codec, ips: seq<Prefix>): (texts: seq<string>)
    ensures |texts| == |ips|
  {
    if ips == [] then [] else NetTexts(v6, ips[..|ips| - 1]) + [PrefixText(v6, ips[|ips| - 1])]
  }

  function EndpointTexts(v6: V6Codec, e: Option<UdpAddr>): seq<string> {
    match e case None => [] case Some(v) => [EndpointText(v6, v)]
  }

  /** What a device says of one peer. */
  function PeerGroups(v6: V6Codec, k: Key, p: DevPeer): seq<Group> {
    [(PublicKey, [HexEncode(k)]),
     (PresharedKey, [HexEncode(p.presharedKey)]),
     (ProtocolVersion, ["1"]),
     (Endpoint, EndpointTexts(v6, p.endpoint)),
     (HandshakeSec, [PrintInt(p.handshakeSec)]),
     (HandshakeNsec, [PrintInt(p.handshakeNsec)]),
     (TxBytes, [PrintInt(p.txBytes)]),
     (RxBytes, [PrintInt(p.rxBytes)]),
     (Keepalive, [PrintInt(p.keepalive)]),
     (AllowedIP, NetTexts(v6, p.allowedIPs))]
  }

  function PeerBlock(v6: V6Codec, k: Key, p: DevPeer): seq<Entry> {
    Ungroup(PeerGroups(v6, k, p))
  }

  function PeerBlocks(v6: V6Codec, peers: Peers, order: seq<Key>): seq<Entry>
    requires forall k :: k in order ==> k in peers
  {
    if order == [] then []
    else
      var k := order[|order| - 1];
      PeerBlocks(v6, peers, order[..|order| - 1]) + PeerBlock(v6, k, peers[k])
  }

  function NonZero(n: int): Option<int> {
    if n == 0 then None else Some(n)
  }

  /** The device fields of a dump; zero values are left out. */
  function DeviceConfig(dev: Dev): Config {
    Config(if dev.privateKey == ZeroKey() then None else Some(dev.privateKey),
           NonZero(dev.listenPort), NonZero(dev.fwMark), false, [])
  }

  /** An order in which a device may list its peers. */
  predicate Lists(order: seq<Key>, peers: Peers) {
    && (forall k :: k in order ==> k in peers)
    && (forall k :: k in peers ==> k in order)
    && (forall i, j :: 0 <= i < j < |order| ==> order[i] != order[j])
  }

  function DumpEntries(v6: V6Codec, dev: Dev, order: seq<Key>): seq<Entry>
    requires Lists(order, dev.peers)
  {
    DeviceEntries(DeviceConfig(dev)) + PeerBlocks(v6, dev.peers, order)
  }

  /** The dump of a device, with its peers in some order. */
  function DumpText(v6: V6Codec, dev: Dev, order: seq<Key>): string
    requires Lists(order, dev.peers)
  {
    EntriesText(DumpEntries(v6, dev, order))
  }

  // ---- what a status reads from it ----

  /** The states a device can be in: prefixes are masked, numbers fit 64 bits. */
  predicate ValidPeer(p: DevPeer) {
    && InInt64(p.handshakeSec) && InInt64(p.txBytes) && InInt64(p.rxBytes)
    && (p.endpoint.Some? ==> 0 <= p.endpoint.value.port <= 65535)
    && (forall i :: 0 <= i < |p.allowedIPs| ==> Masked(p.allowedIPs[i]) == p.allowedIPs[i])
  }

  predicate ValidDev(dev: Dev) {
    && InInt64(dev.listenPort) && InInt64(dev.fwMark)
    && forall k :: k in dev.peers ==> ValidPeer(dev.peers[k])
  }

  /** What a status reports of a peer of the device. */
  function ReportedPeer(k: Key, p: DevPeer): Peer {
    Peer(KeyText(k), ExpectedEndpoint(p.endpoint), p.allowedIPs, p.txBytes, p.rxBytes,
         HandshakeTime(p.handshakeSec), p.presharedKey != ZeroKey())
  }

  function ReportedPeers(peers: Peers, order: seq<Key>): (r: seq<Peer>)
    requires forall k :: k in order ==> k in peers
    ensures |r| == |order|
  {
    if order == [] then []
    else
      var k := order[|order| - 1];
      ReportedPeers(peers, order[..|order| - 1]) + [ReportedPeer(k, peers[k])]
  }

  lemma {:induction false} ReportedPeerAt(peers: Peers, order: seq<Key>, i: nat)
    requires (forall k :: k in order ==> k in peers) && i < |order|
    ensures ReportedPeers(peers, order)[i] == ReportedPeer(order[i], peers[order[i]])
  {
    hide ReportedPeer;
    if i < |order| - 1 {
      ReportedPeerAt(peers, order[..|order| - 1], i);
    }
  }

  lemma {:induction false} NetTextsReadBack(v6: V6Codec, ips: seq<Prefix>)
    requires v6.Lawful() && forall i :: 0 <= i < |ips| ==> Masked(ips[i]) == ips[i]
    ensures Networks(v6, NetTexts(v6, ips)) == ips
  {
    hide Masked, PrefixText, ParseCIDR, Networks, AnyPreshared, LastEndpoint;
    KeyLineHasNoValues(v6, (PublicKey, ""));
    if ips != [] {
      var front, ip := ips[..|ips| - 1], ips[|ips| - 1];
      NetTextsReadBack(v6, front);
      MaskedTextReadsBack(v6, ip);
      OneMoreValue(v6, NetTexts(v6, front), PrefixText(v6, ip));
      assert NetTexts(v6, ips) == NetTexts(v6, front) + [PrefixText(v6, ip)];
      assert ips == front + [ip];
      hide NetTexts;
    }
  }

  lemma {:induction false} NetTextsPlain(v6: V6Codec, ips: seq<Prefix>)
    requires v6.Lawful()
    ensures forall t :: t in NetTexts(v6, ips) ==> PlainValue(t)
  {
    hide PrefixText, PlainValue;
    if ips != [] {
      NetTextsPlain(v6, ips[..|ips| - 1]);
      PrefixTextPlain(v6, ips[|ips| - 1]);
    }
  }

  lemma PrefixTextPlain(v6: V6Codec, p: Prefix)
    requires v6.Lawful()
    ensures PlainValue(PrefixText(v6, p))
  {
    PrefixRoundTrip(v6, p);
    PrefixTextNotEmpty(v6, p);
    hide PrefixText;
    AddressCharsArePlain(PrefixText(v6, p));
  }

  lemma MaskedTextReadsBack(v6: V6Codec, p: Prefix)
    requires v6.Lawful() && Masked(p) == p
    ensures ParseCIDR(v6, PrefixText(v6, p)) == Some(p)
  {
    PrefixRoundTrip(v6, p);
  }

  lemma PrefixTextNotEmpty(v6: V6Codec, p: Prefix)
    ensures PrefixText(v6, p) != ""
  {
  }

  lemma PlainKey(f: Field, k: Key)
    requires f != Unknown
    ensures PlainGroup((f, [HexEncode(k)]))
  {
    HexValueIsPlain(k);
    hide HexEncode, PlainValue;
  }

  lemma PlainNumber(f: Field, n: int)
    requires f != Unknown
    ensures PlainGroup((f, [PrintInt(n)]))
  {
    NumberIsPlain(n);
    hide PrintInt, PlainValue;
  }

  lemma PlainEndpoint(v6: V6Codec, e: Option<UdpAddr>)
    requires v6.Lawful() && (e.Some? ==> 0 <= e.value.port <= 65535)
    ensures PlainGroup((Endpoint, EndpointTexts(v6, e)))
  {
    if e.Some? {
      EndpointIsPlain(v6, e.value);
    }
    hide EndpointText, PlainValue;
  }

  lemma PlainVersion()
    ensures PlainGroup((ProtocolVersion, ["1"]))
  {
  }

  lemma PeerGroupsPlain(v6: V6Codec, k: Key, p: DevPeer)
    requires v6.Lawful() && ValidPeer(p)
    ensures PlainGroups(PeerGroups(v6, k, p))
  {
    hide PlainGroup, PlainGroups, HexEncode, PrintInt, EndpointTexts, NetTexts;
    PlainKey(PublicKey, k);
    PlainKey(PresharedKey, p.presharedKey);
    PlainVersion();
    PlainEndpoint(v6, p.endpoint);
    PlainNumber(HandshakeSec, p.handshakeSec);
    PlainNumber(HandshakeNsec, p.handshakeNsec);
    PlainNumber(TxBytes, p.txBytes);
    PlainNumber(RxBytes, p.rxBytes);
    PlainNumber(Keepalive, p.keepalive);
    PlainNets(v6, p.allowedIPs);
    AllPlain((PublicKey, [HexEncode(k)]), (PresharedKey, [HexEncode(p.presharedKey)]), (ProtocolVersion, ["1"]),
             (Endpoint, EndpointTexts(v6, p.endpoint)), (HandshakeSec, [PrintInt(p.handshakeSec)]),
             (HandshakeNsec, [PrintInt(p.handshakeNsec)]), (TxBytes, [PrintInt(p.txBytes)]),
             (RxBytes, [PrintInt(p.rxBytes)]), (Keepalive, [PrintInt(p.keepalive)]),
             (AllowedIP, NetTexts(v6, p.allowedIPs)));
  }

  lemma PlainNets(v6: V6Codec, ips: seq<Prefix>)
    requires v6.Lawful()
    ensures PlainGroup((AllowedIP, NetTexts(v6, ips)))
  {
    NetTextsPlain(v6, ips);
    hide PlainValue, NetTexts;
  }

  lemma AllPlain(a: Group, b: Group, c: Group, d: Group, e: Group, f: Group, g: Group, h: Group, i: Group, j: Group)
    requires PlainGroup(a) && PlainGroup(b) && PlainGroup(c) && PlainGroup(d) && PlainGroup(e)
    requires PlainGroup(f) && PlainGroup(g) && PlainGroup(h) && PlainGroup(i) && PlainGroup(j)
    ensures PlainGroups([a, b, c, d, e, f, g, h, i, j])
  {
    hide PlainGroup;
  }

  lemma GroupFieldsDistinct(v6: V6Codec, k: Key, p: DevPeer)
    ensures DistinctFields(PeerGroups(v6, k, p))
    ensures PeerGroups(v6, k, p) != []
    ensures forall i :: 0 < i < |PeerGroups(v6, k, p)| ==> PeerGroups(v6, k, p)[i].0 != PublicKey
  {
    hide HexEncode, PrintInt, EndpointTexts, NetTexts;
  }

  lemma BlockValues(v6: V6Codec, k: Key, p: DevPeer)
    ensures var b := PeerBlock(v6, k, p);
            Values(b, PublicKey) == [HexEncode(k)]
            && Values(b, PresharedKey) == [HexEncode(p.presharedKey)]
            && Values(b, Endpoint) == EndpointTexts(v6, p.endpoint)
            && Values(b, HandshakeSec) == [PrintInt(p.handshakeSec)]
            && Values(b, TxBytes) == [PrintInt(p.txBytes)]
            && Values(b, RxBytes) == [PrintInt(p.rxBytes)]
            && Values(b, AllowedIP) == NetTexts(v6, p.allowedIPs)
  {
    var g := PeerGroups(v6, k, p);
    GroupFieldsDistinct(v6, k, p);
    hide HexEncode, PrintInt, EndpointTexts, NetTexts, DistinctFields, Ungroup, Values;
    ValuesOfGroup(g, 0);
    ValuesOfGroup(g, 1);
    ValuesOfGroup(g, 3);
    ValuesOfGroup(g, 4);
    ValuesOfGroup(g, 6);
    ValuesOfGroup(g, 7);
    ValuesOfGroup(g, 9);
  }

  lemma ReportedEndpoint(v6: V6Codec, e: Option<UdpAddr>)
    requires v6.Lawful() && (e.Some? ==> 0 <= e.value.port <= 65535)
    ensures LastEndpoint(v6, EndpointTexts(v6, e)) == ExpectedEndpoint(e)
  {
    if e.Some? {
      var text := EndpointText(v6, e.value);
      StatusEndpointOnlyV4(v6, e.value);
      OneMoreValue(v6, [], text);
      hide EndpointText, ParseStatusEndpoint, UnmapAddr;
      assert [] + [text] == [text];
    }
  }

  lemma ReportedPreshared(v6: V6Codec, k: Key)
    ensures AnyPreshared([HexEncode(k)]) <==> k != ZeroKey()
  {
    PresharedText(k);
    OneMoreValue(v6, [], HexEncode(k));
    hide HexEncode, MeansPreshared, ZeroKey;
    assert [] + [HexEncode(k)] == [HexEncode(k)];
  }

  /** The block opens with its key line and has no other. */
  lemma BlockShape(v6: V6Codec, k: Key, p: DevPeer)
    ensures var b := PeerBlock(v6, k, p);
            b != [] && b[0] == (PublicKey, HexEncode(k)) && Blocks(b) == [b]
  {
    var g, key := PeerGroups(v6, k, p), (PublicKey, HexEncode(k));
    GroupFieldsDistinct(v6, k, p);
    hide PeerGroups, HexEncode, Ungroup, GroupEntries;
    UngroupFirst(g);
    KeyGroup(HexEncode(k));
    var rest := Ungroup(g[1..]);
    forall e: Entry | e in rest
      ensures e.0 != PublicKey
    {
      UngroupFields(g[1..], e);
    }
    KeyGroupFirst(v6, k, p);
    OneBlock(key, rest);
  }

  lemma KeyGroup(text: string)
    ensures GroupEntries(PublicKey, [text]) == [(PublicKey, text)]
  {
  }

  lemma KeyGroupFirst(v6: V6Codec, k: Key, p: DevPeer)
    ensures PeerGroups(v6, k, p)[0] == (PublicKey, [HexEncode(k)])
  {
    hide HexEncode;
  }

  lemma {:induction false} UngroupFirst(groups: seq<Group>)
    requires groups != []
    ensures Ungroup(groups) == GroupEntries(groups[0].0, groups[0].1) + Ungroup(groups[1..])
  {
    hide Ungroup, GroupEntries;
    var front, last := groups[..|groups| - 1], groups[|groups| - 1];
    UngroupOneMore(front, last);
    assert groups == front + [last];
    if front == [] {
      assert groups[1..] == [];
      NothingUngrouped();
    } else {
      UngroupFirst(front);
      UngroupOneMore(front[1..], last);
      assert groups[1..] == front[1..] + [last];
    }
  }

  lemma UngroupOneMore(groups: seq<Group>, g: Group)
    ensures Ungroup(groups + [g]) == Ungroup(groups) + GroupEntries(g.0, g.1)
  {
    hide GroupEntries;
    assert (groups + [g])[..|groups|] == groups;
  }

  lemma NothingUngrouped()
    ensures Ungroup([]) == []
  {
  }

  lemma {:induction false} UngroupFields(groups: seq<Group>, e: Entry)
    requires e in Ungroup(groups)
    ensures exists i :: 0 <= i < |groups| && groups[i].0 == e.0
  {
    var front, last := groups[..|groups| - 1], groups[|groups| - 1];
    if e in Ungroup(front) {
      UngroupFields(front, e);
      var i :| 0 <= i < |front| && front[i].0 == e.0;
      assert groups[i].0 == e.0;
    } else {
      GroupField(last.0, last.1, e);
      assert groups[|groups| - 1].0 == e.0;
    }
  }

  lemma {:induction false} GroupField(f: Field, vals: seq<string>, e: Entry)
    requires e in GroupEntries(f, vals)
    ensures e.0 == f
  {
    if e in GroupEntries(f, vals[..|vals| - 1]) {
      GroupField(f, vals[..|vals| - 1], e);
    }
  }

  lemma BlockKeyText(v6: V6Codec, k: Key, p: DevPeer)
    ensures BlockKey(PeerBlock(v6, k, p)) == KeyText(k)
  {
    BlockShape(v6, k, p);
    HexRoundTrip(k);
    hide PeerBlock, HexEncode, HexDecode, Base64Encode, Blocks;
  }

  /** The block of a peer describes the peer. */
  lemma BlockDescribesPeer(v6: V6Codec, k: Key, p: DevPeer)
    requires v6.Lawful() && ValidPeer(p)
    ensures PeerOf(v6, PeerBlock(v6, k, p)) == ReportedPeer(k, p)
  {
    hide BlockKey, KeyText, PeerBlock, Values, HexEncode, EndpointTexts, NetTexts, Networks, LastEndpoint, LastInt,
      AnyPreshared, ZeroKey, PrintInt, ExpectedEndpoint, HandshakeTime;
    BlockKeyText(v6, k, p);
    BlockValues(v6, k, p);
    NetTextsReadBack(v6, p.allowedIPs);
    ReportedEndpoint(v6, p.endpoint);
    ReportedPreshared(v6, p.presharedKey);
    OneValue(p.txBytes);
    OneValue(p.rxBytes);
    OneValue(p.handshakeSec);
  }

  lemma BlockPrintable(v6: V6Codec, k: Key, p: DevPeer)
    requires v6.Lawful() && ValidPeer(p)
    ensures Printable(PeerBlock(v6, k, p))
  {
    PeerGroupsPlain(v6, k, p);
    hide PeerGroups, PlainGroups, Printable, Ungroup;
    UngroupPrintable(PeerGroups(v6, k, p));
  }

  lemma BlockKeysValid(v6: V6Codec, k: Key, p: DevPeer)
    ensures ValidKeys(PeerBlock(v6, k, p))
  {
    var b := PeerBlock(v6, k, p);
    BlockValues(v6, k, p);
    KeyTextRoundTrip(k);
    hide PeerBlock, Values, HexEncode, HexKey;
    forall e: Entry | e in b && e.0 == PublicKey
      ensures HexKey(e.1).Some?
    {
      ValueIsAssigned(b, PublicKey, e.1);
      assert e.1 in [HexEncode(k)];
    }
  }

  /** The blocks of a dump, one for each peer. */
  function BlockList(v6: V6Codec, peers: Peers, order: seq<Key>): (blocks: seq<seq<Entry>>)
    requires forall k :: k in order ==> k in peers
    ensures |blocks| == |order|
  {
    if order == [] then []
    else
      var k := order[|order| - 1];
      BlockList(v6, peers, order[..|order| - 1]) + [PeerBlock(v6, k, peers[k])]
  }

  lemma {:induction false} BlockListAt(v6: V6Codec, peers: Peers, order: seq<Key>, i: nat)
    requires (forall k :: k in order ==> k in peers) && i < |order|
    ensures BlockList(v6, peers, order)[i] == PeerBlock(v6, order[i], peers[order[i]])
  {
    hide PeerBlock;
    if i < |order| - 1 {
      BlockListAt(v6, peers, order[..|order| - 1], i);
    }
  }

  lemma {:induction false} PeerBlocksAreBlocks(v6: V6Codec, peers: Peers, order: seq<Key>)
    requires forall k :: k in order ==> k in peers
    ensures Blocks(PeerBlocks(v6, peers, order)) == BlockList(v6, peers, order)
    ensures var es := PeerBlocks(v6, peers, order); es == [] || es[0].0 == PublicKey
  {
    hide PeerBlock, HexEncode;
    if order == [] {
      NoBlocks([]);
    } else {
      var front, k := order[..|order| - 1], order[|order| - 1];
      PeerBlocksAreBlocks(v6, peers, front);
      BlockShape(v6, k, peers[k]);
      hide Blocks;
      BlocksConcat(PeerBlocks(v6, peers, front), PeerBlock(v6, k, peers[k]));
    }
  }

  lemma {:induction false} BlocksDescribePeers(v6: V6Codec, peers: Peers, order: seq<Key>)
    requires v6.Lawful() && forall k :: k in order ==> k in peers && ValidPeer(peers[k])
    ensures PeersOf(v6, BlockList(v6, peers, order)) == ReportedPeers(peers, order)
  {
    hide PeerBlock, PeerOf, ReportedPeer, ValidPeer;
    if order != [] {
      var front, k := order[..|order| - 1], order[|order| - 1];
      BlocksDescribePeers(v6, peers, front);
      BlockDescribesPeer(v6, k, peers[k]);
      var blocks := BlockList(v6, peers, order);
      assert blocks[..|blocks| - 1] == BlockList(v6, peers, front);
    }
  }

  lemma {:induction false} BlocksPrintable(v6: V6Codec, peers: Peers, order: seq<Key>)
    requires v6.Lawful() && forall k :: k in order ==> k in peers && ValidPeer(peers[k])
    ensures Printable(PeerBlocks(v6, peers, order)) && ValidKeys(PeerBlocks(v6, peers, order))
  {
    hide PeerBlock, HexKey, PlainValue, ValidPeer;
    if order != [] {
      var front, k := order[..|order| - 1], order[|order| - 1];
      BlocksPrintable(v6, peers, front);
      BlockPrintable(v6, k, peers[k]);
      BlockKeysValid(v6, k, peers[k]);
      PrintableConcat(PeerBlocks(v6, peers, front), PeerBlock(v6, k, peers[k]));
    }
  }

  lemma DumpBlocks(v6: V6Codec, dev: Dev, order: seq<Key>)
    requires v6.Lawful() && ValidDev(dev) && Lists(order, dev.peers)
    ensures var es := DumpEntries(v6, dev, order);
            Printable(es) && ValidKeys(es) && Blocks(es) == BlockList(v6, dev.peers, order)
  {
    var cfg := DeviceConfig(dev);
    PeerBlocksAreBlocks(v6, dev.peers, order);
    BlocksPrintable(v6, dev.peers, order);
    DevicePrintable(cfg);
    DeviceHasNoKeys(cfg);
    hide DeviceEntries, PeerBlocks, Printable, BlockList, HexKey, DeviceConfig;
    PrintableConcat(DeviceEntries(cfg), PeerBlocks(v6, dev.peers, order));
    NoBlocks(DeviceEntries(cfg));
    BlocksConcat(DeviceEntries(cfg), PeerBlocks(v6, dev.peers, order));
  }

  lemma DumpTextEntries(v6: V6Codec, dev: Dev, order: seq<Key>)
    requires v6.Lawful() && ValidDev(dev) && Lists(order, dev.peers)
    ensures TextEntries(DumpText(v6, dev, order)) == DumpEntries(v6, dev, order)
    ensures TightLines(DumpText(v6, dev, order))
  {
    DumpBlocks(v6, dev, order);
    hide DumpEntries, EntriesText, TextEntries, TightLines, Printable, ValidKeys, Blocks, BlockList;
    PrintedEntries(DumpEntries(v6, dev, order));
  }

  /** The status of a dump lists exactly the peers of the device, in the order of the dump. */
  lemma StatusOfDump(v6: V6Codec, name: string, dev: Dev, order: seq<Key>)
    requires v6.Lawful() && ValidDev(dev) && Lists(order, dev.peers)
    ensures StatusOf(v6, name, DumpText(v6, dev, order)).peers == ReportedPeers(dev.peers, order)
  {
    DumpBlocks(v6, dev, order);
    DumpTextEntries(v6, dev, order);
    BlocksDescribePeers(v6, dev.peers, order);
    hide DumpEntries, TextEntries, TightLines, ValidKeys, Blocks, BlockList, PeersOf, ReportedPeers, StatusOf, DumpText;
    StatusReadsBlocks(v6, name, DumpText(v6, dev, order));
  }
}
