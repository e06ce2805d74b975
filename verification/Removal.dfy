/**
 The third scanner of go/iface/configurer/usp.go: RemoveAllowedIP reads the allowed networks of one peer from a dump,
 leaving one out. It is proved to compute what the blocks of the dump say, and to agree with parseStatus.
 */
module Removal {
  import opened Wrappers
  import opened Encodings
  import opened Text
  import opened Net
  import opened Wg
  import opened UapiText
  import opened Status
  import opened Printer
  import opened PrintParse
  import opened Device
  import opened Dump
  import opened DeviceLaws

  /** The scan: whether the current lines belong to the peer, whether the network was met, and what is kept. */
  datatype RemovalScan = RemovalScan(found: bool, removed: bool, kept: seq<Prefix>)

  /** None stands for a network that cannot be read. */
  function RemovalStep(v6: V6Codec, hexKey: string, ip: string, s: RemovalScan, e: Entry): Option<RemovalScan> {
    if e.0 == PublicKey then Some(s.(found := e.1 == hexKey))
    else if !s.found || e.0 != AllowedIP then Some(s)
    else if e.1 == ip then Some(s.(removed := true))
    else match ParseCIDR(v6, e.1)
      case Some(p) => Some(s.(kept := s.kept + [p]))
      case None => None
  }

  function RemovalScanOf(v6: V6Codec, hexKey: string, ip: string, entries: seq<Entry>): Option<RemovalScan> {
    if entries == [] then Some(RemovalScan(false, false, []))
    else match RemovalScanOf(v6, hexKey, ip, entries[..|entries| - 1])
      case None => None
      case Some(s) => RemovalStep(v6, hexKey, ip, s, entries[|entries| - 1])
  }

  /** What the scan finds in a dump: whether the network was met and the networks that are kept. */
  function RemovalOf(v6: V6Codec, hexKey: string, ip: string, text: string): Option<(bool, seq<Prefix>)> {
    match RemovalScanOf(v6, hexKey, ip, Entries(TrimmedLines(Split(text, '\n'))))
    case None => None
    case Some(s) => Some((s.removed, s.kept))
  }

  lemma RemovalOneMore(v6: V6Codec, hexKey: string, ip: string, lines: seq<string>, i: nat)
    requires i < |lines|
    ensures RemovalScanOf(v6, hexKey, ip, Entries(lines[..i + 1])) ==
            match RemovalScanOf(v6, hexKey, ip, Entries(lines[..i]))
            case None => None
            case Some(scan) => match EntryOf(lines[i])
              case None => Some(scan)
              case Some(entry) => RemovalStep(v6, hexKey, ip, scan, entry)
  {
    hide EntryOf, RemovalStep;
    assert lines[..i + 1][..i] == lines[..i];
    match EntryOf(lines[i])
    case None =>
    case Some(e) =>
      var es := Entries(lines[..i + 1]);
      assert es[..|es| - 1] == Entries(lines[..i]);
  }

  lemma {:induction false} RemovalFailureStays(v6: V6Codec, hexKey: string, ip: string, lines: seq<string>, i: nat)
    requires i <= |lines| && RemovalScanOf(v6, hexKey, ip, Entries(lines[..i])).None?
    ensures RemovalScanOf(v6, hexKey, ip, Entries(lines)).None?
    decreases |lines| - i
  {
    hide EntryOf, RemovalStep, Entries, RemovalScanOf;
    if i < |lines| {
      RemovalOneMore(v6, hexKey, ip, lines, i);
      RemovalFailureStays(v6, hexKey, ip, lines, i + 1);
    } else {
      assert lines[..i] == lines;
    }
  }

  lemma NothingRemoved(v6: V6Codec, hexKey: string, ip: string)
    ensures RemovalScanOf(v6, hexKey, ip, Entries([])) == Some(RemovalScan(false, false, []))
  {
  }

  /** The loop of RemoveAllowedIP over the lines of a dump. */
  method ScanAllowedIPs(v6: V6Codec, hexKey: string, ip: string, ipc: string)
    returns (r: Option<(bool, seq<Prefix>)>)
    ensures r == RemovalOf(v6, hexKey, ip, ipc)
  {
    hide FieldName, ParseCIDR, TrimSpace, RemovalScanOf, Entries, Split, EntryOf;
    var foundPeer, removedAllowedIP := false, false;
    var allowedIPs: seq<Prefix> := [];
    var lines := Split(ipc, '\n');
    ghost var trimmed := TrimmedLines(lines);
    NothingRemoved(v6, hexKey, ip);
    assert trimmed[..0] == [];
    for i := 0 to |lines|
      invariant RemovalScanOf(v6, hexKey, ip, Entries(trimmed[..i])) ==
                Some(RemovalScan(foundPeer, removedAllowedIP, allowedIPs))
    {
      var line := TrimSpace(lines[i]);
      RemovalOneMore(v6, hexKey, ip, trimmed, i);
      EntryByPrefix(PublicKey, line);
      EntryByPrefix(AllowedIP, line);
      EntryByEquality(PublicKey, hexKey, line);
      EntryByEquality(AllowedIP, ip, line);
      if RemovalScanOf(v6, hexKey, ip, Entries(trimmed[..i + 1])).None? {
        RemovalFailureStays(v6, hexKey, ip, trimmed, i + 1);
      }
      if FieldName(PublicKey) + "=" <= line && foundPeer {
        foundPeer := false;
      }
      if line == Line(PublicKey, hexKey) {
        foundPeer := true;
      }
      if foundPeer && line == Line(AllowedIP, ip) {
        removedAllowedIP := true;
        continue;
      }
      if foundPeer && FieldName(AllowedIP) + "=" <= line {
        var network := ParseCIDR(v6, line[|FieldName(AllowedIP)| + 1..]);
        if network.None? {
          return None;
        }
        allowedIPs := allowedIPs + [network.value];
      }
    }
    assert trimmed[..|lines|] == trimmed;
    r := Some((removedAllowedIP, allowedIPs));
  }

  // ---- what the scan finds, by blocks ----

  predicate Opens(block: seq<Entry>, hexKey: string) {
    block != [] && block[0].1 == hexKey
  }

  /** The allowed networks, as text, of every block that opens with this key. */
  function NetsOfKey(blocks: seq<seq<Entry>>, hexKey: string): seq<string> {
    if blocks == [] then []
    else
      var front, last := NetsOfKey(blocks[..|blocks| - 1], hexKey), blocks[|blocks| - 1];
      if Opens(last, hexKey) then front + Values(last, AllowedIP) else front
  }

  /** The networks without one of them; None when another one cannot be read. */
  function Kept(v6: V6Codec, vals: seq<string>, ip: string): Option<seq<Prefix>> {
    if vals == [] then Some([])
    else match Kept(v6, vals[..|vals| - 1], ip)
      case None => None
      case Some(front) =>
        var last := vals[|vals| - 1];
        if last == ip then Some(front)
        else match ParseCIDR(v6, last)
          case Some(p) => Some(front + [p])
          case None => None
  }

  /** What a scan for one key and network finds in the blocks of a dump. */
  function ScanOfBlocks(v6: V6Codec, hexKey: string, ip: string, blocks: seq<seq<Entry>>): Option<RemovalScan> {
    var nets := NetsOfKey(blocks, hexKey);
    match Kept(v6, nets, ip)
    case None => None
    case Some(kept) => Some(RemovalScan(blocks != [] && Opens(blocks[|blocks| - 1], hexKey), ip in nets, kept))
  }

  lemma KeptOneMore(v6: V6Codec, vals: seq<string>, v: string, ip: string)
    ensures Kept(v6, vals + [v], ip) ==
            match Kept(v6, vals, ip)
            case None => None
            case Some(front) =>
              if v == ip then Some(front)
              else match ParseCIDR(v6, v) case Some(p) => Some(front + [p]) case None => None
  {
    hide ParseCIDR;
    assert (vals + [v])[..|vals|] == vals;
  }

  lemma NetsOfKeyBlock(blocks: seq<seq<Entry>>, block: seq<Entry>, hexKey: string)
    ensures NetsOfKey(blocks + [block], hexKey) ==
            NetsOfKey(blocks, hexKey) + (if Opens(block, hexKey) then Values(block, AllowedIP) else [])
  {
    hide Opens, Values;
    assert (blocks + [block])[..|blocks|] == blocks;
  }

  /** A line that is not a key line extends the last block, when there is one. */
  lemma BlocksOneMore(entries: seq<Entry>, e: Entry)
    ensures Blocks(entries + [e]) ==
            if e.0 == PublicKey then Blocks(entries) + [[e]]
            else if Blocks(entries) == [] then []
            else WithLast(Blocks(entries), Blocks(entries)[|Blocks(entries)| - 1] + [e])
    ensures Blocks(entries) != [] ==> Blocks(entries)[|Blocks(entries)| - 1] != []
  {
    assert (entries + [e])[..|entries|] == entries;
  }

  /** One more line of the last block adds its network, when it has one and the block is of the key. */
  lemma NetsOfLongerBlock(blocks: seq<seq<Entry>>, e: Entry, hexKey: string)
    requires blocks != [] && blocks[|blocks| - 1] != []
    ensures var open := blocks[|blocks| - 1];
            Opens(open + [e], hexKey) == Opens(open, hexKey)
            && NetsOfKey(WithLast(blocks, open + [e]), hexKey) ==
               if Opens(open, hexKey) && e.0 == AllowedIP then NetsOfKey(blocks, hexKey) + [e.1]
               else NetsOfKey(blocks, hexKey)
  {
    var open, front := blocks[|blocks| - 1], blocks[..|blocks| - 1];
    assert blocks == front + [open];
    assert WithLast(blocks, open + [e]) == front + [open + [e]];
    assert Opens(open + [e], hexKey) == Opens(open, hexKey);
    hide NetsOfKey, Values, Opens, WithLast;
    NetsOfKeyBlock(front, open, hexKey);
    NetsOfKeyBlock(front, open + [e], hexKey);
    ValuesOneMore(open, e, AllowedIP);
  }

  /** A key line opens a block without networks. */
  lemma NetsOfNewBlock(blocks: seq<seq<Entry>>, e: Entry, hexKey: string)
    requires e.0 == PublicKey
    ensures NetsOfKey(blocks + [[e]], hexKey) == NetsOfKey(blocks, hexKey)
    ensures Opens([e], hexKey) == (e.1 == hexKey)
  {
    hide NetsOfKey, Values;
    NetsOfKeyBlock(blocks, [e], hexKey);
    KeyLineHasNoNets(e);
  }

  lemma KeyLineHasNoNets(e: Entry)
    requires e.0 == PublicKey
    ensures Values([e], AllowedIP) == []
  {
    var none: seq<Entry> := [];
    assert Values(none, AllowedIP) == [];
    hide Values;
    assert none + [e] == [e];
    ValuesOneMore(none, e, AllowedIP);
  }

  /** For any dump at all, the scan meets and keeps what the blocks of the key hold. */
  lemma {:induction false} RemovalFollowsBlocks(v6: V6Codec, hexKey: string, ip: string, entries: seq<Entry>)
    ensures RemovalScanOf(v6, hexKey, ip, entries) == ScanOfBlocks(v6, hexKey, ip, Blocks(entries))
  {
    if entries == [] {
      NoBlocks([]);
    } else {
      hide ScanOfBlocks, Blocks, WithLast, RemovalStep;
      var front, last := entries[..|entries| - 1], entries[|entries| - 1];
      RemovalFollowsBlocks(v6, hexKey, ip, front);
      assert entries == front + [last];
      BlocksOneMore(front, last);
      if last.0 == PublicKey {
        NewBlockStep(v6, hexKey, ip, Blocks(front), last);
      } else if Blocks(front) != [] {
        LongerBlockStep(v6, hexKey, ip, Blocks(front), last);
      } else {
        NoBlockStep(v6, hexKey, ip, last);
      }
    }
  }

  lemma NewBlockStep(v6: V6Codec, hexKey: string, ip: string, blocks: seq<seq<Entry>>, e: Entry)
    requires e.0 == PublicKey
    ensures ScanOfBlocks(v6, hexKey, ip, blocks + [[e]]) ==
            match ScanOfBlocks(v6, hexKey, ip, blocks)
            case None => None
            case Some(scan) => RemovalStep(v6, hexKey, ip, scan, e)
  {
    hide Opens, NetsOfKey, Kept, ParseCIDR;
    NetsOfNewBlock(blocks, e, hexKey);
  }

  lemma LongerBlockStep(v6: V6Codec, hexKey: string, ip: string, blocks: seq<seq<Entry>>, e: Entry)
    requires e.0 != PublicKey && blocks != [] && blocks[|blocks| - 1] != []
    ensures ScanOfBlocks(v6, hexKey, ip, WithLast(blocks, blocks[|blocks| - 1] + [e])) ==
            match ScanOfBlocks(v6, hexKey, ip, blocks)
            case None => None
            case Some(scan) => RemovalStep(v6, hexKey, ip, scan, e)
  {
    hide Opens, NetsOfKey, Kept, WithLast, ParseCIDR;
    KeptOneMore(v6, NetsOfKey(blocks, hexKey), e.1, ip);
    NetsOfLongerBlock(blocks, e, hexKey);
  }

  /** Before the first key line there is nothing to remove from. */
  lemma NoBlockStep(v6: V6Codec, hexKey: string, ip: string, e: Entry)
    requires e.0 != PublicKey
    ensures ScanOfBlocks(v6, hexKey, ip, []) == Some(RemovalScan(false, false, []))
    ensures RemovalStep(v6, hexKey, ip, RemovalScan(false, false, []), e) == Some(RemovalScan(false, false, []))
  {
  }

  // ---- the scan against the status ----

  /** A network as a device writes it: masked, in its only text. */
  predicate CanonicalNet(v6: V6Codec, val: string) {
    match ParseCIDR(v6, val)
    case Some(p) => PrefixText(v6, p) == val
    case None => false
  }

  /** A key as a device writes it: lower-case digits. */
  predicate CanonicalKey(val: string) {
    match HexKey(val)
    case Some(k) => HexEncode(k) == val
    case None => false
  }

  /** The key that a block opens with. */
  function KeyOf(block: seq<Entry>): Option<Key> {
    if block == [] then None else HexKey(block[0].1)
  }

  predicate DistinctKeys(blocks: seq<seq<Entry>>) {
    forall i, j :: 0 <= i < j < |blocks| ==> KeyOf(blocks[i]) != KeyOf(blocks[j])
  }

  /** Keys and networks of a run of entries are written as a device writes them. */
  predicate CanonicalValues(v6: V6Codec, entries: seq<Entry>) {
    && (forall e: Entry :: e in entries && e.0 == PublicKey ==> CanonicalKey(e.1))
    && (forall e: Entry :: e in entries && e.0 == AllowedIP ==> CanonicalNet(v6, e.1))
  }

  /** The dumps of a device: written as a device writes them, with no two blocks for the same key. */
  predicate Canonical(v6: V6Codec, entries: seq<Entry>) {
    CanonicalValues(v6, entries) && DistinctKeys(Blocks(entries))
  }

  lemma {:induction false} NoNetsOfKey(blocks: seq<seq<Entry>>, hexKey: string)
    requires forall i :: 0 <= i < |blocks| ==> !Opens(blocks[i], hexKey)
    ensures NetsOfKey(blocks, hexKey) == []
  {
    hide Opens, Values;
    if blocks != [] {
      NoNetsOfKey(blocks[..|blocks| - 1], hexKey);
    }
  }

  /** With distinct keys, the networks of a key are those of its only block. */
  lemma {:induction false} NetsOfOnlyBlock(blocks: seq<seq<Entry>>, hexKey: string, i: nat)
    requires i < |blocks| && Opens(blocks[i], hexKey)
    requires forall j :: 0 <= j < |blocks| && j != i ==> !Opens(blocks[j], hexKey)
    ensures NetsOfKey(blocks, hexKey) == Values(blocks[i], AllowedIP)
  {
    hide Opens, Values;
    var front := blocks[..|blocks| - 1];
    if i < |front| {
      NetsOfOnlyBlock(front, hexKey, i);
      assert !Opens(blocks[|blocks| - 1], hexKey);
    } else {
      NoNetsOfKey(front, hexKey);
    }
  }

  lemma NetworksOneMoreValue(v6: V6Codec, vals: seq<string>, v: string)
    ensures Networks(v6, vals + [v]) ==
            match ParseCIDR(v6, v) case Some(p) => Networks(v6, vals) + [p] case None => Networks(v6, vals)
  {
    OneMoreValue(v6, vals, v);
  }

  lemma WithoutOneMore(ips: seq<Prefix>, q: Prefix, p: Prefix)
    ensures Without(ips + [q], p) == if q == p then Without(ips, p) else Without(ips, p) + [q]
  {
    assert (ips + [q])[..|ips|] == ips;
  }

  // ---- when leaving out a text is leaving out the prefix it names ----

  /** Every network is readable, and it is the text of the prefix exactly when it names the prefix. */
  predicate NamedByText(v6: V6Codec, vals: seq<string>, p: Prefix) {
    forall v :: v in vals ==>
                  ParseCIDR(v6, v).Some? && (v == PrefixText(v6, p) <==> ParseCIDR(v6, v) == Some(p))
  }

  lemma {:induction false} KeptIsWithout(v6: V6Codec, vals: seq<string>, p: Prefix)
    requires NamedByText(v6, vals, p)
    ensures Kept(v6, vals, PrefixText(v6, p)) == Some(Without(Networks(v6, vals), p))
    ensures PrefixText(v6, p) in vals <==> p in Networks(v6, vals)
  {
    hide PrefixText, ParseCIDR, Networks, Without, Kept;
    if vals == [] {
      NothingKept(v6, PrefixText(v6, p));
      NoNetworks(v6, p);
    } else {
      var front, last := vals[..|vals| - 1], vals[|vals| - 1];
      assert last in vals;
      KeptIsWithout(v6, front, p);
      assert vals == front + [last];
      NetworksOneMoreValue(v6, front, last);
      WithoutOneMore(Networks(v6, front), ParseCIDR(v6, last).value, p);
      KeptOneMore(v6, front, last, PrefixText(v6, p));
    }
  }

  lemma NoNetworks(v6: V6Codec, p: Prefix)
    ensures Networks(v6, []) == [] && Without([], p) == []
  {
  }

  /** What is kept holds every readable network whose text is another one, and nothing unreadable was met. */
  lemma {:induction false} KeptMembers(v6: V6Codec, vals: seq<string>, ip: string, v: string)
    requires Kept(v6, vals, ip).Some? && v in vals && v != ip
    ensures ParseCIDR(v6, v).Some? && ParseCIDR(v6, v).value in Kept(v6, vals, ip).value
  {
    hide ParseCIDR, Kept;
    var front, last := vals[..|vals| - 1], vals[|vals| - 1];
    assert vals == front + [last];
    KeptOneMore(v6, front, last, ip);
    if v in front {
      KeptMembers(v6, front, ip, v);
    }
  }

  lemma {:induction false} KeptLength(v6: V6Codec, vals: seq<string>, ip: string)
    requires Kept(v6, vals, ip).Some?
    ensures |Kept(v6, vals, ip).value| + multiset(vals)[ip] == |vals|
  {
    hide ParseCIDR, Kept;
    if vals == [] {
      NothingKept(v6, ip);
    } else {
      var front, last := vals[..|vals| - 1], vals[|vals| - 1];
      assert vals == front + [last];
      KeptOneMore(v6, front, last, ip);
      KeptLength(v6, front, ip);
    }
  }

  lemma KeptIsShorter(v6: V6Codec, vals: seq<string>, ip: string)
    requires Kept(v6, vals, ip).Some?
    ensures ip in vals ==> |Kept(v6, vals, ip).value| < |vals|
  {
    hide Kept;
    KeptLength(v6, vals, ip);
    assert ip in vals <==> ip in multiset(vals);
  }

  lemma {:induction false} ReadableNetworks(v6: V6Codec, vals: seq<string>)
    requires forall v :: v in vals ==> ParseCIDR(v6, v).Some?
    ensures |Networks(v6, vals)| == |vals|
    ensures forall q :: q in Networks(v6, vals) ==> Masked(q) == q
  {
    hide ParseCIDR, Networks, Masked;
    if vals == [] {
      NoNetworks(v6, Prefix([0, 0, 0, 0], 0));
    } else {
      var front, last := vals[..|vals| - 1], vals[|vals| - 1];
      assert vals == front + [last] && last in vals;
      ReadableNetworks(v6, front);
      NetworksOneMoreValue(v6, front, last);
      ParsedIsMasked(v6, last);
    }
  }

  lemma ParsedIsMasked(v6: V6Codec, s: string)
    ensures ParseCIDR(v6, s).Some? ==> Masked(ParseCIDR(v6, s).value) == ParseCIDR(v6, s).value
  {
    hide Masked, ReadPrefix;
    if ReadPrefix(v6, s, true).Some? {
      MaskedTwice(ReadPrefix(v6, s, true).value);
    }
  }

  /** The scan leaves out exactly the prefix precisely when the networks name it by its text. */
  lemma KeptIsWithoutExactly(v6: V6Codec, vals: seq<string>, p: Prefix)
    requires v6.Lawful()
    ensures Kept(v6, vals, PrefixText(v6, p)) == Some(Without(Networks(v6, vals), p)) <==> NamedByText(v6, vals, p)
  {
    hide ParseCIDR, Kept, PrefixText, Networks, Without, Masked;
    if NamedByText(v6, vals, p) {
      KeptIsWithout(v6, vals, p);
    }
    if Kept(v6, vals, PrefixText(v6, p)) == Some(Without(Networks(v6, vals), p)) {
      KeptOnlyIf(v6, vals, p);
    }
  }

  lemma KeptOnlyIf(v6: V6Codec, vals: seq<string>, p: Prefix)
    requires v6.Lawful() && Kept(v6, vals, PrefixText(v6, p)) == Some(Without(Networks(v6, vals), p))
    ensures NamedByText(v6, vals, p)
  {
    hide ParseCIDR, Kept, PrefixText, Networks, Without, Masked;
    var ip := PrefixText(v6, p);
    PrefixRoundTrip(v6, p);
    forall v | v in vals && v != ip
      ensures ParseCIDR(v6, v).Some? && ParseCIDR(v6, v) != Some(p)
    {
      KeptMembers(v6, vals, ip, v);
      WithoutMembers(Networks(v6, vals), p, ParseCIDR(v6, v).value);
    }
    ReadableNetworks(v6, vals);
    if Masked(p) != p {
      WithoutUnmasked(Networks(v6, vals), p);
      KeptIsShorter(v6, vals, ip);
    }
  }

  lemma {:induction false} WithoutUnmasked(ips: seq<Prefix>, p: Prefix)
    requires p !in ips
    ensures |Without(ips, p)| == |ips|
  {
    if ips != [] {
      WithoutUnmasked(ips[..|ips| - 1], p);
    }
  }

  // ---- the peers of a dump ----

  lemma BlockNets(entries: seq<Entry>, i: nat)
    requires i < |Blocks(entries)|
    ensures Blocks(entries)[i] != [] && Blocks(entries)[i][0] in entries && Blocks(entries)[i][0].0 == PublicKey
    ensures forall v :: v in Values(Blocks(entries)[i], AllowedIP) ==> (AllowedIP, v) in entries
  {
    BlockEntries(entries);
    var b: seq<Entry> := Blocks(entries)[i];
    assert b in Blocks(entries) && b[0] in b;
    hide Blocks;
    forall v | v in Values(b, AllowedIP)
      ensures (AllowedIP, v) in entries
    {
      ValueIsAssigned(b, AllowedIP, v);
    }
  }

  /** A block that opens with the text of a key has that key. */
  lemma OpensWithKey(block: seq<Entry>, k: Key)
    requires Opens(block, HexEncode(k))
    ensures KeyOf(block) == Some(k)
  {
    hide HexEncode, HexDecode;
    HexRoundTrip(k);
  }

  /** The key of a block is that of its peer. */
  lemma PeerHasKeyOfBlock(entries: seq<Entry>, i: nat, k: Key)
    requires ValidKeys(entries) && i < |Blocks(entries)|
    ensures BlockKey(Blocks(entries)[i]) == KeyText(k) <==> KeyOf(Blocks(entries)[i]) == Some(k)
  {
    BlockNets(entries, i);
    BlockKeyDecodes(entries, i);
    hide HexDecode, Base64Encode, Blocks;
    var bytes := HexDecode(Blocks(entries)[i][0].1).value;
    if Base64Encode(bytes) == Base64Encode(k) {
      Base64Injective(bytes, k);
    }
  }

  /** The networks that the scan reads for a key: those of its block when that opens with the text of the key. */
  lemma NetsAtBlock(blocks: seq<seq<Entry>>, k: Key, i: nat)
    requires DistinctKeys(blocks) && i < |blocks| && KeyOf(blocks[i]) == Some(k)
    ensures NetsOfKey(blocks, HexEncode(k)) ==
            if Opens(blocks[i], HexEncode(k)) then Values(blocks[i], AllowedIP) else []
  {
    hide Opens, HexEncode, Values, KeyOf;
    var hexKey := HexEncode(k);
    forall j | 0 <= j < |blocks| && j != i
      ensures !Opens(blocks[j], hexKey)
    {
      if Opens(blocks[j], hexKey) {
        OpensWithKey(blocks[j], k);
      }
    }
    if Opens(blocks[i], hexKey) {
      NetsOfOnlyBlock(blocks, hexKey, i);
    } else {
      NoNetsOfKey(blocks, hexKey);
    }
  }

  lemma RemovalByBlocks(v6: V6Codec, text: string, hexKey: string, ip: string)
    requires TightLines(text)
    ensures var nets := NetsOfKey(Blocks(TextEntries(text)), hexKey);
            RemovalOf(v6, hexKey, ip, text) ==
            match Kept(v6, nets, ip) case None => None case Some(kept) => Some((ip in nets, kept))
  {
    hide TightLines, Blocks, NetsOfKey, Kept, RemovalScanOf, TrimmedLines, Split, Opens, Entries;
    TrimmedTightLines(text);
    RemovalFollowsBlocks(v6, hexKey, ip, TextEntries(text));
  }

  /** The peers of a status are those of the blocks. */
  lemma StatusByBlocks(v6: V6Codec, device: string, text: string, k: Key, i: nat)
    requires TightLines(text) && ValidKeys(TextEntries(text)) && i < |Blocks(TextEntries(text))|
    ensures var peers, block := StatusOf(v6, device, text).peers, Blocks(TextEntries(text))[i];
            |peers| == |Blocks(TextEntries(text))|
            && (peers[i].publicKey == KeyText(k) <==> KeyOf(block) == Some(k))
            && peers[i].allowedIPs == Networks(v6, Values(block, AllowedIP))
  {
    hide TightLines, Blocks, TextEntries, StatusOf, ValidKeys, Networks, Values, BlockKey, KeyOf, KeyText,
      LastInt, LastEndpoint, AnyPreshared, HandshakeTime, PeersOf;
    StatusReadsBlocks(v6, device, text);
    PeersOfAt(v6, Blocks(TextEntries(text)), i);
    PeerHasKeyOfBlock(TextEntries(text), i, k);
  }

  /**
   The networks of a peer's block are such that removing the prefix by its text works: the block opens with the
   lower-case text of the key and names the prefix by its text only, or it has no networks at all.
   */
  predicate RemovalFits(v6: V6Codec, block: seq<Entry>, k: Key, p: Prefix) {
    if Opens(block, HexEncode(k)) then NamedByText(v6, Values(block, AllowedIP), p)
    else Networks(v6, Values(block, AllowedIP)) == []
  }

  /** What the scan finds for the peer of one block, against the list of that peer. */
  lemma RemovalAtBlock(v6: V6Codec, text: string, k: Key, p: Prefix, i: nat)
    requires v6.Lawful() && TightLines(text) && DistinctKeys(Blocks(TextEntries(text)))
    requires i < |Blocks(TextEntries(text))| && KeyOf(Blocks(TextEntries(text))[i]) == Some(k)
    ensures var block := Blocks(TextEntries(text))[i];
            var ips := Networks(v6, Values(block, AllowedIP));
            RemovalOf(v6, HexEncode(k), PrefixText(v6, p), text) == Some((p in ips, Without(ips, p))) <==>
            RemovalFits(v6, block, k, p)
  {
    hide TightLines, TextEntries, Blocks, Values, Networks, NetsOfKey, Kept, Opens, HexEncode, PrefixText, RemovalOf,
      Without, NamedByText, DistinctKeys, KeyOf;
    var blocks: seq<seq<Entry>>, ip := Blocks(TextEntries(text)), PrefixText(v6, p);
    var vals := Values(blocks[i], AllowedIP);
    RemovalByBlocks(v6, text, HexEncode(k), ip);
    NetsAtBlock(blocks, k, i);
    if Opens(blocks[i], HexEncode(k)) {
      KeptIsWithoutExactly(v6, vals, p);
      if NamedByText(v6, vals, p) {
        KeptIsWithout(v6, vals, p);
      }
    } else {
      NothingKept(v6, ip);
      NothingToLeaveOut(Networks(v6, vals), p);
    }
  }

  lemma NothingToLeaveOut(ips: seq<Prefix>, p: Prefix)
    ensures p !in ips && Without(ips, p) == [] <==> ips == []
  {
    if ips != [] && p !in ips {
      WithoutUnmasked(ips, p);
    }
  }

  /**
   RemoveAllowedIP's scan against parseStatus, for every dump with valid distinct keys. The scan yields exactly the
   networks that the status gives for the peer, without the removed one and in order, and meets the removed one exactly
   when the peer has it, precisely when the block of the peer writes its key in lower case and the prefix in its one
   text. For an unknown peer it meets and keeps nothing.
   */
  lemma RemovalMatchesStatus(v6: V6Codec, device: string, text: string, k: Key, p: Prefix)
    requires v6.Lawful() && TightLines(text)
    requires ValidKeys(TextEntries(text)) && DistinctKeys(Blocks(TextEntries(text)))
    ensures var peers, r := StatusOf(v6, device, text).peers, RemovalOf(v6, HexEncode(k), PrefixText(v6, p), text);
            var blocks := Blocks(TextEntries(text));
            |peers| == |blocks|
            && (forall i :: 0 <= i < |peers| && peers[i].publicKey == KeyText(k) ==>
                              (r == Some((p in peers[i].allowedIPs, Without(peers[i].allowedIPs, p))) <==>
                               RemovalFits(v6, blocks[i], k, p)))
            && ((forall i :: 0 <= i < |peers| ==> peers[i].publicKey != KeyText(k)) ==> r == Some((false, [])))
  {
    hide RemovalOf, StatusOf, HexEncode, PrefixText, Kept, Without, Networks, Values, NetsOfKey, TightLines,
      TextEntries, Blocks, ValidKeys, DistinctKeys, PeersOf, Opens, BlockKey, KeyText, KeyOf, RemovalFits;
    var blocks: seq<seq<Entry>>, hexKey, ip := Blocks(TextEntries(text)), HexEncode(k), PrefixText(v6, p);
    StatusReadsBlocks(v6, device, text);
    var peers := StatusOf(v6, device, text).peers;
    forall i | 0 <= i < |peers| && peers[i].publicKey == KeyText(k)
      ensures RemovalOf(v6, hexKey, ip, text) == Some((p in peers[i].allowedIPs, Without(peers[i].allowedIPs, p))) <==>
              RemovalFits(v6, blocks[i], k, p)
    {
      StatusByBlocks(v6, device, text, k, i);
      RemovalAtBlock(v6, text, k, p, i);
    }
    if forall i :: 0 <= i < |peers| ==> peers[i].publicKey != KeyText(k) {
      forall i | 0 <= i < |blocks|
        ensures !Opens(blocks[i], hexKey)
      {
        StatusByBlocks(v6, device, text, k, i);
        if Opens(blocks[i], hexKey) {
          OpensWithKey(blocks[i], k);
        }
      }
      NoNetsOfKey(blocks, hexKey);
      RemovalByBlocks(v6, text, hexKey, ip);
      NothingKept(v6, ip);
    }
  }

  /** A block written as a device writes it fits every removal. */
  lemma CanonicalFits(v6: V6Codec, entries: seq<Entry>, i: nat, k: Key, p: Prefix)
    requires v6.Lawful() && CanonicalValues(v6, entries) && i < |Blocks(entries)|
    requires KeyOf(Blocks(entries)[i]) == Some(k)
    ensures RemovalFits(v6, Blocks(entries)[i], k, p)
  {
    hide CanonicalNet, CanonicalKey, Values, Networks, HexEncode, PrefixText, ParseCIDR, Blocks, HexKey, HexDecode;
    BlockNets(entries, i);
    var block := Blocks(entries)[i];
    CanonicalKeyIsText(block[0].1, k);
    forall v | v in Values(block, AllowedIP)
      ensures ParseCIDR(v6, v).Some? && (v == PrefixText(v6, p) <==> ParseCIDR(v6, v) == Some(p))
    {
      var e: Entry := (AllowedIP, v);
      assert e in entries && e.0 == AllowedIP;
      CanonicalNetIsText(v6, v, p);
    }
  }

  lemma CanonicalKeyIsText(val: string, k: Key)
    requires CanonicalKey(val) && HexKey(val) == Some(k)
    ensures val == HexEncode(k)
  {
    hide HexKey, HexEncode;
  }

  lemma CanonicalNetIsText(v6: V6Codec, val: string, p: Prefix)
    requires v6.Lawful() && CanonicalNet(v6, val)
    ensures ParseCIDR(v6, val).Some? && (val == PrefixText(v6, p) <==> ParseCIDR(v6, val) == Some(p))
  {
    hide ParseCIDR, PrefixText;
    var q := ParseCIDR(v6, val).value;
    if val == PrefixText(v6, p) {
      PrefixTextInjective(v6, q, p);
    }
  }

  lemma NothingKept(v6: V6Codec, ip: string)
    ensures Kept(v6, [], ip) == Some([])
  {
  }

  // ---- the dump of a device is canonical ----

  lemma NetTextCanonical(v6: V6Codec, p: Prefix)
    requires v6.Lawful() && Masked(p) == p
    ensures CanonicalNet(v6, PrefixText(v6, p))
  {
    MaskedTextReadsBack(v6, p);
  }

  lemma {:induction false} NetTextsCanonical(v6: V6Codec, ips: seq<Prefix>)
    requires v6.Lawful() && forall i :: 0 <= i < |ips| ==> Masked(ips[i]) == ips[i]
    ensures forall t :: t in NetTexts(v6, ips) ==> CanonicalNet(v6, t)
  {
    hide CanonicalNet, PrefixText, Masked;
    if ips != [] {
      NetTextsCanonical(v6, ips[..|ips| - 1]);
      NetTextCanonical(v6, ips[|ips| - 1]);
    }
  }

  lemma KeyTextCanonical(k: Key)
    ensures CanonicalKey(HexEncode(k))
  {
    KeyTextRoundTrip(k);
  }

  lemma BlockCanonical(v6: V6Codec, k: Key, p: DevPeer)
    requires v6.Lawful() && ValidPeer(p)
    ensures CanonicalValues(v6, PeerBlock(v6, k, p))
  {
    hide PeerBlock, Values, HexEncode, CanonicalNet, CanonicalKey, NetTexts;
    var b := PeerBlock(v6, k, p);
    BlockValues(v6, k, p);
    NetTextsCanonical(v6, p.allowedIPs);
    KeyTextCanonical(k);
    forall e: Entry | e in b && e.0 == PublicKey
      ensures CanonicalKey(e.1)
    {
      ValueIsAssigned(b, PublicKey, e.1);
      assert e.1 in [HexEncode(k)];
    }
    forall e: Entry | e in b && e.0 == AllowedIP
      ensures CanonicalNet(v6, e.1)
    {
      ValueIsAssigned(b, AllowedIP, e.1);
    }
  }

  lemma {:induction false} BlocksCanonical(v6: V6Codec, peers: Peers, order: seq<Key>)
    requires v6.Lawful() && forall k :: k in order ==> k in peers && ValidPeer(peers[k])
    ensures CanonicalValues(v6, PeerBlocks(v6, peers, order))
  {
    hide PeerBlock, CanonicalKey, CanonicalNet, ValidPeer;
    if order != [] {
      BlocksCanonical(v6, peers, order[..|order| - 1]);
      BlockCanonical(v6, order[|order| - 1], peers[order[|order| - 1]]);
    }
  }

  lemma DeviceHasNoNets(cfg: Config)
    ensures forall e: Entry :: e in DeviceEntries(cfg) ==> e.0 != PublicKey && e.0 != AllowedIP
  {
    hide KeyHex, NumberText;
  }

  lemma DifferentKeysDifferentBlocks(v6: V6Codec, peers: Peers, order: seq<Key>)
    requires Lists(order, peers)
    ensures DistinctKeys(BlockList(v6, peers, order))
  {
    hide BlockList, PeerBlock, HexEncode, Blocks, KeyOf;
    var blocks: seq<seq<Entry>> := BlockList(v6, peers, order);
    forall i, j | 0 <= i < j < |blocks|
      ensures KeyOf(blocks[i]) != KeyOf(blocks[j])
    {
      BlockListKey(v6, peers, order, i);
      BlockListKey(v6, peers, order, j);
    }
  }

  lemma BlockListKey(v6: V6Codec, peers: Peers, order: seq<Key>, i: nat)
    requires Lists(order, peers) && i < |order|
    ensures KeyOf(BlockList(v6, peers, order)[i]) == Some(order[i])
  {
    hide BlockList, PeerBlock, HexEncode, HexDecode, Blocks;
    BlockListAt(v6, peers, order, i);
    BlockShape(v6, order[i], peers[order[i]]);
    HexRoundTrip(order[i]);
  }

  lemma DumpCanonical(v6: V6Codec, dev: Dev, order: seq<Key>)
    requires v6.Lawful() && ValidDev(dev) && Lists(order, dev.peers)
    ensures Canonical(v6, TextEntries(DumpText(v6, dev, order)))
  {
    hide DumpText, TextEntries, TightLines, BlockList, Blocks, DeviceEntries, PeerBlocks, CanonicalNet, CanonicalKey,
      DistinctKeys, ValidPeer, Printable, ValidKeys, DeviceConfig;
    DumpTextEntries(v6, dev, order);
    DumpBlocks(v6, dev, order);
    BlocksCanonical(v6, dev.peers, order);
    DeviceHasNoNets(DeviceConfig(dev));
    DifferentKeysDifferentBlocks(v6, dev.peers, order);
  }

  /** What the scan of RemoveAllowedIP finds in the dump of a device: the list of the peer, without the prefix. */
  lemma RemovalOfDump(v6: V6Codec, dev: Dev, order: seq<Key>, k: Key, p: Prefix)
    requires v6.Lawful() && ValidDev(dev) && Lists(order, dev.peers)
    ensures RemovalOf(v6, HexEncode(k), PrefixText(v6, p), DumpText(v6, dev, order)) ==
            if k in dev.peers
            then Some((p in dev.peers[k].allowedIPs, Without(dev.peers[k].allowedIPs, p)))
            else Some((false, []))
  {
    hide RemovalOf, StatusOf, HexEncode, PrefixText, Without, DumpText, TextEntries, TightLines, CanonicalValues,
      ValidDev, ReportedPeers, KeyText, ExpectedEndpoint, HandshakeTime, DistinctKeys, RemovalFits, KeyOf, Blocks,
      BlockList, DumpEntries, ValidKeys, Printable;
    var text := DumpText(v6, dev, order);
    DumpTextEntries(v6, dev, order);
    DumpCanonical(v6, dev, order);
    DumpBlocks(v6, dev, order);
    StatusOfDump(v6, "", dev, order);
    RemovalMatchesStatus(v6, "", text, k, p);
    var peers := StatusOf(v6, "", text).peers;
    forall i | 0 <= i < |order|
      ensures peers[i].publicKey == KeyText(k) <==> order[i] == k
      ensures peers[i].allowedIPs == dev.peers[order[i]].allowedIPs
    {
      ReportedPeerAt(dev.peers, order, i);
      KeyTextRoundTrip(k);
      KeyTextRoundTrip(order[i]);
    }
    if k in dev.peers {
      var i :| 0 <= i < |order| && order[i] == k;
      assert peers[i].publicKey == KeyText(k);
      BlockListKey(v6, dev.peers, order, i);
      CanonicalFits(v6, TextEntries(text), i, k, p);
    }
  }
}
