/**
 The printer of go/iface/configurer/usp.go: toWgUserspaceString writes a configuration as protocol text. Reading
 the text back with parseStatus recovers the configuration.
 */
module Printer {
  import opened Wrappers
  import opened Encodings
  import opened Text
  import opened Net
  import opened Wg
  import opened UapiText

  // ---- rendering assignments ----

  /** The text of a sequence of assignments, one line each. */
  function EntriesText(entries: seq<Entry>): string {
    if entries == [] then ""
    else
      var last := entries[|entries| - 1];
      EntriesText(entries[..|entries| - 1]) + Line(last.0, last.1) + "\n"
  }

  function Render(entries: seq<Entry>): (lines: seq<string>)
    ensures |lines| == |entries|
  {
    if entries == [] then []
    else
      var last := entries[|entries| - 1];
      Render(entries[..|entries| - 1]) + [Line(last.0, last.1)]
  }

  /** A value that is written on one line and keeps its ends when the line is trimmed. */
  predicate PlainValue(val: string) {
    val != "" && '\n' !in val && !IsSpace(val[|val| - 1])
  }

  predicate Printable(entries: seq<Entry>) {
    forall e :: e in entries ==> e.0 != Unknown && PlainValue(e.1)
  }

  lemma {:induction false} EntriesTextConcat(a: seq<Entry>, b: seq<Entry>)
    ensures EntriesText(a + b) == EntriesText(a) + EntriesText(b)
  {
    hide Line;
    if b == [] {
      assert a + b == a;
    } else {
      EntriesTextConcat(a, b[..|b| - 1]);
      assert (a + b)[..|a + b| - 1] == a + b[..|b| - 1];
    }
  }

  lemma {:induction false} EntriesTextLines(entries: seq<Entry>)
    ensures EntriesText(entries) == Unlines(Render(entries))
  {
    hide Line;
    if entries != [] {
      var front, last := entries[..|entries| - 1], entries[|entries| - 1];
      EntriesTextLines(front);
      UnlinesConcat(Render(front), [Line(last.0, last.1)]);
      assert [Line(last.0, last.1)][1..] == [];
      assert Unlines([Line(last.0, last.1)]) == Line(last.0, last.1) + "\n";
    }
  }

  lemma PlainLine(e: Entry)
    requires e.0 != Unknown && PlainValue(e.1)
    ensures '\n' !in Line(e.0, e.1) && Tight(Line(e.0, e.1))
  {
    PlainName(e.0);
    NameShape(e.0);
    NameStart(e.0);
    hide FieldName;
  }

  lemma NameStart(f: Field)
    requires f != Unknown
    ensures FieldName(f) != "" && !IsSpace(FieldName(f)[0])
  {
    NameShape(f);
    hide FieldName;
  }

  lemma {:induction false} RenderIsPlain(entries: seq<Entry>)
    requires Printable(entries)
    ensures forall l :: l in Render(entries) ==> '\n' !in l && Tight(l)
    ensures Entries(Render(entries)) == entries
  {
    hide Line, EntryOf, Tight, PlainValue;
    if entries != [] {
      var front, last := entries[..|entries| - 1], entries[|entries| - 1];
      assert last in entries;
      RenderIsPlain(front);
      PlainLine(last);
      EntryOfLine(last.0, last.1);
      EntriesConcat(Render(front), [Line(last.0, last.1)]);
      EntriesOfOne(Line(last.0, last.1));
    }
  }

  /** The lines of printed assignments come before the lines of what follows. */
  lemma PrintedLines(entries: seq<Entry>, last: string)
    requires Printable(entries)
    ensures Split(EntriesText(entries) + last, '\n') == Render(entries) + Split(last, '\n')
  {
    EntriesTextLines(entries);
    RenderIsPlain(entries);
    SplitUnlines(Render(entries), last);
  }

  /** The assignments of a printed text are those that were printed. */
  lemma PrintedEntries(entries: seq<Entry>)
    requires Printable(entries)
    ensures TextEntries(EntriesText(entries)) == entries && TightLines(EntriesText(entries))
  {
    PrintedLines(entries, "");
    RenderIsPlain(entries);
    EntriesConcat(Render(entries), [""]);
    EntriesOfOne("");
    hide EntriesText, Render, Entries;
    assert EntriesText(entries) + "" == EntriesText(entries);
  }

  // ---- the assignments of a configuration ----

  /** An assignment that is written only when its value is given. */
  function Opt(f: Field, val: Option<string>): seq<Entry> {
    match val case None => [] case Some(v) => [(f, v)]
  }

  function Flag(f: Field, on: bool): seq<Entry> {
    if on then [(f, "true")] else []
  }

  function KeyHex(k: Option<Key>): Option<string> {
    match k case None => None case Some(v) => Some(HexEncode(v))
  }

  function NumberText(n: Option<int>): Option<string> {
    match n case None => None case Some(v) => Some(PrintInt(v))
  }

  function SecondsText(d: Option<int>): Option<string> {
    match d case None => None case Some(v) => Some(PrintInt(WholeSeconds(v)))
  }

  function AddressText(v6: V6Codec, e: Option<UdpAddr>): Option<string> {
    match e case None => None case Some(v) => Some(EndpointText(v6, v))
  }

  function DeviceEntries(cfg: Config): seq<Entry> {
    Opt(PrivateKey, KeyHex(cfg.privateKey))
    + Opt(ListenPort, NumberText(cfg.listenPort))
    + Flag(ReplacePeers, cfg.replacePeers)
    + Opt(FwMark, NumberText(cfg.firewallMark))
  }

  function AllowedEntries(v6: V6Codec, ips: seq<Prefix>): (entries: seq<Entry>)
    ensures |entries| == |ips|
  {
    if ips == [] then []
    else AllowedEntries(v6, ips[..|ips| - 1]) + [(AllowedIP, IPNetText(v6, ips[|ips| - 1]))]
  }

  /** What is written of a peer before its removal flag. */
  function PeerHead(p: PeerConfig): seq<Entry> {
    [(PublicKey, HexEncode(p.publicKey))] + Opt(PresharedKey, KeyHex(p.presharedKey))
  }

  /** What is written of a peer after its removal flag. */
  function PeerTail(v6: V6Codec, p: PeerConfig): seq<Entry> {
    Flag(ReplaceAllowedIPs, p.replaceAllowedIPs)
    + AllowedEntries(v6, p.allowedIPs)
    + Opt(Endpoint, AddressText(v6, p.endpoint))
    + Opt(Keepalive, SecondsText(p.keepalive))
  }

  /** The removal flag is written without a newline. */
  function PeerText(v6: V6Codec, p: PeerConfig): string {
    EntriesText(PeerHead(p)) + (if p.remove then Line(Remove, "true") else "") + EntriesText(PeerTail(v6, p))
  }

  function PeersText(v6: V6Codec, peers: seq<PeerConfig>): string {
    if peers == [] then "" else PeersText(v6, peers[..|peers| - 1]) + PeerText(v6, peers[|peers| - 1])
  }

  /** The text that toWgUserspaceString is meant to write. */
  function ConfigText(v6: V6Codec, cfg: Config): string {
    EntriesText(DeviceEntries(cfg)) + PeersText(v6, cfg.peers)
  }

  /** One formatted write of `key=value` and a newline; `done` lists what was written after `before`. */
  method WriteLine(sb: string, ghost before: string, ghost done: seq<Entry>, f: Field, val: string)
    returns (text: string, ghost now: seq<Entry>)
    requires sb == before + EntriesText(done)
    ensures text == before + EntriesText(now) && now == done + [(f, val)]
  {
    hide Line;
    text := sb + Line(f, val) + "\n";
    now := done + [(f, val)];
    assert now[..|done|] == done;
  }

  lemma NothingWritten()
    ensures EntriesText([]) == ""
  {
  }

  method WriteDevice(wgCfg: Config) returns (text: string)
    ensures text == EntriesText(DeviceEntries(wgCfg))
  {
    hide EntriesText, HexEncode, PrintInt;
    NothingWritten();
    text := "";
    ghost var done: seq<Entry> := [];
    if wgCfg.privateKey.Some? {
      text, done := WriteLine(text, "", done, PrivateKey, HexEncode(wgCfg.privateKey.value));
    }
    if wgCfg.listenPort.Some? {
      text, done := WriteLine(text, "", done, ListenPort, PrintInt(wgCfg.listenPort.value));
    }
    if wgCfg.replacePeers {
      text, done := WriteLine(text, "", done, ReplacePeers, "true");
    }
    if wgCfg.firewallMark.Some? {
      text, done := WriteLine(text, "", done, FwMark, PrintInt(wgCfg.firewallMark.value));
    }
    assert done == DeviceEntries(wgCfg);
  }

  method WritePeerHead(sb: string, p: PeerConfig) returns (text: string)
    ensures text == sb + EntriesText(PeerHead(p))
  {
    hide EntriesText, HexEncode;
    NothingWritten();
    ghost var done: seq<Entry> := [];
    text, done := WriteLine(sb, sb, done, PublicKey, HexEncode(p.publicKey));
    if p.presharedKey.Some? {
      text, done := WriteLine(text, sb, done, PresharedKey, HexEncode(p.presharedKey.value));
    }
    assert done == PeerHead(p);
  }

  method WritePeerTail(v6: V6Codec, sb: string, p: PeerConfig) returns (text: string)
    ensures text == sb + EntriesText(PeerTail(v6, p))
  {
    hide EntriesText, PrintInt, IPNetText, EndpointText, WholeSeconds;
    NothingWritten();
    text := sb;
    ghost var done: seq<Entry> := [];
    if p.replaceAllowedIPs {
      text, done := WriteLine(text, sb, done, ReplaceAllowedIPs, "true");
    }
    for j := 0 to |p.allowedIPs|
      invariant done == Flag(ReplaceAllowedIPs, p.replaceAllowedIPs) + AllowedEntries(v6, p.allowedIPs[..j])
      invariant text == sb + EntriesText(done)
    {
      text, done := WriteLine(text, sb, done, AllowedIP, IPNetText(v6, p.allowedIPs[j]));
      assert p.allowedIPs[..j + 1][..j] == p.allowedIPs[..j];
    }
    assert p.allowedIPs[..|p.allowedIPs|] == p.allowedIPs;
    if p.endpoint.Some? {
      text, done := WriteLine(text, sb, done, Endpoint, EndpointText(v6, p.endpoint.value));
    }
    if p.keepalive.Some? {
      text, done := WriteLine(text, sb, done, Keepalive, PrintInt(WholeSeconds(p.keepalive.value)));
    }
    assert done == PeerTail(v6, p);
  }

  method ToWgUserspaceString(v6: V6Codec, wgCfg: Config) returns (text: string)
    ensures text == ConfigText(v6, wgCfg)
  {
    hide EntriesText, PeerHead, PeerTail, DeviceEntries, Line;
    text := WriteDevice(wgCfg);
    ghost var device := text;
    for i := 0 to |wgCfg.peers|
      invariant text == device + PeersText(v6, wgCfg.peers[..i])
    {
      var p := wgCfg.peers[i];
      ghost var before := text;
      text := WritePeerHead(text, p);
      if p.remove {
        text := text + Line(Remove, "true");
      }
      text := WritePeerTail(v6, text, p);
      assert text == before + PeerText(v6, p);
      assert wgCfg.peers[..i + 1][..i] == wgCfg.peers[..i];
    }
    assert wgCfg.peers[..|wgCfg.peers|] == wgCfg.peers;
  }
}
