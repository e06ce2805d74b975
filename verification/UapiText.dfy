/** The `key=value` lines of WireGuard's configuration protocol, and how a dump is divided into peers. */
module UapiText {
  import opened Wrappers
  import opened Text

  /** The keys that one of the scanners, the printer or the device knows. */
  datatype Field =
    | PrivateKey | ListenPort | FwMark | ReplacePeers
    | PublicKey | PresharedKey | Remove | UpdateOnly | ReplaceAllowedIPs | AllowedIP | Endpoint | Keepalive
    | ProtocolVersion | HandshakeSec | HandshakeNsec | TxBytes | RxBytes
    | Unknown

  function FieldName(f: Field): string {
    match f
    case PrivateKey => "private_key"
    case ListenPort => "listen_port"
    case FwMark => "fwmark"
    case ReplacePeers => "replace_peers"
    case PublicKey => "public_key"
    case PresharedKey => "preshared_key"
    case Remove => "remove"
    case UpdateOnly => "update_only"
    case ReplaceAllowedIPs => "replace_allowed_ips"
    case AllowedIP => "allowed_ip"
    case Endpoint => "endpoint"
    case Keepalive => "persistent_keepalive_interval"
    case ProtocolVersion => "protocol_version"
    case HandshakeSec => "last_handshake_time_sec"
    case HandshakeNsec => "last_handshake_time_nsec"
    case TxBytes => "tx_bytes"
    case RxBytes => "rx_bytes"
    case Unknown => ""
  }

  const FIELDS := [PrivateKey, ListenPort, FwMark, ReplacePeers, PublicKey, PresharedKey, Remove, UpdateOnly,
                   ReplaceAllowedIPs, AllowedIP, Endpoint, Keepalive, ProtocolVersion, HandshakeSec, HandshakeNsec,
                   TxBytes, RxBytes]

  /** The first of the given fields that has this name. */
  function Named(fields: seq<Field>, name: string): Field {
    if fields == [] then Unknown
    else if FieldName(fields[0]) == name then fields[0]
    else Named(fields[1..], name)
  }

  /** The field a scanner's switch selects for a key. */
  function FieldOf(name: string): Field {
    if name == "" then Unknown else Named(FIELDS, name)
  }

  /** Two fields differ in the length or in the first letter of their names. */
  lemma NameShape(f: Field)
    ensures f != Unknown ==> FieldName(f) != ""
    ensures |FieldName(f)| == NameLength(f) && (f != Unknown ==> FieldName(f)[0] == FirstLetter(f))
  {
  }

  function NameLength(f: Field): nat {
    match f
    case PrivateKey => 11 case ListenPort => 11 case FwMark => 6 case ReplacePeers => 13
    case PublicKey => 10 case PresharedKey => 13 case Remove => 6 case UpdateOnly => 11
    case ReplaceAllowedIPs => 19 case AllowedIP => 10 case Endpoint => 8 case Keepalive => 29
    case ProtocolVersion => 16 case HandshakeSec => 23 case HandshakeNsec => 24 case TxBytes => 8
    case RxBytes => 8 case Unknown => 0
  }

  function FirstLetter(f: Field): char {
    match f
    case PrivateKey => 'p' case ListenPort => 'l' case FwMark => 'f' case ReplacePeers => 'r'
    case PublicKey => 'p' case PresharedKey => 'p' case Remove => 'r' case UpdateOnly => 'u'
    case ReplaceAllowedIPs => 'r' case AllowedIP => 'a' case Endpoint => 'e' case Keepalive => 'p'
    case ProtocolVersion => 'p' case HandshakeSec => 'l' case HandshakeNsec => 'l' case TxBytes => 't'
    case RxBytes => 'r' case Unknown => ' '
  }

  lemma NamesDiffer(f: Field, g: Field)
    requires FieldName(f) == FieldName(g)
    ensures f == g
  {
    NameShape(f);
    NameShape(g);
    hide FieldName;
  }

  lemma {:induction false} NamedFinds(fields: seq<Field>, f: Field)
    requires f in fields
    ensures Named(fields, FieldName(f)) == f
  {
    hide FieldName;
    if FieldName(fields[0]) == FieldName(f) {
      NamesDiffer(fields[0], f);
    } else {
      NamedFinds(fields[1..], f);
    }
  }

  lemma {:induction false} NamedIsRight(fields: seq<Field>, name: string)
    ensures Named(fields, name) != Unknown ==> FieldName(Named(fields, name)) == name
  {
    hide FieldName;
    if fields != [] {
      NamedIsRight(fields[1..], name);
    }
  }

  /** Looking up the name of a field finds that field, and nothing else. */
  lemma FieldOfName(f: Field, name: string)
    ensures FieldOf(FieldName(f)) == f
    ensures FieldOf(name) != Unknown ==> FieldName(FieldOf(name)) == name
  {
    NameShape(f);
    NameShape(Unknown);
    hide FieldName;
    NamedIsRight(FIELDS, name);
    if f != Unknown {
      assert f in FIELDS;
      NamedFinds(FIELDS, f);
    }
  }

  predicate IsNameChar(c: char) {
    'a' <= c <= 'z' || c == '_'
  }

  lemma PlainDeviceName(f: Field)
    requires f.PrivateKey? || f.ListenPort? || f.FwMark? || f.ReplacePeers? || f.PublicKey? || f.PresharedKey?
             || f.Remove? || f.UpdateOnly?
    ensures forall i :: 0 <= i < |FieldName(f)| ==> IsNameChar(FieldName(f)[i])
  {
  }

  lemma PlainPeerName(f: Field)
    requires f.ReplaceAllowedIPs? || f.AllowedIP? || f.Endpoint? || f.Keepalive? || f.ProtocolVersion?
    ensures forall i :: 0 <= i < |FieldName(f)| ==> IsNameChar(FieldName(f)[i])
  {
  }

  lemma PlainCounterName(f: Field)
    requires f.HandshakeSec? || f.HandshakeNsec? || f.TxBytes? || f.RxBytes?
    ensures forall i :: 0 <= i < |FieldName(f)| ==> IsNameChar(FieldName(f)[i])
  {
  }

  /** Names are letters and underscores, so the first '=' of a line ends the name. */
  lemma PlainName(f: Field)
    ensures '=' !in FieldName(f) && '\n' !in FieldName(f)
  {
    NameShape(f);
    hide FieldName;
    match f {
      case Unknown =>
      case ReplaceAllowedIPs | AllowedIP | Endpoint | Keepalive | ProtocolVersion => PlainPeerName(f);
      case HandshakeSec | HandshakeNsec | TxBytes | RxBytes => PlainCounterName(f);
      case _ => PlainDeviceName(f);
    }
  }

  /** One assignment of a dump. */
  type Entry = (Field, string)

  function Line(f: Field, val: string): string {
    FieldName(f) + "=" + val
  }

  lemma LineIsNotBlank(f: Field, val: string)
    ensures Line(f, val) != ""
  {
    hide FieldName;
    assert |Line(f, val)| >= 1;
  }

  /** The assignment that a line makes, if it has a '=' at all. */
  function EntryOf(line: string): Option<Entry> {
    match Cut(line)
    case None => None
    case Some((k, v)) => Some((FieldOf(k), v))
  }

  lemma EntryOfLine(f: Field, val: string)
    ensures EntryOf(Line(f, val)) == Some((f, val))
  {
    PlainName(f);
    FieldOfName(f, "");
    hide FieldName, FieldOf;
    CutLine(FieldName(f), val);
  }

  /** The prefix test `HasPrefix(line, key=)` finds exactly the assignments to that key. */
  lemma EntryByPrefix(f: Field, line: string)
    requires f != Unknown
    ensures FieldName(f) + "=" <= line <==> EntryOf(line).Some? && EntryOf(line).value.0 == f
    ensures FieldName(f) + "=" <= line ==> EntryOf(line).value.1 == line[|FieldName(f)| + 1..]
  {
    PlainName(f);
    hide FieldName, FieldOf;
    CutPrefix(FieldName(f), line);
    if Cut(line).Some? {
      FieldOfName(f, Cut(line).value.0);
    }
  }

  /** Comparing a whole line finds exactly one assignment. */
  lemma EntryByEquality(f: Field, val: string, line: string)
    requires f != Unknown
    ensures line == Line(f, val) <==> EntryOf(line) == Some((f, val))
  {
    EntryOfLine(f, val);
    hide FieldName, FieldOf;
    CutParts(line);
    if Cut(line).Some? {
      FieldOfName(f, Cut(line).value.0);
    }
  }

  /** The assignments of a sequence of lines, in order. */
  function Entries(lines: seq<string>): seq<Entry> {
    if lines == [] then []
    else
      var front := Entries(lines[..|lines| - 1]);
      match EntryOf(lines[|lines| - 1])
      case None => front
      case Some(e) => front + [e]
  }

  lemma {:induction false} EntriesConcat(a: seq<string>, b: seq<string>)
    ensures Entries(a + b) == Entries(a) + Entries(b)
  {
    hide EntryOf;
    if b == [] {
      assert a + b == a;
    } else {
      EntriesConcat(a, b[..|b| - 1]);
      assert (a + b)[..|a + b| - 1] == a + b[..|b| - 1];
    }
  }

  lemma EntriesOfOne(line: string)
    ensures Entries([line]) == match EntryOf(line) case None => [] case Some(e) => [e]
  {
    assert [line][..0] == [];
  }

  /** The values assigned to one key, in order. */
  function Values(entries: seq<Entry>, f: Field): seq<string> {
    if entries == [] then []
    else
      var front := Values(entries[..|entries| - 1], f);
      var last := entries[|entries| - 1];
      if last.0 == f then front + [last.1] else front
  }

  lemma {:induction false} ValuesConcat(a: seq<Entry>, b: seq<Entry>, f: Field)
    ensures Values(a + b, f) == Values(a, f) + Values(b, f)
  {
    if b == [] {
      assert a + b == a;
    } else {
      ValuesConcat(a, b[..|b| - 1], f);
      assert (a + b)[..|a + b| - 1] == a + b[..|b| - 1];
    }
  }

  lemma {:induction false} ValueIsAssigned(entries: seq<Entry>, f: Field, v: string)
    ensures v in Values(entries, f) <==> (f, v) in entries
  {
    if entries != [] {
      ValueIsAssigned(entries[..|entries| - 1], f, v);
      assert entries == entries[..|entries| - 1] + [entries[|entries| - 1]];
    }
  }

  /** The sequence with its last element replaced. */
  function WithLast<T>(s: seq<T>, x: T): (r: seq<T>)
    requires s != []
    ensures |r| == |s| && r[|r| - 1] == x && r[..|r| - 1] == s[..|s| - 1]
    ensures forall i :: 0 <= i < |s| - 1 ==> r[i] == s[i]
  {
    s[..|s| - 1] + [x]
  }

  lemma WithLastOfSum<T>(a: seq<T>, b: seq<T>, x: T)
    requires b != []
    ensures WithLast(a + b, x) == a + WithLast(b, x)
  {
  }

  /** The peers of a dump: each `public_key` line opens a block that runs to the next one. */
  function Blocks(entries: seq<Entry>): (blocks: seq<seq<Entry>>)
    ensures forall i :: 0 <= i < |blocks| ==> blocks[i] != [] && blocks[i][0].0 == PublicKey
  {
    if entries == [] then []
    else
      var front := Blocks(entries[..|entries| - 1]);
      var last := entries[|entries| - 1];
      if last.0 == PublicKey then front + [[last]]
      else if front == [] then []
      else WithLast(front, front[|front| - 1] + [last])
  }

  /** A run of entries that starts with a key line forms its own blocks. */
  lemma {:induction false} BlocksConcat(a: seq<Entry>, b: seq<Entry>)
    requires b == [] || b[0].0 == PublicKey
    ensures Blocks(a + b) == Blocks(a) + Blocks(b)
    ensures b != [] ==> Blocks(b) != []
  {
    if b == [] {
      assert a + b == a;
    } else {
      var front, last := b[..|b| - 1], b[|b| - 1];
      assert (a + b)[..|a + b| - 1] == a + front;
      BlocksConcat(a, front);
      if front != [] && last.0 != PublicKey {
        WithLastOfSum(Blocks(a), Blocks(front), Blocks(front)[|Blocks(front)| - 1] + [last]);
      }
    }
  }

  /** A key line followed by other lines is one block. */
  lemma {:induction false} OneBlock(head: Entry, rest: seq<Entry>)
    requires head.0 == PublicKey && forall e: Entry :: e in rest ==> e.0 != PublicKey
    ensures Blocks([head] + rest) == [[head] + rest]
  {
    var b := [head] + rest;
    if rest == [] {
      assert b[..0] == [];
      assert b == [head];
    } else {
      var front, last := rest[..|rest| - 1], rest[|rest| - 1];
      assert last in rest;
      OneBlock(head, front);
      assert b[..|b| - 1] == [head] + front;
      assert b == ([head] + front) + [last];
    }
  }

  lemma {:induction false} NoBlocks(b: seq<Entry>)
    requires forall e: Entry :: e in b ==> e.0 != PublicKey
    ensures Blocks(b) == []
  {
    if b != [] {
      NoBlocks(b[..|b| - 1]);
      assert b[|b| - 1] in b;
    }
  }

  /** Every entry of a block is an entry of the dump. */
  lemma {:induction false} BlockEntries(entries: seq<Entry>)
    ensures forall b: seq<Entry>, e: Entry :: b in Blocks(entries) && e in b ==> e in entries
  {
    hide Blocks;
    if entries == [] {
      NoBlocks([]);
    } else {
      var front, last := entries[..|entries| - 1], entries[|entries| - 1];
      BlockEntries(front);
      assert entries == front + [last];
      forall b: seq<Entry>, e: Entry | b in Blocks(entries) && e in b
        ensures e in entries
      {
        BlockOfLonger(front, last, b);
      }
    }
  }

  /** A block of a longer run is an earlier one, a new one, or the last one with one more entry. */
  lemma BlockOfLonger(entries: seq<Entry>, last: Entry, b: seq<Entry>)
    requires b in Blocks(entries + [last])
    ensures b in Blocks(entries) || b == [last]
            || (Blocks(entries) != [] && Blocks(entries)[|Blocks(entries)| - 1] in Blocks(entries)
                && b == Blocks(entries)[|Blocks(entries)| - 1] + [last])
  {
    assert (entries + [last])[..|entries|] == entries;
  }

  // ---- lines without surrounding white space ----

  /** Every line of the text is free of surrounding white space. */
  predicate TightLines(text: string) {
    forall l :: l in Split(text, '\n') ==> Tight(l)
  }

  /** The assignments of a text. */
  function TextEntries(text: string): seq<Entry> {
    Entries(Split(text, '\n'))
  }

  /** Trimming the whole text drops only blank lines when the lines are tight. */
  lemma {:induction false} TrimKeepsEntries(text: string)
    requires TightLines(text)
    ensures TextEntries(TrimSpace(text)) == TextEntries(text)
    decreases |text|
  {
    if text == "" {
    } else if IsSpace(text[0]) {
      var lines := Split(text, '\n');
      var rest := text[1..];
      assert text[0] == '\n' by {
        assert lines[0] in lines;
      }
      assert lines == [""] + Split(rest, '\n');
      assert forall l :: l in Split(rest, '\n') ==> l in lines;
      TrimKeepsEntries(rest);
      EntriesConcat([""], Split(rest, '\n'));
      EntriesOfOne("");
    } else if IsSpace(text[|text| - 1]) {
      var lines := Split(text, '\n');
      var front := text[..|text| - 1];
      LastOfSplit(front, text[|text| - 1]);
      assert lines[|lines| - 1] in lines;
      assert text == front + [text[|text| - 1]];
      assert text[|text| - 1] == '\n';
      SplitTrailing(front, '\n');
      assert forall l :: l in Split(front, '\n') ==> l in lines;
      TrimKeepsEntries(front);
      EntriesConcat(Split(front, '\n'), [""]);
      EntriesOfOne("");
    }
  }

  lemma {:induction false} LastOfSplit(front: string, c: char)
    ensures c != '\n' ==>
              var lines := Split(front + [c], '\n');
              lines[|lines| - 1] != "" && lines[|lines| - 1][|lines[|lines| - 1]| - 1] == c
  {
    var s := front + [c];
    if front == "" {
      assert s[1..] == "";
    } else {
      assert s[1..] == front[1..] + [c];
      LastOfSplit(front[1..], c);
    }
  }
}
