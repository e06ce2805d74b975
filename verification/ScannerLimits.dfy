/**
 Where parseStatus and parseTransfers part: only the second one trims every line. On any text at all parseTransfers
 reads what parseStatus reads from the same text with its lines trimmed.
 */
module ScannerLimits {
  import opened Wrappers
  import opened Encodings
  import opened Text
  import opened Net
  import opened Wg
  import opened UapiText
  import opened Status
  import opened ScannerAgreement
  import opened Printer
  import opened PrintParse

  /** The text with every line trimmed. */
  function WithTrimmedLines(text: string): string {
    Join(TrimmedLines(Split(text, '\n')), '\n')
  }

  lemma {:induction false} TrimmedIsTight(s: string)
    ensures Tight(TrimSpace(s)) && forall c :: c in TrimSpace(s) ==> c in s
    decreases |s|
  {
    if s == "" {
    } else if IsSpace(s[0]) {
      TrimmedIsTight(s[1..]);
    } else if IsSpace(s[|s| - 1]) {
      TrimmedIsTight(s[..|s| - 1]);
    }
  }

  lemma {:induction false} PiecesHaveNoSeparator(s: string, sep: char)
    ensures forall p :: p in Split(s, sep) ==> sep !in p
  {
    if s != "" {
      PiecesHaveNoSeparator(s[1..], sep);
      var rest := Split(s[1..], sep);
      assert rest[0] in rest;
      forall p | p in Split(s, sep)
        ensures sep !in p
      {
        assert p in rest || p == "" || p == [s[0]] + rest[0];
      }
    }
  }

  lemma TrimmedLinesSplit(text: string)
    ensures Split(WithTrimmedLines(text), '\n') == TrimmedLines(Split(text, '\n'))
    ensures TightLines(WithTrimmedLines(text))
  {
    hide TrimSpace, Split, Tight;
    var lines := Split(text, '\n');
    var trimmed := TrimmedLines(lines);
    PiecesHaveNoSeparator(text, '\n');
    forall p | p in trimmed
      ensures '\n' !in p && Tight(p)
    {
      var i :| 0 <= i < |lines| && trimmed[i] == p;
      TrimmedIsTight(lines[i]);
      assert lines[i] in lines;
    }
    SplitUndoesJoin(trimmed, '\n');
  }

  /** On any text, the transfers are those of the text with trimmed lines. */
  lemma TransfersTrimLines(text: string)
    ensures TransfersOf(text) == TransfersOf(WithTrimmedLines(text))
  {
    hide WithTrimmedLines, Split, TransferScanOf, TightLines;
    TrimmedLinesSplit(text);
    TrimmedTightLines(WithTrimmedLines(text));
  }

  /**
   parseTransfers agrees with parseStatus on the text with trimmed lines, for any text whose keys are valid and whose
   counters are numbers.
   */
  lemma TransfersFollowTrimmedStatus(v6: V6Codec, device: string, text: string)
    requires var t := WithTrimmedLines(text); ValidKeys(TextEntries(t)) && Countable(TextEntries(t))
    ensures TransfersOf(text) == Success(CountersByPeer(StatusOf(v6, device, WithTrimmedLines(text)).peers))
  {
    hide WithTrimmedLines, TransfersOf, StatusOf, ValidKeys, Countable, TightLines, TextEntries;
    TransfersTrimLines(text);
    TrimmedLinesSplit(text);
    TightLinesAreEnough(WithTrimmedLines(text));
    TransfersAreCountedPeers(v6, device, WithTrimmedLines(text));
  }

  // ---- a padded line tells the scanners apart ----

  /** A key line, and a counter line that starts with a blank. */
  function PaddedDump(k: Key, n: int): string {
    Line(PublicKey, HexEncode(k)) + "\n" + (" " + Line(RxBytes, PrintInt(n)))
  }

  lemma PaddedLineIsUnknown(f: Field, val: string)
    requires f != Unknown
    ensures EntryOf(" " + Line(f, val)) == Some((Unknown, val))
  {
    PlainName(f);
    hide FieldName;
    var name := " " + FieldName(f);
    assert " " + Line(f, val) == name + "=" + val;
    CutLine(name, val);
    FieldOfName(Unknown, name);
    if FieldOf(name) != Unknown {
      NameShape(FieldOf(name));
      LettersAreNotBlank(FieldOf(name));
    }
  }

  lemma LettersAreNotBlank(f: Field)
    requires f != Unknown
    ensures FirstLetter(f) != ' '
  {
  }

  lemma TwoEntries(a: string, b: string, e: Entry, f: Entry)
    requires EntryOf(a) == Some(e) && EntryOf(b) == Some(f)
    ensures Entries([a, b]) == [e, f]
  {
    hide EntryOf;
    assert [a, b][..1] == [a];
    EntriesOfOne(a);
  }

  lemma PaddedLines(k: Key, n: int)
    ensures var text, a, b := PaddedDump(k, n), Line(PublicKey, HexEncode(k)), Line(RxBytes, PrintInt(n));
            Split(text, '\n') == [a, " " + b] && TrimSpace(text) == text
            && TrimSpace(a) == a && TrimSpace(" " + b) == b
  {
    var a, b := Line(PublicKey, HexEncode(k)), Line(RxBytes, PrintInt(n));
    HexValueIsPlain(k);
    NumberIsPlain(n);
    PlainLine((PublicKey, HexEncode(k)));
    PlainLine((RxBytes, PrintInt(n)));
    LineIsNotBlank(PublicKey, HexEncode(k));
    LineIsNotBlank(RxBytes, PrintInt(n));
    hide Line, HexEncode, PrintInt, PlainValue;
    SplitAtSeparator(a, '\n', " " + b);
    SplitWithoutSeparator(" " + b, '\n');
    assert PaddedDump(k, n) == a + ['\n'] + (" " + b);
    TightLineIsTrimmed(PaddedDump(k, n));
    TightLineIsTrimmed(a);
    TightLineIsTrimmed(b);
    assert (" " + b)[1..] == b;
  }

  lemma StatusOfOneBlock(v6: V6Codec, device: string, text: string, e: Entry, f: Entry)
    requires TrimSpace(text) == text && TextEntries(text) == [e, f]
    requires e.0 == PublicKey && HexKey(e.1).Some? && f.0 != PublicKey
    ensures StatusOf(v6, device, text).peers == [PeerOf(v6, [e, f])]
  {
    hide StatusScan, HexKey, PeerOf, TrimSpace, TextEntries, Blocks;
    assert [e] + [f] == [e, f];
    OneBlock(e, [f]);
    ScanFollowsBlocks(v6, device, [e, f]);
    SavedPeers(v6, StatusScan(v6, device, [e, f]), [[e, f]]);
    assert [[e, f]][..0] == [];
  }

  /** parseStatus does not see the counter. */
  lemma PaddedStatus(v6: V6Codec, device: string, k: Key, n: int)
    ensures var peers := StatusOf(v6, device, PaddedDump(k, n)).peers;
            |peers| == 1 && peers[0].publicKey == KeyText(k) && peers[0].rxBytes == 0
  {
    hide Line, HexEncode, PrintInt, PeerOf, TrimSpace, Split, PaddedDump, StatusOf, HexKey, KeyText, EntryOf, Entries;
    var e: Entry, f: Entry := (PublicKey, HexEncode(k)), (Unknown, PrintInt(n));
    PaddedLines(k, n);
    EntryOfLine(PublicKey, HexEncode(k));
    PaddedLineIsUnknown(RxBytes, PrintInt(n));
    TwoEntries(Line(PublicKey, HexEncode(k)), " " + Line(RxBytes, PrintInt(n)), e, f);
    KeyTextRoundTrip(k);
    StatusOfOneBlock(v6, device, PaddedDump(k, n), e, f);
    PaddedBlock(v6, e, f);
  }

  lemma PaddedBlock(v6: V6Codec, e: Entry, f: Entry)
    requires e.0 == PublicKey && HexKey(e.1).Some? && f.0 == Unknown
    ensures PeerOf(v6, [e, f]).rxBytes == 0 && PeerOf(v6, [e, f]).publicKey == KeyText(HexKey(e.1).value)
  {
    KeyLineHasNoValues(v6, e);
    ValuesOneMore([e], f, RxBytes);
    hide Values, LastInt, LastEndpoint, Networks, AnyPreshared, HexDecode, Base64Encode;
    assert [e] + [f] == [e, f];
  }

  lemma TransferOfOneBlock(e: Entry, f: Entry, k: Key, n: int)
    requires e.0 == PublicKey && HexDecode(e.1) == Some(k) && f.0 == RxBytes && ParseInt64(f.1) == Some(n)
    ensures TransferScanOf([e, f]).Success?
    ensures TransferScanOf([e, f]).value.stats == map[KeyText(k) := WGStats(None, 0, n)]
  {
    hide HexDecode, ParseInt64, Base64Encode, TransferScanOf, HandshakeTime;
    var s := TransferStep(TransferScan(map[], None), e);
    assert s == Success(TransferScan(map[KeyText(k) := NO_TRAFFIC], Some((KeyText(k), NO_TRAFFIC))));
    TwoTransferSteps(e, f);
  }

  lemma TwoTransferSteps(e: Entry, f: Entry)
    ensures TransferScanOf([e, f]) ==
            match TransferStep(TransferScan(map[], None), e)
            case Failure(x) => Failure(x)
            case Success(s) => TransferStep(s, f)
  {
    hide TransferStep;
    assert [e, f][..1] == [e] && [e][..0] == [];
    assert TransferScanOf([e]) == TransferStep(TransferScan(map[], None), e);
  }

  /** parseTransfers reads it. */
  lemma PaddedTransfers(k: Key, n: int)
    requires InInt64(n)
    ensures TransfersOf(PaddedDump(k, n)) == Success(map[KeyText(k) := WGStats(None, 0, n)])
  {
    hide Line, HexEncode, HexDecode, PrintInt, ParseInt64, TrimSpace, Split, PaddedDump, KeyText, TransferScanOf,
      EntryOf, Entries;
    var e: Entry, f: Entry := (PublicKey, HexEncode(k)), (RxBytes, PrintInt(n));
    PaddedLines(k, n);
    EntryOfLine(PublicKey, HexEncode(k));
    EntryOfLine(RxBytes, PrintInt(n));
    TwoEntries(Line(PublicKey, HexEncode(k)), Line(RxBytes, PrintInt(n)), e, f);
    HexRoundTrip(k);
    IntRoundTrip(n);
    TransferOfOneBlock(e, f, k, n);
    assert TrimmedLines(Split(PaddedDump(k, n), '\n')) == [Line(PublicKey, e.1), Line(RxBytes, f.1)];
  }

  /** For every key and every number but zero, a padded counter line makes the two scanners disagree. */
  lemma PaddedDumpDisagrees(v6: V6Codec, device: string, k: Key, n: int)
    requires InInt64(n) && n != 0
    ensures TransfersOf(PaddedDump(k, n)).Success?
    ensures TransfersOf(PaddedDump(k, n)).value != CountersByPeer(StatusOf(v6, device, PaddedDump(k, n)).peers)
  {
    PaddedStatus(v6, device, k, n);
    PaddedTransfers(k, n);
    hide StatusOf, TransfersOf, PaddedDump, KeyText;
    var peers := StatusOf(v6, device, PaddedDump(k, n)).peers;
    LastPeerCounts(peers, 0);
    assert map[KeyText(k) := WGStats(None, 0, n)][KeyText(k)].rxBytes == n;
  }
}
