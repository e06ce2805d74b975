/**
 parseStatus and parseTransfers agree on every text whose key and counter lines have no surrounding white space; how
 any other line is padded does not matter.
 */
module ScannerAgreement {
  import opened Wrappers
  import opened Text
  import opened Net
  import opened Wg
  import opened UapiText
  import opened Status

  // ---- what parseTransfers reads ----

  /** The keys that parseTransfers acts on. */
  predicate IsRead(f: Field) {
    f == PublicKey || IsCounter(f)
  }

  /** The assignments to these keys. */
  function ReadEntries(entries: seq<Entry>): seq<Entry> {
    if entries == [] then []
    else
      var front, last := ReadEntries(entries[..|entries| - 1]), entries[|entries| - 1];
      if IsRead(last.0) then front + [last] else front
  }

  lemma {:induction false} ReadConcat(a: seq<Entry>, b: seq<Entry>)
    ensures ReadEntries(a + b) == ReadEntries(a) + ReadEntries(b)
  {
    if b == [] {
      assert a + b == a;
    } else {
      ReadConcat(a, b[..|b| - 1]);
      assert (a + b)[..|a + b| - 1] == a + b[..|b| - 1];
    }
  }

  lemma {:induction false} ReadMembers(entries: seq<Entry>, e: Entry)
    ensures e in ReadEntries(entries) <==> e in entries && IsRead(e.0)
  {
    if entries != [] {
      ReadMembers(entries[..|entries| - 1], e);
      assert entries == entries[..|entries| - 1] + [entries[|entries| - 1]];
    }
  }

  lemma OtherEntriesIgnored(s: TransferScan, e: Entry)
    requires !IsRead(e.0)
    ensures TransferStep(s, e) == Success(s)
  {
  }

  /** Nothing else matters to parseTransfers. */
  lemma {:induction false} TransfersOfRead(entries: seq<Entry>)
    ensures TransferScanOf(entries) == TransferScanOf(ReadEntries(entries))
  {
    hide TransferStep, IsRead;
    if entries != [] {
      var front, last := entries[..|entries| - 1], entries[|entries| - 1];
      TransfersOfRead(front);
      if IsRead(last.0) {
        var read := ReadEntries(entries);
        assert read[..|read| - 1] == ReadEntries(front);
      } else if TransferScanOf(front).Success? {
        OtherEntriesIgnored(TransferScanOf(front).value, last);
      }
    }
  }

  // ---- padded lines ----

  /** The line assigns one of these keys once it is trimmed. */
  predicate ReadLine(line: string) {
    match EntryOf(TrimSpace(line))
    case None => false
    case Some(e) => IsRead(e.0)
  }

  /** Every key line and every counter line is free of surrounding white space. */
  predicate TightWhereRead(text: string) {
    forall l :: l in Split(text, '\n') && ReadLine(l) ==> Tight(l)
  }

  /** What a line assigns of these keys. */
  function ReadOf(line: string): seq<Entry> {
    ReadEntries(Entries([line]))
  }

  lemma ReadOfLine(line: string)
    ensures ReadOf(line) == match EntryOf(line) case None => [] case Some(e) => if IsRead(e.0) then [e] else []
  {
    hide EntryOf, IsRead, ReadEntries, Entries;
    EntriesOfOne(line);
    match EntryOf(line)
    case None => NothingRead();
    case Some(e) => ReadOfOne(e);
  }

  lemma NothingRead()
    ensures ReadEntries([]) == []
  {
  }

  lemma ReadOfOne(e: Entry)
    ensures ReadEntries([e]) == if IsRead(e.0) then [e] else []
  {
    hide IsRead;
    assert [e][..0] == [];
  }

  lemma ReadOfLines(a: seq<string>, line: string)
    ensures ReadEntries(Entries(a + [line])) == ReadEntries(Entries(a)) + ReadOf(line)
    ensures ReadEntries(Entries([line] + a)) == ReadOf(line) + ReadEntries(Entries(a))
  {
    hide ReadEntries, Entries;
    EntriesConcat(a, [line]);
    EntriesConcat([line], a);
    ReadConcat(Entries(a), Entries([line]));
    ReadConcat(Entries([line]), Entries(a));
  }

  /** Trimming keeps the key of a line, whatever is left of the value. */
  lemma {:induction false} TrimKeepsKey(f: Field, val: string)
    requires f != Unknown
    ensures EntryOf(TrimSpace(Line(f, val))).Some? && EntryOf(TrimSpace(Line(f, val))).value.0 == f
    decreases |val|
  {
    var line := Line(f, val);
    EntryOfLine(f, val);
    NameShape(f);
    LetterIsNotSpace(f);
    LineEnds(f, val);
    hide FieldName, Line, EntryOf, IsSpace, FirstLetter;
    if val != "" && IsSpace(val[|val| - 1]) {
      var shorter := val[..|val| - 1];
      TrimKeepsKey(f, shorter);
      assert line[..|line| - 1] == Line(f, shorter);
      TrimOne(line);
    } else {
      TightLineIsTrimmed(line);
    }
  }

  lemma TrimOne(s: string)
    requires s != "" && !IsSpace(s[0]) && IsSpace(s[|s| - 1])
    ensures TrimSpace(s) == TrimSpace(s[..|s| - 1])
  {
    hide IsSpace;
  }

  lemma LetterIsNotSpace(f: Field)
    requires f != Unknown
    ensures !IsSpace(FirstLetter(f)) && !IsSpace('=')
  {
  }

  lemma LineEnds(f: Field, val: string)
    requires f != Unknown
    ensures var line := Line(f, val);
            line != "" && line[0] == FirstLetter(f) && line[|line| - 1] == (if val == "" then '=' else val[|val| - 1])
            && (val != "" ==> line[..|line| - 1] == Line(f, val[..|val| - 1]))
  {
    NameShape(f);
    hide FieldName;
    var line := Line(f, val);
    assert line[0] == FieldName(f)[0];
    if val != "" {
      assert line[..|line| - 1] == FieldName(f) + "=" + val[..|val| - 1];
    }
  }

  /** A line that assigns one of the keys does so when trimmed. */
  lemma ReadSurvivesTrim(line: string)
    requires ReadOf(line) != []
    ensures ReadLine(line)
  {
    ReadOfLine(line);
    var e := EntryOf(line).value;
    CutParts(line);
    FieldOfName(Unknown, Cut(line).value.0);
    assert line == Line(e.0, e.1);
    hide FieldName, FieldOf, EntryOf, Cut, TrimSpace;
    TrimKeepsKey(e.0, e.1);
  }

  lemma TightReadLine(line: string)
    requires ReadLine(line) ==> Tight(line)
    ensures ReadOf(TrimSpace(line)) == ReadOf(line)
  {
    hide EntryOf, ReadEntries, Entries, TrimSpace;
    if ReadLine(line) {
      TightLineIsTrimmed(line);
    } else {
      ReadOfLine(TrimSpace(line));
      if ReadOf(line) != [] {
        ReadSurvivesTrim(line);
      }
    }
  }

  /** Trimming every line keeps what is read. */
  lemma {:induction false} TrimmedLinesRead(lines: seq<string>)
    requires forall l :: l in lines && ReadLine(l) ==> Tight(l)
    ensures ReadEntries(Entries(TrimmedLines(lines))) == ReadEntries(Entries(lines))
  {
    hide ReadEntries, Entries, ReadLine, Tight, TrimSpace, ReadOf;
    if lines == [] {
      assert TrimmedLines(lines) == lines;
    } else {
      var front, last := lines[..|lines| - 1], lines[|lines| - 1];
      assert last in lines;
      TrimmedLinesRead(front);
      TightReadLine(last);
      ReadOfLines(front, last);
      ReadOfLines(TrimmedLines(front), TrimSpace(last));
      assert lines == front + [last];
      assert TrimmedLines(lines) == TrimmedLines(front) + [TrimSpace(last)];
    }
  }

  lemma {:induction false} TrimTrailing(s: string, c: char)
    requires IsSpace(c)
    ensures TrimSpace(s + [c]) == TrimSpace(s)
    decreases |s|
  {
    hide IsSpace;
    var t := s + [c];
    if s == "" {
      assert t[1..] == "";
    } else if IsSpace(s[0]) {
      assert t[1..] == s[1..] + [c];
      TrimTrailing(s[1..], c);
    } else {
      assert t[..|t| - 1] == s;
    }
  }

  /** A padded line that is not read when trimmed is not read with less padding either. */
  lemma LessPadding(line: string, less: string)
    requires TrimSpace(line) == TrimSpace(less) && !Tight(line) && (ReadLine(line) ==> Tight(line))
    ensures ReadOf(line) == [] && ReadOf(less) == [] && !ReadLine(less)
  {
    hide EntryOf, TrimSpace, Tight, ReadOf;
    if ReadOf(line) != [] {
      ReadSurvivesTrim(line);
    }
    if ReadOf(less) != [] {
      ReadSurvivesTrim(less);
    }
  }

  /** One more character that does not separate extends the last line. */
  lemma {:induction false} SplitMore(a: string, c: char, sep: char)
    requires c != sep
    ensures Extends(Split(a, sep), Split(a + [c], sep), c)
  {
    if a == "" {
      assert (a + [c])[1..] == "";
      assert Split("", sep) == [""];
    } else {
      hide Extends, Split;
      var p, q := Split(a[1..], sep), Split(a[1..] + [c], sep);
      assert (a + [c])[1..] == a[1..] + [c];
      SplitMore(a[1..], c, sep);
      SplitFirst(a, sep);
      SplitFirst(a + [c], sep);
      if a[0] == sep {
        ExtendsBehind(p, q, c);
      } else {
        ExtendsFirst(a[0], p, q, c);
      }
    }
  }

  /** The second list has one more character, at the end of its last line. */
  predicate Extends(p: seq<string>, q: seq<string>, c: char) {
    p != [] && |q| == |p| && q[..|p| - 1] == p[..|p| - 1] && q[|p| - 1] == p[|p| - 1] + [c]
  }

  lemma ExtendsBehind(p: seq<string>, q: seq<string>, c: char)
    requires Extends(p, q, c)
    ensures Extends([""] + p, [""] + q, c)
  {
    var n := |p| - 1;
    assert ([""] + p)[..n + 1] == [""] + p[..n] && ([""] + q)[..n + 1] == [""] + q[..n];
  }

  lemma ExtendsFirst(x: char, p: seq<string>, q: seq<string>, c: char)
    requires Extends(p, q, c)
    ensures Extends([[x] + p[0]] + p[1..], [[x] + q[0]] + q[1..], c)
  {
    var n := |p| - 1;
    if n == 0 {
      assert [x] + (p[0] + [c]) == ([x] + p[0]) + [c];
    } else {
      assert q[0] == q[..n][0] == p[..n][0] == p[0];
      assert q[1..n] == q[..n][1..] == p[..n][1..] == p[1..n];
      assert ([[x] + p[0]] + p[1..])[..n] == [[x] + p[0]] + p[1..n];
      assert ([[x] + q[0]] + q[1..])[..n] == [[x] + q[0]] + q[1..n];
    }
  }

  lemma SplitFirst(s: string, sep: char)
    requires s != ""
    ensures var rest := Split(s[1..], sep);
            Split(s, sep) == if s[0] == sep then [""] + rest else [[s[0]] + rest[0]] + rest[1..]
  {
  }

  /** Dropping a padding character from the first line keeps what is read. */
  lemma DropFirst(text: string)
    requires text != "" && IsSpace(text[0]) && TightWhereRead(text)
    ensures TightWhereRead(text[1..])
    ensures ReadEntries(TextEntries(text[1..])) == ReadEntries(TextEntries(text))
  {
    hide ReadEntries, Entries, ReadLine, IsSpace, EntryOf, TrimSpace;
    var lines, rest := Split(text, '\n'), Split(text[1..], '\n');
    assert lines[0] in lines;
    if text[0] == '\n' {
      assert lines == [""] + rest;
      assert forall l :: l in rest ==> l in lines;
      ReadOfLines(rest, "");
      BlankReadsNothing();
    } else {
      var less := rest[0];
      assert lines == [[text[0]] + less] + rest[1..] && rest == [less] + rest[1..];
      assert forall l :: l in rest[1..] ==> l in lines;
      PaddedInFront(text[0], less);
      LessPadding(lines[0], less);
      ReadOfLines(rest[1..], lines[0]);
      ReadOfLines(rest[1..], less);
    }
  }

  lemma BlankReadsNothing()
    ensures ReadOf("") == []
  {
    ReadOfLine("");
  }

  lemma PaddedInFront(c: char, s: string)
    requires IsSpace(c)
    ensures TrimSpace([c] + s) == TrimSpace(s) && !Tight([c] + s)
  {
    assert ([c] + s)[1..] == s;
  }

  lemma PaddedBehind(c: char, s: string)
    requires IsSpace(c)
    ensures TrimSpace(s + [c]) == TrimSpace(s) && !Tight(s + [c])
  {
    TrimTrailing(s, c);
  }

  /** Dropping a padding character from the last line keeps what is read. */
  lemma DropLast(text: string)
    requires text != "" && IsSpace(text[|text| - 1]) && TightWhereRead(text)
    ensures TightWhereRead(text[..|text| - 1])
    ensures ReadEntries(TextEntries(text[..|text| - 1])) == ReadEntries(TextEntries(text))
  {
    hide ReadEntries, Entries, ReadLine, IsSpace, EntryOf, TrimSpace, Split, Tight;
    var front, c := text[..|text| - 1], text[|text| - 1];
    assert text == front + [c];
    var lines, rest := Split(text, '\n'), Split(front, '\n');
    if c == '\n' {
      SplitTrailing(front, '\n');
      assert forall l :: l in rest ==> l in lines;
      ReadOfLines(rest, "");
      BlankReadsNothing();
    } else {
      SplitMore(front, c, '\n');
      assert Extends(rest, lines, c);
      var before, less := rest[..|rest| - 1], rest[|rest| - 1];
      assert lines == before + [less + [c]] && rest == before + [less];
      assert lines[|lines| - 1] in lines && forall l :: l in before ==> l in lines;
      PaddedBehind(c, less);
      LessPadding(less + [c], less);
      ReadOfLines(before, less + [c]);
      ReadOfLines(before, less);
    }
  }

  /** Trimming the whole text keeps what is read. */
  lemma {:induction false} TrimKeepsRead(text: string)
    requires TightWhereRead(text)
    ensures ReadEntries(TextEntries(TrimSpace(text))) == ReadEntries(TextEntries(text))
    decreases |text|
  {
    hide ReadEntries, TextEntries, TightWhereRead, IsSpace;
    if text == "" {
    } else if IsSpace(text[0]) {
      DropFirst(text);
      TrimKeepsRead(text[1..]);
    } else if IsSpace(text[|text| - 1]) {
      DropLast(text);
      TrimKeepsRead(text[..|text| - 1]);
    }
  }

  // ---- agreement ----

  lemma ValidKeysRead(entries: seq<Entry>)
    ensures ValidKeys(entries) <==> ValidKeys(ReadEntries(entries))
  {
    hide HexKey, ReadEntries;
    forall e: Entry {
      ReadMembers(entries, e);
    }
  }

  /** What is read decides whether keys are valid, whether counters are numbers, and what parseTransfers finds. */
  lemma SameRead(a: seq<Entry>, b: seq<Entry>)
    requires ReadEntries(a) == ReadEntries(b)
    ensures ValidKeys(a) <==> ValidKeys(b)
    ensures Countable(a) <==> Countable(b)
    ensures TransferScanOf(a) == TransferScanOf(b)
  {
    hide ReadEntries, ValidKeys, Countable, TransferScanOf;
    ValidKeysRead(a);
    ValidKeysRead(b);
    TransfersOfRead(a);
    TransfersOfRead(b);
    TransfersSucceedExactly(a);
    TransfersSucceedExactly(b);
  }

  /** parseTransfers finds the counters of the peers that parseStatus lists. */
  lemma TransfersAreCountedPeers(v6: V6Codec, device: string, text: string)
    requires TightWhereRead(text) && ValidKeys(TextEntries(text)) && Countable(TextEntries(text))
    ensures TransfersOf(text) == Success(CountersByPeer(StatusOf(v6, device, text).peers))
  {
    hide StatusOf, Blocks, PeersOf, CountersByPeer, CountersByKey, TightWhereRead, ValidKeys, Countable, TransferScanOf,
      ReadEntries, ReadLine, Tight, TrimSpace, TrimmedLines, Entries, Split;
    var entries, read := TextEntries(text), TextEntries(TrimSpace(text));
    TrimKeepsRead(text);
    TightWhereReadMeans(text);
    TrimmedLinesRead(Split(text, '\n'));
    SameRead(read, entries);
    SameRead(Entries(TrimmedLines(Split(text, '\n'))), entries);
    StatusReadsTrimmed(v6, device, text);
    TransferScanFollowsBlocks(read);
    BlocksAndPeersCountAlike(v6, Blocks(read));
  }

  /** On such texts parseTransfers succeeds exactly when keys are hexadecimal and counters are numbers. */
  lemma TransfersSucceedOnText(text: string)
    requires TightWhereRead(text)
    ensures TransfersOf(text).Success? <==> Countable(TextEntries(text))
  {
    hide TightWhereRead, Countable, TransferScanOf, ReadEntries, TrimmedLines, Entries, Split;
    assert forall l :: l in Split(text, '\n') && ReadLine(l) ==> Tight(l) by {
      TightWhereReadMeans(text);
    }
    TrimmedLinesRead(Split(text, '\n'));
    SameRead(Entries(TrimmedLines(Split(text, '\n'))), TextEntries(text));
    TransfersSucceedExactly(TextEntries(text));
  }

  lemma TightWhereReadMeans(text: string)
    requires TightWhereRead(text)
    ensures forall l :: l in Split(text, '\n') && ReadLine(l) ==> Tight(l)
  {
  }

  /** A text without any padded line is one of them. */
  lemma TightLinesAreEnough(text: string)
    requires TightLines(text)
    ensures TightWhereRead(text)
  {
    hide Tight, ReadLine, Split;
  }

  /**
   The two scanners agree: on a dump with valid keys and numeric counters, parseTransfers succeeds with exactly the
   keys of the peers that parseStatus lists, and the entry of a key has the counters of the last peer with that key.
   */
  lemma ScannersAgree(v6: V6Codec, device: string, text: string)
    requires TightWhereRead(text) && ValidKeys(TextEntries(text)) && Countable(TextEntries(text))
    ensures TransfersOf(text).Success?
    ensures var peers, m := StatusOf(v6, device, text).peers, TransfersOf(text).value;
            (forall k :: k in m <==> exists i :: 0 <= i < |peers| && peers[i].publicKey == k)
            && forall i :: 0 <= i < |peers|
                           && (forall j :: i < j < |peers| ==> peers[j].publicKey != peers[i].publicKey)
                           ==> m[peers[i].publicKey] == CountersOf(peers[i])
  {
    TransfersAreCountedPeers(v6, device, text);
    var peers := StatusOf(v6, device, text).peers;
    hide StatusOf, TransfersOf, CountersByPeer, TightWhereRead, ValidKeys, Countable;
    forall k {
      CountedKeys(peers, k);
    }
    forall i | 0 <= i < |peers| && (forall j :: i < j < |peers| ==> peers[j].publicKey != peers[i].publicKey)
      ensures CountersByPeer(peers)[peers[i].publicKey] == CountersOf(peers[i])
    {
      LastPeerCounts(peers, i);
    }
  }

  /** With distinct keys the two scanners report the same counters for every peer. */
  lemma ScannersAgreeOnDistinctKeys(v6: V6Codec, device: string, text: string)
    requires TightWhereRead(text) && ValidKeys(TextEntries(text)) && Countable(TextEntries(text))
    requires var peers := StatusOf(v6, device, text).peers;
             forall i, j :: 0 <= i < j < |peers| ==> peers[i].publicKey != peers[j].publicKey
    ensures TransfersOf(text).Success?
    ensures var peers, m := StatusOf(v6, device, text).peers, TransfersOf(text).value;
            |m| == |peers| && forall p :: p in peers ==> p.publicKey in m && m[p.publicKey] == CountersOf(p)
  {
    hide StatusOf, TransfersOf, TightWhereRead, ValidKeys, Countable, TextEntries, CountersOf;
    ScannersAgree(v6, device, text);
    var peers, m := StatusOf(v6, device, text).peers, TransfersOf(text).value;
    forall p | p in peers
      ensures p.publicKey in m && m[p.publicKey] == CountersOf(p)
    {
      var i :| 0 <= i < |peers| && peers[i] == p;
      assert forall j :: i < j < |peers| ==> peers[j].publicKey != peers[i].publicKey;
    }
    DistinctKeysCount(peers, m.Keys);
  }

  lemma {:induction false} DistinctKeysCount(peers: seq<Peer>, keys: set<string>)
    requires forall i, j :: 0 <= i < j < |peers| ==> peers[i].publicKey != peers[j].publicKey
    requires forall k :: k in keys <==> exists i :: 0 <= i < |peers| && peers[i].publicKey == k
    ensures |keys| == |peers|
  {
    if peers == [] {
      assert keys == {};
    } else {
      var n := |peers| - 1;
      var front, last := peers[..n], peers[n].publicKey;
      forall k
        ensures k in keys - {last} <==> exists i :: 0 <= i < |front| && front[i].publicKey == k
      {
        if k in keys - {last} {
          var i :| 0 <= i < |peers| && peers[i].publicKey == k;
          assert front[i].publicKey == k;
        }
        if i :| 0 <= i < |front| && front[i].publicKey == k {
          assert peers[i].publicKey == k && peers[n].publicKey != peers[i].publicKey;
        }
      }
      DistinctKeysCount(front, keys - {last});
      assert last in keys;
    }
  }
}
