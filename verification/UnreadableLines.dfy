/**
 What the scanners of go/iface/configurer/usp.go make of lines that they cannot read: parseTransfers stops at the first
 one, and parseStatus goes on, repeating a peer when a key line is unreadable.
 */
module UnreadableLines {
  import opened Wrappers
  import opened Encodings
  import opened Text
  import opened Net
  import opened Wg
  import opened UapiText
  import opened Status

  // ---- parseTransfers ----

  /** Some key line comes before this assignment. */
  predicate AfterKey(entries: seq<Entry>, i: nat)
    requires i <= |entries|
  {
    exists j :: 0 <= j < i && entries[j].0 == PublicKey
  }

  /** The error that an assignment is: an unreadable key, or an unreadable counter of a peer. */
  function ErrorAt(entries: seq<Entry>, i: nat): Option<TransferError>
    requires i < |entries|
  {
    var (f, val) := entries[i];
    if f == PublicKey then if HexDecode(val).None? then Some(BadPeerID) else None
    else if !AfterKey(entries, i) || ParseInt64(val).Some? then None
    else if f == HandshakeSec then Some(BadHandshake)
    else if f == RxBytes then Some(BadRxBytes)
    else if f == TxBytes then Some(BadTxBytes)
    else None
  }

  lemma ErrorInFront(entries: seq<Entry>, e: Entry, i: nat)
    requires i < |entries|
    ensures ErrorAt(entries + [e], i) == ErrorAt(entries, i)
  {
    hide HexDecode, ParseInt64;
    var all := entries + [e];
    assert all[i] == entries[i] && forall j :: 0 <= j < i ==> all[j] == entries[j];
  }

  lemma ErrorAtEnd(entries: seq<Entry>, e: Entry, s: TransferScan)
    requires s.current.Some? <==> AfterKey(entries, |entries|)
    ensures match TransferStep(s, e)
            case Failure(err) => ErrorAt(entries + [e], |entries|) == Some(err)
            case Success(t) =>
              ErrorAt(entries + [e], |entries|).None? && (t.current.Some? <==> AfterKey(entries + [e], |entries| + 1))
  {
    hide HexDecode, ParseInt64, Base64Encode, HandshakeTime;
    var all := entries + [e];
    assert all[|entries|] == e && forall j :: 0 <= j < |entries| ==> all[j] == entries[j];
    assert AfterKey(all, |entries|) <==> AfterKey(entries, |entries|);
  }

  /** The scan fails with the error of the first assignment that is one, and succeeds when there is none. */
  lemma {:induction false} FirstError(entries: seq<Entry>)
    ensures match TransferScanOf(entries)
            case Success(s) =>
              (forall i :: 0 <= i < |entries| ==> ErrorAt(entries, i).None?)
              && (s.current.Some? <==> AfterKey(entries, |entries|))
            case Failure(err) =>
              exists i :: 0 <= i < |entries| && ErrorAt(entries, i) == Some(err)
                          && forall j :: 0 <= j < i ==> ErrorAt(entries, j).None?
  {
    hide TransferStep, ErrorAt;
    if entries == [] {
    } else {
      hide AfterKey;
      var front, e := entries[..|entries| - 1], entries[|entries| - 1];
      FirstError(front);
      assert entries == front + [e];
      forall i | 0 <= i < |front|
        ensures ErrorAt(entries, i) == ErrorAt(front, i)
      {
        ErrorInFront(front, e, i);
      }
      match TransferScanOf(front)
      case Failure(err) =>
        var i :| 0 <= i < |front| && ErrorAt(front, i) == Some(err)
                 && forall j :: 0 <= j < i ==> ErrorAt(front, j).None?;
        assert ErrorAt(entries, i) == Some(err);
      case Success(s) =>
        ErrorAtEnd(front, e, s);
        if TransferStep(s, e).Failure? {
          assert ErrorAt(entries, |front|) == Some(TransferStep(s, e).error);
        }
    }
  }

  // ---- parseStatus ----

  /** The assignments from the last readable key line on. */
  function OpenBlock(entries: seq<Entry>): seq<Entry> {
    if entries == [] then []
    else
      var front, last := OpenBlock(entries[..|entries| - 1]), entries[|entries| - 1];
      if last.0 == PublicKey && HexKey(last.1).Some? then [last]
      else if front == [] then []
      else front + [last]
  }

  predicate ReadableKey(e: Entry) {
    e.0 == PublicKey && HexKey(e.1).Some?
  }

  /** The open block is the last readable key line with what follows it; without such a line there is none. */
  lemma {:induction false} OpenBlockExactly(before: seq<Entry>, key: Entry, after: seq<Entry>)
    requires forall e: Entry :: e in after ==> !ReadableKey(e)
    ensures ReadableKey(key) ==> OpenBlock(before + [key] + after) == [key] + after
    ensures OpenBlock(after) == []
  {
    hide HexKey;
    var all := before + [key] + after;
    if after == [] {
      assert all == before + [key];
    } else {
      var front, last := after[..|after| - 1], after[|after| - 1];
      assert last in after;
      OpenBlockExactly(before, key, front);
      assert all[..|all| - 1] == before + [key] + front;
    }
  }

  /** The peers that key lines save: at each of them, readable or not, the peer described so far. */
  function SavedAtKeys(v6: V6Codec, entries: seq<Entry>): seq<Peer> {
    if entries == [] then []
    else
      var front, last := entries[..|entries| - 1], entries[|entries| - 1];
      SavedAtKeys(v6, front)
      + if last.0 == PublicKey && OpenBlock(front) != [] then [PeerOf(v6, OpenBlock(front))] else []
  }

  lemma KeyLineStep(v6: V6Codec, s: Scan, e: Entry)
    requires e.0 == PublicKey && HexKey(e.1).None?
    ensures StatusStep(v6, s, e).current == s.current && StatusStep(v6, s, e).stats.peers == s.Saved().peers
  {
    hide HexKey;
  }

  lemma {:induction false} ScanOfAnyEntries(v6: V6Codec, device: string, entries: seq<Entry>)
    ensures var s, open := StatusScan(v6, device, entries), OpenBlock(entries);
            s.stats.peers == SavedAtKeys(v6, entries)
            && s.current == if open == [] then None else Some(PeerOf(v6, open))
  {
    hide HexKey, PeerOf, StatusStep, PeerStep;
    if entries != [] {
      var front, e := entries[..|entries| - 1], entries[|entries| - 1];
      ScanOfAnyEntries(v6, device, front);
      var s := StatusScan(v6, device, front);
      if e.0 != PublicKey {
        OtherStep(v6, s, e);
        if OpenBlock(front) != [] {
          PeerOfOneMore(v6, OpenBlock(front), e);
        }
      } else if HexKey(e.1).Some? {
        PeerOfKeyLine(v6, s, e);
      } else {
        KeyLineStep(v6, s, e);
        if OpenBlock(front) != [] {
          PeerOfOneMore(v6, OpenBlock(front), e);
          UnreadableKeyAddsNothing(v6, PeerOf(v6, OpenBlock(front)), e);
        }
      }
    }
  }

  lemma UnreadableKeyAddsNothing(v6: V6Codec, p: Peer, e: Entry)
    requires e.0 == PublicKey
    ensures PeerStep(v6, p, e) == p
  {
  }

  /** The status of any text: the peers saved at its key lines, and the one that is open at its end. */
  lemma StatusOfAnyText(v6: V6Codec, device: string, text: string)
    ensures var entries := TextEntries(TrimSpace(text));
            StatusOf(v6, device, text).peers ==
            SavedAtKeys(v6, entries) + if OpenBlock(entries) == [] then [] else [PeerOf(v6, OpenBlock(entries))]
  {
    hide TextEntries, TrimSpace, StatusScan, SavedAtKeys, OpenBlock, PeerOf;
    ScanOfAnyEntries(v6, device, TextEntries(TrimSpace(text)));
  }

  /** An unreadable key line repeats the peer before it: the peer is saved there, and stays open. */
  lemma UnreadableKeyRepeats(v6: V6Codec, entries: seq<Entry>, val: string)
    requires OpenBlock(entries) != [] && HexKey(val).None?
    ensures var more, p := entries + [(PublicKey, val)], PeerOf(v6, OpenBlock(entries));
            SavedAtKeys(v6, more) == SavedAtKeys(v6, entries) + [p] && PeerOf(v6, OpenBlock(more)) == p
  {
    hide HexKey, PeerOf, PeerStep;
    var e: Entry := (PublicKey, val);
    assert (entries + [e])[..|entries|] == entries;
    PeerOfOneMore(v6, OpenBlock(entries), e);
    UnreadableKeyAddsNothing(v6, PeerOf(v6, OpenBlock(entries)), e);
  }
}
