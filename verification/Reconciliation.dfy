/**
 What reconciling achieves: the store refines the update, applying an update again changes nothing, and over any run
 of updates the store ends as the newest one says.
 */
module Reconciliation {
  import opened Wrappers
  import opened Net
  import opened NetIPLists
  import opened Engine

  // ---- one update ----

  /** The entries ask for the same connection. */
  predicate SameTarget(v6: V6Codec, p: RemotePeer, q: RemotePeer) {
    p.agentVersion == q.agentVersion
    && match ParsedAll(v6, p.allowedIPs)
      case None => false
      case Some(a) => SameNetworks(v6, a, q.allowedIPs)
  }

  /** Entries with the same key ask for the same connection. */
  ghost predicate Agree(v6: V6Codec, ps: seq<RemotePeer>) {
    forall p, q :: p in ps && q in ps && p.key == q.key ==> SameTarget(v6, p, q)
  }

  predicate DistinctPeers(ps: seq<RemotePeer>) {
    forall i, j :: 0 <= i < j < |ps| ==> ps[i].key != ps[j].key
  }

  /** Every entry of the update has a stored connection with its agent version and its networks. */
  ghost predicate Realized(v6: V6Codec, conns: Conns, ps: seq<RemotePeer>) {
    forall p :: p in ps ==> p.key in conns && Matches(v6, conns[p.key], p)
  }

  lemma MatchesBoth(v6: V6Codec, conn: PeerConn, p: RemotePeer, q: RemotePeer)
    requires Matches(v6, conn, p)
    ensures Matches(v6, conn, q) <==> SameTarget(v6, p, q)
  {
    hide ParsedAll;
  }

  /** Every stored connection matches an entry of its key. */
  lemma StoredMatchesAnEntry(v6: V6Codec, before: Conns, after: Conns, ps: seq<RemotePeer>, k: string)
    requires Reconciled(v6, before, after, ps) && k in after
    ensures exists p :: p in ps && p.key == k && Matches(v6, after[k], p)
  {
    hide Matches, Built, FirstOf, Modified;
    var changed := Modified(v6, before, ps);
    if k in before && k !in KeysOf(changed) {
      var p :| p in ps && p.key == k;
      ModifiedMembers(v6, before, ps, p);
      assert p !in changed;
    } else if k in before {
      var p := FirstOf(changed, k).value;
      ModifiedMembers(v6, before, ps, p);
      BuiltMatches(v6, after[k], p);
    } else {
      BuiltMatches(v6, after[k], FirstOf(ps, k).value);
    }
  }

  /** After an applied update the store realizes it exactly when entries with the same key agree. */
  lemma RealizedExactly(v6: V6Codec, before: Conns, after: Conns, ps: seq<RemotePeer>)
    requires Reconciled(v6, before, after, ps)
    ensures Realized(v6, after, ps) <==> Agree(v6, ps)
  {
    hide Matches, Built, FirstOf, Modified, SameTarget;
    forall p | p in ps
      ensures p.key in after
      ensures Agree(v6, ps) ==> Matches(v6, after[p.key], p)
    {
      assert p.key in KeysOf(ps);
      StoredMatchesAnEntry(v6, before, after, ps, p.key);
      var q :| q in ps && q.key == p.key && Matches(v6, after[p.key], q);
      MatchesBoth(v6, after[p.key], q, p);
    }
    if Realized(v6, after, ps) {
      forall p, q | p in ps && q in ps && p.key == q.key
        ensures SameTarget(v6, p, q)
      {
        MatchesBoth(v6, after[p.key], p, q);
      }
    }
  }

  /** With distinct keys an applied update is realized: the store is what the update says. */
  lemma DistinctPeersRealized(v6: V6Codec, before: Conns, after: Conns, ps: seq<RemotePeer>)
    requires Reconciled(v6, before, after, ps) && DistinctPeers(ps)
    ensures after.Keys == KeysOf(ps) && Realized(v6, after, ps) && Agree(v6, ps)
  {
    hide Matches, Built, FirstOf, Modified, SameTarget;
    forall p | p in ps
      ensures p.key in after && Matches(v6, after[p.key], p)
    {
      assert p.key in KeysOf(ps);
      StoredMatchesAnEntry(v6, before, after, ps, p.key);
      var q :| q in ps && q.key == p.key && Matches(v6, after[p.key], q);
      assert p == q;
    }
    RealizedExactly(v6, before, after, ps);
  }

  /** With distinct keys a stored peer is taken for changed exactly when its one entry differs from it. */
  lemma ChangedExactly(v6: V6Codec, before: Conns, ps: seq<RemotePeer>, p: RemotePeer)
    requires DistinctPeers(ps) && p in ps && p.key in before
    ensures p.key in KeysOf(Modified(v6, before, ps)) <==> !Matches(v6, before[p.key], p)
  {
    hide Matches, Modified;
    ChangedKeys(v6, before, ps);
  }

  lemma SomeMember(ps: seq<RemotePeer>)
    ensures ps == [] || exists p :: p in ps
  {
    if ps != [] {
      assert ps[0] in ps;
    }
  }

  /** An applied update finds nothing left to change exactly when its entries agree. */
  lemma NothingToChange(v6: V6Codec, before: Conns, after: Conns, ps: seq<RemotePeer>)
    requires Reconciled(v6, before, after, ps)
    ensures Modified(v6, after, ps) == [] <==> Agree(v6, ps)
  {
    hide Matches, Built, FirstOf, Modified, SameTarget;
    RealizedExactly(v6, before, after, ps);
    var changed := Modified(v6, after, ps);
    forall p
      ensures p in changed <==> p in ps && p.key in after && !Matches(v6, after[p.key], p)
    {
      ModifiedMembers(v6, after, ps, p);
    }
    if Agree(v6, ps) {
      SomeMember(changed);
    } else {
      forall p | p in ps
        ensures p.key in after
      {
        assert p.key in KeysOf(ps);
      }
      var p :| p in ps && !Matches(v6, after[p.key], p);
      assert p in changed;
    }
  }

  /** A connection that was taken for changed is replaced by one that is not the same. */
  lemma ChangedIsReplaced(v6: V6Codec, after: Conns, again: Conns, ps: seq<RemotePeer>, p: RemotePeer)
    requires Reconciled(v6, after, again, ps) && p in Modified(v6, after, ps)
    ensures p.key in after && p.key in again && again[p.key] != after[p.key]
  {
    hide Matches, Built, Modified;
    var changed := Modified(v6, after, ps);
    var first := FirstOf(changed, p.key).value;
    ModifiedMembers(v6, after, ps, p);
    ModifiedMembers(v6, after, ps, first);
    assert p.key in KeysOf(ps);
    BuiltMatches(v6, again[p.key], first);
  }

  /**
   Applying an update again finds nothing to change, succeeds whatever connections cannot be made, and leaves the store
   as it is, exactly when its entries agree; otherwise it replaces some connection.
   */
  lemma AppliedAgain(v6: V6Codec, before: Conns, after: Conns, nm: NetworkMap, faults: set<string>)
    requires !nm.remotePeersIsEmpty && Reconciled(v6, before, after, nm.remotePeers)
    ensures Modified(v6, after, nm.remotePeers) == [] <==> Agree(v6, nm.remotePeers)
    ensures Agree(v6, nm.remotePeers) ==> Applicable(v6, faults, after, nm)
    ensures forall again :: Reconciled(v6, after, again, nm.remotePeers) ==>
                              (again == after <==> Agree(v6, nm.remotePeers))
  {
    hide Matches, Built, FirstOf, Modified, SameTarget, Agree;
    var ps := nm.remotePeers;
    NothingToChange(v6, before, after, ps);
    SomeMember(Modified(v6, after, ps));
    forall again | Reconciled(v6, after, again, ps)
      ensures again == after <==> Agree(v6, ps)
    {
      if !Agree(v6, ps) {
        var p :| p in Modified(v6, after, ps);
        ChangedIsReplaced(v6, after, again, ps, p);
      }
    }
  }

  // ---- runs ----

  datatype PeerInfo = PeerInfo(agentVersion: string, networks: multiset<Prefix>)

  /** What matters of an engine over a run. */
  datatype State = State(serial: nat, peers: map<string, PeerInfo>)

  function InfoOf(conn: PeerConn): PeerInfo {
    PeerInfo(conn.agentVersion, multiset(conn.allowedIPs))
  }

  function Infos(conns: Conns): map<string, PeerInfo> {
    map k | k in conns :: InfoOf(conns[k])
  }

  function Target(v6: V6Codec, p: RemotePeer): Option<PeerInfo> {
    match ParsedAll(v6, p.allowedIPs)
    case None => None
    case Some(ips) => Some(PeerInfo(p.agentVersion, multiset(ips)))
  }

  /** The peers are those of the map, and each one is as one of its entries says. */
  ghost predicate Follows(v6: V6Codec, peers: map<string, PeerInfo>, nm: NetworkMap) {
    && peers.Keys == TargetKeys(nm)
    && forall k :: k in peers ==> exists p :: p in nm.remotePeers && p.key == k && Target(v6, p) == Some(peers[k])
  }

  /** With distinct keys a map determines the peers that follow it. */
  lemma FollowersAreEqual(v6: V6Codec, a: map<string, PeerInfo>, b: map<string, PeerInfo>, nm: NetworkMap)
    requires Follows(v6, a, nm) && Follows(v6, b, nm) && DistinctPeers(nm.remotePeers)
    ensures a == b
  {
    hide Target;
    forall k | k in a
      ensures k in b && a[k] == b[k]
    {
      assert k in TargetKeys(nm);
      var p :| p in nm.remotePeers && p.key == k && Target(v6, p) == Some(a[k]);
      var q :| q in nm.remotePeers && q.key == k && Target(v6, q) == Some(b[k]);
      assert p == q;
    }
    assert a.Keys == b.Keys;
  }

  lemma ReconciledFollows(v6: V6Codec, before: Conns, after: Conns, nm: NetworkMap)
    requires if nm.remotePeersIsEmpty then after == map[] else Reconciled(v6, before, after, nm.remotePeers)
    ensures Follows(v6, Infos(after), nm)
  {
    hide ParsedAll, Built, FirstOf, Modified;
    forall k | k in after
      ensures exists p :: p in nm.remotePeers && p.key == k && Target(v6, p) == Some(InfoOf(after[k]))
    {
      StoredMatchesAnEntry(v6, before, after, nm.remotePeers, k);
      var p :| p in nm.remotePeers && p.key == k && Matches(v6, after[k], p);
      assert Target(v6, p) == Some(InfoOf(after[k]));
    }
    assert Infos(after).Keys == after.Keys;
  }

  /** What one update does, by its outcome. */
  ghost predicate Step(v6: V6Codec, s: State, nm: NetworkMap, o: Outcome, t: State) {
    match o
    case ConfigFailed => t == s
    case Stale => s.serial > nm.serial && t == s
    case PeersFailed | Panicked => s.serial <= nm.serial && t.serial == s.serial && t.peers.Keys <= TargetKeys(nm)
    case Applied => s.serial <= nm.serial && t.serial == nm.serial && Follows(v6, t.peers, nm)
  }

  datatype Event = Event(nm: NetworkMap, outcome: Outcome)

  ghost predicate Run(v6: V6Codec, states: seq<State>, events: seq<Event>) {
    && |states| == |events| + 1
    && forall i :: 0 <= i < |events| ==> Step(v6, states[i], events[i].nm, events[i].outcome, states[i + 1])
  }

  /** An engine that receives maps performs steps. */
  method Receive(engine: Engine, nm: NetworkMap, env: Environment) returns (o: Outcome)
    requires engine.v6.Lawful()
    modifies engine, engine.peerStore
    ensures Step(engine.v6, old(State(engine.networkSerial, Infos(engine.peerStore.conns))), nm, o,
                 State(engine.networkSerial, Infos(engine.peerStore.conns)))
  {
    hide Reconciled, Follows, KeysOf, Modified, Applicable;
    ghost var before := engine.peerStore.conns;
    o := engine.UpdateNetworkMap(nm, env);
    if o.Applied? {
      ReconciledFollows(engine.v6, before, engine.peerStore.conns, nm);
    }
    assert Infos(engine.peerStore.conns).Keys == engine.peerStore.conns.Keys;
  }

  /** The recorded serial never decreases, whatever fails. */
  lemma {:induction false} SerialNeverDecreases(v6: V6Codec, states: seq<State>, events: seq<Event>, i: nat, j: nat)
    requires Run(v6, states, events) && i <= j < |states|
    ensures states[i].serial <= states[j].serial
    decreases j
  {
    hide Follows;
    if i < j {
      SerialNeverDecreases(v6, states, events, i, j - 1);
      assert Step(v6, states[j - 1], events[j - 1].nm, events[j - 1].outcome, states[j]);
    }
  }

  /** A map that failed is not older than what is recorded then, so the engine takes the same map again. */
  lemma FailedMapIsTakenAgain(v6: V6Codec, s: State, nm: NetworkMap, t: State, o: Outcome, u: State)
    requires Step(v6, s, nm, PeersFailed, t) && Step(v6, t, nm, o, u)
    ensures !o.Stale?
    ensures t.serial == s.serial && forall k :: k in t.peers ==> k in TargetKeys(nm)
  {
  }

  /** A map older than an applied one is stale or refused, and leaves the peers as they are. */
  lemma OlderMapsChangeNothing(v6: V6Codec, states: seq<State>, events: seq<Event>, i: nat, j: nat)
    requires Run(v6, states, events) && i < j < |events|
    requires events[i].outcome.Applied? && events[j].nm.serial < events[i].nm.serial
    ensures (events[j].outcome.Stale? || events[j].outcome.ConfigFailed?) && states[j + 1] == states[j]
  {
    hide Follows;
    SerialNeverDecreases(v6, states, events, i + 1, j);
    assert Step(v6, states[i], events[i].nm, events[i].outcome, states[i + 1]);
    assert Step(v6, states[j], events[j].nm, events[j].outcome, states[j + 1]);
  }

  /** Applied maps never go back: a later one is not older. */
  lemma AppliedSerialsGrow(v6: V6Codec, states: seq<State>, events: seq<Event>, i: nat, j: nat)
    requires Run(v6, states, events) && i <= j < |events| && events[i].outcome.Applied? && events[j].outcome.Applied?
    ensures events[i].nm.serial <= events[j].nm.serial
  {
    hide Follows;
    SerialNeverDecreases(v6, states, events, i + 1, j + 1);
    assert Step(v6, states[i], events[i].nm, events[i].outcome, states[i + 1]);
    assert Step(v6, states[j], events[j].nm, events[j].outcome, states[j + 1]);
  }

  /** Stale and refused maps change nothing; failed ones keep the serial. */
  lemma {:induction false} WithoutApplied(v6: V6Codec, states: seq<State>, events: seq<Event>, i: nat, j: nat)
    requires Run(v6, states, events) && i <= j < |states|
    requires forall m :: i <= m < j ==> !events[m].outcome.Applied?
    ensures states[j].serial == states[i].serial
    ensures (forall m :: i <= m < j ==> !events[m].outcome.Stopped()) ==> states[j] == states[i]
    decreases j
  {
    hide Follows;
    if i < j {
      WithoutApplied(v6, states, events, i, j - 1);
      assert Step(v6, states[j - 1], events[j - 1].nm, events[j - 1].outcome, states[j]);
    }
  }

  /**
   Every run, whatever failed in it: the serial at the end is that of the last applied map, and the peers follow that
   map unless the peer phase of a later one failed.
   */
  lemma RunEndsWithLastApplied(v6: V6Codec, states: seq<State>, events: seq<Event>, i: nat)
    requires Run(v6, states, events) && i < |events| && events[i].outcome.Applied?
    requires forall j :: i < j < |events| ==> !events[j].outcome.Applied?
    ensures states[|events|].serial == events[i].nm.serial
    ensures forall j :: 0 <= j < |events| && events[j].outcome.Applied? ==> events[j].nm.serial <= events[i].nm.serial
    ensures (forall j :: i < j < |events| ==> !events[j].outcome.Stopped()) ==>
              states[|events|] == states[i + 1] && Follows(v6, states[|events|].peers, events[i].nm)
  {
    hide Follows;
    assert Step(v6, states[i], events[i].nm, events[i].outcome, states[i + 1]);
    WithoutApplied(v6, states, events, i + 1, |events|);
    forall j | 0 <= j < |events| && events[j].outcome.Applied?
      ensures events[j].nm.serial <= events[i].nm.serial
    {
      AppliedSerialsGrow(v6, states, events, j, i);
    }
  }

  /**
   However the maps of a run arrive, and whatever fails, the engine ends with the serial and the peers of an applied map
   that only older ones follow.
   */
  lemma RunEndsWithNewest(v6: V6Codec, states: seq<State>, events: seq<Event>, i: nat)
    requires Run(v6, states, events) && i < |events| && events[i].outcome.Applied?
    requires forall j :: i < j < |events| ==> events[j].nm.serial < events[i].nm.serial
    ensures var end := states[|events|];
            end.serial == events[i].nm.serial && Follows(v6, end.peers, events[i].nm)
  {
    hide Follows;
    forall j | i < j < |events|
      ensures !events[j].outcome.Applied? && !events[j].outcome.Stopped()
    {
      OlderMapsChangeNothing(v6, states, events, i, j);
    }
    RunEndsWithLastApplied(v6, states, events, i);
  }

  /** Among the maps with the greatest serial, the one that came last. */
  predicate NewestAt(events: seq<Event>, i: nat) {
    && i < |events|
    && (forall j :: 0 <= j < i ==> events[j].nm.serial <= events[i].nm.serial)
    && (forall j :: i < j < |events| ==> events[j].nm.serial < events[i].nm.serial)
  }

  /** Every run of maps has a newest one. */
  lemma {:induction false} NewestExists(events: seq<Event>) returns (i: nat)
    requires events != []
    ensures i < |events| && NewestAt(events, i)
    ensures forall j :: 0 <= j < |events| ==> events[j].nm.serial <= events[i].nm.serial
  {
    var n := |events| - 1;
    i := n;
    if n > 0 {
      var k := NewestExists(events[..n]);
      if events[k].nm.serial > events[n].nm.serial {
        i := k;
      }
    }
  }

  lemma {:induction false} SerialIsBounded(v6: V6Codec, states: seq<State>, events: seq<Event>, i: nat, bound: nat)
    requires Run(v6, states, events) && i <= |events| && states[0].serial <= bound
    requires forall j :: 0 <= j < i ==> events[j].nm.serial <= bound
    ensures states[i].serial <= bound
  {
    hide Follows;
    if i > 0 {
      SerialIsBounded(v6, states, events, i - 1, bound);
      assert Step(v6, states[i - 1], events[i - 1].nm, events[i - 1].outcome, states[i]);
    }
  }

  /** The last one of the maps with the greatest serial is never stale: it is applied unless it fails itself. */
  lemma NewestIsNotStale(v6: V6Codec, states: seq<State>, events: seq<Event>, i: nat)
    requires Run(v6, states, events) && NewestAt(events, i) && states[0].serial <= events[i].nm.serial
    ensures !events[i].outcome.Stale?
  {
    hide Follows;
    SerialIsBounded(v6, states, events, i, events[i].nm.serial);
    assert Step(v6, states[i], events[i].nm, events[i].outcome, states[i + 1]);
  }

  /** Maps that are all older than what was recorded change nothing, whether or not they are refused. */
  lemma {:induction false} RunOfOlderMaps(v6: V6Codec, states: seq<State>, events: seq<Event>, n: nat)
    requires Run(v6, states, events) && n <= |events|
    requires forall j :: 0 <= j < |events| ==> events[j].nm.serial < states[0].serial
    ensures states[n] == states[0]
  {
    hide Follows;
    if n > 0 {
      RunOfOlderMaps(v6, states, events, n - 1);
      assert Step(v6, states[n - 1], events[n - 1].nm, events[n - 1].outcome, states[n]);
    }
  }

  /** Runs of maps in different orders, with different failures, end alike when the newest applied map is the same. */
  lemma OrderOfArrivalDoesNotMatter(v6: V6Codec, a: seq<State>, xs: seq<Event>, i: nat,
                                    b: seq<State>, ys: seq<Event>, j: nat)
    requires Run(v6, a, xs) && i < |xs| && xs[i].outcome.Applied?
    requires Run(v6, b, ys) && j < |ys| && ys[j].outcome.Applied?
    requires forall m :: i < m < |xs| ==> xs[m].nm.serial < xs[i].nm.serial
    requires forall m :: j < m < |ys| ==> ys[m].nm.serial < ys[j].nm.serial
    requires xs[i].nm == ys[j].nm && DistinctPeers(xs[i].nm.remotePeers)
    ensures a[|xs|] == b[|ys|]
  {
    hide Follows;
    RunEndsWithNewest(v6, a, xs, i);
    RunEndsWithNewest(v6, b, ys, j);
    FollowersAreEqual(v6, a[|xs|].peers, b[|ys|].peers, xs[i].nm);
  }
}
