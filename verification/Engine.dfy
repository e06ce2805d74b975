/**
 The peer phase of go/internal/engine.go: a network map is turned into removals, modifications and additions on the
 store of peer connections. Reconciling makes the store what the map says, keeps the connections that need no change,
 and over any run of maps ends with the newest one.
 */
module Engine {
  import opened Wrappers
  import opened Net
  import opened NetIPLists
  import opened Checks

  datatype RemotePeer = RemotePeer(key: string, allowedIPs: seq<string>, agentVersion: string)

  /** `remotePeersIsEmpty` asks for the removal of every peer. */
  datatype NetworkMap = NetworkMap(serial: nat, remotePeersIsEmpty: bool, remotePeers: seq<RemotePeer>)

  /** A connection to a peer; what it was made from never changes. */
  class PeerConn {
    const key: string
    const allowedIPs: seq<Prefix>
    const agentVersion: string

    constructor (key: string, allowedIPs: seq<Prefix>, agentVersion: string)
      ensures this.key == key && this.allowedIPs == allowedIPs && this.agentVersion == agentVersion
    {
      this.key := key;
      this.allowedIPs := allowedIPs;
      this.agentVersion := agentVersion;
    }
  }

  type Conns = map<string, PeerConn>

  /** The peer store together with the connection manager's additions and removals. */
  class PeerStore {
    var conns: Conns

    constructor ()
      ensures conns == map[]
    {
      conns := map[];
    }

    method AddPeerConn(key: string, conn: PeerConn) returns (known: bool)
      modifies this
      ensures known <==> key in old(conns)
      ensures conns == if known then old(conns) else old(conns)[key := conn]
    {
      known := key in conns;
      if !known {
        conns := conns[key := conn];
      }
    }

    method RemovePeerConn(key: string)
      modifies this
      ensures conns == old(conns) - {key}
    {
      conns := conns - {key};
    }

    method PeersPubKey() returns (keys: seq<string>)
      ensures forall k :: k in keys <==> k in conns
    {
      keys := [];
      var left := conns.Keys;
      while left != {}
        invariant left <= conns.Keys
        invariant forall k :: k in keys <==> k in conns && k !in left
        decreases |left|
      {
        var k :| k in left;
        keys := keys + [k];
        left := left - {k};
      }
    }
  }

  // ---- what an update asks for ----

  function KeysOf(ps: seq<RemotePeer>): set<string> {
    set p | p in ps :: p.key
  }

  /** The first entry for a key. */
  function FirstOf(ps: seq<RemotePeer>, k: string): (r: Option<RemotePeer>)
    ensures r.Some? <==> k in KeysOf(ps)
    ensures r.Some? ==> r.value in ps && r.value.key == k
  {
    if ps == [] then None
    else
      var front, last := FirstOf(ps[..|ps| - 1], k), ps[|ps| - 1];
      assert forall p :: p in ps <==> p in ps[..|ps| - 1] || p == last;
      if front.Some? then front else if last.key == k then Some(last) else None
  }

  /** The connection has the agent version and the networks of the entry. */
  predicate Matches(v6: V6Codec, conn: PeerConn, p: RemotePeer) {
    conn.agentVersion == p.agentVersion && SameNetworks(v6, conn.allowedIPs, p.allowedIPs)
  }

  /** The connection was made from the entry. */
  predicate Built(v6: V6Codec, conn: PeerConn, p: RemotePeer) {
    conn.key == p.key && conn.agentVersion == p.agentVersion && ParsedAll(v6, p.allowedIPs) == Some(conn.allowedIPs)
  }

  lemma BuiltMatches(v6: V6Codec, conn: PeerConn, p: RemotePeer)
    requires Built(v6, conn, p)
    ensures Matches(v6, conn, p)
  {
  }

  /** The entries that differ from the stored connection of their key, in order. */
  function Modified(v6: V6Codec, conns: Conns, ps: seq<RemotePeer>): seq<RemotePeer> {
    if ps == [] then []
    else
      var front, last := Modified(v6, conns, ps[..|ps| - 1]), ps[|ps| - 1];
      if last.key in conns && !Matches(v6, conns[last.key], last) then front + [last] else front
  }

  lemma {:induction false} ModifiedMembers(v6: V6Codec, conns: Conns, ps: seq<RemotePeer>, p: RemotePeer)
    ensures p in Modified(v6, conns, ps) <==> p in ps && p.key in conns && !Matches(v6, conns[p.key], p)
  {
    hide Matches;
    if ps != [] {
      ModifiedMembers(v6, conns, ps[..|ps| - 1], p);
      assert p in ps <==> p in ps[..|ps| - 1] || p == ps[|ps| - 1];
    }
  }

  /** Only the connections of the listed keys matter. */
  lemma {:induction false} ModifiedOf(v6: V6Codec, a: Conns, b: Conns, ps: seq<RemotePeer>)
    requires forall k :: k in KeysOf(ps) ==> (k in a <==> k in b) && (k in a ==> a[k] == b[k])
    ensures Modified(v6, a, ps) == Modified(v6, b, ps)
  {
    hide Matches;
    if ps != [] {
      var front, last := ps[..|ps| - 1], ps[|ps| - 1];
      assert last in ps && last.key in KeysOf(ps);
      forall k | k in KeysOf(front)
        ensures k in KeysOf(ps)
      {
        var p :| p in front && p.key == k;
        assert p in ps;
      }
      ModifiedOf(v6, a, b, front);
    }
  }

  /**
   A connection can be made from the entry: its networks are readable, there is one to report the peer with, and the
   connection is not refused.
   */
  predicate Addable(v6: V6Codec, faults: set<string>, p: RemotePeer) {
    ParsedAll(v6, p.allowedIPs).Some? && p.allowedIPs != [] && p.key !in faults
  }

  /**
   The entry has no networks, so the engine panics when it reports the peer; the connection is made by then, but not
   stored.
   */
  predicate Panics(faults: set<string>, p: RemotePeer) {
    p.allowedIPs == [] && p.key !in faults
  }

  lemma PanicsNotAddable(v6: V6Codec, faults: set<string>, p: RemotePeer)
    ensures Panics(faults, p) ==> !Addable(v6, faults, p)
  {
  }

  /** Adding the entries comes to one that panics, and everything before it can be added. */
  ghost predicate PanicsIn(v6: V6Codec, faults: set<string>, before: Conns, ps: seq<RemotePeer>) {
    exists i :: 0 <= i < |ps| && PanicsAt(v6, faults, before, ps, i)
  }

  ghost predicate PanicsAt(v6: V6Codec, faults: set<string>, before: Conns, ps: seq<RemotePeer>, i: nat)
    requires i < |ps|
  {
    && ps[i].key !in before && ps[i].key !in KeysOf(ps[..i]) && Panics(faults, ps[i])
    && AllAddable(v6, faults, before, ps[..i])
  }

  /** Every missing key of the update can be added. */
  ghost predicate AllAddable(v6: V6Codec, faults: set<string>, before: Conns, ps: seq<RemotePeer>) {
    forall k :: k in KeysOf(ps) && k !in before ==> Addable(v6, faults, FirstOf(ps, k).value)
  }

  /** Adding entries keeps what is stored; a missing key gets a connection made from its first entry. */
  ghost predicate Extended(v6: V6Codec, before: Conns, after: Conns, ps: seq<RemotePeer>) {
    && (forall k :: k in before ==> k in after && after[k] == before[k])
    && (forall k :: k in after && k !in before ==> k in KeysOf(ps) && Built(v6, after[k], FirstOf(ps, k).value))
  }

  lemma FirstOfFront(ps: seq<RemotePeer>, i: nat, k: string)
    requires i < |ps| && k in KeysOf(ps[..i])
    ensures k in KeysOf(ps[..i + 1]) && FirstOf(ps[..i + 1], k) == FirstOf(ps[..i], k)
  {
    assert ps[..i + 1][..i] == ps[..i];
  }

  lemma FirstOfNext(ps: seq<RemotePeer>, i: nat)
    requires i < |ps| && ps[i].key !in KeysOf(ps[..i])
    ensures ps[i].key in KeysOf(ps[..i + 1]) && FirstOf(ps[..i + 1], ps[i].key) == Some(ps[i])
  {
    assert ps[..i + 1][..i] == ps[..i];
    assert ps[i] in ps[..i + 1];
  }

  lemma KeysOneMore(ps: seq<RemotePeer>, i: nat)
    requires i < |ps|
    ensures KeysOf(ps[..i + 1]) == KeysOf(ps[..i]) + {ps[i].key}
  {
    assert ps[..i + 1] == ps[..i] + [ps[i]];
    assert ps[i] in ps[..i + 1];
    forall k | k in KeysOf(ps[..i])
      ensures k in KeysOf(ps[..i + 1])
    {
      var p :| p in ps[..i] && p.key == k;
      assert p in ps[..i + 1];
    }
  }

  lemma {:induction false} FirstOfPrefix(ps: seq<RemotePeer>, i: nat, k: string)
    requires i <= |ps| && k in KeysOf(ps[..i])
    ensures k in KeysOf(ps) && FirstOf(ps, k) == FirstOf(ps[..i], k)
    decreases |ps| - i
  {
    if i == |ps| {
      assert ps[..i] == ps;
    } else {
      FirstOfFront(ps, i, k);
      FirstOfPrefix(ps, i + 1, k);
    }
  }

  lemma ExtendedPrefix(v6: V6Codec, before: Conns, after: Conns, ps: seq<RemotePeer>, i: nat)
    requires i <= |ps| && Extended(v6, before, after, ps[..i])
    ensures Extended(v6, before, after, ps)
  {
    hide Built, FirstOf;
    forall k | k in after && k !in before
      ensures k in KeysOf(ps) && Built(v6, after[k], FirstOf(ps, k).value)
    {
      FirstOfPrefix(ps, i, k);
    }
  }

  /** One more entry, when its key is already there. */
  lemma ExtendedKnown(v6: V6Codec, before: Conns, after: Conns, ps: seq<RemotePeer>, i: nat)
    requires i < |ps| && Extended(v6, before, after, ps[..i])
    ensures Extended(v6, before, after, ps[..i + 1])
  {
    hide Built, FirstOf;
    forall k | k in after && k !in before
      ensures k in KeysOf(ps[..i + 1]) && Built(v6, after[k], FirstOf(ps[..i + 1], k).value)
    {
      FirstOfFront(ps, i, k);
    }
  }

  /** One more entry, when its key was missing. */
  lemma ExtendedNew(v6: V6Codec, before: Conns, after: Conns, ps: seq<RemotePeer>, i: nat, conn: PeerConn)
    requires i < |ps| && Extended(v6, before, after, ps[..i]) && ps[i].key !in after && Built(v6, conn, ps[i])
    requires KeysOf(ps[..i]) <= after.Keys
    ensures Extended(v6, before, after[ps[i].key := conn], ps[..i + 1])
  {
    hide Built, FirstOf;
    ExtendedKnown(v6, before, after, ps, i);
    FirstOfNext(ps, i);
  }

  // ---- outcomes ----

  /** How an update ends; a panic ends the process too. */
  datatype Outcome = Applied | Stale | ConfigFailed | PeersFailed | Panicked {
    /** The peer phase was left half-way. */
    predicate Stopped() {
      PeersFailed? || Panicked?
    }
  }

  function TargetKeys(nm: NetworkMap): set<string> {
    if nm.remotePeersIsEmpty then {} else KeysOf(nm.remotePeers)
  }

  /** The update can be applied in full: every new and every changed peer can be added. */
  ghost predicate Applicable(v6: V6Codec, faults: set<string>, before: Conns, nm: NetworkMap) {
    nm.remotePeersIsEmpty
    || (var ps := nm.remotePeers;
        var changed := Modified(v6, before, ps);
        AllAddable(v6, faults, map[], changed) && AllAddable(v6, faults, before, ps))
  }

  /** The update comes to an entry that panics, first among the changed peers and then among the new ones. */
  ghost predicate Panicking(v6: V6Codec, faults: set<string>, before: Conns, ps: seq<RemotePeer>) {
    var changed := Modified(v6, before, ps);
    || PanicsIn(v6, faults, map[], changed)
    || (AllAddable(v6, faults, map[], changed) && PanicsIn(v6, faults, before, ps))
  }

  /**
   The store after an applied update: exactly the keys of the map. The connection of a key is the very one that was
   stored when no entry of the key differs from it; otherwise it was made from the first entry that differs, or from
   the first entry of a key that was not stored.
   */
  ghost predicate Reconciled(v6: V6Codec, before: Conns, after: Conns, ps: seq<RemotePeer>) {
    var changed := Modified(v6, before, ps);
    && after.Keys == KeysOf(ps)
    && (forall k :: k in after && k in before && k !in KeysOf(changed) ==> after[k] == before[k])
    && (forall k :: k in after && k in before && k in KeysOf(changed) ==>
                      Built(v6, after[k], FirstOf(changed, k).value))
    && (forall k :: k in after && k !in before ==> Built(v6, after[k], FirstOf(ps, k).value))
  }

  lemma ReconciledBySteps(v6: V6Codec, before: Conns, kept: Conns, modified: Conns, after: Conns,
                          ps: seq<RemotePeer>)
    requires kept == map k | k in before && k in KeysOf(ps) :: before[k]
    requires var changed := Modified(v6, kept, ps);
             Extended(v6, kept - KeysOf(changed), modified, changed)
             && KeysOf(changed) <= modified.Keys
    requires Extended(v6, modified, after, ps) && KeysOf(ps) <= after.Keys
    ensures Reconciled(v6, before, after, ps)
  {
    hide Built, FirstOf, Matches, Modified;
    ModifiedOf(v6, kept, before, ps);
    ChangedKeys(v6, before, ps);
  }

  lemma ChangedKeys(v6: V6Codec, conns: Conns, ps: seq<RemotePeer>)
    ensures forall k :: k in KeysOf(Modified(v6, conns, ps)) <==>
                          k in conns && exists p :: p in ps && p.key == k && !Matches(v6, conns[k], p)
    ensures KeysOf(Modified(v6, conns, ps)) <= KeysOf(ps) * conns.Keys
  {
    hide Matches, Modified;
    forall p {
      ModifiedMembers(v6, conns, ps, p);
    }
  }

  // ---- the engine ----

  /** What does not depend on the update: keys whose connection cannot be made, and steps that fail. */
  datatype Environment = Environment(configWorks: bool, metaSyncs: bool, mapConfigWorks: bool, faults: set<string>)

  datatype SyncResponse = SyncResponse(checks: seq<Check>, networkMap: Option<NetworkMap>)

  class Engine {
    const v6: V6Codec
    const peerStore: PeerStore
    var networkSerial: nat
    var checks: seq<Check>

    constructor (v6: V6Codec)
      ensures this.v6 == v6 && fresh(peerStore) && peerStore.conns == map[] && networkSerial == 0 && checks == []
    {
      this.v6 := v6;
      peerStore := new PeerStore();
      networkSerial := 0;
      checks := [];
    }

    method RemovePeer(peerKey: string)
      modifies peerStore
      ensures peerStore.conns == old(peerStore.conns) - {peerKey}
    {
      peerStore.RemovePeerConn(peerKey);
    }

    method RemoveAllPeers()
      modifies peerStore
      ensures peerStore.conns == map[]
    {
      var keys := peerStore.PeersPubKey();
      for i := 0 to |keys|
        invariant forall k :: k in peerStore.conns ==> k in keys[i..]
      {
        RemovePeer(keys[i]);
      }
    }

    /** Drops the peers that the update does not list, and no others. */
    method RemovePeers(peersUpdate: seq<RemotePeer>)
      modifies peerStore
      ensures peerStore.conns ==
              map k | k in old(peerStore.conns) && k in KeysOf(peersUpdate) :: old(peerStore.conns)[k]
    {
      var keys := peerStore.PeersPubKey();
      var toRemove := SliceDiff(keys, peersUpdate);
      ghost var before := peerStore.conns;
      for i := 0 to |toRemove|
        invariant peerStore.conns == before - (set k | k in toRemove[..i])
      {
        RemovePeer(toRemove[i]);
        assert toRemove[..i + 1] == toRemove[..i] + [toRemove[i]];
      }
      assert toRemove[..|toRemove|] == toRemove;
    }

    /** Adds a connection for an entry whose key is missing; fails only when none can be made. */
    method AddNewPeer(p: RemotePeer, faults: set<string>) returns (ok: bool, panics: bool)
      modifies peerStore
      ensures panics <==> p.key !in old(peerStore.conns) && Panics(faults, p)
      ensures ok <==> p.key in old(peerStore.conns) || Addable(v6, faults, p)
      ensures !ok || p.key in old(peerStore.conns) ==> peerStore.conns == old(peerStore.conns)
      ensures ok && p.key !in old(peerStore.conns) ==>
                p.key in peerStore.conns && fresh(peerStore.conns[p.key]) && Built(v6, peerStore.conns[p.key], p)
                && peerStore.conns == old(peerStore.conns)[p.key := peerStore.conns[p.key]]
    {
      hide ParsedAll;
      NothingParsed(v6);
      panics := false;
      if p.key in peerStore.conns {
        return true, false;
      }
      var peerIPs := ParsedAll(v6, p.allowedIPs);
      if peerIPs.None? || p.key in faults {
        return false, false;
      }
      var conn := new PeerConn(p.key, peerIPs.value, p.agentVersion);
      if |peerIPs.value| == 0 {
        return false, true;
      }
      var known := peerStore.AddPeerConn(p.key, conn);
      ok := !known;
    }

    method AddNewPeers(ps: seq<RemotePeer>, faults: set<string>) returns (ok: bool, panics: bool)
      modifies peerStore
      ensures panics <==> PanicsIn(v6, faults, old(peerStore.conns), ps)
      ensures Extended(v6, old(peerStore.conns), peerStore.conns, ps)
      ensures forall k :: k in peerStore.conns && k !in old(peerStore.conns) ==> fresh(peerStore.conns[k])
      ensures ok ==> KeysOf(ps) <= peerStore.conns.Keys
      ensures ok <==> AllAddable(v6, faults, old(peerStore.conns), ps)
    {
      hide Built, FirstOf, Addable, Extended, AllAddable, KeysOf, Panics, PanicsIn;
      ghost var before := peerStore.conns;
      NothingAdded(v6, faults, before, ps);
      for i := 0 to |ps|
        invariant Extended(v6, before, peerStore.conns, ps[..i])
        invariant AllAddable(v6, faults, before, ps[..i])
        invariant KeysOf(ps[..i]) <= peerStore.conns.Keys
        invariant forall k :: k in peerStore.conns && k !in before ==> fresh(peerStore.conns[k])
      {
        ghost var now := peerStore.conns;
        KeysOneMore(ps, i);
        ExtendedKnown(v6, before, now, ps, i);
        AddableStep(v6, faults, before, now, ps, i);
        var added, panicked := AddNewPeer(ps[i], faults);
        if !added {
          ExtendedPrefix(v6, before, now, ps, i);
          StoppedAt(v6, faults, before, now, ps, i);
          return false, panicked;
        }
        if ps[i].key !in now {
          ExtendedNew(v6, before, now, ps, i, peerStore.conns[ps[i].key]);
        }
      }
      assert ps[..|ps|] == ps;
      NoPanic(v6, faults, before, ps);
      ok, panics := true, false;
    }

    /** The entries that differ from what is stored, found one by one. */
    method FindModified(ps: seq<RemotePeer>) returns (modified: seq<RemotePeer>)
      requires v6.Lawful()
      ensures modified == Modified(v6, peerStore.conns, ps)
    {
      hide SameNetworks;
      modified := [];
      for i := 0 to |ps|
        invariant modified == Modified(v6, peerStore.conns, ps[..i])
      {
        assert ps[..i + 1][..i] == ps[..i];
        var p := ps[i];
        if p.key !in peerStore.conns {
          continue;
        }
        var currentPeer := peerStore.conns[p.key];
        if currentPeer.agentVersion != p.agentVersion {
          modified := modified + [p];
          continue;
        }
        var same := CompareNetIPLists(v6, currentPeer.allowedIPs, p.allowedIPs);
        if !same {
          modified := modified + [p];
        }
      }
      assert ps[..|ps|] == ps;
    }

    /** Drops the connections that differ from the update and makes them again. */
    method ModifyPeers(ps: seq<RemotePeer>, faults: set<string>) returns (ok: bool, panics: bool)
      requires v6.Lawful()
      modifies peerStore
      ensures var changed := Modified(v6, old(peerStore.conns), ps);
              Extended(v6, old(peerStore.conns) - KeysOf(changed), peerStore.conns, changed)
              && (ok ==> KeysOf(changed) <= peerStore.conns.Keys)
              && (ok <==> AllAddable(v6, faults, map[], changed))
              && (panics <==> PanicsIn(v6, faults, map[], changed))
              && (forall k :: k in peerStore.conns && k !in old(peerStore.conns) - KeysOf(changed) ==>
                                fresh(peerStore.conns[k]))
    {
      hide Built, FirstOf, Addable, Modified, Extended, PanicsIn;
      ghost var before := peerStore.conns;
      var modified := FindModified(ps);
      for i := 0 to |modified|
        invariant peerStore.conns == before - KeysOf(modified[..i])
      {
        RemovePeer(modified[i].key);
        KeysOneMore(modified, i);
      }
      assert modified[..|modified|] == modified;
      PanicsFrom(v6, faults, peerStore.conns, map[], modified);
      ok, panics := AddNewPeers(modified, faults);
    }

    /** The peer phase for a map that lists peers. */
    method SyncPeers(ps: seq<RemotePeer>, faults: set<string>) returns (ok: bool, panics: bool)
      requires v6.Lawful()
      modifies peerStore
      ensures peerStore.conns.Keys <= KeysOf(ps)
      ensures ok ==> Reconciled(v6, old(peerStore.conns), peerStore.conns, ps)
      ensures ok <==> AllAddable(v6, faults, map[], Modified(v6, old(peerStore.conns), ps))
                      && AllAddable(v6, faults, old(peerStore.conns), ps)
      ensures panics <==> Panicking(v6, faults, old(peerStore.conns), ps)
      ensures panics ==> !ok
      ensures forall k :: k in peerStore.conns ==>
                            fresh(peerStore.conns[k])
                            || (k in old(peerStore.conns) && peerStore.conns[k] == old(peerStore.conns)[k]
                                && k !in KeysOf(Modified(v6, old(peerStore.conns), ps)))
      ensures forall k :: k in old(peerStore.conns) && k in KeysOf(ps)
                          && k !in KeysOf(Modified(v6, old(peerStore.conns), ps)) ==>
                            k in peerStore.conns && peerStore.conns[k] == old(peerStore.conns)[k]
    {
      hide Built, FirstOf, Addable, Modified, KeysOf, Reconciled, PanicsIn;
      ghost var before := peerStore.conns;
      RemovePeers(ps);
      ghost var kept := peerStore.conns;
      ModifiedOf(v6, kept, before, ps);
      ChangedKeys(v6, before, ps);
      PanicsExclude(v6, faults, map[], Modified(v6, before, ps));
      ok, panics := ModifyPeers(ps, faults);
      if !ok {
        return;
      }
      ghost var modified := peerStore.conns;
      ok, panics := AddNewPeers(ps, faults);
      assert forall k :: k in KeysOf(ps) ==> (k in modified <==> k in before);
      AddableFrom(v6, faults, before, modified, ps);
      PanicsFrom(v6, faults, before, modified, ps);
      PanicsExclude(v6, faults, before, ps);
      if ok {
        ReconciledBySteps(v6, before, kept, modified, peerStore.conns, ps);
      }
    }

    /** Applies a network map, unless it is older than the last applied one. */
    method UpdateNetworkMap(nm: NetworkMap, env: Environment) returns (o: Outcome)
      requires v6.Lawful()
      modifies this, peerStore
      ensures checks == old(checks)
      ensures o.ConfigFailed? <==> !env.mapConfigWorks
      ensures o.Stale? <==> env.mapConfigWorks && old(networkSerial) > nm.serial
      ensures o.Applied? <==> env.mapConfigWorks && old(networkSerial) <= nm.serial
                              && Applicable(v6, env.faults, old(peerStore.conns), nm)
      ensures o.Panicked? <==> env.mapConfigWorks && old(networkSerial) <= nm.serial && !nm.remotePeersIsEmpty
                               && Panicking(v6, env.faults, old(peerStore.conns), nm.remotePeers)
      ensures o.Stale? || o.ConfigFailed? ==>
                networkSerial == old(networkSerial) && peerStore.conns == old(peerStore.conns)
      ensures o.Stopped() ==> networkSerial == old(networkSerial)
      ensures o.Stopped() || o.Applied? ==> peerStore.conns.Keys <= TargetKeys(nm)
      ensures o.Applied? ==>
                networkSerial == nm.serial
                && if nm.remotePeersIsEmpty then peerStore.conns == map[]
                   else Reconciled(v6, old(peerStore.conns), peerStore.conns, nm.remotePeers)
      ensures (o.Applied? || o.Stopped()) && !nm.remotePeersIsEmpty ==>
                forall k :: k in peerStore.conns ==>
                              fresh(peerStore.conns[k])
                              || (k in old(peerStore.conns) && peerStore.conns[k] == old(peerStore.conns)[k]
                                  && k !in KeysOf(Modified(v6, old(peerStore.conns), nm.remotePeers)))
      ensures (o.Applied? || o.Stopped()) && !nm.remotePeersIsEmpty ==>
                forall k :: k in old(peerStore.conns) && k in TargetKeys(nm)
                            && k !in KeysOf(Modified(v6, old(peerStore.conns), nm.remotePeers)) ==>
                              k in peerStore.conns && peerStore.conns[k] == old(peerStore.conns)[k]
    {
      hide Reconciled, Modified, AllAddable, KeysOf, Panicking;
      if !env.mapConfigWorks {
        return ConfigFailed;
      }
      if networkSerial > nm.serial {
        return Stale;
      }
      if nm.remotePeersIsEmpty {
        RemoveAllPeers();
      } else {
        var ok, panics := SyncPeers(nm.remotePeers, env.faults);
        if !ok {
          return if panics then Panicked else PeersFailed;
        }
      }
      networkSerial := nm.serial;
      o := Applied;
    }

    /** Remembers new checks before the server is told about them. */
    method UpdateChecksIfNew(newChecks: seq<Check>, env: Environment) returns (ok: bool)
      modifies this`checks
      ensures checks == if ChecksEqual(old(checks), newChecks) then old(checks) else newChecks
      ensures ok <==> ChecksEqual(old(checks), newChecks) || env.metaSyncs
      ensures ChecksEqual(checks, newChecks)
    {
      hide Normalized;
      var equal := IsChecksEqual(checks, newChecks);
      if equal {
        return true;
      }
      checks := newChecks;
      ok := env.metaSyncs;
    }

    /** A sync message: the network map is reached only when the steps before it worked. */
    method HandleSync(update: SyncResponse, env: Environment) returns (ok: bool, o: Option<Outcome>)
      requires v6.Lawful()
      modifies this, peerStore
      ensures env.configWorks ==> ChecksEqual(checks, update.checks)
      ensures o.Some? <==> env.configWorks && (ChecksEqual(old(checks), update.checks) || env.metaSyncs)
                           && update.networkMap.Some?
      ensures o.None? ==> networkSerial == old(networkSerial) && peerStore.conns == old(peerStore.conns)
      ensures ok <==> env.configWorks && (ChecksEqual(old(checks), update.checks) || env.metaSyncs)
                      && (o.Some? ==> o.value.Applied? || o.value.Stale?)
      ensures o.Some? ==>
                var nm := update.networkMap.value;
                (o.value.ConfigFailed? <==> !env.mapConfigWorks)
                && (o.value.Stale? <==> env.mapConfigWorks && old(networkSerial) > nm.serial)
                && (o.value.Applied? <==> env.mapConfigWorks && old(networkSerial) <= nm.serial
                                          && Applicable(v6, env.faults, old(peerStore.conns), nm))
                && (o.value.Panicked? <==> env.mapConfigWorks && old(networkSerial) <= nm.serial
                                           && !nm.remotePeersIsEmpty
                                           && Panicking(v6, env.faults, old(peerStore.conns), nm.remotePeers))
      ensures o.Some? && (o.value.Stale? || o.value.ConfigFailed?) ==>
                networkSerial == old(networkSerial) && peerStore.conns == old(peerStore.conns)
      ensures o.Some? && o.value.Stopped() ==>
                networkSerial == old(networkSerial) && peerStore.conns.Keys <= TargetKeys(update.networkMap.value)
      ensures o.Some? && o.value.Applied? ==>
                var nm := update.networkMap.value;
                networkSerial == nm.serial
                && if nm.remotePeersIsEmpty then peerStore.conns == map[]
                   else Reconciled(v6, old(peerStore.conns), peerStore.conns, nm.remotePeers)
    {
      hide Normalized, KeysOf, TargetKeys, Applicable, Reconciled, Modified, Panicking;
      if !env.configWorks {
        return false, None;
      }
      var told := UpdateChecksIfNew(update.checks, env);
      if !told || update.networkMap.None? {
        return told, None;
      }
      var outcome := UpdateNetworkMap(update.networkMap.value, env);
      ok, o := outcome.Applied? || outcome.Stale?, Some(outcome);
    }
  }

  /** The keys that no entry has. */
  method SliceDiff(keys: seq<string>, ps: seq<RemotePeer>) returns (r: seq<string>)
    ensures forall k :: k in r <==> k in keys && k !in KeysOf(ps)
  {
    r := [];
    for i := 0 to |keys|
      invariant forall k :: k in r <==> k in keys[..i] && k !in KeysOf(ps)
    {
      if keys[i] !in KeysOf(ps) {
        r := r + [keys[i]];
      }
    }
  }

  lemma NothingParsed(v6: V6Codec)
    ensures ParsedAll(v6, []) == Some([])
  {
  }

  /** The entry at which adding stops is the only one that can panic. */
  lemma StoppedAt(v6: V6Codec, faults: set<string>, before: Conns, now: Conns, ps: seq<RemotePeer>, i: nat)
    requires i < |ps| && AllAddable(v6, faults, before, ps[..i]) && Extended(v6, before, now, ps[..i])
    requires KeysOf(ps[..i]) <= now.Keys && ps[i].key !in now && !Addable(v6, faults, ps[i])
    ensures PanicsIn(v6, faults, before, ps) <==> Panics(faults, ps[i])
  {
    hide Addable, FirstOf, Panics, Built, KeysOf, AllAddable;
    forall j | 0 <= j < |ps| && PanicsAt(v6, faults, before, ps, j)
      ensures j == i
    {
      PanicsNotAddable(v6, faults, ps[j]);
      if j < i {
        AddableAt(v6, faults, before, ps, j, i);
      } else if i < j {
        AddableAt(v6, faults, before, ps, i, j);
      }
    }
    if Panics(faults, ps[i]) {
      assert PanicsAt(v6, faults, before, ps, i);
    }
  }

  /** An entry whose key is missing before it can be added when the entries of a longer list can. */
  lemma AddableAt(v6: V6Codec, faults: set<string>, before: Conns, ps: seq<RemotePeer>, i: nat, n: nat)
    requires i < n <= |ps| && AllAddable(v6, faults, before, ps[..n])
    requires ps[i].key !in before && ps[i].key !in KeysOf(ps[..i])
    ensures Addable(v6, faults, ps[i])
  {
    hide Addable, FirstOf;
    var front := ps[..n];
    assert front[..i] == ps[..i] && front[..i + 1] == ps[..i + 1];
    FirstOfNext(front, i);
    FirstOfPrefix(front, i + 1, ps[i].key);
  }

  lemma NoPanic(v6: V6Codec, faults: set<string>, before: Conns, ps: seq<RemotePeer>)
    requires AllAddable(v6, faults, before, ps)
    ensures !PanicsIn(v6, faults, before, ps)
  {
    hide Addable, FirstOf, Panics, KeysOf, AllAddable;
    forall i | 0 <= i < |ps|
      ensures !PanicsAt(v6, faults, before, ps, i)
    {
      if PanicsAt(v6, faults, before, ps, i) {
        assert ps[..|ps|] == ps;
        AddableAt(v6, faults, before, ps, i, |ps|);
        PanicsNotAddable(v6, faults, ps[i]);
      }
    }
  }

  lemma PanicsExclude(v6: V6Codec, faults: set<string>, before: Conns, ps: seq<RemotePeer>)
    ensures PanicsIn(v6, faults, before, ps) ==> !AllAddable(v6, faults, before, ps)
  {
    hide AllAddable, PanicsIn;
    if AllAddable(v6, faults, before, ps) {
      NoPanic(v6, faults, before, ps);
    }
  }

  /** Only which of the keys are stored matters. */
  lemma PanicsFrom(v6: V6Codec, faults: set<string>, a: Conns, b: Conns, ps: seq<RemotePeer>)
    requires forall k :: k in KeysOf(ps) ==> (k in a <==> k in b)
    ensures PanicsIn(v6, faults, a, ps) == PanicsIn(v6, faults, b, ps)
  {
    hide Addable, FirstOf, Panics;
    forall i | 0 <= i < |ps|
      ensures PanicsAt(v6, faults, a, ps, i) == PanicsAt(v6, faults, b, ps, i)
    {
      assert ps[i] in ps && ps[i].key in KeysOf(ps);
      forall k | k in KeysOf(ps[..i])
        ensures k in KeysOf(ps)
      {
        var p :| p in ps[..i] && p.key == k;
        assert p in ps;
      }
    }
  }

  lemma NothingAdded(v6: V6Codec, faults: set<string>, before: Conns, ps: seq<RemotePeer>)
    ensures Extended(v6, before, before, ps[..0]) && AllAddable(v6, faults, before, ps[..0])
    ensures KeysOf(ps[..0]) == {}
  {
  }

  /** The next entry decides whether all entries so far can be added; a failure stays a failure. */
  lemma AddableStep(v6: V6Codec, faults: set<string>, before: Conns, now: Conns, ps: seq<RemotePeer>, i: nat)
    requires i < |ps| && AllAddable(v6, faults, before, ps[..i])
    requires Extended(v6, before, now, ps[..i]) && KeysOf(ps[..i]) <= now.Keys
    ensures AllAddable(v6, faults, before, ps[..i + 1]) <==> ps[i].key in now || Addable(v6, faults, ps[i])
    ensures AllAddable(v6, faults, before, ps) ==> AllAddable(v6, faults, before, ps[..i + 1])
  {
    hide Addable, FirstOf;
    KeysOneMore(ps, i);
    forall k | k in KeysOf(ps[..i + 1])
      ensures k in KeysOf(ps) && FirstOf(ps, k) == FirstOf(ps[..i + 1], k)
    {
      FirstOfPrefix(ps, i + 1, k);
    }
    forall k | k in KeysOf(ps[..i])
      ensures FirstOf(ps[..i + 1], k) == FirstOf(ps[..i], k)
    {
      FirstOfFront(ps, i, k);
    }
    if ps[i].key !in now {
      FirstOfNext(ps, i);
    }
  }

  lemma AddableFrom(v6: V6Codec, faults: set<string>, a: Conns, b: Conns, ps: seq<RemotePeer>)
    requires forall k :: k in KeysOf(ps) ==> (k in a <==> k in b)
    ensures AllAddable(v6, faults, a, ps) <==> AllAddable(v6, faults, b, ps)
  {
    hide Addable, FirstOf;
  }
}
