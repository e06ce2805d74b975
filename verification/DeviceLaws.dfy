/**
 Laws of a WireGuard device under configuration: who owns a prefix afterwards, what stays as it was, and the states
 that every configuration keeps.
 */
module DeviceLaws {
  import opened Wrappers
  import opened Encodings
  import opened Net
  import opened Wg
  import opened Device
  import opened Dump

  predicate Owns(peers: Peers, k: Key, p: Prefix) {
    k in peers && p in peers[k].allowedIPs
  }

  predicate NoRepeats(ips: seq<Prefix>) {
    forall i, j :: 0 <= i < j < |ips| ==> ips[i] != ips[j]
  }

  /** Every prefix has one owner, who lists it once. */
  ghost predicate Exclusive(peers: Peers) {
    && (forall k :: k in peers ==> NoRepeats(peers[k].allowedIPs))
    && (forall k, q, p :: Owns(peers, k, p) && Owns(peers, q, p) ==> k == q)
  }

  predicate Plain(p: DevPeer) {
    ValidPeer(p) && forall i :: 0 <= i < |p.allowedIPs| ==> !IsMapped(p.allowedIPs[i].addr)
  }

  /** The states of a device: readable numbers, masked prefixes, one owner for each prefix. */
  ghost predicate Good(peers: Peers) {
    Exclusive(peers) && forall k :: k in peers ==> Plain(peers[k])
  }

  ghost predicate GoodDev(dev: Dev) {
    InInt64(dev.listenPort) && InInt64(dev.fwMark) && Good(dev.peers)
  }

  lemma GoodIsValid(dev: Dev)
    requires GoodDev(dev)
    ensures ValidDev(dev)
  {
    hide ValidPeer, Exclusive;
  }

  // ---- prefix lists ----

  lemma {:induction false} WithoutMembers(ips: seq<Prefix>, p: Prefix, q: Prefix)
    ensures q in Without(ips, p) <==> q in ips && q != p
  {
    if ips != [] {
      var front, last := ips[..|ips| - 1], ips[|ips| - 1];
      WithoutMembers(front, p, q);
      assert ips == front + [last];
    }
  }

  lemma {:induction false} WithoutKeepsOrder(ips: seq<Prefix>, p: Prefix)
    requires NoRepeats(ips)
    ensures NoRepeats(Without(ips, p))
    ensures p !in ips ==> Without(ips, p) == ips
  {
    if ips != [] {
      var front, last := ips[..|ips| - 1], ips[|ips| - 1];
      WithoutKeepsOrder(front, p);
      WithoutMembers(front, p, last);
      assert ips == front + [last];
    }
  }

  /** Leaving out the only occurrence of a prefix cuts the list at its index. */
  lemma {:induction false} WithoutAt(ips: seq<Prefix>, i: nat)
    requires NoRepeats(ips) && i < |ips|
    ensures Without(ips, ips[i]) == ips[..i] + ips[i + 1..]
  {
    var front, last := ips[..|ips| - 1], ips[|ips| - 1];
    if i < |front| {
      WithoutAt(front, i);
      assert ips[i + 1..] == front[i + 1..] + [last];
    } else {
      WithoutKeepsOrder(front, last);
      assert ips[..i] + ips[i + 1..] == front;
    }
  }

  // ---- allowing prefixes ----

  /** The peer that a prefix is given to becomes its only owner, and no other ownership changes. */
  lemma AllowOwners(peers: Peers, k: Key, p: Prefix, q: Key, r: Prefix)
    requires k in peers
    ensures Owns(Allow(peers, k, p), q, r) <==> if r == Masked(p) then q == k else Owns(peers, q, r)
  {
    hide Masked;
    if q in peers {
      WithoutMembers(peers[q].allowedIPs, Masked(p), r);
    }
  }

  predicate Gives(ips: seq<Prefix>, r: Prefix) {
    exists i :: 0 <= i < |ips| && Masked(ips[i]) == r
  }

  lemma GivesOneMore(ips: seq<Prefix>, p: Prefix, r: Prefix)
    ensures Gives(ips + [p], r) <==> Gives(ips, r) || r == Masked(p)
  {
    hide Masked;
    var all := ips + [p];
    if Gives(ips, r) {
      var i :| 0 <= i < |ips| && Masked(ips[i]) == r;
      assert all[i] == ips[i];
    }
    if r == Masked(p) {
      assert all[|ips|] == p;
    }
  }

  lemma NothingGiven(r: Prefix)
    ensures !Gives([], r)
  {
  }

  /** Giving a list of prefixes to a peer makes it the only owner of each, and changes no other ownership. */
  lemma {:induction false} AllowAllOwners(peers: Peers, k: Key, ips: seq<Prefix>, q: Key, r: Prefix)
    requires k in peers
    ensures k in AllowAll(peers, k, ips) && AllowAll(peers, k, ips).Keys == peers.Keys
    ensures Owns(AllowAll(peers, k, ips), q, r) <==> if Gives(ips, r) then q == k else Owns(peers, q, r)
  {
    hide Masked, Gives;
    if ips == [] {
      NothingGiven(r);
    } else {
      var front, last := ips[..|ips| - 1], ips[|ips| - 1];
      AllowAllOwners(peers, k, front, q, r);
      AllowOwners(AllowAll(peers, k, front), k, last, q, r);
      GivesOneMore(front, last, r);
      assert ips == front + [last];
      hide Owns;
    }
  }

  /** Only the prefixes of a peer change. */
  lemma {:induction false} AllowAllFields(peers: Peers, k: Key, ips: seq<Prefix>, q: Key)
    requires k in peers && q in peers
    ensures q in AllowAll(peers, k, ips)
    ensures AllowAll(peers, k, ips)[q] == peers[q].(allowedIPs := AllowAll(peers, k, ips)[q].allowedIPs)
    ensures AllowAll(peers, k, ips).Keys == peers.Keys
  {
    hide Masked, Without;
    if ips != [] {
      AllowAllFields(peers, k, ips[..|ips| - 1], q);
    }
  }

  /** A peer that owns none of the prefixes stays as it was. */
  lemma {:induction false} AllowAllElsewhere(peers: Peers, k: Key, ips: seq<Prefix>, q: Key)
    requires k in peers && q in peers && q != k
    requires NoRepeats(peers[q].allowedIPs) && forall r :: Owns(peers, q, r) ==> !Gives(ips, r)
    ensures q in AllowAll(peers, k, ips) && AllowAll(peers, k, ips)[q] == peers[q]
  {
    hide Masked, Without, Gives, NoRepeats;
    if ips != [] {
      var front, last := ips[..|ips| - 1], ips[|ips| - 1];
      assert ips == front + [last];
      forall r | Owns(peers, q, r)
        ensures !Gives(front, r)
      {
        GivesOneMore(front, last, r);
      }
      AllowAllElsewhere(peers, k, front, q);
      AllowAllFields(peers, k, front, k);
      GivesOneMore(front, last, Masked(last));
      assert !Owns(peers, q, Masked(last));
      WithoutKeepsOrder(peers[q].allowedIPs, Masked(last));
    }
  }

  lemma LastAllowed(peers: Peers, k: Key, ips: seq<Prefix>)
    requires ips != [] && k in AllowAll(peers, k, ips[..|ips| - 1])
    ensures k in AllowAll(peers, k, ips)
    ensures var last := Masked(ips[|ips| - 1]);
            AllowAll(peers, k, ips)[k].allowedIPs ==
            Without(AllowAll(peers, k, ips[..|ips| - 1])[k].allowedIPs, last) + [last]
  {
    hide Masked, Without;
  }

  lemma LastNotBefore(ips: seq<Prefix>)
    requires NoRepeats(ips) && ips != []
    ensures NoRepeats(ips[..|ips| - 1]) && ips[|ips| - 1] !in ips[..|ips| - 1]
  {
  }

  /** Prefixes given to a peer that has none are its list, in order. */
  lemma {:induction false} AllowAllList(peers: Peers, k: Key, ips: seq<Prefix>)
    requires k in peers && peers[k].allowedIPs == [] && NoRepeats(ips)
    requires forall i :: 0 <= i < |ips| ==> Masked(ips[i]) == ips[i]
    ensures k in AllowAll(peers, k, ips) && AllowAll(peers, k, ips)[k].allowedIPs == ips
  {
    hide Masked, Without;
    if ips != [] {
      var front, last := ips[..|ips| - 1], ips[|ips| - 1];
      AllowAllList(peers, k, front);
      hide AllowAll;
      AllowAllFields(peers, k, front, k);
      WithoutKeepsOrder(front, last);
      assert ips == front + [last];
      LastAllowed(peers, k, ips);
      LastNotBefore(ips);
    }
  }

  lemma GivesItself(ips: seq<Prefix>, r: Prefix)
    requires forall i :: 0 <= i < |ips| ==> Masked(ips[i]) == ips[i]
    ensures Gives(ips, r) <==> r in ips
  {
    hide Masked;
    if Gives(ips, r) {
      var i :| 0 <= i < |ips| && Masked(ips[i]) == r;
      assert ips[i] == r;
    }
    if r in ips {
      var i :| 0 <= i < |ips| && ips[i] == r;
      assert Masked(ips[i]) == r;
    }
  }

  /** Prefixes that nobody owns are given to a peer that has none, and nothing else changes. */
  lemma AllowAllUnowned(peers: Peers, k: Key, ips: seq<Prefix>)
    requires k in peers && peers[k].allowedIPs == [] && NoRepeats(ips)
    requires forall i :: 0 <= i < |ips| ==> Masked(ips[i]) == ips[i]
    requires forall q :: q in peers ==> NoRepeats(peers[q].allowedIPs)
    requires forall q, r :: Owns(peers, q, r) ==> r !in ips
    ensures AllowAll(peers, k, ips) == peers[k := peers[k].(allowedIPs := ips)]
  {
    hide Masked, Without, Gives, NoRepeats, AllowAll;
    AllowAllList(peers, k, ips);
    AllowAllFields(peers, k, ips, k);
    forall q | q in peers && q != k
      ensures q in AllowAll(peers, k, ips) && AllowAll(peers, k, ips)[q] == peers[q]
    {
      forall r | Owns(peers, q, r)
        ensures !Gives(ips, r)
      {
        GivesItself(ips, r);
      }
      AllowAllElsewhere(peers, k, ips, q);
    }
  }

  // ---- every configuration keeps the good states ----

  lemma AllowKeepsGood(peers: Peers, k: Key, p: Prefix)
    requires Good(peers) && k in peers && !IsMapped(p.addr)
    ensures Good(Allow(peers, k, p))
  {
    hide Masked, Without, ValidPeer, IsMapped;
    var after := Allow(peers, k, p);
    AllowKeepsExclusive(peers, k, p);
    forall q | q in after
      ensures Plain(after[q])
    {
      AllowKeepsPlain(peers, k, p, q);
    }
    hide Exclusive, Plain, Allow;
  }

  lemma AllowKeepsExclusive(peers: Peers, k: Key, p: Prefix)
    requires Exclusive(peers) && k in peers
    ensures Exclusive(Allow(peers, k, p))
  {
    hide Masked, Without;
    var after := Allow(peers, k, p);
    forall q | q in after
      ensures NoRepeats(after[q].allowedIPs)
    {
      WithoutKeepsOrder(peers[q].allowedIPs, Masked(p));
      WithoutMembers(peers[q].allowedIPs, Masked(p), Masked(p));
    }
    forall q, s, r | Owns(after, q, r) && Owns(after, s, r)
      ensures q == s
    {
      AllowOwners(peers, k, p, q, r);
      AllowOwners(peers, k, p, s, r);
    }
  }

  lemma MaskByteFull(b: byte, keep: int)
    ensures MaskByte(b, keep) == 255 ==> keep >= 8
    ensures keep >= 8 ==> MaskByte(b, keep) == b
  {
  }

  /** The address of a masked prefix is IPv4-mapped only when the prefix was. */
  lemma MaskedUnmapped(p: Prefix)
    ensures IsMapped(Masked(p).addr) ==> IsMapped(p.addr)
  {
    hide MaskByte;
    var m := Masked(p).addr;
    if IsMapped(m) {
      assert m[..12][11] == 255;
      MaskByteFull(p.addr[11], p.bits - 88);
      forall i | 0 <= i < 12
        ensures p.addr[..12][i] == m[..12][i]
      {
        MaskByteFull(p.addr[i], p.bits - 8 * i);
      }
      assert p.addr[..12] == m[..12];
    }
  }

  lemma AllowKeepsPlain(peers: Peers, k: Key, p: Prefix, q: Key)
    requires k in peers && q in peers && Plain(peers[q]) && !IsMapped(p.addr)
    ensures Plain(Allow(peers, k, p)[q])
  {
    hide Masked, Without, IsMapped, InInt64;
    MaskedTwice(p);
    MaskedUnmapped(p);
    var ips, kept := peers[q].allowedIPs, Without(peers[q].allowedIPs, Masked(p));
    forall i | 0 <= i < |kept|
      ensures Masked(kept[i]) == kept[i] && !IsMapped(kept[i].addr)
    {
      WithoutMembers(ips, Masked(p), kept[i]);
      var j :| 0 <= j < |ips| && ips[j] == kept[i];
      assert Masked(ips[j]) == ips[j];
    }
  }

  lemma {:induction false} AllowAllKeepsGood(peers: Peers, k: Key, ips: seq<Prefix>)
    requires Good(peers) && k in peers && NoneMapped(ips)
    ensures Good(AllowAll(peers, k, ips))
  {
    hide Good, Allow, IsMapped;
    if ips != [] {
      var front, last := ips[..|ips| - 1], ips[|ips| - 1];
      AllowAllKeepsGood(peers, k, front);
      AllowAllFields(peers, k, front, k);
      AllowKeepsGood(AllowAll(peers, k, front), k, last);
    }
  }

  /** Changing a peer without adding prefixes keeps the good states. */
  lemma ChangeKeepsGood(peers: Peers, k: Key, p: DevPeer)
    requires Good(peers) && Plain(p)
    requires p.allowedIPs == if k in peers then peers[k].allowedIPs else []
    ensures Good(peers[k := p])
  {
    hide Plain;
    var after := peers[k := p];
    forall q, s, r | Owns(after, q, r) && Owns(after, s, r)
      ensures q == s
    {
      assert Owns(peers, q, r) && Owns(peers, s, r);
    }
  }

  lemma ClearKeepsGood(peers: Peers, k: Key, clear: bool)
    requires Good(peers)
    ensures Good(ClearAllowed(peers, k, clear))
    ensures k in peers && clear ==> ClearAllowed(peers, k, clear)[k].allowedIPs == []
  {
    var after := ClearAllowed(peers, k, clear);
    forall q, s, r | Owns(after, q, r) && Owns(after, s, r)
      ensures q == s
    {
      assert Owns(peers, q, r) && Owns(peers, s, r);
    }
    hide Masked, IsMapped, InInt64;
  }

  lemma EnsureKeepsGood(peers: Peers, k: Key)
    requires Good(peers)
    ensures Good(EnsurePeer(peers, k)) && k in EnsurePeer(peers, k)
  {
    hide Good;
    if k !in peers {
      FreshIsPlain();
      ChangeKeepsGood(peers, k, FreshPeer());
    }
  }

  lemma FreshIsPlain()
    ensures Plain(FreshPeer())
  {
  }

  lemma PresharedKeepsGood(peers: Peers, k: Key, psk: Option<Key>)
    requires Good(peers) && k in peers
    ensures Good(SetPreshared(peers, k, psk)) && k in SetPreshared(peers, k, psk)
  {
    if psk.Some? {
      assert Plain(peers[k]);
      ChangeKeepsGood(peers, k, peers[k].(presharedKey := psk.value));
    }
    hide Good;
  }

  lemma EndpointKeepsGood(peers: Peers, k: Key, e: Option<UdpAddr>)
    requires Good(peers) && k in peers && (e.Some? ==> 0 <= e.value.port <= 65535)
    ensures Good(SetEndpoint(peers, k, e)) && k in SetEndpoint(peers, k, e)
  {
    if e.Some? {
      assert Plain(peers[k]);
      ChangeKeepsGood(peers, k, peers[k].(endpoint := Some(UnmapEndpoint(e.value))));
    }
    hide Good;
  }

  lemma KeepaliveKeepsGood(peers: Peers, k: Key, n: Option<int>)
    requires Good(peers) && k in peers
    ensures Good(SetKeepalive(peers, k, n))
  {
    if n.Some? {
      assert Plain(peers[k]);
      ChangeKeepsGood(peers, k, peers[k].(keepalive := n.value));
    }
    hide Good;
  }

  lemma RemovalKeepsGood(peers: Peers, k: Key)
    requires Good(peers)
    ensures Good(peers - {k})
  {
    hide Plain;
    var after := peers - {k};
    forall q, s, r | Owns(after, q, r) && Owns(after, s, r)
      ensures q == s
    {
      assert Owns(peers, q, r) && Owns(peers, s, r);
    }
  }

  /** Every configuration of a peer keeps the good states: each prefix has one owner, who lists it once. */
  lemma ConfigurePeerKeepsGood(peers: Peers, p: PeerConfig)
    requires Good(peers) && PortInRange(p.endpoint) && NoneMapped(p.allowedIPs)
    ensures Good(ConfigurePeer(peers, p))
  {
    hide Good, EnsurePeer, SetPreshared, SetEndpoint, SetKeepalive, ClearAllowed, AllowAll, IsMapped, WholeSeconds;
    var k := p.publicKey;
    if p.remove {
      RemovalKeepsGood(peers, k);
    } else if !(p.updateOnly && k !in peers) {
      EnsureKeepsGood(peers, k);
      PresharedKeepsGood(EnsurePeer(peers, k), k, p.presharedKey);
      var a := SetPreshared(EnsurePeer(peers, k), k, p.presharedKey);
      ClearKeepsGood(a, k, p.replaceAllowedIPs);
      ClearKeepsKeys(a, k, p.replaceAllowedIPs);
      var b := ClearAllowed(a, k, p.replaceAllowedIPs);
      AllowAllKeepsGood(b, k, p.allowedIPs);
      AllowAllFields(b, k, p.allowedIPs, k);
      var c := AllowAll(b, k, p.allowedIPs);
      EndpointKeepsGood(c, k, p.endpoint);
      KeepaliveKeepsGood(SetEndpoint(c, k, p.endpoint), k, Seconds(p.keepalive));
    }
  }

  lemma ClearKeepsKeys(peers: Peers, k: Key, clear: bool)
    ensures ClearAllowed(peers, k, clear).Keys == peers.Keys
  {
  }

  /** A peer other than the configured one, owning none of the given prefixes, stays as it was. */
  lemma ConfigurePeerElsewhere(peers: Peers, p: PeerConfig, q: Key)
    requires Good(peers) && q != p.publicKey
    requires forall r :: Owns(peers, q, r) ==> !Gives(p.allowedIPs, r)
    ensures q in ConfigurePeer(peers, p) <==> q in peers
    ensures q in peers ==> ConfigurePeer(peers, p)[q] == peers[q]
  {
    hide AllowAll, IsMapped, WholeSeconds, Gives, Plain, UnmapEndpoint;
    var k := p.publicKey;
    if !p.remove && !(p.updateOnly && k !in peers) {
      var a := SetPreshared(EnsurePeer(peers, k), k, p.presharedKey);
      var b := ClearAllowed(a, k, p.replaceAllowedIPs);
      assert k in b;
      AllowAllFields(b, k, p.allowedIPs, k);
      if q in peers {
        assert b[q] == peers[q];
        assert forall r :: Owns(b, q, r) <==> Owns(peers, q, r);
        AllowAllElsewhere(b, k, p.allowedIPs, q);
      }
    }
  }

  /** Who owns a prefix after a peer was configured: the peer, when it was given the prefix, else the earlier owner. */
  lemma ConfigurePeerOwners(peers: Peers, p: PeerConfig, q: Key, r: Prefix)
    requires !p.remove && (p.publicKey in peers || !p.updateOnly)
    ensures Owns(ConfigurePeer(peers, p), q, r) <==>
            if Gives(p.allowedIPs, r) then q == p.publicKey
            else Owns(peers, q, r) && !(q == p.publicKey && p.replaceAllowedIPs)
  {
    hide AllowAll, IsMapped, WholeSeconds, Gives, UnmapEndpoint;
    var k := p.publicKey;
    var a := SetPreshared(EnsurePeer(peers, k), k, p.presharedKey);
    var b := ClearAllowed(a, k, p.replaceAllowedIPs);
    assert k in b;
    AllowAllOwners(b, k, p.allowedIPs, q, r);
    assert Owns(b, q, r) <==> Owns(peers, q, r) && !(q == k && p.replaceAllowedIPs);
    var c := AllowAll(b, k, p.allowedIPs);
    assert Owns(ConfigurePeer(peers, p), q, r) <==> Owns(c, q, r);
  }

  /** What a configuration leaves of the peer besides its prefixes: the given values, else the earlier ones. */
  lemma ConfigurePeerFields(peers: Peers, p: PeerConfig)
    requires !p.remove && (p.publicKey in peers || !p.updateOnly)
    ensures var k := p.publicKey;
            var was, after := EnsurePeer(peers, k)[k], ConfigurePeer(peers, p);
            k in after
            && after[k].presharedKey == (match p.presharedKey case Some(psk) => psk case None => was.presharedKey)
            && after[k].endpoint ==
               (match p.endpoint case Some(e) => Some(UnmapEndpoint(e)) case None => was.endpoint)
            && after[k].keepalive ==
               (match p.keepalive case Some(d) => WholeSeconds(d) case None => was.keepalive)
            && after[k].handshakeSec == was.handshakeSec && after[k].handshakeNsec == was.handshakeNsec
            && after[k].txBytes == was.txBytes && after[k].rxBytes == was.rxBytes
  {
    hide AllowAll, WholeSeconds, UnmapEndpoint;
    var k := p.publicKey;
    var a := SetPreshared(EnsurePeer(peers, k), k, p.presharedKey);
    var b := ClearAllowed(a, k, p.replaceAllowedIPs);
    assert k in b;
    AllowAllFields(b, k, p.allowedIPs, k);
  }
}
