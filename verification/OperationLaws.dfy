/**
 What the operations of the configurers ask of a device, in terms of the device before and after: who owns which
 prefix, and every field of the named peer.
 */
module OperationLaws {
  import opened Wrappers
  import opened Net
  import opened Wg
  import opened PrintParse
  import opened Device
  import opened DeviceLaws
  import opened Operations

  /** The fields of a peer besides its prefixes; a missing peer has zeros. */
  datatype Settings = Settings(presharedKey: Key, endpoint: Option<UdpAddr>, keepalive: int, handshakeSec: int,
                               handshakeNsec: int, txBytes: int, rxBytes: int)

  function SettingsOf(peers: Peers, k: Key): Settings {
    if k in peers then
      var p := peers[k];
      Settings(p.presharedKey, p.endpoint, p.keepalive, p.handshakeSec, p.handshakeNsec, p.txBytes, p.rxBytes)
    else Settings(seq(32, i => 0), None, 0, 0, 0, 0, 0)
  }

  /** Every peer but one has the settings it had, and is there exactly when it was. */
  ghost predicate OthersKept(before: Peers, after: Peers, k: Key) {
    forall q :: q != k ==> (q in after <==> q in before) && SettingsOf(after, q) == SettingsOf(before, q)
  }

  /** The device is the same but for its peers. */
  predicate OnlyPeers(before: Dev, after: Dev) {
    after.privateKey == before.privateKey && after.listenPort == before.listenPort && after.fwMark == before.fwMark
  }

  lemma SettingsConfigured(peers: Peers, p: PeerConfig, q: Key)
    requires !p.remove && (p.publicKey in peers || !p.updateOnly)
    ensures q == p.publicKey || (q in ConfigurePeer(peers, p) <==> q in peers)
    ensures SettingsOf(ConfigurePeer(peers, p), q) ==
            var was := SettingsOf(peers, q);
            if q != p.publicKey then was
            else was.(
                 presharedKey := if p.presharedKey.Some? then p.presharedKey.value else was.presharedKey,
                 endpoint := if p.endpoint.Some? then Some(UnmapEndpoint(p.endpoint.value)) else was.endpoint,
                 keepalive := if p.keepalive.Some? then WholeSeconds(p.keepalive.value) else was.keepalive)
  {
    hide AllowAll, WholeSeconds, UnmapEndpoint;
    var k := p.publicKey;
    var a := SetPreshared(EnsurePeer(peers, k), k, p.presharedKey);
    var b := ClearAllowed(a, k, p.replaceAllowedIPs);
    assert k in b;
    AllowAllFields(b, k, p.allowedIPs, k);
    if q in b {
      AllowAllFields(b, k, p.allowedIPs, q);
    }
  }

  // ---- UpdatePeer ----

  /**
   An update whose calls work, for values that fit and plain prefixes, has no error and gives the peer exactly the given
   prefixes on top of its own, taking them from every other peer; it sets the keep-alive, and the endpoint and preshared
   key that are given, and leaves everything else. Both configurers do this.
   */
  lemma UpdateLaw(dev: Dev, peerKey: string, k: Key, ips: seq<Prefix>, keepAlive: int, endpoint: Option<UdpAddr>,
                  psk: Option<Key>, c: Calls)
    requires ParseKey(peerKey) == Some(k) && !c.firstFails
    requires (endpoint.Some? ==> 0 <= endpoint.value.port <= 65535) && 0 <= keepAlive < 65536 * 1000000000
    requires forall i :: 0 <= i < |ips| ==> !IsMapped(ips[i].addr)
    ensures KernelUpdateOf(dev, peerKey, ips, keepAlive, endpoint, psk, c) ==
            UserspaceUpdateOf(dev, peerKey, ips, keepAlive, endpoint, psk, c)
    ensures var (after, err) := UserspaceUpdateOf(dev, peerKey, ips, keepAlive, endpoint, psk, c);
            var was := SettingsOf(dev.peers, k);
            err.None? && OnlyPeers(dev, after) && OthersKept(dev.peers, after.peers, k) && k in after.peers
            && SettingsOf(after.peers, k) ==
               Settings(if psk.Some? then psk.value else was.presharedKey,
                        if endpoint.Some? then Some(UdpAddr(UnmapAddr(endpoint.value.ip), endpoint.value.port))
                        else was.endpoint,
                        keepAlive / 1000000000, was.handshakeSec, was.handshakeNsec, was.txBytes, was.rxBytes)
            && forall q, r :: Owns(after.peers, q, r) <==>
                              if exists i :: 0 <= i < |ips| && Masked(ips[i]) == r then q == k
                              else Owns(dev.peers, q, r)
  {
    hide ParseKey, ConfigurePeer, PeerAnswer, Masked, IsMapped, UnmapAddr, SettingsOf;
    UpdatePeerAgrees(dev, peerKey, ips, keepAlive, endpoint, psk, c);
    var p := UpdateConfig(k, ips, keepAlive, endpoint, psk);
    TextOfPlainConfig(dev, p);
    forall q {
      SettingsConfigured(dev.peers, p, q);
    }
    forall q, r {
      ConfigurePeerOwners(dev.peers, p, q, r);
    }
    Configured(dev.peers, p);
  }

  lemma Configured(peers: Peers, p: PeerConfig)
    requires !p.remove && !p.updateOnly
    ensures p.publicKey in ConfigurePeer(peers, p)
  {
    hide WholeSeconds, UnmapEndpoint, AllowAll;
    ConfigurePeerFields(peers, p);
  }

  // ---- the other operations ----

  /** Every peer keeps its settings and stays. */
  ghost predicate AllKept(before: Peers, after: Peers) {
    after.Keys == before.Keys && forall q :: SettingsOf(after, q) == SettingsOf(before, q)
  }

  lemma AllowedLaw(peers: Peers, k: Key, p: Prefix)
    requires k in peers
    ensures AllKept(peers, Allow(peers, k, p))
    ensures forall q, r :: Owns(Allow(peers, k, p), q, r) <==> if r == Masked(p) then q == k else Owns(peers, q, r)
  {
    hide Masked, Owns;
    forall q, r {
      AllowOwners(peers, k, p, q, r);
    }
  }

  /**
   Adding an allowed prefix whose call works makes the peer its only owner and changes nothing else, except that the
   userspace form brings a missing peer into being, without any settings, which the kernel form does not.
   */
  lemma AddLaw(dev: Dev, peerKey: string, k: Key, p: Prefix, c: Calls)
    requires ParseKey(peerKey) == Some(k) && !c.firstFails
    ensures var (after, err) := UserspaceAddAllowedIPOf(dev, peerKey, p, c);
            err.None? && OnlyPeers(dev, after) && after.peers.Keys == dev.peers.Keys + {k}
            && (forall q :: SettingsOf(after.peers, q) == SettingsOf(dev.peers, q))
            && forall q, r :: Owns(after.peers, q, r) <==>
                              if r == Masked(Unmapped(p)) then q == k else Owns(dev.peers, q, r)
    ensures var (after, err) := KernelAddAllowedIPOf(dev, peerKey, p, c);
            err.None? && OnlyPeers(dev, after) && AllKept(dev.peers, after.peers)
            && forall q, r :: Owns(after.peers, q, r) <==>
                              if r == Masked(p) && k in dev.peers then q == k else Owns(dev.peers, q, r)
  {
    hide ParseKey, Masked, Unmapped, Allow;
    var all := EnsurePeer(dev.peers, k);
    EnsuredLaw(dev.peers, k);
    AllowedLaw(all, k, Unmapped(p));
    if k in dev.peers {
      AllowedLaw(dev.peers, k, p);
    }
    hide SettingsOf, Owns, EnsurePeer;
  }

  lemma EnsuredLaw(peers: Peers, k: Key)
    ensures k in EnsurePeer(peers, k) && EnsurePeer(peers, k).Keys == peers.Keys + {k}
    ensures forall q :: SettingsOf(EnsurePeer(peers, k), q) == SettingsOf(peers, q)
    ensures forall q, r :: Owns(EnsurePeer(peers, k), q, r) <==> Owns(peers, q, r)
  {
  }

  lemma DisallowedLaw(dev: Dev, k: Key, p: Prefix)
    requires GoodDev(dev) && k in dev.peers
    ensures var after := Disallow(dev, k, p);
            OnlyPeers(dev, after) && AllKept(dev.peers, after.peers)
            && (forall q, r :: Owns(after.peers, q, r) <==> Owns(dev.peers, q, r) && !(q == k && r == p))
            && ListCut(dev.peers[k].allowedIPs, after.peers[k].allowedIPs, p)
  {
    hide Plain, NoRepeats, Without, ListCut;
    var ips := dev.peers[k].allowedIPs;
    forall r {
      WithoutMembers(ips, p, r);
    }
    WithoutCuts(ips, p);
  }

  /** The list without the place of one prefix. */
  ghost predicate ListCut(before: seq<Prefix>, after: seq<Prefix>, p: Prefix) {
    if p in before then exists i :: 0 <= i < |before| && before[i] == p && after == before[..i] + before[i + 1..]
    else after == before
  }

  lemma WithoutCuts(ips: seq<Prefix>, p: Prefix)
    requires NoRepeats(ips)
    ensures ListCut(ips, Without(ips, p), p)
  {
    hide Without;
    if p in ips {
      var i :| 0 <= i < |ips| && ips[i] == p;
      WithoutAt(ips, i);
    } else {
      WithoutKeepsOrder(ips, p);
    }
  }

  /**
   Removing an allowed prefix whose calls work takes it from the peer, out of its list, and changes nothing else. The
   userspace form reports a prefix that the peer does not have. The kernel form finds the peer by its text only, takes
   the prefix in the form in which it prints, and reports nothing.
   */
  lemma RemoveLaw(dev: Dev, peerKey: string, k: Key, p: Prefix, c: Calls)
    requires GoodDev(dev) && ParseKey(peerKey) == Some(k) && !c.getFails && !c.firstFails
    ensures var (after, err) := UserspaceRemoveAllowedIPOf(dev, peerKey, p, c);
            (err.None? <==> Owns(dev.peers, k, p)) && (err.Some? ==> err == Some(AllowedIPNotFound))
            && OnlyPeers(dev, after) && AllKept(dev.peers, after.peers)
            && (forall q, r :: Owns(after.peers, q, r) <==> Owns(dev.peers, q, r) && !(q == k && r == p))
            && (k in dev.peers ==> ListCut(dev.peers[k].allowedIPs, after.peers[k].allowedIPs, p))
    ensures var (after, err) := KernelRemoveAllowedIPOf(dev, peerKey, p, c);
            (err.None? <==> k in dev.peers && KeyText(k) == peerKey) && (err.Some? ==> err == Some(PeerNotFound))
            && OnlyPeers(dev, after) && AllKept(dev.peers, after.peers)
            && (forall q, r :: Owns(after.peers, q, r) <==>
                               Owns(dev.peers, q, r) && !(q == k && r == Unmapped(p) && KeyText(k) == peerKey))
            && (k in dev.peers && KeyText(k) == peerKey ==>
                  ListCut(dev.peers[k].allowedIPs, after.peers[k].allowedIPs, Unmapped(p)))
  {
    hide ParseKey, KeyText, Unmapped, Disallow, Good, ListCut, SettingsOf;
    if k in dev.peers {
      DisallowedLaw(dev, k, p);
      DisallowedLaw(dev, k, Unmapped(p));
      NothingCut(dev.peers[k].allowedIPs, p);
    }
    OwnersAreThere(dev.peers, k, p);
    OwnersAreThere(dev.peers, k, Unmapped(p));
  }

  lemma NothingCut(ips: seq<Prefix>, p: Prefix)
    ensures p !in ips ==> ListCut(ips, ips, p)
  {
  }

  /**
   Taking the endpoint away from a peer named by the text of its key, when the calls work, leaves the peer its prefixes
   in their order and nothing else, and no other peer is touched.
   */
  lemma RemoveEndpointLaw(dev: Dev, k: Key)
    requires k in dev.peers
    ensures var (after, err) := RemoveEndpointOf(dev, KeyText(k), ALL_WORK);
            err.None? && OnlyPeers(dev, after) && after.peers.Keys == dev.peers.Keys
            && (forall q :: q in dev.peers && q != k ==> after.peers[q] == dev.peers[q])
            && after.peers[k].allowedIPs == dev.peers[k].allowedIPs
            && SettingsOf(after.peers, k) == Settings(seq(32, i => 0), None, 0, 0, 0, 0, 0)
  {
    hide ParseKey, KeyText;
    KeyTextRoundTrip(k);
  }

  /** Removing a peer takes it away, and no other peer is touched. */
  lemma RemovePeerLaw(dev: Dev, peerKey: string, k: Key, c: Calls)
    requires ParseKey(peerKey) == Some(k) && !c.firstFails
    ensures var (after, err) := RemovePeerOf(dev, peerKey, c);
            err.None? && OnlyPeers(dev, after) && k !in after.peers
            && forall q :: q != k ==>
                             (q in after.peers <==> q in dev.peers)
                             && (q in dev.peers ==> after.peers[q] == dev.peers[q])
  {
    hide ParseKey;
  }

  // ---- what the laws ask for ----

  /**
   The good states of a device, spelled out: numbers of 64 bits, ports of 16 bits, prefixes without host bits and not
   IPv4-mapped, each of them in one place only.
   */
  lemma GoodDevExactly(dev: Dev)
    ensures GoodDev(dev) <==>
            && -0x8000_0000_0000_0000 <= dev.listenPort <= 0x7FFF_FFFF_FFFF_FFFF
            && -0x8000_0000_0000_0000 <= dev.fwMark <= 0x7FFF_FFFF_FFFF_FFFF
            && (forall k :: k in dev.peers ==> GoodPeer(dev.peers[k]))
            && (forall k, q, p ::
                  (k in dev.peers && q in dev.peers && p in dev.peers[k].allowedIPs && p in dev.peers[q].allowedIPs)
                  ==> k == q)
  {
    hide Masked, IsMapped;
    assert forall k, p :: Owns(dev.peers, k, p) <==> k in dev.peers && p in dev.peers[k].allowedIPs;
  }

  predicate GoodPeer(p: DevPeer) {
    && -0x8000_0000_0000_0000 <= p.handshakeSec <= 0x7FFF_FFFF_FFFF_FFFF
    && -0x8000_0000_0000_0000 <= p.txBytes <= 0x7FFF_FFFF_FFFF_FFFF
    && -0x8000_0000_0000_0000 <= p.rxBytes <= 0x7FFF_FFFF_FFFF_FFFF
    && (p.endpoint.Some? ==> 0 <= p.endpoint.value.port <= 65535)
    && (forall i :: 0 <= i < |p.allowedIPs| ==> Masked(p.allowedIPs[i]) == p.allowedIPs[i])
    && (forall i :: 0 <= i < |p.allowedIPs| ==> !IsMapped(p.allowedIPs[i].addr))
    && (forall i, j :: 0 <= i < j < |p.allowedIPs| ==> p.allowedIPs[i] != p.allowedIPs[j])
  }

  /** The configurations that fit: ports and keep-alives of 16 bits, and a mark of 32 bits. */
  lemma InRangeExactly(cfg: Config)
    ensures InRange(cfg) <==>
            && (cfg.listenPort.Some? ==> 0 <= cfg.listenPort.value <= 65535)
            && (cfg.firewallMark.Some? ==> 0 <= cfg.firewallMark.value <= 4294967295)
            && (forall p :: p in cfg.peers ==>
                              (p.endpoint.Some? ==> 0 <= p.endpoint.value.port <= 65535)
                              && (p.keepalive.Some? ==> -1000000000 < p.keepalive.value < 65536 * 1000000000))
  {
    forall p | p in cfg.peers
      ensures KeepaliveInRange(p.keepalive) <==>
              (p.keepalive.Some? ==> -1000000000 < p.keepalive.value < 65536 * 1000000000)
    {
    }
  }

  /** The configurations whose text is read back: numbers of 64 bits and ports of 16 bits. */
  lemma RepresentableExactly(cfg: Config)
    ensures Representable(cfg) <==>
            && (cfg.listenPort.Some? ==> -0x8000_0000_0000_0000 <= cfg.listenPort.value <= 0x7FFF_FFFF_FFFF_FFFF)
            && (cfg.firewallMark.Some? ==> -0x8000_0000_0000_0000 <= cfg.firewallMark.value <= 0x7FFF_FFFF_FFFF_FFFF)
            && (forall p :: p in cfg.peers ==>
                              (p.endpoint.Some? ==> 0 <= p.endpoint.value.port <= 65535)
                              && (p.keepalive.Some? ==>
                                    -0x8000_0000_0000_0000 <= p.keepalive.value <= 0x7FFF_FFFF_FFFF_FFFF))
  {
  }
}
