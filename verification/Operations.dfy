/**
 What the operations of the configurers do to a device, stated on its state alone. The userspace configurer, which
 works through text, and the kernel configurer, which hands its configurations over, are both proved to do this.
 */
module Operations {
  import opened Wrappers
  import opened Encodings
  import opened Net
  import opened Wg
  import opened Printer
  import opened Device
  import opened Dump
  import opened DeviceLaws

  datatype ConfigError = BadKey | Rejected | Unreadable | PeerNotFound | AllowedIPNotFound | BadNetwork

  /** The state after an operation, and the error it returned, if any. */
  type Outcome = (Dev, Option<ConfigError>)

  /** Which calls into the device fail: reading its state, and the first and second change. */
  datatype Calls = Calls(getFails: bool, firstFails: bool, secondFails: bool)

  const ALL_WORK := Calls(false, false, false)

  // ---- the configurations that the operations build ----

  function UpdateConfig(k: Key, ips: seq<Prefix>, keepAlive: int, endpoint: Option<UdpAddr>, psk: Option<Key>)
    : PeerConfig
  {
    PeerConfig(k, false, false, psk, endpoint, Some(keepAlive), false, ips)
  }

  function RemoveConfig(k: Key): PeerConfig {
    PeerConfig(k, true, false, None, None, None, false, [])
  }

  function AddConfig(k: Key, p: Prefix): PeerConfig {
    PeerConfig(k, false, true, None, None, None, false, [p])
  }

  function ReplaceConfig(k: Key, updateOnly: bool, ips: seq<Prefix>): PeerConfig {
    PeerConfig(k, false, updateOnly, None, None, None, true, ips)
  }

  /** A configuration of one peer and nothing else. */
  function Only(p: PeerConfig): Config {
    Config(None, None, None, false, [p])
  }

  lemma OnlyConfigures(dev: Dev, p: PeerConfig)
    ensures Configure(dev, Only(p)) == dev.(peers := ConfigurePeer(dev.peers, p))
  {
    hide ConfigurePeer;
    assert [p][..0] == [];
    assert ConfigurePeers(dev.peers, []) == dev.peers;
  }

  /** The text that removes a peer does so. */
  lemma PrintedRemoval(v6: V6Codec, dev: Dev, k: Key)
    requires v6.Lawful()
    ensures IpcSet(v6, dev, ConfigText(v6, Only(RemoveConfig(k)))) == Answer(dev.(peers := dev.peers - {k}), true)
  {
    hide PeerTail, ConfigText, IpcSet, FirstRemoved, StoppedAt;
    var p := RemoveConfig(k);
    RemoveConfigIsBare(v6, k);
    PrintedConfigApplies(v6, dev, Only(p));
    OnlyConfigures(dev, AsPrinted(p));
    assert AllAsPrinted([p]) == [AsPrinted(p)];
  }

  lemma RemoveConfigIsBare(v6: V6Codec, k: Key)
    ensures PeerTail(v6, RemoveConfig(k)) == [] && PeerInRange(RemoveConfig(k))
  {
  }

  // ---- the operations ----

  /** The outcome of handing a peer's configuration over as text, or directly, when the call is made. */
  function ByText(dev: Dev, p: PeerConfig, fails: bool): Outcome {
    if fails then (dev, Some(Rejected))
    else (PeerAnswer(dev, p).dev, if PeerAnswer(dev, p).ok then None else Some(Rejected))
  }

  function Directly(dev: Dev, p: PeerConfig, fails: bool): Outcome {
    if fails then (dev, Some(Rejected)) else (dev.(peers := ConfigurePeer(dev.peers, p)), None)
  }

  function UserspaceUpdateOf(dev: Dev, peerKey: string, ips: seq<Prefix>, keepAlive: int, endpoint: Option<UdpAddr>,
                             psk: Option<Key>, c: Calls): Outcome {
    match ParseKey(peerKey)
    case None => (dev, Some(BadKey))
    case Some(k) => ByText(dev, UpdateConfig(k, ips, keepAlive, endpoint, psk), c.firstFails)
  }

  function KernelUpdateOf(dev: Dev, peerKey: string, ips: seq<Prefix>, keepAlive: int, endpoint: Option<UdpAddr>,
                          psk: Option<Key>, c: Calls): Outcome {
    match ParseKey(peerKey)
    case None => (dev, Some(BadKey))
    case Some(k) => Directly(dev, UpdateConfig(k, ips, keepAlive, endpoint, psk), c.firstFails)
  }

  function RemovePeerOf(dev: Dev, peerKey: string, c: Calls): Outcome {
    match ParseKey(peerKey)
    case None => (dev, Some(BadKey))
    case Some(k) => if c.firstFails then (dev, Some(Rejected)) else (dev.(peers := dev.peers - {k}), None)
  }

  /** The allowed prefixes of the peer whose key has this text. */
  function ListedAllowedIPs(peers: Peers, peerKey: string): Option<seq<Prefix>> {
    match ParseKey(peerKey)
    case None => None
    case Some(k) => if k in peers && KeyText(k) == peerKey then Some(peers[k].allowedIPs) else None
  }

  /** The peer with its allowed prefixes and nothing else. */
  function Reset(dev: Dev, k: Key): Dev
    requires k in dev.peers
  {
    dev.(peers := dev.peers[k := FreshPeer().(allowedIPs := dev.peers[k].allowedIPs)])
  }

  /** The peer is removed and added again; when only the second call fails it stays removed. */
  function RemoveEndpointOf(dev: Dev, peerKey: string, c: Calls): Outcome {
    match ParseKey(peerKey)
    case None => (dev, Some(BadKey))
    case Some(k) =>
      if c.getFails then (dev, Some(Unreadable))
      else if k !in dev.peers || KeyText(k) != peerKey then (dev, Some(PeerNotFound))
      else if c.firstFails then (dev, Some(Rejected))
      else if c.secondFails then (dev.(peers := dev.peers - {k}), Some(Rejected))
      else (Reset(dev, k), None)
  }

  function KernelAddAllowedIPOf(dev: Dev, peerKey: string, p: Prefix, c: Calls): Outcome {
    match ParseKey(peerKey)
    case None => (dev, Some(BadKey))
    case Some(k) =>
      if c.firstFails then (dev, Some(Rejected))
      else (if k in dev.peers then dev.(peers := Allow(dev.peers, k, p)) else dev, None)
  }

  /** The userspace form creates a peer that was missing, and reads an IPv4-mapped prefix as IPv4. */
  function UserspaceAddAllowedIPOf(dev: Dev, peerKey: string, p: Prefix, c: Calls): Outcome {
    match ParseKey(peerKey)
    case None => (dev, Some(BadKey))
    case Some(k) =>
      if c.firstFails then (dev, Some(Rejected))
      else (dev.(peers := Allow(EnsurePeer(dev.peers, k), k, Unmapped(p))), None)
  }

  /** The peer without one of its prefixes. */
  function Disallow(dev: Dev, k: Key, p: Prefix): Dev
    requires k in dev.peers
  {
    dev.(peers := dev.peers[k := dev.peers[k].(allowedIPs := Without(dev.peers[k].allowedIPs, p))])
  }

  /**
   The kernel form looks the peer up by its text, and takes an absent prefix for removed. It compares prefixes as they
   are printed, so an IPv4-mapped one stands for the IPv4 prefix.
   */
  function KernelRemoveAllowedIPOf(dev: Dev, peerKey: string, p: Prefix, c: Calls): Outcome {
    match ParseKey(peerKey)
    case None => (dev, Some(BadKey))
    case Some(k) =>
      if c.getFails then (dev, Some(Unreadable))
      else if k !in dev.peers || KeyText(k) != peerKey then (dev, Some(PeerNotFound))
      else if c.firstFails then (dev, Some(Rejected))
      else (Disallow(dev, k, Unmapped(p)), None)
  }

  /** The userspace form reads the device first, looks the peer up by its bytes, and reports an absent prefix. */
  function UserspaceRemoveAllowedIPOf(dev: Dev, peerKey: string, p: Prefix, c: Calls): Outcome {
    if c.getFails then (dev, Some(Unreadable))
    else match ParseKey(peerKey)
      case None => (dev, Some(BadKey))
      case Some(k) =>
        if !Owns(dev.peers, k, p) then (dev, Some(AllowedIPNotFound))
        else if c.firstFails then (dev, Some(Rejected))
        else (Disallow(dev, k, p), None)
  }

  // ---- the configurations have these effects ----

  lemma AddConfigures(peers: Peers, k: Key, p: Prefix)
    ensures ConfigurePeer(peers, AddConfig(k, p)) == if k in peers then Allow(peers, k, p) else peers
    ensures ConfigurePeer(peers, AsPrinted(AddConfig(k, p))) == Allow(EnsurePeer(peers, k), k, Unmapped(p))
  {
    hide Allow, AllowAll, Unmapped;
    OneAllowed(EnsurePeer(peers, k), k, p);
    OneAllowed(EnsurePeer(peers, k), k, Unmapped(p));
    assert UnmappedAll([p]) == [Unmapped(p)];
  }

  lemma OneAllowed(peers: Peers, k: Key, p: Prefix)
    ensures AllowAll(peers, k, [p]) == Allow(peers, k, p)
  {
    hide Allow;
    assert [p][..0] == [];
  }

  /** Replacing the list of a peer by some of its own prefixes changes nothing else. */
  lemma ReplaceConfigures(peers: Peers, k: Key, updateOnly: bool, ips: seq<Prefix>)
    requires Good(peers) && k in peers
    requires NoRepeats(ips) && forall p :: p in ips ==> p in peers[k].allowedIPs
    ensures ConfigurePeer(peers, ReplaceConfig(k, updateOnly, ips)) ==
            peers[k := peers[k].(allowedIPs := ips)]
  {
    hide Masked, AllowAll, IsMapped, NoRepeats, Without;
    var b := ClearAllowed(peers, k, true);
    forall q | q in b
      ensures NoRepeats(b[q].allowedIPs)
    {
      EmptyHasNoRepeats();
    }
    forall q, r | Owns(b, q, r)
      ensures r !in ips
    {
      OneOwner(peers, k, q, r);
    }
    OwnIsMasked(peers, k, ips);
    AllowAllUnowned(b, k, ips);
  }

  lemma OneOwner(peers: Peers, k: Key, q: Key, r: Prefix)
    requires Good(peers) && k in peers && Owns(peers, q, r)
    ensures q == k || r !in peers[k].allowedIPs
  {
    hide NoRepeats, Plain;
    assert Owns(peers, k, r) <==> r in peers[k].allowedIPs;
  }

  lemma EmptyHasNoRepeats()
    ensures NoRepeats([])
  {
  }

  lemma OwnIsMasked(peers: Peers, k: Key, ips: seq<Prefix>)
    requires Good(peers) && k in peers && forall p :: p in ips ==> p in peers[k].allowedIPs
    ensures forall i :: 0 <= i < |ips| ==> Masked(ips[i]) == ips[i] && !IsMapped(ips[i].addr)
  {
    hide Masked, IsMapped, InInt64, Exclusive;
    assert Plain(peers[k]);
    forall i | 0 <= i < |ips|
      ensures Masked(ips[i]) == ips[i] && !IsMapped(ips[i].addr)
    {
      assert ips[i] in peers[k].allowedIPs;
    }
  }

  /** Removing a peer and adding it again with its prefixes keeps the prefixes only. */
  lemma ReaddConfigures(dev: Dev, k: Key)
    requires Good(dev.peers) && k in dev.peers
    ensures ConfigurePeer(dev.peers - {k}, ReplaceConfig(k, false, dev.peers[k].allowedIPs)) == Reset(dev, k).peers
  {
    hide Masked, AllowAll, IsMapped, NoRepeats, Plain;
    var peers := dev.peers;
    var ips := peers[k].allowedIPs;
    var b := EnsurePeer(peers - {k}, k);
    assert b == peers[k := FreshPeer()];
    assert ClearAllowed(b, k, true) == b;
    EmptyHasNoRepeats();
    forall q, r | Owns(b, q, r)
      ensures r !in ips
    {
      OneOwner(peers, k, q, r);
    }
    OwnIsMasked(peers, k, ips);
    AllowAllUnowned(b, k, ips);
    assert b[k := b[k].(allowedIPs := ips)] == peers[k := FreshPeer().(allowedIPs := ips)];
  }

  lemma DisallowConfigures(dev: Dev, k: Key, updateOnly: bool, p: Prefix)
    requires Good(dev.peers) && k in dev.peers
    ensures var ips := Without(dev.peers[k].allowedIPs, p);
            dev.(peers := ConfigurePeer(dev.peers, ReplaceConfig(k, updateOnly, ips))) == Disallow(dev, k, p)
            && NoneMapped(ips)
  {
    hide ConfigurePeer, Without, Masked, IsMapped, ValidPeer;
    var all := dev.peers[k].allowedIPs;
    forall q | q in Without(all, p)
      ensures q in all
    {
      WithoutMembers(all, p, q);
    }
    WithoutKeepsOrder(all, p);
    ReplaceConfigures(dev.peers, k, updateOnly, Without(all, p));
    OwnIsMasked(dev.peers, k, Without(all, p));
  }

  /** Text without IPv4-mapped prefixes and with fitting values has the effect of the configuration. */
  lemma TextOfPlainConfig(dev: Dev, p: PeerConfig)
    requires PeerInRange(p) && NoneMapped(p.allowedIPs) && (p.updateOnly ==> p.publicKey in dev.peers)
    ensures PeerAnswer(dev, p) == Answer(dev.(peers := ConfigurePeer(dev.peers, p)), true)
  {
    UnmappedAllIsUnmapped(p.allowedIPs);
    hide SetPreshared, SetEndpoint, SetKeepalive, AllowAll, ClearAllowed, PortInRange, KeepaliveInRange, UnmappedAll,
      NoneMapped;
  }

  // ---- laws of the operations ----

  lemma ByTextKeepsGood(dev: Dev, p: PeerConfig, fails: bool)
    requires GoodDev(dev)
    ensures GoodDev(ByText(dev, p, fails).0)
  {
    hide ConfigurePeer, Good, KeepaliveInRange, NoneMapped, UnmappedAll;
    UnmappedAllIsUnmapped(p.allowedIPs);
    var q := AsPrinted(p);
    ConfigurePeerKeepsGood(dev.peers, q.(endpoint := None, keepalive := None));
    if PortInRange(p.endpoint) {
      ConfigurePeerKeepsGood(dev.peers, q.(keepalive := None));
      ConfigurePeerKeepsGood(dev.peers, q);
    }
  }

  lemma DisallowKeepsGood(dev: Dev, k: Key, p: Prefix)
    requires GoodDev(dev) && k in dev.peers
    ensures GoodDev(Disallow(dev, k, p))
  {
    hide ConfigurePeer, Good, Without, NoneMapped;
    DisallowConfigures(dev, k, true, p);
    ConfigurePeerKeepsGood(dev.peers, ReplaceConfig(k, true, Without(dev.peers[k].allowedIPs, p)));
  }

  lemma ResetKeepsGood(dev: Dev, k: Key)
    requires GoodDev(dev) && k in dev.peers
    ensures GoodDev(Reset(dev, k)) && NoneMapped(dev.peers[k].allowedIPs)
  {
    hide ConfigurePeer, IsMapped, Masked, Exclusive;
    RemovalKeepsGood(dev.peers, k);
    ReaddConfigures(dev, k);
    OwnIsMasked(dev.peers, k, dev.peers[k].allowedIPs);
    ConfigurePeerKeepsGood(dev.peers - {k}, ReplaceConfig(k, false, dev.peers[k].allowedIPs));
  }

  lemma AddKeepsGood(dev: Dev, k: Key, p: Prefix)
    requires GoodDev(dev) && !IsMapped(p.addr)
    ensures GoodDev(dev.(peers := Allow(EnsurePeer(dev.peers, k), k, p)))
    ensures k in dev.peers ==> GoodDev(dev.(peers := Allow(dev.peers, k, p)))
  {
    hide Good, IsMapped, Allow;
    EnsureKeepsGood(dev.peers, k);
    AllowKeepsGood(EnsurePeer(dev.peers, k), k, p);
  }

  /** Every operation keeps the good states, whatever calls fail. */
  lemma OperationsKeepGood(dev: Dev, peerKey: string, ips: seq<Prefix>, keepAlive: int, endpoint: Option<UdpAddr>,
                           psk: Option<Key>, p: Prefix, c: Calls)
    requires GoodDev(dev)
    ensures GoodDev(UserspaceUpdateOf(dev, peerKey, ips, keepAlive, endpoint, psk, c).0)
    ensures PortInRange(endpoint) && NoneMapped(ips) ==>
              GoodDev(KernelUpdateOf(dev, peerKey, ips, keepAlive, endpoint, psk, c).0)
    ensures GoodDev(RemovePeerOf(dev, peerKey, c).0)
    ensures GoodDev(RemoveEndpointOf(dev, peerKey, c).0)
    ensures !IsMapped(p.addr) ==> GoodDev(KernelAddAllowedIPOf(dev, peerKey, p, c).0)
    ensures GoodDev(UserspaceAddAllowedIPOf(dev, peerKey, p, c).0)
    ensures GoodDev(KernelRemoveAllowedIPOf(dev, peerKey, p, c).0)
    ensures GoodDev(UserspaceRemoveAllowedIPOf(dev, peerKey, p, c).0)
  {
    hide ConfigurePeer, Good, IsMapped, Allow, EnsurePeer, Masked, WholeSeconds, ByText, PortInRange, NoneMapped,
      Unmapped, RemovePeerOf, RemoveEndpointOf, KernelRemoveAllowedIPOf, UserspaceRemoveAllowedIPOf;
    RemovalsKeepGood(dev, peerKey, p, c);
    match ParseKey(peerKey)
    case None =>
    case Some(k) =>
      var u := UpdateConfig(k, ips, keepAlive, endpoint, psk);
      ByTextKeepsGood(dev, u, c.firstFails);
      if PortInRange(endpoint) && NoneMapped(ips) {
        ConfigurePeerKeepsGood(dev.peers, u);
      }
      UnmappedIsNotMapped(p);
      AddKeepsGood(dev, k, Unmapped(p));
      if !IsMapped(p.addr) {
        AddKeepsGood(dev, k, p);
      }
  }

  lemma RemovalsKeepGood(dev: Dev, peerKey: string, p: Prefix, c: Calls)
    requires GoodDev(dev)
    ensures GoodDev(RemovePeerOf(dev, peerKey, c).0)
    ensures GoodDev(RemoveEndpointOf(dev, peerKey, c).0)
    ensures GoodDev(KernelRemoveAllowedIPOf(dev, peerKey, p, c).0)
    ensures GoodDev(UserspaceRemoveAllowedIPOf(dev, peerKey, p, c).0)
  {
    hide Good, KeyText, Disallow, Reset, Unmapped, Owns, NoneMapped;
    match ParseKey(peerKey)
    case None =>
    case Some(k) =>
      RemovalKeepsGood(dev.peers, k);
      if k in dev.peers {
        DisallowKeepsGood(dev, k, p);
        DisallowKeepsGood(dev, k, Unmapped(p));
        ResetKeepsGood(dev, k);
      }
      OwnersAreThere(dev.peers, k, p);
  }

  lemma OwnersAreThere(peers: Peers, k: Key, p: Prefix)
    ensures Owns(peers, k, p) ==> k in peers
  {
  }

  /** RemoveEndpointAddress on a listed peer ends in one of three states; the last error leaves the peer removed. */
  lemma RemoveEndpointEnds(dev: Dev, k: Key, c: Calls)
    requires k in dev.peers
    ensures var (after, err) := RemoveEndpointOf(dev, KeyText(k), c);
            (after == dev && err.Some?) || (after == dev.(peers := dev.peers - {k}) && err.Some?)
            || (after == Reset(dev, k) && err.None?)
    ensures k !in RemoveEndpointOf(dev, KeyText(k), c).0.peers <==> !c.getFails && !c.firstFails && c.secondFails
    ensures RemoveEndpointOf(dev, KeyText(k), c).1.None? <==> !c.getFails && !c.firstFails && !c.secondFails
  {
    hide ParseKey, KeyText;
    KeyTextRoundTrip(k);
  }

  /** The peer is there afterwards exactly when it was before, and is the same. */
  predicate SamePeer(before: Dev, after: Dev, q: Key) {
    (q in after.peers <==> q in before.peers) && (q in before.peers ==> after.peers[q] == before.peers[q])
  }

  lemma ByTextElsewhere(dev: Dev, p: PeerConfig, fails: bool, q: Key)
    requires GoodDev(dev) && q != p.publicKey
    requires forall r :: Owns(dev.peers, q, r) ==> !Gives(UnmappedAll(p.allowedIPs), r)
    ensures SamePeer(dev, ByText(dev, p, fails).0, q)
  {
    hide ConfigurePeer, KeepaliveInRange, PortInRange, Gives, Good;
    var u := AsPrinted(p);
    ConfigurePeerElsewhere(dev.peers, u, q);
    ConfigurePeerElsewhere(dev.peers, u.(keepalive := None), q);
    ConfigurePeerElsewhere(dev.peers, u.(endpoint := None, keepalive := None), q);
  }

  lemma AllowElsewhere(dev: Dev, k: Key, p: Prefix, q: Key)
    requires GoodDev(dev) && q != k && !Owns(dev.peers, q, Masked(p))
    ensures SamePeer(dev, dev.(peers := Allow(EnsurePeer(dev.peers, k), k, p)), q)
    ensures SamePeer(dev, dev.(peers := Allow(dev.peers, k, p)), q)
  {
    hide Masked, Without, Plain, NoRepeats;
    if q in dev.peers {
      WithoutKeepsOrder(dev.peers[q].allowedIPs, Masked(p));
    }
  }

  lemma UpdateElsewhere(dev: Dev, peerKey: string, ips: seq<Prefix>, keepAlive: int, endpoint: Option<UdpAddr>,
                        psk: Option<Key>, c: Calls, q: Key)
    requires GoodDev(dev) && ParseKey(peerKey) != Some(q)
    ensures (forall r :: Owns(dev.peers, q, r) ==> !Gives(UnmappedAll(ips), r)) ==>
              SamePeer(dev, UserspaceUpdateOf(dev, peerKey, ips, keepAlive, endpoint, psk, c).0, q)
    ensures (forall r :: Owns(dev.peers, q, r) ==> !Gives(ips, r)) ==>
              SamePeer(dev, KernelUpdateOf(dev, peerKey, ips, keepAlive, endpoint, psk, c).0, q)
  {
    hide ConfigurePeer, WholeSeconds, Gives, Good, ByText, ParseKey, Owns, UnmappedAll;
    match ParseKey(peerKey)
    case None =>
    case Some(k) =>
      var u := UpdateConfig(k, ips, keepAlive, endpoint, psk);
      if forall r :: Owns(dev.peers, q, r) ==> !Gives(UnmappedAll(ips), r) {
        ByTextElsewhere(dev, u, c.firstFails, q);
      }
      if forall r :: Owns(dev.peers, q, r) ==> !Gives(ips, r) {
        ConfigurePeerElsewhere(dev.peers, u, q);
      }
  }

  lemma AddElsewhere(dev: Dev, peerKey: string, p: Prefix, c: Calls, q: Key)
    requires GoodDev(dev) && ParseKey(peerKey) != Some(q)
    ensures !Owns(dev.peers, q, Masked(p)) ==> SamePeer(dev, KernelAddAllowedIPOf(dev, peerKey, p, c).0, q)
    ensures !Owns(dev.peers, q, Masked(Unmapped(p))) ==> SamePeer(dev, UserspaceAddAllowedIPOf(dev, peerKey, p, c).0, q)
  {
    hide Masked, Good, Allow, EnsurePeer, Unmapped, ParseKey, Owns;
    match ParseKey(peerKey)
    case None =>
    case Some(k) =>
      if !Owns(dev.peers, q, Masked(p)) {
        AllowElsewhere(dev, k, p, q);
      }
      if !Owns(dev.peers, q, Masked(Unmapped(p))) {
        AllowElsewhere(dev, k, Unmapped(p), q);
      }
  }

  lemma RemovalElsewhere(dev: Dev, peerKey: string, p: Prefix, c: Calls, q: Key)
    requires ParseKey(peerKey) != Some(q)
    ensures SamePeer(dev, RemovePeerOf(dev, peerKey, c).0, q)
    ensures SamePeer(dev, RemoveEndpointOf(dev, peerKey, c).0, q)
    ensures SamePeer(dev, KernelRemoveAllowedIPOf(dev, peerKey, p, c).0, q)
    ensures SamePeer(dev, UserspaceRemoveAllowedIPOf(dev, peerKey, p, c).0, q)
  {
    hide ParseKey, KeyText, Without;
  }

  /** No operation touches a peer other than the named one that owns none of the given prefixes. */
  lemma OthersUnchanged(dev: Dev, peerKey: string, ips: seq<Prefix>, keepAlive: int, endpoint: Option<UdpAddr>,
                        psk: Option<Key>, p: Prefix, c: Calls, q: Key)
    requires GoodDev(dev) && ParseKey(peerKey) != Some(q)
    ensures (forall r :: Owns(dev.peers, q, r) ==> !Gives(UnmappedAll(ips), r)) ==>
              SamePeer(dev, UserspaceUpdateOf(dev, peerKey, ips, keepAlive, endpoint, psk, c).0, q)
    ensures (forall r :: Owns(dev.peers, q, r) ==> !Gives(ips, r)) ==>
              SamePeer(dev, KernelUpdateOf(dev, peerKey, ips, keepAlive, endpoint, psk, c).0, q)
    ensures SamePeer(dev, RemovePeerOf(dev, peerKey, c).0, q)
    ensures SamePeer(dev, RemoveEndpointOf(dev, peerKey, c).0, q)
    ensures !Owns(dev.peers, q, Masked(p)) ==> SamePeer(dev, KernelAddAllowedIPOf(dev, peerKey, p, c).0, q)
    ensures !Owns(dev.peers, q, Masked(Unmapped(p))) ==> SamePeer(dev, UserspaceAddAllowedIPOf(dev, peerKey, p, c).0, q)
    ensures SamePeer(dev, KernelRemoveAllowedIPOf(dev, peerKey, p, c).0, q)
    ensures SamePeer(dev, UserspaceRemoveAllowedIPOf(dev, peerKey, p, c).0, q)
  {
    hide UserspaceUpdateOf, KernelUpdateOf, RemovePeerOf, RemoveEndpointOf, KernelAddAllowedIPOf,
      UserspaceAddAllowedIPOf, KernelRemoveAllowedIPOf, UserspaceRemoveAllowedIPOf, Gives, Owns, SamePeer, Good,
      ParseKey, Masked, Unmapped, UnmappedAll;
    UpdateElsewhere(dev, peerKey, ips, keepAlive, endpoint, psk, c, q);
    AddElsewhere(dev, peerKey, p, c, q);
    RemovalElsewhere(dev, peerKey, p, c, q);
  }

  /**
   Giving a prefix that nobody owns and taking it away again changes nothing, exactly when the prefix is one that
   devices keep as it is: without host bits and not IPv4-mapped. Any other one is not found again.
   */
  lemma AddThenRemove(dev: Dev, peerKey: string, p: Prefix)
    requires GoodDev(dev) && ParseKey(peerKey).Some? && ParseKey(peerKey).value in dev.peers
    requires forall q :: !Owns(dev.peers, q, Masked(Unmapped(p)))
    ensures UserspaceRemoveAllowedIPOf(UserspaceAddAllowedIPOf(dev, peerKey, p, ALL_WORK).0, peerKey, p, ALL_WORK) ==
            (dev, None) <==>
            Masked(p) == p && !IsMapped(p.addr)
  {
    hide ParseKey, Good, Allow, EnsurePeer, Masked, IsMapped, UnmapAddr, Owns, Disallow;
    var k := ParseKey(peerKey).value;
    var after := UserspaceAddAllowedIPOf(dev, peerKey, p, ALL_WORK).0;
    if Masked(p) == p && !IsMapped(p.addr) {
      AllowThenDisallow(dev, k, p);
    } else {
      UnmappedIsNotMapped(p);
      AddKeepsGood(dev, k, Unmapped(p));
      OwnedAreNotMapped(after.peers, k, p);
    }
  }

  lemma AllowThenDisallow(dev: Dev, k: Key, p: Prefix)
    requires GoodDev(dev) && k in dev.peers && Masked(p) == p && forall q :: !Owns(dev.peers, q, p)
    ensures var after := dev.(peers := Allow(EnsurePeer(dev.peers, k), k, p));
            Owns(after.peers, k, p) && Disallow(after, k, p) == dev
  {
    hide Masked, Without, NoRepeats, Plain;
    var peers := dev.peers;
    forall q | q in peers
      ensures Without(peers[q].allowedIPs, p) == peers[q].allowedIPs
    {
      assert !Owns(peers, q, p);
      WithoutKeepsOrder(peers[q].allowedIPs, p);
    }
    assert EnsurePeer(peers, k) == peers;
    assert Allow(peers, k, p) == peers[k := peers[k].(allowedIPs := peers[k].allowedIPs + [p])];
    WithoutLast(peers[k].allowedIPs, p);
    var after := dev.(peers := Allow(peers, k, p));
    assert Owns(after.peers, k, p);
    assert Disallow(after, k, p).peers == peers;
  }

  lemma WithoutLast(ips: seq<Prefix>, p: Prefix)
    ensures Without(ips + [p], p) == Without(ips, p)
  {
    assert (ips + [p])[..|ips|] == ips;
  }

  // ---- where the two configurers differ ----

  /** UpdatePeer has the same outcome in both for values that fit and prefixes that are not IPv4-mapped. */
  lemma UpdatePeerAgrees(dev: Dev, peerKey: string, ips: seq<Prefix>, keepAlive: int, endpoint: Option<UdpAddr>,
                         psk: Option<Key>, c: Calls)
    requires PortInRange(endpoint) && KeepaliveInRange(Some(keepAlive)) && NoneMapped(ips)
    ensures UserspaceUpdateOf(dev, peerKey, ips, keepAlive, endpoint, psk, c) ==
            KernelUpdateOf(dev, peerKey, ips, keepAlive, endpoint, psk, c)
  {
    hide ParseKey, ConfigurePeer, PeerAnswer, PortInRange, KeepaliveInRange, NoneMapped;
    if ParseKey(peerKey).Some? {
      TextOfPlainConfig(dev, UpdateConfig(ParseKey(peerKey).value, ips, keepAlive, endpoint, psk));
    }
  }

  /** AddAllowedIP has the same outcome in both just when the key is unreadable, the call fails or the peer exists. */
  lemma AddAllowedIPAgrees(dev: Dev, peerKey: string, p: Prefix, c: Calls)
    requires !IsMapped(p.addr)
    ensures KernelAddAllowedIPOf(dev, peerKey, p, c) == UserspaceAddAllowedIPOf(dev, peerKey, p, c) <==>
            (ParseKey(peerKey).Some? ==> c.firstFails || ParseKey(peerKey).value in dev.peers)
  {
    hide ParseKey, Without, Masked, IsMapped;
    if ParseKey(peerKey).Some? && !c.firstFails {
      var k := ParseKey(peerKey).value;
      assert k in UserspaceAddAllowedIPOf(dev, peerKey, p, c).0.peers;
    }
  }

  /**
   The state of the device cannot be read and the key can, or both can be read and the peer owns the prefix and is named
   by the standard text of its key; an unreadable key needs a readable device. In a good state nobody owns an
   IPv4-mapped prefix.
   */
  predicate RemovalDoneAlike(dev: Dev, peerKey: string, p: Prefix, c: Calls) {
    match ParseKey(peerKey)
    case None => !c.getFails
    case Some(k) =>
      c.getFails || (Owns(dev.peers, k, p) && KeyText(k) == peerKey && (c.firstFails || !IsMapped(p.addr)))
  }

  /** RemoveAllowedIP has the same outcome in both exactly then. */
  lemma RemoveAllowedIPAgrees(dev: Dev, peerKey: string, p: Prefix, c: Calls)
    ensures KernelRemoveAllowedIPOf(dev, peerKey, p, c) == UserspaceRemoveAllowedIPOf(dev, peerKey, p, c) <==>
            RemovalDoneAlike(dev, peerKey, p, c)
  {
    hide ParseKey, KeyText, Without, UnmapAddr;
    match ParseKey(peerKey)
    case None =>
    case Some(k) =>
      if Owns(dev.peers, k, p) && IsMapped(p.addr) {
        MappedStays(dev, k, p);
      }
  }

  lemma MappedStays(dev: Dev, k: Key, p: Prefix)
    requires Owns(dev.peers, k, p) && IsMapped(p.addr)
    ensures Disallow(dev, k, p) != Disallow(dev, k, Unmapped(p)) && Disallow(dev, k, p) != dev
  {
    hide Without, UnmapAddr;
    var ips := dev.peers[k].allowedIPs;
    UnmappedIsNotMapped(p);
    WithoutMembers(ips, p, p);
    WithoutMembers(ips, Unmapped(p), p);
    assert Disallow(dev, k, p).peers[k].allowedIPs != Disallow(dev, k, Unmapped(p)).peers[k].allowedIPs;
    assert Disallow(dev, k, p).peers[k].allowedIPs != dev.peers[k].allowedIPs;
  }

  /**
   The states agree more often: an absent prefix, or a call that fails, only makes a difference in the error. They
   differ for a key in another text, and for an IPv4-mapped prefix whose IPv4 form the peer owns under the standard
   text.
   */
  lemma RemoveAllowedIPStatesAgree(dev: Dev, peerKey: string, p: Prefix, c: Calls)
    requires GoodDev(dev)
    ensures KernelRemoveAllowedIPOf(dev, peerKey, p, c).0 == UserspaceRemoveAllowedIPOf(dev, peerKey, p, c).0 <==>
            match ParseKey(peerKey)
            case None => true
            case Some(k) =>
              c.getFails || c.firstFails
              || (Owns(dev.peers, k, Unmapped(p)) ==> (KeyText(k) == peerKey <==> !IsMapped(p.addr)))
  {
    hide ParseKey, KeyText, Good, Owns, Disallow, UnmapAddr, IsMapped;
    match ParseKey(peerKey)
    case None =>
    case Some(k) =>
      if k in dev.peers {
        DisallowChanges(dev, k, p);
        DisallowChanges(dev, k, Unmapped(p));
      }
      OwnersAreThere(dev.peers, k, p);
      OwnersAreThere(dev.peers, k, Unmapped(p));
      OwnedAreNotMapped(dev.peers, k, p);
  }

  /** Taking a prefix away changes the device exactly when the peer has it. */
  lemma DisallowChanges(dev: Dev, k: Key, p: Prefix)
    requires GoodDev(dev) && k in dev.peers
    ensures Disallow(dev, k, p) != dev <==> Owns(dev.peers, k, p)
  {
    hide Without, Plain, NoRepeats;
    WithoutKeepsOrder(dev.peers[k].allowedIPs, p);
    WithoutMembers(dev.peers[k].allowedIPs, p, p);
    assert Owns(dev.peers, k, p) ==> Disallow(dev, k, p).peers[k].allowedIPs != dev.peers[k].allowedIPs;
    assert !Owns(dev.peers, k, p) ==> Disallow(dev, k, p).peers == dev.peers;
  }

  lemma OwnedAreNotMapped(peers: Peers, k: Key, p: Prefix)
    requires Good(peers)
    ensures Owns(peers, k, p) ==> !IsMapped(p.addr) && Masked(p) == p
  {
    hide IsMapped, Masked, InInt64, Exclusive;
    if Owns(peers, k, p) {
      assert Plain(peers[k]);
    }
  }

  // ---- any operation on both ----

  datatype Operation =
    | Update(ips: seq<Prefix>, keepAlive: int, endpoint: Option<UdpAddr>, psk: Option<Key>)
    | Remove
    | RemoveEndpoint
    | AddIP(p: Prefix)
    | RemoveIP(p: Prefix)

  /** The operations that both configurers do alike. */
  predicate DoneAlike(dev: Dev, peerKey: string, op: Operation, c: Calls) {
    match op
    case AddIP(_) => ParseKey(peerKey).Some? ==> c.firstFails || ParseKey(peerKey).value in dev.peers
    case RemoveIP(p) => RemovalDoneAlike(dev, peerKey, p, c)
    case _ => true
  }
}
