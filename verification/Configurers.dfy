/**
 The two configurers: go/iface/configurer/usp.go drives a userspace device through text, and
 go/iface/configurer/kernel_unix.go hands its configurations to the kernel. Both do what Operations states.
 */
module Configurers {
  import opened Wrappers
  import opened Encodings
  import opened Net
  import opened Wg
  import opened Status
  import opened Printer
  import opened PrintParse
  import opened Device
  import opened Dump
  import opened Removal
  import opened DeviceLaws
  import opened Operations

  // ---- devices ----

  /** A device that is configured and read as text. */
  class UserspaceDevice {
    var state: Dev

    constructor (dev: Dev)
      ensures state == dev
    {
      state := dev;
    }

    /** A call that fails changes nothing; a text that is rejected keeps its effect up to the line at fault. */
    method IpcSet(v6: V6Codec, text: string, fails: bool) returns (ok: bool)
      modifies this
      ensures if fails then !ok && state == old(state) else Answer(state, ok) == Device.IpcSet(v6, old(state), text)
    {
      if fails {
        return false;
      }
      var answer := Device.IpcSet(v6, state, text);
      state, ok := answer.dev, answer.ok;
    }

    /** The dump lists the peers in any order. */
    method IpcGet(v6: V6Codec, fails: bool) returns (text: Option<string>, ghost order: seq<Key>)
      ensures Lists(order, state.peers)
      ensures text == if fails then None else Some(DumpText(v6, state, order))
    {
      hide DumpText, Lists;
      var all := ListPeers(state.peers);
      order := all;
      text := if fails then None else Some(DumpText(v6, state, all));
    }
  }

  /** A device that takes configurations and reports its peers directly. */
  class KernelDevice {
    var state: Dev

    constructor (dev: Dev)
      ensures state == dev
    {
      state := dev;
    }

    method ConfigureDevice(cfg: Config, fails: bool) returns (ok: bool)
      modifies this
      ensures ok == !fails && state == if ok then Configure(old(state), cfg) else old(state)
    {
      ok := !fails;
      if ok {
        state := Configure(state, cfg);
      }
    }
  }

  method ListPeers(peers: Peers) returns (order: seq<Key>)
    ensures Lists(order, peers)
  {
    order := [];
    var left := peers.Keys;
    while left != {}
      invariant left <= peers.Keys
      invariant forall k :: k in order <==> k in peers && k !in left
      invariant forall i, j :: 0 <= i < j < |order| ==> order[i] != order[j]
      decreases |left|
    {
      var k :| k in left;
      order := order + [k];
      left := left - {k};
    }
  }

  // ---- userspace ----

  class UspConfigurer {
    const device: UserspaceDevice
    const deviceName: string
    const v6: V6Codec

    constructor (device: UserspaceDevice, deviceName: string, v6: V6Codec)
      ensures this.device == device && this.deviceName == deviceName && this.v6 == v6
    {
      this.device := device;
      this.deviceName := deviceName;
      this.v6 := v6;
    }

    ghost predicate Valid()
      reads device
    {
      v6.Lawful() && GoodDev(device.state)
    }

    /** Hands one peer's configuration over as text. */
    method Apply(p: PeerConfig, fails: bool) returns (ok: bool)
      requires v6.Lawful() && !p.remove
      modifies device
      ensures (device.state, if ok then None else Some(Rejected)) == ByText(old(device.state), p, fails)
    {
      hide PeerAnswer, ConfigText, IpcSet;
      OnePeerAnswer(v6, device.state, p);
      var text := ToWgUserspaceString(v6, Only(p));
      ok := device.IpcSet(v6, text, fails);
    }

    /** Hands the removal of a peer over as text. */
    method ApplyRemoval(k: Key, fails: bool) returns (ok: bool)
      requires v6.Lawful()
      modifies device
      ensures ok == !fails
      ensures device.state ==
              if ok then old(device.state).(peers := old(device.state).peers - {k}) else old(device.state)
    {
      hide ConfigText, IpcSet;
      PrintedRemoval(v6, device.state, k);
      var text := ToWgUserspaceString(v6, Only(RemoveConfig(k)));
      ok := device.IpcSet(v6, text, fails);
    }

    method UpdatePeer(peerKey: string, allowedIps: seq<Prefix>, keepAlive: int, endpoint: Option<UdpAddr>,
                      preSharedKey: Option<Key>, c: Calls)
      returns (err: Option<ConfigError>)
      requires Valid()
      modifies device
      ensures Valid()
      ensures (device.state, err) ==
              UserspaceUpdateOf(old(device.state), peerKey, allowedIps, keepAlive, endpoint, preSharedKey, c)
    {
      hide ParseKey, Good, ByText;
      var peerKeyParsed := ParseKey(peerKey);
      if peerKeyParsed.None? {
        return Some(BadKey);
      }
      var peer := UpdateConfig(peerKeyParsed.value, allowedIps, keepAlive, endpoint, preSharedKey);
      ByTextKeepsGood(device.state, peer, c.firstFails);
      var ok := Apply(peer, c.firstFails);
      err := if ok then None else Some(Rejected);
    }

    method RemovePeer(peerKey: string, c: Calls) returns (err: Option<ConfigError>)
      requires Valid()
      modifies device
      ensures Valid()
      ensures (device.state, err) == RemovePeerOf(old(device.state), peerKey, c)
    {
      hide ParseKey, Good;
      var peerKeyParsed := ParseKey(peerKey);
      if peerKeyParsed.None? {
        return Some(BadKey);
      }
      RemovalKeepsGood(device.state.peers, peerKeyParsed.value);
      var ok := ApplyRemoval(peerKeyParsed.value, c.firstFails);
      err := if ok then None else Some(Rejected);
    }

    /** The first peer of the status that has this key text. */
    method FindPeer(peers: seq<Peer>, peerKey: string) returns (r: Option<seq<Prefix>>)
      ensures r.None? ==> forall i :: 0 <= i < |peers| ==> peers[i].publicKey != peerKey
      ensures r.Some? ==>
                exists i :: 0 <= i < |peers| && peers[i].publicKey == peerKey && peers[i].allowedIPs == r.value
    {
      for i := 0 to |peers|
        invariant forall j :: 0 <= j < i ==> peers[j].publicKey != peerKey
      {
        if peers[i].publicKey == peerKey {
          return Some(peers[i].allowedIPs);
        }
      }
      r := None;
    }

    /** The allowed prefixes that a dump of the device gives for a key text. */
    method CurrentAllowedIPs(peerKey: string, ipcStr: string, ghost order: seq<Key>) returns (r: Option<seq<Prefix>>)
      requires Valid() && Lists(order, device.state.peers) && ipcStr == DumpText(v6, device.state, order)
      ensures r == ListedAllowedIPs(device.state.peers, peerKey)
    {
      hide ParseKey, KeyText, StatusOf, DumpText, ReportedPeers, ValidDev, Good;
      GoodIsValid(device.state);
      var stats := ParseStatus(v6, deviceName, ipcStr);
      StatusOfDump(v6, deviceName, device.state, order);
      ReportedByText(device.state.peers, order, peerKey);
      r := FindPeer(stats.peers, peerKey);
    }

    method RemoveEndpointAddress(peerKey: string, c: Calls) returns (err: Option<ConfigError>)
      requires Valid()
      modifies device
      ensures Valid()
      ensures (device.state, err) == RemoveEndpointOf(old(device.state), peerKey, c)
    {
      hide ParseKey, KeyText, Good, ConfigurePeer, PeerAnswer, DumpText, Lists, NoneMapped, Reset;
      var peerKeyParsed := ParseKey(peerKey);
      if peerKeyParsed.None? {
        return Some(BadKey);
      }
      var k := peerKeyParsed.value;
      var ipcStr, order := device.IpcGet(v6, c.getFails);
      if ipcStr.None? {
        return Some(Unreadable);
      }
      var allowedIPs := CurrentAllowedIPs(peerKey, ipcStr.value, order);
      if allowedIPs.None? {
        return Some(PeerNotFound);
      }
      RemovalKeepsGood(device.state.peers, k);
      ResetKeepsGood(device.state, k);
      ReaddAnswer(device.state, k);
      var ok := ApplyRemoval(k, c.firstFails);
      if !ok {
        return Some(Rejected);
      }
      ok := Apply(ReplaceConfig(k, false, allowedIPs.value), c.secondFails);
      err := if ok then None else Some(Rejected);
    }

    method AddAllowedIP(peerKey: string, allowedIP: Prefix, c: Calls) returns (err: Option<ConfigError>)
      requires Valid()
      modifies device
      ensures Valid()
      ensures (device.state, err) == UserspaceAddAllowedIPOf(old(device.state), peerKey, allowedIP, c)
    {
      hide ParseKey, Good, ConfigurePeer, Allow, EnsurePeer, Unmapped;
      var peerKeyParsed := ParseKey(peerKey);
      if peerKeyParsed.None? {
        return Some(BadKey);
      }
      var k := peerKeyParsed.value;
      var peer := AddConfig(k, allowedIP);
      AddConfigures(device.state.peers, k, allowedIP);
      ByTextKeepsGood(device.state, peer, c.firstFails);
      var ok := Apply(peer, c.firstFails);
      err := if ok then None else Some(Rejected);
    }

    method RemoveAllowedIP(peerKey: string, allowedIP: Prefix, c: Calls) returns (err: Option<ConfigError>)
      requires Valid()
      modifies device
      ensures Valid()
      ensures (device.state, err) == UserspaceRemoveAllowedIPOf(old(device.state), peerKey, allowedIP, c)
    {
      hide ParseKey, Good, ConfigurePeer, RemovalOf, HexEncode, PrefixText, DumpText, Without, ValidDev, Lists,
        PeerAnswer, NoneMapped;
      var ipc, order := device.IpcGet(v6, c.getFails);
      if ipc.None? {
        return Some(Unreadable);
      }
      var peerKeyParsed := ParseKey(peerKey);
      if peerKeyParsed.None? {
        return Some(BadKey);
      }
      var k := peerKeyParsed.value;
      GoodIsValid(device.state);
      RemovalOfDump(v6, device.state, order, k, allowedIP);
      var scan := ScanAllowedIPs(v6, HexEncode(k), PrefixText(v6, allowedIP), ipc.value);
      if scan.None? {
        return Some(BadNetwork);
      }
      var (removedAllowedIP, allowedIPs) := scan.value;
      if !removedAllowedIP {
        return Some(AllowedIPNotFound);
      }
      DisallowConfigures(device.state, k, true, allowedIP);
      DisallowKeepsGood(device.state, k, allowedIP);
      TextOfPlainConfig(device.state, ReplaceConfig(k, true, allowedIPs));
      var ok := Apply(ReplaceConfig(k, true, allowedIPs), c.firstFails);
      err := if ok then None else Some(Rejected);
    }
  }

  /** Adding a removed peer again by text resets it. */
  lemma ReaddAnswer(dev: Dev, k: Key)
    requires GoodDev(dev) && k in dev.peers
    ensures PeerAnswer(dev.(peers := dev.peers - {k}), ReplaceConfig(k, false, dev.peers[k].allowedIPs)) ==
            Answer(Reset(dev, k), true)
  {
    hide ConfigurePeer, PeerAnswer, NoneMapped, Good;
    ResetKeepsGood(dev, k);
    ReaddConfigures(dev, k);
    TextOfPlainConfig(dev.(peers := dev.peers - {k}), ReplaceConfig(k, false, dev.peers[k].allowedIPs));
  }

  lemma RemoveConfigures(peers: Peers, k: Key)
    ensures ConfigurePeer(peers, RemoveConfig(k)) == peers - {k}
  {
  }

  /** Looking a peer up in a status by its text finds the peer with that text, and only that one. */
  lemma ReportedByText(peers: Peers, order: seq<Key>, peerKey: string)
    requires Lists(order, peers)
    ensures forall i :: 0 <= i < |order| && ReportedPeers(peers, order)[i].publicKey == peerKey ==>
                          ParseKey(peerKey) == Some(order[i]) && KeyText(order[i]) == peerKey
                          && ReportedPeers(peers, order)[i].allowedIPs == peers[order[i]].allowedIPs
    ensures match ParseKey(peerKey)
            case None => true
            case Some(k) =>
              k in peers && KeyText(k) == peerKey ==>
                exists i :: 0 <= i < |order| && ReportedPeers(peers, order)[i].publicKey == peerKey
  {
    hide ParseKey, KeyText, ReportedPeers, ExpectedEndpoint, HandshakeTime;
    forall i | 0 <= i < |order|
      ensures ReportedPeers(peers, order)[i].publicKey == KeyText(order[i])
      ensures ReportedPeers(peers, order)[i].allowedIPs == peers[order[i]].allowedIPs
      ensures ParseKey(KeyText(order[i])) == Some(order[i])
    {
      ReportedPeerAt(peers, order, i);
      KeyTextRoundTrip(order[i]);
    }
  }

  // ---- kernel ----

  class KernelConfigurer {
    const device: KernelDevice
    const v6: V6Codec

    constructor (device: KernelDevice, v6: V6Codec)
      ensures this.device == device && this.v6 == v6
    {
      this.device := device;
      this.v6 := v6;
    }

    ghost predicate Valid()
      reads device
    {
      v6.Lawful() && GoodDev(device.state)
    }

    method Apply(p: PeerConfig, fails: bool) returns (ok: bool)
      modifies device
      ensures (device.state, if ok then None else Some(Rejected)) == Directly(old(device.state), p, fails)
    {
      hide ConfigurePeer;
      OnlyConfigures(device.state, p);
      ok := device.ConfigureDevice(Only(p), fails);
    }

    method UpdatePeer(peerKey: string, allowedIps: seq<Prefix>, keepAlive: int, endpoint: Option<UdpAddr>,
                      preSharedKey: Option<Key>, c: Calls)
      returns (err: Option<ConfigError>)
      requires Valid() && PortInRange(endpoint) && KeepaliveInRange(Some(keepAlive)) && NoneMapped(allowedIps)
      modifies device
      ensures Valid()
      ensures (device.state, err) ==
              KernelUpdateOf(old(device.state), peerKey, allowedIps, keepAlive, endpoint, preSharedKey, c)
    {
      hide ParseKey, ConfigurePeer, Good, NoneMapped, WholeSeconds;
      var peerKeyParsed := ParseKey(peerKey);
      if peerKeyParsed.None? {
        return Some(BadKey);
      }
      var peer := UpdateConfig(peerKeyParsed.value, allowedIps, keepAlive, endpoint, preSharedKey);
      ConfigurePeerKeepsGood(device.state.peers, peer);
      var ok := Apply(peer, c.firstFails);
      err := if ok then None else Some(Rejected);
    }

    method RemovePeer(peerKey: string, c: Calls) returns (err: Option<ConfigError>)
      requires Valid()
      modifies device
      ensures Valid()
      ensures (device.state, err) == RemovePeerOf(old(device.state), peerKey, c)
    {
      hide ParseKey, Good, ConfigurePeer;
      var peerKeyParsed := ParseKey(peerKey);
      if peerKeyParsed.None? {
        return Some(BadKey);
      }
      RemovalKeepsGood(device.state.peers, peerKeyParsed.value);
      RemoveConfigures(device.state.peers, peerKeyParsed.value);
      var ok := Apply(RemoveConfig(peerKeyParsed.value), c.firstFails);
      err := if ok then None else Some(Rejected);
    }

    /** getPeer: the peer whose key has this text, among the peers that the kernel lists. */
    method GetPeer(peerKey: string) returns (r: Option<seq<Prefix>>)
      ensures r == ListedAllowedIPs(device.state.peers, peerKey)
    {
      hide ParseKey, KeyText;
      var order := ListPeers(device.state.peers);
      for i := 0 to |order|
        invariant forall j :: 0 <= j < i ==> KeyText(order[j]) != peerKey
      {
        if KeyText(order[i]) == peerKey {
          KeyTextRoundTrip(order[i]);
          return Some(device.state.peers[order[i]].allowedIPs);
        }
      }
      r := None;
    }

    method RemoveEndpointAddress(peerKey: string, c: Calls) returns (err: Option<ConfigError>)
      requires Valid()
      modifies device
      ensures Valid()
      ensures (device.state, err) == RemoveEndpointOf(old(device.state), peerKey, c)
    {
      hide ParseKey, KeyText, Good, ConfigurePeer, NoneMapped;
      var peerKeyParsed := ParseKey(peerKey);
      if peerKeyParsed.None? {
        return Some(BadKey);
      }
      var k := peerKeyParsed.value;
      if c.getFails {
        return Some(Unreadable);
      }
      var existing := GetPeer(peerKey);
      if existing.None? {
        return Some(PeerNotFound);
      }
      RemovalKeepsGood(device.state.peers, k);
      ResetKeepsGood(device.state, k);
      ReaddConfigures(device.state, k);
      RemoveConfigures(device.state.peers, k);
      var ok := Apply(RemoveConfig(k), c.firstFails);
      if !ok {
        return Some(Rejected);
      }
      ok := Apply(ReplaceConfig(k, false, existing.value), c.secondFails);
      err := if ok then None else Some(Rejected);
    }

    method AddAllowedIP(peerKey: string, allowedIP: Prefix, c: Calls) returns (err: Option<ConfigError>)
      requires Valid() && !IsMapped(allowedIP.addr)
      modifies device
      ensures Valid()
      ensures (device.state, err) == KernelAddAllowedIPOf(old(device.state), peerKey, allowedIP, c)
    {
      hide ParseKey, Good, ConfigurePeer, IsMapped, Allow;
      var peerKeyParsed := ParseKey(peerKey);
      if peerKeyParsed.None? {
        return Some(BadKey);
      }
      var k := peerKeyParsed.value;
      AddConfigures(device.state.peers, k, allowedIP);
      ConfigurePeerKeepsGood(device.state.peers, AddConfig(k, allowedIP));
      var ok := Apply(AddConfig(k, allowedIP), c.firstFails);
      err := if ok then None else Some(Rejected);
    }

    /** Deletes one element in place: the later ones move down, and the last cell is left over. */
    method DeleteAt(a: array<Prefix>, i: nat)
      requires i < a.Length
      modifies a
      ensures a[..a.Length - 1] == old(a[..i] + a[i + 1..])
    {
      for j := i to a.Length - 1
        invariant forall m :: 0 <= m < i ==> a[m] == old(a[m])
        invariant forall m :: i <= m < j ==> a[m] == old(a[m + 1])
        invariant forall m :: j <= m < a.Length ==> a[m] == old(a[m])
      {
        a[j] := a[j + 1];
      }
    }

    /** The list without the first network that prints like the given one. */
    method DeleteNetwork(allowedIPs: seq<Prefix>, ip: Prefix) returns (left: seq<Prefix>)
      requires v6.Lawful() && NoRepeats(allowedIPs)
      requires forall i :: 0 <= i < |allowedIPs| ==> !IsMapped(allowedIPs[i].addr)
      ensures left == Without(allowedIPs, Unmapped(ip))
    {
      hide PrefixText, IsMapped, UnmapAddr;
      var slice := new Prefix[|allowedIPs|](i requires 0 <= i < |allowedIPs| => allowedIPs[i]);
      assert slice[..] == allowedIPs;
      for i := 0 to slice.Length
        invariant slice[..] == allowedIPs
        invariant forall j :: 0 <= j < i ==> allowedIPs[j] != Unmapped(ip)
      {
        if IPNetText(v6, slice[i]) == IPNetText(v6, ip) {
          PrefixTextInjective(v6, allowedIPs[i], Unmapped(ip));
          WithoutAt(allowedIPs, i);
          DeleteAt(slice, i);
          return slice[..slice.Length - 1];
        }
      }
      WithoutKeepsOrder(allowedIPs, Unmapped(ip));
      left := slice[..];
    }

    method RemoveAllowedIP(peerKey: string, allowedIP: Prefix, c: Calls) returns (err: Option<ConfigError>)
      requires Valid()
      modifies device
      ensures Valid()
      ensures (device.state, err) == KernelRemoveAllowedIPOf(old(device.state), peerKey, allowedIP, c)
    {
      hide ParseKey, KeyText, ConfigurePeer, IsMapped, Unmapped, Without, Masked, InInt64, WholeSeconds;
      var peerKeyParsed := ParseKey(peerKey);
      if peerKeyParsed.None? {
        return Some(BadKey);
      }
      var k := peerKeyParsed.value;
      if c.getFails {
        return Some(Unreadable);
      }
      var existing := GetPeer(peerKey);
      if existing.None? {
        return Some(PeerNotFound);
      }
      assert Plain(device.state.peers[k]);
      var newAllowedIPs := DeleteNetwork(existing.value, allowedIP);
      DisallowConfigures(device.state, k, true, Unmapped(allowedIP));
      DisallowKeepsGood(device.state, k, Unmapped(allowedIP));
      var ok := Apply(ReplaceConfig(k, true, newAllowedIPs), c.firstFails);
      err := if ok then None else Some(Rejected);
    }
  }

  /**
   The two configurers are interchangeable: the same operation on the same device state with the same failing calls,
   once through text and once directly, has the same outcome exactly when it is one that both do alike.
   */
  method OnBoth(usp: UspConfigurer, kernel: KernelConfigurer, peerKey: string, op: Operation, c: Calls)
    returns (uspErr: Option<ConfigError>, kernelErr: Option<ConfigError>)
    requires usp.Valid() && kernel.Valid()
    requires op.Update? ==> PortInRange(op.endpoint) && KeepaliveInRange(Some(op.keepAlive)) && NoneMapped(op.ips)
    requires op.AddIP? ==> !IsMapped(op.p.addr)
    requires usp.device.state == kernel.device.state
    modifies usp.device, kernel.device
    ensures usp.Valid() && kernel.Valid()
    ensures usp.device.state == kernel.device.state && uspErr == kernelErr <==>
            DoneAlike(old(usp.device.state), peerKey, op, c)
  {
    hide Good, UserspaceUpdateOf, KernelUpdateOf, RemovePeerOf, RemoveEndpointOf, KernelAddAllowedIPOf,
      UserspaceAddAllowedIPOf, KernelRemoveAllowedIPOf, UserspaceRemoveAllowedIPOf, ParseKey, KeyText, PortInRange,
      KeepaliveInRange, NoneMapped, IsMapped, RemovalDoneAlike;
    ghost var dev := usp.device.state;
    match op {
      case Update(ips, keepAlive, endpoint, psk) =>
        UpdatePeerAgrees(dev, peerKey, ips, keepAlive, endpoint, psk, c);
        uspErr := usp.UpdatePeer(peerKey, ips, keepAlive, endpoint, psk, c);
        kernelErr := kernel.UpdatePeer(peerKey, ips, keepAlive, endpoint, psk, c);
      case Remove =>
        uspErr := usp.RemovePeer(peerKey, c);
        kernelErr := kernel.RemovePeer(peerKey, c);
      case RemoveEndpoint =>
        uspErr := usp.RemoveEndpointAddress(peerKey, c);
        kernelErr := kernel.RemoveEndpointAddress(peerKey, c);
      case AddIP(p) =>
        AddAllowedIPAgrees(dev, peerKey, p, c);
        uspErr := usp.AddAllowedIP(peerKey, p, c);
        kernelErr := kernel.AddAllowedIP(peerKey, p, c);
      case RemoveIP(p) =>
        RemoveAllowedIPAgrees(dev, peerKey, p, c);
        uspErr := usp.RemoveAllowedIP(peerKey, p, c);
        kernelErr := kernel.RemoveAllowedIP(peerKey, p, c);
    }
  }
}
