/**
 go/internal/routemanager/systemops/systemops_linux.go: the rules and the VPN routing table are set up, changed and
 cleaned up by netlink calls, each of which may fail.
 */
module SystemOps {
  import opened Wrappers
  import opened Encodings
  import opened Net
  import opened Bits
  import opened PolicyRouting

  // ---- netlink ----

  /** The errors that the callers tell apart. */
  datatype Errno = Exists | NoProcess | NoEntry | NotSupported | Refused

  /** The calls that the kernel refuses for reasons of its own. */
  datatype Faults = Faults(ruleAdds: set<Rule>, ruleDels: set<Rule>, routeAdds: set<Prefix>, routeDels: set<Prefix>,
                           lists: set<Family>)

  const NO_FAULTS := Faults({}, {}, {}, {}, {})

  /** A listed route; a default route comes without its destination. */
  datatype Listed = Listed(dst: Option<Prefix>, kind: RouteKind)

  function TargetOf(r: Listed, f: Family): Prefix {
    match r.dst case Some(p) => p case None => Default(f)
  }

  function PrefixFamily(p: Prefix): Family {
    FamilyOf(p.addr)
  }

  /** The routes of a table that are not of one family. */
  function OtherFamily(t: Table, f: Family): Table {
    map p | p in t && PrefixFamily(p) != f :: t[p]
  }

  /** The list shows exactly this part of a table, each route once. */
  predicate Lists(routes: seq<Listed>, table: Table, f: Family, part: set<Prefix>) {
    && (forall p :: p in part ==> exists i :: 0 <= i < |routes| && TargetOf(routes[i], f) == p)
    && (forall i :: 0 <= i < |routes| ==>
                      TargetOf(routes[i], f) in part && TargetOf(routes[i], f) in table
                      && routes[i].kind == table[TargetOf(routes[i], f)] && routes[i].dst != Some(Default(f)))
    && (forall i, j :: 0 <= i < j < |routes| ==> TargetOf(routes[i], f) != TargetOf(routes[j], f))
  }

  lemma ListsNone(table: Table, f: Family, part: set<Prefix>)
    requires part == {}
    ensures Lists([], table, f, part)
  {
  }

  lemma ListsMeans(routes: seq<Listed>, table: Table, f: Family, part: set<Prefix>)
    requires Lists(routes, table, f, part)
    requires forall p :: p in part <==> p in table && PrefixFamily(p) == f
    ensures forall p: Prefix :: p in table && PrefixFamily(p) == f ==>
                            exists i :: 0 <= i < |routes| && TargetOf(routes[i], f) == p
    ensures forall i :: 0 <= i < |routes| ==>
                          TargetOf(routes[i], f) in table && PrefixFamily(TargetOf(routes[i], f)) == f
                          && routes[i].kind == table[TargetOf(routes[i], f)]
                          && (routes[i].dst.None? <==> TargetOf(routes[i], f) == Default(f))
    ensures forall i, j :: 0 <= i < j < |routes| ==> TargetOf(routes[i], f) != TargetOf(routes[j], f)
  {
    hide PrefixFamily, Default;
  }

  lemma ListsOneMore(routes: seq<Listed>, table: Table, f: Family, part: set<Prefix>, r: Listed)
    requires Lists(routes, table, f, part) && TargetOf(r, f) !in part
    requires TargetOf(r, f) in table && r.kind == table[TargetOf(r, f)] && r.dst != Some(Default(f))
    ensures Lists(routes + [r], table, f, part + {TargetOf(r, f)})
  {
    hide TargetOf;
    var longer := routes + [r];
    assert longer[|routes|] == r;
    forall p | p in part
      ensures exists i :: 0 <= i < |longer| && TargetOf(longer[i], f) == p
    {
      var i :| 0 <= i < |routes| && TargetOf(routes[i], f) == p;
      assert longer[i] == routes[i];
    }
  }

  function SetTable(ts: Tables, id: nat, t: Table): Tables {
    ts[id := t]
  }

  /** The rules and routes of the kernel. */
  class Kernel {
    const supportsV6: bool
    var rules: set<Rule>
    var tables: Tables

    constructor (supportsV6: bool, rules: set<Rule>, tables: Tables)
      requires Possible(supportsV6, rules, tables)
      ensures Valid() && this.supportsV6 == supportsV6 && this.rules == rules && this.tables == tables
    {
      this.supportsV6, this.rules, this.tables := supportsV6, rules, tables;
    }

    ghost predicate Valid()
      reads this
    {
      Possible(supportsV6, rules, tables)
    }

    predicate Supports(f: Family) {
      f.V4? || supportsV6
    }

    function Routes(id: nat): Table
      reads this
    {
      TableOf(tables, id)
    }

    method RuleAdd(r: Rule, fault: bool) returns (err: Option<Errno>)
      requires Valid()
      modifies this`rules
      ensures Valid()
      ensures err == if fault then Some(Refused) else if !Supports(r.family) then Some(NotSupported)
                     else if r in old(rules) then Some(Exists) else None
      ensures rules == if err.None? then old(rules) + {r} else old(rules)
    {
      if fault {
        return Some(Refused);
      }
      if !Supports(r.family) {
        return Some(NotSupported);
      }
      if r in rules {
        return Some(Exists);
      }
      rules := rules + {r};
      err := None;
    }

    method RuleDel(r: Rule, fault: bool) returns (err: Option<Errno>)
      requires Valid()
      modifies this`rules
      ensures Valid()
      ensures err == if fault then Some(Refused) else if !Supports(r.family) then Some(NotSupported)
                     else if r !in old(rules) then Some(NoEntry) else None
      ensures rules == if err.None? then old(rules) - {r} else old(rules)
    {
      if fault {
        return Some(Refused);
      }
      if !Supports(r.family) {
        return Some(NotSupported);
      }
      if r !in rules {
        return Some(NoEntry);
      }
      rules := rules - {r};
      err := None;
    }

    method RouteAdd(id: nat, dst: Prefix, kind: RouteKind, fault: bool) returns (err: Option<Errno>)
      requires Valid() && Masked(dst) == dst
      modifies this`tables
      ensures Valid()
      ensures err == if fault then Some(Refused) else if !Supports(PrefixFamily(dst)) then Some(NotSupported)
                     else if dst in old(Routes(id)) then Some(Exists) else None
      ensures tables == if err.None? then SetTable(old(tables), id, old(Routes(id))[dst := kind]) else old(tables)
    {
      hide Masked;
      if fault {
        return Some(Refused);
      }
      if !Supports(PrefixFamily(dst)) {
        return Some(NotSupported);
      }
      if dst in Routes(id) {
        return Some(Exists);
      }
      tables := SetTable(tables, id, Routes(id)[dst := kind]);
      err := None;
    }

    /** Deletes the route to a destination when it leads where the request says. */
    method RouteDel(id: nat, dst: Prefix, kind: RouteKind, fault: bool) returns (err: Option<Errno>)
      requires Valid()
      modifies this`tables
      ensures Valid()
      ensures err == if fault then Some(Refused) else if !Supports(PrefixFamily(dst)) then Some(NotSupported)
                     else if dst !in old(Routes(id)) || old(Routes(id))[dst] != kind then Some(NoProcess) else None
      ensures tables == if err.None? then SetTable(old(tables), id, old(Routes(id)) - {dst}) else old(tables)
    {
      hide Masked;
      if fault {
        return Some(Refused);
      }
      if !Supports(PrefixFamily(dst)) {
        return Some(NotSupported);
      }
      if dst !in Routes(id) || Routes(id)[dst] != kind {
        return Some(NoProcess);
      }
      tables := SetTable(tables, id, Routes(id) - {dst});
      err := None;
    }

    /** The routes of a family in a table, in any order. */
    method RouteList(id: nat, f: Family, fault: bool) returns (ok: bool, routes: seq<Listed>)
      requires Valid()
      ensures ok == !fault
      ensures ok ==>
                (forall p: Prefix :: p in Routes(id) && PrefixFamily(p) == f ==>
                                 exists i :: 0 <= i < |routes| && TargetOf(routes[i], f) == p)
                && (forall i :: 0 <= i < |routes| ==>
                                  TargetOf(routes[i], f) in Routes(id) && PrefixFamily(TargetOf(routes[i], f)) == f
                                  && routes[i].kind == Routes(id)[TargetOf(routes[i], f)]
                                  && (routes[i].dst.None? <==> TargetOf(routes[i], f) == Default(f)))
                && (forall i, j :: 0 <= i < j < |routes| ==> TargetOf(routes[i], f) != TargetOf(routes[j], f))
    {
      hide Lists, PrefixFamily, Possible;
      routes := [];
      if fault {
        return false, [];
      }
      var table := Routes(id);
      var all := set p: Prefix | p in table && PrefixFamily(p) == f;
      var left := all;
      ListsNone(table, f, all - left);
      while left != {}
        invariant left <= all
        invariant Lists(routes, table, f, all - left)
        decreases |left|
      {
        var p :| p in left;
        var listed := Listed(if p == Default(f) then None else Some(p), table[p]);
        assert TargetOf(listed, f) == p;
        ListsOneMore(routes, table, f, all - left, listed);
        routes := routes + [listed];
        assert all - (left - {p}) == (all - left) + {p};
        left := left - {p};
      }
      assert all - left == all;
      ok := true;
      ListsMeans(routes, table, f, all);
    }
  }

  /** Destinations are masked, and without IPv6 there are no IPv6 rules or routes. */
  ghost predicate Possible(supportsV6: bool, rules: set<Rule>, tables: Tables) {
    && (forall id, p :: id in tables && p in tables[id] ==> Masked(p) == p)
    && (!supportsV6 ==> (forall r :: r in rules ==> r.family.V4?)
                        && forall id, p :: id in tables && p in tables[id] ==> PrefixFamily(p).V4?)
  }

  /** Kernels with any such rules and with masked routes are possible. */
  lemma PossibleExactly(supportsV6: bool, rules: set<Rule>, tables: Tables)
    ensures Possible(supportsV6, rules, tables) <==>
            (forall id, p :: id in tables && p in tables[id] ==>
                               Masked(p) == p && (supportsV6 || |p.addr| == 4))
            && (supportsV6 || forall r :: r in rules ==> r.family == V4)
  {
    hide Masked;
    if Possible(supportsV6, rules, tables) {
      forall id, p | id in tables && p in tables[id]
        ensures supportsV6 || |p.addr| == 4
      {
        assert supportsV6 || PrefixFamily(p).V4?;
      }
    }
  }

  predicate IsOpErr(e: Errno) {
    e.NotSupported?
  }

  // ---- which prefixes may be routed ----

  predicate IsLoopback(a: Addr) {
    if IsV4(a) then a[0] == 127 else a == [0, 0, 0, 0, 0, 0, 0, 0, 0, 0, 0, 0, 0, 0, 0, 1]
  }

  predicate IsLinkLocalUnicast(a: Addr) {
    if IsV4(a) then a[0] == 169 && a[1] == 254 else a[0] == 0xfe && 0x80 <= a[1] < 0xc0
  }

  /** Multicast of any scope. */
  predicate IsMulticast(a: Addr) {
    if IsV4(a) then 224 <= a[0] < 240 else a[0] == 0xff
  }

  predicate IsUnspecified(a: Addr) {
    a == ZeroAddr(FamilyOf(a))
  }

  /** validateRoute, for a WireGuard interface with this network. */
  predicate RouteAllowed(own: Prefix, p: Prefix) {
    && !IsLoopback(p.addr) && !IsLinkLocalUnicast(p.addr) && !IsMulticast(p.addr)
    && (IsUnspecified(p.addr) ==> p.bits == 0)
    && !Contains(Masked(own), p.addr)
  }

  /** An IPv6 address of two bytes and zeros. */
  function V6Start(x: byte, y: byte): Addr {
    [x, y, 0, 0, 0, 0, 0, 0, 0, 0, 0, 0, 0, 0, 0, 0]
  }

  /** The address lies in 127.0.0.0/8, 169.254.0.0/16 or 224.0.0.0/4. */
  predicate SpecialV4(a: Addr) {
    InNetwork(Prefix([127, 0, 0, 0], 8), a) || InNetwork(Prefix([169, 254, 0, 0], 16), a)
    || InNetwork(Prefix([224, 0, 0, 0], 4), a)
  }

  /** The address is ::1 or lies in fe80::/10 or ff00::/8. */
  predicate SpecialV6(a: Addr) {
    (|a| == 16 && a[15] == 1 && forall i :: 0 <= i < 15 ==> a[i] == 0)
    || InNetwork(Prefix(V6Start(0xfe, 0x80), 10), a) || InNetwork(Prefix(V6Start(0xff, 0), 8), a)
  }

  /** A network that gives some whole bytes and some bits of the next one. */
  lemma StartsWith(p: Prefix, a: Addr, n: nat, rest: nat)
    requires |a| == |p.addr| && n < |p.addr| && p.bits == 8 * n + rest && rest < 8
    requires MaskByte(p.addr[n], rest) == p.addr[n] && forall i :: n < i < |p.addr| ==> p.addr[i] == 0
    ensures InNetwork(p, a) <==> a[..n] == p.addr[..n] && MaskByte(a[n], rest) == p.addr[n]
  {
    hide MaskByte, InNetwork;
    MaskedParts(p.addr, n, rest);
    MaskedParts(a, n, rest);
    assert MaskAddr(p.addr, p.bits) == p.addr by {
      forall i | 0 <= i < |p.addr|
        ensures MaskAddr(p.addr, p.bits)[i] == p.addr[i]
      {
      }
    }
    ContainsByBits(p, a);
    if a[..n] == p.addr[..n] && MaskByte(a[n], rest) == p.addr[n] {
      forall i | 0 <= i < |a|
        ensures MaskAddr(a, p.bits)[i] == p.addr[i]
      {
        if i < n {
          assert a[i] == a[..n][i] == p.addr[..n][i];
        }
      }
      assert MaskAddr(a, p.bits) == p.addr;
    }
    if MaskAddr(a, p.bits) == p.addr {
      forall i | 0 <= i < n
        ensures a[i] == p.addr[i]
      {
      }
    }
  }

  lemma MaskedParts(a: Addr, n: nat, rest: nat)
    requires n < |a| && rest < 8
    ensures forall i :: 0 <= i < |a| ==>
                          MaskAddr(a, 8 * n + rest)[i] ==
                          if i < n then a[i] else if i == n then MaskByte(a[n], rest) else 0
  {
  }

  lemma SpecialV4Bytes(a: Addr)
    requires |a| == 4
    ensures SpecialV4(a) <==> IsLoopback(a) || IsLinkLocalUnicast(a) || IsMulticast(a)
  {
    hide InNetwork;
    StartsWith(Prefix([127, 0, 0, 0], 8), a, 1, 0);
    StartsWith(Prefix([169, 254, 0, 0], 16), a, 2, 0);
    StartsWith(Prefix([224, 0, 0, 0], 4), a, 0, 4);
    assert a[..1] == [a[0]] && a[..2] == [a[0], a[1]];
  }

  lemma SpecialV6Bytes(a: Addr)
    requires |a| == 16
    ensures SpecialV6(a) <==> IsLoopback(a) || IsLinkLocalUnicast(a) || IsMulticast(a)
  {
    hide InNetwork;
    StartsWith(Prefix(V6Start(0xfe, 0x80), 10), a, 1, 2);
    StartsWith(Prefix(V6Start(0xff, 0), 8), a, 1, 0);
    assert a[..1] == [a[0]] && V6Start(0xfe, 0x80)[..1] == [0xfe] && V6Start(0xff, 0)[..1] == [0xff];
    LoopbackBytes(a);
  }

  lemma LoopbackBytes(a: Addr)
    requires |a| == 16
    ensures IsLoopback(a) <==> a[15] == 1 && forall i :: 0 <= i < 15 ==> a[i] == 0
  {
  }

  /**
   A prefix may be routed unless its address is special or lies in the interface's own network, or it is longer than a
   default route and its address is all zeros.
   */
  lemma AllowedExactly(own: Prefix, p: Prefix)
    ensures RouteAllowed(own, p) <==>
            !(if |p.addr| == 4 then SpecialV4(p.addr) else SpecialV6(p.addr)) && !InNetwork(own, p.addr)
            && (p.bits > 0 ==> exists i :: 0 <= i < |p.addr| && p.addr[i] != 0)
  {
    hide SpecialV4, SpecialV6, IsLoopback, IsLinkLocalUnicast, IsMulticast, Contains, InNetwork;
    if |p.addr| == 4 {
      SpecialV4Bytes(p.addr);
    } else {
      SpecialV6Bytes(p.addr);
    }
    InOwnNetwork(own, p.addr);
    UnspecifiedExactly(p.addr);
  }

  lemma InOwnNetwork(own: Prefix, a: Addr)
    ensures Contains(Masked(own), a) <==> InNetwork(own, a)
  {
    hide AddrBit, MaskAddr;
    MaskedTwice(own);
    ContainsByBits(Masked(own), a);
    if |a| == |own.addr| {
      forall i | 0 <= i < own.bits
        ensures AddrBit(Masked(own).addr, i) == AddrBit(own.addr, i)
      {
        MaskAddrBits(own.addr, own.bits, i);
      }
    }
  }

  lemma UnspecifiedExactly(a: Addr)
    ensures IsUnspecified(a) <==> forall i :: 0 <= i < |a| ==> a[i] == 0
  {
    var zero := ZeroAddr(FamilyOf(a));
    assert |zero| == |a| && forall i :: 0 <= i < |zero| ==> zero[i] == 0;
  }

  // ---- the invariant of the VPN table ----

  /** While the IPv4 default route is in the VPN table, IPv6 is unreachable by default there, or not supported. */
  predicate Blackholed(supportsV6: bool, t: Table) {
    Default(V4) in t && supportsV6 ==> Default(V6) in t && t[Default(V6)] == Unreachable
  }

  /** A prefix that the kernel takes for the IPv4 default route although it is written differently. */
  predicate DisguisedDefault(p: Prefix) {
    IsV4(p.addr) && p.bits == 0 && p != Default(V4)
  }

  lemma DefaultsMasked()
    ensures Masked(Default(V4)) == Default(V4) && Masked(Default(V6)) == Default(V6)
    ensures Default(V4) != Default(V6) && PrefixFamily(Default(V4)) == V4 && PrefixFamily(Default(V6)) == V6
  {
    assert MaskAddr(ZeroAddr(V4), 0) == ZeroAddr(V4);
    assert MaskAddr(ZeroAddr(V6), 0) == ZeroAddr(V6);
    assert |Default(V4).addr| == 4 && |Default(V6).addr| == 16;
  }

  /** Every IPv4 prefix of length zero is masked to the default route, and nothing else is. */
  lemma MaskedDefault(p: Prefix)
    ensures Masked(p) == Default(V4) <==> IsV4(p.addr) && p.bits == 0
    ensures DisguisedDefault(p) ==> Masked(p) != p
    ensures Masked(p) == Default(V6) <==> !IsV4(p.addr) && p.bits == 0
    ensures PrefixFamily(Masked(p)) == PrefixFamily(p)
  {
    if p.bits == 0 {
      assert MaskAddr(p.addr, 0) == ZeroAddr(FamilyOf(p.addr));
    }
  }

  /** Adding the destination to a table is no error: it is not refused, and new or of an unsupported family. */
  predicate Addable(supported: bool, t: Table, dst: Prefix, faults: Faults) {
    dst !in faults.routeAdds && (supported ==> dst !in t)
  }

  /** An addition of the IPv4 default route that fails in its second step, after the IPv6 companion was added. */
  predicate LeavesCompanion(own: Prefix, supportsV6: bool, t: Table, prefix: Prefix, faults: Faults) {
    prefix == Default(V4) && RouteAllowed(own, prefix) && supportsV6 && Addable(true, t, Default(V6), faults)
    && !Addable(true, t, Default(V4), faults)
  }

  class SysOps {
    const kernel: Kernel
    const own: Prefix
    const mark: nat

    constructor (kernel: Kernel, own: Prefix, mark: nat)
      ensures this.kernel == kernel && this.own == own && this.mark == mark
    {
      this.kernel, this.own, this.mark := kernel, own, mark;
    }

    /** Adding a rule that is there already, or that the system does not support, is fine. */
    method AddRule(r: Rule, fault: bool) returns (ok: bool)
      requires kernel.Valid()
      modifies kernel`rules
      ensures kernel.Valid() && ok == !fault
      ensures kernel.rules == if ok && kernel.Supports(r.family) then old(kernel.rules) + {r} else old(kernel.rules)
    {
      var err := kernel.RuleAdd(r, fault);
      ok := err.None? || err.value.Exists? || IsOpErr(err.value);
    }

    method RemoveRule(r: Rule, fault: bool) returns (ok: bool)
      requires kernel.Valid()
      modifies kernel`rules
      ensures kernel.Valid() && ok == !fault
      ensures kernel.rules == if ok then old(kernel.rules) - {r} else old(kernel.rules)
    {
      var err := kernel.RuleDel(r, fault);
      ok := err.None? || err.value.NoEntry? || IsOpErr(err.value);
    }

    /** Adding a route that is there already is an error. */
    method AddRoute(prefix: Prefix, kind: RouteKind, id: nat, fault: bool) returns (ok: bool)
      requires kernel.Valid()
      modifies kernel`tables
      ensures kernel.Valid()
      ensures var dst, there := Masked(prefix), old(kernel.Routes(id));
              ok == (!fault && (!kernel.Supports(PrefixFamily(prefix)) || dst !in there))
              && kernel.tables == if ok && kernel.Supports(PrefixFamily(prefix))
                                  then SetTable(old(kernel.tables), id, there[dst := kind]) else old(kernel.tables)
    {
      hide Masked;
      MaskedTwice(prefix);
      MaskedDefault(prefix);
      var err := kernel.RouteAdd(id, Masked(prefix), kind, fault);
      ok := err.None? || IsOpErr(err.value);
    }

    /** Removing a route that is not there, or leads elsewhere, is fine. */
    method RemoveRoute(prefix: Prefix, kind: RouteKind, id: nat, fault: bool) returns (ok: bool)
      requires kernel.Valid()
      modifies kernel`tables
      ensures kernel.Valid() && ok == !fault
      ensures var dst, there := Masked(prefix), old(kernel.Routes(id));
              kernel.tables == if ok && dst in there && there[dst] == kind
                               then SetTable(old(kernel.tables), id, there - {dst}) else old(kernel.tables)
    {
      hide Masked;
      MaskedDefault(prefix);
      if Masked(prefix) in kernel.Routes(id) {
        Supported(kernel.supportsV6, kernel.rules, kernel.tables, id, Masked(prefix));
      }
      var err := kernel.RouteDel(id, Masked(prefix), kind, fault);
      ok := err.None? || err.value.NoProcess? || IsOpErr(err.value);
    }

    /**
     Adds a route to the VPN table, for the IPv4 default route after an IPv6 unreachable one. The invariant of the table
     is lost exactly when the prefix is a default route in disguise that is not refused.
     */
    method AddVPNRoute(prefix: Prefix, link: nat, faults: Faults) returns (ok: bool)
      requires kernel.Valid()
      modifies kernel`tables
      ensures kernel.Valid()
      ensures forall id :: id != VPN_TABLE ==> kernel.Routes(id) == old(kernel.Routes(id))
      ensures kernel.Routes(MAIN_TABLE) == old(kernel.Routes(MAIN_TABLE))
      ensures !RouteAllowed(own, prefix) ==> !ok && kernel.tables == old(kernel.tables)
      ensures ok && kernel.Supports(PrefixFamily(prefix)) ==>
                Masked(prefix) in kernel.Routes(VPN_TABLE)
                && kernel.Routes(VPN_TABLE)[Masked(prefix)] == Via(link, None)
                && Masked(prefix) !in old(kernel.Routes(VPN_TABLE))
      ensures forall p :: p in old(kernel.Routes(VPN_TABLE)) ==>
                            p in kernel.Routes(VPN_TABLE)
                            && kernel.Routes(VPN_TABLE)[p] == old(kernel.Routes(VPN_TABLE))[p]
      ensures forall p :: p in kernel.Routes(VPN_TABLE) && p !in old(kernel.Routes(VPN_TABLE)) ==>
                            (p == Masked(prefix) && ok)
                            || (prefix == Default(V4) && p == Default(V6) && kernel.Routes(VPN_TABLE)[p] == Unreachable)
      ensures ok <==> RouteAllowed(own, prefix)
                      && Addable(kernel.Supports(PrefixFamily(prefix)), old(kernel.Routes(VPN_TABLE)),
                                 Masked(prefix), faults)
                      && (prefix == Default(V4) ==>
                            Addable(kernel.supportsV6, old(kernel.Routes(VPN_TABLE)), Default(V6), faults))
      ensures !ok ==> kernel.Routes(VPN_TABLE) ==
                      if LeavesCompanion(own, kernel.supportsV6, old(kernel.Routes(VPN_TABLE)), prefix, faults)
                      then old(kernel.Routes(VPN_TABLE))[Default(V6) := Unreachable] else old(kernel.Routes(VPN_TABLE))
      ensures old(Blackholed(kernel.supportsV6, kernel.Routes(VPN_TABLE))) ==>
                (Blackholed(kernel.supportsV6, kernel.Routes(VPN_TABLE)) <==>
                 !(ok && DisguisedDefault(prefix) && kernel.supportsV6
                   && !(Default(V6) in old(kernel.Routes(VPN_TABLE))
                        && old(kernel.Routes(VPN_TABLE))[Default(V6)] == Unreachable)))
    {
      hide Masked, Default, RouteAllowed, Possible;
      DefaultsMasked();
      MaskedDefault(prefix);
      if !RouteAllowed(own, prefix) {
        return false;
      }
      if prefix == Default(V4) {
        ok := AddRoute(Default(V6), Unreachable, VPN_TABLE, Default(V6) in faults.routeAdds);
        if !ok {
          return;
        }
      }
      ok := AddRoute(prefix, Via(link, None), VPN_TABLE, Masked(prefix) in faults.routeAdds);
    }

    /**
     Removes a route from the VPN table, for the IPv4 default route after the IPv6 unreachable one. The invariant of the
     table is lost exactly when the first removal works and the IPv4 default route stays.
     */
    method RemoveVPNRoute(prefix: Prefix, link: nat, faults: Faults) returns (ok: bool)
      requires kernel.Valid()
      modifies kernel`tables
      ensures kernel.Valid()
      ensures forall id :: id != VPN_TABLE ==> kernel.Routes(id) == old(kernel.Routes(id))
      ensures kernel.Routes(MAIN_TABLE) == old(kernel.Routes(MAIN_TABLE))
      ensures !RouteAllowed(own, prefix) ==> !ok && kernel.tables == old(kernel.tables)
      ensures ok <==> RouteAllowed(own, prefix) && Masked(prefix) !in faults.routeDels
                      && (prefix == Default(V4) ==> Default(V6) !in faults.routeDels)
      ensures ok && prefix == Default(V4) && Default(V6) in kernel.Routes(VPN_TABLE) ==>
                kernel.Routes(VPN_TABLE)[Default(V6)] != Unreachable
      ensures ok ==> Masked(prefix) !in kernel.Routes(VPN_TABLE)
                     || kernel.Routes(VPN_TABLE)[Masked(prefix)] != Via(link, None)
      ensures forall p :: p in kernel.Routes(VPN_TABLE) ==>
                            p in old(kernel.Routes(VPN_TABLE))
                            && kernel.Routes(VPN_TABLE)[p] == old(kernel.Routes(VPN_TABLE))[p]
      ensures forall p :: p in old(kernel.Routes(VPN_TABLE)) && p !in kernel.Routes(VPN_TABLE) ==>
                            p == Masked(prefix) || (prefix == Default(V4) && p == Default(V6))
      ensures old(Blackholed(kernel.supportsV6, kernel.Routes(VPN_TABLE))) ==>
                (Blackholed(kernel.supportsV6, kernel.Routes(VPN_TABLE)) <==>
                 !(prefix == Default(V4) && RouteAllowed(own, prefix) && kernel.supportsV6
                   && Default(V6) !in faults.routeDels && Default(V4) in old(kernel.Routes(VPN_TABLE))
                   && (Default(V4) in faults.routeDels
                       || old(kernel.Routes(VPN_TABLE))[Default(V4)] != Via(link, None))))
    {
      hide Masked, Default, RouteAllowed, Possible;
      DefaultsMasked();
      MaskedDefault(prefix);
      if !RouteAllowed(own, prefix) {
        return false;
      }
      if prefix == Default(V4) {
        ok := RemoveRoute(Default(V6), Unreachable, VPN_TABLE, Default(V6) in faults.routeDels);
        if !ok {
          return;
        }
      }
      ok := RemoveRoute(prefix, Via(link, None), VPN_TABLE, Masked(prefix) in faults.routeDels);
    }

    /** Deletes one listed route; a default route without a gateway is given its destination first. */
    method DeleteListed(r: Listed, f: Family, id: nat, fault: bool) returns (ok: bool)
      requires kernel.Valid() && TargetOf(r, f) in kernel.Routes(id) && kernel.Routes(id)[TargetOf(r, f)] == r.kind
      modifies kernel`tables
      ensures kernel.Valid() && ok == !fault
      ensures kernel.tables == if ok then SetTable(old(kernel.tables), id, old(kernel.Routes(id)) - {TargetOf(r, f)})
                               else old(kernel.tables)
    {
      hide Masked, Default;
      Supported(kernel.supportsV6, kernel.rules, kernel.tables, id, TargetOf(r, f));
      var err := kernel.RouteDel(id, TargetOf(r, f), r.kind, fault);
      ok := err.None? || IsOpErr(err.value);
    }

    /**
     Empties a table of the routes of one family and goes on when one is refused, which then stays, as every other route
     does.
     */
    method FlushRoutes(id: nat, f: Family, faults: Faults) returns (ok: bool)
      requires kernel.Valid()
      modifies kernel`tables
      ensures kernel.Valid()
      ensures forall other :: other != id ==> kernel.Routes(other) == old(kernel.Routes(other))
      ensures kernel.Routes(id) == LeftOver(old(kernel.Routes(id)), f, faults)
      ensures ok <==> Flushable(old(kernel.Routes(id)), f, faults)
      ensures ok ==> kernel.Routes(id) == OtherFamily(old(kernel.Routes(id)), f)
      ensures OtherFamily(kernel.Routes(id), f) == OtherFamily(old(kernel.Routes(id)), f)
    {
      hide Masked, Default, Possible, TargetOf, TargetsIn, PrefixFamily, Flushable, LeftOver, OtherFamily;
      var listed, routes := kernel.RouteList(id, f, f in faults.lists);
      ghost var before := kernel.Routes(id);
      LeftOverApart(before, f, faults);
      if !listed {
        NotListed(before, f, faults);
        LeftOverIs(before, f, faults, {});
        return false;
      }
      TargetsAre(routes, before, f);
      FlushableMeans(routes, before, f, faults);
      ok := true;
      NoTargets(f);
      assert routes[..0] == [];
      for i := 0 to |routes|
        invariant kernel.Valid()
        invariant forall other :: other != id ==> kernel.Routes(other) == old(kernel.Routes(other))
        invariant kernel.Routes(id) == before - (TargetsIn(routes[..i], f) - faults.routeDels)
        invariant ok <==> TargetsIn(routes[..i], f) !! faults.routeDels
      {
        var target := TargetOf(routes[i], f);
        NextTarget(routes, i, before, f, faults.routeDels);
        var deleted := DeleteListed(routes[i], f, id, target in faults.routeDels);
        ok := ok && deleted;
      }
      assert routes[..|routes|] == routes;
      LeftOverIs(before, f, faults, TargetsIn(routes, f) - faults.routeDels);
    }

    /** Empties the VPN table and removes the four rules; goes on whatever fails. */
    method CleanupRouting(faults: Faults) returns (ok: bool)
      requires kernel.Valid()
      modifies kernel`rules, kernel`tables
      ensures kernel.Valid()
      ensures forall id :: id != VPN_TABLE ==> kernel.Routes(id) == old(kernel.Routes(id))
      ensures kernel.Routes(MAIN_TABLE) == old(kernel.Routes(MAIN_TABLE))
      ensures kernel.rules == old(kernel.rules) - (SetOf(SetupRules(mark)) - faults.ruleDels)
      ensures kernel.Routes(VPN_TABLE) == LeftOver(LeftOver(old(kernel.Routes(VPN_TABLE)), V4, faults), V6, faults)
      ensures ok ==> kernel.Routes(VPN_TABLE) == map[] && kernel.rules == old(kernel.rules) - SetOf(SetupRules(mark))
      ensures ok <==> Cleanable(old(kernel.Routes(VPN_TABLE)), mark, faults)
    {
      hide Possible, SetupRules, Flushable, LeftOver;
      var v4 := FlushRoutes(VPN_TABLE, V4, faults);
      var v6 := FlushRoutes(VPN_TABLE, V6, faults);
      FlushedApart(old(kernel.Routes(VPN_TABLE)), faults);
      var rules := SetupRules(mark);
      ok := v4 && v6;
      ghost var flushed := kernel.tables;
      for i := 0 to |rules|
        invariant kernel.Valid()
        invariant kernel.tables == flushed
        invariant kernel.rules == old(kernel.rules) - (SetOf(rules[..i]) - faults.ruleDels)
        invariant ok <==> v4 && v6 && SetOf(rules[..i]) !! faults.ruleDels
      {
        var removed := RemoveRule(rules[i], rules[i] in faults.ruleDels);
        ok := ok && removed;
        SetOfOneMore(rules, i);
      }
      assert rules[..|rules|] == rules;
    }

    /**
     Adds the four rules. All or nothing: when one is refused the routing is cleaned up, and unless that fails too none
     of the four is left.
     */
    method SetupRouting(faults: Faults) returns (ok: bool, ghost cleaned: bool)
      requires kernel.Valid()
      modifies kernel`rules, kernel`tables
      ensures kernel.Valid()
      ensures forall id :: id != VPN_TABLE ==> kernel.Routes(id) == old(kernel.Routes(id))
      ensures kernel.Routes(MAIN_TABLE) == old(kernel.Routes(MAIN_TABLE))
      ensures kernel.rules - SetOf(SetupRules(mark)) == old(kernel.rules) - SetOf(SetupRules(mark))
      ensures ok <==> SetOf(SetupRules(mark)) !! faults.ruleAdds
      ensures ok ==> kernel.tables == old(kernel.tables)
                     && kernel.rules == old(kernel.rules) + SetOf(SupportedRules(SetupRules(mark), kernel.supportsV6))
      ensures !ok && cleaned ==> kernel.rules == old(kernel.rules) - SetOf(SetupRules(mark))
                                 && kernel.Routes(VPN_TABLE) == map[]
      ensures cleaned <==> ok || Cleanable(old(kernel.Routes(VPN_TABLE)), mark, faults)
    {
      hide Possible, SetupRules, Cleanable;
      var rules := SetupRules(mark);
      for i := 0 to |rules|
        invariant kernel.Valid() && kernel.tables == old(kernel.tables)
        invariant SetOf(rules[..i]) !! faults.ruleAdds
        invariant kernel.rules == old(kernel.rules) + SetOf(SupportedRules(rules[..i], kernel.supportsV6))
      {
        var added := AddRule(rules[i], rules[i] in faults.ruleAdds);
        SetOfOneMore(rules, i);
        SupportedOneMore(rules, i, kernel.supportsV6);
        if !added {
          SomeOf(rules, i);
          SupportedAreRules(rules, i, kernel.supportsV6);
          ghost var now := kernel.rules;
          var done := CleanupRouting(faults);
          cleaned := done;
          assert now - SetOf(rules) == old(kernel.rules) - SetOf(rules);
          return false, cleaned;
        }
      }
      assert rules[..|rules|] == rules;
      SupportedAreRules(rules, |rules|, kernel.supportsV6);
      ok, cleaned := true, true;
    }

    /** One change of the VPN table. */
    method Apply(op: RouteOperation, link: nat)
      requires kernel.Valid()
      modifies kernel`tables
      ensures kernel.Valid()
      ensures forall id :: id != VPN_TABLE ==> kernel.Routes(id) == old(kernel.Routes(id))
      ensures kernel.Routes(MAIN_TABLE) == old(kernel.Routes(MAIN_TABLE))
      ensures !DisguisedDefault(op.prefix) && old(Kept(kernel.supportsV6, kernel.Routes(VPN_TABLE), link)) ==>
                (Kept(kernel.supportsV6, kernel.Routes(VPN_TABLE), link) <==>
                 !(HalfRemoves(op) && Leaks(own, kernel.supportsV6, old(kernel.Routes(VPN_TABLE)))))
    {
      hide Masked, Default, RouteAllowed, Possible, Blackholed;
      DefaultsMasked();
      MaskedDefault(op.prefix);
      match op {
        case Add(prefix, faults) => var _ := AddVPNRoute(prefix, link, faults);
        case Delete(prefix, faults) => var _ := RemoveVPNRoute(prefix, link, faults);
      }
    }

    /**
     The network of a received route is masked before it reaches the VPN table. The invariant of the table is then lost
     in one way only: the companion is removed while the removal of the IPv4 default route itself is refused.
     */
    method ApplyReceived(op: RouteOperation, link: nat)
      requires kernel.Valid() && Kept(kernel.supportsV6, kernel.Routes(VPN_TABLE), link)
      modifies kernel`tables
      ensures kernel.Valid()
      ensures Kept(kernel.supportsV6, kernel.Routes(VPN_TABLE), link) <==>
              !(HalfRemoves(op) && Leaks(own, kernel.supportsV6, old(kernel.Routes(VPN_TABLE))))
      ensures forall id :: id != VPN_TABLE ==> kernel.Routes(id) == old(kernel.Routes(id))
      ensures kernel.Routes(MAIN_TABLE) == old(kernel.Routes(MAIN_TABLE))
    {
      hide Masked, Possible, Kept, DisguisedDefault, Leaks;
      MaskedTwice(op.prefix);
      MaskedDefault(Masked(op.prefix));
      Apply(op.(prefix := Masked(op.prefix)), link);
    }

    /**
     Over any run of additions and removals of received networks, whatever fails in them, the invariant of the VPN table
     holds at every step as long as no removal stops half-way; no other table changes.
     */
    method RunRoutes(ops: seq<RouteOperation>, link: nat)
      requires kernel.Valid() && Kept(kernel.supportsV6, kernel.Routes(VPN_TABLE), link)
      requires forall op :: op in ops ==> !HalfRemoves(op)
      modifies kernel`tables
      ensures kernel.Valid() && Kept(kernel.supportsV6, kernel.Routes(VPN_TABLE), link)
      ensures forall id :: id != VPN_TABLE ==> kernel.Routes(id) == old(kernel.Routes(id))
      ensures kernel.Routes(MAIN_TABLE) == old(kernel.Routes(MAIN_TABLE))
    {
      hide Possible, Kept, HalfRemoves, Leaks;
      for i := 0 to |ops|
        invariant kernel.Valid() && Kept(kernel.supportsV6, kernel.Routes(VPN_TABLE), link)
        invariant forall id :: id != VPN_TABLE ==> kernel.Routes(id) == old(kernel.Routes(id))
      {
        ApplyReceived(ops[i], link);
      }
    }

    /**
     A whole session: setup, any changes of the VPN table and the cleanup, whatever fails. The main table, and what it
     alone decides for any packet, stay as they were; when the cleanup works the kernel is as it was found.
     */
    method RunSession(setup: Faults, ops: seq<RouteOperation>, link: nat, cleanup: Faults) returns (cleaned: bool)
      requires kernel.Valid()
      modifies kernel`rules, kernel`tables
      ensures kernel.Valid()
      ensures forall id :: id != VPN_TABLE ==> kernel.Routes(id) == old(kernel.Routes(id))
      ensures forall p :: MainAlone(kernel.tables, p) == old(MainAlone(kernel.tables, p))
      ensures old(kernel.rules) !! SetOf(SetupRules(mark)) && old(kernel.Routes(VPN_TABLE)) == map[] && cleaned ==>
                kernel.rules == old(kernel.rules) && forall id :: kernel.Routes(id) == old(kernel.Routes(id))
    {
      hide Possible, SetupRules, SupportedRules, Longest, LeftOver, Cleanable, Kept, DisguisedDefault, HalfRemoves,
        Leaks;
      var ok, _ := SetupRouting(setup);
      ghost var others := SetOf(SetupRules(mark));
      for i := 0 to if ok then |ops| else 0
        invariant kernel.Valid()
        invariant kernel.rules - others == old(kernel.rules) - others
        invariant forall id :: id != VPN_TABLE ==> kernel.Routes(id) == old(kernel.Routes(id))
      {
        Apply(ops[i].(prefix := Masked(ops[i].prefix)), link);
      }
      cleaned := CleanupRouting(cleanup);
      MainIsKept(old(kernel.tables), kernel.tables);
    }

    /**
     An addition of the IPv4 default route that failed in its second step is in its own way: every later one fails,
     until a removal takes the companion away. After the removal one whose calls are not refused succeeds.
     */
    method RetryAfterFailure(link: nat, first: Faults, second: Faults)
      returns (added: bool, again: bool, removed: bool, last: bool)
      requires kernel.Valid()
      requires LeavesCompanion(own, kernel.supportsV6, kernel.Routes(VPN_TABLE), Default(V4), first)
      requires Default(V4) !in kernel.Routes(VPN_TABLE)
      modifies kernel`tables
      ensures kernel.Valid() && !added && !again && removed && last
      ensures Default(V4) in kernel.Routes(VPN_TABLE) && Blackholed(kernel.supportsV6, kernel.Routes(VPN_TABLE))
    {
      hide Masked, Default, RouteAllowed, Possible;
      DefaultsMasked();
      added := AddVPNRoute(Default(V4), link, first);
      again := AddVPNRoute(Default(V4), link, second);
      removed := RemoveVPNRoute(Default(V4), link, NO_FAULTS);
      last := AddVPNRoute(Default(V4), link, NO_FAULTS);
    }
  }

  /** What the main table alone decides depends on that table only. */
  lemma MainIsKept(ts: Tables, us: Tables)
    requires TableOf(ts, 254) == TableOf(us, 254)
    ensures forall p :: MainAlone(ts, p) == MainAlone(us, p)
  {
    hide Longest;
  }

  datatype RouteOperation =
    | Add(prefix: Prefix, faults: Faults)
    | Delete(prefix: Prefix, faults: Faults)

  /** A removal of the default route that is refused after the companion is gone. */
  predicate HalfRemoves(op: RouteOperation) {
    op.Delete? && Masked(op.prefix) == Default(V4)
    && Default(V6) !in op.faults.routeDels && Default(V4) in op.faults.routeDels
  }

  /** A table in which the companion matters: the IPv4 default route is there and may be removed. */
  predicate Leaks(own: Prefix, supportsV6: bool, t: Table) {
    RouteAllowed(own, Default(V4)) && supportsV6 && Default(V4) in t
  }

  /** The invariant of the VPN table, with the IPv4 default route leading to the WireGuard interface. */
  predicate Kept(supportsV6: bool, t: Table, link: nat) {
    Blackholed(supportsV6, t) && (Default(V4) in t ==> t[Default(V4)] == Via(link, None))
  }

  function SupportedRules(rules: seq<Rule>, supportsV6: bool): seq<Rule> {
    if rules == [] then []
    else
      var front, last := SupportedRules(rules[..|rules| - 1], supportsV6), rules[|rules| - 1];
      if last.family.V4? || supportsV6 then front + [last] else front
  }

  lemma SupportedOneMore(rules: seq<Rule>, i: nat, supportsV6: bool)
    requires i < |rules|
    ensures SetOf(SupportedRules(rules[..i + 1], supportsV6)) ==
            SetOf(SupportedRules(rules[..i], supportsV6))
            + if rules[i].family.V4? || supportsV6 then {rules[i]} else {}
  {
    assert rules[..i + 1][..i] == rules[..i];
  }

  lemma {:induction false} SupportedAreRules(rules: seq<Rule>, i: nat, supportsV6: bool)
    requires i <= |rules|
    ensures SetOf(SupportedRules(rules[..i], supportsV6)) <= SetOf(rules)
  {
    if i > 0 {
      SupportedOneMore(rules, i - 1, supportsV6);
      SupportedAreRules(rules, i - 1, supportsV6);
      assert rules[i - 1] in rules;
    } else {
      assert rules[..0] == [];
    }
  }

  lemma SomeOf(rules: seq<Rule>, i: nat)
    requires i < |rules|
    ensures rules[i] in SetOf(rules)
  {
  }

  /** The routes of a family can be listed, and none of them is refused to be deleted. */
  predicate Flushable(t: Table, f: Family, faults: Faults) {
    f !in faults.lists && forall p: Prefix :: p in t && PrefixFamily(p) == f ==> p !in faults.routeDels
  }

  lemma NotListed(t: Table, f: Family, faults: Faults)
    requires f in faults.lists
    ensures !Flushable(t, f, faults)
  {
  }

  /** The destinations of listed routes. */
  function TargetsIn(routes: seq<Listed>, f: Family): set<Prefix> {
    if routes == [] then {}
    else TargetsIn(routes[..|routes| - 1], f) + {TargetOf(routes[|routes| - 1], f)}
  }

  lemma NoTargets(f: Family)
    ensures TargetsIn([], f) == {}
  {
  }

  lemma {:induction false} TargetsInMembers(routes: seq<Listed>, f: Family, p: Prefix)
    ensures p in TargetsIn(routes, f) <==> exists i :: 0 <= i < |routes| && TargetOf(routes[i], f) == p
  {
    hide TargetOf;
    if routes != [] {
      var front := routes[..|routes| - 1];
      TargetsInMembers(front, f, p);
      assert forall i :: 0 <= i < |front| ==> front[i] == routes[i];
    }
  }

  /** The next listed route is none of the earlier ones, and is what a further deletion takes away. */
  lemma NextTarget(routes: seq<Listed>, i: nat, t: Table, f: Family, refused: set<Prefix>)
    requires i < |routes|
    requires forall j, k :: 0 <= j < k < |routes| ==> TargetOf(routes[j], f) != TargetOf(routes[k], f)
    ensures var done, target := TargetsIn(routes[..i], f), TargetOf(routes[i], f);
            target !in done && TargetsIn(routes[..i + 1], f) == done + {target}
            && t - (done + {target} - refused) ==
               if target in refused then t - (done - refused) else t - (done - refused) - {target}
  {
    hide TargetOf;
    assert routes[..i + 1][..i] == routes[..i];
    TargetsInMembers(routes[..i], f, TargetOf(routes[i], f));
  }

  lemma TargetsAre(routes: seq<Listed>, t: Table, f: Family)
    requires forall p: Prefix :: p in t && PrefixFamily(p) == f ==>
                             exists i :: 0 <= i < |routes| && TargetOf(routes[i], f) == p
    requires forall i :: 0 <= i < |routes| ==>
                           TargetOf(routes[i], f) in t && PrefixFamily(TargetOf(routes[i], f)) == f
    ensures forall p: Prefix :: p in TargetsIn(routes, f) <==> p in t && PrefixFamily(p) == f
  {
    hide TargetOf, PrefixFamily, TargetsIn;
    forall p: Prefix
      ensures p in TargetsIn(routes, f) <==> p in t && PrefixFamily(p) == f
    {
      TargetsInMembers(routes, f, p);
    }
  }

  lemma FlushableMeans(routes: seq<Listed>, t: Table, f: Family, faults: Faults)
    requires f !in faults.lists
    requires forall p: Prefix :: p in TargetsIn(routes, f) <==> p in t && PrefixFamily(p) == f
    ensures Flushable(t, f, faults) <==> TargetsIn(routes, f) !! faults.routeDels
  {
    hide TargetOf, PrefixFamily, TargetsIn;
  }

  /** What a cleanup needs: nothing that it deletes is refused. */
  predicate Cleanable(t: Table, mark: nat, faults: Faults) {
    Flushable(t, V4, faults) && Flushable(t, V6, faults) && SetOf(SetupRules(mark)) !! faults.ruleDels
  }

  /** The routes that stay when those of a family are deleted: the other ones and the refused ones. */
  function LeftOver(t: Table, f: Family, faults: Faults): Table {
    if f in faults.lists then t else map p: Prefix | p in t && (PrefixFamily(p) != f || p in faults.routeDels) :: t[p]
  }

  lemma LeftOverApart(t: Table, f: Family, faults: Faults)
    ensures OtherFamily(LeftOver(t, f, faults), f) == OtherFamily(t, f)
    ensures Flushable(t, f, faults) ==> LeftOver(t, f, faults) == OtherFamily(t, f)
  {
    hide PrefixFamily;
  }

  lemma LeftOverIs(t: Table, f: Family, faults: Faults, gone: set<Prefix>)
    requires forall p :: p in gone ==> p in t && PrefixFamily(p) == f && p !in faults.routeDels
    requires if f in faults.lists then gone == {}
             else forall p: Prefix :: p in t && PrefixFamily(p) == f && p !in faults.routeDels ==> p in gone
    ensures t - gone == LeftOver(t, f, faults)
  {
    hide PrefixFamily;
  }

  /** Flushing one family leaves the other one to flush, and when both work nothing is left. */
  lemma FlushedApart(t: Table, faults: Faults)
    ensures Flushable(LeftOver(t, V4, faults), V6, faults) == Flushable(t, V6, faults)
    ensures Flushable(t, V4, faults) && Flushable(t, V6, faults) ==>
              LeftOver(LeftOver(t, V4, faults), V6, faults) == map[]
  {
    hide PrefixFamily;
    var u := LeftOver(t, V4, faults);
    forall p: Prefix | PrefixFamily(p) == V6
      ensures p in u <==> p in t
    {
    }
    if Flushable(t, V4, faults) && Flushable(t, V6, faults) {
      assert LeftOver(u, V6, faults).Keys == {};
    }
  }

  lemma SetOfOneMore(rules: seq<Rule>, i: nat)
    requires i < |rules|
    ensures SetOf(rules[..i + 1]) == SetOf(rules[..i]) + {rules[i]}
  {
    assert rules[..i + 1] == rules[..i] + [rules[i]];
  }

  /** A route that is there belongs to a supported family. */
  lemma Supported(supportsV6: bool, rules: set<Rule>, tables: Tables, id: nat, dst: Prefix)
    requires Possible(supportsV6, rules, tables) && dst in TableOf(tables, id)
    ensures PrefixFamily(dst).V4? || supportsV6
  {
  }

  // ---- what setup and the invariant give together ----

  /** The rules after setup, on a system with IPv6 that started with its main rules, are those that route a family. */
  lemma RulesAfterSetup(mark: nat, rules: set<Rule>, f: Family)
    requires rules == {MainRule(V4), MainRule(V6)} + SetOf(SupportedRules(SetupRules(mark), true))
    ensures forall r :: r in rules && r.family == f <==> r in FamilyRules(mark, f)
  {
    AllSupported(SetupRules(mark));
    hide SupportedRules;
    var all := SetupRules(mark);
    assert SetOf(all) == {all[0], all[1], all[2], all[3]};
  }

  lemma {:induction false} AllSupported(rules: seq<Rule>)
    ensures SupportedRules(rules, true) == rules
  {
    if rules != [] {
      AllSupported(rules[..|rules| - 1]);
    }
  }

  lemma DefaultContains(a: Addr)
    requires !IsV4(a)
    ensures Contains(Default(V6), a)
  {
    assert MaskAddr(a, 0) == ZeroAddr(V6);
  }

  /**
   With the IPv4 default route in the VPN table, an unmarked IPv6 packet for which the main table has nothing but a
   default route never leaves through the main table: it takes a VPN route or is unreachable.
   */
  lemma NoLeakThroughMain(ts: Tables, order: seq<Rule>, rules: set<Rule>, mark: nat, p: Packet)
    requires mark != 0 && p.mark != mark && FamilyOf(p.dst) == V6 && TriedInOrder(order, rules, V6)
    requires rules == {MainRule(V4), MainRule(V6)} + SetOf(SupportedRules(SetupRules(mark), true))
    requires Default(V4) in TableOf(ts, VPN_TABLE) && Blackholed(true, TableOf(ts, VPN_TABLE))
    requires !MainIsSpecific(ts, p.dst)
    ensures var vpn := Longest(TableOf(ts, VPN_TABLE), p.dst);
            vpn.Some? && Decide(ts, order, p) == Some(vpn.value.1)
            && (vpn.value.0.bits == 0 ==> Decide(ts, order, p) == Some(Unreachable))
  {
    hide Decide, SetupRules, SupportedRules, Longest, MaskAddr, FamilyRules, TriedInOrder;
    RulesAfterSetup(mark, rules, V6);
    RoutedBySetup(ts, order, rules, mark, p);
    DefaultContains(p.dst);
    LongestIsLongest(TableOf(ts, VPN_TABLE), p.dst);
    var best := Longest(TableOf(ts, VPN_TABLE), p.dst).value.0;
    if best.bits == 0 {
      SameLength(best, Default(V6), p.dst);
    }
  }

  /**
   On its own AddVPNRoute leaves IPv6 open for a default route in disguise, as one addition to an empty table shows; the
   masking of received networks keeps such prefixes away from it.
   */
  method DisguisedDefaultLeaks(ops: SysOps, prefix: Prefix, link: nat)
    requires ops.kernel.Valid() && ops.kernel.supportsV6 && ops.kernel.Routes(VPN_TABLE) == map[]
    requires DisguisedDefault(prefix) && RouteAllowed(ops.own, prefix)
    modifies ops.kernel`tables
    ensures Default(V4) in ops.kernel.Routes(VPN_TABLE)
    ensures !Blackholed(ops.kernel.supportsV6, ops.kernel.Routes(VPN_TABLE))
  {
    hide Masked, Default, RouteAllowed;
    MaskedDefault(prefix);
    DefaultsMasked();
    var _ := ops.AddVPNRoute(prefix, link, NO_FAULTS);
  }
}
