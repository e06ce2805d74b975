/**
 How the kernel routes a packet under prioritised rules: longest-prefix lookup in a table (section 5.1 of RFC 4632),
 rules that match a mark, and rules that suppress short prefixes.
 */
module PolicyRouting {
  import opened Wrappers
  import opened Net
  import opened Bits

  datatype Family = V4 | V6

  /** Where a route leads; a gateway is optional. */
  datatype RouteKind = Via(link: nat, gateway: Option<Addr>) | Unreachable

  /** A table has one route for each masked prefix. */
  type Table = map<Prefix, RouteKind>

  datatype Packet = Packet(mark: nat, dst: Addr)

  function FamilyOf(a: Addr): Family {
    if IsV4(a) then V4 else V6
  }

  function ZeroAddr(f: Family): Addr {
    if f.V4? then seq(4, i => 0) else seq(16, i => 0)
  }

  /** 0.0.0.0/0 and ::/0 */
  function Default(f: Family): Prefix {
    Prefix(ZeroAddr(f), 0)
  }

  // ---- longest-prefix lookup ----

  /** The route of the longest prefix of an address, looking from some length down. */
  function LongestFrom(t: Table, a: Addr, bits: nat): Option<(Prefix, RouteKind)>
    requires bits <= 8 * |a|
  {
    var p: Prefix := Prefix(MaskAddr(a, bits), bits);
    if p in t then Some((p, t[p]))
    else if bits == 0 then None
    else LongestFrom(t, a, bits - 1)
  }

  function Longest(t: Table, a: Addr): Option<(Prefix, RouteKind)> {
    LongestFrom(t, a, 8 * |a|)
  }

  /** The address is in the network. */
  predicate Contains(p: Prefix, a: Addr) {
    |p.addr| == |a| && MaskAddr(a, p.bits) == p.addr
  }

  /** An address is in one network of each length. */
  lemma ContainsMeans(q: Prefix, a: Addr, bits: nat)
    requires bits <= 8 * |a| && Contains(q, a) && q.bits == bits
    ensures q == Prefix(MaskAddr(a, bits), bits)
  {
  }

  lemma {:induction false} LongestFromIsLongest(t: Table, a: Addr, bits: nat)
    requires bits <= 8 * |a|
    ensures match LongestFrom(t, a, bits)
            case None => forall p: Prefix :: p in t && p.bits <= bits ==> !Contains(p, a)
            case Some((p, kind)) =>
              p in t && t[p] == kind && Contains(p, a) && p.bits <= bits
              && forall q: Prefix :: q in t && q.bits <= bits && Contains(q, a) ==> q.bits <= p.bits
  {
    hide MaskAddr;
    var p: Prefix := Prefix(MaskAddr(a, bits), bits);
    if p !in t {
      forall q: Prefix | q in t && q.bits == bits
        ensures !Contains(q, a)
      {
        NotContained(t, q, a, bits);
      }
      if bits > 0 {
        LongestFromIsLongest(t, a, bits - 1);
      }
    }
  }

  lemma NotContained(t: Table, q: Prefix, a: Addr, bits: nat)
    requires bits <= 8 * |a| && q in t && q.bits == bits
    ensures Contains(q, a) ==> Prefix(MaskAddr(a, bits), bits) in t
  {
    hide MaskAddr;
    if Contains(q, a) {
      ContainsMeans(q, a, bits);
    }
  }

  lemma SameLength(p: Prefix, q: Prefix, a: Addr)
    requires Contains(p, a) && Contains(q, a) && p.bits == q.bits
    ensures p == q
  {
  }

  /** The lookup finds the route whose prefix contains the address and is longer than any other that does. */
  lemma LongestIsLongest(t: Table, a: Addr)
    ensures match Longest(t, a)
            case None => forall p: Prefix :: p in t ==> !Contains(p, a)
            case Some((p, kind)) =>
              p in t && t[p] == kind && Contains(p, a)
              && forall q: Prefix :: q in t && Contains(q, a) && q != p ==> q.bits < p.bits
  {
    hide MaskAddr;
    LongestFromIsLongest(t, a, 8 * |a|);
    hide LongestFrom;
    if Longest(t, a).Some? {
      var p := Longest(t, a).value.0;
      forall q: Prefix | q in t && Contains(q, a) && q.bits == p.bits
        ensures q == p
      {
        SameLength(p, q, a);
      }
    }
  }

  /** A masked prefix contains exactly the addresses that start with its bits. */
  lemma ContainsByBits(p: Prefix, a: Addr)
    requires Masked(p) == p
    ensures Contains(p, a) <==> InNetwork(p, a)
  {
    hide MaskAddr, SameStart;
    if |p.addr| == |a| {
      MaskedStart(p, a);
    }
  }

  /** The default routes: no bit is given, in either family. */
  lemma DefaultIsEverything(f: Family, a: Addr)
    ensures InNetwork(Default(f), a) <==> |a| == if f.V4? then 4 else 16
    ensures Default(f).bits == 0 && forall i :: 0 <= i < |Default(f).addr| ==> Default(f).addr[i] == 0
  {
    hide AddrBit;
  }

  /** The lookup by the bits of the prefixes: the only route whose first bits are those of the address, and longest. */
  lemma LongestByBits(t: Table, a: Addr)
    requires forall p: Prefix :: p in t ==> Masked(p) == p
    ensures match Longest(t, a)
            case None => forall p: Prefix :: p in t ==> !InNetwork(p, a)
            case Some((p, kind)) =>
              p in t && t[p] == kind && InNetwork(p, a)
              && forall q: Prefix :: q in t && InNetwork(q, a) && q != p ==> q.bits < p.bits
  {
    hide Longest, Contains, InNetwork, Masked;
    LongestIsLongest(t, a);
    forall p: Prefix | p in t
      ensures Contains(p, a) <==> InNetwork(p, a)
    {
      ContainsByBits(p, a);
    }
  }

  // ---- rules ----

  datatype Rule = Rule(priority: nat, fwmark: nat, table: nat, family: Family, invert: bool, suppressPrefix: int)

  const MAIN_TABLE: nat := 254
  const VPN_TABLE: nat := 0x1BD0
  const MAIN_PRIORITY: nat := 32766

  /** The rule for the main table that a system starts with. */
  function MainRule(f: Family): Rule {
    Rule(MAIN_PRIORITY, 0, MAIN_TABLE, f, false, -1)
  }

  /** A rule without a mark matches every packet. */
  predicate RuleMatches(r: Rule, p: Packet) {
    r.family == FamilyOf(p.dst) && (r.fwmark == 0 || r.fwmark == p.mark) != r.invert
  }

  type Tables = map<nat, Table>

  function TableOf(ts: Tables, id: nat): Table {
    if id in ts then ts[id] else map[]
  }

  /** The decision of one rule: a route that is longer than the suppressed length. */
  function RuleDecision(ts: Tables, r: Rule, p: Packet): Option<RouteKind> {
    if !RuleMatches(r, p) then None
    else match Longest(TableOf(ts, r.table), p.dst)
      case None => None
      case Some((prefix, kind)) => if prefix.bits <= r.suppressPrefix then None else Some(kind)
  }

  /** The first rule that decides. */
  function Decide(ts: Tables, rules: seq<Rule>, p: Packet): Option<RouteKind> {
    if rules == [] then None
    else match RuleDecision(ts, rules[0], p)
      case Some(kind) => Some(kind)
      case None => Decide(ts, rules[1..], p)
  }

  /** The rules of a family in the order the kernel tries them. */
  ghost predicate TriedInOrder(order: seq<Rule>, rules: set<Rule>, f: Family) {
    && (forall r :: r in order <==> r in rules && r.family == f)
    && (forall i, j :: 0 <= i < j < |order| ==> order[i].priority <= order[j].priority && order[i] != order[j])
  }

  /** What the main table alone would do. */
  function MainAlone(ts: Tables, p: Packet): Option<RouteKind> {
    match Longest(TableOf(ts, MAIN_TABLE), p.dst)
    case None => None
    case Some((_, kind)) => Some(kind)
  }

  /** The main table has a route for the address that is not a default route. */
  predicate MainIsSpecific(ts: Tables, a: Addr) {
    match Longest(TableOf(ts, MAIN_TABLE), a)
    case None => false
    case Some((prefix, _)) => prefix.bits > 0
  }

  // ---- the rules that are set up ----

  /** getSetupRules */
  function SetupRules(mark: nat): seq<Rule> {
    [Rule(105, 0, MAIN_TABLE, V4, false, 0),
     Rule(105, 0, MAIN_TABLE, V6, false, 0),
     Rule(110, mark, VPN_TABLE, V4, true, -1),
     Rule(110, mark, VPN_TABLE, V6, true, -1)]
  }

  /**
   For each family: the main table without its default routes, then the VPN table for what is not marked, and last the
   rule for the main table that is there from the start.
   */
  lemma SetupRulesAre(mark: nat, r: Rule)
    ensures MainRule(r.family) == Rule(32766, 0, 254, r.family, false, -1)
    ensures r in SetupRules(mark) <==>
            || (r.priority == 105 && r.fwmark == 0 && r.table == 254 && !r.invert && r.suppressPrefix == 0)
            || (r.priority == 110 && r.fwmark == mark && r.table == 0x1BD0 && r.invert && r.suppressPrefix == -1)
  {
    var rules := SetupRules(mark);
    assert r in rules <==> r == rules[0] || r == rules[1] || r == rules[2] || r == rules[3];
    assert r == Rule(r.priority, r.fwmark, r.table, r.family, r.invert, r.suppressPrefix);
    assert r.family == V4 || r.family == V6;
  }

  function SetOf(rules: seq<Rule>): set<Rule> {
    set r | r in rules
  }

  /** The rules of one family after setup, next to the one the system started with. */
  function FamilyRules(mark: nat, f: Family): seq<Rule> {
    [Rule(105, 0, MAIN_TABLE, f, false, 0), Rule(110, mark, VPN_TABLE, f, true, -1), MainRule(f)]
  }

  /** The kernel has one order in which to try them. */
  lemma OneOrder(order: seq<Rule>, rules: set<Rule>, mark: nat, f: Family)
    requires TriedInOrder(order, rules, f)
    requires forall r :: r in rules && r.family == f <==> r in FamilyRules(mark, f)
    ensures order == FamilyRules(mark, f)
  {
    var want := FamilyRules(mark, f);
    var a, b, c := want[0], want[1], want[2];
    assert a in order && b in order && c in order by {
      assert a in want && b in want && c in want;
    }
    forall r | r in order
      ensures r == a || r == b || r == c
    {
      assert r in want;
    }
    ThreeInOrder(order, a, b, c);
  }

  lemma ThreeInOrder(order: seq<Rule>, a: Rule, b: Rule, c: Rule)
    requires a.priority < b.priority < c.priority
    requires forall i, j :: 0 <= i < j < |order| ==> order[i].priority <= order[j].priority
    requires forall i, j :: 0 <= i < j < |order| ==> order[i] != order[j]
    requires a in order && b in order && c in order && forall r :: r in order ==> r == a || r == b || r == c
    ensures order == [a, b, c]
  {
    var i :| 0 <= i < |order| && order[i] == a;
    var j :| 0 <= j < |order| && order[j] == b;
    var k :| 0 <= k < |order| && order[k] == c;
    assert i < j < k;
    assert order[0] in order && order[1] in order && order[2] in order;
    assert order[0] == a;
    assert order[1] == b;
    assert order[2] == c;
    if |order| > 3 {
      LaterIsNew(order, 3);
      assert false;
    }
  }

  lemma LaterIsNew(order: seq<Rule>, m: nat)
    requires 3 <= m < |order| && forall i, j :: 0 <= i < j < |order| ==> order[i] != order[j]
    ensures order[m] in order && order[m] != order[0] && order[m] != order[1] && order[m] != order[2]
  {
  }

  lemma DecideThree(ts: Tables, a: Rule, b: Rule, c: Rule, p: Packet)
    ensures Decide(ts, [a, b, c], p) ==
            (match RuleDecision(ts, a, p)
             case Some(x) => Some(x)
             case None =>
               match RuleDecision(ts, b, p)
               case Some(y) => Some(y)
               case None => RuleDecision(ts, c, p))
  {
    hide RuleDecision;
    assert [a, b, c][1..] == [b, c] && [b, c][1..] == [c] && [c][1..] == [];
    assert Decide(ts, [c], p) == RuleDecision(ts, c, p);
    assert Decide(ts, [b, c], p) ==
           match RuleDecision(ts, b, p) case Some(y) => Some(y) case None => Decide(ts, [c], p);
  }

  /**
   After setup a packet with the control-plane mark is routed as the main table alone would; another packet takes the
   main table when its match there is not a default route, then the VPN table, and then the main table.
   */
  lemma RoutedBySetup(ts: Tables, order: seq<Rule>, rules: set<Rule>, mark: nat, p: Packet)
    requires mark != 0 && TriedInOrder(order, rules, FamilyOf(p.dst))
    requires var f := FamilyOf(p.dst); forall r :: r in rules && r.family == f <==> r in FamilyRules(mark, f)
    ensures Decide(ts, order, p) ==
            if p.mark == mark || MainIsSpecific(ts, p.dst) then MainAlone(ts, p)
            else match Longest(TableOf(ts, VPN_TABLE), p.dst)
              case Some((_, kind)) => Some(kind)
              case None => MainAlone(ts, p)
  {
    hide Longest;
    var f := FamilyOf(p.dst);
    OneOrder(order, rules, mark, f);
    DecideThree(ts, order[0], order[1], order[2], p);
    hide Decide, TriedInOrder;
  }
}
