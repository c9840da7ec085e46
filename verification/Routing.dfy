/** What ConfigureRoutes compiles a network configuration into, and what the kernel then does with
    every packet (pkg/ifmgr/ifmgr_linux.go:17-23, 59-184; pkg/config/config.go:68-72). */
module Routing {
  import opened Net

  // ------------------------------------------------------------- the kernel

  datatype Device = EniDevice(index: int) | PrimaryDevice | OtherDevice(name: string)

  datatype Route = Route(dst: Block, dev: Device, gw: Option<Addr>)

  /** A policy rule: packets from `src` to `dst` consult `table`. */
  datatype Rule = Rule(priority: int, src: Block, dst: Block, table: int)

  datatype Kernel = Kernel(tables: map<int, seq<Route>>, rules: seq<Rule>)

  const LOCAL_TABLE := 255
  const MAIN_TABLE := 254
  const DEFAULT_TABLE := 253
  const FROM_POD_BASE := 120
  const DST_PRIO := 5000
  const SRC_PRIO := 6000

  /** The rules every host starts with. */
  const BASE_RULES: seq<Rule> :=
    [Rule(0, EVERYWHERE, EVERYWHERE, LOCAL_TABLE),
     Rule(32766, EVERYWHERE, EVERYWHERE, MAIN_TABLE),
     Rule(32767, EVERYWHERE, EVERYWHERE, DEFAULT_TABLE)]

  function TableOf(k: Kernel, t: int): seq<Route> {
    if t in k.tables then k.tables[t] else []
  }

  predicate HasDst(table: seq<Route>, dst: Block) {
    exists r :: r in table && r.dst == dst
  }

  /** Adding a route whose destination is already in the table is refused as a duplicate, which the
      caller ignores. */
  function AddRoute(table: seq<Route>, r: Route): seq<Route> {
    if HasDst(table, r.dst) then table else table + [r]
  }

  function Install(table: seq<Route>, routes: seq<Route>): seq<Route> {
    if routes == [] then table
    else AddRoute(Install(table, routes[..|routes| - 1]), routes[|routes| - 1])
  }

  /** Longest-prefix match. */
  function Best(table: seq<Route>, a: Addr): Option<Route> {
    if table == [] then None
    else
      var rest, r := Best(table[1..], a), table[0];
      if r.dst.Contains(a) && (rest.None? || rest.value.dst.bits < r.dst.bits) then Some(r) else rest
  }

  /** A rule goes after the existing ones of the same or a smaller priority number. */
  function InsertRule(rules: seq<Rule>, r: Rule): seq<Rule> {
    if rules == [] || rules[0].priority > r.priority then [r] + rules
    else [rules[0]] + InsertRule(rules[1..], r)
  }

  function InsertRules(rules: seq<Rule>, more: seq<Rule>): seq<Rule> {
    if more == [] then rules
    else InsertRule(InsertRules(rules, more[..|more| - 1]), more[|more| - 1])
  }

  predicate Selects(r: Rule, src: Addr, dst: Addr) {
    r.src.Contains(src) && r.dst.Contains(dst)
  }

  datatype Hop = Hop(table: int, route: Route)

  /** Rules in order; a rule whose table has no matching route is passed over. */
  function Scan(rules: seq<Rule>, k: Kernel, src: Addr, dst: Addr): Option<Hop> {
    if rules == [] then None
    else
      var found := Best(TableOf(k, rules[0].table), dst);
      if Selects(rules[0], src, dst) && found.Some? then Some(Hop(rules[0].table, found.value))
      else Scan(rules[1..], k, src, dst)
  }

  function Resolve(k: Kernel, src: Addr, dst: Addr): Option<Hop> {
    Scan(k.rules, k, src, dst)
  }

  // ----------------------------------------------------------- the compiler

  datatype Network = Network(
    cluster: Block,
    service: Block,
    podIPMasq: bool,
    vpcRouted: seq<Block>,
    redirectPort: int)

  function TableNumber(index: int): int {
    FROM_POD_BASE + index
  }

  /** The subnet's base address with its last octet incremented, as an octet. */
  function Gateway(subnet: Block): Addr {
    subnet.base - subnet.base % 256 + (subnet.base % 256 + 1) % 256
  }

  function ViaGateway(blocks: seq<Block>, index: int, gw: Addr): (r: seq<Route>)
    ensures |r| == |blocks|
    ensures forall i :: 0 <= i < |blocks| ==> r[i] == Route(blocks[i], EniDevice(index), Some(gw))
  {
    seq(|blocks|, i requires 0 <= i < |blocks| => Route(blocks[i], EniDevice(index), Some(gw)))
  }

  /** Every route but the default one. */
  function SpecificRoutes(net: Network, index: int, subnet: Block): seq<Route> {
    var gw := Gateway(subnet);
    ViaGateway([net.service, net.cluster], index, gw)
    + if net.podIPMasq then [Route(subnet, EniDevice(index), None)] + ViaGateway(net.vpcRouted, index, gw) else []
  }

  function DefaultRoute(net: Network, index: int, subnet: Block): Route {
    Route(EVERYWHERE, if net.podIPMasq then PrimaryDevice else EniDevice(index), Some(Gateway(subnet)))
  }

  function CompiledRoutes(net: Network, index: int, subnet: Block): seq<Route> {
    SpecificRoutes(net, index, subnet) + [DefaultRoute(net, index, subnet)]
  }

  function Host(ip: Addr): Block {
    Block(ip, 32)
  }

  function ToRule(ip: Addr): Rule {
    Rule(DST_PRIO, EVERYWHERE, Host(ip), MAIN_TABLE)
  }

  function FromRule(ip: Addr, index: int): Rule {
    Rule(SRC_PRIO, Host(ip), EVERYWHERE, TableNumber(index))
  }

  function CompiledRules(pods: seq<Addr>, index: int): seq<Rule> {
    if pods == [] then []
    else
      var n := |pods| - 1;
      CompiledRules(pods[..n], index) + [ToRule(pods[n]), FromRule(pods[n], index)]
  }

  /** How many of the routes are added before the kernel refuses one: call number `failAt` fails, and
      so does a destination with host bits set. */
  function RoutesDone(routes: seq<Route>, from: nat, failAt: nat): (k: nat)
    requires from <= |routes|
    ensures from <= k <= |routes|
    decreases |routes| - from
  {
    if from == |routes| || from == failAt || !routes[from].dst.Canonical() then from
    else RoutesDone(routes, from + 1, failAt)
  }

  /** ConfigureRoutes: the kernel it leaves and whether it succeeds. */
  function Configured(k: Kernel, net: Network, index: int, subnet: Block, pods: seq<Addr>, failAt: nat): (Kernel, bool)
  {
    var routes, rules, t := CompiledRoutes(net, index, subnet), CompiledRules(pods, index), TableNumber(index);
    var done := RoutesDone(routes, 0, failAt);
    var tables := k.tables[t := Install(TableOf(k, t), routes[..done])];
    if done < |routes| then (Kernel(tables, k.rules), false)
    else
      var m := if failAt >= |routes| + |rules| then |rules| else if failAt >= |routes| then failAt - |routes| else 0;
      (Kernel(tables, InsertRules(k.rules, rules[..m])), m == |rules|)
  }

  // ---------------------------------------------------------------- gateway

  lemma MulAssociates(a: int, b: int, c: int)
    ensures (a * b) * c == a * (b * c)
  {
  }

  lemma EvenMultiple(base: nat, size: nat, half: nat)
    requires half >= 1 && size == 2 * half && base % size == 0
    ensures base % 2 == 0
  {
    var q := base / size;
    assert base == size * q;
    MulAssociates(2, half, q);
    var x := half * q;
    assert base == 2 * x;
  }

  lemma NextIsInBlock(base: nat, size: nat)
    requires size >= 2 && base % size == 0
    ensures (base + 1) / size == base / size
  {
    assert base == size * (base / size);
    DivBelow(size, base / size, 1);
  }

  lemma EvenDoesNotWrap(base: nat)
    requires base % 2 == 0
    ensures base - base % 256 + (base % 256 + 1) % 256 == base + 1
  {
  }

  lemma OneAddressBlock(subnet: Block, a: Addr)
    requires subnet.bits == 32
    ensures subnet.Contains(a) <==> a == subnet.base
  {
    assert subnet.Size() == Pow2(0) == 1;
  }

  /** Incrementing the last octet is the subnet's first address, without a carry and inside the
      subnet, exactly for prefixes of at most 31 bits. */
  lemma GatewayIsFirstAddress(subnet: Block)
    requires subnet.Canonical()
    ensures Gateway(subnet) == subnet.base + 1 && subnet.Contains(Gateway(subnet)) <==> subnet.bits <= 31
  {
    if subnet.bits <= 31 {
      var base, size := subnet.base, subnet.Size();
      assert base % 2 == 0 by {
        EvenMultiple(base, size, Pow2(31 - subnet.bits));
      }
      EvenDoesNotWrap(base);
      NextIsInBlock(base, size);
    } else {
      OneAddressBlock(subnet, Gateway(subnet));
    }
  }

  lemma DivBelow(size: nat, q: int, r: nat)
    requires r < size
    ensures (size * q + r) / size == q
  {
    var x := size * q + r;
    var d, m := x / size, x % size;
    assert x == size * d + m;
    assert size * (q - d) == m - r by {
      assert size * (q - d) == size * q - size * d;
    }
    Multiples(size, q - d);
  }

  lemma Multiples(size: nat, k: int)
    ensures k >= 1 ==> size * k >= size
    ensures k <= -1 ==> size * k + size <= 0
  {
  }

  /** Indices in the controller's range give tables that differ from each other and from the
      kernel's own. */
  lemma TablesAreSeparate(i: int, j: int)
    requires 1 <= i <= 14 && 1 <= j <= 14
    ensures TableNumber(i) == TableNumber(j) <==> i == j
    ensures TableNumber(i) !in {LOCAL_TABLE, MAIN_TABLE, DEFAULT_TABLE}
  {
  }

  // ------------------------------------------------------- the table's meaning

  lemma {:induction false} BestMeaning(table: seq<Route>, a: Addr)
    ensures match Best(table, a)
            case None => forall r :: r in table ==> !r.dst.Contains(a)
            case Some(b) =>
              && b in table && b.dst.Contains(a)
              && forall r :: r in table && r.dst.Contains(a) ==> r.dst.bits <= b.dst.bits
  {
    if table != [] {
      BestMeaning(table[1..], a);
      assert forall r :: r in table <==> r == table[0] || r in table[1..];
    }
  }

  lemma {:induction false} InstallMeaning(routes: seq<Route>)
    ensures forall r :: r in Install([], routes) ==> r in routes
    ensures forall r :: r in routes ==> HasDst(Install([], routes), r.dst)
  {
    if routes != [] {
      var n := |routes| - 1;
      var front, last := routes[..n], routes[n];
      InstallMeaning(front);
      var before := Install([], front);
      assert routes == front + [last];
      forall r | r in routes
        ensures HasDst(Install([], routes), r.dst)
      {
        if r in front {
          var q :| q in before && q.dst == r.dst;
          assert q in Install([], routes);
        } else if !HasDst(before, last.dst) {
          assert last in Install([], routes);
        }
      }
    }
  }

  predicate AllCanonical(routes: seq<Route>) {
    forall r :: r in routes ==> r.dst.Canonical()
  }

  lemma {:induction false} RoutesDoneMeaning(routes: seq<Route>, from: nat, failAt: nat)
    requires from <= |routes|
    ensures RoutesDone(routes, from, failAt) == |routes| <==>
              && (forall i :: from <= i < |routes| ==> routes[i].dst.Canonical())
              && (failAt < from || |routes| <= failAt)
    decreases |routes| - from
  {
    if from < |routes| && from != failAt && routes[from].dst.Canonical() {
      RoutesDoneMeaning(routes, from + 1, failAt);
    }
  }

  /** ConfigureRoutes succeeds exactly when no kernel call fails and no block has host bits set; then
      it has installed everything. */
  lemma ConfiguredMeaning(k: Kernel, net: Network, index: int, subnet: Block, pods: seq<Addr>, failAt: nat)
    ensures var routes, rules, t := CompiledRoutes(net, index, subnet), CompiledRules(pods, index), TableNumber(index);
            var (k', ok) := Configured(k, net, index, subnet, pods, failAt);
            && (ok <==> AllCanonical(routes) && |routes| + |rules| <= failAt)
            && (ok ==> k' == Kernel(k.tables[t := Install(TableOf(k, t), routes)], InsertRules(k.rules, rules)))
  {
    var routes, rules := CompiledRoutes(net, index, subnet), CompiledRules(pods, index);
    RoutesDoneMeaning(routes, 0, failAt);
    assert routes[..|routes|] == routes && rules[..|rules|] == rules;
    assert AllCanonical(routes) <==> forall i :: 0 <= i < |routes| ==> routes[i].dst.Canonical();
  }

  /** The destinations that stay on the ENI when pods are masqueraded. */
  predicate StaysOnEni(net: Network, subnet: Block, a: Addr) {
    || net.service.Contains(a) || net.cluster.Contains(a) || subnet.Contains(a)
    || exists b :: b in net.vpcRouted && b.Contains(a)
  }

  lemma SpecificMeaning(net: Network, index: int, subnet: Block, a: Addr)
    requires net.podIPMasq
    ensures forall r :: r in SpecificRoutes(net, index, subnet) ==> r.dev == EniDevice(index)
    ensures (exists r :: r in SpecificRoutes(net, index, subnet) && r.dst.Contains(a)) <==> StaysOnEni(net, subnet, a)
  {
    var gw := Gateway(subnet);
    var routes := SpecificRoutes(net, index, subnet);
    var vpc := ViaGateway(net.vpcRouted, index, gw);
    var first := ViaGateway([net.service, net.cluster], index, gw);
    assert routes == first + ([Route(subnet, EniDevice(index), None)] + vpc);
    assert first[0] in routes && first[1] in routes && routes[2] in routes;
    if StaysOnEni(net, subnet, a) {
      if b :| b in net.vpcRouted && b.Contains(a) {
        var i :| 0 <= i < |net.vpcRouted| && net.vpcRouted[i] == b;
        assert routes[3 + i] == vpc[i];
        assert routes[3 + i] in routes && routes[3 + i].dst.Contains(a);
      }
    }
    if r :| r in routes && r.dst.Contains(a) {
      var i :| 0 <= i < |routes| && routes[i] == r;
      if i >= 3 {
        assert r == vpc[i - 3];
        assert net.vpcRouted[i - 3] in net.vpcRouted;
      }
    }
  }

  /** The first route for its destination. */
  predicate FirstFor(routes: seq<Route>, i: nat) {
    i < |routes| && forall j :: 0 <= j < i ==> routes[j].dst != routes[i].dst
  }

  /** A table filled from empty holds only first routes. */
  lemma {:induction false} InstallKeepsFirst(routes: seq<Route>, r: Route) returns (i: nat)
    requires r in Install([], routes)
    ensures FirstFor(routes, i) && routes[i] == r
  {
    var n := |routes| - 1;
    var front := routes[..n];
    if r in Install([], front) {
      i := InstallKeepsFirst(front, r);
    } else {
      i := n;
      InstallMeaning(front);
      forall j | 0 <= j < n
        ensures routes[j].dst != routes[n].dst
      {
        assert front[j] in front;
      }
    }
  }

  /** The longest block that matches is the subnet's own, and it is neither the service nor the cluster
      block, whose routes are installed before it. */
  predicate OnLink(net: Network, subnet: Block, a: Addr) {
    && net.podIPMasq && subnet.Contains(a) && subnet != net.service && subnet != net.cluster
    && (net.service.Contains(a) ==> net.service.bits <= subnet.bits)
    && (net.cluster.Contains(a) ==> net.cluster.bits <= subnet.bits)
    && forall b :: b in net.vpcRouted && b.Contains(a) ==> b.bits <= subnet.bits
  }

  /** What the compiled routes are, one by one. */
  lemma RouteAt(net: Network, index: int, subnet: Block, i: nat)
    requires i < |CompiledRoutes(net, index, subnet)|
    ensures var r, gw := CompiledRoutes(net, index, subnet)[i], Some(Gateway(subnet));
            if i == 0 then r.dst == net.service && r.gw == gw
            else if i == 1 then r.dst == net.cluster && r.gw == gw
            else if i == 2 && net.podIPMasq then r == Route(subnet, EniDevice(index), None)
            else r.gw == gw && (r.dst == EVERYWHERE || (net.podIPMasq && r.dst in net.vpcRouted))
  {
  }

  lemma HasRoute(routes: seq<Route>, i: nat)
    requires i < |routes|
    ensures HasDst(Install([], routes), routes[i].dst)
  {
    InstallMeaning(routes);
    assert routes[i] in routes;
  }

  /** And there is one for every block of the configuration. */
  lemma RouteFor(net: Network, index: int, subnet: Block, b: Block)
    requires b == net.service || b == net.cluster || (net.podIPMasq && (b == subnet || b in net.vpcRouted))
    ensures HasDst(Install([], CompiledRoutes(net, index, subnet)), b)
  {
    var i := 0;
    if b == net.cluster {
      i := 1;
    } else if b != net.service {
      i := 2;
      if b != subnet {
        var k :| 0 <= k < |net.vpcRouted| && net.vpcRouted[k] == b;
        i := 3 + k;
      }
    }
    HasRoute(CompiledRoutes(net, index, subnet), i);
  }

  lemma NoLongerBlock(table: seq<Route>, a: Addr, b: Block)
    requires HasDst(table, b) && Best(table, a).Some?
    ensures b.Contains(a) ==> b.bits <= Best(table, a).value.dst.bits
  {
    BestMeaning(table, a);
  }

  lemma LinkedIsOnLink(net: Network, index: int, subnet: Block, a: Addr)
    requires Best(Install([], CompiledRoutes(net, index, subnet)), a).Some?
    requires Best(Install([], CompiledRoutes(net, index, subnet)), a).value.gw.None?
    ensures OnLink(net, subnet, a)
  {
    var routes := CompiledRoutes(net, index, subnet);
    var table := Install([], routes);
    BestMeaning(table, a);
    var i := InstallKeepsFirst(routes, Best(table, a).value);
    RouteAt(net, index, subnet, i);
    RouteAt(net, index, subnet, 0);
    RouteAt(net, index, subnet, 1);
    forall b | b == net.service || b == net.cluster || b in net.vpcRouted
      ensures b.Contains(a) ==> b.bits <= subnet.bits
    {
      RouteFor(net, index, subnet, b);
      NoLongerBlock(table, a, b);
    }
  }

  lemma OnLinkIsLinked(net: Network, index: int, subnet: Block, a: Addr)
    requires AllCanonical(CompiledRoutes(net, index, subnet)) && OnLink(net, subnet, a)
    requires Best(Install([], CompiledRoutes(net, index, subnet)), a).Some?
    ensures Best(Install([], CompiledRoutes(net, index, subnet)), a).value.gw.None?
  {
    var routes := CompiledRoutes(net, index, subnet);
    var table := Install([], routes);
    var b := Best(table, a).value;
    BestMeaning(table, a);
    var i := InstallKeepsFirst(routes, b);
    RouteAt(net, index, subnet, i);
    RouteAt(net, index, subnet, 0);
    RouteAt(net, index, subnet, 1);
    RouteAt(net, index, subnet, 2);
    RouteFor(net, index, subnet, subnet);
    NoLongerBlock(table, a, subnet);
    assert b in routes;
    SameLengthSameBlock(b.dst, subnet, a);
  }

  /** Exactly when the next hop is the destination itself, on the link, and otherwise it is the subnet's
      gateway. */
  lemma LinkMeaning(net: Network, index: int, subnet: Block, a: Addr)
    requires AllCanonical(CompiledRoutes(net, index, subnet))
    requires Best(Install([], CompiledRoutes(net, index, subnet)), a).Some?
    ensures Best(Install([], CompiledRoutes(net, index, subnet)), a).value.gw
            == if OnLink(net, subnet, a) then None else Some(Gateway(subnet))
  {
    var routes := CompiledRoutes(net, index, subnet);
    var b := Best(Install([], routes), a).value;
    if OnLink(net, subnet, a) {
      OnLinkIsLinked(net, index, subnet, a);
    } else if b.gw.None? {
      LinkedIsOnLink(net, index, subnet, a);
    } else {
      BestMeaning(Install([], routes), a);
      InstallMeaning(routes);
      var i: nat :| i < |routes| && routes[i] == b;
      RouteAt(net, index, subnet, i);
    }
  }

  /** The ENI's table answers for every destination. With masquerading on, a destination leaves by
      the ENI exactly when it is in the service, cluster, ENI-subnet or VPC-routed blocks, and
      otherwise by the primary interface, whether the blocks overlap, repeat or are everything. With
      masquerading off, everything leaves by the ENI. Either way the next hop is the subnet's gateway,
      except exactly when the subnet's own route decides: then it is the destination itself. */
  lemma TableRoutesEveryPacket(net: Network, index: int, subnet: Block, a: Addr)
    requires AllCanonical(CompiledRoutes(net, index, subnet))
    ensures var hop := Best(Install([], CompiledRoutes(net, index, subnet)), a);
            && hop.Some?
            && hop.value.dev
               == (if net.podIPMasq && !StaysOnEni(net, subnet, a) then PrimaryDevice else EniDevice(index))
            && hop.value.dst.Contains(a)
            && hop.value.gw == (if OnLink(net, subnet, a) then None else Some(Gateway(subnet)))
  {
    var routes, specific := CompiledRoutes(net, index, subnet), SpecificRoutes(net, index, subnet);
    var def := DefaultRoute(net, index, subnet);
    var table, before := Install([], routes), Install([], specific);
    assert routes[..|routes| - 1] == specific;
    assert table == AddRoute(before, def);
    BestMeaning(table, a);
    InstallMeaning(routes);
    InstallMeaning(specific);
    EverywhereContainsAll(a);
    assert def in routes;
    var d :| d in table && d.dst == EVERYWHERE;
    assert d.dst.Contains(a);
    LinkMeaning(net, index, subnet, a);
    if net.podIPMasq {
      SpecificMeaning(net, index, subnet, a);
      if StaysOnEni(net, subnet, a) {
        var r :| r in specific && r.dst.Contains(a);
        var q :| q in before && q.dst == r.dst;
        assert q in table && r in routes;
        SpecificBeatsDefault(table, before, def, q, a);
      }
    }
  }

  /** If a specific route matches, the default route is not the answer: either it is shorter, or it
      has the same destination and was never added. */
  lemma SpecificBeatsDefault(table: seq<Route>, before: seq<Route>, def: Route, q: Route, a: Addr)
    requires table == AddRoute(before, def) && def.dst == EVERYWHERE
    requires q in before && q.dst.Canonical() && q.dst.Contains(a) && Best(table, a).Some?
    ensures Best(table, a).value in before
  {
    BestMeaning(table, a);
    var b := Best(table, a).value;
    assert q in table;
    EverywhereContainsAll(a);
    if b == def && q.dst.bits == 0 {
      SameLengthSameBlock(q.dst, EVERYWHERE, a);
    }
  }
}
