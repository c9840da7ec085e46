/** What a host configured for a set of ENIs does with every packet: rule order, table choice, and
    what it leaves alone (pkg/ifmgr/ifmgr_linux.go:146-181). */
module Packets {
  import opened Net
  import opened Routing

  // ------------------------------------------------------------------ rules

  predicate Ascending(rules: seq<Rule>) {
    forall i, j :: 0 <= i < j < |rules| ==> rules[i].priority <= rules[j].priority
  }

  lemma {:induction false} InsertRuleElements(rules: seq<Rule>, r: Rule, x: Rule)
    ensures x in InsertRule(rules, r) <==> x == r || x in rules
  {
    if rules != [] && rules[0].priority <= r.priority {
      InsertRuleElements(rules[1..], r, x);
      assert rules == [rules[0]] + rules[1..];
    }
  }

  lemma {:induction false} InsertRulesElements(rules: seq<Rule>, more: seq<Rule>, x: Rule)
    ensures x in InsertRules(rules, more) <==> x in more || x in rules
  {
    if more != [] {
      var n := |more| - 1;
      InsertRulesElements(rules, more[..n], x);
      InsertRuleElements(InsertRules(rules, more[..n]), more[n], x);
      assert more == more[..n] + [more[n]];
    }
  }

  lemma {:induction false} InsertRuleAscends(rules: seq<Rule>, r: Rule)
    requires Ascending(rules)
    ensures Ascending(InsertRule(rules, r))
  {
    if rules != [] && rules[0].priority <= r.priority {
      var rest := InsertRule(rules[1..], r);
      InsertRuleAscends(rules[1..], r);
      forall i | 0 <= i < |rest|
        ensures rules[0].priority <= rest[i].priority
      {
        InsertRuleElements(rules[1..], r, rest[i]);
      }
    }
  }

  lemma {:induction false} InsertRulesAscends(rules: seq<Rule>, more: seq<Rule>)
    requires Ascending(rules)
    ensures Ascending(InsertRules(rules, more))
  {
    if more != [] {
      var n := |more| - 1;
      InsertRulesAscends(rules, more[..n]);
      InsertRuleAscends(InsertRules(rules, more[..n]), more[n]);
    }
  }

  predicate RuleOf(r: Rule, pods: seq<Addr>, index: int) {
    exists ip :: ip in pods && (r == ToRule(ip) || r == FromRule(ip, index))
  }

  lemma {:induction false} CompiledRulesMeaning(pods: seq<Addr>, index: int, r: Rule)
    ensures r in CompiledRules(pods, index) <==> RuleOf(r, pods, index)
  {
    if pods != [] {
      var n := |pods| - 1;
      CompiledRulesMeaning(pods[..n], index, r);
      assert pods == pods[..n] + [pods[n]];
      if RuleOf(r, pods, index) && !RuleOf(r, pods[..n], index) {
        var ip :| ip in pods && (r == ToRule(ip) || r == FromRule(ip, index));
        assert ip == pods[n];
      }
    }
  }

  /** In an ascending rule list, if a rule selects the packet and its table has a route, and every
      selecting rule that comes no later and has a route names the same table, that table decides. */
  lemma {:induction false} ScanResolves(rules: seq<Rule>, k: Kernel, src: Addr, dst: Addr, rule: Rule)
    requires Ascending(rules) && rule in rules && Selects(rule, src, dst)
    requires Best(TableOf(k, rule.table), dst).Some?
    requires forall r | r in rules && Selects(r, src, dst) && r.priority <= rule.priority
                        && Best(TableOf(k, r.table), dst).Some? :: r.table == rule.table
    ensures Scan(rules, k, src, dst) == Some(Hop(rule.table, Best(TableOf(k, rule.table), dst).value))
  {
    var head := rules[0];
    assert head in rules && head.priority <= rule.priority;
    if !(Selects(head, src, dst) && Best(TableOf(k, head.table), dst).Some?) {
      assert rule in rules[1..];
      ScanResolves(rules[1..], k, src, dst, rule);
    }
  }

  lemma HostContains(ip: Addr, a: Addr)
    ensures Host(ip).Contains(a) <==> a == ip
  {
  }

  // ------------------------------------------------------- a configured host

  ghost predicate RulesFor(rules: seq<Rule>, enis: seq<ENI>) {
    && Ascending(rules)
    && (forall r :: r in BASE_RULES ==> r in rules)
    && (forall e, r :: e in enis && RuleOf(r, e.ips, e.index) ==> r in rules)
    && (forall r :: r in rules ==> r in BASE_RULES || exists e :: e in enis && RuleOf(r, e.ips, e.index))
  }

  predicate TableFor(k: Kernel, net: Network, e: ENI) {
    && TableOf(k, TableNumber(e.index)) == Install([], CompiledRoutes(net, e.index, e.cidr))
    && AllCanonical(CompiledRoutes(net, e.index, e.cidr))
  }

  /** Routes and rules for exactly these ENIs are installed. */
  ghost predicate Wired(k: Kernel, net: Network, enis: seq<ENI>) {
    RulesFor(k.rules, enis) && forall e :: e in enis ==> TableFor(k, net, e)
  }

  /** Only the local table, the to-rule of a pod and the from-rule of a pod can select a packet before
      the main table's own turn. */
  lemma EarlyRules(rules: seq<Rule>, enis: seq<ENI>, r: Rule, src: Addr, dst: Addr)
    requires RulesFor(rules, enis) && r in rules && Selects(r, src, dst) && r.priority <= SRC_PRIO
    ensures || r.table == LOCAL_TABLE
            || (r == ToRule(dst) && dst in Pool(enis))
            || exists e :: e in enis && src in e.ips && r == FromRule(src, e.index)
  {
    if r !in BASE_RULES {
      var e :| e in enis && RuleOf(r, e.ips, e.index);
      var ip :| ip in e.ips && (r == ToRule(ip) || r == FromRule(ip, e.index));
      HostContains(ip, src);
      HostContains(ip, dst);
      InPool(enis, ip);
    }
  }

  /** Packet routing: a packet from a pod address to anywhere that is neither the host itself nor a
      local pod is resolved in the table of the ENI that owns the address, and never falls through.
      It leaves by that ENI, or by the primary interface if masquerading is on and the destination
      is in none of the blocks that stay on the ENI; through the subnet's gateway, unless the subnet's
      own block decides. */
  lemma PodPacket(k: Kernel, net: Network, enis: seq<ENI>, e: ENI, src: Addr, dst: Addr)
    requires Wired(k, net, enis) && e in enis && src in e.ips
    requires forall f :: f in enis && src in f.ips ==> f.index == e.index
    requires dst !in Pool(enis) && Best(TableOf(k, LOCAL_TABLE), dst).None?
    ensures Resolve(k, src, dst).Some? && Resolve(k, src, dst).value.table == TableNumber(e.index)
    ensures Resolve(k, src, dst).value.route.dev
            == if net.podIPMasq && !StaysOnEni(net, e.cidr, dst) then PrimaryDevice else EniDevice(e.index)
    ensures Resolve(k, src, dst).value.route.gw
            == if OnLink(net, e.cidr, dst) then None else Some(Gateway(e.cidr))
  {
    var rule := FromRule(src, e.index);
    assert RuleOf(rule, e.ips, e.index);
    assert TableFor(k, net, e);
    HostContains(src, src);
    EverywhereContainsAll(dst);
    TableRoutesEveryPacket(net, e.index, e.cidr, dst);
    forall r | r in k.rules && Selects(r, src, dst) && r.priority <= rule.priority
               && Best(TableOf(k, r.table), dst).Some?
      ensures r.table == rule.table
    {
      EarlyRules(k.rules, enis, r, src, dst);
    }
    ScanResolves(k.rules, k, src, dst, rule);
  }

  /** A packet to a local pod, from anywhere, is resolved in the main table if the main table has a
      route for it. */
  lemma PacketToLocalPod(k: Kernel, net: Network, enis: seq<ENI>, src: Addr, dst: Addr)
    requires Wired(k, net, enis) && dst in Pool(enis)
    requires Best(TableOf(k, LOCAL_TABLE), dst).None? && Best(TableOf(k, MAIN_TABLE), dst).Some?
    ensures Resolve(k, src, dst) == Some(Hop(MAIN_TABLE, Best(TableOf(k, MAIN_TABLE), dst).value))
  {
    InPool(enis, dst);
    var e :| e in enis && dst in e.ips;
    var rule := ToRule(dst);
    assert RuleOf(rule, e.ips, e.index);
    HostContains(dst, dst);
    EverywhereContainsAll(src);
    forall r | r in k.rules && Selects(r, src, dst) && r.priority <= rule.priority
               && Best(TableOf(k, r.table), dst).Some?
      ensures r.table == rule.table
    {
      EarlyRules(k.rules, enis, r, src, dst);
    }
    ScanResolves(k.rules, k, src, dst, rule);
  }

  lemma OurPriorities(rules: seq<Rule>, enis: seq<ENI>, r: Rule)
    requires RulesFor(rules, enis) && r in rules
    ensures r in BASE_RULES || r.priority in {DST_PRIO, SRC_PRIO}
  {
  }

  /** A packet to the host itself never leaves it. */
  lemma PacketToHost(k: Kernel, net: Network, enis: seq<ENI>, src: Addr, dst: Addr)
    requires Wired(k, net, enis) && Best(TableOf(k, LOCAL_TABLE), dst).Some?
    ensures Resolve(k, src, dst) == Some(Hop(LOCAL_TABLE, Best(TableOf(k, LOCAL_TABLE), dst).value))
  {
    var rule := BASE_RULES[0];
    assert rule in BASE_RULES;
    EverywhereContainsAll(src);
    EverywhereContainsAll(dst);
    forall r | r in k.rules && r.priority <= rule.priority
      ensures r.table == rule.table
    {
      OurPriorities(k.rules, enis, r);
    }
    ScanResolves(k.rules, k, src, dst, rule);
  }

  // ----------------------------------------------- what configuring preserves

  lemma RulesExtend(rules: seq<Rule>, enis: seq<ENI>, e: ENI)
    requires RulesFor(rules, enis)
    ensures RulesFor(InsertRules(rules, CompiledRules(e.ips, e.index)), enis + [e])
  {
    var rules' := InsertRules(rules, CompiledRules(e.ips, e.index));
    InsertRulesAscends(rules, CompiledRules(e.ips, e.index));
    forall r
      ensures r in rules' <==> RuleOf(r, e.ips, e.index) || r in rules
    {
      CompiledRulesMeaning(e.ips, e.index, r);
      InsertRulesElements(rules, CompiledRules(e.ips, e.index), r);
    }
    forall r | r in rules' && r !in BASE_RULES
      ensures exists f :: f in enis + [e] && RuleOf(r, f.ips, f.index)
    {
      if RuleOf(r, e.ips, e.index) {
        assert e in enis + [e];
      } else {
        var f :| f in enis && RuleOf(r, f.ips, f.index);
        assert f in enis + [e];
      }
    }
  }

  /** A successful ConfigureRoutes for one more ENI, into a table that was empty, extends the set of
      ENIs the host is configured for. */
  lemma ConfigureExtendsWired(k: Kernel, net: Network, enis: seq<ENI>, e: ENI, failAt: nat)
    requires Wired(k, net, enis) && TableOf(k, TableNumber(e.index)) == []
    requires forall f :: f in enis ==> f.index != e.index
    requires Configured(k, net, e.index, e.cidr, e.ips, failAt).1
    ensures Wired(Configured(k, net, e.index, e.cidr, e.ips, failAt).0, net, enis + [e])
  {
    var k' := Configured(k, net, e.index, e.cidr, e.ips, failAt).0;
    ConfiguredMeaning(k, net, e.index, e.cidr, e.ips, failAt);
    RulesExtend(k.rules, enis, e);
    forall f | f in enis + [e]
      ensures TableFor(k', net, f)
    {
      if f in enis {
        assert TableFor(k, net, f);
      }
    }
  }

  /** The first `d` routes are added, and then one is refused, if any are left: it is call number
      `failAt`, or has host bits set. */
  predicate RefusedAt(routes: seq<Route>, failAt: nat, d: nat) {
    && d <= |routes| && (forall i :: 0 <= i < d ==> i != failAt && routes[i].dst.Canonical())
    && (d < |routes| ==> d == failAt || !routes[d].dst.Canonical())
  }

  lemma {:induction false} RefusedIsDone(routes: seq<Route>, from: nat, failAt: nat, d: nat)
    requires from <= d && RefusedAt(routes, failAt, d)
    ensures RoutesDone(routes, from, failAt) == d
    decreases d - from
  {
    if from < d {
      RefusedIsDone(routes, from + 1, failAt, d);
    }
  }

  /** A call that may be refused anywhere leaves in an empty table exactly the routes before the refused
      one. */
  lemma PartialRoutes(k: Kernel, net: Network, e: ENI, failAt: nat, d: nat, r: Route)
    requires TableOf(k, TableNumber(e.index)) == [] && RefusedAt(CompiledRoutes(net, e.index, e.cidr), failAt, d)
    ensures var before := CompiledRoutes(net, e.index, e.cidr)[..d];
            var k' := Configured(k, net, e.index, e.cidr, e.ips, failAt).0;
            var table := TableOf(k', TableNumber(e.index));
            (r in table ==> r in before) && (r in before ==> HasDst(table, r.dst))
  {
    RefusedIsDone(CompiledRoutes(net, e.index, e.cidr), 0, failAt, d);
    InstallMeaning(CompiledRoutes(net, e.index, e.cidr)[..d]);
  }

  lemma InFront(rules: seq<Rule>, m: nat, x: Rule)
    requires m <= |rules|
    ensures x in rules[..m] <==> exists i: nat :: i < m && rules[i] == x
  {
    if i: nat :| i < m && rules[i] == x {
      assert rules[..m][i] == x;
    }
    if x in rules[..m] {
      var i: nat :| i < m && rules[..m][i] == x;
      assert rules[i] == x;
    }
  }

  /** The rule's own call comes before the refused one. */
  predicate AddedBefore(net: Network, e: ENI, failAt: nat, i: nat, x: Rule) {
    && i < |CompiledRules(e.ips, e.index)| && CompiledRules(e.ips, e.index)[i] == x
    && |CompiledRoutes(net, e.index, e.cidr)| + i < failAt
  }

  /** And of the rules, if it got that far, exactly those before the refused call. */
  lemma PartialRules(k: Kernel, net: Network, e: ENI, failAt: nat, d: nat, x: Rule)
    requires RefusedAt(CompiledRoutes(net, e.index, e.cidr), failAt, d)
    ensures x in Configured(k, net, e.index, e.cidr, e.ips, failAt).0.rules
            <==> x in k.rules
                 || (d == |CompiledRoutes(net, e.index, e.cidr)| && exists i: nat :: AddedBefore(net, e, failAt, i, x))
  {
    var n, rules := |CompiledRoutes(net, e.index, e.cidr)|, CompiledRules(e.ips, e.index);
    RefusedIsDone(CompiledRoutes(net, e.index, e.cidr), 0, failAt, d);
    if d == n {
      var m := if failAt >= n + |rules| then |rules| else if failAt >= n then failAt - n else 0;
      InsertRulesElements(k.rules, rules[..m], x);
      InFront(rules, m, x);
      if i: nat :| AddedBefore(net, e, failAt, i, x) {
        assert i < m && rules[i] == x;
      }
      if i: nat :| i < m && rules[i] == x {
        assert AddedBefore(net, e, failAt, i, x);
      }
    }
  }

  /** The kernel's own tables are never written, for any index the controller gives out. */
  lemma KernelTablesUntouched(k: Kernel, net: Network, e: ENI, failAt: nat, t: int)
    requires 1 <= e.index <= 14 && t in {LOCAL_TABLE, MAIN_TABLE, DEFAULT_TABLE}
    ensures TableOf(Configured(k, net, e.index, e.cidr, e.ips, failAt).0, t) == TableOf(k, t)
  {
  }

  lemma {:induction false} InsertIrrelevant(rules: seq<Rule>, r: Rule, k: Kernel, src: Addr, dst: Addr)
    requires !Selects(r, src, dst)
    ensures Scan(InsertRule(rules, r), k, src, dst) == Scan(rules, k, src, dst)
  {
    if rules == [] || rules[0].priority > r.priority {
      assert ([r] + rules)[1..] == rules;
    } else {
      assert InsertRule(rules, r)[1..] == InsertRule(rules[1..], r);
      InsertIrrelevant(rules[1..], r, k, src, dst);
    }
  }

  lemma {:induction false} InsertAllIrrelevant(rules: seq<Rule>, more: seq<Rule>, k: Kernel, src: Addr, dst: Addr)
    requires forall r :: r in more ==> !Selects(r, src, dst)
    ensures Scan(InsertRules(rules, more), k, src, dst) == Scan(rules, k, src, dst)
  {
    if more != [] {
      var n := |more| - 1;
      InsertAllIrrelevant(rules, more[..n], k, src, dst);
      InsertIrrelevant(InsertRules(rules, more[..n]), more[n], k, src, dst);
    }
  }

  lemma {:induction false} ScanSameTables(rules: seq<Rule>, k: Kernel, k': Kernel, t: int, src: Addr, dst: Addr)
    requires forall u :: u != t ==> TableOf(k, u) == TableOf(k', u)
    requires forall r :: r in rules && Selects(r, src, dst) ==> r.table != t
    ensures Scan(rules, k, src, dst) == Scan(rules, k', src, dst)
  {
    if rules != [] {
      ScanSameTables(rules[1..], k, k', t, src, dst);
    }
  }

  /** Whatever ConfigureRoutes does, succeed or fail half way, packets that are neither from nor to
      the new pod addresses go where they went before. */
  lemma OtherTrafficUnchanged(k: Kernel, net: Network, e: ENI, failAt: nat, src: Addr, dst: Addr)
    requires src !in e.ips && dst !in e.ips
    requires forall r :: r in k.rules && Selects(r, src, dst) ==> r.table != TableNumber(e.index)
    ensures Resolve(Configured(k, net, e.index, e.cidr, e.ips, failAt).0, src, dst) == Resolve(k, src, dst)
  {
    var k' := Configured(k, net, e.index, e.cidr, e.ips, failAt).0;
    var rules := CompiledRules(e.ips, e.index);
    ScanSameTables(k.rules, k, k', TableNumber(e.index), src, dst);
    forall r | r in rules
      ensures !Selects(r, src, dst)
    {
      CompiledRulesMeaning(e.ips, e.index, r);
      var ip :| ip in e.ips && (r == ToRule(ip) || r == FromRule(ip, e.index));
      HostContains(ip, src);
      HostContains(ip, dst);
    }
    if k'.rules != k.rules {
      var m :| 0 <= m <= |rules| && k'.rules == InsertRules(k.rules, rules[..m]);
      InsertAllIrrelevant(k.rules, rules[..m], k', src, dst);
    }
  }
}
