/** The interface manager: the loops that change the host's links, routes, rules and NAT chains
    (pkg/ifmgr/ifmgr_linux.go:25-248). */
module IfManager {
  import opened Net
  import opened Routing
  import opened Masquerade

  /** `links`: the indices whose interface name exists on the host. */
  datatype HostState = HostState(links: set<int>, kernel: Kernel, ipt: Nat)

  /** How configuring the link ends: no link with the MAC address is found, or one of the three calls
      on it is refused, or all succeed. The name is given first. */
  datatype LinkResult = NotFound | RenameRefused | AddressRefused | UpRefused | Configured {
    predicate Named() {
      !NotFound? && !RenameRefused?
    }
  }

  // -------------------------------------------------------------- the host

  type Octet = x: int | 0 <= x < 256

  function OctetValue(a: seq<Octet>): int
    requires |a| == 4
  {
    (a[0] as int) * 0x100_0000 + (a[1] as int) * 0x1_0000 + (a[2] as int) * 0x100 + a[3] as int
  }

  function OctetsOf(a: Addr): (o: seq<Octet>)
    ensures |o| == 4 && OctetValue(o) == a && o[3] == a % 256
  {
    var high := a / 256;
    var higher := high / 256;
    [higher / 256, higher % 256, high % 256, a % 256]
  }

  /** The gateway: a new copy of the subnet's four octets, the last one incremented in place. */
  method GatewayOctets(subnet: Block) returns (gw: array<Octet>)
    ensures fresh(gw) && gw.Length == 4 && OctetValue(gw[..]) == Gateway(subnet)
  {
    var o := OctetsOf(subnet.base);
    gw := new Octet[4](i requires 0 <= i < 4 => o[i]);
    gw[3] := (gw[3] as int + 1) % 256;
    assert gw[..] == o[3 := (o[3] as int + 1) % 256];
  }

  /** The chains after the first k pods' jumps, and after their redirects. */
  function JumpsTo(post: seq<NatRule>, pods: seq<Addr>, k: nat): seq<NatRule>
    requires k <= |pods|
  {
    if k == 0 then post else Ensure(JumpsTo(post, pods, k - 1), JumpFrom(pods[k - 1]))
  }

  function RedirectsTo(pre: seq<NatRule>, net: Network, hostIP: Addr, pods: seq<Addr>, k: nat): seq<NatRule>
    requires k <= |pods|
  {
    if k == 0 || net.redirectPort == 0 then pre
    else Ensure(RedirectsTo(pre, net, hostIP, pods, k - 1), Redirect(pods[k - 1], hostIP, net.redirectPort))
  }

  lemma {:induction false} JumpsToMeaning(post: seq<NatRule>, pods: seq<Addr>, k: nat)
    requires k <= |pods|
    ensures JumpsTo(post, pods, k) == EnsureAll(post, Jumps(pods[..k]))
  {
    if k > 0 {
      JumpsToMeaning(post, pods, k - 1);
      assert Jumps(pods[..k])[..k - 1] == Jumps(pods[..k - 1]);
    }
  }

  lemma {:induction false} RedirectsToMeaning(pre: seq<NatRule>, net: Network, hostIP: Addr, pods: seq<Addr>, k: nat)
    requires k <= |pods|
    ensures RedirectsTo(pre, net, hostIP, pods, k) == EnsureAll(pre, Redirects(net, hostIP, pods[..k]))
  {
    if k > 0 && net.redirectPort != 0 {
      RedirectsToMeaning(pre, net, hostIP, pods, k - 1);
      assert Redirects(net, hostIP, pods[..k])[..k - 1] == Redirects(net, hostIP, pods[..k - 1]);
    }
  }

  /** Running out of calls at pod k, after none or one of its own. */
  lemma StopsAt(net: Network, n: nat, k: nat, calls: nat, left: nat)
    requires k < n && calls < (if net.redirectPort == 0 then 1 else 2)
    requires left == calls + if net.redirectPort == 0 then k else 2 * k
    ensures JumpsDone(net, n, left) == k + calls
    ensures RedirectsDone(net, n, left) == if net.redirectPort == 0 then n else k
  {
  }

  lemma Completes(net: Network, n: nat, left: nat)
    requires left >= if net.redirectPort == 0 then n else 2 * n
    ensures JumpsDone(net, n, left) == n == RedirectsDone(net, n, left)
  {
  }

  lemma NoPodsYet(net: Network, hostIP: Addr, pods: seq<Addr>)
    ensures Jumps(pods[..JumpsDone(net, |pods|, 0)]) == []
    ensures Redirects(net, hostIP, pods[..RedirectsDone(net, |pods|, 0)]) == []
  {
  }

  class Host {
    var links: set<int>
    var tables: map<int, seq<Route>>
    var rules: seq<Rule>
    var chain: seq<NatRule>
    var post: seq<NatRule>
    var pre: seq<NatRule>

    constructor (h: HostState)
      ensures State() == h
    {
      links, tables, rules := h.links, h.kernel.tables, h.kernel.rules;
      chain, post, pre := h.ipt.chain, h.ipt.post, h.ipt.pre;
    }

    function State(): HostState
      reads this
    {
      HostState(links, Kernel(tables, rules), Nat(chain, post, pre))
    }

    /** The kernel's RouteAdd: refused for host bits, and as a duplicate for a destination it has. */
    method RouteAdd(t: int, r: Route) returns (invalid: bool)
      modifies this`tables
      ensures invalid == !r.dst.Canonical()
      ensures tables == if invalid then old(tables)
                        else old(tables)[t := AddRoute(TableOf(old(State().kernel), t), r)]
    {
      invalid := !r.dst.Canonical();
      if !invalid {
        var table := if t in tables then tables[t] else [];
        tables := tables[t := AddRoute(table, r)];
      }
    }

    method RuleAdd(r: Rule)
      modifies this`rules
      ensures rules == InsertRule(old(rules), r)
    {
      var k := 0;
      while k < |rules| && rules[k].priority <= r.priority
        invariant k <= |rules|
        invariant InsertRule(rules, r) == rules[..k] + InsertRule(rules[k..], r)
      {
        assert rules[k..][1..] == rules[k + 1..];
        assert rules[..k + 1] == rules[..k] + [rules[k]];
        k := k + 1;
      }
      assert InsertRule(rules[k..], r) == [r] + rules[k..];
      rules := rules[..k] + [r] + rules[k..];
    }

    /** Building the route list. */
    method BuildRoutes(net: Network, index: int, subnet: Block) returns (routes: seq<Route>)
      ensures routes == CompiledRoutes(net, index, subnet)
    {
      var octets := GatewayOctets(subnet);
      var value := OctetValue(octets[..]);
      var gw: Addr := value;
      routes := [Route(net.service, EniDevice(index), Some(gw)), Route(net.cluster, EniDevice(index), Some(gw))];
      assert routes == ViaGateway([net.service, net.cluster], index, gw);
      if net.podIPMasq {
        routes := routes + [Route(subnet, EniDevice(index), None)];
        ghost var before := routes;
        for k := 0 to |net.vpcRouted|
          invariant routes == before + ViaGateway(net.vpcRouted[..k], index, gw)
        {
          assert ViaGateway(net.vpcRouted[..k + 1], index, gw)
              == ViaGateway(net.vpcRouted[..k], index, gw) + [Route(net.vpcRouted[k], EniDevice(index), Some(gw))];
          routes := routes + [Route(net.vpcRouted[k], EniDevice(index), Some(gw))];
        }
        assert net.vpcRouted[..|net.vpcRouted|] == net.vpcRouted;
        assert routes == SpecificRoutes(net, index, subnet);
        routes := routes + [Route(EVERYWHERE, PrimaryDevice, Some(gw))];
      } else {
        assert routes == SpecificRoutes(net, index, subnet);
        routes := routes + [Route(EVERYWHERE, EniDevice(index), Some(gw))];
      }
    }

    method BuildRules(pods: seq<Addr>, index: int) returns (r: seq<Rule>)
      ensures r == CompiledRules(pods, index)
    {
      r := [];
      for k := 0 to |pods|
        invariant r == CompiledRules(pods[..k], index)
      {
        assert pods[..k + 1][..k] == pods[..k];
        r := r + [ToRule(pods[k]), FromRule(pods[k], index)];
      }
      assert pods[..|pods|] == pods;
    }

    method AddRoutes(t: int, routes: seq<Route>, failAt: nat) returns (done: nat)
      modifies this`tables
      ensures done == RoutesDone(routes, 0, failAt)
      ensures tables == old(tables)[t := Install(TableOf(old(State().kernel), t), routes[..done])]
      ensures done <= |routes|
    {
      done := 0;
      tables := tables[t := if t in tables then tables[t] else []];
      while done < |routes|
        invariant done <= |routes| && RoutesDone(routes, 0, failAt) == RoutesDone(routes, done, failAt)
        invariant tables == old(tables)[t := Install(TableOf(old(State().kernel), t), routes[..done])]
      {
        if done == failAt {
          return;
        }
        var invalid := RouteAdd(t, routes[done]);
        if invalid {
          return;
        }
        assert routes[..done + 1][..done] == routes[..done];
        done := done + 1;
      }
    }

    method AddRules(more: seq<Rule>, limit: nat) returns (done: nat)
      modifies this`rules
      ensures done == if limit < |more| then limit else |more|
      ensures rules == InsertRules(old(rules), more[..done])
    {
      done := 0;
      while done < |more|
        invariant done <= |more| && done <= limit
        invariant rules == InsertRules(old(rules), more[..done])
      {
        if done == limit {
          return;
        }
        RuleAdd(more[done]);
        assert more[..done + 1][..done] == more[..done];
        done := done + 1;
      }
    }

    method ConfigureRoutes(net: Network, index: int, subnet: Block, pods: seq<Addr>, ready: bool, failAt: nat)
      returns (ok: bool)
      modifies this`tables, this`rules
      ensures !ready ==> !ok && State() == old(State())
      ensures ready ==>
                (State().kernel, ok) == Routing.Configured(old(State().kernel), net, index, subnet, pods, failAt)
    {
      if !ready {
        return false;
      }
      var routes := BuildRoutes(net, index, subnet);
      var done := AddRoutes(TableNumber(index), routes, failAt);
      RoutesDoneMeaning(routes, 0, failAt);
      if done < |routes| {
        return false;
      }
      var more := BuildRules(pods, index);
      var added := AddRules(more, failAt - |routes|);
      ok := added == |more|;
    }

    method EnsureRule(r: NatRule)
      modifies this`chain
      ensures chain == Ensure(old(chain), r)
    {
      if r !in chain {
        chain := chain + [r];
      }
    }

    method BuildChain(net: Network) returns (rules: seq<NatRule>)
      ensures rules == ChainRules(net)
    {
      var nets := [net.cluster, net.service, MULTICAST];
      for k := 0 to |net.vpcRouted|
        invariant nets == [net.cluster, net.service, MULTICAST] + net.vpcRouted[..k]
      {
        nets := nets + [net.vpcRouted[k]];
      }
      assert nets == NonMasqueraded(net);
      rules := [];
      for k := 0 to |nets|
        invariant rules == Accepts(nets[..k])
      {
        assert Accepts(nets[..k + 1]) == Accepts(nets[..k]) + [Accept(nets[k])];
        rules := rules + [Accept(nets[k])];
      }
      assert nets[..|nets|] == nets;
      rules := rules + [MasqueradeAll];
    }

    method EnsureChain(more: seq<NatRule>, failAt: nat) returns (ok: bool)
      modifies this`chain
      ensures chain == EnsureAll(old(chain), more[..Min(|more|, failAt)]) && (ok <==> |more| <= failAt)
    {
      for k := 0 to |more|
        invariant k <= failAt && chain == EnsureAll(old(chain), more[..k])
      {
        if k == failAt {
          return false;
        }
        assert more[..k + 1][..k] == more[..k];
        EnsureRule(more[k]);
      }
      ok := true;
    }

    /** The loop over the pods: a jump each, and a redirect each if configured. */
    method EnsurePods(net: Network, hostIP: Addr, pods: seq<Addr>, left: nat) returns (ok: bool)
      modifies this`post, this`pre
      ensures post == JumpsTo(old(post), pods, JumpsDone(net, |pods|, left))
      ensures pre == RedirectsTo(old(pre), net, hostIP, pods, RedirectsDone(net, |pods|, left))
      ensures ok <==> JumpsDone(net, |pods|, left) == |pods| && RedirectsDone(net, |pods|, left) == |pods|
    {
      var calls := 0;
      for k := 0 to |pods|
        invariant calls == (if net.redirectPort == 0 then k else 2 * k) <= left
        invariant post == JumpsTo(old(post), pods, k)
        invariant pre == RedirectsTo(old(pre), net, hostIP, pods, k)
      {
        if calls == left {
          StopsAt(net, |pods|, k, 0, left);
          return false;
        }
        post := Ensure(post, JumpFrom(pods[k]));
        calls := calls + 1;
        if net.redirectPort != 0 {
          if calls == left {
            StopsAt(net, |pods|, k, 1, left);
            return false;
          }
          pre := Ensure(pre, Redirect(pods[k], hostIP, net.redirectPort));
          calls := calls + 1;
        }
      }
      Completes(net, |pods|, left);
      ok := true;
    }

    method ConfigureIPMasq(net: Network, hostIP: Addr, pods: seq<Addr>, ready: bool, failAt: nat) returns (ok: bool)
      modifies this`chain, this`post, this`pre
      ensures !ready ==> !ok && State() == old(State())
      ensures ready ==> (State().ipt, ok) == ConfiguredMasq(old(State().ipt), net, hostIP, pods, failAt)
    {
      if !ready {
        return false;
      }
      var more := BuildChain(net);
      ok := EnsureChain(more, failAt);
      if ok {
        JumpsToMeaning(post, pods, JumpsDone(net, |pods|, failAt - |more|));
        RedirectsToMeaning(pre, net, hostIP, pods, RedirectsDone(net, |pods|, failAt - |more|));
        ok := EnsurePods(net, hostIP, pods, failAt - |more|);
      } else {
        NoPodsYet(net, hostIP, pods);
      }
    }

    method InterfaceExists(index: int) returns (exists_: bool)
      ensures exists_ == (index in links)
    {
      exists_ := index in links;
    }

    /** Find the link, rename it, give it its address, bring it up. */
    method ConfigureInterface(index: int, result: LinkResult) returns (ok: bool)
      modifies this`links
      ensures ok == result.Configured?
      ensures links == if result.Named() then old(links) + {index} else old(links)
    {
      if result.NotFound? {
        return false;
      }
      if result.RenameRefused? {
        return false;
      }
      links := links + {index};
      if result.AddressRefused? {
        return false;
      }
      ok := !result.UpRefused?;
    }
  }
}
