/** When the daemon's setup of one interface leaves its addresses wired: with their rules, their route
    table and their NAT jumps. An interface whose name exists is not set up again, so an unfinished
    setup is never finished (cmd/vpcnet-daemon/ifcontroller/controller.go:229-280). */
module Wiring {
  import opened Net
  import opened EniController
  import opened Provisioning
  import opened Routing
  import opened Packets
  import opened Masquerade
  import opened IfManager
  import opened IfController

  /** No instance type allows more than 15 interfaces, the primary one included. */
  const MAX_INDEX := 14

  // ------------------------------------------------------- a configured host

  /** The interface, as it was created, is attached at its own index. */
  predicate Deployed(e: ENI, ec2: Ec2) {
    e.id in ec2.created && ec2.created[e.id] == e && AttachmentOf(e) in ec2.attached && 1 <= e.index <= MAX_INDEX
  }

  lemma OneDeployed(e: ENI, f: ENI, ec2: Ec2)
    requires OnePerDevice(ec2) && Deployed(e, ec2) && Deployed(f, ec2) && e.index == f.index
    ensures e == f
  {
    assert AttachmentOf(e) == AttachmentOf(f);
  }

  /** Two deployed interfaces do not share addresses. */
  lemma DeployedApart(e: ENI, f: ENI, ec2: Ec2, ip: Addr)
    requires Ec2OK(ec2) && Deployed(e, ec2) && Deployed(f, ec2) && ip in e.ips && ip in f.ips
    ensures e == f
  {
    assert e.id != f.id ==> !Shares(ec2.created[e.id], ec2.created[f.id]);
  }

  /** The link named for index `i` is that of a deployed interface, one of `conf` unless it has no
      addresses for pods. */
  predicate LinkOf(i: int, e: ENI, ec2: Ec2, conf: seq<ENI>) {
    Deployed(e, ec2) && e.index == i && (e in conf || e.ips == [])
  }

  ghost predicate LinksOK(links: set<int>, ec2: Ec2, conf: seq<ENI>) {
    && (forall e :: e in conf ==> Deployed(e, ec2) && e.index in links)
    && forall i :: i in links ==> exists e :: LinkOf(i, e, ec2, conf)
  }

  predicate NoStrayTables(links: set<int>, k: Kernel) {
    forall i :: 1 <= i <= MAX_INDEX && i !in links ==> TableOf(k, TableNumber(i)) == []
  }

  /** The shared chain is as far as some call got, complete if anything is configured, and there are
      jumps for exactly the configured addresses. */
  ghost predicate NatOK(ipt: Nat, net: Network, conf: seq<ENI>) {
    && (exists k: nat :: ChainProgress(ipt, net, k))
    && (conf != [] ==> ipt.chain == Canonical(net))
    && forall ip :: JumpFrom(ip) in ipt.post <==> ip in Pool(conf)
  }

  /** The host is configured for exactly `conf`. */
  ghost predicate HostOK(h: HostState, ec2: Ec2, net: Network, conf: seq<ENI>) {
    && Wired(h.kernel, net, conf) && LinksOK(h.links, ec2, conf)
    && NoStrayTables(h.links, h.kernel) && NatOK(h.ipt, net, conf)
  }

  /** A host without our interfaces, rules, tables and chains. */
  predicate CleanHost(h: HostState) {
    h.links == {} && h.kernel.rules == BASE_RULES && h.ipt == NO_NAT && NoStrayTables({}, h.kernel)
  }

  lemma CleanHostOK(h: HostState, ec2: Ec2, net: Network)
    requires CleanHost(h)
    ensures HostOK(h, ec2, net, [])
  {
    assert ChainProgress(h.ipt, net, 0);
  }

  /** The rules and the jump of one address. */
  predicate AddressWired(h: HostState, ip: Addr, index: int) {
    && ToRule(ip) in h.kernel.rules && FromRule(ip, index) in h.kernel.rules
    && JumpFrom(ip) in h.ipt.post
  }

  /** The interface's table, the shared chain, and everything its addresses need. */
  predicate EniWired(h: HostState, net: Network, e: ENI) {
    && TableFor(h.kernel, net, e) && h.ipt.chain == Canonical(net)
    && forall ip :: ip in e.ips ==> AddressWired(h, ip, e.index)
  }

  lemma ConfiguredEniWired(h: HostState, net: Network, conf: seq<ENI>, e: ENI)
    requires Wired(h.kernel, net, conf) && NatOK(h.ipt, net, conf) && e in conf
    ensures EniWired(h, net, e)
  {
    assert TableFor(h.kernel, net, e);
    forall ip | ip in e.ips
      ensures AddressWired(h, ip, e.index)
    {
      assert RuleOf(ToRule(ip), e.ips, e.index) && RuleOf(FromRule(ip, e.index), e.ips, e.index);
      InPool(conf, ip);
    }
  }

  // ------------------------------------------------------------ one setup

  /** No route or rule is refused, and no block has host bits. */
  predicate RoutesFinish(cfg: HostConfig, e: ENI, s: Setup) {
    var routes := CompiledRoutes(cfg.net, e.index, e.cidr);
    AllCanonical(routes) && |routes| + |CompiledRules(e.ips, e.index)| <= s.routesFailAt
  }

  /** The answers under which a setup gets as far as the last jump: nothing is refused before it
      and the interface itself is brought up. What may be refused after it, the last address's metadata
      redirect, does not matter here. */
  predicate Finishes(cfg: HostConfig, e: ENI, s: Setup) {
    && s.link.Configured? && s.routesReady && s.masqReady && RoutesFinish(cfg, e, s)
    && |ChainRules(cfg.net)| + JumpCalls(cfg.net, |e.ips|) <= s.masqFailAt
  }

  /** The setup gives the interface its name. */
  predicate Names(h: HostState, e: ENI, s: Setup) {
    !s.existsFails && e.index !in h.links && s.link.Named()
  }

  function KernelAfter(h: HostState, cfg: HostConfig, e: ENI, s: Setup): Kernel {
    if s.link.Configured? && s.routesReady
    then Routing.Configured(h.kernel, cfg.net, e.index, e.cidr, e.ips, s.routesFailAt).0
    else h.kernel
  }

  /** The setup gets to the NAT rules. */
  predicate ReachesNat(h: HostState, cfg: HostConfig, e: ENI, s: Setup) {
    && s.link.Configured? && s.routesReady && s.masqReady
    && Routing.Configured(h.kernel, cfg.net, e.index, e.cidr, e.ips, s.routesFailAt).1
  }

  function NatAfter(h: HostState, cfg: HostConfig, e: ENI, s: Setup): Nat {
    if ReachesNat(h, cfg, e, s) then ConfiguredMasq(h.ipt, cfg.net, cfg.hostIP, e.ips, s.masqFailAt).0 else h.ipt
  }

  /** It also gets the last redirect in, so that it reports success. */
  predicate Reports(cfg: HostConfig, e: ENI, s: Setup) {
    && Finishes(cfg, e, s)
    && |ChainRules(cfg.net)| + (if cfg.net.redirectPort == 0 then |e.ips| else 2 * |e.ips|) <= s.masqFailAt
  }

  lemma NamedSetUp(h: HostState, cfg: HostConfig, e: ENI, s: Setup)
    requires Names(h, e, s)
    ensures SetUp(h, cfg, e, s).0
            == HostState(h.links + {e.index}, KernelAfter(h, cfg, e, s), NatAfter(h, cfg, e, s))
    ensures SetUp(h, cfg, e, s).1
            <==> ReachesNat(h, cfg, e, s) && ConfiguredMasq(h.ipt, cfg.net, cfg.hostIP, e.ips, s.masqFailAt).1
  {
  }

  lemma ReachesNatMeaning(h: HostState, cfg: HostConfig, e: ENI, s: Setup)
    ensures ReachesNat(h, cfg, e, s)
            <==> s.link.Configured? && s.routesReady && s.masqReady && RoutesFinish(cfg, e, s)
  {
    ConfiguredMeaning(h.kernel, cfg.net, e.index, e.cidr, e.ips, s.routesFailAt);
  }

  lemma SetUpMeaning(h: HostState, cfg: HostConfig, e: ENI, s: Setup)
    ensures SetUp(h, cfg, e, s).0
            == if Names(h, e, s) then HostState(h.links + {e.index}, KernelAfter(h, cfg, e, s), NatAfter(h, cfg, e, s))
               else h
    ensures SetUp(h, cfg, e, s).1
            <==> if Names(h, e, s) then Reports(cfg, e, s) else !s.existsFails && e.index in h.links
  {
    if Names(h, e, s) {
      NamedSetUp(h, cfg, e, s);
      ReachesNatMeaning(h, cfg, e, s);
      ConfiguredMasqOk(h.ipt, cfg.net, cfg.hostIP, e.ips, s.masqFailAt);
    }
  }

  // --------------------------------------------------- a setup that finishes

  lemma MoreJumps(post: seq<NatRule>, conf: seq<ENI>, e: ENI, ip: Addr)
    requires JumpFrom(ip) in post <==> ip in Pool(conf)
    ensures JumpFrom(ip) in EnsureAll(post, Jumps(e.ips)) <==> ip in Pool(conf + [e])
  {
    EnsureAllMeaning(post, Jumps(e.ips));
    JumpsMeaning(e.ips, ip);
    PoolAppend(conf, [e]);
    assert Pool([e]) == e.ips;
  }

  lemma MoreNat(ipt: Nat, cfg: HostConfig, conf: seq<ENI>, e: ENI, failAt: nat)
    requires NatOK(ipt, cfg.net, conf) && |ChainRules(cfg.net)| + JumpCalls(cfg.net, |e.ips|) <= failAt
    ensures NatOK(ConfiguredMasq(ipt, cfg.net, cfg.hostIP, e.ips, failAt).0, cfg.net, conf + [e])
  {
    var rules := ChainRules(cfg.net);
    var ipt' := ConfiguredMasq(ipt, cfg.net, cfg.hostIP, e.ips, failAt).0;
    assert ChainProgress(ipt', cfg.net, |rules|) by {
      var k: nat :| ChainProgress(ipt, cfg.net, k);
      CallsShareTheChain(ipt, cfg.net, cfg.hostIP, e.ips, k, failAt);
    }
    assert rules[..|rules|] == rules;
    assert ipt'.post == EnsureAll(ipt.post, Jumps(e.ips)) by {
      JumpsDoneMeaning(cfg.net, |e.ips|, failAt - |rules|);
      assert e.ips[..|e.ips|] == e.ips;
    }
    forall ip
      ensures JumpFrom(ip) in ipt'.post <==> ip in Pool(conf + [e])
    {
      MoreJumps(ipt.post, conf, e, ip);
    }
  }

  lemma NoMoreNat(ipt: Nat, cfg: HostConfig, conf: seq<ENI>, failAt: nat)
    requires NatOK(ipt, cfg.net, conf)
    ensures NatOK(ConfiguredMasq(ipt, cfg.net, cfg.hostIP, [], failAt).0, cfg.net, conf)
  {
    var k: nat :| ChainProgress(ipt, cfg.net, k);
    CallsShareTheChain(ipt, cfg.net, cfg.hostIP, [], k, failAt);
    if conf != [] {
      CompleteChainStays(ipt, cfg, failAt);
    }
    assert ConfiguredMasq(ipt, cfg.net, cfg.hostIP, [], failAt).0.post == ipt.post;
  }

  lemma CompleteChainStays(ipt: Nat, cfg: HostConfig, failAt: nat)
    requires ipt.chain == Canonical(cfg.net)
    ensures ConfiguredMasq(ipt, cfg.net, cfg.hostIP, [], failAt).0.chain == ipt.chain
  {
    assert ChainRules(cfg.net)[..|ChainRules(cfg.net)|] == ChainRules(cfg.net);
    CallsShareTheChain(ipt, cfg.net, cfg.hostIP, [], |ChainRules(cfg.net)|, failAt);
  }

  lemma MoreLinks(links: set<int>, ec2: Ec2, conf: seq<ENI>, e: ENI)
    requires LinksOK(links, ec2, conf) && Deployed(e, ec2)
    ensures LinksOK(links + {e.index}, ec2, conf + [e])
    ensures e.ips == [] ==> LinksOK(links + {e.index}, ec2, conf)
  {
    forall i | i in links + {e.index}
      ensures exists f :: LinkOf(i, f, ec2, conf + [e])
      ensures e.ips == [] ==> exists f :: LinkOf(i, f, ec2, conf)
    {
      if i in links {
        var f :| LinkOf(i, f, ec2, conf);
        assert LinkOf(i, f, ec2, conf + [e]);
      } else {
        assert LinkOf(i, e, ec2, conf + [e]);
        assert e.ips == [] ==> LinkOf(i, e, ec2, conf);
      }
    }
  }

  lemma MoreTables(links: set<int>, k: Kernel, net: Network, e: ENI, failAt: nat)
    requires NoStrayTables(links, k)
    ensures NoStrayTables(links + {e.index}, k)
    ensures NoStrayTables(links + {e.index}, Routing.Configured(k, net, e.index, e.cidr, e.ips, failAt).0)
  {
  }

  lemma FinishedKernel(h: HostState, cfg: HostConfig, enis: seq<ENI>, e: ENI, s: Setup)
    requires Wired(h.kernel, cfg.net, enis) && forall f :: f in enis ==> f.index != e.index
    requires TableOf(h.kernel, TableNumber(e.index)) == [] && Names(h, e, s) && Finishes(cfg, e, s)
    ensures Wired(SetUp(h, cfg, e, s).0.kernel, cfg.net, enis + [e])
  {
    SetUpMeaning(h, cfg, e, s);
    ConfiguredMeaning(h.kernel, cfg.net, e.index, e.cidr, e.ips, s.routesFailAt);
    ConfigureExtendsWired(h.kernel, cfg.net, enis, e, s.routesFailAt);
  }

  lemma FinishedNat(h: HostState, cfg: HostConfig, enis: seq<ENI>, e: ENI, s: Setup)
    requires NatOK(h.ipt, cfg.net, enis) && Names(h, e, s) && Finishes(cfg, e, s)
    ensures NatOK(SetUp(h, cfg, e, s).0.ipt, cfg.net, enis + [e])
  {
    SetUpMeaning(h, cfg, e, s);
    ConfiguredMeaning(h.kernel, cfg.net, e.index, e.cidr, e.ips, s.routesFailAt);
    MoreNat(h.ipt, cfg, enis, e, s.masqFailAt);
  }

  /** A setup that finishes adds the interface to those the host is configured for. */
  lemma FinishedIsConfigured(h: HostState, cfg: HostConfig, ec2: Ec2, conf: seq<ENI>, e: ENI, s: Setup)
    requires HostOK(h, ec2, cfg.net, conf) && Deployed(e, ec2) && Names(h, e, s) && Finishes(cfg, e, s)
    ensures HostOK(SetUp(h, cfg, e, s).0, ec2, cfg.net, conf + [e])
  {
    var h' := SetUp(h, cfg, e, s).0;
    SetUpMeaning(h, cfg, e, s);
    FinishedKernel(h, cfg, conf, e, s);
    FinishedNat(h, cfg, conf, e, s);
    assert LinksOK(h'.links, ec2, conf + [e]) by {
      MoreLinks(h.links, ec2, conf, e);
    }
    assert NoStrayTables(h'.links, h'.kernel) by {
      MoreTables(h.links, h.kernel, cfg.net, e, s.routesFailAt);
    }
  }

  /** On a clean host, with nothing refused, setting an interface up succeeds and wires it: what the
      theorems below assume is what a working host reaches. */
  lemma FirstSetUpWires(h: HostState, cfg: HostConfig, e: ENI, s: Setup)
    requires CleanHost(h) && 1 <= e.index <= MAX_INDEX && Names(h, e, s) && Reports(cfg, e, s)
    ensures SetUp(h, cfg, e, s).1 && EniWired(SetUp(h, cfg, e, s).0, cfg.net, e)
  {
    assert ChainProgress(h.ipt, cfg.net, 0);
    FinishedKernel(h, cfg, [], e, s);
    FinishedNat(h, cfg, [], e, s);
    ConfiguredEniWired(SetUp(h, cfg, e, s).0, cfg.net, [] + [e], e);
    SetUpMeaning(h, cfg, e, s);
  }

  /** A kernel in which only the table of an interface outside `enis` changed. */
  lemma EmptyConfigureKeepsWired(k: Kernel, net: Network, enis: seq<ENI>, e: ENI, failAt: nat)
    requires Wired(k, net, enis) && e.ips == [] && forall f :: f in enis ==> f.index != e.index
    ensures Wired(Routing.Configured(k, net, e.index, e.cidr, e.ips, failAt).0, net, enis)
  {
    var k' := Routing.Configured(k, net, e.index, e.cidr, e.ips, failAt).0;
    assert k'.rules == k.rules;
    forall f | f in enis
      ensures TableFor(k', net, f)
    {
      assert TableFor(k, net, f);
    }
  }

  /** However the setup of an interface without addresses for pods ends, the host stays configured. */
  lemma EmptyIsHarmless(h: HostState, cfg: HostConfig, ec2: Ec2, conf: seq<ENI>, e: ENI, s: Setup)
    requires HostOK(h, ec2, cfg.net, conf) && Deployed(e, ec2) && Names(h, e, s) && e.ips == []
    ensures HostOK(SetUp(h, cfg, e, s).0, ec2, cfg.net, conf)
  {
    var h' := SetUp(h, cfg, e, s).0;
    SetUpMeaning(h, cfg, e, s);
    assert Wired(h'.kernel, cfg.net, conf) by {
      EmptyConfigureKeepsWired(h.kernel, cfg.net, conf, e, s.routesFailAt);
    }
    assert LinksOK(h'.links, ec2, conf) by {
      MoreLinks(h.links, ec2, conf, e);
    }
    assert NoStrayTables(h'.links, h'.kernel) by {
      MoreTables(h.links, h.kernel, cfg.net, e, s.routesFailAt);
    }
    assert NatOK(h'.ipt, cfg.net, conf) by {
      NoMoreNat(h.ipt, cfg, conf, s.masqFailAt);
    }
  }

  // ----------------------------------------------- a setup that is cut short

  function LastOf(e: ENI): Addr
    requires e.ips != []
  {
    e.ips[|e.ips| - 1]
  }

  /** The interface is named, so it will not be set up again, and its last address lacks its from-rule
      or its jump. */
  predicate Unwired(h: HostState, e: ENI) {
    && e.ips != [] && e.index in h.links
    && (FromRule(LastOf(e), e.index) !in h.kernel.rules || JumpFrom(LastOf(e)) !in h.ipt.post)
  }

  lemma RuleMissingBefore(rules: seq<Rule>, conf: seq<ENI>, ip: Addr, index: int)
    requires RulesFor(rules, conf) && forall f :: f in conf ==> f.index != index
    ensures FromRule(ip, index) !in rules
  {
    if f :| f in conf && RuleOf(FromRule(ip, index), f.ips, f.index) {
      assert false;
    }
  }

  /** Part of the compiled rules lacks the last one, the last address's from-rule. */
  lemma RuleMissingInPart(pods: seq<Addr>, index: int, m: nat)
    requires pods != [] && Distinct(pods) && m < |CompiledRules(pods, index)|
    ensures FromRule(pods[|pods| - 1], index) !in CompiledRules(pods, index)[..m]
  {
    var n := |pods| - 1;
    var before, r := CompiledRules(pods[..n], index), FromRule(pods[n], index);
    assert CompiledRules(pods, index) == before + [ToRule(pods[n]), r];
    assert r !in before by {
      CompiledRulesMeaning(pods[..n], index, r);
      assert pods[n] !in pods[..n];
    }
    assert forall x :: x in CompiledRules(pods, index)[..m] ==> x in before || x == ToRule(pods[n]);
  }

  lemma RuleMissingAfter(k: Kernel, cfg: HostConfig, e: ENI, failAt: nat)
    requires e.ips != [] && Distinct(e.ips) && FromRule(LastOf(e), e.index) !in k.rules
    requires !Routing.Configured(k, cfg.net, e.index, e.cidr, e.ips, failAt).1
    ensures FromRule(LastOf(e), e.index) !in Routing.Configured(k, cfg.net, e.index, e.cidr, e.ips, failAt).0.rules
  {
    var k' := Routing.Configured(k, cfg.net, e.index, e.cidr, e.ips, failAt).0;
    var rules := CompiledRules(e.ips, e.index);
    if k'.rules != k.rules {
      var m :| 0 <= m < |rules| && k'.rules == InsertRules(k.rules, rules[..m]);
      RuleMissingInPart(e.ips, e.index, m);
      InsertRulesElements(k.rules, rules[..m], FromRule(LastOf(e), e.index));
    }
  }

  lemma JumpMissingAfter(ipt: Nat, cfg: HostConfig, e: ENI, failAt: nat)
    requires e.ips != [] && Distinct(e.ips) && JumpFrom(LastOf(e)) !in ipt.post
    requires |ChainRules(cfg.net)| + JumpCalls(cfg.net, |e.ips|) > failAt
    ensures JumpFrom(LastOf(e)) !in ConfiguredMasq(ipt, cfg.net, cfg.hostIP, e.ips, failAt).0.post
  {
    var rules := ChainRules(cfg.net);
    var left := if failAt < |rules| then 0 else failAt - |rules|;
    var done := e.ips[..JumpsDone(cfg.net, |e.ips|, left)];
    JumpsDoneMeaning(cfg.net, |e.ips|, left);
    EnsureAllMeaning(ipt.post, Jumps(done));
    JumpsMeaning(done, LastOf(e));
  }

  lemma JumpMissingBefore(h: HostState, ec2: Ec2, net: Network, conf: seq<ENI>, e: ENI)
    requires HostOK(h, ec2, net, conf) && Ec2OK(ec2) && Deployed(e, ec2) && e.index !in h.links && e.ips != []
    ensures JumpFrom(LastOf(e)) !in h.ipt.post
  {
    InPool(conf, LastOf(e));
    if f :| f in conf && LastOf(e) in f.ips {
      DeployedApart(e, f, ec2, LastOf(e));
      assert false;
    }
  }

  /** A setup that names the interface but does not finish leaves it unwired. */
  lemma UnfinishedIsUnwired(h: HostState, cfg: HostConfig, ec2: Ec2, conf: seq<ENI>, e: ENI, s: Setup)
    requires HostOK(h, ec2, cfg.net, conf) && Ec2OK(ec2) && Deployed(e, ec2)
    requires Names(h, e, s) && e.ips != [] && !Finishes(cfg, e, s)
    ensures Unwired(SetUp(h, cfg, e, s).0, e)
  {
    SetUpMeaning(h, cfg, e, s);
    ConfiguredMeaning(h.kernel, cfg.net, e.index, e.cidr, e.ips, s.routesFailAt);
    assert Distinct(e.ips);
    RuleMissingBefore(h.kernel.rules, conf, LastOf(e), e.index);
    JumpMissingBefore(h, ec2, cfg.net, conf, e);
    if !Routing.Configured(h.kernel, cfg.net, e.index, e.cidr, e.ips, s.routesFailAt).1 {
      RuleMissingAfter(h.kernel, cfg, e, s.routesFailAt);
    } else if ReachesNat(h, cfg, e, s) {
      JumpMissingAfter(h.ipt, cfg, e, s.masqFailAt);
    }
  }

  /** Exactly when setting up an interface wires it: on a configured host, a setup that names the
      interface leaves it wired if and only if it finishes, although it may still report a failure. */
  lemma WiredIffFinishes(h: HostState, cfg: HostConfig, ec2: Ec2, conf: seq<ENI>, e: ENI, s: Setup)
    requires HostOK(h, ec2, cfg.net, conf) && Ec2OK(ec2) && Deployed(e, ec2) && Names(h, e, s) && e.ips != []
    ensures EniWired(SetUp(h, cfg, e, s).0, cfg.net, e) <==> Finishes(cfg, e, s)
    ensures Unwired(SetUp(h, cfg, e, s).0, e) <==> !Finishes(cfg, e, s)
    ensures SetUp(h, cfg, e, s).1 <==> Reports(cfg, e, s)
  {
    var h' := SetUp(h, cfg, e, s).0;
    SetUpMeaning(h, cfg, e, s);
    if Finishes(cfg, e, s) {
      FinishedIsConfigured(h, cfg, ec2, conf, e, s);
      ConfiguredEniWired(h', cfg.net, conf + [e], e);
    } else {
      UnfinishedIsUnwired(h, cfg, ec2, conf, e, s);
    }
    assert EniWired(h', cfg.net, e) ==> AddressWired(h', LastOf(e), e.index);
  }

  /** If it reports success, every address also has its metadata redirect, to the host's own address, if
      a port is configured. */
  lemma ReportedHasRedirects(h: HostState, cfg: HostConfig, e: ENI, s: Setup, ip: Addr)
    requires Names(h, e, s) && SetUp(h, cfg, e, s).1 && ip in e.ips && cfg.net.redirectPort != 0
    ensures Redirect(ip, cfg.hostIP, cfg.net.redirectPort) in SetUp(h, cfg, e, s).0.ipt.pre
  {
    NamedSetUp(h, cfg, e, s);
    CallsComplete(h.ipt, cfg, e, s.masqFailAt);
    EnsureAllMeaning(h.ipt.pre, Redirects(cfg.net, cfg.hostIP, e.ips));
    RedirectsMeaning(cfg.net, cfg.hostIP, e.ips, ip);
  }

  lemma CallsComplete(ipt: Nat, cfg: HostConfig, e: ENI, failAt: nat)
    requires ConfiguredMasq(ipt, cfg.net, cfg.hostIP, e.ips, failAt).1
    ensures ConfiguredMasq(ipt, cfg.net, cfg.hostIP, e.ips, failAt).0.pre
            == EnsureAll(ipt.pre, Redirects(cfg.net, cfg.hostIP, e.ips))
  {
    assert e.ips[..|e.ips|] == e.ips;
  }

  /** The setups that keep a configured host configured. */
  predicate Harmless(h: HostState, cfg: HostConfig, e: ENI, s: Setup) {
    Names(h, e, s) && e.ips != [] ==> Finishes(cfg, e, s)
  }

  /** A harmless setup keeps the host configured, and if it succeeds the interface is among those it is
      configured for, whether it was set up now or had been before: same index, same interface. */
  lemma SetUpWires(h: HostState, cfg: HostConfig, ec2: Ec2, conf: seq<ENI>, e: ENI, s: Setup)
    returns (conf': seq<ENI>)
    requires HostOK(h, ec2, cfg.net, conf) && OnePerDevice(ec2) && Deployed(Bare(e), ec2) && Harmless(h, cfg, e, s)
    ensures HostOK(SetUp(h, cfg, e, s).0, ec2, cfg.net, conf') && conf <= conf'
    ensures SetUp(h, cfg, e, s).1 ==> Bare(e) in conf' || e.ips == []
  {
    SetUpMeaning(h, cfg, e, s);
    SetUpBare(h, cfg, e, s);
    conf' := conf;
    if Names(h, e, s) && Finishes(cfg, e, s) {
      conf' := conf + [Bare(e)];
      FinishedIsConfigured(h, cfg, ec2, conf, Bare(e), s);
    } else if Names(h, e, s) {
      EmptyIsHarmless(h, cfg, ec2, conf, Bare(e), s);
    } else if SetUp(h, cfg, e, s).1 {
      var f :| LinkOf(e.index, f, ec2, conf);
      OneDeployed(Bare(e), f, ec2);
    }
  }

  lemma SetUpBare(h: HostState, cfg: HostConfig, e: ENI, s: Setup)
    ensures SetUp(h, cfg, Bare(e), s) == SetUp(h, cfg, e, s)
    ensures Names(h, Bare(e), s) == Names(h, e, s) && Finishes(cfg, Bare(e), s) == Finishes(cfg, e, s)
    ensures Unwired(h, Bare(e)) == Unwired(h, e)
  {
  }

  /** An unwired interface stays unwired whatever other interface is set up, and however that goes. */
  lemma UnwiredStays(h: HostState, cfg: HostConfig, e: ENI, f: ENI, s: Setup)
    requires Unwired(h, e) && (f.index == e.index || LastOf(e) !in f.ips)
    ensures Unwired(SetUp(h, cfg, f, s).0, e)
  {
    SetUpMeaning(h, cfg, f, s);
    if Names(h, f, s) {
      RulesOfOthers(h.kernel, cfg, f, s.routesFailAt, FromRule(LastOf(e), e.index));
      JumpsOfOthers(h.ipt, cfg, f, s.masqFailAt, LastOf(e));
    }
  }

  lemma RulesOfOthers(k: Kernel, cfg: HostConfig, f: ENI, failAt: nat, r: Rule)
    requires r.priority == SRC_PRIO && r.table != TableNumber(f.index)
    ensures r in Routing.Configured(k, cfg.net, f.index, f.cidr, f.ips, failAt).0.rules ==> r in k.rules
  {
    var k' := Routing.Configured(k, cfg.net, f.index, f.cidr, f.ips, failAt).0;
    var rules := CompiledRules(f.ips, f.index);
    if k'.rules != k.rules {
      var m :| 0 <= m <= |rules| && k'.rules == InsertRules(k.rules, rules[..m]);
      InsertRulesElements(k.rules, rules[..m], r);
      CompiledRulesMeaning(f.ips, f.index, r);
      assert forall x :: x in rules[..m] ==> x in rules;
    }
  }

  lemma JumpsOfOthers(ipt: Nat, cfg: HostConfig, f: ENI, failAt: nat, ip: Addr)
    requires ip !in f.ips
    ensures JumpFrom(ip) in ConfiguredMasq(ipt, cfg.net, cfg.hostIP, f.ips, failAt).0.post ==> JumpFrom(ip) in ipt.post
  {
    var rules := ChainRules(cfg.net);
    var left := if failAt < |rules| then 0 else failAt - |rules|;
    var done := f.ips[..JumpsDone(cfg.net, |f.ips|, left)];
    EnsureAllMeaning(ipt.post, Jumps(done));
    JumpsMeaning(done, ip);
    assert ip in done ==> ip in f.ips;
  }

  /** And it is not among those a host is configured for. */
  lemma UnwiredIsNotConfigured(h: HostState, ec2: Ec2, net: Network, conf: seq<ENI>, e: ENI)
    requires OnePerDevice(ec2) && Deployed(e, ec2) && Unwired(h, e)
    ensures !HostOK(h, ec2, net, conf)
  {
    assert !AddressWired(h, LastOf(e), e.index);
    if HostOK(h, ec2, net, conf) {
      var f :| LinkOf(e.index, f, ec2, conf);
      OneDeployed(e, f, ec2);
      ConfiguredEniWired(h, net, conf, e);
      assert false;
    }
  }

  lemma RulesStay(k: Kernel, cfg: HostConfig, f: ENI, failAt: nat, r: Rule)
    requires r in k.rules
    ensures r in Routing.Configured(k, cfg.net, f.index, f.cidr, f.ips, failAt).0.rules
  {
    var k' := Routing.Configured(k, cfg.net, f.index, f.cidr, f.ips, failAt).0;
    var rules := CompiledRules(f.ips, f.index);
    if k'.rules != k.rules {
      var m :| 0 <= m <= |rules| && k'.rules == InsertRules(k.rules, rules[..m]);
      InsertRulesElements(k.rules, rules[..m], r);
    }
  }

  lemma JumpsStay(ipt: Nat, cfg: HostConfig, f: ENI, failAt: nat, r: NatRule)
    requires r in ipt.post
    ensures r in ConfiguredMasq(ipt, cfg.net, cfg.hostIP, f.ips, failAt).0.post
  {
    var rules := ChainRules(cfg.net);
    var left := if failAt < |rules| then 0 else failAt - |rules|;
    EnsureAllMeaning(ipt.post, Jumps(f.ips[..JumpsDone(cfg.net, |f.ips|, left)]));
  }

  /** An address that is wired stays wired, whatever is set up next and however that goes. */
  lemma AddressStaysWired(h: HostState, cfg: HostConfig, f: ENI, s: Setup, ip: Addr, index: int)
    requires AddressWired(h, ip, index)
    ensures AddressWired(SetUp(h, cfg, f, s).0, ip, index)
  {
    var kernel, ipt := KernelAfter(h, cfg, f, s), NatAfter(h, cfg, f, s);
    SetUpMeaning(h, cfg, f, s);
    assert ToRule(ip) in kernel.rules by {
      RulesStay(h.kernel, cfg, f, s.routesFailAt, ToRule(ip));
    }
    assert FromRule(ip, index) in kernel.rules by {
      RulesStay(h.kernel, cfg, f, s.routesFailAt, FromRule(ip, index));
    }
    assert JumpFrom(ip) in ipt.post by {
      JumpsStay(h.ipt, cfg, f, s.masqFailAt, JumpFrom(ip));
    }
  }
}
