/** What ConfigureIPMasq compiles into NAT rules, and that it agrees with the routes
    (pkg/ifmgr/ifmgr_linux.go:186-234). */
module Masquerade {
  import opened Net
  import opened Routing
  import opened Packets

  datatype NatRule =
    | Accept(dst: Block)
    | MasqueradeAll
    | JumpFrom(src: Addr)
    | Redirect(src: Addr, host: Addr, port: int)

  /** The shared chain, and our part of the postrouting and prerouting chains. */
  datatype Nat = Nat(chain: seq<NatRule>, post: seq<NatRule>, pre: seq<NatRule>)

  const NO_NAT := Nat([], [], [])

  /** EnsureRule with Append: only if the rule is not there yet. */
  function Ensure(chain: seq<NatRule>, r: NatRule): seq<NatRule> {
    if r in chain then chain else chain + [r]
  }

  function EnsureAll(chain: seq<NatRule>, rules: seq<NatRule>): seq<NatRule> {
    if rules == [] then chain
    else Ensure(EnsureAll(chain, rules[..|rules| - 1]), rules[|rules| - 1])
  }

  function NonMasqueraded(net: Network): seq<Block> {
    [net.cluster, net.service, MULTICAST] + net.vpcRouted
  }

  function Accepts(blocks: seq<Block>): (r: seq<NatRule>)
    ensures |r| == |blocks| && forall i :: 0 <= i < |blocks| ==> r[i] == Accept(blocks[i])
  {
    seq(|blocks|, i requires 0 <= i < |blocks| => Accept(blocks[i]))
  }

  function ChainRules(net: Network): seq<NatRule> {
    Accepts(NonMasqueraded(net)) + [MasqueradeAll]
  }

  function Jumps(pods: seq<Addr>): (r: seq<NatRule>)
    ensures |r| == |pods| && forall i :: 0 <= i < |pods| ==> r[i] == JumpFrom(pods[i])
  {
    seq(|pods|, i requires 0 <= i < |pods| => JumpFrom(pods[i]))
  }

  function Redirects(net: Network, hostIP: Addr, pods: seq<Addr>): (r: seq<NatRule>)
    ensures |r| == if net.redirectPort == 0 then 0 else |pods|
  {
    if net.redirectPort == 0 then []
    else seq(|pods|, i requires 0 <= i < |pods| => Redirect(pods[i], hostIP, net.redirectPort))
  }

  function Masqueraded(ipt: Nat, net: Network, hostIP: Addr, pods: seq<Addr>): Nat {
    Nat(EnsureAll(ipt.chain, ChainRules(net)),
        EnsureAll(ipt.post, Jumps(pods)),
        EnsureAll(ipt.pre, Redirects(net, hostIP, pods)))
  }

  function Min(a: nat, b: nat): nat {
    if a < b then a else b
  }

  /** How many of n pods get their jump, and their redirect, when `left` calls succeed. */
  function JumpsDone(net: Network, n: nat, left: nat): (j: nat)
    ensures j <= n
  {
    Min(n, if net.redirectPort == 0 then left else (left + 1) / 2)
  }

  function RedirectsDone(net: Network, n: nat, left: nat): (d: nat)
    ensures d <= n
  {
    if net.redirectPort == 0 then n else Min(n, left / 2)
  }

  /** The calls it takes until each of n pods has its jump: all but the last pod's redirect. */
  function JumpCalls(net: Network, n: nat): nat {
    if net.redirectPort == 0 || n == 0 then n else 2 * n - 1
  }

  lemma JumpsDoneMeaning(net: Network, n: nat, left: nat)
    ensures JumpsDone(net, n, left) == n <==> JumpCalls(net, n) <= left
  {
  }

  /** ConfigureIPMasq: call number `failAt` to iptables fails. The chain's rules come first, then for
      each pod its jump and, if configured, its redirect. */
  function ConfiguredMasq(ipt: Nat, net: Network, hostIP: Addr, pods: seq<Addr>, failAt: nat): (Nat, bool) {
    var rules := ChainRules(net);
    var left := if failAt < |rules| then 0 else failAt - |rules|;
    var jumps, redirects := JumpsDone(net, |pods|, left), RedirectsDone(net, |pods|, left);
    (Nat(EnsureAll(ipt.chain, rules[..Min(|rules|, failAt)]),
         EnsureAll(ipt.post, Jumps(pods[..jumps])),
         EnsureAll(ipt.pre, Redirects(net, hostIP, pods[..redirects]))),
     |rules| <= failAt && jumps == |pods| && redirects == |pods|)
  }

  /** It succeeds exactly when none of its calls is refused. */
  lemma ConfiguredMasqOk(ipt: Nat, net: Network, hostIP: Addr, pods: seq<Addr>, failAt: nat)
    ensures ConfiguredMasq(ipt, net, hostIP, pods, failAt).1
            <==> |ChainRules(net)| + (if net.redirectPort == 0 then |pods| else 2 * |pods|) <= failAt
  {
  }

  /** The chain after the first complete call on a clean host. */
  function Canonical(net: Network): seq<NatRule> {
    EnsureAll([], ChainRules(net))
  }

  // ------------------------------------------------------------ idempotence

  lemma {:induction false} EnsureAllMeaning(chain: seq<NatRule>, rules: seq<NatRule>)
    ensures forall r :: r in EnsureAll(chain, rules) <==> r in chain || r in rules
    ensures chain <= EnsureAll(chain, rules)
    ensures Distinct(chain) ==> Distinct(EnsureAll(chain, rules))
  {
    if rules != [] {
      var n := |rules| - 1;
      EnsureAllMeaning(chain, rules[..n]);
      assert rules == rules[..n] + [rules[n]];
    }
  }

  lemma {:induction false} EnsureAllAbsorbed(chain: seq<NatRule>, rules: seq<NatRule>)
    requires forall r :: r in rules ==> r in chain
    ensures EnsureAll(chain, rules) == chain
  {
    if rules != [] {
      EnsureAllAbsorbed(chain, rules[..|rules| - 1]);
    }
  }

  /** Starting over after stopping at rule k and getting to rule m is the same as having got to the
      further of the two in one go. */
  lemma {:induction false} Resume(rules: seq<NatRule>, k: nat, m: nat)
    requires k <= |rules| && m <= |rules|
    ensures EnsureAll(EnsureAll([], rules[..k]), rules[..m]) == EnsureAll([], rules[..if k < m then m else k])
    decreases m
  {
    EnsureAllMeaning([], rules[..k]);
    if m <= k {
      assert forall r :: r in rules[..m] ==> r in rules[..k];
      EnsureAllAbsorbed(EnsureAll([], rules[..k]), rules[..m]);
    } else {
      Resume(rules, k, m - 1);
      assert rules[..m][..m - 1] == rules[..m - 1];
    }
  }

  /** The shared chain in any run under one configuration: as far as the furthest call got. */
  predicate ChainProgress(ipt: Nat, net: Network, k: nat) {
    k <= |ChainRules(net)| && ipt.chain == EnsureAll([], ChainRules(net)[..k])
  }

  /** A call that completes has ensured everything. Any call, complete or failing part way, leaves the
      shared chain as far as the furthest call got; and once a call has completed, no later call for
      any pods changes the chain. */
  lemma CallsShareTheChain(ipt: Nat, net: Network, hostIP: Addr, pods: seq<Addr>, k: nat, failAt: nat)
    requires ChainProgress(ipt, net, k)
    ensures var (ipt', ok) := ConfiguredMasq(ipt, net, hostIP, pods, failAt);
            var c := Min(|ChainRules(net)|, failAt);
            && ChainProgress(ipt', net, if k < c then c else k)
            && (k == |ChainRules(net)| ==> ipt'.chain == ipt.chain == Canonical(net))
            && (ok ==> ipt' == Masqueraded(ipt, net, hostIP, pods) && ipt'.chain == Canonical(net))
  {
    var rules := ChainRules(net);
    Resume(rules, k, Min(|rules|, failAt));
    assert rules[..|rules|] == rules && pods[..|pods|] == pods;
  }

  lemma AgainChangesNothing(net: Network)
    ensures EnsureAll(Canonical(net), ChainRules(net)) == Canonical(net)
  {
    EnsureAllMeaning([], ChainRules(net));
    EnsureAllAbsorbed(Canonical(net), ChainRules(net));
  }

  lemma ListedBlocks(net: Network, b: Block)
    ensures b in NonMasqueraded(net) <==> b in {net.cluster, net.service, MULTICAST} || b in net.vpcRouted
  {
    var fixed := [net.cluster, net.service, MULTICAST];
    assert fixed[0] in fixed && fixed[1] in fixed && fixed[2] in fixed;
  }

  lemma ListedShape(net: Network)
    ensures var chain := Canonical(net);
            && chain != [] && chain[|chain| - 1] == MasqueradeAll
            && forall i :: 0 <= i < |chain| - 1 ==> chain[i].Accept? && chain[i].dst in NonMasqueraded(net)
    ensures forall b :: b in NonMasqueraded(net) ==> Accept(b) in Canonical(net)
  {
    var blocks := NonMasqueraded(net);
    var accepts := Accepts(blocks);
    var before := EnsureAll([], accepts);
    EnsureAllMeaning([], accepts);
    assert forall i :: 0 <= i < |before| ==> before[i] in before;
    assert ChainRules(net)[..|accepts|] == accepts;
    assert MasqueradeAll !in before;
    assert Canonical(net) == before + [MasqueradeAll];
    forall b | b in blocks
      ensures Accept(b) in Canonical(net)
    {
      var i :| 0 <= i < |blocks| && blocks[i] == b;
      assert accepts[i] in accepts;
    }
  }

  /** The chain accepts the cluster, service, multicast and VPC-routed blocks and no others, and then
      masquerades once. */
  lemma CanonicalShape(net: Network)
    ensures var chain := Canonical(net);
            && chain != [] && chain[|chain| - 1] == MasqueradeAll
            && forall i :: 0 <= i < |chain| - 1 ==>
                 && chain[i].Accept?
                 && (chain[i].dst in {net.cluster, net.service, MULTICAST} || chain[i].dst in net.vpcRouted)
    ensures forall b :: b in {net.cluster, net.service, MULTICAST} || b in net.vpcRouted ==> Accept(b) in Canonical(net)
  {
    ListedShape(net);
    forall b
      ensures b in NonMasqueraded(net) <==> b in {net.cluster, net.service, MULTICAST} || b in net.vpcRouted
    {
      ListedBlocks(net, b);
    }
  }

  /** A sequence of calls, each for some pods. */
  function MasqueradeEach(ipt: Nat, net: Network, hostIP: Addr, calls: seq<seq<Addr>>): Nat {
    if calls == [] then ipt
    else
      var n := |calls| - 1;
      Masqueraded(MasqueradeEach(ipt, net, hostIP, calls[..n]), net, hostIP, calls[n])
  }

  lemma {:induction false} EachKeepsChain(net: Network, hostIP: Addr, calls: seq<seq<Addr>>)
    ensures MasqueradeEach(NO_NAT, net, hostIP, calls).chain == if calls == [] then [] else Canonical(net)
  {
    if calls != [] {
      var n := |calls| - 1;
      EachKeepsChain(net, hostIP, calls[..n]);
      AgainChangesNothing(net);
    }
  }

  lemma {:induction false} EachAddsJumps(net: Network, hostIP: Addr, calls: seq<seq<Addr>>, ip: Addr)
    ensures JumpFrom(ip) in MasqueradeEach(NO_NAT, net, hostIP, calls).post <==> exists p :: p in calls && ip in p
    ensures Distinct(MasqueradeEach(NO_NAT, net, hostIP, calls).post)
  {
    if calls != [] {
      var n := |calls| - 1;
      EachAddsJumps(net, hostIP, calls[..n], ip);
      EnsureAllMeaning(MasqueradeEach(NO_NAT, net, hostIP, calls[..n]).post, Jumps(calls[n]));
      JumpsMeaning(calls[n], ip);
      assert calls == calls[..n] + [calls[n]];
    }
  }

  lemma {:induction false} EachAddsRedirects(net: Network, hostIP: Addr, calls: seq<seq<Addr>>, ip: Addr)
    ensures Redirect(ip, hostIP, net.redirectPort) in MasqueradeEach(NO_NAT, net, hostIP, calls).pre
            <==> net.redirectPort != 0 && exists p :: p in calls && ip in p
  {
    if calls != [] {
      var n := |calls| - 1;
      var before, r := MasqueradeEach(NO_NAT, net, hostIP, calls[..n]).pre, Redirect(ip, hostIP, net.redirectPort);
      EachAddsRedirects(net, hostIP, calls[..n], ip);
      EnsureAllMeaning(before, Redirects(net, hostIP, calls[n]));
      assert r in MasqueradeEach(NO_NAT, net, hostIP, calls).pre
        <==> r in before || r in Redirects(net, hostIP, calls[n]);
      RedirectsMeaning(net, hostIP, calls[n], ip);
      assert calls == calls[..n] + [calls[n]];
    }
  }

  /** Idempotence: after any number of calls for any pods on a clean host, the shared chain is the
      one after the first call; the jumps cover exactly the pods passed, each once; and so do the
      metadata redirects if a port is configured, otherwise there are none. */
  lemma MasqueradeEachMeaning(net: Network, hostIP: Addr, calls: seq<seq<Addr>>, ip: Addr)
    ensures var ipt := MasqueradeEach(NO_NAT, net, hostIP, calls);
            && ipt.chain == (if calls == [] then [] else Canonical(net))
            && (JumpFrom(ip) in ipt.post <==> exists p :: p in calls && ip in p)
            && Distinct(ipt.post)
            && (Redirect(ip, hostIP, net.redirectPort) in ipt.pre
                <==> net.redirectPort != 0 && exists p :: p in calls && ip in p)
  {
    EachKeepsChain(net, hostIP, calls);
    EachAddsJumps(net, hostIP, calls, ip);
    EachAddsRedirects(net, hostIP, calls, ip);
  }

  lemma RedirectsMeaning(net: Network, hostIP: Addr, pods: seq<Addr>, ip: Addr)
    ensures Redirect(ip, hostIP, net.redirectPort) in Redirects(net, hostIP, pods)
            <==> net.redirectPort != 0 && ip in pods
  {
    if net.redirectPort != 0 && ip in pods {
      var i :| 0 <= i < |pods| && pods[i] == ip;
      assert Redirects(net, hostIP, pods)[i] == Redirect(ip, hostIP, net.redirectPort);
    }
  }

  lemma JumpsMeaning(pods: seq<Addr>, ip: Addr)
    ensures JumpFrom(ip) in Jumps(pods) <==> ip in pods
  {
  }

  // ------------------------------------------------------------- the packets

  /** First match in the shared chain: masqueraded, or passed as it is. */
  predicate ChainVerdict(chain: seq<NatRule>, dst: Addr) {
    if chain == [] then false
    else
      match chain[0]
      case Accept(b) => if b.Contains(dst) then false else ChainVerdict(chain[1..], dst)
      case MasqueradeAll => true
      case _ => ChainVerdict(chain[1..], dst)
  }

  predicate PostVerdict(post: seq<NatRule>, chain: seq<NatRule>, src: Addr, dst: Addr) {
    if post == [] then false
    else if post[0] == JumpFrom(src) then ChainVerdict(chain, dst)
    else PostVerdict(post[1..], chain, src, dst)
  }

  predicate IsMasqueraded(ipt: Nat, src: Addr, dst: Addr) {
    PostVerdict(ipt.post, ipt.chain, src, dst)
  }

  lemma {:induction false} JumpTaken(post: seq<NatRule>, chain: seq<NatRule>, src: Addr, dst: Addr)
    ensures PostVerdict(post, chain, src, dst) == (JumpFrom(src) in post && ChainVerdict(chain, dst))
  {
    if post != [] {
      JumpTaken(post[1..], chain, src, dst);
    }
  }

  lemma {:induction false} AcceptsThenMasquerade(chain: seq<NatRule>, dst: Addr)
    requires chain != [] && chain[|chain| - 1] == MasqueradeAll
    requires forall i :: 0 <= i < |chain| - 1 ==> chain[i].Accept?
    ensures ChainVerdict(chain, dst) <==> forall r :: r in chain && r.Accept? ==> !r.dst.Contains(dst)
  {
    if |chain| > 1 {
      AcceptsThenMasquerade(chain[1..], dst);
      assert forall r :: r in chain <==> r == chain[0] || r in chain[1..];
    }
  }

  /** The destination is inside the cluster, a service, in a VPC-routed block or a multicast group. */
  predicate Exempt(net: Network, dst: Addr) {
    || net.cluster.Contains(dst) || net.service.Contains(dst) || IsMulticast(dst)
    || exists b :: b in net.vpcRouted && b.Contains(dst)
  }

  lemma ExemptIsAccepted(net: Network, dst: Addr)
    ensures Exempt(net, dst) <==> exists r :: r in Canonical(net) && r.Accept? && r.dst.Contains(dst)
  {
    CanonicalShape(net);
    MulticastBlock(dst);
    var chain := Canonical(net);
    if net.cluster.Contains(dst) {
      assert Accept(net.cluster) in chain && Accept(net.cluster).dst.Contains(dst);
    }
    if net.service.Contains(dst) {
      assert Accept(net.service) in chain && Accept(net.service).dst.Contains(dst);
    }
    if IsMulticast(dst) {
      assert Accept(MULTICAST) in chain && Accept(MULTICAST).dst.Contains(dst);
    }
    if b :| b in net.vpcRouted && b.Contains(dst) {
      assert Accept(b) in chain && Accept(b).dst.Contains(dst);
    }
    if r :| r in chain && r.Accept? && r.dst.Contains(dst) {
      var i :| 0 <= i < |chain| && chain[i] == r;
      assert i < |chain| - 1;
    }
  }

  /** A packet from a pod with a jump, to any destination at all, is masqueraded exactly when that is
      neither in the cluster nor in the service block, in no VPC-routed block, and no multicast group. */
  lemma VerdictMeaning(ipt: Nat, net: Network, src: Addr, dst: Addr)
    requires ipt.chain == Canonical(net) && JumpFrom(src) in ipt.post
    ensures IsMasqueraded(ipt, src, dst)
            <==> && !net.cluster.Contains(dst) && !net.service.Contains(dst) && !IsMulticast(dst)
                 && forall b :: b in net.vpcRouted ==> !b.Contains(dst)
  {
    CanonicalShape(net);
    JumpTaken(ipt.post, ipt.chain, src, dst);
    AcceptsThenMasquerade(ipt.chain, dst);
    ExemptIsAccepted(net, dst);
  }

  predicate LeavesByPrimary(k: Kernel, src: Addr, dst: Addr) {
    Resolve(k, src, dst).Some? && Resolve(k, src, dst).value.route.dev == PrimaryDevice
  }

  /** A pod packet to somewhere outside the host. */
  ghost predicate OutboundPodPacket(k: Kernel, ipt: Nat, net: Network, enis: seq<ENI>, e: ENI, src: Addr, dst: Addr) {
    && Wired(k, net, enis) && e in enis && src in e.ips
    && (forall f :: f in enis && src in f.ips ==> f.index == e.index)
    && ipt.chain == Canonical(net) && JumpFrom(src) in ipt.post
    && dst !in Pool(enis) && Best(TableOf(k, LOCAL_TABLE), dst).None?
  }

  /** Routing and NAT, for every destination, and the two ways they can differ. A packet that leaves by
      the primary interface is masqueraded unless it is multicast; one that stays on the ENI is not,
      unless its destination is in the ENI's subnet and outside every exempt block. */
  lemma RoutingAgreesWithNat(k: Kernel, ipt: Nat, net: Network, enis: seq<ENI>, e: ENI, src: Addr, dst: Addr)
    requires OutboundPodPacket(k, ipt, net, enis, e, src, dst) && net.podIPMasq
    ensures Resolve(k, src, dst).Some?
    ensures !LeavesByPrimary(k, src, dst) ==> Resolve(k, src, dst).value.route.dev == EniDevice(e.index)
    ensures (LeavesByPrimary(k, src, dst) && !IsMasqueraded(ipt, src, dst))
            <==> (IsMulticast(dst) && !StaysOnEni(net, e.cidr, dst))
    ensures (IsMasqueraded(ipt, src, dst) && !LeavesByPrimary(k, src, dst))
            <==> (e.cidr.Contains(dst) && !Exempt(net, dst))
  {
    var stays := StaysOnEni(net, e.cidr, dst);
    var hop := Resolve(k, src, dst);
    assert hop.Some? && hop.value.route.dev == if stays then EniDevice(e.index) else PrimaryDevice by {
      PodPacket(k, net, enis, e, src, dst);
    }
    VerdictMeaning(ipt, net, src, dst);
  }

  /** So the two agree packet for packet, multicast aside, when the ENI's subnet lies inside the cluster
      or VPC-routed blocks. */
  lemma AgreementInsideCluster(k: Kernel, ipt: Nat, net: Network, enis: seq<ENI>, e: ENI, src: Addr, dst: Addr)
    requires OutboundPodPacket(k, ipt, net, enis, e, src, dst) && net.podIPMasq && !IsMulticast(dst)
    requires e.cidr.Contains(dst) ==> net.cluster.Contains(dst) || exists b :: b in net.vpcRouted && b.Contains(dst)
    ensures IsMasqueraded(ipt, src, dst) <==> LeavesByPrimary(k, src, dst)
  {
    RoutingAgreesWithNat(k, ipt, net, enis, e, src, dst);
  }

  // -------------------------------------------------------- refused half way

  /** The number of the call that gives pod i its jump, after those for the three fixed blocks, the
      VPC-routed ones and the masquerade; its redirect, if any, is the next one. */
  function JumpCall(net: Network, i: nat): nat {
    4 + |net.vpcRouted| + if net.redirectPort == 0 then i else 2 * i
  }

  lemma InPrefix(pods: seq<Addr>, n: nat, i: nat)
    requires n <= |pods| && i < |pods| && Distinct(pods)
    ensures pods[i] in pods[..n] <==> i < n
  {
    if i < n {
      assert pods[..n][i] == pods[i];
    }
  }

  lemma PartialJumps(ipt: Nat, net: Network, hostIP: Addr, pods: seq<Addr>, failAt: nat, i: nat)
    requires i < |pods| && Distinct(pods)
    ensures JumpFrom(pods[i]) in ConfiguredMasq(ipt, net, hostIP, pods, failAt).0.post
            <==> JumpFrom(pods[i]) in ipt.post || JumpCall(net, i) < failAt
  {
    var left := if failAt < |ChainRules(net)| then 0 else failAt - |ChainRules(net)|;
    var jumps := JumpsDone(net, |pods|, left);
    InPrefix(pods, jumps, i);
    EnsureAllMeaning(ipt.post, Jumps(pods[..jumps]));
    JumpsMeaning(pods[..jumps], pods[i]);
  }

  lemma PartialRedirects(ipt: Nat, net: Network, hostIP: Addr, pods: seq<Addr>, failAt: nat, i: nat)
    requires i < |pods| && Distinct(pods)
    ensures var redirect := Redirect(pods[i], hostIP, net.redirectPort);
            redirect in ConfiguredMasq(ipt, net, hostIP, pods, failAt).0.pre
            <==> redirect in ipt.pre || (net.redirectPort != 0 && JumpCall(net, i) + 1 < failAt)
  {
    var left := if failAt < |ChainRules(net)| then 0 else failAt - |ChainRules(net)|;
    var redirects := RedirectsDone(net, |pods|, left);
    InPrefix(pods, redirects, i);
    EnsureAllMeaning(ipt.pre, Redirects(net, hostIP, pods[..redirects]));
    RedirectsMeaning(net, hostIP, pods[..redirects], pods[i]);
  }

  /** A call refused anywhere leaves a pod's jump, and its redirect, exactly if that pod's own call came
      before the refused one, or it was there already. */
  lemma PartialPods(ipt: Nat, net: Network, hostIP: Addr, pods: seq<Addr>, failAt: nat, i: nat)
    requires i < |pods| && Distinct(pods)
    ensures var ipt' := ConfiguredMasq(ipt, net, hostIP, pods, failAt).0;
            var redirect := Redirect(pods[i], hostIP, net.redirectPort);
            && (JumpFrom(pods[i]) in ipt'.post <==> JumpFrom(pods[i]) in ipt.post || JumpCall(net, i) < failAt)
            && (redirect in ipt'.pre
                <==> redirect in ipt.pre || (net.redirectPort != 0 && JumpCall(net, i) + 1 < failAt))
  {
    PartialJumps(ipt, net, hostIP, pods, failAt, i);
    PartialRedirects(ipt, net, hostIP, pods, failAt, i);
  }
}
