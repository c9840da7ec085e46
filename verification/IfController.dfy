/** The daemon's interface controller: which interfaces of the node version it reads it sets up, and
    what it gives the allocator (cmd/vpcnet-daemon/ifcontroller/controller.go:188-298). */
module IfController {
  import opened Net
  import opened Routing
  import opened Masquerade
  import opened NodeObject
  import opened EniController
  import opened IfManager
  import opened Slices
  import AllocatorSpec
  import Allocator

  /** What the host's interfaces answer while one ENI is set up. The `...Ready` flags are the lookups
      before anything is changed; `...FailAt` is the number of the call that is refused. */
  datatype Setup = Setup(
    existsFails: bool,
    link: LinkResult,
    routesReady: bool,
    routesFailAt: nat,
    masqReady: bool,
    masqFailAt: nat)

  datatype HostConfig = HostConfig(net: Network, hostIP: Addr)

  /** One ENI: nothing if its interface exists already, otherwise link, routes and masquerading. */
  function SetUp(h: HostState, cfg: HostConfig, e: ENI, s: Setup): (HostState, bool) {
    if s.existsFails then (h, false)
    else if e.index in h.links then (h, true)
    else if !s.link.Named() then (h, false)
    else
      var named := h.(links := h.links + {e.index});
      if !s.link.Configured? || !s.routesReady then (named, false)
      else
        var (kernel, routed) := Routing.Configured(h.kernel, cfg.net, e.index, e.cidr, e.ips, s.routesFailAt);
        if !routed || !s.masqReady then (named.(kernel := kernel), false)
        else
          var (ipt, ok) := ConfiguredMasq(h.ipt, cfg.net, cfg.hostIP, e.ips, s.masqFailAt);
          (HostState(named.links, kernel, ipt), ok)
  }

  function Prepend(front: seq<ENI>, rest: Option<seq<ENI>>): Option<seq<ENI>> {
    if rest.None? then None else Some(front + rest.value)
  }

  /** The attached ENIs from position `i` on; None when setting one of them up failed. */
  function SetUpAll(h: HostState, cfg: HostConfig, nc: seq<ENI>, i: nat, setups: nat -> Setup)
    : (HostState, Option<seq<ENI>>)
    requires i <= |nc|
    decreases |nc| - i
  {
    if i == |nc| then (h, Some([]))
    else if !nc[i].attached then SetUpAll(h, cfg, nc, i + 1, setups)
    else
      var (h1, ok) := SetUp(h, cfg, nc[i], setups(i));
      if !ok then (h1, None)
      else
        var (h2, rest) := SetUpAll(h1, cfg, nc, i + 1, setups);
        (h2, Prepend([nc[i]], rest))
  }

  function AttachedFrom(nc: seq<ENI>, i: nat): seq<ENI>
    requires i <= |nc|
    decreases |nc| - i
  {
    if i == |nc| then []
    else (if nc[i].attached then [nc[i]] else []) + AttachedFrom(nc, i + 1)
  }

  lemma {:induction false} SetUpAllSelects(h: HostState, cfg: HostConfig, nc: seq<ENI>, i: nat, setups: nat -> Setup)
    requires i <= |nc|
    ensures SetUpAll(h, cfg, nc, i, setups).1.Some? ==> SetUpAll(h, cfg, nc, i, setups).1.value == AttachedFrom(nc, i)
    decreases |nc| - i
  {
    if i < |nc| {
      if !nc[i].attached {
        SetUpAllSelects(h, cfg, nc, i + 1, setups);
        assert [] + AttachedFrom(nc, i + 1) == AttachedFrom(nc, i + 1);
      } else {
        SetUpAllSelects(SetUp(h, cfg, nc[i], setups(i)).0, cfg, nc, i + 1, setups);
      }
    }
  }

  /** The daemon's handleNode for the instance `self`, on the node version its cache holds. */
  function NodeHandled(h: HostState, st: AllocatorSpec.Store, o: Ours, self: string, cfg: HostConfig,
                       setups: nat -> Setup, w: AllocatorSpec.WriteResult): (HostState, AllocatorSpec.Store, bool)
  {
    if o.provider.NoProvider? then (h, st, true)
    else if o.provider.BadProvider? then (h, st, false)
    else if o.provider.id != self then (h, st, true)
    else if o.interfaces.None? then (h, st, true)
    else if !o.interfaces.value.Interfaces? then (h, st, false)
    else
      var (h', configured) := SetUpAll(h, cfg, o.interfaces.value.enis, 0, setups);
      if configured.None? then (h', st, false)
      else (h', AllocatorSpec.SetENIs(st, configured.value, w), w.Written?)
  }

  // ------------------------------------------------------------ the records

  /** The attached ones of the first i, in order. */
  function AttachedUpTo(nc: seq<ENI>, i: nat): seq<ENI>
    requires i <= |nc|
  {
    if i == 0 then [] else AttachedUpTo(nc, i - 1) + if nc[i - 1].attached then [nc[i - 1]] else []
  }

  lemma {:induction false} UpToAndFrom(nc: seq<ENI>, i: nat)
    requires i <= |nc|
    ensures AttachedUpTo(nc, i) + AttachedFrom(nc, i) == AttachedFrom(nc, 0)
  {
    if i == 0 {
      assert [] + AttachedFrom(nc, 0) == AttachedFrom(nc, 0);
    } else {
      var one := if nc[i - 1].attached then [nc[i - 1]] else [];
      UpToAndFrom(nc, i - 1);
      assert AttachedFrom(nc, i - 1) == one + AttachedFrom(nc, i);
      assert (AttachedUpTo(nc, i - 1) + one) + AttachedFrom(nc, i)
          == AttachedUpTo(nc, i - 1) + (one + AttachedFrom(nc, i));
    }
  }

  /** The attached ones of the first i records. */
  function RecordsUpTo(nc: seq<EniRecord>, i: nat): seq<EniRecord>
    requires i <= |nc|
  {
    if i == 0 then [] else RecordsUpTo(nc, i - 1) + if nc[i - 1].attached then [nc[i - 1]] else []
  }

  lemma ValuesOneMore(records: seq<EniRecord>, r: EniRecord)
    requires AllValid(records) && r.ips.Valid()
    ensures AllValid(records + [r]) && Values(records + [r]) == Values(records) + [r.Value()]
  {
    assert (records + [r])[..|records|] == records;
  }

  lemma RecordsOneMore(nc: seq<EniRecord>, enis: seq<ENI>, i: nat)
    requires 0 < i <= |nc| == |enis| && AllValid(RecordsUpTo(nc, i - 1)) && nc[i - 1].ips.Valid()
    requires Values(RecordsUpTo(nc, i - 1)) == AttachedUpTo(enis, i - 1) && nc[i - 1].Value() == enis[i - 1]
    ensures AllValid(RecordsUpTo(nc, i)) && Values(RecordsUpTo(nc, i)) == AttachedUpTo(enis, i)
  {
    var before := RecordsUpTo(nc, i - 1);
    if nc[i - 1].attached {
      assert RecordsUpTo(nc, i) == before + [nc[i - 1]];
      ValuesOneMore(before, nc[i - 1]);
    } else {
      assert RecordsUpTo(nc, i) == before && AttachedUpTo(enis, i) == AttachedUpTo(enis, i - 1);
    }
  }

  /** They have the values of the attached ENIs that were decoded. */
  lemma {:induction false} RecordsValues(nc: seq<EniRecord>, enis: seq<ENI>, i: nat)
    requires i <= |nc| == |enis| && AllValid(nc)
    requires forall j :: 0 <= j < |nc| ==> nc[j].Value() == enis[j]
    ensures AllValid(RecordsUpTo(nc, i)) && Values(RecordsUpTo(nc, i)) == AttachedUpTo(enis, i)
  {
    if i > 0 {
      RecordsValues(nc, enis, i - 1);
      RecordsOneMore(nc, enis, i);
    }
  }

  lemma RecordsAreDecoded(nc: seq<EniRecord>, enis: seq<ENI>)
    requires |nc| == |enis| && AllValid(nc) && forall j :: 0 <= j < |nc| ==> nc[j].Value() == enis[j]
    ensures AllValid(RecordsUpTo(nc, |nc|)) && Values(RecordsUpTo(nc, |nc|)) == AttachedFrom(enis, 0)
  {
    RecordsValues(nc, enis, |nc|);
    UpToAndFrom(enis, |enis|);
    assert AttachedUpTo(enis, |enis|) + [] == AttachedUpTo(enis, |enis|);
  }

  method SetUpEni(host: Host, cfg: HostConfig, e: ENI, s: Setup) returns (ok: bool)
    modifies host
    ensures (host.State(), ok) == SetUp(old(host.State()), cfg, e, s)
  {
    if s.existsFails {
      return false;
    }
    var found := host.InterfaceExists(e.index);
    if found {
      return true;
    }
    ok := host.ConfigureInterface(e.index, s.link);
    if !ok {
      return;
    }
    ok := host.ConfigureRoutes(cfg.net, e.index, e.cidr, e.ips, s.routesReady, s.routesFailAt);
    if !ok {
      return;
    }
    ok := host.ConfigureIPMasq(cfg.net, cfg.hostIP, e.ips, s.masqReady, s.masqFailAt);
  }

  /** The daemon's loop: sets the attached interfaces up, until one fails. `enis` are the values of the
      records; what it collects are the very records, with their address lists. */
  method SetUpEach(host: Host, nc: seq<EniRecord>, enis: seq<ENI>, cfg: HostConfig, setups: nat -> Setup)
    returns (ok: bool, configured: seq<EniRecord>)
    requires |nc| == |enis| && forall j :: 0 <= j < |nc| ==> nc[j].attached == enis[j].attached
    modifies host
    ensures host.State() == SetUpAll(old(host.State()), cfg, enis, 0, setups).0
    ensures ok <==> SetUpAll(old(host.State()), cfg, enis, 0, setups).1.Some?
    ensures ok ==> configured == RecordsUpTo(nc, |nc|)
  {
    configured := [];
    for i := 0 to |nc|
      invariant configured == RecordsUpTo(nc, i)
      invariant SetUpAll(old(host.State()), cfg, enis, 0, setups).0 == SetUpAll(host.State(), cfg, enis, i, setups).0
      invariant SetUpAll(old(host.State()), cfg, enis, 0, setups).1.Some?
           <==> SetUpAll(host.State(), cfg, enis, i, setups).1.Some?
    {
      if nc[i].attached {
        ok := SetUpEni(host, cfg, enis[i], setups(i));
        if !ok {
          return;
        }
        configured := configured + [nc[i]];
      }
    }
    ok := true;
  }

  /** Decodes the records and sets the attached ones up. */
  method SetUpNode(host: Host, enis: seq<ENI>, cfg: HostConfig, setups: nat -> Setup)
    returns (ok: bool, configured: seq<EniRecord>)
    modifies host
    ensures host.State() == SetUpAll(old(host.State()), cfg, enis, 0, setups).0
    ensures ok <==> SetUpAll(old(host.State()), cfg, enis, 0, setups).1.Some?
    ensures ok ==> AllValid(configured)
    ensures ok ==> SetUpAll(old(host.State()), cfg, enis, 0, setups).1 == Some(Values(configured))
  {
    SetUpAllSelects(host.State(), cfg, enis, 0, setups);
    var nc := Decode(enis);
    ok, configured := SetUpEach(host, nc, enis, cfg, setups);
    if ok {
      RecordsAreDecoded(nc, enis);
    }
  }

  /** The daemon's handleNode. The allocator gets the very records that were decoded. */
  method HandleNode(host: Host, alloc: Allocator.Allocator, node: Node, self: string, cfg: HostConfig,
                    setups: nat -> Setup, w: AllocatorSpec.WriteResult) returns (ok: bool)
    requires alloc.Valid()
    modifies host, alloc
    ensures alloc.Valid()
    ensures (host.State(), alloc.Store(), ok)
         == NodeHandled(old(host.State()), old(alloc.Store()), OursIn(node), self, cfg, setups, w)
  {
    if node.provider.NoProvider? {
      return true;
    }
    if node.provider.BadProvider? {
      return false;
    }
    if node.provider.id != self {
      return true;
    }
    if IFS_KEY !in node.annotations {
      return true;
    }
    if !node.annotations[IFS_KEY].Interfaces? {
      return false;
    }
    var done, configured := SetUpNode(host, node.annotations[IFS_KEY].enis, cfg, setups);
    alloc.StoreStays();
    if !done {
      return false;
    }
    ok := alloc.SetENIs(configured, w);
  }
}
