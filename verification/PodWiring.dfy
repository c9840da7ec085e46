/** Every address the allocator can hand out is wired, so what Packets and Masquerade say about packets
    holds for every pod: exactly in the runs, however stale the controller's reads, in which no setup
    of an interface is cut short. */
module PodWiring {
  import opened Net
  import opened EniController
  import opened Provisioning
  import opened Routing
  import opened Packets
  import opened Masquerade
  import opened IfManager
  import opened IfController
  import opened AllocatorSpec
  import opened EndToEnd
  import opened Wiring

  /** Every interface is configured, if it has addresses for pods. */
  predicate PoolIn(enis: seq<ENI>, conf: seq<ENI>) {
    forall e :: e in enis ==> Bare(e) in conf || e.ips == []
  }

  // ------------------------------------------------------- setting up a node

  /** No setup in the daemon's loop is cut short. */
  predicate HarmlessSetups(h: HostState, cfg: HostConfig, nc: seq<ENI>, i: nat, setups: nat -> Setup)
    requires i <= |nc|
    decreases |nc| - i
  {
    if i == |nc| then true
    else if !nc[i].attached then HarmlessSetups(h, cfg, nc, i + 1, setups)
    else
      var (h1, ok) := SetUp(h, cfg, nc[i], setups(i));
      Harmless(h, cfg, nc[i], setups(i)) && (ok ==> HarmlessSetups(h1, cfg, nc, i + 1, setups))
  }

  predicate AllDeployed(nc: seq<ENI>, ec2: Ec2) {
    forall e :: e in nc && e.attached ==> Deployed(Bare(e), ec2)
  }

  lemma {:induction false} SetUpAllWires(h: HostState, cfg: HostConfig, ec2: Ec2, conf: seq<ENI>,
                                         nc: seq<ENI>, i: nat, setups: nat -> Setup)
    returns (conf': seq<ENI>)
    requires i <= |nc| && HostOK(h, ec2, cfg.net, conf) && OnePerDevice(ec2) && AllDeployed(nc, ec2)
    requires HarmlessSetups(h, cfg, nc, i, setups)
    ensures HostOK(SetUpAll(h, cfg, nc, i, setups).0, ec2, cfg.net, conf') && conf <= conf'
    ensures SetUpAll(h, cfg, nc, i, setups).1.Some? ==> PoolIn(SetUpAll(h, cfg, nc, i, setups).1.value, conf')
    decreases |nc| - i
  {
    conf' := conf;
    if i < |nc| {
      if !nc[i].attached {
        conf' := SetUpAllWires(h, cfg, ec2, conf, nc, i + 1, setups);
      } else {
        var (h1, ok) := SetUp(h, cfg, nc[i], setups(i));
        conf' := SetUpWires(h, cfg, ec2, conf, nc[i], setups(i));
        if ok {
          conf' := SetUpAllWires(h1, cfg, ec2, conf', nc, i + 1, setups);
        }
      }
    }
  }

  /** The loop stops at the setup that is cut short, and leaves its interface unwired. */
  lemma {:induction false} SetUpAllUnwires(h: HostState, cfg: HostConfig, ec2: Ec2, conf: seq<ENI>,
                                           nc: seq<ENI>, i: nat, setups: nat -> Setup)
    returns (e: ENI)
    requires i <= |nc| && HostOK(h, ec2, cfg.net, conf) && OnePerDevice(ec2) && Ec2OK(ec2) && AllDeployed(nc, ec2)
    requires !HarmlessSetups(h, cfg, nc, i, setups)
    ensures Deployed(e, ec2) && Unwired(SetUpAll(h, cfg, nc, i, setups).0, e)
    decreases |nc| - i
  {
    if !nc[i].attached {
      e := SetUpAllUnwires(h, cfg, ec2, conf, nc, i + 1, setups);
    } else if Harmless(h, cfg, nc[i], setups(i)) {
      var conf' := SetUpWires(h, cfg, ec2, conf, nc[i], setups(i));
      e := SetUpAllUnwires(SetUp(h, cfg, nc[i], setups(i)).0, cfg, ec2, conf', nc, i + 1, setups);
    } else {
      e := Bare(nc[i]);
      SetUpBare(h, cfg, nc[i], setups(i));
      WiredIffFinishes(h, cfg, ec2, conf, e, setups(i));
    }
  }

  lemma {:induction false} SetUpAllKeepsUnwired(h: HostState, cfg: HostConfig, ec2: Ec2, e: ENI,
                                                nc: seq<ENI>, i: nat, setups: nat -> Setup)
    requires i <= |nc| && Ec2OK(ec2) && AllDeployed(nc, ec2) && Deployed(e, ec2) && Unwired(h, e)
    ensures Unwired(SetUpAll(h, cfg, nc, i, setups).0, e)
    decreases |nc| - i
  {
    if i < |nc| {
      if !nc[i].attached {
        SetUpAllKeepsUnwired(h, cfg, ec2, e, nc, i + 1, setups);
      } else {
        if LastOf(e) in nc[i].ips {
          DeployedApart(e, Bare(nc[i]), ec2, LastOf(e));
        }
        UnwiredStays(h, cfg, e, nc[i], setups(i));
        SetUpAllKeepsUnwired(SetUp(h, cfg, nc[i], setups(i)).0, cfg, ec2, e, nc, i + 1, setups);
      }
    }
  }

  lemma {:induction false} SetUpAllKeepsAddress(h: HostState, cfg: HostConfig, nc: seq<ENI>, i: nat,
                                                setups: nat -> Setup, ip: Addr, index: int)
    requires i <= |nc| && AddressWired(h, ip, index)
    ensures AddressWired(SetUpAll(h, cfg, nc, i, setups).0, ip, index)
    decreases |nc| - i
  {
    if i < |nc| {
      if !nc[i].attached {
        SetUpAllKeepsAddress(h, cfg, nc, i + 1, setups, ip, index);
      } else {
        AddressStaysWired(h, cfg, nc[i], setups(i), ip, index);
        SetUpAllKeepsAddress(SetUp(h, cfg, nc[i], setups(i)).0, cfg, nc, i + 1, setups, ip, index);
      }
    }
  }

  /** The daemon's call gets as far as setting interfaces up. */
  predicate Configures(o: Ours, self: string) {
    && o.provider.Instance? && o.provider.id == self
    && o.interfaces.Some? && o.interfaces.value.Interfaces?
  }

  /** What the daemon's call does to the allocator. On its own node's record it reports success only when
      the attached interfaces, all of them and no others, are the pool, in memory and in the file; it
      leaves a node that is not its own or has no record alone and reports success, and one it cannot
      make sense of alone and fails. It never touches allocations or hint. */
  lemma HandledMeaning(h: HostState, st: Store, o: Ours, self: string, cfg: HostConfig, setups: nat -> Setup,
                       w: WriteResult)
    ensures var (h', st', ok) := NodeHandled(h, st, o, self, cfg, setups, w);
            && st'.mem.allocations == st.mem.allocations && st'.mem.lastFreed == st.mem.lastFreed
            && (if Configures(o, self) then
                  (ok ==> && st'.disk == Readable(st'.mem)
                          && forall e :: e in st'.mem.enis <==> e in o.interfaces.value.enis && e.attached)
                else h' == h && st' == st
                     && (ok <==> || o.provider.NoProvider?
                                 || (o.provider.Instance? && (o.provider.id != self || o.interfaces.None?))))
  {
    if Configures(o, self) {
      var nc := o.interfaces.value.enis;
      SetUpAllSelects(h, cfg, nc, 0, setups);
      forall e
        ensures e in AttachedFrom(nc, 0) <==> e in nc && e.attached
      {
        AttachedFromMeaning(nc, 0, e);
        assert nc[0..] == nc;
      }
    }
  }

  lemma SkippedEntersPool(h: HostState, cfg: HostConfig, e: ENI, nc: seq<ENI>, setups: nat -> Setup)
    requires e.attached && e in nc && e.ips != [] && SetUpAll(h, cfg, nc, 0, setups).1.Some?
    ensures var enis := SetUpAll(h, cfg, nc, 0, setups).1.value; e in enis && LastOf(e) in Pool(enis)
  {
    SetUpAllSelects(h, cfg, nc, 0, setups);
    AttachedFromMeaning(nc, 0, e);
    InPool(AttachedFrom(nc, 0), LastOf(e));
  }

  lemma LaterSetupsDoNotFinish(h: HostState, cfg: HostConfig, ec2: Ec2, conf: seq<ENI>, e: ENI, first: Setup,
                               nc: seq<ENI>, setups: nat -> Setup)
    requires HostOK(h, ec2, cfg.net, conf) && Ec2OK(ec2) && Deployed(e, ec2)
    requires Names(h, e, first) && e.ips != [] && AllDeployed(nc, ec2)
    ensures AddressWired(SetUpAll(SetUp(h, cfg, e, first).0, cfg, nc, 0, setups).0, LastOf(e), e.index)
            <==> Finishes(cfg, e, first)
  {
    var h1 := SetUp(h, cfg, e, first).0;
    WiredIffFinishes(h, cfg, ec2, conf, e, first);
    if Finishes(cfg, e, first) {
      assert AddressWired(h1, LastOf(e), e.index);
      SetUpAllKeepsAddress(h1, cfg, nc, 0, setups, LastOf(e), e.index);
    } else {
      SetUpAllKeepsUnwired(h1, cfg, ec2, e, nc, 0, setups);
    }
  }

  /** What becomes of a setup that named its interface, at the daemon's next successful call, whatever
      else that sets up: the interface is skipped and enters the pool, and its last address is wired
      if and only if the first setup had finished. */
  lemma RetryWiresIffFinished(h: HostState, ec2: Ec2, conf: seq<ENI>, e: ENI, first: Setup, st: Store, o: Ours,
                              self: string, cfg: HostConfig, setups: nat -> Setup, w: WriteResult)
    requires HostOK(h, ec2, cfg.net, conf) && Ec2OK(ec2)
    requires e.attached && Deployed(Bare(e), ec2) && Names(h, e, first) && e.ips != []
    requires Configures(o, self) && e in o.interfaces.value.enis && AllDeployed(o.interfaces.value.enis, ec2)
    requires SetUpAll(SetUp(h, cfg, e, first).0, cfg, o.interfaces.value.enis, 0, setups).1.Some?
    ensures var (h', st', _) := NodeHandled(SetUp(h, cfg, e, first).0, st, o, self, cfg, setups, w);
            && e in st'.mem.enis && LastOf(e) in Pool(st'.mem.enis)
            && (AddressWired(h', LastOf(e), e.index) <==> Finishes(cfg, e, first))
  {
    SetUpBare(h, cfg, e, first);
    SkippedEntersPool(SetUp(h, cfg, e, first).0, cfg, e, o.interfaces.value.enis, setups);
    LaterSetupsDoNotFinish(h, cfg, ec2, conf, Bare(e), first, o.interfaces.value.enis, setups);
  }

  // ------------------------------------------------------------------- runs

  /** The daemon's step, if it is one, cuts no setup short. */
  predicate HarmlessStep(s: System, step: Step, site: Site) {
    step.Configure? && step.version < |s.world.history| ==>
      var o := OursIn(s.world.history[step.version]);
      Configures(o, site.self) ==> HarmlessSetups(s.host, site.cfg, o.interfaces.value.enis, 0, step.setups)
  }

  /** EC2 attaches only what is free, where it is free. */
  ghost predicate HonestStep(s: System, step: Step, site: Site) {
    step.Provision? && Provisioning.Enabled(s.world, step.event, site.itype) ==> Honest(s.world, step.event, site.cat)
  }

  /** What holds of the controller's side, however stale its reads. */
  predicate Sound(s: System, site: Site)
    requires site.itype in site.cat.enis
  {
    && site.cat.enis[site.itype] <= MAX_INDEX + 1
    && s.world.history != [] && WorldOK(s.world, site.cat, site.itype) && OnePerDevice(s.world.ec2)
  }

  /** The host is configured for exactly `conf`, and so are the pools in memory and on disk. */
  ghost predicate WiredSystem(s: System, site: Site, conf: seq<ENI>)
    requires site.itype in site.cat.enis
  {
    && Sound(s, site) && HostOK(s.host, s.world.ec2, site.cfg.net, conf)
    && (s.mem.Some? ==> PoolIn(s.mem.value.enis, conf))
    && (s.disk.Readable? ==> PoolIn(s.disk.state.enis, conf))
  }

  ghost predicate IsWired(s: System, site: Site)
    requires site.itype in site.cat.enis
  {
    exists conf :: WiredSystem(s, site, conf)
  }

  /** Some interface attached to the node is named on the host and will never be wired. */
  ghost predicate HasUnwired(s: System) {
    exists e :: Deployed(e, s.world.ec2) && Unwired(s.host, e)
  }

  lemma VersionDeployed(w: World, site: Site, v: nat)
    requires site.itype in site.cat.enis && WorldOK(w, site.cat, site.itype)
    requires site.cat.enis[site.itype] <= MAX_INDEX + 1 && v < |w.history|
    ensures AllDeployed(RecordedIn(w.history[v]), w.ec2)
  {
    assert OursOK(OursIn(w.history[v]), site.cat.enis[site.itype], site.itype, w.ec2);
  }

  lemma LinksOKGrows(links: set<int>, ec2: Ec2, ec2': Ec2, conf: seq<ENI>)
    requires LinksOK(links, ec2, conf) && Ec2Grows(ec2, ec2')
    ensures LinksOK(links, ec2', conf)
  {
    forall i | i in links
      ensures exists e :: LinkOf(i, e, ec2', conf)
    {
      var e :| LinkOf(i, e, ec2, conf);
      assert LinkOf(i, e, ec2', conf);
    }
  }

  lemma ProvisionKeepsSound(s: System, ev: Event, site: Site)
    requires site.itype in site.cat.enis && Sound(s, site)
    requires Provisioning.Enabled(s.world, ev, site.itype) && Honest(s.world, ev, site.cat)
    ensures Sound(s.(world := Provisioning.Apply(s.world, ev, site.cat)), site)
    ensures Ec2Grows(s.world.ec2, Provisioning.Apply(s.world, ev, site.cat).ec2)
  {
    StepKeepsOK(s.world, ev, site.cat, site.itype);
    StepKeepsDevices(s.world, ev, site.cat, site.itype);
  }

  lemma PoolInGrows(enis: seq<ENI>, conf: seq<ENI>, conf': seq<ENI>)
    requires PoolIn(enis, conf) && conf <= conf'
    ensures PoolIn(enis, conf')
  {
  }

  /** The daemon's call on any version: if it cuts no setup short the host stays configured, and the
      pool it leaves is among what the host is configured for. */
  lemma NodeHandledWires(h: HostState, st: Store, o: Ours, self: string, cfg: HostConfig, setups: nat -> Setup,
                         w: WriteResult, ec2: Ec2, conf: seq<ENI>) returns (conf': seq<ENI>)
    requires HostOK(h, ec2, cfg.net, conf) && OnePerDevice(ec2) && PoolIn(st.mem.enis, conf)
    requires Configures(o, self) ==> AllDeployed(o.interfaces.value.enis, ec2)
    requires Configures(o, self) ==> HarmlessSetups(h, cfg, o.interfaces.value.enis, 0, setups)
    ensures HostOK(NodeHandled(h, st, o, self, cfg, setups, w).0, ec2, cfg.net, conf') && conf <= conf'
    ensures var st' := NodeHandled(h, st, o, self, cfg, setups, w).1;
            PoolIn(st'.mem.enis, conf') && st'.disk in {st.disk, Torn, Readable(st'.mem)}
  {
    if Configures(o, self) {
      conf' := SetUpAllWires(h, cfg, ec2, conf, o.interfaces.value.enis, 0, setups);
      PoolInGrows(st.mem.enis, conf, conf');
    } else {
      conf' := conf;
    }
  }

  lemma StoreKeepsWired(s: System, s': System, site: Site, conf: seq<ENI>, conf': seq<ENI>)
    requires site.itype in site.cat.enis && WiredSystem(s, site, conf) && conf <= conf'
    requires s'.world == s.world && HostOK(s'.host, s.world.ec2, site.cfg.net, conf')
    requires s'.mem.Some? && PoolIn(s'.mem.value.enis, conf') && s'.disk in {s.disk, Torn, Readable(s'.mem.value)}
    ensures WiredSystem(s', site, conf')
  {
    if s.disk.Readable? {
      PoolInGrows(s.disk.state.enis, conf, conf');
    }
  }

  lemma CommitKeepsPool(st: Store, req: Request, w: WriteResult)
    ensures Commit(st, req, w).0.mem.enis == st.mem.enis
    ensures Commit(st, req, w).0.disk in {st.disk, Torn, Readable(Commit(st, req, w).0.mem)}
  {
  }

  lemma ConfigureKeepsWired(s: System, step: Step, site: Site, conf: seq<ENI>) returns (conf': seq<ENI>)
    requires site.itype in site.cat.enis && WiredSystem(s, site, conf) && step.Configure?
    requires EndToEnd.Enabled(s, step, site) && HarmlessStep(s, step, site)
    ensures WiredSystem(EndToEnd.Apply(s, step, site), site, conf')
  {
    var o := OursIn(s.world.history[step.version]);
    VersionDeployed(s.world, site, step.version);
    conf' := NodeHandledWires(s.host, Store(s.mem.value, s.disk), o, site.self, site.cfg, step.setups, step.w,
                              s.world.ec2, conf);
    StoreKeepsWired(s, EndToEnd.Apply(s, step, site), site, conf, conf');
  }

  lemma StepKeepsWired(s: System, step: Step, site: Site, conf: seq<ENI>) returns (conf': seq<ENI>)
    requires site.itype in site.cat.enis && WiredSystem(s, site, conf)
    requires EndToEnd.Enabled(s, step, site) && HonestStep(s, step, site) && HarmlessStep(s, step, site)
    ensures WiredSystem(EndToEnd.Apply(s, step, site), site, conf')
  {
    conf' := conf;
    var s' := EndToEnd.Apply(s, step, site);
    match step
    case Provision(ev) =>
      ProvisionKeepsSound(s, ev, site);
      LinksOKGrows(s.host.links, s.world.ec2, s'.world.ec2, conf);
    case Configure(_, _, _) =>
      conf' := ConfigureKeepsWired(s, step, site, conf);
    case Allocate(req, w) =>
      CommitKeepsPool(Store(s.mem.value, s.disk), req, w);
      StoreKeepsWired(s, s', site, conf, conf);
    case Free(_, _, _) => StoreKeepsWired(s, s', site, conf, conf);
    case Crash =>
    case Restart =>
  }

  lemma StepKeepsSound(s: System, step: Step, site: Site)
    requires site.itype in site.cat.enis && Sound(s, site)
    requires EndToEnd.Enabled(s, step, site) && HonestStep(s, step, site)
    ensures Sound(EndToEnd.Apply(s, step, site), site)
    ensures Ec2Grows(s.world.ec2, EndToEnd.Apply(s, step, site).world.ec2)
  {
    if step.Provision? {
      ProvisionKeepsSound(s, step.event, site);
    }
  }

  /** A setup cut short on a configured host. */
  lemma StepUnwires(s: System, step: Step, site: Site, conf: seq<ENI>)
    requires site.itype in site.cat.enis && WiredSystem(s, site, conf)
    requires EndToEnd.Enabled(s, step, site) && !HarmlessStep(s, step, site)
    ensures HasUnwired(EndToEnd.Apply(s, step, site))
  {
    var o := OursIn(s.world.history[step.version]);
    VersionDeployed(s.world, site, step.version);
    var e := SetUpAllUnwires(s.host, site.cfg, s.world.ec2, conf, o.interfaces.value.enis, 0, step.setups);
    assert Deployed(e, s.world.ec2) && Unwired(EndToEnd.Apply(s, step, site).host, e);
  }

  /** And it is for good: nothing the system does later wires that interface. */
  lemma StepKeepsUnwired(s: System, step: Step, site: Site)
    requires site.itype in site.cat.enis && Sound(s, site) && HasUnwired(s)
    requires EndToEnd.Enabled(s, step, site) && HonestStep(s, step, site)
    ensures HasUnwired(EndToEnd.Apply(s, step, site))
  {
    var s' := EndToEnd.Apply(s, step, site);
    var e :| Deployed(e, s.world.ec2) && Unwired(s.host, e);
    StepKeepsSound(s, step, site);
    if step.Configure? {
      var o := OursIn(s.world.history[step.version]);
      if Configures(o, site.self) {
        VersionDeployed(s.world, site, step.version);
        SetUpAllKeepsUnwired(s.host, site.cfg, s.world.ec2, e, o.interfaces.value.enis, 0, step.setups);
      }
    }
    assert Deployed(e, s'.world.ec2) && Unwired(s'.host, e);
  }

  lemma NotBoth(s: System, site: Site)
    requires site.itype in site.cat.enis && IsWired(s, site)
    ensures !HasUnwired(s)
  {
    var conf :| WiredSystem(s, site, conf);
    if e :| Deployed(e, s.world.ec2) && Unwired(s.host, e) {
      UnwiredIsNotConfigured(s.host, s.world.ec2, site.cfg.net, conf, e);
      assert false;
    }
  }

  lemma StepDecides(s: System, step: Step, site: Site)
    requires site.itype in site.cat.enis && Sound(s, site) && (IsWired(s, site) || HasUnwired(s))
    requires EndToEnd.Enabled(s, step, site) && HonestStep(s, step, site)
    ensures var s' := EndToEnd.Apply(s, step, site);
            if IsWired(s, site) && HarmlessStep(s, step, site) then IsWired(s', site) else HasUnwired(s')
  {
    if IsWired(s, site) {
      var conf :| WiredSystem(s, site, conf);
      if HarmlessStep(s, step, site) {
        var conf' := StepKeepsWired(s, step, site, conf);
        assert WiredSystem(EndToEnd.Apply(s, step, site), site, conf');
      } else {
        StepUnwires(s, step, site, conf);
      }
    } else {
      StepKeepsUnwired(s, step, site);
    }
  }

  lemma RunDecides(run: seq<System>, steps: seq<Step>, site: Site, k: nat)
    requires EndToEnd.IsRun(run, steps, site) && site.itype in site.cat.enis && k < |steps|
    requires HonestStep(run[k], steps[k], site)
    requires Sound(run[k], site) && (IsWired(run[k], site) || HasUnwired(run[k]))
    ensures Sound(run[k + 1], site)
    ensures if IsWired(run[k], site) && HarmlessStep(run[k], steps[k], site) then IsWired(run[k + 1], site)
            else HasUnwired(run[k + 1])
  {
    StepKeepsSound(run[k], steps[k], site);
    StepDecides(run[k], steps[k], site);
  }

  ghost predicate HarmlessUpTo(run: seq<System>, steps: seq<Step>, site: Site, k: nat)
    requires k <= |steps| && |run| == |steps| + 1
  {
    forall j :: 0 <= j < k ==> HarmlessStep(run[j], steps[j], site)
  }

  /** Pool addresses are wired, in the k-th state of a run from a clean host, across stale reads by the
      controller and crashes of the daemon, if and only if no step before it cut a setup short; and
      otherwise an attached interface is named on the host and never wired. */
  lemma {:induction false} AlwaysWired(run: seq<System>, steps: seq<Step>, site: Site, k: nat)
    requires EndToEnd.IsRun(run, steps, site) && site.itype in site.cat.enis && k < |run|
    requires forall j :: 0 <= j < |steps| ==> HonestStep(run[j], steps[j], site)
    requires Sound(run[0], site) && CleanHost(run[0].host) && run[0].mem.None? && run[0].disk.Missing?
    ensures Sound(run[k], site)
    ensures IsWired(run[k], site) <==> HarmlessUpTo(run, steps, site, k)
    ensures HasUnwired(run[k]) <==> !HarmlessUpTo(run, steps, site, k)
  {
    if k == 0 {
      CleanHostOK(run[0].host, run[0].world.ec2, site.cfg.net);
      assert WiredSystem(run[0], site, []);
    } else {
      AlwaysWired(run, steps, site, k - 1);
      assert HarmlessUpTo(run, steps, site, k)
        <==> HarmlessUpTo(run, steps, site, k - 1) && HarmlessStep(run[k - 1], steps[k - 1], site);
      RunDecides(run, steps, site, k - 1);
    }
    if IsWired(run[k], site) {
      NotBoth(run[k], site);
    }
  }

  // ----------------------------------------------------- what it is good for

  /** The configured interface that owns a pool address, and the address's rules and jump. */
  lemma PoolAddressIsWired(s: System, site: Site, conf: seq<ENI>, ip: Addr) returns (e: ENI)
    requires site.itype in site.cat.enis && WiredSystem(s, site, conf)
    requires s.mem.Some? && ip in Pool(s.mem.value.enis)
    ensures e in conf && ip in e.ips && EniWired(s.host, site.cfg.net, e) && AddressWired(s.host, ip, e.index)
    ensures forall f :: f in conf && ip in f.ips ==> f == e
  {
    InPool(s.mem.value.enis, ip);
    var p :| p in s.mem.value.enis && ip in p.ips;
    e := Bare(p);
    ConfiguredEniWired(s.host, site.cfg.net, conf, e);
    forall f | f in conf && ip in f.ips
      ensures f == e
    {
      DeployedApart(e, f, s.world.ec2, ip);
    }
  }

  /** The capstone: in every such state, every packet from any address the allocator could hand out, to
      anywhere but the host and its pods, is routed in one ENI's table, over the device and next hop
      its destination calls for, and with masquerading on it is masqueraded exactly when it leaves the
      blocks that are exempt. */
  lemma EveryPodPacketIsRouted(s: System, site: Site, conf: seq<ENI>, src: Addr, dst: Addr) returns (e: ENI)
    requires site.itype in site.cat.enis && WiredSystem(s, site, conf)
    requires s.mem.Some? && src in Pool(s.mem.value.enis)
    requires dst !in Pool(conf) && Best(TableOf(s.host.kernel, LOCAL_TABLE), dst).None?
    ensures e in conf && src in e.ips
    ensures var net, hop := site.cfg.net, Resolve(s.host.kernel, src, dst);
            && hop.Some? && hop.value.table == TableNumber(e.index)
            && hop.value.route.dev
               == (if net.podIPMasq && !StaysOnEni(net, e.cidr, dst) then PrimaryDevice else EniDevice(e.index))
            && hop.value.route.gw == (if OnLink(net, e.cidr, dst) then None else Some(Gateway(e.cidr)))
    ensures IsMasqueraded(s.host.ipt, src, dst) <==> !Exempt(site.cfg.net, dst)
    ensures site.cfg.net.podIPMasq && !IsMulticast(dst) ==>
              && (LeavesByPrimary(s.host.kernel, src, dst) ==> IsMasqueraded(s.host.ipt, src, dst))
              && (!IsMasqueraded(s.host.ipt, src, dst)
                  ==> Resolve(s.host.kernel, src, dst).value.route.dev == EniDevice(e.index))
  {
    e := PoolAddressIsWired(s, site, conf, src);
    PodPacket(s.host.kernel, site.cfg.net, conf, e, src, dst);
    VerdictMeaning(s.host.ipt, site.cfg.net, src, dst);
    if site.cfg.net.podIPMasq {
      RoutingAgreesWithNat(s.host.kernel, s.host.ipt, site.cfg.net, conf, e, src, dst);
    }
  }

  /** The interfaces any version records get route tables of their own, none of them the kernel's, for
      every instance type. */
  lemma RecordedTablesAreSeparate(w: World, site: Site, v: nat, i: nat, j: nat)
    requires site.itype in site.cat.enis && site.cat.enis[site.itype] <= MAX_INDEX + 1
    requires WorldOK(w, site.cat, site.itype)
    requires v < |w.history| && i < |RecordedIn(w.history[v])| && j < |RecordedIn(w.history[v])|
    ensures var nc := RecordedIn(w.history[v]);
            && (TableNumber(nc[i].index) == TableNumber(nc[j].index) <==> i == j)
            && TableNumber(nc[i].index) !in {LOCAL_TABLE, MAIN_TABLE, DEFAULT_TABLE}
  {
  }
}
