/** The pieces together: the controller records interfaces on the node, the daemon sets up the
    attached ones it reads there and gives their addresses to the allocator, pods are allocated from
    that pool. Runs interleave all of it with stale reads, failures, crashes and restarts. */
module EndToEnd {
  import opened Net
  import opened NodeObject
  import opened EniController
  import opened Provisioning
  import opened ProvisioningAnswers
  import opened IfManager
  import opened IfController
  import opened AllocatorSpec
  import Conservation

  /** `told`: every allocation ever reported to a caller. */
  datatype System = System(world: World, host: HostState, mem: Option<State>, disk: Disk, told: set<Allocation>)

  datatype Site = Site(cat: Catalog, itype: string, self: string, cfg: HostConfig)

  datatype Step =
    | Provision(event: Event)
    | Configure(version: nat, setups: nat -> Setup, w: WriteResult)
    | Allocate(req: Request, w: WriteResult)
    | Free(container: string, ip: Option<Addr>, w: WriteResult)
    | Crash
    | Restart

  ghost predicate Enabled(s: System, step: Step, site: Site) {
    match step
    case Provision(ev) => Provisioning.Enabled(s.world, ev, site.itype)
    case Configure(v, _, _) => s.mem.Some? && v < |s.world.history|
    case Allocate(_, _) => s.mem.Some?
    case Free(c, ip, _) => s.mem.Some? && Releasable(s.mem.value, c, ip)
    case Crash => s.mem.Some?
    case Restart => s.mem.None? && Load(s.disk).Some?
  }

  ghost function Apply(s: System, step: Step, site: Site): System
    requires s.world.history != [] && Enabled(s, step, site)
  {
    match step
    case Provision(ev) => s.(world := Provisioning.Apply(s.world, ev, site.cat))
    case Configure(v, setups, w) =>
      var o := OursIn(s.world.history[v]);
      var (h, st, _) := NodeHandled(s.host, Store(s.mem.value, s.disk), o, site.self, site.cfg, setups, w);
      s.(host := h, mem := Some(st.mem), disk := st.disk)
    case Allocate(req, w) =>
      var (st, o) := Commit(Store(s.mem.value, s.disk), req, w);
      s.(mem := Some(st.mem), disk := st.disk, told := if o.Allocated? then s.told + {o.allocation} else s.told)
    case Free(_, ip, w) =>
      var st := Release(Store(s.mem.value, s.disk), ip, w);
      s.(mem := Some(st.mem), disk := st.disk)
    case Crash => s.(mem := None)
    case Restart => s.(mem := Load(s.disk))
  }

  ghost predicate IsRun(run: seq<System>, steps: seq<Step>, site: Site) {
    && |run| == |steps| + 1
    && (forall k :: 0 <= k < |run| ==> run[k].world.history != [])
    && (forall k :: 0 <= k < |steps| ==> Enabled(run[k], steps[k], site))
    && (forall k :: 0 <= k < |steps| ==> run[k + 1] == Apply(run[k], steps[k], site))
  }

  // -------------------------------------------------- what the daemon selects

  lemma {:induction false} AttachedFromMeaning(nc: seq<ENI>, i: nat, e: ENI)
    requires i <= |nc|
    ensures e in AttachedFrom(nc, i) <==> e.attached && e in nc[i..]
    decreases |nc| - i
  {
    if i < |nc| {
      AttachedFromMeaning(nc, i + 1, e);
      assert nc[i..] == [nc[i]] + nc[i + 1..];
    }
  }

  // ----------------------------------------------------------- provenance

  /** The allocation's address, ENI address and subnet are those of an interface recorded as attached
      in this version. */
  predicate OwnedIn(a: Allocation, n: Node) {
    exists e :: e in RecordedIn(n) && e.attached && a.ip in e.ips && a.eniIP == e.interfaceIP && a.subnet == e.cidr
  }

  predicate Owned(a: Allocation, history: seq<Node>) {
    exists k :: 0 <= k < |history| && OwnedIn(a, history[k])
  }

  predicate PoolFrom(enis: seq<ENI>, history: seq<Node>) {
    enis == [] || exists k :: 0 <= k < |history| && enis == AttachedFrom(RecordedIn(history[k]), 0)
  }

  predicate StateFrom(st: State, history: seq<Node>) {
    && PoolFrom(st.enis, history)
    && forall ip :: ip in st.allocations ==> st.allocations[ip].ip == ip && Owned(st.allocations[ip], history)
  }

  predicate Sourced(s: System, site: Site)
    requires site.itype in site.cat.enis
  {
    && WorldOK(s.world, site.cat, site.itype)
    && (s.mem.Some? ==> StateFrom(s.mem.value, s.world.history))
    && (s.disk.Readable? ==> StateFrom(s.disk.state, s.world.history))
    && (forall a :: a in s.told ==> Owned(a, s.world.history))
  }

  lemma HistoryGrows(w: World, ev: Event, site: Site)
    requires w.history != [] && Provisioning.Enabled(w, ev, site.itype)
    ensures w.history <= Provisioning.Apply(w, ev, site.cat).history
  {
    StepAdds(w, ev, site.cat, site.itype);
  }

  lemma OwnedGrows(a: Allocation, h: seq<Node>, h': seq<Node>)
    requires h <= h' && Owned(a, h)
    ensures Owned(a, h')
  {
  }

  lemma StateFromGrows(st: State, h: seq<Node>, h': seq<Node>)
    requires h <= h' && StateFrom(st, h)
    ensures StateFrom(st, h')
  {
  }

  lemma PoolAddressIsOwned(a: Allocation, e: ENI, enis: seq<ENI>, history: seq<Node>)
    requires PoolFrom(enis, history) && e in enis
    requires a.ip in e.ips && a.eniIP == e.interfaceIP && a.subnet == e.cidr
    ensures Owned(a, history)
  {
    var k :| 0 <= k < |history| && enis == AttachedFrom(RecordedIn(history[k]), 0);
    AttachedFromMeaning(RecordedIn(history[k]), 0, e);
    assert OwnedIn(a, history[k]);
  }

  lemma MoreOwned(st: State, a: Allocation, history: seq<Node>)
    requires StateFrom(st, history) && Owned(a, history)
    ensures StateFrom(st.(allocations := st.allocations[a.ip := a]), history)
  {
  }

  /** What a commit hands out is owned by an interface of the version its pool came from. */
  lemma CommitIsOwned(st: Store, req: Request, w: WriteResult, history: seq<Node>)
    requires StateFrom(st.mem, history)
    ensures StateFrom(Commit(st, req, w).0.mem, history)
    ensures Commit(st, req, w).1.Allocated? ==> Owned(Commit(st, req, w).1.allocation, history)
    ensures Commit(st, req, w).0.disk in {st.disk, Torn, Readable(Commit(st, req, w).0.mem)}
  {
    PickIffFree(st.mem);
    if Pick(st.mem).Some? {
      var ip := Pick(st.mem).value;
      OwnerMeaning(st.mem.enis, ip);
      var e := OwnerOf(st.mem.enis, ip).value;
      var a := Allocation(req, ip, e.interfaceIP, e.cidr);
      PoolAddressIsOwned(a, e, st.mem.enis, history);
      MoreOwned(st.mem, a, history);
      assert Commit(st, req, w).0.mem == st.mem.(allocations := st.mem.allocations[ip := a]);
    }
  }

  lemma ConfigureIsFromVersion(s: System, v: nat, setups: nat -> Setup, w: WriteResult, site: Site)
    requires s.mem.Some? && v < |s.world.history| && StateFrom(s.mem.value, s.world.history)
    ensures var o := OursIn(s.world.history[v]);
            var st := NodeHandled(s.host, Store(s.mem.value, s.disk), o, site.self, site.cfg, setups, w).1;
            && StateFrom(st.mem, s.world.history)
            && st.disk in {s.disk, Torn, Readable(st.mem)}
  {
    var o := OursIn(s.world.history[v]);
    if o.interfaces.Some? && o.interfaces.value.Interfaces? {
      SetUpAllSelects(s.host, site.cfg, o.interfaces.value.enis, 0, setups);
      assert RecordedIn(s.world.history[v]) == o.interfaces.value.enis;
    }
  }

  lemma ProvisionKeepsSourced(s: System, ev: Event, site: Site)
    requires site.itype in site.cat.enis && s.world.history != [] && Sourced(s, site)
    requires Provisioning.Enabled(s.world, ev, site.itype)
    ensures Sourced(s.(world := Provisioning.Apply(s.world, ev, site.cat)), site)
  {
    var h, h' := s.world.history, Provisioning.Apply(s.world, ev, site.cat).history;
    StepKeepsOK(s.world, ev, site.cat, site.itype);
    HistoryGrows(s.world, ev, site);
    if s.mem.Some? {
      StateFromGrows(s.mem.value, h, h');
    }
    if s.disk.Readable? {
      StateFromGrows(s.disk.state, h, h');
    }
    forall a | a in s.told
      ensures Owned(a, h')
    {
      OwnedGrows(a, h, h');
    }
  }

  lemma ReleaseKeepsState(st: Store, ip: Option<Addr>, w: WriteResult, history: seq<Node>)
    requires StateFrom(st.mem, history)
    ensures StateFrom(Release(st, ip, w).mem, history)
  {
  }

  lemma StoreKeepsSourced(s: System, s': System, site: Site)
    requires site.itype in site.cat.enis && Sourced(s, site) && s'.world == s.world
    requires s'.mem.Some? && StateFrom(s'.mem.value, s.world.history)
    requires s'.disk in {s.disk, Torn, Readable(s'.mem.value)}
    requires forall a :: a in s'.told ==> a in s.told || Owned(a, s.world.history)
    ensures Sourced(s', site)
  {
  }

  lemma StepKeepsSourced(s: System, step: Step, site: Site)
    requires site.itype in site.cat.enis && s.world.history != [] && Sourced(s, site) && Enabled(s, step, site)
    ensures Sourced(Apply(s, step, site), site)
  {
    match step
    case Provision(ev) => ProvisionKeepsSourced(s, ev, site);
    case Configure(v, setups, w) =>
      ConfigureIsFromVersion(s, v, setups, w, site);
      StoreKeepsSourced(s, Apply(s, step, site), site);
    case Allocate(req, w) =>
      CommitIsOwned(Store(s.mem.value, s.disk), req, w, s.world.history);
      StoreKeepsSourced(s, Apply(s, step, site), site);
    case Free(_, ip, w) =>
      ReleaseKeepsState(Store(s.mem.value, s.disk), ip, w, s.world.history);
      StoreKeepsSourced(s, Apply(s, step, site), site);
    case Crash =>
    case Restart =>
  }

  lemma StepKeepsWorldSubnets(s: System, step: Step, site: Site)
    requires s.world.history != [] && Enabled(s, step, site) && SubnetsRecorded(s.world)
    ensures SubnetsRecorded(Apply(s, step, site).world)
  {
    if step.Provision? {
      StepKeepsSubnets(s.world, step.event, site.cat, site.itype);
    }
  }

  /** Some version records an info with this subnet. */
  ghost predicate SubnetKnown(subnet: Block, history: seq<Node>) {
    exists v: nat :: v < |history| && SubnetOn(history[v]) == Some(subnet)
  }

  lemma OwnedSubnet(a: Allocation, s: System, site: Site)
    requires site.itype in site.cat.enis && Sourced(s, site) && Owned(a, s.world.history)
    ensures exists id :: id in s.world.ec2.created && s.world.ec2.created[id].cidr == a.subnet
  {
    var k :| 0 <= k < |s.world.history| && OwnedIn(a, s.world.history[k]);
    var e :| e in RecordedIn(s.world.history[k]) && a.subnet == e.cidr;
    assert OursOK(OursIn(s.world.history[k]), site.cat.enis[site.itype], site.itype, s.world.ec2);
    assert s.world.ec2.created[e.id].cidr == e.cidr;
  }

  lemma ToldSubnets(s: System, site: Site, a: Allocation)
    requires site.itype in site.cat.enis && Sourced(s, site) && SubnetsRecorded(s.world) && a in s.told
    ensures SubnetKnown(a.subnet, s.world.history)
  {
    OwnedSubnet(a, s, site);
  }

  /** Provenance over whole runs: however stale the reads and whatever fails, every allocation ever
      reported is of an address, ENI address and subnet that some version of the node records
      together for an attached interface; and the subnet is one that some version records in the
      instance's info. */
  lemma {:induction false} AlwaysSourced(run: seq<System>, steps: seq<Step>, site: Site, k: nat)
    requires IsRun(run, steps, site) && site.itype in site.cat.enis && Sourced(run[0], site) && k < |run|
    ensures Sourced(run[k], site)
    ensures SubnetsRecorded(run[0].world) ==>
              && SubnetsRecorded(run[k].world)
              && forall a :: a in run[k].told ==> SubnetKnown(a.subnet, run[k].world.history)
  {
    if k > 0 {
      AlwaysSourced(run, steps, site, k - 1);
      StepKeepsSourced(run[k - 1], steps[k - 1], site);
      if SubnetsRecorded(run[0].world) {
        StepKeepsWorldSubnets(run[k - 1], steps[k - 1], site);
      }
    }
    if SubnetsRecorded(run[0].world) {
      forall a | a in run[k].told
        ensures SubnetKnown(a.subnet, run[k].world.history)
      {
        ToldSubnets(run[k], site, a);
      }
    }
  }

  lemma StepKeepsWorldInSubnet(s: System, step: Step, site: Site, subnet: Block)
    requires s.world.history != [] && Enabled(s, step, site) && InSubnet(s.world, subnet)
    requires step.Provision? ==> Describes(step.event, subnet)
    ensures InSubnet(Apply(s, step, site).world, subnet)
  {
    if step.Provision? {
      StepKeepsInSubnet(s.world, step.event, site.cat, site.itype, subnet);
    }
  }

  lemma {:induction false} WorldInSubnet(run: seq<System>, steps: seq<Step>, site: Site, subnet: Block, k: nat)
    requires IsRun(run, steps, site) && InSubnet(run[0].world, subnet) && k < |run|
    requires forall j :: 0 <= j < |steps| && steps[j].Provision? ==> Describes(steps[j].event, subnet)
    ensures InSubnet(run[k].world, subnet)
  {
    if k > 0 {
      WorldInSubnet(run, steps, site, subnet, k - 1);
      StepKeepsWorldInSubnet(run[k - 1], steps[k - 1], site, subnet);
    }
  }

  /** So if EC2 describes one subnet for the node, every allocation ever reported is reported with it. */
  lemma AllocatedInSubnet(run: seq<System>, steps: seq<Step>, site: Site, subnet: Block, k: nat, a: Allocation)
    requires IsRun(run, steps, site) && site.itype in site.cat.enis && Sourced(run[0], site) && k < |run|
    requires InSubnet(run[0].world, subnet)
    requires forall j :: 0 <= j < |steps| && steps[j].Provision? ==> Describes(steps[j].event, subnet)
    requires a in run[k].told
    ensures a.subnet == subnet
  {
    AlwaysSourced(run, steps, site, k);
    WorldInSubnet(run, steps, site, subnet, k);
    OwnedSubnet(a, run[k], site);
  }

  /** And what that means at EC2: the address is a secondary address of exactly one interface ever
      created, that interface is attached and has the reported address and subnet, and the address is
      no interface's own. */
  lemma OwnedAtEc2(a: Allocation, s: System, site: Site)
    requires site.itype in site.cat.enis && Sourced(s, site) && Owned(a, s.world.history)
    ensures exists id :: id in s.world.ec2.created && AttachmentOf(s.world.ec2.created[id]) in s.world.ec2.attached
                      && a.ip in s.world.ec2.created[id].ips
                      && s.world.ec2.created[id].interfaceIP == a.eniIP && s.world.ec2.created[id].cidr == a.subnet
    ensures forall id, id' | id in s.world.ec2.created && id' in s.world.ec2.created
                             && a.ip in s.world.ec2.created[id].ips && a.ip in s.world.ec2.created[id'].ips :: id == id'
    ensures forall id :: id in s.world.ec2.created ==> s.world.ec2.created[id].interfaceIP != a.ip
  {
  }

  lemma {:induction false} AttachedFromEc2(nc: seq<ENI>, i: nat, ec2: Ec2)
    requires i <= |nc| && FromEc2(nc, ec2)
    ensures FromEc2(AttachedFrom(nc, i), ec2)
    decreases |nc| - i
  {
    if i < |nc| {
      AttachedFromEc2(nc, i + 1, ec2);
      var rest := AttachedFrom(nc, i + 1);
      forall j | 0 <= j < |rest|
        ensures rest[j].id != nc[i].id
      {
        AttachedFromMeaning(nc, i + 1, rest[j]);
        var m :| 0 <= m < |nc[i + 1..]| && nc[i + 1..][m] == rest[j];
        assert nc[i + 1 + m].id != nc[i].id;
      }
      assert AttachedFrom(nc, i) == (if nc[i].attached then [nc[i]] else []) + rest;
    }
  }

  /** In every state of every run the pool has no repeats, so free plus allocated is the whole pool. */
  lemma PoolIsConserved(run: seq<System>, steps: seq<Step>, site: Site, k: nat)
    requires IsRun(run, steps, site) && site.itype in site.cat.enis && Sourced(run[0], site) && k < |run|
    requires run[k].mem.Some?
    ensures var s := run[k].mem.value;
            && Distinct(Pool(s.enis))
            && FreeCount(s) + |Conservation.TakenFrom(s)| == |Pool(s.enis)|
  {
    AlwaysSourced(run, steps, site, k);
    var w, s := run[k].world, run[k].mem.value;
    if s.enis != [] {
      var v :| 0 <= v < |w.history| && s.enis == AttachedFrom(RecordedIn(w.history[v]), 0);
      assert OursOK(OursIn(w.history[v]), site.cat.enis[site.itype], site.itype, w.ec2);
      AttachedFromEc2(RecordedIn(w.history[v]), 0, w.ec2);
      RecordedPoolIsSound(s.enis, w.ec2);
    }
    Conservation.Conserved(s);
  }
}
