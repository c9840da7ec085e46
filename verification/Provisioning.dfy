/** Every run of the provisioning controller over the versioned node object, with caches that may
    be arbitrarily stale, other clients writing in between, and requests that fail. */
module Provisioning {
  import opened Net
  import opened NodeObject
  import opened EniController

  datatype Event = Other(writer: Writer) | Handle(version: nat, env: Env)

  /** Another client that leaves the controller's part of the node alone. */
  ghost predicate Respects(w: Writer) {
    forall n :: OursIn(w(n)) == OursIn(n)
  }

  ghost predicate Polite(env: seq<Attempt>) {
    forall k, w :: 0 <= k < |env| && (w in env[k].before || w in env[k].during) ==> Respects(w)
  }

  /** EC2 hands out identifiers and addresses that were never handed out before. */
  predicate FreshInterface(ec2: Ec2, ni: NetworkInterface) {
    && ni.id !in ec2.created
    && ni.primary in ni.addresses && Distinct(ni.addresses)
    && forall a :: a in ni.addresses ==> a !in ec2.used
  }

  /** A call may read any version there ever was. An instance keeps its type. */
  ghost predicate Enabled(w: World, ev: Event, itype: string) {
    match ev
    case Other(writer) => Respects(writer)
    case Handle(v, env) =>
      && v < |w.history| && Polite(env.update)
      && (env.describe.Some? ==> env.describe.value.instanceType == itype)
      && (env.create.Some? ==> FreshInterface(w.ec2, env.create.value))
  }

  function Apply(w: World, ev: Event, cat: Catalog): World
    requires w.history != [] && (ev.Handle? ==> ev.version < |w.history|)
    ensures Apply(w, ev, cat).history != []
  {
    match ev
    case Other(writer) => w.(history := w.history + [writer(Latest(w.history))])
    case Handle(v, env) => Handled(w, OursIn(w.history[v]), cat, env).0
  }

  ghost predicate IsRun(run: seq<World>, events: seq<Event>, cat: Catalog, itype: string) {
    && |run| == |events| + 1
    && (forall k :: 0 <= k < |run| ==> run[k].history != [])
    && forall k :: 0 <= k < |events| ==>
         Enabled(run[k], events[k], itype) && run[k + 1] == Apply(run[k], events[k], cat)
  }

  // ----------------------------------------------------- what a version records

  /** The interfaces a version records; none if its annotation does not decode. */
  function RecordedIn(n: Node): seq<ENI> {
    var enis := Recorded(OursIn(n));
    if enis.None? then [] else enis.value
  }

  /** The node has all a call needs to get as far as attaching or creating. */
  predicate Ready(o: Ours, cat: Catalog) {
    && o.provider.Instance? && o.instance.Some? && o.info.Some? && o.info.value.Info?
    && o.info.value.info.instanceType in cat.enis && o.info.value.info.instanceType in cat.ips
  }

  /** The interface as it was created. */
  function Bare(e: ENI): ENI {
    e.(attached := false)
  }

  /** At most limit - 1 interfaces, numbered from 1 by position, only the last possibly unattached. */
  predicate Bounded(enis: seq<ENI>, limit: int) {
    && |enis| <= limit - 1
    && (forall i :: 0 <= i < |enis| ==> enis[i].index == i + 1)
    && (forall i :: 0 <= i < |enis| - 1 ==> enis[i].attached)
  }

  /** What is recorded is what EC2 created, each interface once, and attached only if EC2 attached it. */
  predicate FromEc2(enis: seq<ENI>, ec2: Ec2) {
    && (forall i :: 0 <= i < |enis| ==>
          && enis[i].id in ec2.created && ec2.created[enis[i].id] == Bare(enis[i])
          && (enis[i].attached ==> AttachmentOf(enis[i]) in ec2.attached))
    && (forall i, j :: 0 <= i < j < |enis| ==> enis[i].id != enis[j].id)
  }

  predicate OursOK(o: Ours, limit: int, itype: string, ec2: Ec2) {
    && (o.info.Some? ==> o.info.value.Info? && o.info.value.info.instanceType == itype)
    && Recorded(o).Some?
    && Bounded(Recorded(o).value, limit)
    && FromEc2(Recorded(o).value, ec2)
  }

  predicate Shares(c: ENI, d: ENI) {
    c.interfaceIP == d.interfaceIP || c.interfaceIP in d.ips || d.interfaceIP in c.ips || !Disjoint(c.ips, d.ips)
  }

  /** Created interfaces have distinct addresses, never share one, and all of them are used up. */
  predicate Ec2OK(ec2: Ec2) {
    && (forall id :: id in ec2.created ==>
          var c := ec2.created[id];
          && c.id == id && c.interfaceIP in ec2.used && (forall a :: a in c.ips ==> a in ec2.used)
          && c.interfaceIP !in c.ips && Distinct(c.ips))
    && (forall id, id' :: id in ec2.created && id' in ec2.created && id != id'
                          ==> !Shares(ec2.created[id], ec2.created[id']))
  }

  predicate HistoryOK(history: seq<Node>, limit: int, itype: string, ec2: Ec2) {
    forall k :: 0 <= k < |history| ==> OursOK(OursIn(history[k]), limit, itype, ec2)
  }

  predicate WorldOK(w: World, cat: Catalog, itype: string)
    requires itype in cat.enis
  {
    && Ec2OK(w.ec2)
    && HistoryOK(w.history, cat.enis[itype], itype, w.ec2)
  }

  // ------------------------------------------------------------ single updates

  /** What a change does to the controller's part of whatever version it is applied to. */
  function OnOurs(c: Change, o: Ours): Ours {
    match c
    case SetInfo(info) => o.(info := Some(Info(info)))
    case SetLabelled(iid) => o.(instance := Some(iid))
    case SetInterfaces(enis) => o.(interfaces := Some(Interfaces(enis)))
  }

  lemma MutatorOnOurs(c: Change, n: Node)
    ensures OursIn(Mutator(c)(n)) == OnOurs(c, OursIn(n))
  {
    KeysDiffer();
  }

  lemma PoliteKeeps(env: seq<Attempt>, p: Node -> bool)
    requires Polite(env) && forall n, m :: OursIn(n) == OursIn(m) && p(n) ==> p(m)
    ensures AllKeep(env, p)
  {
    forall k, w | 0 <= k < |env| && (w in env[k].before || w in env[k].during)
      ensures Keeps(w, p)
    {
      assert Respects(w);
      forall n | p(n)
        ensures p(w(n))
      {
        assert OursIn(w(n)) == OursIn(n);
      }
    }
  }

  /** A property of the controller's part that holds of every version, and that the mutator keeps,
      holds of every version after the update. */
  lemma UpdateKeepsAll(history: seq<Node>, mutate: Node -> Node, env: seq<Attempt>, p: Node -> bool)
    requires history != [] && Polite(env)
    requires forall n, m :: OursIn(n) == OursIn(m) && p(n) ==> p(m)
    requires forall k :: 0 <= k < |history| ==> p(history[k])
    requires forall n :: p(n) ==> p(mutate(n))
    ensures var h := Updated(history, mutate, env).history;
            history <= h && forall k :: 0 <= k < |h| ==> p(h[k])
  {
    PoliteKeeps(env, p);
    UpdateMeaning(history, mutate, env, p);
    var h := Updated(history, mutate, env).history;
    forall k | 0 <= k < |h|
      ensures p(h[k])
    {
      if k < |history| {
        assert h[k] == history[k];
      }
    }
  }

  // ---------------------------------------------------------- stale-read safety

  lemma {:induction false} SecondariesMeaning(addresses: seq<Addr>, primary: Addr, a: Addr)
    ensures a in Secondaries(addresses, primary) <==> a in addresses && a != primary
  {
    if addresses != [] {
      var n := |addresses| - 1;
      SecondariesMeaning(addresses[..n], primary, a);
      assert addresses == addresses[..n] + [addresses[n]];
    }
  }

  lemma {:induction false} SecondariesDistinct(addresses: seq<Addr>, primary: Addr)
    requires Distinct(addresses)
    ensures Distinct(Secondaries(addresses, primary))
  {
    if addresses != [] {
      var n := |addresses| - 1;
      var front := Secondaries(addresses[..n], primary);
      SecondariesDistinct(addresses[..n], primary);
      SecondariesMeaning(addresses[..n], primary, addresses[n]);
      assert addresses[n] !in addresses[..n];
      assert forall i :: 0 <= i < |front| ==> front[i] in front;
    }
  }

  lemma CreateKeepsEc2(ec2: Ec2, ni: NetworkInterface, index: int, cidr: Block)
    requires Ec2OK(ec2) && FreshInterface(ec2, ni)
    ensures Ec2OK(AfterCreate(ec2, ni, NewENI(ni, index, cidr)))
  {
    var c := NewENI(ni, index, cidr);
    SecondariesDistinct(ni.addresses, ni.primary);
    forall a
      ensures a in c.ips <==> a in ni.addresses && a != ni.primary
    {
      SecondariesMeaning(ni.addresses, ni.primary, a);
    }
    forall id | id in ec2.created
      ensures !Shares(c, ec2.created[id]) && !Shares(ec2.created[id], c)
    {
    }
  }

  lemma AttachKeepsRecord(enis: seq<ENI>, k: nat, limit: int, ec2: Ec2)
    requires Bounded(enis, limit) && FromEc2(enis, ec2) && k < |enis|
    ensures Bounded(MarkAttached(enis, k), limit)
    ensures FromEc2(MarkAttached(enis, k), ec2.(attached := ec2.attached + {AttachmentOf(enis[k])}))
  {
  }

  lemma CreateKeepsRecord(enis: seq<ENI>, limit: int, ec2: Ec2, ni: NetworkInterface, cidr: Block)
    requires Bounded(enis, limit) && FromEc2(enis, ec2) && FreshInterface(ec2, ni)
    requires |enis| < limit - 1 && forall i :: 0 <= i < |enis| ==> enis[i].attached
    ensures var eni := NewENI(ni, |enis| + 1, cidr);
            Bounded(enis + [eni], limit) && FromEc2(enis + [eni], AfterCreate(ec2, ni, eni))
  {
  }

  /** EC2's record only grows, so what versions record stays true of it. */
  lemma GrowingKeepsHistory(history: seq<Node>, limit: int, itype: string, ec2: Ec2, ec2': Ec2)
    requires HistoryOK(history, limit, itype, ec2)
    requires Ec2Grows(ec2, ec2')
    ensures HistoryOK(history, limit, itype, ec2')
  {
  }

  /** A change that keeps any version in order. */
  predicate ChangeOK(c: Change, limit: int, itype: string, ec2: Ec2) {
    match c
    case SetInfo(info) => info.instanceType == itype
    case SetLabelled(_) => true
    case SetInterfaces(enis) => Bounded(enis, limit) && FromEc2(enis, ec2)
  }

  lemma ChangeKeepsHistory(history: seq<Node>, c: Change, env: seq<Attempt>, limit: int, itype: string, ec2: Ec2)
    requires history != [] && Polite(env)
    requires HistoryOK(history, limit, itype, ec2) && ChangeOK(c, limit, itype, ec2)
    ensures HistoryOK(Updated(history, Mutator(c), env).history, limit, itype, ec2)
  {
    var p := (n: Node) => OursOK(OursIn(n), limit, itype, ec2);
    forall n | p(n)
      ensures p(Mutator(c)(n))
    {
      MutatorOnOurs(c, n);
    }
    UpdateKeepsAll(history, Mutator(c), env, p);
  }

  predicate Ec2Grows(ec2: Ec2, ec2': Ec2) {
    && ec2.attached <= ec2'.attached
    && forall id :: id in ec2.created ==> id in ec2'.created && ec2'.created[id] == ec2.created[id]
  }

  predicate InOrder(ec2: Ec2, ec2': Ec2, c: Change, limit: int, itype: string) {
    Ec2OK(ec2') && Ec2Grows(ec2, ec2') && ChangeOK(c, limit, itype, ec2')
  }

  lemma AttachInOrder(ec2: Ec2, enis: seq<ENI>, k: nat, limit: int, itype: string)
    requires Ec2OK(ec2) && Bounded(enis, limit) && FromEc2(enis, ec2) && k < |enis|
    ensures InOrder(ec2, ec2.(attached := ec2.attached + {AttachmentOf(enis[k])}),
                    SetInterfaces(MarkAttached(enis, k)), limit, itype)
  {
    AttachKeepsRecord(enis, k, limit, ec2);
  }

  lemma CreateInOrder(ec2: Ec2, enis: seq<ENI>, ni: NetworkInterface, cidr: Block, limit: int, itype: string)
    requires Ec2OK(ec2) && Bounded(enis, limit) && FromEc2(enis, ec2) && FreshInterface(ec2, ni)
    requires |enis| < limit - 1 && forall i :: 0 <= i < |enis| ==> enis[i].attached
    ensures var eni := NewENI(ni, |enis| + 1, cidr);
            InOrder(ec2, AfterCreate(ec2, ni, eni), SetInterfaces(enis + [eni]), limit, itype)
  {
    CreateKeepsEc2(ec2, ni, |enis| + 1, cidr);
    CreateKeepsRecord(enis, limit, ec2, ni, cidr);
  }

  lemma PlanMeaning(o: Ours, cat: Catalog)
    ensures match Plan(o, cat)
            case Attach(enis, k) => Recorded(o) == Some(enis) && k == FirstUnattached(enis, 0) && k < |enis|
            case Create(enis, info) =>
              && Recorded(o) == Some(enis) && FirstUnattached(enis, 0) == |enis| && o.info == Some(Info(info))
              && info.instanceType in cat.enis && |enis| < cat.enis[info.instanceType] - 1
            case _ => true
  {
  }

  lemma PlannedAttachIsOK(ec2: Ec2, o: Ours, cat: Catalog, env: Env, itype: string)
    requires itype in cat.enis && Ec2OK(ec2) && OursOK(o, cat.enis[itype], itype, ec2) && Plan(o, cat).Attach?
    ensures var c, ec2' := ChangeOf(o, cat, env), Ec2After(ec2, o, cat, env);
            && Ec2OK(ec2') && Ec2Grows(ec2, ec2')
            && (c.Some? ==> InOrder(ec2, ec2', c.value, cat.enis[itype], itype))
  {
    PlanMeaning(o, cat);
    AttachInOrder(ec2, Plan(o, cat).enis, Plan(o, cat).position, cat.enis[itype], itype);
  }

  lemma PlannedCreateIsOK(ec2: Ec2, o: Ours, cat: Catalog, env: Env, itype: string)
    requires itype in cat.enis && Ec2OK(ec2) && OursOK(o, cat.enis[itype], itype, ec2) && Plan(o, cat).Create?
    requires env.create.Some? && FreshInterface(ec2, env.create.value)
    ensures var c, ec2' := ChangeOf(o, cat, env), Ec2After(ec2, o, cat, env);
            c.Some? && InOrder(ec2, ec2', c.value, cat.enis[itype], itype)
  {
    PlanMeaning(o, cat);
    CreateInOrder(ec2, Plan(o, cat).enis, env.create.value, Plan(o, cat).info.subnet, cat.enis[itype], itype);
  }

  /** Whatever version a call plans from, what it does at EC2 and what it writes are in order. */
  lemma PlanIsOK(ec2: Ec2, o: Ours, cat: Catalog, env: Env, itype: string)
    requires itype in cat.enis && Ec2OK(ec2) && OursOK(o, cat.enis[itype], itype, ec2)
    requires env.describe.Some? ==> env.describe.value.instanceType == itype
    requires env.create.Some? ==> FreshInterface(ec2, env.create.value)
    ensures var c, ec2' := ChangeOf(o, cat, env), Ec2After(ec2, o, cat, env);
            && Ec2OK(ec2') && Ec2Grows(ec2, ec2')
            && (c.Some? ==> InOrder(ec2, ec2', c.value, cat.enis[itype], itype))
  {
    if Plan(o, cat).Attach? {
      PlannedAttachIsOK(ec2, o, cat, env, itype);
    } else if Plan(o, cat).Create? && env.create.Some? {
      PlannedCreateIsOK(ec2, o, cat, env, itype);
    }
  }

  lemma HandleKeepsOK(w: World, v: nat, env: Env, cat: Catalog, itype: string)
    requires itype in cat.enis && w.history != [] && WorldOK(w, cat, itype)
    requires Enabled(w, Handle(v, env), itype)
    ensures WorldOK(Apply(w, Handle(v, env), cat), cat, itype)
    ensures Ec2Grows(w.ec2, Apply(w, Handle(v, env), cat).ec2)
  {
    var o := OursIn(w.history[v]);
    var c, ec2 := ChangeOf(o, cat, env), Ec2After(w.ec2, o, cat, env);
    assert OursOK(o, cat.enis[itype], itype, w.ec2);
    PlanIsOK(w.ec2, o, cat, env, itype);
    GrowingKeepsHistory(w.history, cat.enis[itype], itype, w.ec2, ec2);
    if c.Some? {
      ChangeKeepsHistory(w.history, c.value, env.update, cat.enis[itype], itype, ec2);
    }
  }

  lemma StepKeepsOK(w: World, ev: Event, cat: Catalog, itype: string)
    requires itype in cat.enis && w.history != [] && WorldOK(w, cat, itype) && Enabled(w, ev, itype)
    ensures WorldOK(Apply(w, ev, cat), cat, itype)
    ensures Ec2Grows(w.ec2, Apply(w, ev, cat).ec2)
  {
    match ev
    case Other(writer) =>
      assert OursIn(writer(Latest(w.history))) == OursIn(Latest(w.history));
    case Handle(v, env) => HandleKeepsOK(w, v, env, cat, itype);
  }

  /** Stale-read safety: even when every call reads an arbitrary earlier version, every version ever
      committed records at most limit - 1 interfaces, the one at position i with index i + 1, at
      most one of them unattached and that the last, all of them created and, if so recorded,
      attached at EC2. */
  lemma {:induction false} StaleReadsAreSafe(run: seq<World>, events: seq<Event>, cat: Catalog, itype: string, k: nat)
    requires IsRun(run, events, cat, itype) && itype in cat.enis && WorldOK(run[0], cat, itype) && k < |run|
    ensures WorldOK(run[k], cat, itype)
  {
    if k > 0 {
      StaleReadsAreSafe(run, events, cat, itype, k - 1);
      StepKeepsOK(run[k - 1], events[k - 1], cat, itype);
    }
  }

  /** A node nothing was ever recorded on, and no interface created for it, is a start for that. */
  lemma BareNodeOK(n: Node, cat: Catalog, itype: string)
    requires itype in cat.enis && cat.enis[itype] >= 1
    requires EC2_INFO_KEY !in n.annotations && IFS_KEY !in n.annotations
    ensures WorldOK(World([n], Ec2(map[], {}, {}), {}), cat, itype)
  {
  }

  /** Whatever version is recorded, its pool has no repeats, no interface address of any created
      interface is in it, and no address belongs to two of its interfaces. */
  lemma RecordedPoolIsSound(enis: seq<ENI>, ec2: Ec2)
    requires Ec2OK(ec2) && FromEc2(enis, ec2)
    ensures Distinct(Pool(enis))
    ensures forall id :: id in ec2.created ==> ec2.created[id].interfaceIP !in Pool(enis)
    ensures forall i, j, a :: 0 <= i < |enis| && 0 <= j < |enis| && a in enis[i].ips && a in enis[j].ips ==> i == j
  {
    forall i, j | 0 <= i < |enis| && 0 <= j < |enis| && i != j
      ensures Disjoint(enis[i].ips, enis[j].ips)
    {
      assert enis[i].id != enis[j].id;
      assert !Shares(ec2.created[enis[i].id], ec2.created[enis[j].id]);
    }
    PoolDistinct(enis);
    forall id | id in ec2.created
      ensures ec2.created[id].interfaceIP !in Pool(enis)
    {
      var a := ec2.created[id].interfaceIP;
      InPool(enis, a);
    }
  }

  // ------------------------------------------------------- what a step adds

  /** `h'` continues `h` with versions that keep the controller's part, but for the last one if `c`
      was committed: that has the part `c` makes of it. */
  predicate Adds(h: seq<Node>, h': seq<Node>, c: Option<Change>)
    requires h != []
  {
    var last := OursIn(Latest(h));
    var others := if c.Some? then |h'| - 1 else |h'|;
    && h <= h' && |h| <= others
    && (forall k :: |h| <= k < others ==> OursIn(h'[k]) == last)
    && (c.Some? ==> OursIn(Latest(h')) == OnOurs(c.value, last))
  }

  /** The change a call commits, if it commits any. */
  function Committed(o: Ours, cat: Catalog, env: Env): Option<Change> {
    if Commits(env.update) then ChangeOf(o, cat, env) else None
  }

  function CommittedBy(w: World, ev: Event, cat: Catalog): Option<Change>
    requires ev.Handle? ==> ev.version < |w.history|
  {
    match ev
    case Other(_) => None
    case Handle(v, env) => Committed(OursIn(w.history[v]), cat, env)
  }

  lemma OthersKeepOurs(history: seq<Node>, mutate: Node -> Node, env: seq<Attempt>)
    requires history != [] && Polite(env)
    ensures var o := OursIn(Latest(history));
            AppliedToLatest(history, mutate, Updated(history, mutate, env), (n: Node) => OursIn(n) == o)
  {
    var o := OursIn(Latest(history));
    var p := (n: Node) => OursIn(n) == o;
    PoliteKeeps(env, p);
    UpdateMeaning(history, mutate, env, p);
  }

  lemma UpdateAdds(history: seq<Node>, c: Change, env: seq<Attempt>)
    requires history != [] && Polite(env)
    ensures Adds(history, Updated(history, Mutator(c), env).history, if Commits(env) then Some(c) else None)
  {
    var r := Updated(history, Mutator(c), env);
    OthersKeepOurs(history, Mutator(c), env);
    CommitsMeaning(history, Mutator(c), env);
    if r.committed {
      MutatorOnOurs(c, r.history[|r.history| - 2]);
    }
  }

  lemma StepAdds(w: World, ev: Event, cat: Catalog, itype: string)
    requires w.history != [] && Enabled(w, ev, itype)
    ensures Adds(w.history, Apply(w, ev, cat).history, CommittedBy(w, ev, cat))
  {
    if ev.Handle? {
      var c := ChangeOf(OursIn(w.history[ev.version]), cat, ev.env);
      if c.Some? {
        UpdateAdds(w.history, c.value, ev.env.update);
      }
    }
  }

  // ------------------------------------------------------ one device, one interface

  /** Neither the interface nor the device index it asks for is in use. */
  predicate FreeFor(ec2: Ec2, e: ENI) {
    forall a :: a in ec2.attached ==> a.device != e.index && a.id != e.id
  }

  /** EC2 attaches only what is free, where it is free. */
  predicate Honest(w: World, ev: Event, cat: Catalog)
    requires ev.Handle? ==> ev.version < |w.history|
  {
    ev.Handle? ==>
      var action := Plan(OursIn(w.history[ev.version]), cat);
      action.Attach? && !FreeFor(w.ec2, action.enis[action.position]) ==> ev.env.attach.AttachRefused?
  }

  predicate OnePerDevice(ec2: Ec2) {
    forall a, b :: a in ec2.attached && b in ec2.attached && a.device == b.device ==> a == b
  }

  /** However stale the version a call reads, it leaves every device index to one interface. */
  lemma StepKeepsDevices(w: World, ev: Event, cat: Catalog, itype: string)
    requires w.history != [] && Enabled(w, ev, itype) && Honest(w, ev, cat) && OnePerDevice(w.ec2)
    ensures OnePerDevice(Apply(w, ev, cat).ec2)
  {
  }

  /** So two versions, whatever they were written from, never record two interfaces as attached at
      one index: they are the same record. */
  lemma AttachedAtOneIndex(w: World, cat: Catalog, itype: string, v: nat, v': nat, e: ENI, e': ENI)
    requires itype in cat.enis && WorldOK(w, cat, itype) && OnePerDevice(w.ec2)
    requires v < |w.history| && e in RecordedIn(w.history[v]) && e.attached
    requires v' < |w.history| && e' in RecordedIn(w.history[v']) && e'.attached && e'.index == e.index
    ensures e == e'
  {
    assert OursOK(OursIn(w.history[v]), cat.enis[itype], itype, w.ec2);
    assert OursOK(OursIn(w.history[v']), cat.enis[itype], itype, w.ec2);
    assert AttachmentOf(e) == AttachmentOf(e');
  }
}
