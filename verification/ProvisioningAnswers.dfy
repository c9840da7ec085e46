/** That what the controller records is what it was answered: an interface's identity, addresses and
    subnet, the instance's info and the node's label, in every run, however stale the reads
    (cmd/eni-controller/enicontroller/controller.go:178-310, 405-432). */
module ProvisioningAnswers {
  import opened Net
  import opened NodeObject
  import opened EniController
  import opened Provisioning

  // -------------------------------------------------------- created interfaces

  /** The interface is the one EC2 answered with: its identity, its own address, and for pods all its
      other addresses. */
  predicate IsAnswer(c: ENI, ni: NetworkInterface) {
    && c.id == ni.id && c.mac == ni.mac && c.interfaceIP == ni.primary && !c.attached
    && (forall a :: a in c.ips ==> a in ni.addresses && a != ni.primary)
    && (forall a :: a in ni.addresses && a != ni.primary ==> a in c.ips)
  }

  /** They keep EC2's order. */
  lemma {:induction false} AnswersInOrder(addresses: seq<Addr>, primary: Addr, p: nat, q: nat)
    returns (i: nat, j: nat)
    requires p < q < |addresses| && addresses[p] != primary && addresses[q] != primary
    ensures i < j < |Secondaries(addresses, primary)|
    ensures Secondaries(addresses, primary)[i] == addresses[p] && Secondaries(addresses, primary)[j] == addresses[q]
  {
    var n := |addresses| - 1;
    if q < n {
      i, j := AnswersInOrder(addresses[..n], primary, p, q);
    } else {
      var front := Secondaries(addresses[..n], primary);
      SecondariesMeaning(addresses[..n], primary, addresses[p]);
      assert addresses[..n][p] == addresses[p];
      i :| 0 <= i < |front| && front[i] == addresses[p];
      j := |front|;
    }
  }

  /** The subnet in the info recorded on a version. */
  function SubnetOn(n: Node): Option<Block> {
    if EC2_INFO_KEY in n.annotations && n.annotations[EC2_INFO_KEY].Info?
    then Some(n.annotations[EC2_INFO_KEY].info.subnet) else None
  }

  /** The interface is numbered after those the version records, and has the subnet recorded there. */
  predicate MadeFrom(c: ENI, n: Node) {
    SubnetOn(n) == Some(c.cidr) && c.index == |RecordedIn(n)| + 1
  }

  /** A step creates an interface only from EC2's answer and the version it read, and changes none that
      was created before. */
  lemma CreateMeaning(w: World, ev: Event, cat: Catalog, itype: string, id: string)
    requires w.history != [] && Enabled(w, ev, itype) && id in Apply(w, ev, cat).ec2.created
    ensures if id in w.ec2.created then Apply(w, ev, cat).ec2.created[id] == w.ec2.created[id]
            else && ev.Handle? && ev.env.create.Some?
                 && IsAnswer(Apply(w, ev, cat).ec2.created[id], ev.env.create.value)
                 && MadeFrom(Apply(w, ev, cat).ec2.created[id], w.history[ev.version])
  {
    if ev.Handle? {
      var o := OursIn(w.history[ev.version]);
      PlanMeaning(o, cat);
      if Plan(o, cat).Create? && ev.env.create.Some? {
        var ni := ev.env.create.value;
        forall a
          ensures a in Secondaries(ni.addresses, ni.primary) <==> a in ni.addresses && a != ni.primary
        {
          SecondariesMeaning(ni.addresses, ni.primary, a);
        }
      }
    }
  }

  /** The step, from this world, made the interface. */
  predicate Makes(w: World, ev: Event, c: ENI) {
    && ev.Handle? && ev.version < |w.history| && ev.env.create.Some?
    && IsAnswer(c, ev.env.create.value) && MadeFrom(c, w.history[ev.version])
  }

  lemma RunCreates(run: seq<World>, events: seq<Event>, cat: Catalog, itype: string, k: nat, id: string)
    requires IsRun(run, events, cat, itype) && k < |events| && id in run[k + 1].ec2.created
    ensures if id in run[k].ec2.created then run[k + 1].ec2.created[id] == run[k].ec2.created[id]
            else Makes(run[k], events[k], run[k + 1].ec2.created[id])
  {
    CreateMeaning(run[k], events[k], cat, itype, id);
  }

  ghost predicate HasMaker(run: seq<World>, events: seq<Event>, k: nat, c: ENI) {
    exists j: nat :: j < k && j < |events| && j < |run| && Makes(run[j], events[j], c)
  }

  lemma {:induction false} MakerExists(run: seq<World>, events: seq<Event>, cat: Catalog, itype: string,
                                       k: nat, id: string)
    requires IsRun(run, events, cat, itype) && k < |events| && id in run[k + 1].ec2.created
    ensures id in run[0].ec2.created || HasMaker(run, events, k + 1, run[k + 1].ec2.created[id])
  {
    RunCreates(run, events, cat, itype, k, id);
    if id in run[k].ec2.created {
      if k > 0 {
        MakerExists(run, events, cat, itype, k - 1, id);
      }
    } else {
      assert Makes(run[k], events[k], run[k + 1].ec2.created[id]);
    }
  }

  /** Whatever was created in a run, some step created it: exactly as EC2 then answered, with the subnet
      and the number after the version that step read. */
  lemma CreatedAsAnswered(run: seq<World>, events: seq<Event>, cat: Catalog, itype: string, k: nat, id: string)
    returns (j: nat)
    requires IsRun(run, events, cat, itype) && k < |run|
    requires id in run[k].ec2.created && id !in run[0].ec2.created
    ensures j < k && Makes(run[j], events[j], run[k].ec2.created[id])
  {
    assert k > 0;
    MakerExists(run, events, cat, itype, k - 1, id);
    j :| j < k && j < |events| && j < |run| && Makes(run[j], events[j], run[k].ec2.created[id]);
  }

  /** And hence whatever any version records. */
  lemma RecordedAsAnswered(run: seq<World>, events: seq<Event>, cat: Catalog, itype: string, k: nat, v: nat, e: ENI)
    returns (j: nat)
    requires IsRun(run, events, cat, itype) && k < |run| && itype in cat.enis && WorldOK(run[0], cat, itype)
    requires v < |run[k].history| && e in RecordedIn(run[k].history[v]) && e.id !in run[0].ec2.created
    ensures j < k && Makes(run[j], events[j], Bare(e))
  {
    assert e.id in run[k].ec2.created && run[k].ec2.created[e.id] == Bare(e) by {
      StaleReadsAreSafe(run, events, cat, itype, k);
      assert OursOK(OursIn(run[k].history[v]), cat.enis[itype], itype, run[k].ec2);
    }
    j := CreatedAsAnswered(run, events, cat, itype, k, e.id);
  }

  // ------------------------------------------------------------------ subnets

  /** Every interface ever created has the subnet some version had recorded. */
  ghost predicate SubnetsRecorded(w: World) {
    forall id :: id in w.ec2.created ==>
      exists v: nat :: v < |w.history| && SubnetOn(w.history[v]) == Some(w.ec2.created[id].cidr)
  }

  lemma StepKeepsSubnets(w: World, ev: Event, cat: Catalog, itype: string)
    requires w.history != [] && Enabled(w, ev, itype) && SubnetsRecorded(w)
    ensures SubnetsRecorded(Apply(w, ev, cat))
  {
    var w' := Apply(w, ev, cat);
    StepAdds(w, ev, cat, itype);
    forall id | id in w'.ec2.created
      ensures exists v: nat :: v < |w'.history| && SubnetOn(w'.history[v]) == Some(w'.ec2.created[id].cidr)
    {
      CreateMeaning(w, ev, cat, itype, id);
      var v: nat;
      if id in w.ec2.created {
        v :| v < |w.history| && SubnetOn(w.history[v]) == Some(w.ec2.created[id].cidr);
      } else {
        v := ev.version;
      }
      assert w'.history[v] == w.history[v];
    }
  }

  /** The node is in one subnet: every version that records one, and every interface, has it. */
  predicate InSubnet(w: World, subnet: Block) {
    && (forall v :: 0 <= v < |w.history| && SubnetOn(w.history[v]).Some? ==> SubnetOn(w.history[v]).value == subnet)
    && (forall id :: id in w.ec2.created ==> w.ec2.created[id].cidr == subnet)
  }

  predicate Describes(ev: Event, subnet: Block) {
    ev.Handle? && ev.env.describe.Some? ==> ev.env.describe.value.subnet == subnet
  }

  lemma StepKeepsInSubnet(w: World, ev: Event, cat: Catalog, itype: string, subnet: Block)
    requires w.history != [] && Enabled(w, ev, itype) && InSubnet(w, subnet) && Describes(ev, subnet)
    ensures InSubnet(Apply(w, ev, cat), subnet)
  {
    var w' := Apply(w, ev, cat);
    StepAdds(w, ev, cat, itype);
    InfoAfter(w, ev, cat, itype);
    forall v | 0 <= v < |w'.history| && SubnetOn(w'.history[v]).Some?
      ensures SubnetOn(w'.history[v]).value == subnet
    {
      if v < |w.history| {
        assert w'.history[v] == w.history[v];
      } else if SubnetOn(w'.history[v]) == SubnetOn(Latest(w.history)) {
        assert SubnetOn(w.history[|w.history| - 1]).Some?;
      }
    }
    forall id | id in w'.ec2.created
      ensures w'.ec2.created[id].cidr == subnet
    {
      CreateMeaning(w, ev, cat, itype, id);
    }
  }

  function InfoOn(n: Node): Option<InstanceInfo> {
    if EC2_INFO_KEY in n.annotations && n.annotations[EC2_INFO_KEY].Info?
    then Some(n.annotations[EC2_INFO_KEY].info) else None
  }

  lemma InfoCommitted(w: World, ev: Event, cat: Catalog)
    requires ev.Handle? ==> ev.version < |w.history|
    ensures CommittedBy(w, ev, cat).Some? && CommittedBy(w, ev, cat).value.SetInfo? ==>
              ev.Handle? && ev.env.describe == Some(CommittedBy(w, ev, cat).value.info)
  {
  }

  /** A version a step adds has the info of the one before, or what EC2 described in that step. */
  lemma InfoAfter(w: World, ev: Event, cat: Catalog, itype: string)
    requires w.history != [] && Enabled(w, ev, itype)
    ensures var h := Apply(w, ev, cat).history;
            forall v :: |w.history| <= v < |h| ==>
              InfoOn(h[v]) == InfoOn(Latest(w.history))
              || (ev.Handle? && ev.env.describe.Some? && InfoOn(h[v]) == ev.env.describe)
  {
    StepAdds(w, ev, cat, itype);
    InfoCommitted(w, ev, cat);
    InfoAdded(w.history, Apply(w, ev, cat).history, CommittedBy(w, ev, cat));
  }

  lemma InfoAdded(h: seq<Node>, h': seq<Node>, c: Option<Change>)
    requires h != [] && Adds(h, h', c)
    ensures forall v :: |h| <= v < |h'| ==>
              InfoOn(h'[v]) == InfoOn(Latest(h))
              || (c.Some? && c.value.SetInfo? && InfoOn(h'[v]) == Some(c.value.info))
  {
    forall v | |h| <= v < |h'|
      ensures InfoOn(h'[v]) == InfoOn(Latest(h))
              || (c.Some? && c.value.SetInfo? && InfoOn(h'[v]) == Some(c.value.info))
    {
      assert h'[v] == Latest(h') || OursIn(h'[v]) == OursIn(Latest(h));
    }
  }

  /** If EC2 describes one subnet, every interface created and every interface recorded has it, in every
      state of every run. */
  lemma {:induction false} AlwaysInSubnet(run: seq<World>, events: seq<Event>, cat: Catalog, itype: string,
                                          subnet: Block, k: nat)
    requires IsRun(run, events, cat, itype) && k < |run| && InSubnet(run[0], subnet)
    requires forall j :: 0 <= j < |events| ==> Describes(events[j], subnet)
    ensures InSubnet(run[k], subnet)
  {
    if k > 0 {
      AlwaysInSubnet(run, events, cat, itype, subnet, k - 1);
      StepKeepsInSubnet(run[k - 1], events[k - 1], cat, itype, subnet);
    }
  }

  lemma RecordedInSubnet(w: World, cat: Catalog, itype: string, subnet: Block, v: nat, e: ENI)
    requires itype in cat.enis && WorldOK(w, cat, itype) && InSubnet(w, subnet)
    requires v < |w.history| && e in RecordedIn(w.history[v])
    ensures e.cidr == subnet
  {
    assert OursOK(OursIn(w.history[v]), cat.enis[itype], itype, w.ec2);
  }

  // ----------------------------------------------------------- info and label

  /** Every info recorded is one of these. */
  predicate InfoIn(w: World, infos: set<InstanceInfo>) {
    forall v :: 0 <= v < |w.history| && InfoOn(w.history[v]).Some? ==> InfoOn(w.history[v]).value in infos
  }

  function Described(events: seq<Event>): set<InstanceInfo> {
    set j | 0 <= j < |events| && events[j].Handle? && events[j].env.describe.Some? :: events[j].env.describe.value
  }

  lemma StepKeepsInfo(w: World, ev: Event, cat: Catalog, itype: string, infos: set<InstanceInfo>)
    requires w.history != [] && Enabled(w, ev, itype) && InfoIn(w, infos)
    ensures InfoIn(Apply(w, ev, cat),
                   infos + if ev.Handle? && ev.env.describe.Some? then {ev.env.describe.value} else {})
  {
    var h := Apply(w, ev, cat).history;
    StepAdds(w, ev, cat, itype);
    InfoAfter(w, ev, cat, itype);
    forall v | 0 <= v < |h| && InfoOn(h[v]).Some?
      ensures InfoOn(h[v]).value
              in infos + if ev.Handle? && ev.env.describe.Some? then {ev.env.describe.value} else {}
    {
      if v < |w.history| {
        assert h[v] == w.history[v];
      } else if InfoOn(h[v]) == InfoOn(Latest(w.history)) {
        assert InfoOn(w.history[|w.history| - 1]).Some?;
      }
    }
  }

  /** Every info ever recorded was there from the start or is, whole, what EC2 described in some call. */
  lemma {:induction false} InfoIsDescribed(run: seq<World>, events: seq<Event>, cat: Catalog, itype: string,
                                           infos: set<InstanceInfo>, k: nat)
    requires IsRun(run, events, cat, itype) && k < |run| && InfoIn(run[0], infos)
    ensures InfoIn(run[k], infos + Described(events[..k]))
  {
    if k > 0 {
      var before, ev := infos + Described(events[..k - 1]), events[k - 1];
      InfoIsDescribed(run, events, cat, itype, infos, k - 1);
      StepKeepsInfo(run[k - 1], ev, cat, itype, before);
      DescribedOneMore(events, k);
    }
  }

  lemma DescribedOneMore(events: seq<Event>, k: nat)
    requires 0 < k <= |events|
    ensures var ev := events[k - 1];
            Described(events[..k])
            == Described(events[..k - 1])
               + if ev.Handle? && ev.env.describe.Some? then {ev.env.describe.value} else {}
  {
    var all, front, ev := events[..k], events[..k - 1], events[k - 1];
    assert forall j :: 0 <= j < k ==> all[j] == (if j < k - 1 then front[j] else ev);
    forall x | x in Described(front)
      ensures x in Described(all)
    {
      var j :| 0 <= j < |front| && front[j].Handle? && front[j].env.describe.Some? && front[j].env.describe.value == x;
      assert all[j] == front[j];
    }
    if ev.Handle? && ev.env.describe.Some? {
      assert all[k - 1] == ev;
    }
  }

  /** The node stays the same instance, and its label, if it has one, is that instance's identity. */
  predicate Identified(w: World, provider: Provider) {
    forall v :: 0 <= v < |w.history| ==>
      && w.history[v].provider == provider
      && (INSTANCE_LABEL in w.history[v].labels ==> provider == Instance(w.history[v].labels[INSTANCE_LABEL]))
  }

  lemma StepKeepsIdentified(w: World, ev: Event, cat: Catalog, itype: string, provider: Provider)
    requires w.history != [] && Enabled(w, ev, itype) && Identified(w, provider)
    ensures Identified(Apply(w, ev, cat), provider)
  {
    var h := Apply(w, ev, cat).history;
    StepAdds(w, ev, cat, itype);
    assert OursIn(Latest(w.history)).provider == provider;
    forall v | 0 <= v < |h|
      ensures OursIn(h[v]).provider == provider
      ensures OursIn(h[v]).instance.Some? ==> provider == Instance(OursIn(h[v]).instance.value)
    {
      if v < |w.history| {
        assert h[v] == w.history[v];
      } else if OursIn(h[v]) == OursIn(Latest(w.history)) {
        assert Identified(w, provider) && Latest(w.history) == w.history[|w.history| - 1];
      } else {
        assert h[v] == Latest(h) && ev.Handle? && OursIn(w.history[ev.version]).provider == provider;
        PlanMeaning(OursIn(w.history[ev.version]), cat);
      }
    }
  }

  lemma {:induction false} AlwaysIdentified(run: seq<World>, events: seq<Event>, cat: Catalog, itype: string,
                                            provider: Provider, k: nat)
    requires IsRun(run, events, cat, itype) && k < |run| && Identified(run[0], provider)
    ensures Identified(run[k], provider)
  {
    if k > 0 {
      AlwaysIdentified(run, events, cat, itype, provider, k - 1);
      StepKeepsIdentified(run[k - 1], events[k - 1], cat, itype, provider);
    }
  }

  // -------------------------------------------------------- what one call does

  /** The version read has an instance, the info of a known type, and a record that decodes. */
  predicate Sensible(o: Ours, cat: Catalog) {
    && o.provider.Instance? && o.info.Some? && o.info.value.Info? && Recorded(o).Some?
    && o.info.value.info.instanceType in cat.enis && o.info.value.info.instanceType in cat.ips
  }

  /** On a labelled version that makes sense, a call attaches the first unattached interface at its own
      index, or, if all are attached and there is room, asks for one more, with one address less for
      pods than the type allows. It reports an attached interface as a success whatever becomes of its
      record, and a created one only if its record is acknowledged. */
  lemma ReadyCall(w: World, v: nat, env: Env, cat: Catalog)
    requires w.history != [] && v < |w.history| && Sensible(OursIn(w.history[v]), cat)
    requires OursIn(w.history[v]).instance.Some?
    ensures var o, nc := OursIn(w.history[v]), RecordedIn(w.history[v]);
            var (w', ok) := Handled(w, o, cat, env);
            var info, k := o.info.value.info, FirstUnattached(nc, 0);
            var room := k == |nc| && |nc| < cat.enis[info.instanceType] - 1;
            && w'.ec2.attached == w.ec2.attached + (if k < |nc| && !env.attach.AttachRefused?
                                                    then {Attachment(nc[k].index, nc[k].id)} else {})
            && w'.ec2.created.Keys == w.ec2.created.Keys + (if room && env.create.Some?
                                                            then {env.create.value.id} else {})
            && Asked(o, cat)
               == (if room then [CreateRequest(info.subnetID, info.groups, cat.ips[info.instanceType] - 1)] else [])
            && ok == if k < |nc| then env.attach.AttachDone?
                     else room ==> env.create.Some? && Succeeds(env.update)
  {
    var change := ChangeOf(OursIn(w.history[v]), cat, env);
    if change.Some? {
      CommitsMeaning(w.history, Mutator(change.value), env.update);
    }
  }

  /** On any other version it does nothing at EC2. It succeeds if there is no provider, or it records
      what EC2 describes where there is no info yet, or labels a version that makes sense; and fails on
      what it cannot make sense of. */
  lemma UnreadyCall(w: World, v: nat, env: Env, cat: Catalog)
    requires w.history != [] && v < |w.history|
    requires !(Sensible(OursIn(w.history[v]), cat) && OursIn(w.history[v]).instance.Some?)
    ensures var o := OursIn(w.history[v]);
            var (w', ok) := Handled(w, o, cat, env);
            && w'.ec2 == w.ec2 && w'.orphans == w.orphans && Asked(o, cat) == []
            && (ok <==> || o.provider.NoProvider?
                        || (o.provider.Instance? && o.info.None? && env.describe.Some? && Succeeds(env.update))
                        || (Sensible(o, cat) && Succeeds(env.update)))
  {
    var change := ChangeOf(OursIn(w.history[v]), cat, env);
    if change.Some? {
      CommitsMeaning(w.history, Mutator(change.value), env.update);
    }
  }
}
