/** When provisioning stops for good. The attach step drops its write error, and EC2 does not attach
    twice, so an attachment that is not recorded is never recorded
    (cmd/eni-controller/enicontroller/controller.go:262-282, 434-469). */
module ProvisioningStops {
  import opened Net
  import opened NodeObject
  import opened EniController
  import opened Provisioning
  import opened ProvisioningLosses

  /** The interface to attach next is one EC2 will not attach where it belongs: it is attached
      already, or its device index is taken. */
  predicate NextRefused(enis: seq<ENI>, ec2: Ec2) {
    var k := FirstUnattached(enis, 0);
    k < |enis| && !FreeFor(ec2, enis[k])
  }

  /** Whether or not the node has its info and label yet. */
  predicate Doomed(w: World)
    requires w.history != []
  {
    NextRefused(RecordedIn(Latest(w.history)), w.ec2)
  }

  /** EC2 has attached recorded interfaces only, each at its position. */
  predicate PlacedIn(enis: seq<ENI>, ec2: Ec2) {
    forall a :: a in ec2.attached ==> 1 <= a.device <= |enis| && enis[a.device - 1].id == a.id
  }

  predicate Placed(w: World)
    requires w.history != []
  {
    PlacedIn(RecordedIn(Latest(w.history)), w.ec2)
  }

  /** The call attaches an interface at EC2. */
  predicate Attaches(w: World, ev: Event, cat: Catalog) {
    && ev.Handle? && ev.version < |w.history| && Plan(OursIn(w.history[ev.version]), cat).Attach?
    && !ev.env.attach.AttachRefused?
  }

  /** And does not record it: its deletion policy was refused, or the update did not commit because
      the node could not be read, the update was refused, or a conflict's reply was lost. */
  predicate LosesAttachment(w: World, ev: Event, cat: Catalog) {
    Attaches(w, ev, cat) && !(ev.env.attach.AttachDone? && Commits(ev.env.update))
  }

  // ---------------------------------------------- what a current-reading step does

  lemma AttachStep(w: World, ev: Event, cat: Catalog, itype: string)
    requires w.history != [] && Enabled(w, ev, itype) && ReadsCurrent(w, ev) && Attaches(w, ev, cat)
    ensures var enis, w' := RecordedIn(Latest(w.history)), Apply(w, ev, cat);
            var k := FirstUnattached(enis, 0);
            && k < |enis| && w'.ec2 == w.ec2.(attached := w.ec2.attached + {AttachmentOf(enis[k])})
            && RecordedIn(Latest(w'.history)) == if LosesAttachment(w, ev, cat) then enis else MarkAttached(enis, k)
  {
    PlanMeaning(OursIn(w.history[ev.version]), cat);
    LatestRecord(w, ev, cat, itype);
  }

  lemma OtherStep(w: World, ev: Event, cat: Catalog, itype: string) returns (more: seq<ENI>)
    requires w.history != [] && Enabled(w, ev, itype) && ReadsCurrent(w, ev) && !Attaches(w, ev, cat)
    ensures var enis, w' := RecordedIn(Latest(w.history)), Apply(w, ev, cat);
            && w'.ec2.attached == w.ec2.attached && RecordedIn(Latest(w'.history)) == enis + more
            && (NextRefused(enis, w.ec2) ==> w'.ec2 == w.ec2 && w'.orphans == w.orphans && more == [])
            && (more == []
                || (FirstUnattached(enis, 0) == |enis| && exists e :: more == [e] && e.index == |enis| + 1
                                                              && !e.attached && e.id !in w.ec2.created))
  {
    var enis := RecordedIn(Latest(w.history));
    LatestRecord(w, ev, cat, itype);
    more := [];
    if ev.Handle? {
      var o := OursIn(w.history[ev.version]);
      PlanMeaning(o, cat);
      if Records(w, ev, cat) {
        more := [NewENI(ev.env.create.value, |enis| + 1, Plan(o, cat).info.subnet)];
      }
    }
    assert more == [] ==> enis + more == enis;
  }

  // ------------------------------------------------------------- the exact step

  lemma AttachKeepsPlaced(enis: seq<ENI>, ec2: Ec2, k: nat, limit: int)
    requires PlacedIn(enis, ec2) && Bounded(enis, limit) && k < |enis|
    ensures var ec2' := ec2.(attached := ec2.attached + {AttachmentOf(enis[k])});
            PlacedIn(enis, ec2') && PlacedIn(MarkAttached(enis, k), ec2') && !FreeFor(ec2', enis[k])
  {
    assert AttachmentOf(enis[k]) == Attachment(k + 1, enis[k].id);
  }

  lemma MarkedIsLast(enis: seq<ENI>, k: nat, limit: int)
    requires Bounded(enis, limit) && k < |enis| && k == FirstUnattached(enis, 0)
    ensures FirstUnattached(MarkAttached(enis, k), 0) == |enis|
  {
  }

  lemma NewIsFree(enis: seq<ENI>, more: seq<ENI>, ec2: Ec2, ec2': Ec2, e: ENI)
    requires PlacedIn(enis, ec2) && ec2'.attached == ec2.attached && FirstUnattached(enis, 0) == |enis|
    requires more == [e] && e.index == |enis| + 1 && !e.attached && e.id !in ec2.created
    requires forall i :: 0 <= i < |enis| ==> enis[i].id in ec2.created
    ensures PlacedIn(enis + more, ec2') && !NextRefused(enis + more, ec2')
  {
    var all := enis + more;
    assert all[|enis|] == e && forall i :: 0 <= i < |enis| ==> all[i] == enis[i];
    assert FirstUnattached(all, 0) == |enis|;
  }

  lemma AttachDooms(w: World, ev: Event, cat: Catalog, itype: string)
    requires w.history != [] && itype in cat.enis && WorldOK(w, cat, itype) && Enabled(w, ev, itype)
    requires ReadsCurrent(w, ev) && Placed(w) && Attaches(w, ev, cat)
    ensures Placed(Apply(w, ev, cat)) && (Doomed(Apply(w, ev, cat)) <==> LosesAttachment(w, ev, cat))
  {
    var enis := RecordedIn(Latest(w.history));
    var k := FirstUnattached(enis, 0);
    RecordedIsCreated(w, cat, itype, |w.history| - 1);
    AttachStep(w, ev, cat, itype);
    AttachKeepsPlaced(enis, w.ec2, k, cat.enis[itype]);
    MarkedIsLast(enis, k, cat.enis[itype]);
  }

  lemma OthersDoNotDoom(w: World, ev: Event, cat: Catalog, itype: string)
    requires w.history != [] && itype in cat.enis && WorldOK(w, cat, itype) && Enabled(w, ev, itype)
    requires ReadsCurrent(w, ev) && Placed(w) && !Attaches(w, ev, cat)
    ensures Placed(Apply(w, ev, cat)) && (Doomed(Apply(w, ev, cat)) <==> Doomed(w))
  {
    var enis, ec2' := RecordedIn(Latest(w.history)), Apply(w, ev, cat).ec2;
    RecordedIsCreated(w, cat, itype, |w.history| - 1);
    var more := OtherStep(w, ev, cat, itype);
    if more == [] {
      assert enis + more == enis;
    } else {
      NewIsFree(enis, more, w.ec2, ec2', more[0]);
    }
  }

  /** Exactly when a call stops provisioning: from a state that is not doomed, a step that reads the
      current node leads to a doomed one if and only if it attaches an interface and does not record
      it. And such steps keep EC2's attachments placed. */
  lemma DroppedWriteGetsStuck(w: World, ev: Event, cat: Catalog, itype: string)
    requires w.history != [] && itype in cat.enis && WorldOK(w, cat, itype) && Enabled(w, ev, itype)
    requires ReadsCurrent(w, ev) && Placed(w)
    ensures Placed(Apply(w, ev, cat))
    ensures !Doomed(w) ==> (Doomed(Apply(w, ev, cat)) <==> LosesAttachment(w, ev, cat))
  {
    if Attaches(w, ev, cat) {
      AttachDooms(w, ev, cat, itype);
    } else {
      OthersDoNotDoom(w, ev, cat, itype);
    }
  }

  // -------------------------------------------------------------- once doomed

  /** If EC2 never attaches where it cannot, a step from a doomed state that reads the current node
      leaves EC2, the recorded interfaces and the orphans as they are; and once the node has its info
      and label, every call fails and changes nothing at all. */
  lemma DoomedStep(w: World, ev: Event, cat: Catalog, itype: string)
    requires w.history != [] && Enabled(w, ev, itype) && ReadsCurrent(w, ev) && Honest(w, ev, cat) && Doomed(w)
    ensures var w' := Apply(w, ev, cat);
            && w'.ec2 == w.ec2 && w'.orphans == w.orphans
            && RecordedIn(Latest(w'.history)) == RecordedIn(Latest(w.history)) && Doomed(w')
    ensures !LosesAttachment(w, ev, cat)
    ensures ev.Handle? && Ready(OursIn(w.history[ev.version]), cat)
            ==> Handled(w, OursIn(w.history[ev.version]), cat, ev.env) == (w, false)
  {
    var enis := RecordedIn(Latest(w.history));
    if ev.Handle? {
      PlanMeaning(OursIn(w.history[ev.version]), cat);
    }
    assert !Attaches(w, ev, cat);
    var more := OtherStep(w, ev, cat, itype);
    assert enis + more == enis;
  }

  // -------------------------------------------------------------------- runs

  ghost predicate IsHonestRun(run: seq<World>, events: seq<Event>, cat: Catalog, itype: string) {
    && IsRun(run, events, cat, itype)
    && forall j :: 0 <= j < |events| ==> ReadsCurrent(run[j], events[j]) && Honest(run[j], events[j], cat)
  }

  lemma RunStep(run: seq<World>, events: seq<Event>, cat: Catalog, itype: string, k: nat)
    requires IsHonestRun(run, events, cat, itype) && itype in cat.enis && k < |events|
    requires WorldOK(run[0], cat, itype) && Placed(run[k])
    ensures Placed(run[k + 1])
    ensures Doomed(run[k + 1]) <==> Doomed(run[k]) || LosesAttachment(run[k], events[k], cat)
  {
    StaleReadsAreSafe(run, events, cat, itype, k);
    DroppedWriteGetsStuck(run[k], events[k], cat, itype);
    if Doomed(run[k]) {
      DoomedStep(run[k], events[k], cat, itype);
    }
  }

  lemma {:induction false} AlwaysPlaced(run: seq<World>, events: seq<Event>, cat: Catalog, itype: string, k: nat)
    requires IsHonestRun(run, events, cat, itype) && itype in cat.enis && k < |run|
    requires WorldOK(run[0], cat, itype) && Placed(run[0])
    ensures Placed(run[k])
  {
    if k > 0 {
      AlwaysPlaced(run, events, cat, itype, k - 1);
      RunStep(run, events, cat, itype, k - 1);
    }
  }

  lemma {:induction false} StopsAtFirst(run: seq<World>, events: seq<Event>, cat: Catalog, k: nat)
    requires ReadsExist(run, events) && k < |run| && !Doomed(run[0])
    requires forall j: nat :: j < k ==>
               (Doomed(run[j + 1]) <==> Doomed(run[j]) || LosesAttachment(run[j], events[j], cat))
    ensures Doomed(run[k]) <==> exists j: nat :: j < k && LosesAttachment(run[j], events[j], cat)
  {
    if k > 0 {
      StopsAtFirst(run, events, cat, k - 1);
      assert Doomed(run[k - 1 + 1]) <==> Doomed(run[k - 1]) || LosesAttachment(run[k - 1], events[k - 1], cat);
    }
  }

  /** Over runs: provisioning has stopped by the k-th state exactly when some step before it attached
      an interface and did not record it. */
  lemma StoppedIff(run: seq<World>, events: seq<Event>, cat: Catalog, itype: string, k: nat)
    requires IsHonestRun(run, events, cat, itype) && itype in cat.enis && k < |run|
    requires WorldOK(run[0], cat, itype) && Placed(run[0]) && !Doomed(run[0])
    ensures Doomed(run[k]) <==> exists j: nat :: j < k && LosesAttachment(run[j], events[j], cat)
  {
    forall j: nat | j < k
      ensures Doomed(run[j + 1]) <==> Doomed(run[j]) || LosesAttachment(run[j], events[j], cat)
    {
      AlwaysPlaced(run, events, cat, itype, j);
      RunStep(run, events, cat, itype, j);
    }
    StopsAtFirst(run, events, cat, k);
  }

  /** EC2 and the recorded interfaces are the same. */
  predicate SameInterfaces(w: World, w': World)
    requires w.history != [] && w'.history != []
  {
    w'.ec2 == w.ec2 && RecordedIn(Latest(w'.history)) == RecordedIn(Latest(w.history))
  }

  lemma DoomedRunStep(run: seq<World>, events: seq<Event>, cat: Catalog, itype: string, k: nat)
    requires IsHonestRun(run, events, cat, itype) && k < |events| && Doomed(run[k])
    ensures Doomed(run[k + 1]) && SameInterfaces(run[k], run[k + 1])
  {
    DoomedStep(run[k], events[k], cat, itype);
  }

  lemma SameTwice(w: World, w1: World, w2: World)
    requires w.history != [] && w1.history != [] && w2.history != []
    requires SameInterfaces(w, w1) && SameInterfaces(w1, w2)
    ensures SameInterfaces(w, w2)
  {
  }

  /** And it has stopped for good: from then on nothing is created or attached any more, and the
      recorded interfaces never change. */
  lemma {:induction false} StuckForever(run: seq<World>, events: seq<Event>, cat: Catalog, itype: string,
                                        from: nat, k: nat)
    requires IsHonestRun(run, events, cat, itype) && from <= k < |run| && Doomed(run[from])
    ensures Doomed(run[k]) && SameInterfaces(run[from], run[k])
  {
    if k > from {
      StuckForever(run, events, cat, itype, from, k - 1);
      DoomedRunStep(run, events, cat, itype, k - 1);
      SameTwice(run[from], run[k - 1], run[k]);
    }
  }

  /** A node nothing was recorded on or attached to is a start for all of this. */
  lemma BareIsPlaced(n: Node)
    requires IFS_KEY !in n.annotations
    ensures var w := World([n], Ec2(map[], {}, {}), {}); Placed(w) && !Doomed(w) && OnePerDevice(w.ec2)
  {
  }
}
