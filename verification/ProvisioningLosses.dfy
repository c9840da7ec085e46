/** What stale reads and refused records cost the provisioning controller, exactly: when an interface
    is lost from the accounts, when a position changes hands, and when provisioning stops for good
    (cmd/eni-controller/enicontroller/controller.go:262-312). */
module ProvisioningLosses {
  import opened Net
  import opened NodeObject
  import opened EniController
  import opened Provisioning
  import opened Runs

  ghost predicate ReadsCurrent(w: World, ev: Event)
    requires w.history != []
  {
    ev.Handle? ==> ev.version < |w.history| && OursIn(w.history[ev.version]) == OursIn(Latest(w.history))
  }

  /** The step commits a list of interfaces made from the version it read. */
  predicate Records(w: World, ev: Event, cat: Catalog)
    requires ev.Handle? ==> ev.version < |w.history|
  {
    CommittedBy(w, ev, cat).Some? && CommittedBy(w, ev, cat).value.SetInterfaces?
  }

  // -------------------------------------------------------- ENI conservation

  function Ids(enis: seq<ENI>): set<string> {
    set i | 0 <= i < |enis| :: enis[i].id
  }

  function IdsIn(n: Node): set<string> {
    Ids(RecordedIn(n))
  }

  /** `all` is `a` and `orphans`, disjointly. */
  predicate Splits(all: set<string>, a: set<string>, orphans: set<string>) {
    all == a + orphans && a !! orphans
  }

  /** Every interface created for the node is either recorded on it or a known orphan, not both. */
  predicate Accounted(w: World)
    requires w.history != []
  {
    Splits(w.ec2.created.Keys, IdsIn(Latest(w.history)), w.orphans)
  }

  /** What the step records, it made from a version with the interfaces of the latest one. */
  predicate KeepsInterfaces(w: World, ev: Event, cat: Catalog)
    requires w.history != [] && (ev.Handle? ==> ev.version < |w.history|)
  {
    Records(w, ev, cat) ==> IdsIn(w.history[ev.version]) == IdsIn(Latest(w.history))
  }

  /** Every step of the sequence reads a version there is. */
  predicate ReadsExist(run: seq<World>, events: seq<Event>) {
    && |run| == |events| + 1
    && (forall k :: 0 <= k < |run| ==> run[k].history != [])
    && forall k :: 0 <= k < |events| ==> (events[k].Handle? ==> events[k].version < |run[k].history|)
  }

  lemma IdsAfterAttach(enis: seq<ENI>, k: nat)
    requires k < |enis|
    ensures Ids(MarkAttached(enis, k)) == Ids(enis)
  {
    var marked := MarkAttached(enis, k);
    assert forall i :: 0 <= i < |enis| ==> marked[i].id == enis[i].id;
    forall id | id in Ids(enis)
      ensures id in Ids(marked)
    {
      var i :| 0 <= i < |enis| && enis[i].id == id;
      assert marked[i].id == id;
    }
  }

  lemma IdsAfterCreate(enis: seq<ENI>, eni: ENI)
    ensures Ids(enis + [eni]) == Ids(enis) + {eni.id}
  {
    var more := enis + [eni];
    assert more[|enis|].id in Ids(more);
    forall id | id in Ids(enis)
      ensures id in Ids(more)
    {
      var i :| 0 <= i < |enis| && enis[i].id == id;
      assert more[i].id == id;
    }
  }

  /** What the latest version records after a step. */
  lemma LatestRecord(w: World, ev: Event, cat: Catalog, itype: string)
    requires w.history != [] && Enabled(w, ev, itype)
    ensures RecordedIn(Latest(Apply(w, ev, cat).history))
            == if Records(w, ev, cat) then CommittedBy(w, ev, cat).value.enis else RecordedIn(Latest(w.history))
  {
    StepAdds(w, ev, cat, itype);
  }

  predicate Creates(w: World, ev: Event, cat: Catalog)
    requires ev.Handle? ==> ev.version < |w.history|
  {
    ev.Handle? && Plan(OursIn(w.history[ev.version]), cat).Create? && ev.env.create.Some?
  }

  function NewIds(w: World, ev: Event, cat: Catalog): set<string>
    requires ev.Handle? ==> ev.version < |w.history|
  {
    if Creates(w, ev, cat) then {ev.env.create.value.id} else {}
  }

  lemma PlannedIds(o: Ours, cat: Catalog, env: Env)
    requires ChangeOf(o, cat, env).Some? && ChangeOf(o, cat, env).value.SetInterfaces?
    ensures Recorded(o).Some?
    ensures Ids(ChangeOf(o, cat, env).value.enis)
            == Ids(Recorded(o).value) + if Plan(o, cat).Create? then {env.create.value.id} else {}
  {
    PlanMeaning(o, cat);
    match Plan(o, cat)
    case Attach(enis, k) => IdsAfterAttach(enis, k);
    case Create(enis, info) => IdsAfterCreate(enis, NewENI(env.create.value, |enis| + 1, info.subnet));
    case _ =>
  }

  lemma StepIds(w: World, ev: Event, cat: Catalog, itype: string)
    requires w.history != [] && Enabled(w, ev, itype)
    ensures var w', made := Apply(w, ev, cat), NewIds(w, ev, cat);
            && w'.ec2.created.Keys == w.ec2.created.Keys + made
            && w'.orphans == w.orphans + (if Records(w, ev, cat) then {} else made)
            && (Records(w, ev, cat) ==>
                  Ids(CommittedBy(w, ev, cat).value.enis) == IdsIn(w.history[ev.version]) + made)
  {
    if Records(w, ev, cat) {
      PlannedIds(OursIn(w.history[ev.version]), cat, ev.env);
    }
    if Creates(w, ev, cat) {
      CommitsMeaning(w.history, Mutator(ChangeOf(OursIn(w.history[ev.version]), cat, ev.env).value), ev.env.update);
    }
  }

  lemma RecordedIsCreated(w: World, cat: Catalog, itype: string, v: nat)
    requires itype in cat.enis && WorldOK(w, cat, itype) && v < |w.history|
    ensures FromEc2(RecordedIn(w.history[v]), w.ec2) && Bounded(RecordedIn(w.history[v]), cat.enis[itype])
    ensures IdsIn(w.history[v]) <= w.ec2.created.Keys
  {
    assert OursOK(OursIn(w.history[v]), cat.enis[itype], itype, w.ec2);
  }

  lemma MoreSplits(all: set<string>, a: set<string>, b: set<string>, orphans: set<string>, made: set<string>)
    requires Splits(all, a, orphans) && b <= all && made !! all
    ensures Splits(all + made, b + made, orphans) <==> b == a
    ensures Splits(all + made, a, orphans + made)
  {
  }

  lemma MadeIsNew(w: World, ev: Event, cat: Catalog, itype: string)
    requires Enabled(w, ev, itype)
    ensures NewIds(w, ev, cat) !! w.ec2.created.Keys
  {
  }

  /** ENI conservation, exactly: whatever fails and whatever version is read, a step keeps "created is
      recorded plus orphaned, disjointly" if and only if what it records, if anything, it made from a
      version with the latest one's interfaces. */
  lemma StepKeepsAccounts(w: World, ev: Event, cat: Catalog, itype: string)
    requires w.history != [] && itype in cat.enis && WorldOK(w, cat, itype) && Enabled(w, ev, itype)
    requires Accounted(w)
    ensures Accounted(Apply(w, ev, cat)) <==> KeepsInterfaces(w, ev, cat)
  {
    var w' := Apply(w, ev, cat);
    var a, a', made := IdsIn(Latest(w.history)), IdsIn(Latest(w'.history)), NewIds(w, ev, cat);
    var b := if Records(w, ev, cat) then IdsIn(w.history[ev.version]) else {};
    assert b <= w.ec2.created.Keys by {
      if Records(w, ev, cat) {
        RecordedIsCreated(w, cat, itype, ev.version);
      }
    }
    assert a' == if Records(w, ev, cat) then b + made else a by {
      StepIds(w, ev, cat, itype);
      LatestRecord(w, ev, cat, itype);
    }
    assert Splits(w'.ec2.created.Keys, a', w'.orphans) <==> KeepsInterfaces(w, ev, cat) by {
      StepIds(w, ev, cat, itype);
      MadeIsNew(w, ev, cat, itype);
      MoreSplits(w.ec2.created.Keys, a, b, w.orphans, made);
    }
  }

  lemma RunStepAccounts(run: seq<World>, events: seq<Event>, cat: Catalog, itype: string, k: nat)
    requires IsRun(run, events, cat, itype) && itype in cat.enis && k < |events|
    requires WorldOK(run[0], cat, itype) && Accounted(run[k])
    ensures Accounted(run[k + 1]) <==> KeepsInterfaces(run[k], events[k], cat)
  {
    StaleReadsAreSafe(run, events, cat, itype, k);
    StepKeepsAccounts(run[k], events[k], cat, itype);
  }

  lemma AccountedWhileKept(run: seq<World>, events: seq<Event>, cat: Catalog, k: nat)
    requires ReadsExist(run, events) && k < |run| && Accounted(run[0])
    requires forall j: nat :: j < k && Accounted(run[j])
                              ==> (Accounted(run[j + 1]) <==> KeepsInterfaces(run[j], events[j], cat))
    ensures (forall j: nat :: j <= k ==> Accounted(run[j]))
            <==> (forall j: nat :: j < k ==> KeepsInterfaces(run[j], events[j], cat))
  {
    var good := (j: nat) => j < |run| && run[j].history != [] && Accounted(run[j]);
    var keeps := (j: nat) => j < |events| && ReadsExist(run, events) && KeepsInterfaces(run[j], events[j], cat);
    GoodWhileKept(good, keeps, k);
    assert forall j: nat :: j <= k ==> (good(j) <==> Accounted(run[j]));
    assert forall j: nat :: j < k ==> (keeps(j) <==> KeepsInterfaces(run[j], events[j], cat));
  }

  /** And over runs: every state up to the k-th is accounted for exactly when every step before it kept
      the interfaces. */
  lemma AlwaysAccounted(run: seq<World>, events: seq<Event>, cat: Catalog, itype: string, k: nat)
    requires IsRun(run, events, cat, itype) && itype in cat.enis && WorldOK(run[0], cat, itype) && k < |run|
    requires Accounted(run[0])
    ensures (forall j: nat :: j <= k ==> Accounted(run[j]))
            <==> (forall j: nat :: j < k ==> KeepsInterfaces(run[j], events[j], cat))
  {
    forall j: nat | j < k && Accounted(run[j])
      ensures Accounted(run[j + 1]) <==> KeepsInterfaces(run[j], events[j], cat)
    {
      RunStepAccounts(run, events, cat, itype, j);
    }
    AccountedWhileKept(run, events, cat, k);
  }

  // ---------------------------------------------------- positions are permanent

  function Plain(enis: seq<ENI>): (r: seq<ENI>)
    ensures |r| == |enis| && forall i :: 0 <= i < |enis| ==> r[i] == Bare(enis[i])
  {
    seq(|enis|, i requires 0 <= i < |enis| => Bare(enis[i]))
  }

  function PlainIn(n: Node): seq<ENI> {
    Plain(RecordedIn(n))
  }

  /** A later version records the same interfaces at the same positions, and perhaps more. */
  predicate OnlyGrows(history: seq<Node>) {
    forall j, k :: 0 <= j <= k < |history| ==> PlainIn(history[j]) <= PlainIn(history[k])
  }

  /** What the step records, it made from a version with as many interfaces as the latest one. */
  predicate KeepsPositions(w: World, ev: Event, cat: Catalog)
    requires w.history != [] && (ev.Handle? ==> ev.version < |w.history|)
  {
    Records(w, ev, cat) ==> |RecordedIn(w.history[ev.version])| == |RecordedIn(Latest(w.history))|
  }

  lemma GrowsAtTheEnd(h: seq<Node>, h': seq<Node>, c: Option<Change>)
    requires h != [] && OnlyGrows(h) && Adds(h, h', c)
    ensures h' != [] && (OnlyGrows(h') <==> PlainIn(Latest(h)) <= PlainIn(Latest(h')))
  {
    var n := |h| - 1;
    assert h'[n] == Latest(h);
    forall k | n <= k < |h'| - 1
      ensures PlainIn(h'[k]) == PlainIn(h'[n])
    {
    }
    if PlainIn(Latest(h)) <= PlainIn(Latest(h')) {
      forall j, k | 0 <= j <= k < |h'|
        ensures PlainIn(h'[j]) <= PlainIn(h'[k])
      {
        if j <= n {
          assert PlainIn(h[j]) <= PlainIn(h[n]);
        }
      }
    }
  }

  /** A list that continues the older of two versions by one new interface, or none, continues the
      newer one only if they record equally many. */
  lemma ContinuesOnlyEqual(older: seq<ENI>, newer: seq<ENI>, extra: seq<ENI>)
    requires older <= newer && |extra| <= 1
    requires forall e, x :: e in newer && x in extra ==> e != x
    ensures newer <= older + extra <==> |older| == |newer|
  {
    var n := |older|;
    if n < |newer| {
      assert newer[n] in newer;
      assert |extra| == 1 ==> (older + extra)[n] == extra[0] && extra[0] in extra;
    } else {
      assert older == newer;
    }
  }

  lemma PlannedPlain(o: Ours, cat: Catalog, env: Env) returns (extra: seq<ENI>)
    requires ChangeOf(o, cat, env).Some? && ChangeOf(o, cat, env).value.SetInterfaces?
    ensures Recorded(o).Some? && |extra| <= 1
    ensures Plain(ChangeOf(o, cat, env).value.enis) == Plain(Recorded(o).value) + extra
    ensures forall x :: x in extra ==> Plan(o, cat).Create? && x.id == env.create.value.id
  {
    PlanMeaning(o, cat);
    match Plan(o, cat)
    case Attach(enis, k) =>
      extra := [];
      assert Plain(MarkAttached(enis, k)) == Plain(enis);
    case Create(enis, info) =>
      var eni := NewENI(env.create.value, |enis| + 1, info.subnet);
      extra := [eni];
      assert Plain(enis + [eni]) == Plain(enis) + [eni];
    case _ =>
      extra := [];
  }

  lemma PlannedRecorded(o: Ours, cat: Catalog, env: Env)
    ensures ChangeOf(o, cat, env).Some? && ChangeOf(o, cat, env).value.SetInterfaces? ==> Recorded(o).Some?
  {
  }

  lemma PlainIsCreated(enis: seq<ENI>, ec2: Ec2, e: ENI)
    requires FromEc2(enis, ec2) && e in Plain(enis)
    ensures e.id in ec2.created
  {
  }

  /** What is planned from an older version continues the newer one only if they record equally many. */
  lemma PlanContinues(older: Ours, newer: seq<ENI>, cat: Catalog, env: Env, ec2: Ec2)
    requires ChangeOf(older, cat, env).Some? && ChangeOf(older, cat, env).value.SetInterfaces?
    requires Recorded(older).Some? && Plain(Recorded(older).value) <= Plain(newer) && FromEc2(newer, ec2)
    requires env.create.Some? ==> env.create.value.id !in ec2.created
    ensures Plain(newer) <= Plain(ChangeOf(older, cat, env).value.enis) <==> |Recorded(older).value| == |newer|
  {
    var extra := PlannedPlain(older, cat, env);
    forall e, x | e in Plain(newer) && x in extra
      ensures e != x
    {
      PlainIsCreated(newer, ec2, e);
    }
    ContinuesOnlyEqual(Plain(Recorded(older).value), Plain(newer), extra);
  }

  lemma RecordContinues(w: World, ev: Event, cat: Catalog, itype: string)
    requires w.history != [] && itype in cat.enis && WorldOK(w, cat, itype) && Enabled(w, ev, itype)
    requires Records(w, ev, cat) && OnlyGrows(w.history)
    ensures PlainIn(Latest(w.history)) <= Plain(CommittedBy(w, ev, cat).value.enis) <==> KeepsPositions(w, ev, cat)
  {
    var h := w.history;
    var o := OursIn(h[ev.version]);
    RecordedIsCreated(w, cat, itype, |h| - 1);
    PlannedRecorded(o, cat, ev.env);
    assert PlainIn(h[ev.version]) <= PlainIn(h[|h| - 1]);
    PlanContinues(o, RecordedIn(Latest(h)), cat, ev.env, w.ec2);
  }

  /** Positions, exactly: a step keeps every version a continuation of the earlier ones if and only if
      what it records, if anything, it made from a version with as many interfaces as the latest. */
  lemma StepOnlyGrows(w: World, ev: Event, cat: Catalog, itype: string)
    requires w.history != [] && itype in cat.enis && WorldOK(w, cat, itype) && Enabled(w, ev, itype)
    requires OnlyGrows(w.history)
    ensures OnlyGrows(Apply(w, ev, cat).history) <==> KeepsPositions(w, ev, cat)
  {
    var h, h' := w.history, Apply(w, ev, cat).history;
    assert OnlyGrows(h') <==> PlainIn(Latest(h)) <= PlainIn(Latest(h')) by {
      StepAdds(w, ev, cat, itype);
      GrowsAtTheEnd(h, h', CommittedBy(w, ev, cat));
    }
    LatestRecord(w, ev, cat, itype);
    if Records(w, ev, cat) {
      RecordContinues(w, ev, cat, itype);
    }
  }

  lemma RunStepOnlyGrows(run: seq<World>, events: seq<Event>, cat: Catalog, itype: string, k: nat)
    requires IsRun(run, events, cat, itype) && itype in cat.enis && k < |events|
    requires WorldOK(run[0], cat, itype) && OnlyGrows(run[k].history)
    ensures OnlyGrows(run[k + 1].history) <==> KeepsPositions(run[k], events[k], cat)
  {
    StaleReadsAreSafe(run, events, cat, itype, k);
    StepOnlyGrows(run[k], events[k], cat, itype);
  }

  lemma GrowsWhileKept(run: seq<World>, events: seq<Event>, cat: Catalog, k: nat)
    requires ReadsExist(run, events) && k < |run| && OnlyGrows(run[0].history)
    requires forall j: nat :: j < k && OnlyGrows(run[j].history)
                              ==> (OnlyGrows(run[j + 1].history) <==> KeepsPositions(run[j], events[j], cat))
    ensures (forall j: nat :: j <= k ==> OnlyGrows(run[j].history))
            <==> (forall j: nat :: j < k ==> KeepsPositions(run[j], events[j], cat))
  {
    var good := (j: nat) => j < |run| && OnlyGrows(run[j].history);
    var keeps := (j: nat) => j < |events| && ReadsExist(run, events) && KeepsPositions(run[j], events[j], cat);
    GoodWhileKept(good, keeps, k);
    assert forall j: nat :: j <= k ==> (good(j) <==> OnlyGrows(run[j].history));
    assert forall j: nat :: j < k ==> (keeps(j) <==> KeepsPositions(run[j], events[j], cat));
  }

  /** And over runs: no position changes hands up to the k-th state exactly when every step before it
      kept the positions. */
  lemma AlwaysOnlyGrows(run: seq<World>, events: seq<Event>, cat: Catalog, itype: string, k: nat)
    requires IsRun(run, events, cat, itype) && itype in cat.enis && WorldOK(run[0], cat, itype) && k < |run|
    requires OnlyGrows(run[0].history)
    ensures (forall j: nat :: j <= k ==> OnlyGrows(run[j].history))
            <==> (forall j: nat :: j < k ==> KeepsPositions(run[j], events[j], cat))
  {
    forall j: nat | j < k && OnlyGrows(run[j].history)
      ensures OnlyGrows(run[j + 1].history) <==> KeepsPositions(run[j], events[j], cat)
    {
      RunStepOnlyGrows(run, events, cat, itype, j);
    }
    GrowsWhileKept(run, events, cat, k);
  }

  /** Both are lost together: while neither has been, a step loses an interface exactly when it hands
      on a position. */
  lemma LostTogether(w: World, ev: Event, cat: Catalog, itype: string)
    requires w.history != [] && itype in cat.enis && WorldOK(w, cat, itype) && OnlyGrows(w.history)
    requires ev.Handle? ==> ev.version < |w.history|
    ensures KeepsInterfaces(w, ev, cat) <==> KeepsPositions(w, ev, cat)
  {
    if ev.Handle? {
      var older, newer := RecordedIn(w.history[ev.version]), RecordedIn(Latest(w.history));
      assert PlainIn(w.history[ev.version]) <= PlainIn(w.history[|w.history| - 1]);
      RecordedIsCreated(w, cat, itype, |w.history| - 1);
      PrefixIds(older, newer);
    }
  }

  lemma PrefixIds(older: seq<ENI>, newer: seq<ENI>)
    requires Plain(older) <= Plain(newer)
    requires forall i, j :: 0 <= i < j < |newer| ==> newer[i].id != newer[j].id
    ensures Ids(older) == Ids(newer) <==> |older| == |newer|
  {
    assert forall i :: 0 <= i < |older| ==> Plain(older)[i] == Plain(newer)[i] && older[i].id == newer[i].id;
    if |older| == |newer| {
      forall id | id in Ids(newer)
        ensures id in Ids(older)
      {
        var i :| 0 <= i < |newer| && newer[i].id == id;
        assert older[i].id == id;
      }
    } else {
      assert newer[|older|].id in Ids(newer);
    }
  }

  /** A call that reads the current controller's part keeps both. */
  lemma CurrentReadKeeps(w: World, ev: Event, cat: Catalog)
    requires w.history != [] && ReadsCurrent(w, ev)
    ensures KeepsInterfaces(w, ev, cat) && KeepsPositions(w, ev, cat)
  {
  }

  /** Two creates from the same version, both committed, whatever other clients write meanwhile: the
      first one's interface is then neither recorded nor a known orphan, and its index has changed
      hands. */
  lemma StaleCreateLosesInterface(w: World, v: nat, cat: Catalog, itype: string, first: Env, second: Env)
    requires w.history != [] && itype in cat.enis && WorldOK(w, cat, itype) && Accounted(w) && OnlyGrows(w.history)
    requires Enabled(w, Handle(v, first), itype) && Commits(first.update)
    requires OursIn(w.history[v]) == OursIn(Latest(w.history)) && Creates(w, Handle(v, first), cat)
    requires var w1 := Apply(w, Handle(v, first), cat);
             v < |w1.history| && w1.history[v] == w.history[v]
             && Enabled(w1, Handle(v, second), itype) && Creates(w1, Handle(v, second), cat) && Commits(second.update)
    ensures var w2 := Apply(Apply(w, Handle(v, first), cat), Handle(v, second), cat);
            && first.create.value.id in w2.ec2.created
            && first.create.value.id !in IdsIn(Latest(w2.history)) && first.create.value.id !in w2.orphans
            && !Accounted(w2) && !OnlyGrows(w2.history)
  {
    var a, b := Handle(v, first), Handle(v, second);
    var w1 := Apply(w, a, cat);
    CurrentReadKeeps(w, a, cat);
    StepKeepsOK(w, a, cat, itype);
    StepKeepsAccounts(w, a, cat, itype);
    StepOnlyGrows(w, a, cat, itype);
    FirstIsRecorded(w, a, cat, itype);
    StepKeepsAccounts(w1, b, cat, itype);
    StepOnlyGrows(w1, b, cat, itype);
    FirstIsRecorded(w1, b, cat, itype);
    LostTogether(w1, b, cat, itype);
  }

  lemma CommittedCreateRecords(w: World, ev: Event, cat: Catalog)
    requires ev.Handle? ==> ev.version < |w.history|
    requires Creates(w, ev, cat) && Commits(ev.env.update)
    ensures Records(w, ev, cat)
  {
  }

  lemma FirstIsRecorded(w: World, ev: Event, cat: Catalog, itype: string)
    requires w.history != [] && itype in cat.enis && WorldOK(w, cat, itype)
    requires Enabled(w, ev, itype) && Creates(w, ev, cat) && Commits(ev.env.update)
    ensures var w', id := Apply(w, ev, cat), ev.env.create.value.id;
            && Records(w, ev, cat) && id !in w.ec2.created && w'.ec2.created.Keys == w.ec2.created.Keys + {id}
            && w'.orphans == w.orphans && IdsIn(Latest(w'.history)) == IdsIn(w.history[ev.version]) + {id}
  {
    CommittedCreateRecords(w, ev, cat);
    StepIds(w, ev, cat, itype);
    LatestRecord(w, ev, cat, itype);
  }
}
