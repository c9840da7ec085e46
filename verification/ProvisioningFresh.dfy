/** Provisioning when each handleNode call sees the current controller's part of the node: it ends
    after an exact number of steps. */
module ProvisioningFresh {
  import opened Net
  import opened NodeObject
  import opened EniController
  import opened Provisioning

  // -------------------------------------------------------- provisioning ends

  /** The steps still to take: the info, the label, two for each missing interface and one for one
      created but not attached. */
  function StepsLeft(o: Ours, limit: int): int {
    match Recorded(o)
    case None => 0
    case Some(enis) =>
      (if o.info.None? then 1 else 0) + (if o.instance.Some? then 0 else 1)
      + 2 * (limit - 1 - |enis|) + (if FirstUnattached(enis, 0) < |enis| then 1 else 0)
  }

  /** EC2 and the API server answer; conflicts with other clients are still allowed. */
  predicate NoErrors(env: Env) {
    env.describe.Some? && env.attach.AttachDone? && env.create.Some? && Succeeds(env.update)
  }

  /** The change has exactly one step less to go, if there are any; otherwise there is no change. */
  lemma ChangeIsOneStepOn(o: Ours, cat: Catalog, itype: string, ec2: Ec2, env: Env)
    requires itype in cat.enis && itype in cat.ips && OursOK(o, cat.enis[itype], itype, ec2)
    requires o.provider.Instance? && NoErrors(env) && env.describe.value.instanceType == itype
    ensures StepsLeft(o, cat.enis[itype]) >= 0
    ensures StepsLeft(o, cat.enis[itype]) > 0 ==>
              && ChangeOf(o, cat, env).Some?
              && StepsLeft(OnOurs(ChangeOf(o, cat, env).value, o), cat.enis[itype]) == StepsLeft(o, cat.enis[itype]) - 1
    ensures StepsLeft(o, cat.enis[itype]) == 0 ==> Plan(o, cat).Nothing?
  {
    var enis := Recorded(o).value;
    if Plan(o, cat).Attach? {
      AttachFinishesLast(enis, FirstUnattached(enis, 0), cat.enis[itype]);
    } else if Plan(o, cat).Create? {
      CreateLeavesOne(enis, NewENI(env.create.value, |enis| + 1, o.info.value.info.subnet));
    }
  }

  /** While steps are left, a call makes exactly one; when none are left it changes nothing. */
  lemma CallMakesOneStep(w: World, cat: Catalog, itype: string, env: Env)
    requires w.history != [] && itype in cat.enis && itype in cat.ips && WorldOK(w, cat, itype)
    requires OursIn(Latest(w.history)).provider.Instance?
    requires Polite(env.update) && NoErrors(env) && env.describe.value.instanceType == itype
    ensures var o, limit := OursIn(Latest(w.history)), cat.enis[itype];
            var w' := Handled(w, o, cat, env).0;
            var o' := OursIn(Latest(w'.history));
            && o'.provider == o.provider && StepsLeft(o, limit) >= 0
            && (StepsLeft(o, limit) > 0 ==> StepsLeft(o', limit) == StepsLeft(o, limit) - 1)
            && (StepsLeft(o, limit) == 0 ==> w' == w)
  {
    var o, limit := OursIn(Latest(w.history)), cat.enis[itype];
    assert OursOK(o, limit, itype, w.ec2);
    ChangeIsOneStepOn(o, cat, itype, w.ec2, env);
    if StepsLeft(o, limit) > 0 {
      var c := ChangeOf(o, cat, env).value;
      SucceedsCommits(env.update);
      UpdateAdds(w.history, c, env.update);
    }
  }

  lemma CreateLeavesOne(enis: seq<ENI>, eni: ENI)
    requires FirstUnattached(enis, 0) == |enis| && !eni.attached
    ensures FirstUnattached(enis + [eni], 0) == |enis|
  {
    var all := enis + [eni];
    assert all[|enis|] == eni && forall i :: 0 <= i < |enis| ==> all[i] == enis[i];
  }

  lemma AttachFinishesLast(enis: seq<ENI>, k: nat, limit: int)
    requires Bounded(enis, limit) && k < |enis| && k == FirstUnattached(enis, 0)
    ensures FirstUnattached(MarkAttached(enis, k), 0) == |enis|
  {
  }

  ghost predicate IsUndisturbedRun(run: seq<World>, envs: seq<Env>, cat: Catalog, itype: string) {
    && |run| == |envs| + 1
    && (forall k :: 0 <= k < |run| ==> run[k].history != [])
    && forall k :: 0 <= k < |envs| ==>
         && Polite(envs[k].update) && NoErrors(envs[k]) && envs[k].describe.value.instanceType == itype
         && FreshInterface(run[k].ec2, envs[k].create.value)
         && run[k + 1] == Handled(run[k], OursIn(Latest(run[k].history)), cat, envs[k]).0
  }

  function LeftIn(w: World, limit: int): int
    requires w.history != []
  {
    StepsLeft(OursIn(Latest(w.history)), limit)
  }

  lemma OneStepDown(w: World, w': World, env: Env, cat: Catalog, itype: string)
    requires w.history != [] && itype in cat.enis && itype in cat.ips && WorldOK(w, cat, itype)
    requires OursIn(Latest(w.history)).provider.Instance?
    requires Polite(env.update) && NoErrors(env) && env.describe.value.instanceType == itype
    requires FreshInterface(w.ec2, env.create.value)
    requires w' == Handled(w, OursIn(Latest(w.history)), cat, env).0
    ensures WorldOK(w', cat, itype) && OursIn(Latest(w'.history)).provider.Instance?
    ensures LeftIn(w, cat.enis[itype]) >= 0
    ensures LeftIn(w', cat.enis[itype]) == if LeftIn(w, cat.enis[itype]) > 0 then LeftIn(w, cat.enis[itype]) - 1 else 0
    ensures LeftIn(w, cat.enis[itype]) == 0 ==> w' == w
  {
    CallMakesOneStep(w, cat, itype, env);
    assert WorldOK(w', cat, itype) by {
      assert w' == Apply(w, Handle(|w.history| - 1, env), cat);
      HandleKeepsOK(w, |w.history| - 1, env, cat, itype);
    }
  }

  lemma RunStep(run: seq<World>, envs: seq<Env>, cat: Catalog, itype: string, k: nat)
    requires IsUndisturbedRun(run, envs, cat, itype) && k < |envs|
    requires itype in cat.enis && itype in cat.ips && WorldOK(run[k], cat, itype)
    requires OursIn(Latest(run[k].history)).provider.Instance?
    ensures WorldOK(run[k + 1], cat, itype) && OursIn(Latest(run[k + 1].history)).provider.Instance?
    ensures LeftIn(run[k + 1], cat.enis[itype])
            == if LeftIn(run[k], cat.enis[itype]) > 0 then LeftIn(run[k], cat.enis[itype]) - 1 else 0
    ensures LeftIn(run[k], cat.enis[itype]) >= 0 && (LeftIn(run[k], cat.enis[itype]) == 0 ==> run[k + 1] == run[k])
  {
    OneStepDown(run[k], run[k + 1], envs[k], cat, itype);
  }

  lemma {:induction false} StepsCountDown(run: seq<World>, envs: seq<Env>, cat: Catalog, itype: string, k: nat)
    requires IsUndisturbedRun(run, envs, cat, itype) && k < |run|
    requires itype in cat.enis && itype in cat.ips && WorldOK(run[0], cat, itype)
    requires OursIn(Latest(run[0].history)).provider.Instance? && LeftIn(run[0], cat.enis[itype]) >= 0
    ensures WorldOK(run[k], cat, itype) && OursIn(Latest(run[k].history)).provider.Instance?
    ensures var start := LeftIn(run[0], cat.enis[itype]);
            LeftIn(run[k], cat.enis[itype]) == if k <= start then start - k else 0
  {
    if k > 0 {
      StepsCountDown(run, envs, cat, itype, k - 1);
      RunStep(run, envs, cat, itype, k - 1);
    }
  }

  /** A bare node reaches its fixed point in exactly 2 + 2 * (limit - 1) calls: before that every
      call has steps left and takes one, from then on every call leaves the world as it is. */
  lemma BareNodeStepCount(run: seq<World>, envs: seq<Env>, cat: Catalog, itype: string, k: nat)
    requires IsUndisturbedRun(run, envs, cat, itype) && k < |envs|
    requires itype in cat.enis && itype in cat.ips && cat.enis[itype] >= 2 && WorldOK(run[0], cat, itype)
    requires var o := OursIn(Latest(run[0].history));
             o.provider.Instance? && o.info.None? && o.interfaces.None? && o.instance.None?
    ensures k >= 2 + 2 * (cat.enis[itype] - 1) <==> run[k + 1] == run[k]
  {
    var limit := cat.enis[itype];
    assert LeftIn(run[0], limit) == 2 + 2 * (limit - 1);
    StepsCountDown(run, envs, cat, itype, k);
    RunStep(run, envs, cat, itype, k);
  }

  /** At the fixed point the node has all the interfaces its type allows, all attached. */
  lemma FixedPointIsComplete(w: World, cat: Catalog, itype: string)
    requires w.history != [] && itype in cat.enis && WorldOK(w, cat, itype)
    ensures LeftIn(w, cat.enis[itype]) == 0 <==>
              var o := OursIn(Latest(w.history));
              && o.info.Some? && o.instance.Some? && |Recorded(o).value| == cat.enis[itype] - 1
              && forall i :: 0 <= i < |Recorded(o).value| ==> Recorded(o).value[i].attached
  {
  }
}
