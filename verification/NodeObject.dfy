/** The Kubernetes node object, the API server that versions it, and the optimistic update loop
    (pkg/objutil/node.go, pkg/nodestate/node.go). */
module NodeObject {
  import opened Net

  datatype InstanceInfo = InstanceInfo(instanceType: string, subnetID: string, subnet: Block, groups: seq<string>)

  /** An annotation's text: the encoding of one of our two records, or anything else. */
  datatype Value = Text(text: string) | Info(info: InstanceInfo) | Interfaces(enis: seq<ENI>)

  datatype Effect = NoSchedule | PreferNoSchedule | NoExecute

  datatype Taint = Taint(key: string, value: string, effect: Effect)

  /** The provider ID: absent, not an AWS instance, or an instance. */
  datatype Provider = NoProvider | BadProvider | Instance(id: string)

  datatype Node = Node(
    provider: Provider,
    labels: map<string, string>,
    annotations: map<string, Value>,
    taints: seq<Taint>)

  const IFS_KEY := "k8s-vpcnet/eni-interfaces"
  const EC2_INFO_KEY := "k8s-vpcnet/ec2-instance-info"
  const INSTANCE_LABEL := "k8s-vpcnet/instance-id"

  lemma KeysDiffer()
    ensures IFS_KEY != EC2_INFO_KEY
  {
  }

  // --------------------------------------------------------------- mutators

  function SetAnnotation(key: string, value: Value): Node -> Node {
    (n: Node) => n.(annotations := n.annotations[key := value])
  }

  function SetLabel(key: string, value: string): Node -> Node {
    (n: Node) => n.(labels := n.labels[key := value])
  }

  predicate Matches(t: Taint, key: string, effect: Effect) {
    t.key == key && t.effect == effect
  }

  predicate HasTaint(n: Node, key: string, effect: Effect) {
    exists t :: t in n.taints && Matches(t, key, effect)
  }

  function Without(taints: seq<Taint>, key: string, effect: Effect): seq<Taint> {
    if taints == [] then []
    else
      var t := taints[|taints| - 1];
      Without(taints[..|taints| - 1], key, effect) + if Matches(t, key, effect) then [] else [t]
  }

  function AddTaint(key: string, effect: Effect): Node -> Node {
    (n: Node) => n.(taints := n.taints + [Taint(key, "", effect)])
  }

  function RemoveTaint(key: string, effect: Effect): Node -> Node {
    (n: Node) => n.(taints := Without(n.taints, key, effect))
  }

  /** HasTaint's loop, which sets a flag and never stops early. */
  method ScanTaints(n: Node, key: string, effect: Effect) returns (tainted: bool)
    ensures tainted == HasTaint(n, key, effect)
  {
    tainted := false;
    for k := 0 to |n.taints|
      invariant tainted <==> exists j :: 0 <= j < k && Matches(n.taints[j], key, effect)
    {
      if n.taints[k].key == key && n.taints[k].effect == effect {
        tainted := true;
        assert Matches(n.taints[k], key, effect);
      }
    }
    if tainted {
      var j :| 0 <= j < |n.taints| && Matches(n.taints[j], key, effect);
      assert n.taints[j] in n.taints;
    }
  }

  /** RemoveTaint's loop, which collects what to keep. */
  method KeepOthers(n: Node, key: string, effect: Effect) returns (r: Node)
    ensures r == RemoveTaint(key, effect)(n)
  {
    var keep := [];
    for k := 0 to |n.taints|
      invariant keep == Without(n.taints[..k], key, effect)
    {
      assert n.taints[..k + 1][..k] == n.taints[..k];
      if !(n.taints[k].key == key && n.taints[k].effect == effect) {
        keep := keep + [n.taints[k]];
      }
    }
    assert n.taints[..|n.taints|] == n.taints;
    r := n.(taints := keep);
  }

  lemma CountLast(taints: seq<Taint>, t: Taint)
    requires taints != []
    ensures var n := |taints| - 1;
            multiset(taints)[t] == multiset(taints[..n])[t] + if taints[n] == t then 1 else 0
  {
    assert taints == taints[..|taints| - 1] + [taints[|taints| - 1]];
  }

  lemma {:induction false} WithoutCount(taints: seq<Taint>, key: string, effect: Effect, t: Taint)
    ensures multiset(Without(taints, key, effect))[t] == if Matches(t, key, effect) then 0 else multiset(taints)[t]
  {
    if taints != [] {
      var n := |taints| - 1;
      WithoutCount(taints[..n], key, effect, t);
      CountLast(taints, t);
      WithoutLast(taints, key, effect, t);
    }
  }

  lemma WithoutLast(taints: seq<Taint>, key: string, effect: Effect, t: Taint)
    requires taints != []
    ensures var n := |taints| - 1;
            multiset(Without(taints, key, effect))[t]
            == multiset(Without(taints[..n], key, effect))[t]
               + if taints[n] == t && !Matches(t, key, effect) then 1 else 0
  {
    var n := |taints| - 1;
    var front, all := Without(taints[..n], key, effect), Without(taints, key, effect);
    if Matches(taints[n], key, effect) {
      assert all == front;
    } else {
      assert all[..|all| - 1] == front;
      CountLast(all, t);
    }
  }

  lemma {:induction false} WithoutNone(taints: seq<Taint>, key: string, effect: Effect)
    requires forall u :: u in taints ==> !Matches(u, key, effect)
    ensures Without(taints, key, effect) == taints
  {
    if taints != [] {
      var n := |taints| - 1;
      WithoutNone(taints[..n], key, effect);
      assert taints == taints[..n] + [taints[n]];
    }
  }

  /** Removing a taint leaves none of it and every other taint as often as it was. */
  lemma RemoveTaintMeaning(n: Node, key: string, effect: Effect)
    ensures !HasTaint(RemoveTaint(key, effect)(n), key, effect)
    ensures forall t :: !Matches(t, key, effect)
                        ==> multiset(RemoveTaint(key, effect)(n).taints)[t] == multiset(n.taints)[t]
  {
    var r := RemoveTaint(key, effect)(n);
    forall t
      ensures Matches(t, key, effect) ==> t !in r.taints
      ensures !Matches(t, key, effect) ==> multiset(r.taints)[t] == multiset(n.taints)[t]
    {
      WithoutCount(n.taints, key, effect, t);
      assert t in r.taints <==> t in multiset(r.taints);
    }
  }

  lemma AddTaintMeaning(n: Node, key: string, effect: Effect)
    ensures HasTaint(AddTaint(key, effect)(n), key, effect)
  {
    var r := AddTaint(key, effect)(n);
    assert Taint(key, "", effect) in r.taints && Matches(Taint(key, "", effect), key, effect);
  }

  /** Adding a taint adds one with the key and effect and no value, even if there is one already, and
      changes the number of no other. */
  lemma AddTaintCount(n: Node, key: string, effect: Effect, t: Taint)
    ensures multiset(AddTaint(key, effect)(n).taints)[t]
            == multiset(n.taints)[t] + if t == Taint(key, "", effect) then 1 else 0
  {
    var r := AddTaint(key, effect)(n);
    assert r.taints[..|r.taints| - 1] == n.taints;
    CountLast(r.taints, t);
  }

  /** Taking off what was put on gives back the node, if it did not have that taint before. */
  lemma TaintRoundTrip(n: Node, key: string, effect: Effect)
    ensures RemoveTaint(key, effect)(AddTaint(key, effect)(n)) == RemoveTaint(key, effect)(n)
    ensures RemoveTaint(key, effect)(AddTaint(key, effect)(n)) == n <==> !HasTaint(n, key, effect)
  {
    var added := AddTaint(key, effect)(n);
    assert added.taints[..|added.taints| - 1] == n.taints;
    assert Without(n.taints, key, effect) + [] == Without(n.taints, key, effect);
    if HasTaint(n, key, effect) {
      RemoveTaintMeaning(n, key, effect);
    } else {
      WithoutNone(n.taints, key, effect);
    }
  }

  // ------------------------------------------------------------- API server

  /** Another client's complete read-modify-write. */
  type Writer = Node -> Node

  /** How an update request that met the current version ends: applied and acknowledged, refused
      for another reason than a conflict, or applied with the reply lost. */
  datatype Delivery = Acknowledged | Refused | ReplyLost

  /** What happens around one attempt: other clients write before the read and between the read and
      the update, the read may fail, and the update is delivered somehow. */
  datatype Attempt = Attempt(before: seq<Writer>, getFails: bool, during: seq<Writer>, delivery: Delivery)

  function Latest(history: seq<Node>): Node
    requires history != []
  {
    history[|history| - 1]
  }

  function WriteAll(history: seq<Node>, writers: seq<Writer>): (h: seq<Node>)
    requires history != []
    ensures h != []
    decreases |writers|
  {
    if writers == [] then history
    else WriteAll(history + [writers[0](Latest(history))], writers[1..])
  }

  /** `committed`: our update is in the history. `ok`: the caller is told so. */
  datatype UpdateResult = UpdateResult(history: seq<Node>, committed: bool, ok: bool)

  /** The get/mutate/update loop against the given disturbances; past the end of the list nothing
      disturbs it any more. */
  function Updated(history: seq<Node>, mutate: Node -> Node, env: seq<Attempt>): (r: UpdateResult)
    requires history != []
    ensures r.history != []
    decreases |env|
  {
    if env == [] then UpdateResult(history + [mutate(Latest(history))], true, true)
    else
      var a := env[0];
      var read := WriteAll(history, a.before);
      if a.getFails then UpdateResult(read, false, false)
      else
        var now := WriteAll(read, a.during);
        var conflict := a.during != [];
        if a.delivery.Refused? then UpdateResult(now, false, false)
        else if conflict then
          if a.delivery.ReplyLost? then UpdateResult(now, false, false)
          else Updated(now, mutate, env[1..])
        else UpdateResult(now + [mutate(Latest(read))], true, a.delivery.Acknowledged?)
  }

  /** Versions: the history only grows, and a write is accepted only for the current version. */
  class ApiServer {
    var history: seq<Node>

    ghost predicate Valid()
      reads this
    {
      history != []
    }

    constructor (n: Node)
      ensures Valid() && history == [n]
    {
      history := [n];
    }

    method Get() returns (n: Node, version: nat)
      requires Valid()
      ensures n == Latest(history) && version == |history| - 1
    {
      n, version := history[|history| - 1], |history| - 1;
    }

    /** Compare-and-swap on the version that was read. */
    method Update(n: Node, version: nat) returns (conflict: bool)
      requires Valid()
      modifies this
      ensures Valid() && conflict == (version != |old(history)| - 1)
      ensures history == if conflict then old(history) else old(history) + [n]
    {
      conflict := version != |history| - 1;
      if !conflict {
        history := history + [n];
      }
    }

    method OtherClients(writers: seq<Writer>)
      requires Valid()
      modifies this
      ensures Valid() && history == WriteAll(old(history), writers)
      ensures |history| == |old(history)| + |writers|
    {
      for k := 0 to |writers|
        invariant Valid() && |history| == |old(history)| + k
        invariant WriteAll(history, writers[k..]) == WriteAll(old(history), writers)
      {
        assert writers[k..][1..] == writers[k + 1..];
        history := history + [writers[k](history[|history| - 1])];
      }
    }
  }

  /** The conflicts the loop meets before it ends, one way or another. */
  function ConflictsMet(env: seq<Attempt>): nat {
    if env == [] || env[0].getFails || env[0].during == [] || !env[0].delivery.Acknowledged? then 0
    else 1 + ConflictsMet(env[1..])
  }

  /** UpdateNode. Each conflict it meets costs one attempt, and only those do: there is one attempt
      more, or none more if the node could not be read again. */
  method UpdateNode(server: ApiServer, mutate: Node -> Node, env: seq<Attempt>) returns (ok: bool, attempts: nat)
    requires server.Valid()
    modifies server
    ensures server.Valid()
    ensures server.history == Updated(old(server.history), mutate, env).history
    ensures ok == Updated(old(server.history), mutate, env).ok
    ensures ConflictsMet(env) <= attempts <= ConflictsMet(env) + 1
    ensures ok ==> attempts == ConflictsMet(env) + 1
  {
    var k := 0;
    attempts := 0;
    while k < |env|
      invariant server.Valid() && k <= |env|
      invariant Updated(server.history, mutate, env[k..]) == Updated(old(server.history), mutate, env)
      invariant attempts + ConflictsMet(env[k..]) == ConflictsMet(env)
    {
      var a := env[k];
      assert env[k..][1..] == env[k + 1..];
      server.OtherClients(a.before);
      if a.getFails {
        return false, attempts;
      }
      var node, version := server.Get();
      server.OtherClients(a.during);
      attempts := attempts + 1;
      if a.delivery.Refused? {
        return false, attempts;
      }
      var conflict := server.Update(mutate(node), version);
      if a.delivery.ReplyLost? {
        return false, attempts;
      }
      if !conflict {
        return true, attempts;
      }
      k := k + 1;
    }
    var node, version := server.Get();
    var _ := server.Update(mutate(node), version);
    ok, attempts := true, attempts + 1;
  }

  // ------------------------------------------- what an optimistic update means

  ghost predicate Keeps(w: Writer, p: Node -> bool) {
    forall n :: p(n) ==> p(w(n))
  }

  ghost predicate AllKeep(env: seq<Attempt>, p: Node -> bool) {
    forall k, w :: 0 <= k < |env| && (w in env[k].before || w in env[k].during) ==> Keeps(w, p)
  }

  lemma {:induction false} WriteAllKeeps(history: seq<Node>, writers: seq<Writer>, p: Node -> bool)
    requires history != [] && p(Latest(history))
    requires forall w :: w in writers ==> Keeps(w, p)
    ensures var h := WriteAll(history, writers);
            && history <= h && |h| == |history| + |writers|
            && forall k :: |history| - 1 <= k < |h| ==> p(h[k])
    decreases |writers|
  {
    if writers != [] {
      assert Keeps(writers[0], p);
      var next := history + [writers[0](Latest(history))];
      assert Latest(next) == writers[0](Latest(history));
      WriteAllKeeps(next, writers[1..], p);
      assert WriteAll(history, writers) == WriteAll(next, writers[1..]);
      assert history <= next;
      assert next[|history| - 1] == Latest(history);
    }
  }

  /** Earlier versions are untouched, every version another client added keeps `p`, and if ours is
      committed it is the last one and is the mutator applied to the version immediately before. */
  ghost predicate AppliedToLatest(history: seq<Node>, mutate: Node -> Node, r: UpdateResult, p: Node -> bool)
    requires r.history != []
  {
    var others := if r.committed then |r.history| - 1 else |r.history|;
    && history <= r.history && 1 <= |history| <= others
    && (forall k :: |history| - 1 <= k < others ==> p(r.history[k]))
    && (r.committed ==> Latest(r.history) == mutate(r.history[others - 1]))
    && (r.ok ==> r.committed)
  }

  lemma AppliedLater(history: seq<Node>, now: seq<Node>, mutate: Node -> Node, r: UpdateResult, p: Node -> bool)
    requires r.history != [] && history != [] && history <= now && AppliedToLatest(now, mutate, r, p)
    requires forall k :: |history| - 1 <= k < |now| ==> p(now[k])
    ensures AppliedToLatest(history, mutate, r, p)
  {
  }

  /** Every update, however disturbed, is applied to the immediately preceding version. */
  lemma {:induction false} UpdateMeaning(history: seq<Node>, mutate: Node -> Node, env: seq<Attempt>, p: Node -> bool)
    requires history != [] && p(Latest(history)) && AllKeep(env, p)
    ensures AppliedToLatest(history, mutate, Updated(history, mutate, env), p)
    decreases |env|
  {
    var r := Updated(history, mutate, env);
    if env != [] {
      var a := env[0];
      forall w | w in a.before || w in a.during
        ensures Keeps(w, p)
      {
        assert 0 <= 0 < |env| && (w in env[0].before || w in env[0].during);
      }
      var read := WriteAll(history, a.before);
      WriteAllKeeps(history, a.before, p);
      var now := WriteAll(read, a.during);
      WriteAllKeeps(read, a.during, p);
      assert forall k :: |history| - 1 <= k < |now| ==> p(now[k]) by {
        assert forall k :: 0 <= k < |read| ==> now[k] == read[k];
      }
      if !a.getFails && a.during != [] && a.delivery.Acknowledged? {
        forall k, w | 0 <= k < |env[1..]| && (w in env[1..][k].before || w in env[1..][k].during)
          ensures Keeps(w, p)
        {
          assert env[1..][k] == env[k + 1];
        }
        UpdateMeaning(now, mutate, env[1..], p);
        AppliedLater(history, now, mutate, r, p);
      }
    }
  }

  lemma CommittedLast(history: seq<Node>, mutate: Node -> Node, env: seq<Attempt>)
    requires history != [] && Updated(history, mutate, env).committed
    ensures var h := Updated(history, mutate, env).history;
            |h| >= 2 && Latest(h) == mutate(h[|h| - 2])
  {
    var p := (n: Node) => true;
    assert AllKeep(env, p);
    UpdateMeaning(history, mutate, env, p);
  }

  /** What other clients wrote, right up to the commit, survives an annotation update: everything
      but the one annotation is as in the immediately preceding version. */
  lemma OthersSurvive(history: seq<Node>, key: string, value: Value, env: seq<Attempt>)
    requires history != [] && Updated(history, SetAnnotation(key, value), env).committed
    ensures var h := Updated(history, SetAnnotation(key, value), env).history;
            && |h| >= 2
            && var prev, node := h[|h| - 2], Latest(h);
               && node.provider == prev.provider && node.labels == prev.labels && node.taints == prev.taints
               && node.annotations == prev.annotations[key := value]
  {
    CommittedLast(history, SetAnnotation(key, value), env);
  }

  /** And a label update. */
  lemma OthersSurviveLabel(history: seq<Node>, key: string, value: string, env: seq<Attempt>)
    requires history != [] && Updated(history, SetLabel(key, value), env).committed
    ensures var h := Updated(history, SetLabel(key, value), env).history;
            && |h| >= 2
            && var prev, node := h[|h| - 2], Latest(h);
               && node.provider == prev.provider && node.annotations == prev.annotations && node.taints == prev.taints
               && node.labels == prev.labels[key := value]
  {
    CommittedLast(history, SetLabel(key, value), env);
  }

  function TaintMutator(add: bool, key: string, effect: Effect): Node -> Node {
    if add then AddTaint(key, effect) else RemoveTaint(key, effect)
  }

  /** `r` is `n` with the taint there or gone, and with everything else, and any other taint `t`, as it
      was. */
  predicate OnlyTaint(n: Node, r: Node, there: bool, key: string, effect: Effect, t: Taint) {
    && r.provider == n.provider && r.annotations == n.annotations && r.labels == n.labels
    && HasTaint(r, key, effect) == there
    && (!Matches(t, key, effect) ==> multiset(r.taints)[t] == multiset(n.taints)[t])
  }

  lemma TaintMutatorMeaning(n: Node, add: bool, key: string, effect: Effect, t: Taint)
    ensures OnlyTaint(n, TaintMutator(add, key, effect)(n), add, key, effect, t)
  {
    if add {
      AddTaintMeaning(n, key, effect);
      AddTaintCount(n, key, effect, t);
    } else {
      RemoveTaintMeaning(n, key, effect);
    }
  }

  /** And a taint update. */
  lemma OthersSurviveTaint(history: seq<Node>, add: bool, key: string, effect: Effect, env: seq<Attempt>, t: Taint)
    requires history != [] && Updated(history, TaintMutator(add, key, effect), env).committed
    ensures var h := Updated(history, TaintMutator(add, key, effect), env).history;
            |h| >= 2 && OnlyTaint(h[|h| - 2], Latest(h), add, key, effect, t)
  {
    var mutate := TaintMutator(add, key, effect);
    CommittedLast(history, mutate, env);
    var h := Updated(history, mutate, env).history;
    TaintMutatorMeaning(h[|h| - 2], add, key, effect, t);
  }

  /** The disturbances under which an update is committed in the end, and under which the caller is
      told so. */
  predicate Commits(env: seq<Attempt>) {
    env == []
    || (!env[0].getFails && !env[0].delivery.Refused?
        && (env[0].during == [] || (env[0].delivery.Acknowledged? && Commits(env[1..]))))
  }

  predicate Succeeds(env: seq<Attempt>) {
    env == [] || (!env[0].getFails && env[0].delivery.Acknowledged? && (env[0].during == [] || Succeeds(env[1..])))
  }

  lemma {:induction false} SucceedsCommits(env: seq<Attempt>)
    ensures Succeeds(env) ==> Commits(env)
  {
    if Succeeds(env) && env != [] && env[0].during != [] {
      SucceedsCommits(env[1..]);
    }
  }

  lemma {:induction false} CommitsMeaning(history: seq<Node>, mutate: Node -> Node, env: seq<Attempt>)
    requires history != []
    ensures Updated(history, mutate, env).committed == Commits(env)
    ensures Updated(history, mutate, env).ok == Succeeds(env)
    decreases |env|
  {
    if env != [] && !env[0].getFails && env[0].delivery.Acknowledged? && env[0].during != [] {
      CommitsMeaning(WriteAll(WriteAll(history, env[0].before), env[0].during), mutate, env[1..]);
    }
  }
}
