/** The pool-exhaustion taint: IPAM Add and Del drive the allocator, and Add and the reconciler's
    tick keep a taint on the node (cmd/vpcnet-daemon/ipamsvc/ipam-service.go:58-105,
    cmd/vpcnet-daemon/reconciler/reconciler.go:128-204). */
module TaintProtocol {
  import opened Net
  import opened Runs
  import opened Slices
  import opened AllocatorSpec
  import Allocator
  import opened NodeObject

  const TAINT_NO_IPS := "k8s-vpcnet/no-free-ips"

  datatype Config = Config(taintWhenNoIPs: bool, deletePodWhenNoIPs: bool)

  /** What a pool notification meets: the node its cache holds, if any, and the API server's
      behaviour during the update. */
  datatype Api = Api(cached: Option<Node>, env: seq<Attempt>)

  predicate Tainted(n: Node) {
    HasTaint(n, TAINT_NO_IPS, NoSchedule)
  }

  /** PoolFull and PoolNotFull: make the taint `wanted`, judging by the cache whether to write. */
  function Notified(history: seq<Node>, wanted: bool, cfg: Config, api: Api): (r: (seq<Node>, bool))
    requires history != []
    ensures r.0 != []
  {
    if !cfg.taintWhenNoIPs then (history, true)
    else if api.cached.None? then (history, false)
    else if Tainted(api.cached.value) == wanted then (history, true)
    else
      var mutate := TaintMutator(wanted, TAINT_NO_IPS, NoSchedule);
      var r := Updated(history, mutate, api.env);
      (r.history, r.ok)
  }

  function Checked(s: State, history: seq<Node>, cfg: Config, api: Api): (r: (seq<Node>, bool))
    requires history != []
    ensures r.0 != []
  {
    Notified(history, FreeCount(s) < 1, cfg, api)
  }

  datatype Daemon = Daemon(store: Store, history: seq<Node>)

  /** An Add now would find no free address and have its pod deleted. */
  predicate Exhausted(d: Daemon, cfg: Config) {
    FreeCount(d.store.mem) < 1 && cfg.deletePodWhenNoIPs
  }

  /** IPAM Add. On exhaustion with deletion configured it notifies and then evicts, and eviction
      checks the pool once more; other allocation errors notify nobody. */
  function Added(d: Daemon, req: Request, w: WriteResult, cfg: Config, first: Api, second: Api): (r: (Daemon, bool))
    requires d.history != []
    ensures r.0.history != []
  {
    var (store, o) := AllocateAtomically(d.store, req, w);
    if o.NoFreeIPs? && cfg.deletePodWhenNoIPs then
      var h := Notified(d.history, true, cfg, first).0;
      (Daemon(store, Checked(store.mem, h, cfg, second).0), false)
    else if !o.Allocated? then (Daemon(store, d.history), false)
    else (Daemon(store, Checked(store.mem, d.history, cfg, first).0), true)
  }

  function Deleted(d: Daemon, ip: Option<Addr>, w: WriteResult): Daemon {
    d.(store := Release(d.store, ip, w))
  }

  function Ticked(d: Daemon, cfg: Config, api: Api): (r: Daemon)
    requires d.history != []
    ensures r.history != []
  {
    d.(history := Checked(d.store.mem, d.history, cfg, api).0)
  }

  lemma AllocatedIsRecorded(st: Store, req: Request, w: WriteResult)
    ensures var (st', o) := AllocateAtomically(st, req, w);
            o.Allocated? ==>
              && o.allocation.request == req && o.allocation.ip !in st.mem.allocations
              && o.allocation.ip in st'.mem.allocations && st'.mem.allocations[o.allocation.ip] == o.allocation
  {
    AtomicOutcome(st, req, w);
    if FreeSet(st.mem) != {} {
      CommitTakes(st, req, w);
    }
  }

  // -------------------------------------------------------------- the objects

  datatype DeleteReply = PodDeleted | PodNotFound | DeleteFailed

  /** A pod's deletion as requested, with the node as the server had it at that moment. */
  datatype Delete = Delete(namespace: string, name: string, history: seq<Node>)

  class Reconciler {
    const config: Config
    const allocator: Allocator.Allocator
    const server: ApiServer
    var deletes: seq<Delete>

    constructor (cfg: Config, alloc: Allocator.Allocator, srv: ApiServer)
      ensures config == cfg && allocator == alloc && server == srv && deletes == []
    {
      config, allocator, server, deletes := cfg, alloc, srv, [];
    }

    ghost predicate Valid()
      reads server, allocator
    {
      server.Valid() && allocator.Valid()
    }

    method PoolFull(api: Api) returns (ok: bool)
      requires server.Valid()
      modifies server
      ensures server.Valid() && (server.history, ok) == Notified(old(server.history), true, config, api)
    {
      if !config.taintWhenNoIPs {
        return true;
      }
      if api.cached.None? {
        return false;
      }
      var tainted := ScanTaints(api.cached.value, TAINT_NO_IPS, NoSchedule);
      if !tainted {
        var written, _ := UpdateNode(server, AddTaint(TAINT_NO_IPS, NoSchedule), api.env);
        return written;
      }
      ok := true;
    }

    method PoolNotFull(api: Api) returns (ok: bool)
      requires server.Valid()
      modifies server
      ensures server.Valid() && (server.history, ok) == Notified(old(server.history), false, config, api)
    {
      if !config.taintWhenNoIPs {
        return true;
      }
      if api.cached.None? {
        return false;
      }
      var tainted := ScanTaints(api.cached.value, TAINT_NO_IPS, NoSchedule);
      if tainted {
        var written, _ := UpdateNode(server, RemoveTaint(TAINT_NO_IPS, NoSchedule), api.env);
        return written;
      }
      ok := true;
    }

    /** The tick. */
    method IpCheck(api: Api, grow: Growth) returns (ok: bool)
      requires Valid()
      modifies server
      ensures Valid() && allocator.Store() == old(allocator.Store())
      ensures (server.history, ok) == Checked(old(allocator.Mem()), old(server.history), config, api)
    {
      if !config.taintWhenNoIPs {
        return true;
      }
      var free := allocator.FreeAddressCount(grow);
      if free < 1 {
        ok := PoolFull(api);
      } else {
        ok := PoolNotFull(api);
      }
      allocator.StoreStays();
    }

    /** The check comes before the delete, and its error is ignored. A pod that is gone already is no
        error either. */
    method EvictPod(namespace: string, name: string, api: Api, reply: DeleteReply, grow: Growth) returns (ok: bool)
      requires Valid()
      modifies this`deletes, server
      ensures Valid() && allocator.Store() == old(allocator.Store()) && ok == !reply.DeleteFailed?
      ensures server.history == Checked(old(allocator.Mem()), old(server.history), config, api).0
      ensures deletes == old(deletes) + [Delete(namespace, name, server.history)]
    {
      var _ := IpCheck(api, grow);
      deletes := deletes + [Delete(namespace, name, server.history)];
      allocator.StoreStays();
      ok := !reply.DeleteFailed?;
    }
  }

  class Service {
    const config: Config
    const allocator: Allocator.Allocator
    const evictor: Reconciler

    constructor (r: Reconciler)
      ensures config == r.config && allocator == r.allocator && evictor == r
    {
      config, allocator, evictor := r.config, r.allocator, r;
    }

    ghost predicate Valid()
      reads evictor.server, allocator
    {
      config == evictor.config && allocator == evictor.allocator && evictor.Valid()
    }

    function State(): Daemon
      requires Valid()
      reads evictor.server, allocator, allocator.Lists()
    {
      Daemon(allocator.Store(), evictor.server.history)
    }

    /** What Add does when no address is free and pods are to be deleted then. */
    method Evict(req: Request, first: Api, second: Api, reply: DeleteReply, grow: Growth)
      requires Valid()
      modifies evictor`deletes, evictor.server
      ensures Valid() && allocator.Store() == old(allocator.Store())
      ensures var h := Notified(old(evictor.server.history), true, config, first).0;
              evictor.server.history == Checked(allocator.Mem(), h, config, second).0
      ensures evictor.deletes == old(evictor.deletes) + [Delete(req.namespace, req.pod, evictor.server.history)]
    {
      var _ := evictor.PoolFull(first);
      allocator.StoreStays();
      var _ := evictor.EvictPod(req.namespace, req.pod, second, reply, grow);
    }

    /** What Add does after a successful allocation. */
    method CheckPool(api: Api, grow: Growth)
      requires Valid()
      modifies evictor.server
      ensures Valid() && allocator.Store() == old(allocator.Store())
      ensures evictor.server.history == Checked(allocator.Mem(), old(evictor.server.history), config, api).0
    {
      var free := allocator.FreeAddressCount(grow);
      if free < 1 {
        var _ := evictor.PoolFull(api);
      } else {
        var _ := evictor.PoolNotFull(api);
      }
      allocator.StoreStays();
    }

    /** Add. A pod is deleted only on exhaustion, and only after the two notifications. The response is
        what is then recorded for the caller. */
    method Add(req: Request, w: WriteResult, grow: Growth, first: Api, second: Api, reply: DeleteReply)
      returns (response: Option<Allocation>)
      requires Valid()
      modifies allocator, evictor`deletes, evictor.server
      ensures Valid() && (State(), response.Some?) == Added(old(State()), req, w, config, first, second)
      ensures response.Some? ==>
                var a := response.value;
                && a.request == req && a.ip !in old(allocator.Mem()).allocations
                && a.ip in allocator.allocations && allocator.allocations[a.ip] == a
      ensures evictor.deletes == old(evictor.deletes) +
                if Exhausted(old(State()), config) then [Delete(req.namespace, req.pod, evictor.server.history)] else []
    {
      AtomicOutcome(allocator.Store(), req, w);
      PickIffFree(allocator.Mem());
      AllocatedIsRecorded(allocator.Store(), req, w);
      var o := allocator.Allocate(req, w, grow);
      response := None;
      if o.Allocated? {
        CheckPool(first, grow);
        response := Some(o.allocation);
      } else if o.NoFreeIPs? && config.deletePodWhenNoIPs {
        Evict(req, first, second, reply, grow);
      }
    }

    method Del(container: string, w: WriteResult) returns (ok: bool)
      requires Valid()
      modifies allocator
      ensures Valid() && ok == w.Written?
      ensures exists ip :: Releasable(old(allocator.Mem()), container, ip) && State() == Deleted(old(State()), ip, w)
    {
      ok := allocator.ReleaseByContainer(container, w);
    }
  }

  // ------------------------------------------------------------- the protocol

  predicate Full(d: Daemon) {
    FreeSet(d.store.mem) == {}
  }

  predicate IsTainted(d: Daemon)
    requires d.history != []
  {
    Tainted(Latest(d.history))
  }

  /** No pod is scheduled onto an exhausted node. */
  predicate FullIsTainted(d: Daemon)
    requires d.history != []
  {
    Full(d) ==> IsTainted(d)
  }

  predicate Exact(d: Daemon)
    requires d.history != []
  {
    Full(d) <==> IsTainted(d)
  }

  ghost predicate LeavesTaint(w: Writer) {
    forall n :: Tainted(w(n)) == Tainted(n)
  }

  /** Other clients leave this taint alone during the update. */
  ghost predicate OthersLeaveTaint(api: Api) {
    forall k, w :: 0 <= k < |api.env| && (w in api.env[k].before || w in api.env[k].during) ==> LeavesTaint(w)
  }

  /** The notification writes: there is a cached node, it does not show the taint as wanted, and the
      update is committed in the end. */
  predicate Sets(api: Api, wanted: bool) {
    api.cached.Some? && Tainted(api.cached.value) != wanted && Commits(api.env)
  }

  lemma OthersKeepTaint(history: seq<Node>, mutate: Node -> Node, api: Api)
    requires history != [] && OthersLeaveTaint(api)
    ensures var b := Tainted(Latest(history));
            AppliedToLatest(history, mutate, Updated(history, mutate, api.env), (n: Node) => Tainted(n) == b)
  {
    var b := Tainted(Latest(history));
    var p := (n: Node) => Tainted(n) == b;
    forall k, w | 0 <= k < |api.env| && (w in api.env[k].before || w in api.env[k].during)
      ensures Keeps(w, p)
    {
      assert LeavesTaint(w);
    }
    UpdateMeaning(history, mutate, api.env, p);
  }

  /** Whatever the cache shows and however the update goes, a notification that writes leaves the taint
      as wanted and one that does not leaves it as it was. It reports success exactly when the cache
      showed what was wanted or the update was acknowledged. */
  lemma NotifiedMeaning(history: seq<Node>, wanted: bool, cfg: Config, api: Api)
    requires history != [] && cfg.taintWhenNoIPs && OthersLeaveTaint(api)
    ensures Tainted(Latest(Notified(history, wanted, cfg, api).0))
            == if Sets(api, wanted) then wanted else Tainted(Latest(history))
    ensures Notified(history, wanted, cfg, api).1
            <==> api.cached.Some? && (Tainted(api.cached.value) == wanted || Succeeds(api.env))
  {
    if api.cached.Some? && Tainted(api.cached.value) != wanted {
      var mutate := TaintMutator(wanted, TAINT_NO_IPS, NoSchedule);
      CommitsMeaning(history, mutate, api.env);
      OthersKeepTaint(history, mutate, api);
      var r := Updated(history, mutate, api.env);
      if r.committed {
        TaintMutatorMeaning(r.history[|r.history| - 2], wanted, TAINT_NO_IPS, NoSchedule, Taint("", "", NoSchedule));
      }
    }
  }

  /** After a tick, from any state at all, the node is tainted exactly when the pool is exhausted, if
      and only if it was already or the tick's notification writes. */
  lemma TickMakesExact(d: Daemon, cfg: Config, api: Api)
    requires d.history != [] && cfg.taintWhenNoIPs && OthersLeaveTaint(api)
    ensures Exact(Ticked(d, cfg, api)) <==> Exact(d) || Sets(api, Full(d))
    ensures FullIsTainted(d) ==> FullIsTainted(Ticked(d, cfg, api))
  {
    PickIffFree(d.store.mem);
    NotifiedMeaning(d.history, FreeCount(d.store.mem) < 1, cfg, api);
  }

  /** The Add takes the last free address of an untainted node, and either its state write fails, so
      that it reports an error and notifies nobody, or its notification does not write. */
  predicate AddForgets(d: Daemon, w: WriteResult, first: Api)
    requires d.history != []
  {
    |FreeSet(d.store.mem)| == 1 && !IsTainted(d) && !(w.Written? && Sets(first, true))
  }

  lemma AddTakesOne(d: Daemon, req: Request, w: WriteResult)
    ensures var (store, o) := AllocateAtomically(d.store, req, w);
            && (o.NoFreeIPs? <==> Full(d)) && (o.Allocated? <==> !Full(d) && w.Written?)
            && (FreeSet(store.mem) == {} <==> |FreeSet(d.store.mem)| <= 1)
            && (Full(d) ==> store == d.store)
  {
    AtomicOutcome(d.store, req, w);
    PickIffFree(d.store.mem);
    if !Full(d) {
      CommitTakes(d.store, req, w);
      var ip := Pick(d.store.mem).value;
      assert ip in FreeSet(d.store.mem);
      assert |FreeSet(d.store.mem) - {ip}| == |FreeSet(d.store.mem)| - 1;
    }
  }

  /** An Add on an exhausted node fails; if it is to delete the pod it notifies twice, and either
      notification may taint the node. */
  lemma FullAddMeaning(d: Daemon, req: Request, w: WriteResult, cfg: Config, first: Api, second: Api)
    requires d.history != [] && cfg.taintWhenNoIPs && OthersLeaveTaint(first) && OthersLeaveTaint(second)
    requires Full(d)
    ensures var (d', ok) := Added(d, req, w, cfg, first, second);
            && !ok && d'.store == d.store
            && (IsTainted(d')
                <==> IsTainted(d) || (cfg.deletePodWhenNoIPs && (Sets(first, true) || Sets(second, true))))
            && (!cfg.deletePodWhenNoIPs ==> d' == d)
  {
    AddTakesOne(d, req, w);
    PickIffFree(d.store.mem);
    NotifiedMeaning(d.history, true, cfg, first);
    NotifiedMeaning(Notified(d.history, true, cfg, first).0, true, cfg, second);
  }

  lemma OpenAddMeaning(d: Daemon, req: Request, w: WriteResult, cfg: Config, first: Api, second: Api)
    requires d.history != [] && cfg.taintWhenNoIPs && OthersLeaveTaint(first) && !Full(d)
    ensures var d' := Added(d, req, w, cfg, first, second).0;
            && (Full(d') <==> |FreeSet(d.store.mem)| == 1)
            && IsTainted(d') == if w.Written? && Sets(first, Full(d')) then Full(d') else IsTainted(d)
    ensures Added(d, req, w, cfg, first, second).1 <==> w.Written?
    ensures !w.Written? ==> Added(d, req, w, cfg, first, second).0.history == d.history
  {
    var (store, o) := AllocateAtomically(d.store, req, w);
    AddTakesOne(d, req, w);
    PickIffFree(store.mem);
    NotifiedMeaning(d.history, FreeCount(store.mem) < 1, cfg, first);
  }

  /** After a successful Add the taint is exact if and only if it was right already for the pool that is
      left or the notification writes. And any Add, whatever became of its write, its cache and its
      update, keeps an exhausted node tainted unless it forgets. */
  lemma AddMeaning(d: Daemon, req: Request, w: WriteResult, cfg: Config, first: Api, second: Api)
    requires d.history != [] && cfg.taintWhenNoIPs && OthersLeaveTaint(first) && OthersLeaveTaint(second)
    ensures var (d', ok) := Added(d, req, w, cfg, first, second);
            ok ==> (Exact(d') <==> IsTainted(d) == Full(d') || Sets(first, Full(d')))
    ensures FullIsTainted(d) ==> (FullIsTainted(Added(d, req, w, cfg, first, second).0) <==> !AddForgets(d, w, first))
  {
    if Full(d) {
      FullAddMeaning(d, req, w, cfg, first, second);
      PickIffFree(d.store.mem);
      AddTakesOne(d, req, w);
    } else {
      OpenAddMeaning(d, req, w, cfg, first, second);
    }
  }

  lemma DelKeeps(d: Daemon, container: string, ip: Option<Addr>, w: WriteResult)
    requires d.history != [] && Releasable(d.store.mem, container, ip) && FullIsTainted(d)
    ensures FullIsTainted(Deleted(d, ip, w))
  {
  }

  // -------------------------------------------------------------------- runs

  datatype Step =
    | Add(req: Request, w: WriteResult, first: Api, second: Api)
    | Del(container: string, ip: Option<Addr>, w: WriteResult)
    | SetENIs(enis: seq<ENI>, w: WriteResult)
    | Tick(api: Api)
    | Other(writer: Writer)

  ghost predicate Enabled(d: Daemon, step: Step) {
    match step
    case Add(_, _, first, second) => OthersLeaveTaint(first) && OthersLeaveTaint(second)
    case Del(c, ip, _) => Releasable(d.store.mem, c, ip)
    case SetENIs(_, _) => true
    case Tick(api) => OthersLeaveTaint(api)
    case Other(writer) => LeavesTaint(writer)
  }

  function Apply(d: Daemon, step: Step, cfg: Config): (r: Daemon)
    requires d.history != []
    ensures r.history != []
  {
    match step
    case Add(req, w, first, second) => Added(d, req, w, cfg, first, second).0
    case Del(_, ip, w) => Deleted(d, ip, w)
    case SetENIs(enis, w) => d.(store := AllocatorSpec.SetENIs(d.store, enis, w))
    case Tick(api) => Ticked(d, cfg, api)
    case Other(writer) => d.(history := d.history + [writer(Latest(d.history))])
  }

  /** The step exhausts the pool of an untainted node and does not taint it: an Add that forgets, or a
      new pool without a free address, which notifies nobody. */
  predicate Forgets(d: Daemon, step: Step)
    requires d.history != []
  {
    match step
    case Add(_, w, first, _) => AddForgets(d, w, first)
    case SetENIs(enis, _) => FreeSet(d.store.mem.(enis := enis)) == {} && !IsTainted(d)
    case _ => false
  }

  /** Exactly which steps break the protocol, with caches as stale as they may be, and updates and state
      writes that fail. */
  lemma StepKeepsTainted(d: Daemon, step: Step, cfg: Config)
    requires d.history != [] && cfg.taintWhenNoIPs && Enabled(d, step) && FullIsTainted(d)
    ensures FullIsTainted(Apply(d, step, cfg)) <==> !Forgets(d, step)
  {
    match step
    case Add(req, w, first, second) => AddMeaning(d, req, w, cfg, first, second);
    case Del(c, ip, w) => DelKeeps(d, c, ip, w);
    case SetENIs(_, _) =>
    case Tick(api) => TickMakesExact(d, cfg, api);
    case Other(writer) => assert Tainted(writer(Latest(d.history))) == Tainted(Latest(d.history));
  }

  ghost predicate IsRun(run: seq<Daemon>, steps: seq<Step>, cfg: Config) {
    && |run| == |steps| + 1
    && (forall k :: 0 <= k < |run| ==> run[k].history != [])
    && forall k :: 0 <= k < |steps| ==> Enabled(run[k], steps[k]) && run[k + 1] == Apply(run[k], steps[k], cfg)
  }

  lemma RunStepTainted(run: seq<Daemon>, steps: seq<Step>, cfg: Config, k: nat)
    requires IsRun(run, steps, cfg) && cfg.taintWhenNoIPs && k < |steps| && FullIsTainted(run[k])
    ensures FullIsTainted(run[k + 1]) <==> !Forgets(run[k], steps[k])
  {
    StepKeepsTainted(run[k], steps[k], cfg);
  }

  predicate Sequence(run: seq<Daemon>, steps: seq<Step>) {
    |run| == |steps| + 1 && forall k :: 0 <= k < |run| ==> run[k].history != []
  }

  lemma TaintedWhileRemembered(run: seq<Daemon>, steps: seq<Step>, k: nat)
    requires Sequence(run, steps) && k < |run| && FullIsTainted(run[0])
    requires forall j: nat :: j < k && FullIsTainted(run[j])
                              ==> (FullIsTainted(run[j + 1]) <==> !Forgets(run[j], steps[j]))
    ensures (forall j: nat :: j <= k ==> FullIsTainted(run[j]))
            <==> (forall j: nat :: j < k ==> !Forgets(run[j], steps[j]))
  {
    var good := (j: nat) => j < |run| && Sequence(run, steps) && FullIsTainted(run[j]);
    var keeps := (j: nat) => j < |steps| && Sequence(run, steps) && !Forgets(run[j], steps[j]);
    GoodWhileKept(good, keeps, k);
    assert forall j: nat :: j <= k ==> (good(j) <==> FullIsTainted(run[j]));
    assert forall j: nat :: j < k ==> (keeps(j) <==> !Forgets(run[j], steps[j]));
  }

  /** The taint protocol: in any run of Add, Del, pool changes and ticks, with other clients writing to
      the node at any point, an exhausted node is tainted in every state up to the k-th exactly when no
      step before it forgot. */
  lemma AlwaysTaintedWhenFull(run: seq<Daemon>, steps: seq<Step>, cfg: Config, k: nat)
    requires IsRun(run, steps, cfg) && cfg.taintWhenNoIPs && FullIsTainted(run[0]) && k < |run|
    ensures (forall j: nat :: j <= k ==> FullIsTainted(run[j]))
            <==> (forall j: nat :: j < k ==> !Forgets(run[j], steps[j]))
  {
    forall j: nat | j < k && FullIsTainted(run[j])
      ensures FullIsTainted(run[j + 1]) <==> !Forgets(run[j], steps[j])
    {
      RunStepTainted(run, steps, cfg, j);
    }
    TaintedWhileRemembered(run, steps, k);
  }

  // --------------------------------------------------------- switched off

  /** What other clients write in the course of the steps. */
  function OtherWriters(steps: seq<Step>): seq<Writer> {
    if steps == [] then []
    else (if steps[0].Other? then [steps[0].writer] else []) + OtherWriters(steps[1..])
  }

  /** With tainting switched off, no step of ours touches the node, whatever caches and API server
      answer, and a check reports success. */
  lemma OffStep(d: Daemon, step: Step, cfg: Config)
    requires d.history != [] && !cfg.taintWhenNoIPs
    ensures Apply(d, step, cfg).history
            == if step.Other? then d.history + [step.writer(Latest(d.history))] else d.history
    ensures step.Tick? ==> Checked(d.store.mem, d.history, cfg, step.api).1
  {
  }

  predicate IsOffRun(run: seq<Daemon>, steps: seq<Step>, cfg: Config) {
    && |run| == |steps| + 1 && !cfg.taintWhenNoIPs
    && (forall k :: 0 <= k < |run| ==> run[k].history != [])
    && forall k :: 0 <= k < |steps| ==> run[k + 1] == Apply(run[k], steps[k], cfg)
  }

  /** So in every run the node's history is exactly what other clients made it. */
  lemma {:induction false} OffLeavesNode(run: seq<Daemon>, steps: seq<Step>, cfg: Config)
    requires IsOffRun(run, steps, cfg)
    ensures run[|steps|].history == WriteAll(run[0].history, OtherWriters(steps))
    decreases |steps|
  {
    if steps != [] {
      var writers := OtherWriters(steps[1..]);
      OffStep(run[0], steps[0], cfg);
      OffLeavesNode(run[1..], steps[1..], cfg);
      assert run[1..][|steps[1..]|] == run[|steps|] && run[1..][0] == run[1];
      if steps[0].Other? {
        assert ([steps[0].writer] + writers)[1..] == writers;
      } else {
        assert [] + writers == writers;
      }
    }
  }

  /** A notification with a current cache whose update succeeds always makes the taint as wanted. So a
      tick or a successful Add with one leaves it exact, and an Add with one, whose state write
      completes, never forgets. */
  lemma CurrentCacheRemembers(d: Daemon, w: WriteResult, wanted: bool, api: Api)
    requires d.history != [] && api.cached.Some? && Tainted(api.cached.value) == IsTainted(d) && Succeeds(api.env)
    ensures IsTainted(d) == wanted || Sets(api, wanted)
    ensures w.Written? ==> !AddForgets(d, w, api)
  {
    SucceedsCommits(api.env);
  }
}
