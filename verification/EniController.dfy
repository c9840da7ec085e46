/** The ENI provisioning controller: what one handleNode call does, given the node version its
    cache holds (cmd/eni-controller/enicontroller/controller.go:147-313, 403-469). */
module EniController {
  import opened Net
  import opened NodeObject

  // -------------------------------------------------------------- decisions

  /** The part of a node that the controller reads and writes. */
  datatype Ours = Ours(provider: Provider, instance: Option<string>, info: Option<Value>, interfaces: Option<Value>)

  function Annotation(n: Node, key: string): Option<Value> {
    if key in n.annotations then Some(n.annotations[key]) else None
  }

  function Label(n: Node, key: string): Option<string> {
    if key in n.labels then Some(n.labels[key]) else None
  }

  function OursIn(n: Node): Ours {
    Ours(n.provider, Label(n, INSTANCE_LABEL), Annotation(n, EC2_INFO_KEY), Annotation(n, IFS_KEY))
  }

  /** How many interfaces, and addresses on each, an instance type allows. */
  datatype Catalog = Catalog(enis: map<string, int>, ips: map<string, int>)

  datatype Action =
    | Nothing
    | GiveUp
    | WriteInfo
    | WriteLabel(instance: string)
    | Attach(enis: seq<ENI>, position: nat)
    | Create(enis: seq<ENI>, info: InstanceInfo)

  function FirstUnattached(enis: seq<ENI>, from: nat): (k: nat)
    requires from <= |enis|
    ensures from <= k <= |enis| && (k < |enis| ==> !enis[k].attached)
    ensures forall j :: from <= j < k ==> enis[j].attached
    decreases |enis| - from
  {
    if from == |enis| || !enis[from].attached then from else FirstUnattached(enis, from + 1)
  }

  /** The interfaces recorded on a node, if the annotation is absent or decodes. */
  function Recorded(o: Ours): Option<seq<ENI>> {
    match o.interfaces
    case None => Some([])
    case Some(Interfaces(enis)) => Some(enis)
    case Some(_) => None
  }

  /** The single step a call takes. */
  function Plan(o: Ours, cat: Catalog): Action {
    match o.provider
    case NoProvider => Nothing
    case BadProvider => GiveUp
    case Instance(iid) =>
      match o.info
      case None => WriteInfo
      case Some(Text(_)) => GiveUp
      case Some(Interfaces(_)) => GiveUp
      case Some(Info(info)) =>
        if info.instanceType !in cat.enis || info.instanceType !in cat.ips then GiveUp
        else
          match Recorded(o)
          case None => GiveUp
          case Some(enis) =>
            if o.instance.None? then WriteLabel(iid)
            else if FirstUnattached(enis, 0) < |enis| then Attach(enis, FirstUnattached(enis, 0))
            else if |enis| < cat.enis[info.instanceType] - 1 then Create(enis, info)
            else Nothing
  }

  // ---------------------------------------------------------- EC2 and effects

  /** EC2's answer to CreateNetworkInterface. */
  datatype NetworkInterface = NetworkInterface(id: string, primary: Addr, addresses: seq<Addr>, mac: string)

  /** An interface attached to the instance, and the device index it occupies there. */
  datatype Attachment = Attachment(device: int, id: string)

  /** Interfaces created for the node, the attachments made, and every address handed out. */
  datatype Ec2 = Ec2(created: map<string, ENI>, attached: set<Attachment>, used: set<Addr>)

  function AttachmentOf(e: ENI): Attachment {
    Attachment(e.index, e.id)
  }

  datatype AttachReply = AttachRefused | PolicyRefused | AttachDone

  /** What EC2 and the API server answer during a call. A crash before an update is an update that
      is refused: nothing of it is in the history. */
  datatype Env = Env(
    describe: Option<InstanceInfo>,
    attach: AttachReply,
    create: Option<NetworkInterface>,
    update: seq<Attempt>)

  /** `orphans`: interfaces whose create call returned but whose record was never committed. */
  datatype World = World(history: seq<Node>, ec2: Ec2, orphans: set<string>)

  function Secondaries(addresses: seq<Addr>, primary: Addr): seq<Addr> {
    if addresses == [] then []
    else
      var n := |addresses| - 1;
      Secondaries(addresses[..n], primary) + if addresses[n] == primary then [] else [addresses[n]]
  }

  function NewENI(ni: NetworkInterface, index: int, cidr: Block): ENI {
    ENI(ni.id, false, ni.primary, index, cidr, Secondaries(ni.addresses, ni.primary), ni.mac)
  }

  function AfterCreate(ec2: Ec2, ni: NetworkInterface, eni: ENI): Ec2 {
    Ec2(ec2.created[ni.id := eni], ec2.attached, ec2.used + {ni.primary} + set a | a in ni.addresses)
  }

  function MarkAttached(enis: seq<ENI>, k: nat): seq<ENI>
    requires k < |enis|
  {
    enis[k := enis[k].(attached := true)]
  }

  /** The one node update a call makes, if it gets that far. */
  datatype Change = SetInfo(info: InstanceInfo) | SetLabelled(instance: string) | SetInterfaces(enis: seq<ENI>)

  function Mutator(c: Change): Node -> Node {
    match c
    case SetInfo(info) => SetAnnotation(EC2_INFO_KEY, Info(info))
    case SetLabelled(iid) => SetLabel(INSTANCE_LABEL, iid)
    case SetInterfaces(enis) => SetAnnotation(IFS_KEY, Interfaces(enis))
  }

  function ChangeOf(o: Ours, cat: Catalog, env: Env): Option<Change> {
    match Plan(o, cat)
    case WriteInfo => if env.describe.None? then None else Some(SetInfo(env.describe.value))
    case WriteLabel(iid) => Some(SetLabelled(iid))
    case Attach(enis, k) => if env.attach.AttachDone? then Some(SetInterfaces(MarkAttached(enis, k))) else None
    case Create(enis, info) =>
      if env.create.None? then None
      else Some(SetInterfaces(enis + [NewENI(env.create.value, |enis| + 1, info.subnet)]))
    case _ => None
  }

  /** What the call does at EC2, before its update. */
  function Ec2After(ec2: Ec2, o: Ours, cat: Catalog, env: Env): Ec2 {
    match Plan(o, cat)
    case Attach(enis, k) =>
      if env.attach.AttachRefused? then ec2 else ec2.(attached := ec2.attached + {AttachmentOf(enis[k])})
    case Create(enis, info) =>
      if env.create.None? then ec2
      else AfterCreate(ec2, env.create.value, NewENI(env.create.value, |enis| + 1, info.subnet))
    case _ => ec2
  }

  /** One handleNode call that read `o` from its cache: the world it leaves and whether it reports
      success. The attach step reports success even when its record was refused. */
  function Handled(w: World, o: Ours, cat: Catalog, env: Env): (r: (World, bool))
    requires w.history != []
    ensures r.0.history != []
  {
    var action, change, ec2 := Plan(o, cat), ChangeOf(o, cat, env), Ec2After(w.ec2, o, cat, env);
    if change.None? then (w.(ec2 := ec2), action.Nothing?)
    else
      var r := Updated(w.history, Mutator(change.value), env.update);
      var orphans := if action.Create? && !r.committed then w.orphans + {env.create.value.id} else w.orphans;
      (World(r.history, ec2, orphans), action.Attach? || r.ok)
  }

  // ----------------------------------------------------------- the controller

  /** What a create asks EC2 for. */
  datatype CreateRequest = CreateRequest(subnetID: string, groups: seq<string>, secondaries: int)

  function Asked(o: Ours, cat: Catalog): seq<CreateRequest> {
    match Plan(o, cat)
    case Create(_, info) => [CreateRequest(info.subnetID, info.groups, cat.ips[info.instanceType] - 1)]
    case _ => []
  }

  class Cloud {
    var state: Ec2
    var requests: seq<CreateRequest>

    constructor ()
      ensures state == Ec2(map[], {}, {}) && requests == []
    {
      state, requests := Ec2(map[], {}, {}), [];
    }
  }

  /** createENI's loop: the addresses that are not the interface's own. */
  method PodAddresses(ni: NetworkInterface) returns (ips: seq<Addr>)
    ensures ips == Secondaries(ni.addresses, ni.primary)
  {
    ips := [];
    for k := 0 to |ni.addresses|
      invariant ips == Secondaries(ni.addresses[..k], ni.primary)
    {
      assert ni.addresses[..k + 1][..k] == ni.addresses[..k];
      if ni.addresses[k] != ni.primary {
        ips := ips + [ni.addresses[k]];
      }
    }
    assert ni.addresses[..|ni.addresses|] == ni.addresses;
  }

  /** createENI: its index and subnet are left to the caller. */
  method CreateENI(cloud: Cloud, info: InstanceInfo, numIPs: int, answer: Option<NetworkInterface>)
    returns (eni: Option<ENI>)
    modifies cloud`requests
    ensures cloud.requests == old(cloud.requests) + [CreateRequest(info.subnetID, info.groups, numIPs - 1)]
    ensures eni == if answer.None? then None else Some(NewENI(answer.value, 0, EVERYWHERE))
  {
    cloud.requests := cloud.requests + [CreateRequest(info.subnetID, info.groups, numIPs - 1)];
    if answer.None? {
      return None;
    }
    var ni := answer.value;
    var ips := PodAddresses(ni);
    eni := Some(ENI(ni.id, false, ni.primary, 0, EVERYWHERE, ips, ni.mac));
  }

  /** attachENI: attach at the interface's own index, then set its deletion policy. */
  method AttachENI(cloud: Cloud, eni: ENI, reply: AttachReply) returns (ok: bool)
    modifies cloud`state
    ensures ok == reply.AttachDone?
    ensures cloud.state == if reply.AttachRefused? then old(cloud.state)
                           else old(cloud.state).(attached := old(cloud.state).attached + {AttachmentOf(eni)})
  {
    if reply.AttachRefused? {
      return false;
    }
    cloud.state := cloud.state.(attached := cloud.state.attached + {Attachment(eni.index, eni.id)});
    ok := !reply.PolicyRefused?;
  }

  /** The attach step. It reports success whatever becomes of the record. */
  method AttachInterface(server: ApiServer, cloud: Cloud, nc: seq<ENI>, k: nat, env: Env) returns (ok: bool)
    requires server.Valid() && k < |nc|
    modifies server, cloud`state
    ensures server.Valid() && ok == env.attach.AttachDone?
    ensures cloud.state == if env.attach.AttachRefused? then old(cloud.state)
                           else old(cloud.state).(attached := old(cloud.state).attached + {AttachmentOf(nc[k])})
    ensures server.history
            == if ok then Updated(old(server.history), Mutator(SetInterfaces(MarkAttached(nc, k))), env.update).history
               else old(server.history)
  {
    ok := AttachENI(cloud, nc[k], env.attach);
    if ok {
      var marked := nc[k := nc[k].(attached := true)];
      var _, _ := UpdateNode(server, SetAnnotation(IFS_KEY, Interfaces(marked)), env.update);
    }
  }

  /** The create step: the new interface is numbered from its position and has the instance's subnet. */
  method AddInterface(server: ApiServer, cloud: Cloud, nc: seq<ENI>, info: InstanceInfo, numIPs: int, env: Env)
    returns (ok: bool)
    requires server.Valid()
    modifies server, cloud
    ensures server.Valid()
    ensures cloud.requests == old(cloud.requests) + [CreateRequest(info.subnetID, info.groups, numIPs - 1)]
    ensures env.create.None? ==> !ok && server.history == old(server.history) && cloud.state == old(cloud.state)
    ensures env.create.Some? ==>
              var eni := NewENI(env.create.value, |nc| + 1, info.subnet);
              var r := Updated(old(server.history), Mutator(SetInterfaces(nc + [eni])), env.update);
              && cloud.state == AfterCreate(old(cloud.state), env.create.value, eni)
              && server.history == r.history && ok == r.ok
  {
    var created := CreateENI(cloud, info, numIPs, env.create);
    if created.None? {
      return false;
    }
    var eni := created.value.(index := |nc| + 1, cidr := info.subnet);
    cloud.state := AfterCreate(cloud.state, env.create.value, eni);
    var written, _ := UpdateNode(server, SetAnnotation(IFS_KEY, Interfaces(nc + [eni])), env.update);
    ok := written;
  }

  /** The handler, for a node version from its cache. `orphans` are those of the specification. */
  method HandleNode(server: ApiServer, cloud: Cloud, node: Node, cat: Catalog, env: Env, ghost orphans: set<string>)
    returns (ok: bool)
    requires server.Valid()
    modifies server, cloud
    ensures server.Valid()
    ensures var r := Handled(World(old(server.history), old(cloud.state), orphans), OursIn(node), cat, env);
            server.history == r.0.history && cloud.state == r.0.ec2 && ok == r.1
    ensures cloud.requests == old(cloud.requests) + Asked(OursIn(node), cat)
  {
    if node.provider.NoProvider? {
      return true;
    }
    if node.provider.BadProvider? {
      return false;
    }
    if EC2_INFO_KEY !in node.annotations {
      if env.describe.None? {
        return false;
      }
      var written, _ := UpdateNode(server, SetAnnotation(EC2_INFO_KEY, Info(env.describe.value)), env.update);
      return written;
    }
    var decoded := node.annotations[EC2_INFO_KEY];
    if !decoded.Info? {
      return false;
    }
    var info := decoded.info;
    if info.instanceType !in cat.enis || info.instanceType !in cat.ips {
      return false;
    }
    var nc: seq<ENI> := [];
    if IFS_KEY in node.annotations {
      if !node.annotations[IFS_KEY].Interfaces? {
        return false;
      }
      nc := node.annotations[IFS_KEY].enis;
    }
    if INSTANCE_LABEL !in node.labels {
      var written, _ := UpdateNode(server, SetLabel(INSTANCE_LABEL, node.provider.id), env.update);
      return written;
    }
    for k := 0 to |nc|
      invariant FirstUnattached(nc, 0) == FirstUnattached(nc, k)
      invariant server.history == old(server.history)
      invariant cloud.state == old(cloud.state) && cloud.requests == old(cloud.requests)
    {
      if !nc[k].attached {
        ok := AttachInterface(server, cloud, nc, k, env);
        return;
      }
    }
    if |nc| < cat.enis[info.instanceType] - 1 {
      ok := AddInterface(server, cloud, nc, info, cat.ips[info.instanceType], env);
      return;
    }
    ok := true;
  }
}
