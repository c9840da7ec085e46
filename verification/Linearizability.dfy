/** Allocate is two critical sections with the lock dropped in between
    (pkg/allocator/allocator.go:95-174). Any interleaving of any callers' sections, with releases
    and pool changes among them, is equivalent to a sequence of atomic calls. */
module Linearizability {
  import opened Net
  import opened AllocatorSpec

  /** One lock section. A call is a Check, followed, if it passed, by a Commit of the same caller. */
  datatype Section =
    | Check(caller: nat, req: Request)
    | Commit(caller: nat, req: Request, w: WriteResult)
    | Release(container: string, ip: Option<Addr>, w: WriteResult)
    | SetENIs(enis: seq<ENI>, w: WriteResult)

  /** `passed` holds the calls that are between their two sections. */
  datatype Shared = Shared(st: Store, passed: map<nat, Request>)

  predicate Enabled(s: Shared, sec: Section) {
    match sec
    case Check(c, _) => c !in s.passed
    case Commit(c, req, _) => c in s.passed && s.passed[c] == req
    case Release(c, ip, _) => Releasable(s.st.mem, c, ip)
    case SetENIs(_, _) => true
  }

  /** What a caller sees. The three ways of reporting an exhausted pool are one response: which of
      them is reported depends on where the race was lost. */
  datatype Response = Got(caller: nat, allocation: Allocation) | Exhausted(caller: nat) | Failed(caller: nat)

  function Report(caller: nat, o: Outcome): Response {
    match o
    case Allocated(a) => Got(caller, a)
    case NoFreeIPs => Exhausted(caller)
    case EmptyPool => Exhausted(caller)
    case CouldNotAllocate => Exhausted(caller)
    case WriteFailed => Failed(caller)
    case Panicked => Failed(caller)
  }

  /** One section: the next shared state and the responses given, in order. */
  function Apply(s: Shared, sec: Section): (Shared, seq<Response>)
    requires Enabled(s, sec)
  {
    match sec
    case Check(c, req) =>
      if FreeCount(s.st.mem) < 1 then (s, [Report(c, NoFreeIPs)])
      else (s.(passed := s.passed[c := req]), [])
    case Commit(c, req, w) =>
      var (st, o) := AllocatorSpec.Commit(s.st, req, w);
      (Shared(st, s.passed - {c}), [Report(c, o)])
    case Release(_, ip, w) => (s.(st := AllocatorSpec.Release(s.st, ip, w)), [])
    case SetENIs(enis, w) => (s.(st := AllocatorSpec.SetENIs(s.st, enis, w)), [])
  }

  predicate AllEnabled(s: Shared, secs: seq<Section>)
    decreases |secs|
  {
    secs == [] || (Enabled(s, secs[0]) && AllEnabled(Apply(s, secs[0]).0, secs[1..]))
  }

  function RunSections(s: Shared, secs: seq<Section>): (Shared, seq<Response>)
    requires AllEnabled(s, secs)
    decreases |secs|
  {
    if secs == [] then (s, [])
    else
      var (s1, now) := Apply(s, secs[0]);
      var (s2, later) := RunSections(s1, secs[1..]);
      (s2, now + later)
  }

  // ------------------------------------------------------- the atomic object

  datatype Call =
    | Allocate(caller: nat, req: Request, w: WriteResult)
    | AtomicRelease(container: string, ip: Option<Addr>, w: WriteResult)
    | AtomicSet(enis: seq<ENI>, w: WriteResult)

  function ApplyCall(st: Store, call: Call): (Store, seq<Response>) {
    match call
    case Allocate(c, req, w) =>
      var (st', o) := AllocateAtomically(st, req, w);
      (st', [Report(c, o)])
    case AtomicRelease(_, ip, w) => (AllocatorSpec.Release(st, ip, w), [])
    case AtomicSet(enis, w) => (AllocatorSpec.SetENIs(st, enis, w), [])
  }

  function RunCalls(st: Store, calls: seq<Call>): (Store, seq<Response>)
    decreases |calls|
  {
    if calls == [] then (st, [])
    else
      var (st1, now) := ApplyCall(st, calls[0]);
      var (st2, later) := RunCalls(st1, calls[1..]);
      (st2, now + later)
  }

  /** The atomic call, if any, that takes effect in a section: a whole Allocate takes effect in its
      check when that fails, and in its commit otherwise. A passed check has no effect. */
  function PointOf(s: Shared, sec: Section): seq<Call> {
    match sec
    case Check(c, req) => if FreeCount(s.st.mem) < 1 then [Allocate(c, req, Written)] else []
    case Commit(c, req, w) => [Allocate(c, req, w)]
    case Release(c, ip, w) => [AtomicRelease(c, ip, w)]
    case SetENIs(enis, w) => [AtomicSet(enis, w)]
  }

  function Points(s: Shared, secs: seq<Section>): seq<Call>
    requires AllEnabled(s, secs)
    decreases |secs|
  {
    if secs == [] then []
    else PointOf(s, secs[0]) + Points(Apply(s, secs[0]).0, secs[1..])
  }

  /** A commit and a whole atomic Allocate at the same moment have the same effect and the same
      response, even though the commit does not repeat the free check. */
  lemma CommitIsAtomic(st: Store, req: Request, w: WriteResult, caller: nat)
    ensures AllocatorSpec.Commit(st, req, w).0 == AllocateAtomically(st, req, w).0
    ensures Report(caller, AllocatorSpec.Commit(st, req, w).1) == Report(caller, AllocateAtomically(st, req, w).1)
    ensures Report(caller, AllocatorSpec.Commit(st, req, w).1).Exhausted? <==> FreeSet(st.mem) == {}
  {
    PickIffFree(st.mem);
    CommitOutcome(st, req, w);
  }

  lemma SectionIsPoint(s: Shared, sec: Section)
    requires Enabled(s, sec)
    ensures RunCalls(s.st, PointOf(s, sec)) == (Apply(s, sec).0.st, Apply(s, sec).1)
  {
    if sec.Commit? {
      CommitIsAtomic(s.st, sec.req, sec.w, sec.caller);
    }
    var calls := PointOf(s, sec);
    if calls != [] {
      assert calls[1..] == [];
      var (st1, now) := ApplyCall(s.st, calls[0]);
      assert now + [] == now;
    }
  }

  lemma {:induction false} RunCallsAppend(st: Store, a: seq<Call>, b: seq<Call>)
    ensures RunCalls(st, a + b).0 == RunCalls(RunCalls(st, a).0, b).0
    ensures RunCalls(st, a + b).1 == RunCalls(st, a).1 + RunCalls(RunCalls(st, a).0, b).1
    decreases |a|
  {
    if a == [] {
      assert a + b == b;
      assert [] + RunCalls(st, b).1 == RunCalls(st, b).1;
    } else {
      assert (a + b)[1..] == a[1..] + b;
      RunCallsAppend(ApplyCall(st, a[0]).0, a[1..], b);
    }
  }

  /** Linearizability: whatever the interleaving, running the calls atomically at one of their own
      sections, in section order, gives the same store and the same responses in the same order. */
  lemma {:induction false} Linearizable(s: Shared, secs: seq<Section>)
    requires AllEnabled(s, secs)
    ensures RunCalls(s.st, Points(s, secs)) == (RunSections(s, secs).0.st, RunSections(s, secs).1)
    decreases |secs|
  {
    if secs != [] {
      var s1 := Apply(s, secs[0]).0;
      SectionIsPoint(s, secs[0]);
      Linearizable(s1, secs[1..]);
      RunCallsAppend(s.st, PointOf(s, secs[0]), Points(s1, secs[1..]));
    }
  }

  /** The three error kinds told apart. "Could not allocate" and the empty pool are seen only by a
      call whose free check had passed, so only after another caller took the last address or the
      pool was replaced in between. */
  lemma ErrorKindShowsLostRace(s: Shared, caller: nat, req: Request, between: seq<Section>, w: WriteResult)
    requires Enabled(s, Check(caller, req)) && FreeCount(s.st.mem) >= 1
    requires AllEnabled(Apply(s, Check(caller, req)).0, between)
    requires var s' := RunSections(Apply(s, Check(caller, req)).0, between).0;
             AllocatorSpec.Commit(s'.st, req, w).1 in {EmptyPool, CouldNotAllocate}
    ensures exists k :: 0 <= k < |between| && (between[k].Commit? || between[k].SetENIs?)
  {
    var s0 := Apply(s, Check(caller, req)).0;
    var s' := RunSections(s0, between).0;
    PickIffFree(s.st.mem);
    CommitOutcome(s'.st, req, w);
    if forall k :: 0 <= k < |between| ==> !between[k].Commit? && !between[k].SetENIs? {
      FreeOnlyGrows(s0, between);
    }
  }

  lemma {:induction false} FreeOnlyGrows(s: Shared, secs: seq<Section>)
    requires AllEnabled(s, secs)
    requires forall k :: 0 <= k < |secs| ==> !secs[k].Commit? && !secs[k].SetENIs?
    ensures FreeSet(s.st.mem) <= FreeSet(RunSections(s, secs).0.st.mem)
    decreases |secs|
  {
    if secs != [] {
      var s1 := Apply(s, secs[0]).0;
      assert FreeSet(s.st.mem) <= FreeSet(s1.st.mem);
      FreeOnlyGrows(s1, secs[1..]);
    }
  }
}
