/** Every run of the allocator's lock sections, with writes that fail or tear the state file and
    crashes followed by restarts from it, never hands out an address twice
    (pkg/allocator/allocator.go:52-80, 167-198; pkg/allocator/state.go:36-52). */
module CrashSafety {
  import opened Net
  import opened AllocatorSpec

  /** `held` is who was told, by a successful reply, that an address is theirs, and has not had it
      released since. It survives crashes; the process does not read it. */
  datatype System = System(mem: Option<State>, disk: Disk, held: map<Addr, string>)

  datatype Step =
    | Commit(req: Request, w: WriteResult, replied: bool)
    | Release(container: string, ip: Option<Addr>, w: WriteResult)
    | SetENIs(enis: seq<ENI>, w: WriteResult)
    | Crash
    | Restart

  predicate Enabled(s: System, step: Step) {
    match step
    case Commit(_, _, _) => s.mem.Some?
    case Release(c, ip, _) => s.mem.Some? && Releasable(s.mem.value, c, ip)
    case SetENIs(_, _) => s.mem.Some?
    case Crash => s.mem.Some?
    case Restart => s.mem.None? && Load(s.disk).Some?
  }

  /** The address a step's caller is told it now has. */
  function Returned(s: System, step: Step): Option<Addr>
    requires Enabled(s, step)
  {
    if step.Commit? && step.replied then
      var o := AllocatorSpec.Commit(Store(s.mem.value, s.disk), step.req, step.w).1;
      if o.Allocated? then Some(o.allocation.ip) else None
    else None
  }

  function Apply(s: System, step: Step): System
    requires Enabled(s, step)
  {
    match step
    case Commit(req, w, _) =>
      var st := AllocatorSpec.Commit(Store(s.mem.value, s.disk), req, w).0;
      var ip := Returned(s, step);
      System(Some(st.mem), st.disk, if ip.Some? then s.held[ip.value := req.container] else s.held)
    case Release(_, ip, w) =>
      var st := AllocatorSpec.Release(Store(s.mem.value, s.disk), ip, w);
      System(Some(st.mem), st.disk, if ip.Some? then s.held - {ip.value} else s.held)
    case SetENIs(enis, w) =>
      var st := AllocatorSpec.SetENIs(Store(s.mem.value, s.disk), enis, w);
      System(Some(st.mem), st.disk, s.held)
    case Crash => s.(mem := None)
    case Restart => s.(mem := Load(s.disk))
  }

  predicate IsRun(run: seq<System>, steps: seq<Step>) {
    && |run| == |steps| + 1
    && run[0].held == map[]
    && forall k :: 0 <= k < |steps| ==> Enabled(run[k], steps[k]) && run[k + 1] == Apply(run[k], steps[k])
  }

  /** Every held address is recorded, for its holder, in the given state. */
  predicate Recorded(held: map<Addr, string>, s: State) {
    forall x :: x in held ==> x in s.allocations && s.allocations[x].request.container == held[x]
  }

  predicate Safe(s: System) {
    && (s.mem.Some? ==> Recorded(s.held, s.mem.value))
    && (s.disk.Readable? ==> Recorded(s.held, s.disk.state))
    && (s.disk.Missing? ==> s.held == map[])
  }

  lemma StepKeepsSafe(s: System, step: Step)
    requires Safe(s) && Enabled(s, step)
    ensures Safe(Apply(s, step))
    ensures Returned(s, step).Some? ==> Returned(s, step).value !in s.held
  {
    if step.Commit? {
      var st := Store(s.mem.value, s.disk);
      CommitOutcome(st, step.req, step.w);
      if FreeSet(st.mem) != {} {
        CommitTakes(st, step.req, step.w);
      }
    }
  }

  /** What the callers hold stays recorded in memory, and on disk whenever the disk is readable,
      in every state of every run. */
  lemma {:induction false} AlwaysSafe(run: seq<System>, steps: seq<Step>, k: nat)
    requires IsRun(run, steps) && k < |run|
    ensures Safe(run[k])
  {
    if k > 0 {
      AlwaysSafe(run, steps, k - 1);
      StepKeepsSafe(run[k - 1], steps[k - 1]);
    }
  }

  lemma HeldStays(run: seq<System>, steps: seq<Step>, k: nat, x: Addr)
    requires IsRun(run, steps) && k < |steps| && x in run[k].held
    requires steps[k].Release? && steps[k].container == run[k].held[x] ==> steps[k].ip != Some(x)
    ensures x in run[k + 1].held && run[k + 1].held[x] == run[k].held[x]
  {
    AlwaysSafe(run, steps, k);
    StepKeepsSafe(run[k], steps[k]);
  }

  lemma ReturnedIsHeld(run: seq<System>, steps: seq<Step>, i: nat, x: Addr)
    requires IsRun(run, steps) && i < |steps| && Returned(run[i], steps[i]) == Some(x)
    ensures x in run[i + 1].held && run[i + 1].held[x] == steps[i].req.container
  {
  }

  /** Once returned, an address stays held until a release by its holder frees it. */
  lemma {:induction false} HeldUntilReleased(run: seq<System>, steps: seq<Step>, i: nat, j: nat, x: Addr)
    requires IsRun(run, steps) && i < j < |run|
    requires Returned(run[i], steps[i]) == Some(x)
    requires forall k :: i < k < j && steps[k].Release? && steps[k].container == steps[i].req.container
                         ==> steps[k].ip != Some(x)
    ensures x in run[j].held && run[j].held[x] == steps[i].req.container
    decreases j
  {
    if j == i + 1 {
      ReturnedIsHeld(run, steps, i, x);
    } else {
      HeldUntilReleased(run, steps, i, j - 1, x);
      HeldStays(run, steps, j - 1, x);
    }
  }

  /** Crash safety: between two successful replies with the same address, the first holder's own
      release of that address took place, whatever writes failed and however often the process
      crashed and restarted. */
  lemma NoAddressHandedOutTwice(run: seq<System>, steps: seq<Step>, i: nat, j: nat, x: Addr)
    requires IsRun(run, steps) && i < j < |steps|
    requires Returned(run[i], steps[i]) == Some(x) && Returned(run[j], steps[j]) == Some(x)
    ensures exists k :: i < k < j && steps[k].Release?
                     && steps[k].container == steps[i].req.container && steps[k].ip == Some(x)
  {
    if forall k :: i < k < j && steps[k].Release? && steps[k].container == steps[i].req.container
                   ==> steps[k].ip != Some(x) {
      HeldUntilReleased(run, steps, i, j, x);
      AlwaysSafe(run, steps, j);
      StepKeepsSafe(run[j], steps[j]);
    }
  }

  // -------------------------------------------------- what reaches the file

  /** The step writes the state file, and the write completes. A commit writes only if it finds an
      address. */
  predicate Persists(s: System, step: Step) {
    && s.mem.Some?
    && match step
       case Commit(_, w, _) => FreeSet(s.mem.value) != {} && w.Written?
       case Release(_, _, w) => w.Written?
       case SetENIs(_, w) => w.Written?
       case _ => false
  }

  lemma PersistsMeaning(s: System, step: Step)
    requires Enabled(s, step) && Persists(s, step)
    ensures Apply(s, step).mem.Some? && Apply(s, step).disk == Readable(Apply(s, step).mem.value)
  {
    if step.Commit? {
      CommitOutcome(Store(s.mem.value, s.disk), step.req, step.w);
      CommitTakes(Store(s.mem.value, s.disk), step.req, step.w);
    }
  }

  lemma {:induction false} DownAndUp(run: seq<System>, steps: seq<Step>, i: nat, j: nat)
    requires IsRun(run, steps) && i < j < |run| && Persists(run[i], steps[i])
    requires forall m :: i < m < j ==> steps[m].Crash? || steps[m].Restart?
    ensures run[i + 1].mem.Some? && run[j].disk == Readable(run[i + 1].mem.value)
    ensures run[j].mem.Some? ==> run[j].mem == run[i + 1].mem
    decreases j
  {
    if j == i + 1 {
      PersistsMeaning(run[i], steps[i]);
    } else {
      DownAndUp(run, steps, i, j - 1);
    }
  }

  /** Durability: after a step whose state write completes, however often the process then crashes and
      restarts, it can always restart, and comes back with exactly the memory that step left: pool,
      allocations and hint. */
  lemma RestartRestores(run: seq<System>, steps: seq<Step>, i: nat, j: nat)
    requires IsRun(run, steps) && i < j < |run| && Persists(run[i], steps[i])
    requires forall m :: i < m < j ==> steps[m].Crash? || steps[m].Restart?
    ensures run[j].mem.Some? ==> run[j].mem == run[i + 1].mem
    ensures run[j].mem.None? ==> Enabled(run[j], Restart)
  {
    DownAndUp(run, steps, i, j);
  }

  /** A commit adds the address. */
  predicate Takes(s: System, step: Step, s': System, x: Addr) {
    && step.Commit? && s.mem.Some? && s'.mem.Some?
    && x !in s.mem.value.allocations && x in s'.mem.value.allocations
  }

  /** Allocated neither in memory nor in the file. */
  predicate Gone(s: System, x: Addr) {
    && (s.mem.Some? ==> x !in s.mem.value.allocations)
    && (s.disk.Readable? ==> x !in s.disk.state.allocations)
  }

  lemma StepKeepsGone(s: System, step: Step, x: Addr)
    requires Enabled(s, step) && Gone(s, x) && !Takes(s, step, Apply(s, step), x)
    ensures Gone(Apply(s, step), x)
  {
  }

  /** No leak: an address whose release was reported successful is not allocated in any later state,
      across crashes and restarts, unless a later commit took it. */
  lemma {:induction false} ReleasedStaysFree(run: seq<System>, steps: seq<Step>, i: nat, j: nat, x: Addr)
    requires IsRun(run, steps) && i < j < |run|
    requires steps[i].Release? && steps[i].ip == Some(x) && steps[i].w.Written?
    requires forall m :: i < m < j ==> !Takes(run[m], steps[m], run[m + 1], x)
    ensures run[j].mem.Some? ==> x !in run[j].mem.value.allocations
    ensures run[j].disk.Readable? ==> x !in run[j].disk.state.allocations
    decreases j
  {
    if j > i + 1 {
      ReleasedStaysFree(run, steps, i, j - 1, x);
      assert !Takes(run[j - 1], steps[j - 1], run[j - 1 + 1], x);
      StepKeepsGone(run[j - 1], steps[j - 1], x);
    }
  }

  // ------------------------------------------------------ what each field is

  /** Only releases change the hint and drop allocations, only pool changes change the pool, and only
      commits add allocations. */
  lemma FieldsMeaning(s: System, step: Step)
    requires Enabled(s, step) && !step.Crash? && !step.Restart?
    ensures Apply(s, step).mem.Some?
    ensures var before, after := s.mem.value, Apply(s, step).mem.value;
            && after.lastFreed == (if step.Release? && step.ip.Some? then step.ip else before.lastFreed)
            && after.enis == (if step.SetENIs? then step.enis else before.enis)
            && (forall y :: y in before.allocations && !(step.Release? && step.ip == Some(y)) ==>
                  y in after.allocations && after.allocations[y] == before.allocations[y])
            && (forall y :: y in after.allocations && y !in before.allocations ==> step.Commit?)
            && (step.Release? && step.ip.Some? ==> step.ip.value !in after.allocations)
  {
    if step.Commit? && FreeSet(s.mem.value) != {} {
      CommitTakes(Store(s.mem.value, s.disk), step.req, step.w);
    } else if step.Commit? {
      CommitOutcome(Store(s.mem.value, s.disk), step.req, step.w);
    }
  }

  /** Neither a crash, nor a restart, nor a release that frees something. */
  predicate KeepsHint(step: Step) {
    !step.Crash? && !step.Restart? && !(step.Release? && step.ip.Some?)
  }

  predicate KeepsPool(step: Step) {
    !step.Crash? && !step.Restart? && !step.SetENIs?
  }

  lemma KeptAt(run: seq<System>, steps: seq<Step>, k: nat)
    requires IsRun(run, steps) && k < |steps| && run[k].mem.Some?
    ensures KeepsHint(steps[k]) ==>
              run[k + 1].mem.Some? && run[k + 1].mem.value.lastFreed == run[k].mem.value.lastFreed
    ensures KeepsPool(steps[k]) ==> run[k + 1].mem.Some? && run[k + 1].mem.value.enis == run[k].mem.value.enis
  {
    if KeepsHint(steps[k]) || KeepsPool(steps[k]) {
      FieldsMeaning(run[k], steps[k]);
    }
  }

  lemma SetAt(run: seq<System>, steps: seq<Step>, i: nat)
    requires IsRun(run, steps) && i < |steps|
    ensures steps[i].Release? && steps[i].ip.Some?
            ==> run[i + 1].mem.Some? && run[i + 1].mem.value.lastFreed == steps[i].ip
    ensures steps[i].SetENIs? ==> run[i + 1].mem.Some? && run[i + 1].mem.value.enis == steps[i].enis
  {
  }

  lemma {:induction false} HintStays(run: seq<System>, steps: seq<Step>, i: nat, j: nat)
    requires IsRun(run, steps) && i <= j < |run| && run[i].mem.Some?
    requires forall m :: i <= m < j ==> KeepsHint(steps[m])
    ensures run[j].mem.Some? && run[j].mem.value.lastFreed == run[i].mem.value.lastFreed
    decreases j
  {
    if j > i {
      HintStays(run, steps, i, j - 1);
      KeptAt(run, steps, j - 1);
    }
  }

  lemma {:induction false} PoolStays(run: seq<System>, steps: seq<Step>, i: nat, j: nat)
    requires IsRun(run, steps) && i <= j < |run| && run[i].mem.Some?
    requires forall m :: i <= m < j ==> KeepsPool(steps[m])
    ensures run[j].mem.Some? && run[j].mem.value.enis == run[i].mem.value.enis
    decreases j
  {
    if j > i {
      PoolStays(run, steps, i, j - 1);
      KeptAt(run, steps, j - 1);
    }
  }

  /** So while the process runs, the hint is the address freed last. */
  lemma HintIsLastFreed(run: seq<System>, steps: seq<Step>, i: nat, j: nat)
    requires IsRun(run, steps) && i < j < |run| && steps[i].Release? && steps[i].ip.Some?
    requires forall m :: i < m < j ==> KeepsHint(steps[m])
    ensures run[j].mem.Some? && run[j].mem.value.lastFreed == steps[i].ip
  {
    SetAt(run, steps, i);
    HintStays(run, steps, i + 1, j);
  }

  /** And the pool is the one set last. */
  lemma PoolIsLastSet(run: seq<System>, steps: seq<Step>, i: nat, j: nat)
    requires IsRun(run, steps) && i < j < |run| && steps[i].SetENIs?
    requires forall m :: i < m < j ==> KeepsPool(steps[m])
    ensures run[j].mem.Some? && run[j].mem.value.enis == steps[i].enis
  {
    SetAt(run, steps, i);
    PoolStays(run, steps, i + 1, j);
  }
}
