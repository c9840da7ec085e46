/** No address is lost or invented: what the free count says about every state and every run
    (pkg/allocator/allocator.go:95-220). */
module Conservation {
  import opened Net
  import opened AllocatorSpec

  function TakenFrom(s: State): set<Addr> {
    set ip | ip in Pool(s.enis) && ip in s.allocations
  }

  function Among(ips: seq<Addr>, taken: map<Addr, Allocation>, used: bool): set<Addr> {
    set ip | ip in ips && (ip in taken) == used
  }

  lemma AmongAppend(front: seq<Addr>, x: Addr, taken: map<Addr, Allocation>, used: bool)
    requires x !in front
    ensures |Among(front + [x], taken, used)| == |Among(front, taken, used)| + if (x in taken) == used then 1 else 0
  {
    if (x in taken) == used {
      assert Among(front + [x], taken, used) == Among(front, taken, used) + {x};
    } else {
      assert Among(front + [x], taken, used) == Among(front, taken, used);
    }
  }

  lemma {:induction false} CountFreeDistinct(ips: seq<Addr>, taken: map<Addr, Allocation>)
    requires Distinct(ips)
    ensures CountFree(ips, taken) == |Among(ips, taken, false)|
    ensures CountFree(ips, taken) + |Among(ips, taken, true)| == |ips|
  {
    if ips != [] {
      var n := |ips| - 1;
      CountFreeDistinct(ips[..n], taken);
      assert ips == ips[..n] + [ips[n]];
      AmongAppend(ips[..n], ips[n], taken, true);
      AmongAppend(ips[..n], ips[n], taken, false);
    }
  }

  /** Free plus allocated pool addresses is the pool, for every state whose pool is distinct. */
  lemma Conserved(s: State)
    requires Distinct(Pool(s.enis))
    ensures FreeCount(s) == |FreeSet(s)|
    ensures FreeCount(s) + |TakenFrom(s)| == |Pool(s.enis)|
  {
    CountFreeDistinct(Pool(s.enis), s.allocations);
    assert FreeSet(s) == Among(Pool(s.enis), s.allocations, false);
    assert TakenFrom(s) == Among(Pool(s.enis), s.allocations, true);
  }

  /** A commit that finds an address lowers the free count by exactly one, even when its write
      fails. */
  lemma CommitTakesOne(st: Store, req: Request, w: WriteResult)
    requires Distinct(Pool(st.mem.enis)) && FreeCount(st.mem) > 0
    ensures FreeCount(Commit(st, req, w).0.mem) == FreeCount(st.mem) - 1
  {
    PickIffFree(st.mem);
    CommitTakes(st, req, w);
    Conserved(st.mem);
    Conserved(Commit(st, req, w).0.mem);
  }

  /** A release raises the free count by one exactly when what it frees is still in the pool. */
  lemma ReleaseFreesOne(st: Store, container: string, ip: Option<Addr>, w: WriteResult)
    requires Distinct(Pool(st.mem.enis)) && Releasable(st.mem, container, ip)
    ensures FreeCount(Release(st, ip, w).mem)
            == FreeCount(st.mem) + if ip.Some? && ip.value in Pool(st.mem.enis) then 1 else 0
  {
    var mem := Release(st, ip, w).mem;
    Conserved(st.mem);
    Conserved(mem);
    if ip.Some? && ip.value in Pool(st.mem.enis) {
      assert FreeSet(mem) == FreeSet(st.mem) + {ip.value};
    } else {
      assert FreeSet(mem) == FreeSet(st.mem);
    }
  }

  function HeldBy(s: State, container: string): set<Addr> {
    set ip | ip in s.allocations && s.allocations[ip].request.container == container
  }

  /** A release frees one address of its container, so it leaves the container with none exactly when
      the container had at most one; any more stay allocated. */
  lemma ReleaseLeavesTheRest(st: Store, container: string, ip: Option<Addr>, w: WriteResult)
    requires Releasable(st.mem, container, ip)
    ensures HeldBy(Release(st, ip, w).mem, container)
            == HeldBy(st.mem, container) - (if ip.Some? then {ip.value} else {})
    ensures HeldBy(Release(st, ip, w).mem, container) == {} <==> |HeldBy(st.mem, container)| <= 1
  {
    var before, after := HeldBy(st.mem, container), HeldBy(Release(st, ip, w).mem, container);
    assert after == before - (if ip.Some? then {ip.value} else {});
    if ip.Some? {
      assert ip.value in before;
      assert |after| == |before| - 1;
    } else {
      assert before == {};
    }
  }

  /** Allocate for each request in turn, with no write failing. */
  function AllocateAll(st: Store, reqs: seq<Request>): (Store, seq<Outcome>)
    decreases |reqs|
  {
    if reqs == [] then (st, [])
    else
      var (st1, o) := AllocateAtomically(st, reqs[0], Written);
      var (st2, os) := AllocateAll(st1, reqs[1..]);
      (st2, [o] + os)
  }

  /** One more Allocate takes one free address, if there is one. */
  lemma FirstOfMany(st: Store, req: Request)
    ensures var (st1, o) := AllocateAtomically(st, req, Written);
            if FreeSet(st.mem) == {} then o.NoFreeIPs? && st1 == st
            else o.Allocated? && o.allocation.ip in FreeSet(st.mem)
                 && FreeSet(st1.mem) == FreeSet(st.mem) - {o.allocation.ip}
                 && |FreeSet(st1.mem)| == |FreeSet(st.mem)| - 1
  {
    AtomicOutcome(st, req, Written);
    PickIffFree(st.mem);
    if FreeSet(st.mem) != {} {
      CommitTakes(st, req, Written);
    }
  }

  /** From any state, with repeats in the pool or not, exactly as many consecutive Allocates succeed
      as there are different free addresses; all later ones report no free addresses. */
  lemma {:induction false} ExactlyTheFreeOnesSucceed(st: Store, reqs: seq<Request>)
    ensures |AllocateAll(st, reqs).1| == |reqs|
    ensures forall k :: 0 <= k < |reqs| ==>
              if k < |FreeSet(st.mem)| then AllocateAll(st, reqs).1[k].Allocated?
              else AllocateAll(st, reqs).1[k].NoFreeIPs?
    decreases |reqs|
  {
    if reqs != [] {
      FirstOfMany(st, reqs[0]);
      ExactlyTheFreeOnesSucceed(AllocateAtomically(st, reqs[0], Written).0, reqs[1..]);
    }
  }

  /** And the addresses they hand out were free and are all different. */
  lemma {:induction false} HandedOutAreDifferent(st: Store, reqs: seq<Request>)
    ensures |AllocateAll(st, reqs).1| == |reqs|
    ensures forall k :: 0 <= k < |reqs| && AllocateAll(st, reqs).1[k].Allocated?
                        ==> AllocateAll(st, reqs).1[k].allocation.ip in FreeSet(st.mem)
    ensures var os := AllocateAll(st, reqs).1;
            forall j, k :: 0 <= j < k < |reqs| && os[j].Allocated? && os[k].Allocated?
                           ==> os[j].allocation.ip != os[k].allocation.ip
    decreases |reqs|
  {
    if reqs != [] {
      FirstOfMany(st, reqs[0]);
      HandedOutAreDifferent(AllocateAtomically(st, reqs[0], Written).0, reqs[1..]);
    }
  }

  /** A pool of n distinct addresses with nothing allocated serves exactly n Allocates. */
  lemma WholePoolIsUsable(st: Store, reqs: seq<Request>, k: nat)
    requires st.mem.allocations == map[] && Distinct(Pool(st.mem.enis)) && k < |reqs|
    ensures |AllocateAll(st, reqs).1| == |reqs|
    ensures AllocateAll(st, reqs).1[k].Allocated? <==> k < |Pool(st.mem.enis)|
  {
    Conserved(st.mem);
    assert TakenFrom(st.mem) == {};
    ExactlyTheFreeOnesSucceed(st, reqs);
  }
}
