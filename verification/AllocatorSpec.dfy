/** What each lock section of the IP allocator does to its in-memory state and to the state file
    (pkg/allocator/allocator.go, pkg/allocator/state.go), and what it means for a caller. */
module AllocatorSpec {
  import opened Net
  import opened Slices

  datatype Request = Request(container: string, pod: string, namespace: string)

  datatype Allocation = Allocation(request: Request, ip: Addr, eniIP: Addr, subnet: Block)

  datatype State = State(enis: seq<ENI>, allocations: map<Addr, Allocation>, lastFreed: Option<Addr>)

  const INITIAL := State([], map[], None)

  /** The state file. A torn file does not decode. */
  datatype Disk = Missing | Readable(state: State) | Torn

  /** A whole-state write either completes, or fails leaving the old file, part of the new one, or
      all of it. */
  datatype WriteResult = Written | KeptOld | LeftTorn | WroteButFailed

  datatype Store = Store(mem: State, disk: Disk)

  datatype Outcome =
    | Allocated(allocation: Allocation)
    | NoFreeIPs
    | EmptyPool
    | CouldNotAllocate
    | WriteFailed
    | Panicked

  function DiskAfter(disk: Disk, state: State, w: WriteResult): Disk {
    match w
    case Written => Readable(state)
    case KeptOld => disk
    case LeftTorn => Torn
    case WroteButFailed => Readable(state)
  }

  // ------------------------------------------------------- reading the pool

  predicate IsFree(s: State, ip: Addr) {
    ip in Pool(s.enis) && ip !in s.allocations
  }

  function FreeSet(s: State): set<Addr> {
    set ip | ip in Pool(s.enis) && ip !in s.allocations
  }

  function CountFree(ips: seq<Addr>, taken: map<Addr, Allocation>): nat {
    if ips == [] then 0
    else CountFree(ips[..|ips| - 1], taken) + if ips[|ips| - 1] in taken then 0 else 1
  }

  function FreeCount(s: State): nat {
    CountFree(Pool(s.enis), s.allocations)
  }

  /** The walk without a break: it keeps overwriting its candidate. */
  function LastFree(ips: seq<Addr>, taken: map<Addr, Allocation>): Option<Addr> {
    if ips == [] then None
    else if ips[|ips| - 1] !in taken then Some(ips[|ips| - 1])
    else LastFree(ips[..|ips| - 1], taken)
  }

  /** The walk as its comments describe it: stop at the first free address. */
  function FirstFree(ips: seq<Addr>, taken: map<Addr, Allocation>): Option<Addr> {
    if ips == [] then None
    else if ips[0] !in taken then Some(ips[0])
    else FirstFree(ips[1..], taken)
  }

  function Pick(s: State): Option<Addr> {
    LastFree(Ordered(s.enis, s.lastFreed), s.allocations)
  }

  function IntendedPick(s: State): Option<Addr> {
    FirstFree(Ordered(s.enis, s.lastFreed), s.allocations)
  }

  /** The ENI an address is attributed to: the last one that lists it. */
  function OwnerOf(enis: seq<ENI>, ip: Addr): Option<ENI> {
    if enis == [] then None
    else if ip in enis[|enis| - 1].ips then Some(enis[|enis| - 1])
    else OwnerOf(enis[..|enis| - 1], ip)
  }

  // ---------------------------------------------------------- lock sections

  /** The second critical section of Allocate. */
  function Commit(st: Store, req: Request, w: WriteResult): (Store, Outcome) {
    if Pool(st.mem.enis) == [] then (st, EmptyPool)
    else
      match Pick(st.mem)
      case None => (st, CouldNotAllocate)
      case Some(ip) =>
        match OwnerOf(st.mem.enis, ip)
        case None => (st, Panicked)
        case Some(eni) =>
          var a := Allocation(req, ip, eni.interfaceIP, eni.cidr);
          var mem := st.mem.(allocations := st.mem.allocations[ip := a]);
          (Store(mem, DiskAfter(st.disk, mem, w)), if w.Written? then Allocated(a) else WriteFailed)
  }

  /** Both critical sections of Allocate with nothing in between. */
  function AllocateAtomically(st: Store, req: Request, w: WriteResult): (Store, Outcome) {
    if FreeCount(st.mem) < 1 then (st, NoFreeIPs) else Commit(st, req, w)
  }

  /** ReleaseByContainer ends its map iteration on any one of the container's addresses. */
  predicate Releasable(s: State, container: string, ip: Option<Addr>) {
    match ip
    case Some(x) => x in s.allocations && s.allocations[x].request.container == container
    case None => forall x :: x in s.allocations ==> s.allocations[x].request.container != container
  }

  function Release(st: Store, ip: Option<Addr>, w: WriteResult): Store {
    var mem :=
      if ip.None? then st.mem
      else State(st.mem.enis, st.mem.allocations - {ip.value}, ip);
    Store(mem, DiskAfter(st.disk, mem, w))
  }

  function SetENIs(st: Store, enis: seq<ENI>, w: WriteResult): Store {
    var mem := st.mem.(enis := enis);
    Store(mem, DiskAfter(st.disk, mem, w))
  }

  /** What New loads: nothing when there is no file, an error when it does not decode. */
  function Load(disk: Disk): Option<State> {
    match disk
    case Missing => Some(INITIAL)
    case Readable(s) => Some(s)
    case Torn => None
  }

  // ------------------------------------------------------------------ walks

  lemma {:induction false} LastFreeMeaning(ips: seq<Addr>, taken: map<Addr, Allocation>)
    ensures match LastFree(ips, taken)
            case None => forall k :: 0 <= k < |ips| ==> ips[k] in taken
            case Some(x) =>
              && x !in taken
              && exists k :: 0 <= k < |ips| && ips[k] == x && forall j :: k < j < |ips| ==> ips[j] in taken
  {
    if ips != [] {
      var n := |ips| - 1;
      var front := ips[..n];
      LastFreeMeaning(front, taken);
      if ips[n] in taken && LastFree(front, taken).Some? {
        var k :| 0 <= k < |front| && front[k] == LastFree(front, taken).value
              && forall j :: k < j < |front| ==> front[j] in taken;
        assert ips[k] == front[k];
        assert forall j :: k < j < |ips| ==> ips[j] == (if j < n then front[j] else ips[n]);
      } else if ips[n] in taken {
        assert forall k :: 0 <= k < |ips| ==> ips[k] == (if k < n then front[k] else ips[n]);
      }
    }
  }

  lemma {:induction false} FirstFreeMeaning(ips: seq<Addr>, taken: map<Addr, Allocation>)
    ensures match FirstFree(ips, taken)
            case None => forall k :: 0 <= k < |ips| ==> ips[k] in taken
            case Some(x) =>
              && x !in taken
              && exists k :: 0 <= k < |ips| && ips[k] == x && forall j :: 0 <= j < k ==> ips[j] in taken
  {
    if ips != [] {
      var rest := ips[1..];
      FirstFreeMeaning(rest, taken);
      if ips[0] in taken && FirstFree(rest, taken).Some? {
        var k :| 0 <= k < |rest| && rest[k] == FirstFree(rest, taken).value
              && forall j :: 0 <= j < k ==> rest[j] in taken;
        assert ips[k + 1] == rest[k];
        assert forall j :: 0 <= j < k + 1 ==> ips[j] == (if j == 0 then ips[0] else rest[j - 1]);
      } else if ips[0] in taken {
        assert forall k :: 0 <= k < |ips| ==> ips[k] == (if k == 0 then ips[0] else rest[k - 1]);
      }
    }
  }

  lemma {:induction false} CountFreePositive(ips: seq<Addr>, taken: map<Addr, Allocation>)
    ensures CountFree(ips, taken) > 0 <==> exists k :: 0 <= k < |ips| && ips[k] !in taken
  {
    if ips != [] {
      var n := |ips| - 1;
      CountFreePositive(ips[..n], taken);
      assert forall k :: 0 <= k < n ==> ips[k] == ips[..n][k];
      if CountFree(ips[..n], taken) > 0 {
        var k :| 0 <= k < n && ips[..n][k] !in taken;
        assert ips[k] !in taken;
      }
    }
  }

  /** The commit finds an address exactly when the free count is positive: the two sections of
      Allocate judge exhaustion alike. */
  lemma PickIffFree(s: State)
    ensures Pick(s).Some? <==> FreeCount(s) > 0
    ensures FreeCount(s) > 0 <==> FreeSet(s) != {}
    ensures Pick(s).Some? ==> IsFree(s, Pick(s).value)
  {
    var pool, ordered := Pool(s.enis), Ordered(s.enis, s.lastFreed);
    CountFreePositive(pool, s.allocations);
    LastFreeMeaning(ordered, s.allocations);
    if Pick(s).Some? {
      OrderedElements(s.enis, s.lastFreed, Pick(s).value);
      assert Pick(s).value in FreeSet(s);
    }
    if FreeSet(s) != {} {
      var ip :| ip in FreeSet(s);
      OrderedElements(s.enis, s.lastFreed, ip);
    }
    if FreeCount(s) > 0 {
      var k :| 0 <= k < |pool| && pool[k] !in s.allocations;
      assert pool[k] in FreeSet(s);
    }
  }

  lemma {:induction false} OwnerMeaning(enis: seq<ENI>, ip: Addr)
    ensures match OwnerOf(enis, ip)
            case None => ip !in Pool(enis)
            case Some(e) => e in enis && ip in e.ips && ip in Pool(enis)
  {
    if enis != [] {
      var n := |enis| - 1;
      OwnerMeaning(enis[..n], ip);
      assert enis == enis[..n] + [enis[n]];
      PoolAppend(enis[..n], [enis[n]]);
      assert Pool([enis[n]]) == enis[n].ips;
    }
  }

  /** When several ENIs list an address, it is attributed to the last of them. */
  lemma {:induction false} OwnerIsLast(enis: seq<ENI>, ip: Addr) returns (k: nat)
    requires ip in Pool(enis)
    ensures k < |enis| && OwnerOf(enis, ip) == Some(enis[k]) && ip in enis[k].ips
    ensures forall j :: k < j < |enis| ==> ip !in enis[j].ips
  {
    OwnerMeaning(enis, ip);
    k := |enis| - 1;
    if ip !in enis[k].ips {
      OwnerMeaning(enis[..k], ip);
      k := OwnerIsLast(enis[..k], ip);
    }
  }

  /** The panic branch of Allocate is dead for every pool, and the commit's errors are the
      exhausted pool: the whole pool missing, or every address taken. */
  lemma CommitOutcome(st: Store, req: Request, w: WriteResult)
    ensures !Commit(st, req, w).1.Panicked?
    ensures Commit(st, req, w).1 in {EmptyPool, CouldNotAllocate} <==> FreeSet(st.mem) == {}
    ensures Commit(st, req, w).1.EmptyPool? <==> Pool(st.mem.enis) == []
    ensures Commit(st, req, w).1.WriteFailed? <==> FreeSet(st.mem) != {} && !w.Written?
    ensures FreeSet(st.mem) == {} ==> Commit(st, req, w).0 == st
  {
    PickIffFree(st.mem);
    if Pick(st.mem).Some? {
      OwnerMeaning(st.mem.enis, Pick(st.mem).value);
    }
  }

  /** Called with nothing in between its sections, Allocate never reports an empty pool: the free
      check already answers for it, although ErrEmptyPool is documented for that case. */
  lemma AtomicOutcome(st: Store, req: Request, w: WriteResult)
    ensures AllocateAtomically(st, req, w).1.NoFreeIPs? <==> FreeSet(st.mem) == {}
    ensures AllocateAtomically(st, req, w).1.Allocated? <==> FreeSet(st.mem) != {} && w.Written?
    ensures AllocateAtomically(st, req, w).1.WriteFailed? <==> FreeSet(st.mem) != {} && !w.Written?
  {
    PickIffFree(st.mem);
    CommitOutcome(st, req, w);
  }

  /** A commit that takes an address takes one that was free, records it for this caller under the
      ENI that lists it, and changes nothing else in memory. */
  lemma CommitTakes(st: Store, req: Request, w: WriteResult)
    requires FreeSet(st.mem) != {}
    ensures Pick(st.mem).Some? && IsFree(st.mem, Pick(st.mem).value)
    ensures var ip, mem := Pick(st.mem).value, Commit(st, req, w).0.mem;
            && ip in mem.allocations
            && mem == st.mem.(allocations := st.mem.allocations[ip := mem.allocations[ip]])
            && mem.allocations[ip].request == req && mem.allocations[ip].ip == ip
            && FreeSet(mem) == FreeSet(st.mem) - {ip}
            && (w.Written? ==> Commit(st, req, w).1 == Allocated(mem.allocations[ip]))
            && (exists e :: e in st.mem.enis && ip in e.ips
                         && mem.allocations[ip].eniIP == e.interfaceIP && mem.allocations[ip].subnet == e.cidr)
  {
    PickIffFree(st.mem);
    OwnerMeaning(st.mem.enis, Pick(st.mem).value);
  }

  // ------------------------------------------------------- choice of address

  /** As written, the code returns the last freed address exactly when that address is free in the
      pool, whatever else is free. */
  lemma PickReturnsLastFreed(s: State)
    requires s.lastFreed.Some?
    ensures Pick(s) == s.lastFreed <==> IsFree(s, s.lastFreed.value)
  {
    var x := s.lastFreed.value;
    PickIffFree(s);
    OrderedElements(s.enis, s.lastFreed, x);
    if IsFree(s, x) {
      var ordered := Ordered(s.enis, s.lastFreed);
      assert ordered[|ordered| - 1] == x;
    }
  }

  /** Free, and not above the bound, if there is one. */
  predicate FreeUpTo(ips: seq<Addr>, taken: map<Addr, Allocation>, bound: Option<Addr>, y: Addr) {
    y in ips && y !in taken && (bound.Some? ==> y <= bound.value)
  }

  ghost predicate AnyUpTo(ips: seq<Addr>, taken: map<Addr, Allocation>, bound: Option<Addr>) {
    exists y: Addr :: FreeUpTo(ips, taken, bound, y)
  }

  ghost predicate GreatestUpTo(ips: seq<Addr>, taken: map<Addr, Allocation>, bound: Option<Addr>, x: Addr) {
    FreeUpTo(ips, taken, bound, x) && forall y: Addr :: FreeUpTo(ips, taken, bound, y) ==> y <= x
  }

  lemma LastFreeOfSorted(ips: seq<Addr>, taken: map<Addr, Allocation>, x: Addr)
    requires Sorted(ips)
    ensures LastFree(ips, taken) == Some(x) <==> GreatestUpTo(ips, taken, None, x)
    ensures LastFree(ips, taken).Some? <==> AnyUpTo(ips, taken, None)
  {
    LastFreeMeaning(ips, taken);
    if LastFree(ips, taken).Some? {
      assert FreeUpTo(ips, taken, None, LastFree(ips, taken).value);
    }
  }

  lemma {:induction false} LastFreeOfTwo(a: seq<Addr>, b: seq<Addr>, taken: map<Addr, Allocation>)
    ensures LastFree(a + b, taken) == if LastFree(b, taken).Some? then LastFree(b, taken) else LastFree(a, taken)
  {
    if b == [] {
      assert a + b == a;
    } else {
      assert (a + b)[..|a + b| - 1] == a + b[..|b| - 1];
      LastFreeOfTwo(a, b[..|b| - 1], taken);
    }
  }

  /** What comes up to the hint in an ascending list is what is not above it. */
  lemma UpToHint(sorted: seq<Addr>, k: nat, taken: map<Addr, Allocation>, y: Addr)
    requires Sorted(sorted) && 0 < k <= |sorted|
    ensures FreeUpTo(sorted[..k], taken, None, y) <==> FreeUpTo(sorted, taken, Some(sorted[k - 1]), y)
  {
    if y in sorted && y <= sorted[k - 1] {
      var j :| 0 <= j < |sorted| && sorted[j] == y;
      assert sorted[..k][k - 1] == sorted[k - 1];
      assert sorted[..k][if j < k then j else k - 1] == y;
    }
  }

  ghost predicate SameCandidates(ips: seq<Addr>, bound: Option<Addr>, ips': seq<Addr>, bound': Option<Addr>,
                                 taken: map<Addr, Allocation>)
  {
    forall y: Addr :: FreeUpTo(ips, taken, bound, y) <==> FreeUpTo(ips', taken, bound', y)
  }

  lemma SameChoice(ips: seq<Addr>, bound: Option<Addr>, ips': seq<Addr>, bound': Option<Addr>,
                   taken: map<Addr, Allocation>, x: Addr)
    requires SameCandidates(ips, bound, ips', bound', taken)
    ensures AnyUpTo(ips, taken, bound) <==> AnyUpTo(ips', taken, bound')
    ensures GreatestUpTo(ips, taken, bound, x) <==> GreatestUpTo(ips', taken, bound', x)
  {
    if y: Addr :| FreeUpTo(ips, taken, bound, y) {
      assert FreeUpTo(ips', taken, bound', y);
    }
    if y: Addr :| FreeUpTo(ips', taken, bound', y) {
      assert FreeUpTo(ips, taken, bound, y);
    }
  }

  lemma GreatestInFront(sorted: seq<Addr>, k: nat, taken: map<Addr, Allocation>, x: Addr)
    requires Sorted(sorted) && 0 < k <= |sorted|
    ensures AnyUpTo(sorted[..k], taken, None) <==> AnyUpTo(sorted, taken, Some(sorted[k - 1]))
    ensures GreatestUpTo(sorted[..k], taken, None, x) <==> GreatestUpTo(sorted, taken, Some(sorted[k - 1]), x)
  {
    var front, hint := sorted[..k], Some(sorted[k - 1]);
    forall y: Addr
      ensures FreeUpTo(front, taken, None, y) <==> FreeUpTo(sorted, taken, hint, y)
    {
      UpToHint(sorted, k, taken, y);
    }
    SameChoice(front, None, sorted, hint, taken, x);
  }

  lemma GreatestBehind(ips: seq<Addr>, k: nat, taken: map<Addr, Allocation>, x: Addr)
    requires k <= |ips| && !AnyUpTo(ips[..k], taken, None)
    ensures GreatestUpTo(ips[k..], taken, None, x) <==> GreatestUpTo(ips, taken, None, x)
  {
    var front, back := ips[..k], ips[k..];
    assert ips == front + back;
    forall y: Addr
      ensures FreeUpTo(back, taken, None, y) <==> FreeUpTo(ips, taken, None, y)
    {
      assert !FreeUpTo(front, taken, None, y);
    }
    SameChoice(back, None, ips, None, taken, x);
  }

  /** The walk over a list rotated behind the hint: down from the hint, then down from the top. */
  lemma WalkFromHint(sorted: seq<Addr>, k: nat, taken: map<Addr, Allocation>, x: Addr)
    requires Sorted(sorted) && 0 < k <= |sorted|
    ensures var hint := Some(sorted[k - 1]);
            LastFree(Rotate(sorted, k), taken) == Some(x)
            <==> GreatestUpTo(sorted, taken, if AnyUpTo(sorted, taken, hint) then hint else None, x)
  {
    var below, above, hint := sorted[..k], sorted[k..], Some(sorted[k - 1]);
    LastFreeOfTwo(above, below, taken);
    GreatestInFront(sorted, k, taken, x);
    LastFreeOfSorted(below, taken, x);
    if AnyUpTo(sorted, taken, hint) {
      assert LastFree(Rotate(sorted, k), taken) == LastFree(below, taken);
    } else {
      LastFreeOfSorted(above, taken, x);
      GreatestBehind(sorted, k, taken, x);
      assert LastFree(Rotate(sorted, k), taken) == LastFree(above, taken);
    }
  }

  lemma SamePool(ips: seq<Addr>, pool: seq<Addr>, taken: map<Addr, Allocation>, bound: Option<Addr>, x: Addr)
    requires multiset(ips) == multiset(pool)
    ensures AnyUpTo(ips, taken, bound) <==> AnyUpTo(pool, taken, bound)
    ensures GreatestUpTo(ips, taken, bound, x) <==> GreatestUpTo(pool, taken, bound, x)
  {
    forall y: Addr
      ensures FreeUpTo(ips, taken, bound, y) <==> FreeUpTo(pool, taken, bound, y)
    {
      SameElements(ips, pool, y);
    }
    SameChoice(ips, bound, pool, bound, taken, x);
  }

  lemma PickWithHint(s: State, hint: Addr, x: Addr)
    requires s.lastFreed == Some(hint) && hint in Pool(s.enis)
    ensures var pool, taken := Pool(s.enis), s.allocations;
            Pick(s) == Some(x)
            <==> GreatestUpTo(pool, taken, if AnyUpTo(pool, taken, s.lastFreed) then s.lastFreed else None, x)
  {
    var sorted := Sort(Pool(s.enis));
    SameElements(sorted, Pool(s.enis), hint);
    var k := RotationEndsWithLast(sorted, hint);
    if k == 0 {
      k := |sorted|;
      assert Rotate(sorted, 0) == Rotate(sorted, |sorted|);
    }
    assert Rotate(sorted, k)[|sorted| - 1] == sorted[k - 1];
    WalkFromHint(sorted, k, s.allocations, x);
    SamePool(sorted, Pool(s.enis), s.allocations, s.lastFreed, x);
    SamePool(sorted, Pool(s.enis), s.allocations, None, x);
  }

  lemma PickWithoutHint(s: State, x: Addr)
    requires s.lastFreed.Some? ==> s.lastFreed.value !in Pool(s.enis)
    ensures Pick(s) == Some(x) <==> GreatestUpTo(Pool(s.enis), s.allocations, None, x)
  {
    var sorted := Sort(Pool(s.enis));
    if s.lastFreed.Some? {
      SameElements(sorted, Pool(s.enis), s.lastFreed.value);
      RotationPermutes(sorted, s.lastFreed.value);
    }
    LastFreeOfSorted(sorted, s.allocations, x);
    SamePool(sorted, Pool(s.enis), s.allocations, None, x);
  }

  /** Which address is taken, from every pool, with or without repeats: the greatest free one up to the
      last freed address; or, if there is none, or that address is not in the pool, or nothing was ever
      freed, the greatest free one. */
  lemma PickMeaning(s: State, x: Addr)
    ensures var pool, taken, hint := Pool(s.enis), s.allocations, s.lastFreed;
            Pick(s) == Some(x)
            <==> GreatestUpTo(pool, taken,
                              if hint.Some? && hint.value in pool && AnyUpTo(pool, taken, hint) then hint else None, x)
  {
    if s.lastFreed.Some? && s.lastFreed.value in Pool(s.enis) {
      PickWithHint(s, s.lastFreed.value, x);
    } else {
      PickWithoutHint(s, x);
    }
  }

  /** So an address just released, if still in the pool, is the next one handed out. */
  lemma FreedIsNext(st: Store, container: string, ip: Addr, w: WriteResult, req: Request)
    requires Releasable(st.mem, container, Some(ip)) && ip in Pool(st.mem.enis)
    ensures var st' := Release(st, Some(ip), w);
            var next := AllocateAtomically(st', req, Written).1;
            next.Allocated? && next.allocation.ip == ip
  {
    var st' := Release(st, Some(ip), w);
    PickReturnsLastFreed(st'.mem);
    assert ip in FreeSet(st'.mem);
    AtomicOutcome(st', req, Written);
    CommitTakes(st', req, Written);
  }

  /** On a list of distinct addresses, stopping at the first free one reaches the end only when
      everything before it is taken. */
  lemma FirstFreeIsEnd(ips: seq<Addr>, taken: map<Addr, Allocation>)
    requires ips != [] && Distinct(ips)
    ensures FirstFree(ips, taken) == Some(ips[|ips| - 1])
            <==> ips[|ips| - 1] !in taken && forall k :: 0 <= k < |ips| - 1 ==> ips[k] in taken
  {
    FirstFreeMeaning(ips, taken);
  }

  /** The walk that stops at the first free address meets the documented intent: on distinct
      addresses it returns the last freed one exactly when that is the only free one. */
  lemma IntendedPickAvoidsLastFreed(s: State)
    requires Distinct(Pool(s.enis)) && s.lastFreed.Some?
    ensures IntendedPick(s) == s.lastFreed <==> FreeSet(s) == {s.lastFreed.value}
  {
    var x := s.lastFreed.value;
    var ordered := Ordered(s.enis, s.lastFreed);
    OrderedElements(s.enis, s.lastFreed, x);
    if x in ordered {
      OrderedDistinct(s.enis, s.lastFreed);
      FirstFreeIsEnd(ordered, s.allocations);
      forall y
        ensures y in FreeSet(s) <==> y in ordered && y !in s.allocations
      {
        OrderedElements(s.enis, s.lastFreed, y);
      }
      FreeOnlyAtEnd(ordered, s.allocations, FreeSet(s));
    } else {
      FirstFreeMeaning(ordered, s.allocations);
      assert x !in FreeSet(s);
    }
  }

  lemma FreeOnlyAtEnd(ips: seq<Addr>, taken: map<Addr, Allocation>, free: set<Addr>)
    requires ips != [] && Distinct(ips)
    requires forall y :: y in free <==> y in ips && y !in taken
    ensures free == {ips[|ips| - 1]}
            <==> ips[|ips| - 1] !in taken && forall k :: 0 <= k < |ips| - 1 ==> ips[k] in taken
  {
  }

  lemma OrderedDistinct(enis: seq<ENI>, last: Option<Addr>)
    requires Distinct(Pool(enis))
    ensures Distinct(Ordered(enis, last))
  {
    OrderedPermutes(enis, last);
    DistinctPermutation(Pool(enis), Ordered(enis, last));
  }

  lemma DistinctPermutation(s: seq<Addr>, t: seq<Addr>)
    requires Distinct(s) && multiset(s) == multiset(t)
    ensures Distinct(t)
  {
    forall i, j | 0 <= i < j < |t|
      ensures t[i] != t[j]
    {
      AtMostOnce(s, t[i]);
      if t[i] == t[j] {
        Twice(t, i, j);
      }
    }
  }

  lemma {:induction false} AtMostOnce(s: seq<Addr>, x: Addr)
    requires Distinct(s)
    ensures multiset(s)[x] <= 1
  {
    if s != [] {
      var n := |s| - 1;
      AtMostOnce(s[..n], x);
      assert s == s[..n] + [s[n]];
      assert s[n] !in s[..n];
    }
  }

  lemma Twice(t: seq<Addr>, i: nat, j: nat)
    requires i < j < |t| && t[i] == t[j]
    ensures multiset(t)[t[i]] >= 2
  {
    assert t == t[..j] + [t[j]] + t[j + 1..];
    assert t[i] in t[..j];
  }

  lemma RotationOfRepeats()
    ensures RotateAll([5, 5, 7], 5) == [5, 7, 5]
  {
    assert Rotate([5, 5, 7], 1) == [5, 7, 5];
    assert Rotate([5, 7, 5], 3) == [5, 7, 5];
    assert RotateFrom([5, 7, 5], 3, 5) == [5, 7, 5];
    assert RotateFrom([5, 7, 5], 2, 5) == [5, 7, 5];
    assert RotateFrom([5, 7, 5], 1, 5) == [5, 7, 5];
  }

  /** With a repeated address the intent fails even for the walk that stops early. */
  lemma IntendedPickNeedsDistinct(e: ENI, s: State)
    requires e.ips == [5, 5, 7] && s == State([e], map[], Some(5))
    ensures IsFree(s, 7) && IntendedPick(s) == Some(5)
  {
    var pool := Pool(s.enis);
    assert s.enis[1..] == [] && Pool(s.enis[1..]) == [];
    assert pool == e.ips + [] == e.ips;
    SortOfSorted(pool);
    RotationOfRepeats();
    assert pool[2] == 7;
  }
}
