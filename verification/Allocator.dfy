/** The allocator object: fields updated in place by methods that are proved against
    AllocatorSpec (pkg/allocator/allocator.go:24-220, pkg/allocator/state.go:36-52). */
module Allocator {
  import opened Net
  import opened Slices
  import opened AllocatorSpec

  /** New: the state found on disk, or no allocator when the file is unreadable or torn. */
  method New(disk: Disk, readFails: bool) returns (r: Option<Allocator>)
    ensures r.Some? <==> disk.Missing? || (disk.Readable? && !readFails)
    ensures r.Some? ==> fresh(r.value) && r.value.Valid() && fresh(r.value.Lists())
    ensures r.Some? ==> Load(disk).Some? && r.value.Store() == Store(Load(disk).value, disk)
    ensures r.Some? && disk.Missing? ==>
              r.value.enis == [] && r.value.allocations == map[] && r.value.lastFreed.None?
  {
    if disk.Torn? || (disk.Readable? && readFails) {
      return None;
    }
    var state := if disk.Readable? then disk.state else INITIAL;
    var enis := Decode(state.enis);
    var a := new Allocator(enis, state.allocations, state.lastFreed, disk);
    r := Some(a);
  }

  lemma OwnerOneMore(enis: seq<ENI>, k: nat, ip: Addr)
    requires k < |enis|
    ensures OwnerOf(enis[..k + 1], ip) == if ip in enis[k].ips then Some(enis[k]) else OwnerOf(enis[..k], ip)
  {
    assert enis[..k + 1][..k] == enis[..k];
  }

  class Allocator {
    var enis: seq<EniRecord>
    var allocations: map<Addr, Allocation>
    var lastFreed: Option<Addr>
    var disk: Disk

    constructor (e: seq<EniRecord>, a: map<Addr, Allocation>, last: Option<Addr>, d: Disk)
      requires AllValid(e)
      ensures Valid() && enis == e && Store() == AllocatorSpec.Store(State(Values(e), a, last), d)
    {
      enis, allocations, lastFreed, disk := e, a, last, d;
    }

    predicate Valid()
      reads this
    {
      AllValid(enis)
    }

    /** The arrays of the ENIs' address lists, which no method here writes. */
    function Lists(): set<array<Addr>>
      reads this
    {
      Backings(enis)
    }

    function Mem(): State
      requires Valid()
      reads this, Lists()
    {
      State(Values(enis), allocations, lastFreed)
    }

    function Store(): AllocatorSpec.Store
      requires Valid()
      reads this, Lists()
    {
      AllocatorSpec.Store(Mem(), disk)
    }

    /** The store is what it was if the fields and the lists are. */
    twostate lemma StoreStays()
      requires old(Valid()) && unchanged(this)
      requires forall k :: 0 <= k < |enis| ==> enis[k].ips.View() == old(enis[k].ips.View())
      ensures Valid() && Store() == old(Store())
    {
      ValuesStay(enis);
    }

    /** The whole state goes to disk; `w` says how the write ended. */
    method Write(w: WriteResult) returns (ok: bool)
      requires Valid()
      modifies this`disk
      ensures Valid() && ok == w.Written? && disk == DiskAfter(old(disk), Mem(), w)
      ensures Mem() == old(Mem())
    {
      if w.Written? || w.WroteButFailed? {
        disk := Readable(Mem());
      } else if w.LeftTorn? {
        disk := Torn;
      }
      ValuesStay(enis);
      ok := w.Written?;
    }

    method SetENIs(config: seq<EniRecord>, w: WriteResult) returns (ok: bool)
      requires Valid() && AllValid(config)
      modifies this
      ensures Valid() && enis == config
      ensures ok == w.Written? && Store() == AllocatorSpec.SetENIs(old(Store()), old(Values(config)), w)
    {
      enis := config;
      ok := Write(w);
      ValuesStay(enis);
    }

    method CountUnallocated(ips: Slice) returns (free: nat)
      requires ips.Valid()
      ensures free == CountFree(ips.View(), allocations)
    {
      free := 0;
      for k := 0 to ips.len
        invariant free == CountFree(ips.View()[..k], allocations)
      {
        assert ips.View()[..k + 1][..k] == ips.View()[..k];
        if ips.backing[ips.off + k] !in allocations {
          free := free + 1;
        }
      }
      assert ips.View()[..ips.len] == ips.View();
    }

    method FreeAddressCount(grow: Growth) returns (free: nat)
      requires Valid()
      ensures Valid() && Mem() == old(Mem()) && free == FreeCount(Mem())
    {
      var ips := Gather(enis, grow);
      free := CountUnallocated(ips);
      ValuesStay(enis);
    }

    /** The walk over the ordered pool, overwriting its candidate at each free address. */
    method Walk(ips: Slice) returns (reserved: Option<Addr>)
      requires ips.Valid()
      ensures reserved == LastFree(ips.View(), allocations)
    {
      reserved := None;
      for k := 0 to ips.len
        invariant reserved == LastFree(ips.View()[..k], allocations)
      {
        assert ips.View()[..k + 1][..k] == ips.View()[..k];
        if ips.backing[ips.off + k] !in allocations {
          reserved := Some(ips.backing[ips.off + k]);
        }
      }
      assert ips.View()[..ips.len] == ips.View();
    }

    /** The inner loop of the search: it does not stop at a match. */
    method Listed(list: Slice, ip: Addr) returns (found: bool)
      requires list.Valid()
      ensures found == (ip in old(list.View()))
    {
      found := false;
      for m := 0 to list.len
        invariant found == (ip in list.View()[..m])
      {
        assert list.View()[..m + 1] == list.View()[..m] + [list.View()[m]];
        if list.backing[list.off + m] == ip {
          found := true;
        }
      }
      assert list.View()[..list.len] == list.View();
    }

    /** The ENI the address is attributed to: the search does not stop, so the last one that lists it. */
    method FindENI(ip: Addr) returns (eni: Option<EniRecord>)
      requires Valid()
      ensures eni.Some? ==> eni.value.ips.Valid()
      ensures Values(enis) == old(Values(enis))
      ensures OwnerOf(old(Values(enis)), ip) == if eni.None? then None else Some(eni.value.Value())
    {
      ghost var values, at := Values(enis), 0;
      eni := None;
      for k := 0 to |enis|
        invariant eni.Some? ==> at < |enis| && eni.value == enis[at]
        invariant OwnerOf(values[..k], ip) == if eni.None? then None else Some(values[at])
      {
        assert values[k].ips == enis[k].ips.View() by {
          ValuesStay(enis);
          ValuesAt(enis, k);
        }
        OwnerOneMore(values, k, ip);
        var found := Listed(enis[k].ips, ip);
        if found {
          eni, at := Some(enis[k]), k;
        }
      }
      assert values[..|enis|] == values;
      ValuesStay(enis);
      if eni.Some? {
        ValuesAt(enis, at);
      }
    }

    /** Gathers, orders and walks the pool: what it holds, and the address it settles on. */
    method Reserve(grow: Growth) returns (pool: nat, reserved: Option<Addr>)
      requires Valid()
      ensures Values(enis) == old(Values(enis))
      ensures pool == |Pool(old(Values(enis)))| && reserved == Pick(old(Mem()))
    {
      OrderedElements(Values(enis), lastFreed, 0);
      var ips := OrderPool(enis, lastFreed, grow);
      pool := ips.len;
      reserved := Walk(ips);
      ValuesStay(enis);
    }

    /** Adds the allocation entry and persists it. */
    method Record(a: Allocation, w: WriteResult) returns (ok: bool)
      requires Valid()
      modifies this
      ensures Valid() && enis == old(enis) && ok == w.Written?
      ensures var mem := old(Mem()).(allocations := old(Mem()).allocations[a.ip := a]);
              Store() == AllocatorSpec.Store(mem, DiskAfter(old(disk), mem, w))
    {
      allocations := allocations[a.ip := a];
      ok := Write(w);
      ValuesStay(enis);
    }

    /** The second critical section. `grow` is how much room a growing slice is given. */
    method CommitSection(req: Request, w: WriteResult, grow: Growth) returns (o: Outcome)
      requires Valid()
      modifies this
      ensures Valid() && enis == old(enis) && (Store(), o) == Commit(old(Store()), req, w)
      ensures !o.Panicked?
    {
      CommitOutcome(Store(), req, w);
      var pool, reserved := Reserve(grow);
      if pool == 0 {
        return EmptyPool;
      }
      if reserved.None? {
        return CouldNotAllocate;
      }
      var eni := FindENI(reserved.value);
      if eni.None? {
        return Panicked;
      }
      var a := Allocation(req, reserved.value, eni.value.interfaceIP, eni.value.cidr);
      var ok := Record(a, w);
      o := if ok then Allocated(a) else WriteFailed;
    }

    method Allocate(req: Request, w: WriteResult, grow: Growth) returns (o: Outcome)
      requires Valid()
      modifies this
      ensures Valid() && enis == old(enis) && (Store(), o) == AllocateAtomically(old(Store()), req, w)
      ensures o.NoFreeIPs? <==> old(FreeSet(Mem())) == {}
      ensures o.Allocated? <==> old(FreeSet(Mem())) != {} && w.Written?
    {
      AtomicOutcome(Store(), req, w);
      var free := FreeAddressCount(grow);
      if free < 1 {
        return NoFreeIPs;
      }
      o := CommitSection(req, w, grow);
    }

    /** The address a map iteration, in any order, ends on among the container's. */
    method LastOfContainer(container: string) returns (relip: Option<Addr>)
      requires Valid()
      ensures Releasable(Mem(), container, relip)
    {
      relip := None;
      var todo := allocations.Keys;
      while todo != {}
        invariant todo <= allocations.Keys
        invariant relip.Some? ==> Releasable(Mem(), container, relip)
        invariant relip.None? ==>
                    forall x :: x in allocations && x !in todo ==> allocations[x].request.container != container
        decreases todo
      {
        var ip :| ip in todo;
        if allocations[ip].request.container == container {
          relip := Some(ip);
        }
        todo := todo - {ip};
      }
    }

    /** Frees one address of the container: the one its map iteration ends on. */
    method ReleaseByContainer(container: string, w: WriteResult) returns (ok: bool)
      requires Valid()
      modifies this
      ensures Valid() && enis == old(enis) && ok == w.Written?
      ensures exists ip :: Releasable(old(Mem()), container, ip) && Store() == Release(old(Store()), ip, w)
    {
      var relip := LastOfContainer(container);
      if relip.Some? {
        allocations := allocations - {relip.value};
        lastFreed := relip;
      }
      ok := Write(w);
      ValuesStay(enis);
      assert Store() == Release(old(Store()), relip, w);
    }
  }
}
