/** The pool ordering that Allocate does in place on a Go slice: gather, sort, and the rotation
    loop that keeps rotating the slice while it indexes it (pkg/allocator/allocator.go:104-125). */
module Slices {
  import opened Net

  // ---------------------------------------------------------------- sorting

  predicate Sorted(s: seq<Addr>) {
    forall i, j :: 0 <= i < j < |s| ==> s[i] <= s[j]
  }

  function Insert(x: Addr, s: seq<Addr>): (r: seq<Addr>)
    requires Sorted(s)
    ensures |r| == |s| + 1 && Sorted(r)
    ensures forall k :: 0 <= k < |r| ==> r[k] == x || r[k] in s
  {
    if s == [] || x <= s[0] then [x] + s else [s[0]] + Insert(x, s[1..])
  }

  lemma {:induction false} InsertElements(x: Addr, s: seq<Addr>)
    requires Sorted(s)
    ensures multiset(Insert(x, s)) == multiset(s) + multiset{x}
  {
    if s != [] && x > s[0] {
      InsertElements(x, s[1..]);
      assert s == [s[0]] + s[1..];
    }
  }

  /** The ascending arrangement of a list of addresses. */
  function Sort(s: seq<Addr>): (r: seq<Addr>)
    ensures Sorted(r) && multiset(r) == multiset(s)
  {
    if s == [] then [] else
      var front := s[..|s| - 1];
      assert s == front + [s[|s| - 1]];
      InsertElements(s[|s| - 1], Sort(front));
      Insert(s[|s| - 1], Sort(front))
  }

  /** A list has only one ascending arrangement, so how it was sorted does not matter. */
  lemma {:induction false} SortedUnique(s: seq<Addr>, t: seq<Addr>)
    requires Sorted(s) && Sorted(t) && multiset(s) == multiset(t)
    ensures s == t
  {
    SameSize(s, t);
    if s != [] {
      SameFirst(s, t);
      SameTails(s, t);
      SortedUnique(s[1..], t[1..]);
      Rebuild(s, t);
    }
  }

  lemma SameFirst(s: seq<Addr>, t: seq<Addr>)
    requires Sorted(s) && Sorted(t) && multiset(s) == multiset(t) && s != [] && t != []
    ensures s[0] == t[0]
  {
    assert t[0] in multiset(s) && s[0] in multiset(t);
    SmallestFirst(s, t[0]);
    SmallestFirst(t, s[0]);
  }

  lemma Rebuild(s: seq<Addr>, t: seq<Addr>)
    requires s != [] && t != [] && s[0] == t[0] && s[1..] == t[1..]
    ensures s == t
  {
  }

  lemma SameTails(s: seq<Addr>, t: seq<Addr>)
    requires s != [] && t != [] && s[0] == t[0] && multiset(s) == multiset(t)
    ensures multiset(s[1..]) == multiset(t[1..])
  {
    WithoutFirst(s);
    WithoutFirst(t);
  }

  lemma SameSize(s: seq<Addr>, t: seq<Addr>)
    requires multiset(s) == multiset(t)
    ensures |s| == |t|
  {
    assert |multiset(s)| == |multiset(t)|;
  }

  lemma SmallestFirst(s: seq<Addr>, x: Addr)
    requires Sorted(s) && s != [] && x in multiset(s)
    ensures s[0] <= x
  {
  }

  lemma WithoutFirst(s: seq<Addr>)
    requires s != []
    ensures multiset(s[1..]) == multiset(s) - multiset{s[0]}
  {
    assert s == [s[0]] + s[1..];
  }

  lemma SortOfSorted(s: seq<Addr>)
    requires Sorted(s)
    ensures Sort(s) == s
  {
    SortedUnique(Sort(s), s);
  }

  lemma SameElements(s: seq<Addr>, t: seq<Addr>, x: Addr)
    requires multiset(s) == multiset(t)
    ensures |s| == |t| && (x in s <==> x in t)
  {
    assert |multiset(s)| == |multiset(t)|;
    assert x in multiset(s) <==> x in multiset(t);
  }

  // --------------------------------------------------------------- rotation

  function Rotate(s: seq<Addr>, k: nat): (r: seq<Addr>)
    requires k <= |s|
    ensures |r| == |s|
  {
    s[k..] + s[..k]
  }

  /** The rotation loop from index `i` on, as it rewrites the list it is indexing. */
  function RotateFrom(s: seq<Addr>, i: nat, last: Addr): (r: seq<Addr>)
    decreases |s| - i
  {
    if i >= |s| then s
    else RotateFrom(if s[i] == last then Rotate(s, i + 1) else s, i + 1, last)
  }

  function RotateAll(s: seq<Addr>, last: Addr): (r: seq<Addr>) {
    RotateFrom(s, 0, last)
  }

  lemma RotateTwice(s: seq<Addr>, k: nat, m: nat) returns (n: nat)
    requires k <= |s| && m <= |s|
    ensures n <= |s| && Rotate(Rotate(s, k), m) == Rotate(s, n)
  {
    if k + m <= |s| {
      n := k + m;
    } else {
      n := k + m - |s|;
    }
    assert Rotate(Rotate(s, k), m) == Rotate(s, n);
  }

  /** Whatever the loop does, it leaves a cyclic rotation; once it has met `last`, `last` stays
      at the end. */
  lemma {:induction false} RotateFromShape(s: seq<Addr>, i: nat, last: Addr) returns (k: nat)
    requires i <= |s|
    ensures k <= |s| && RotateFrom(s, i, last) == Rotate(s, k)
    ensures last in s[i..] || (s != [] && s[|s| - 1] == last)
            ==> RotateFrom(s, i, last) != [] && RotateFrom(s, i, last)[|s| - 1] == last
    ensures last !in s[i..] ==> RotateFrom(s, i, last) == s
    decreases |s| - i
  {
    if i == |s| {
      k := 0;
      assert Rotate(s, 0) == s;
    } else {
      var t := if s[i] == last then Rotate(s, i + 1) else s;
      k := RotateFromShape(t, i + 1, last);
      if s[i] == last {
        assert t[|s| - 1] == last;
        k := RotateTwice(s, i + 1, k);
      } else {
        assert s[i..] == [s[i]] + s[i + 1..];
      }
    }
  }

  /** The rotation loop, on any list that contains `last`, with or without repeats: a cyclic
      rotation of the list that ends with `last`. */
  lemma RotationEndsWithLast(s: seq<Addr>, last: Addr) returns (k: nat)
    requires last in s
    ensures k <= |s| && RotateAll(s, last) == Rotate(s, k)
    ensures RotateAll(s, last) != [] && RotateAll(s, last)[|s| - 1] == last
  {
    assert s[0..] == s;
    k := RotateFromShape(s, 0, last);
  }

  /** On distinct addresses it is the only such rotation. */
  lemma RotationUnique(s: seq<Addr>, last: Addr, k: nat)
    requires Distinct(s) && last in s
    requires k <= |s| && Rotate(s, k)[|s| - 1] == last
    ensures RotateAll(s, last) == Rotate(s, k)
  {
    var m := RotationEndsWithLast(s, last);
    assert forall j :: 0 <= j <= |s| ==> Rotate(s, j)[|s| - 1] == s[if j == 0 then |s| - 1 else j - 1];
    assert Rotate(s, 0) == Rotate(s, |s|);
  }

  /** The loop never loses, adds or repeats an address. */
  lemma RotationPermutes(s: seq<Addr>, last: Addr)
    ensures |RotateAll(s, last)| == |s|
    ensures multiset(RotateAll(s, last)) == multiset(s)
    ensures last !in s ==> RotateAll(s, last) == s
  {
    assert s[0..] == s;
    var k := RotateFromShape(s, 0, last);
    assert s == s[..k] + s[k..];
  }

  // ------------------------------------------------------------- Go slices

  /** A Go slice: a window on a backing array. Its capacity is what the array holds past `off`. */
  datatype Slice = Slice(backing: array<Addr>, off: nat, len: nat) {
    predicate Valid() {
      off + len <= backing.Length
    }

    function View(): (v: seq<Addr>)
      requires Valid()
      reads backing
      ensures |v| == len
    {
      backing[off..off + len]
    }
  }

  /** How much spare room a slice that must grow to n elements is given. */
  type Growth = nat -> nat

  method Grown(dst: Slice, src: Slice, grow: Growth) returns (r: Slice)
    requires dst.Valid() && src.Valid()
    ensures r.Valid() && r.View() == dst.View() + src.View() && fresh(r.backing)
  {
    var all := dst.View() + src.View();
    var a := new Addr[|all| + grow(|all|)](k => if 0 <= k < |all| then all[k] else 0);
    r := Slice(a, 0, |all|);
  }

  /** `append(dst, src...)`: writes past the end of `dst` when the capacity is there, into the very
      array that `src` may be a window of; otherwise copies to a new array. */
  method Append(dst: Slice, src: Slice, grow: Growth) returns (r: Slice)
    requires dst.Valid() && src.Valid()
    modifies dst.backing
    ensures r.Valid() && r.View() == old(dst.View()) + old(src.View())
    ensures r.backing == dst.backing || fresh(r.backing)
  {
    var n := dst.len + src.len;
    if dst.off + n <= dst.backing.Length {
      forall k | 0 <= k < src.len {
        dst.backing[dst.off + dst.len + k] := src.backing[src.off + k];
      }
      r := Slice(dst.backing, dst.off, n);
      assert r.View()[..dst.len] == old(dst.View()) && r.View()[dst.len..] == old(src.View());
    } else {
      r := Grown(dst, src, grow);
    }
  }

  /** `append(ips[i+1:], ips[:i+1]...)`: copies the head of the slice behind its own tail, in the
      same array if there is room. */
  method RotateSlice(ips: Slice, i: nat, grow: Growth) returns (r: Slice)
    requires ips.Valid() && i < ips.len
    modifies ips.backing
    ensures r.Valid() && r.len == ips.len && r.View() == Rotate(old(ips.View()), i + 1)
    ensures r.backing == ips.backing || fresh(r.backing)
  {
    var tail := Slice(ips.backing, ips.off + i + 1, ips.len - i - 1);
    var head := Slice(ips.backing, ips.off, i + 1);
    assert tail.View() == ips.View()[i + 1..] && head.View() == ips.View()[..i + 1];
    r := Append(tail, head, grow);
  }

  /** The rotation loop on the slice. */
  method MoveToEnd(pool: Slice, last: Addr, grow: Growth) returns (ips: Slice)
    requires pool.Valid()
    modifies pool.backing
    ensures ips.Valid() && ips.View() == RotateAll(old(pool.View()), last)
    ensures ips.backing == pool.backing || fresh(ips.backing)
  {
    ips := pool;
    var i := 0;
    while i < ips.len
      invariant ips.Valid() && ips.len == pool.len && i <= ips.len
      invariant ips.backing == pool.backing || fresh(ips.backing)
      invariant RotateFrom(ips.View(), i, last) == RotateAll(old(pool.View()), last)
    {
      assert ips.View()[i] == ips.backing[ips.off + i];
      if ips.backing[ips.off + i] == last {
        ips := RotateSlice(ips, i, grow);
      }
      i := i + 1;
    }
  }

  predicate Less(s: Slice, i: nat, j: nat)
    requires s.Valid() && i < s.len && j < s.len
    reads s.backing
  {
    s.backing[s.off + i] < s.backing[s.off + j]
  }

  method Swap(s: Slice, i: nat, j: nat)
    requires s.Valid() && i < s.len && j < s.len
    modifies s.backing
    ensures s.View() == old(s.View())[i := old(s.View()[j])][j := old(s.View()[i])]
    ensures multiset(s.View()) == multiset(old(s.View()))
  {
    ghost var before := s.View();
    s.backing[s.off + i], s.backing[s.off + j] := s.backing[s.off + j], s.backing[s.off + i];
    assert s.View() == before[i := before[j]][j := before[i]];
  }

  /** Sorted but for position `j`, which may be smaller than those before it. */
  ghost predicate SortedBut(s: seq<Addr>, j: nat) {
    forall p, q :: 0 <= p < q < |s| && q != j ==> s[p] <= s[q]
  }

  lemma SwapDown(s: seq<Addr>, i: nat, j: nat)
    requires 0 < j <= i < |s| && SortedBut(s[..i + 1], j) && s[j] < s[j - 1]
    ensures SortedBut(s[j := s[j - 1]][j - 1 := s[j]][..i + 1], j - 1)
  {
  }

  lemma SiftedIsSorted(s: seq<Addr>, j: nat)
    requires j < |s| && SortedBut(s, j) && (j == 0 || s[j - 1] <= s[j])
    ensures Sorted(s)
  {
  }

  method SiftDown(s: Slice, i: nat)
    requires s.Valid() && i < s.len && Sorted(s.View()[..i])
    modifies s.backing
    ensures Sorted(s.View()[..i + 1]) && multiset(s.View()) == multiset(old(s.View()))
  {
    var j: nat := i;
    while j > 0 && Less(s, j, j - 1)
      invariant j <= i && SortedBut(s.View()[..i + 1], j)
      invariant multiset(s.View()) == multiset(old(s.View()))
    {
      SwapDown(s.View(), i, j);
      Swap(s, j, j - 1);
      j := j - 1;
    }
    SiftedIsSorted(s.View()[..i + 1], j);
  }

  /** The library sort, working only through the netIps Less and Swap. */
  method SortInPlace(s: Slice)
    requires s.Valid()
    modifies s.backing
    ensures s.View() == Sort(old(s.View()))
  {
    for i := 0 to s.len
      invariant Sorted(s.View()[..i])
      invariant multiset(s.View()) == multiset(old(s.View()))
    {
      SiftDown(s, i);
    }
    assert s.View()[..s.len] == s.View();
    SortedUnique(s.View(), Sort(old(s.View())));
  }

  // ---------------------------------------------------------- the ENI records

  /** An ENI as the allocator holds it: its addresses are a slice, as decoding made it. */
  datatype EniRecord = EniRecord(
    id: string,
    attached: bool,
    interfaceIP: Addr,
    index: int,
    cidr: Block,
    ips: Slice,
    mac: string)
  {
    function Value(): ENI
      requires ips.Valid()
      reads ips.backing
    {
      ENI(id, attached, interfaceIP, index, cidr, ips.View(), mac)
    }
  }

  predicate AllValid(enis: seq<EniRecord>) {
    forall e :: e in enis ==> e.ips.Valid()
  }

  function Backings(enis: seq<EniRecord>): set<array<Addr>> {
    set e | e in enis :: e.ips.backing
  }

  function Values(enis: seq<EniRecord>): (v: seq<ENI>)
    requires AllValid(enis)
    reads Backings(enis)
    ensures |v| == |enis|
  {
    if enis == [] then []
    else
      var n := |enis| - 1;
      assert enis[n] in enis;
      Values(enis[..n]) + [enis[n].Value()]
  }

  lemma {:induction false} ValuesAt(enis: seq<EniRecord>, k: nat)
    requires AllValid(enis) && k < |enis|
    ensures Values(enis)[k] == enis[k].Value()
  {
    if k < |enis| - 1 {
      ValuesAt(enis[..|enis| - 1], k);
    }
  }

  /** Records whose lists are what they were have the value they had. */
  twostate lemma {:induction false} ValuesStay(enis: seq<EniRecord>)
    requires AllValid(enis)
    requires forall k :: 0 <= k < |enis| ==> enis[k].ips.View() == old(enis[k].ips.View())
    ensures Values(enis) == old(Values(enis))
  {
    if enis != [] {
      ValuesStay(enis[..|enis| - 1]);
    }
  }

  method DecodeOne(e: ENI) returns (r: EniRecord)
    ensures r.ips.Valid() && fresh(r.ips.backing) && r.Value() == e
  {
    var a := new Addr[|e.ips|](k requires 0 <= k < |e.ips| => e.ips[k]);
    r := EniRecord(e.id, e.attached, e.interfaceIP, e.index, e.cidr, Slice(a, 0, a.Length), e.mac);
    assert r.ips.View() == e.ips;
  }

  lemma {:induction false} ValuesAre(records: seq<EniRecord>, enis: seq<ENI>)
    requires AllValid(records) && |records| == |enis|
    requires forall i :: 0 <= i < |enis| ==> records[i].Value() == enis[i]
    ensures Values(records) == enis
  {
    forall k | 0 <= k < |enis|
      ensures Values(records)[k] == enis[k]
    {
      ValuesAt(records, k);
    }
  }

  /** Decoding gives every ENI a list of its own. */
  method Decode(enis: seq<ENI>) returns (records: seq<EniRecord>)
    ensures AllValid(records) && fresh(Backings(records)) && Values(records) == enis
    ensures |records| == |enis| && forall i :: 0 <= i < |enis| ==> records[i].Value() == enis[i]
  {
    records := [];
    for k := 0 to |enis|
      invariant |records| == k && AllValid(records)
      invariant forall i :: 0 <= i < k ==> fresh(records[i].ips.backing)
      invariant forall i :: 0 <= i < k ==> records[i].Value() == enis[i]
    {
      var r := DecodeOne(enis[k]);
      records := records + [r];
    }
    ValuesAre(records, enis);
  }

  // ---------------------------------------------------------- the ordered pool

  /** The pool in allocation order: gathered from every ENI into a new array, sorted, and rotated
      so that the last freed address is at the end. */
  function Ordered(enis: seq<ENI>, last: Option<Addr>): (r: seq<Addr>) {
    var sorted := Sort(Pool(enis));
    if last.None? then sorted else RotateAll(sorted, last.value)
  }

  lemma OrderedPermutes(enis: seq<ENI>, last: Option<Addr>)
    ensures multiset(Ordered(enis, last)) == multiset(Pool(enis))
  {
    if last.Some? {
      RotationPermutes(Sort(Pool(enis)), last.value);
    }
  }

  lemma OrderedElements(enis: seq<ENI>, last: Option<Addr>, x: Addr)
    ensures |Ordered(enis, last)| == |Pool(enis)|
    ensures x in Ordered(enis, last) <==> x in Pool(enis)
    ensures last.Some? && last.value in Pool(enis)
            ==> Ordered(enis, last) != [] && Ordered(enis, last)[|Pool(enis)| - 1] == last.value
  {
    OrderedPermutes(enis, last);
    SameElements(Ordered(enis, last), Pool(enis), x);
    if last.Some? && last.value in Pool(enis) {
      SameElements(Sort(Pool(enis)), Pool(enis), last.value);
      var _ := RotationEndsWithLast(Sort(Pool(enis)), last.value);
    }
  }

  lemma PoolOneMore(enis: seq<ENI>, e: ENI)
    ensures Pool(enis + [e]) == Pool(enis) + e.ips
  {
    PoolAppend(enis, [e]);
    assert Pool([e]) == e.ips;
  }

  /** The gathering loop: it appends every ENI's list to a slice that starts without any room, so
      that what it writes is never an ENI's own array. */
  method Gather(enis: seq<EniRecord>, grow: Growth) returns (ips: Slice)
    requires AllValid(enis)
    ensures ips.Valid() && fresh(ips.backing) && ips.View() == Pool(old(Values(enis)))
    ensures Values(enis) == old(Values(enis))
  {
    ghost var values := Values(enis);
    var none := new Addr[0];
    ips := Slice(none, 0, 0);
    for k := 0 to |enis|
      invariant forall i :: 0 <= i < |enis| ==> enis[i].ips.View() == old(enis[i].ips.View())
      invariant ips.Valid() && fresh(ips.backing) && ips.View() == Pool(values[..k])
    {
      assert old(enis[k].ips.View()) == values[k].ips by {
        ValuesStay(enis);
        ValuesAt(enis, k);
      }
      assert Pool(values[..k + 1]) == Pool(values[..k]) + values[k].ips by {
        PoolOneMore(values[..k], values[k]);
        assert values[..k + 1] == values[..k] + [values[k]];
      }
      ips := Append(ips, enis[k].ips, grow);
    }
    assert values[..|enis|] == values;
    ValuesStay(enis);
  }

  /** The ordered pool is in a new array; no ENI's own list has been reordered on the way. */
  method OrderPool(enis: seq<EniRecord>, last: Option<Addr>, grow: Growth) returns (ips: Slice)
    requires AllValid(enis)
    ensures fresh(ips.backing) && ips.Valid() && ips.View() == Ordered(old(Values(enis)), last)
    ensures Values(enis) == old(Values(enis))
  {
    ips := Gather(enis, grow);
    SortInPlace(ips);
    if last.Some? {
      ips := MoveToEnd(ips, last.value, grow);
    }
    ValuesStay(enis);
  }
}
