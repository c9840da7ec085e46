/** Addresses, address blocks and the records a node's ENI annotation holds (pkg/nodestate/node.go). */
module Net {

  datatype Option<+T> = None | Some(value: T)

  /** An IPv4 address, read as the big-endian number of its four octets. */
  type Addr = a: int | 0 <= a < 0x1_0000_0000

  function Pow2(n: nat): (p: nat)
    ensures p >= 1
  {
    if n == 0 then 1 else 2 * Pow2(n - 1)
  }

  /** An address block: an address and a prefix length. Only canonical blocks have no host bits set. */
  datatype Block = Block(base: Addr, bits: nat) {
    function Size(): (s: nat)
      requires bits <= 32
      ensures s >= 1
    {
      Pow2(32 - bits)
    }

    predicate Canonical() {
      bits <= 32 && base % Size() == 0
    }

    /** The prefix bits of `a` are those of the block. */
    predicate Contains(a: Addr) {
      bits <= 32 && a / Size() == base / Size()
    }
  }

  /** 0.0.0.0/0. */
  const EVERYWHERE := Block(0, 0)

  /** 224.0.0.0/4. */
  const MULTICAST := Block(0xE000_0000, 4)

  lemma EverywhereContainsAll(a: Addr)
    ensures EVERYWHERE.Canonical() && EVERYWHERE.Contains(a)
  {
    assert Pow2(8) == 256;
    assert Pow2(16) == 256 * Pow2(8);
    assert Pow2(24) == 256 * Pow2(16);
    assert Pow2(32) == 256 * Pow2(24);
  }

  lemma MultiplesApart(s: nat, x: int, y: int)
    ensures x < y ==> s * x + s <= s * y
  {
    if x < y {
      assert s * (x + 1) <= s * y;
    }
  }

  /** A canonical block is the interval of `Size()` addresses that starts at its base. */
  lemma BlockIsInterval(b: Block, a: Addr)
    requires b.Canonical()
    ensures b.Contains(a) <==> b.base <= a < b.base + b.Size()
  {
    var s := b.Size();
    var q, d := b.base / s, a / s;
    assert b.base == s * q && a == s * d + a % s;
    MultiplesApart(s, q, d);
    MultiplesApart(s, d, q);
  }

  predicate IsMulticast(a: Addr) {
    0xE000_0000 <= a < 0xF000_0000
  }

  lemma MulticastBlock(a: Addr)
    ensures MULTICAST.Contains(a) <==> IsMulticast(a)
  {
    assert Pow2(8) == 256;
    assert Pow2(16) == 256 * Pow2(8);
    assert Pow2(24) == 256 * Pow2(16);
    assert Pow2(28) == 16 * Pow2(24);
    assert MULTICAST.Size() == 0x1000_0000;
  }

  lemma FromQuotient(x: nat, s: nat, q: int)
    requires s >= 1 && x % s == 0 && x / s == q
    ensures x == s * q
  {
  }

  /** Two canonical blocks of the same length that share an address are the same block. */
  lemma SameLengthSameBlock(b: Block, c: Block, a: Addr)
    requires b.Canonical() && c.Canonical() && b.bits == c.bits
    requires b.Contains(a) && c.Contains(a)
    ensures b == c
  {
    var s := b.Size();
    FromQuotient(b.base, s, a / s);
    FromQuotient(c.base, s, a / s);
  }

  datatype ENI = ENI(
    id: string,
    attached: bool,
    interfaceIP: Addr,
    index: int,
    cidr: Block,
    ips: seq<Addr>,
    mac: string)

  /** Every address the given ENIs carry for pods, in list order. */
  function Pool(enis: seq<ENI>): seq<Addr> {
    if enis == [] then [] else enis[0].ips + Pool(enis[1..])
  }

  lemma {:induction false} PoolAppend(enis: seq<ENI>, more: seq<ENI>)
    ensures Pool(enis + more) == Pool(enis) + Pool(more)
  {
    if enis == [] {
      assert enis + more == more;
    } else {
      assert (enis + more)[1..] == enis[1..] + more;
      PoolAppend(enis[1..], more);
    }
  }

  /** An address is in the pool exactly when some ENI lists it. */
  lemma {:induction false} InPool(enis: seq<ENI>, ip: Addr)
    ensures ip in Pool(enis) <==> exists e :: e in enis && ip in e.ips
  {
    if enis != [] {
      InPool(enis[1..], ip);
      assert enis == [enis[0]] + enis[1..];
    }
  }

  predicate Distinct<T(==)>(s: seq<T>) {
    forall i, j :: 0 <= i < j < |s| ==> s[i] != s[j]
  }

  predicate Disjoint(a: seq<Addr>, b: seq<Addr>) {
    forall x :: x in a ==> x !in b
  }

  /** ENIs with distinct addresses, none shared between two of them, make a distinct pool. */
  lemma {:induction false} PoolDistinct(enis: seq<ENI>)
    requires forall i :: 0 <= i < |enis| ==> Distinct(enis[i].ips)
    requires forall i, j :: 0 <= i < j < |enis| ==> Disjoint(enis[i].ips, enis[j].ips)
    ensures Distinct(Pool(enis))
  {
    if enis != [] {
      var head, rest := enis[0].ips, Pool(enis[1..]);
      PoolDistinct(enis[1..]);
      forall x | x in rest
        ensures x !in head
      {
        InPool(enis[1..], x);
        var e :| e in enis[1..] && x in e.ips;
        var j :| 0 <= j < |enis[1..]| && enis[1..][j] == e;
        assert Disjoint(enis[0].ips, enis[j + 1].ips);
      }
      assert forall i :: 0 <= i < |rest| ==> rest[i] in rest;
    }
  }
}
