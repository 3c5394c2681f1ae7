/**
 * An IPv4 network as the scanner sees it once `ipaddress.ip_network` has parsed the
 * "address/prefix" text: a 32-bit network address and a prefix length. This module
 * gives its size, the usable-host count the scanner reports (networkscan.py:32-36),
 * the addresses `hosts()` enumerates and the scan targets `run` builds from them
 * (networkscan.py:140-142).
 */
module Network {

  /** The size of the IPv4 address space, 2^32. */
  const AddressSpace: nat := 0x1_0000_0000

  function Pow2(n: nat): (r: nat)
    ensures r >= 1
  {
    if n == 0 then 1 else 2 * Pow2(n - 1)
  }

  lemma {:induction false} Pow2Add(a: nat, b: nat)
    ensures Pow2(a + b) == Pow2(a) * Pow2(b)
    decreases a
  {
    if a > 0 {
      Pow2Add(a - 1, b);
    }
  }

  lemma Pow2Of32()
    ensures Pow2(32) == AddressSpace
  {
    assert Pow2(2) == 4;
    Pow2Add(2, 2);
    Pow2Add(4, 4);
    Pow2Add(8, 8);
    Pow2Add(16, 16);
  }

  /** A network: its network address and its prefix length. */
  datatype Block = Block(base: nat, prefix: nat)

  /** `ip_network(text)` accepted the text: a prefix of at most 32 bits and a 32-bit
      network address with no host bit set (strict parsing rejects "10.0.0.5/24"). */
  predicate Valid(b: Block) {
    b.prefix <= 32 && b.base < AddressSpace && b.base % AddressCount(b) == 0
  }

  /** `network.num_addresses`: 2^(32 - prefix). */
  function AddressCount(b: Block): (n: nat)
    requires b.prefix <= 32
    ensures 1 <= n <= AddressSpace
    ensures n * Pow2(b.prefix) == AddressSpace
  {
    Pow2Add(32 - b.prefix, b.prefix);
    Pow2Of32();
    Pow2(32 - b.prefix)
  }

  lemma MulMonotone(x: nat, y: nat, n: nat)
    requires x <= y
    ensures x * n <= y * n
  {
    assert y * n == x * n + (y - x) * n;
  }

  /** A multiple of `n` below `m * n` leaves room for `n` more. */
  lemma AlignedFits(base: nat, n: nat, m: nat)
    requires n > 0 && base < m * n && base % n == 0
    ensures base + n <= m * n
  {
    var q := base / n;
    assert base == q * n;
    if m <= q {
      MulMonotone(m, q, n);
      assert false;
    }
    MulMonotone(q + 1, m, n);
    assert (q + 1) * n == q * n + n;
  }

  /** The last address of an aligned network still lies in the 32-bit space. */
  lemma BlockFits(b: Block)
    requires Valid(b)
    ensures b.base + AddressCount(b) <= AddressSpace
  {
    var n, m := AddressCount(b), Pow2(b.prefix);
    assert m * n == AddressSpace;
    AlignedFits(b.base, n, m);
  }

  /** `network.broadcast_address`: the highest address of the network. */
  function Broadcast(b: Block): (a: nat)
    requires Valid(b)
    ensures b.base <= a < AddressSpace
  {
    BlockFits(b);
    b.base + AddressCount(b) - 1
  }

  /** `nbr_host`: the address count, less the network and broadcast addresses when
      there are more than two addresses. */
  function UsableHosts(b: Block): (k: nat)
    requires b.prefix <= 32
    ensures 1 <= k <= AddressCount(b)
    ensures AddressCount(b) <= 2 ==> k == AddressCount(b)
    ensures AddressCount(b) > 2 ==> k + 2 == AddressCount(b)
  {
    var n := AddressCount(b);
    if n > 2 then n - 2 else n
  }

  /** The ascending addresses `lo`, `lo + 1`, ..., `hi - 1` (Python's `range(lo, hi)`). */
  function Range(lo: nat, hi: nat): (r: seq<nat>)
    ensures |r| == if lo <= hi then hi - lo else 0
    ensures forall k :: 0 <= k < |r| ==> r[k] == lo + k
    ensures forall x :: x in r <==> lo <= x < hi
    decreases hi - lo
  {
    if lo >= hi then []
    else
      var rest := Range(lo + 1, hi);
      forall x | lo < x < hi ensures x in rest {
        assert rest[x - lo - 1] == x;
      }
      [lo] + rest
  }

  /** `network.hosts()`: every address strictly between the network and broadcast
      addresses, except that a /31 (RFC 3021 point-to-point link) yields both of its
      addresses. For a /32 the generic range is empty; the scanner never relies on it. */
  function Hosts(b: Block): (r: seq<nat>)
    requires Valid(b)
    ensures forall i, j :: 0 <= i < j < |r| ==> r[i] < r[j]
    ensures AddressCount(b) == 2 ==> r == [b.base, b.base + 1]
    ensures AddressCount(b) != 2 ==> forall a :: a in r <==> b.base < a < Broadcast(b)
  {
    if AddressCount(b) == 2 then Range(b.base, Broadcast(b) + 1)
    else Range(b.base + 1, Broadcast(b))
  }

  /** An address the scan must probe: strictly inside the network when it has more than
      two addresses, anywhere in it otherwise. */
  predicate IsTarget(b: Block, a: nat)
    requires Valid(b)
  {
    if AddressCount(b) > 2 then b.base < a < Broadcast(b) else b.base <= a <= Broadcast(b)
  }

  /** The addresses `run` probes: `hosts()`, replaced by the network address itself for a
      one-address network. There are `nbr_host` of them, ascending, and they are exactly
      the addresses `IsTarget` admits. */
  function Targets(b: Block): (r: seq<nat>)
    requires Valid(b)
    ensures |r| == UsableHosts(b)
    ensures forall i, j :: 0 <= i < j < |r| ==> r[i] < r[j]
    ensures forall a :: a in r <==> IsTarget(b, a)
    ensures forall a :: a in r ==> b.base <= a <= Broadcast(b) < AddressSpace
    ensures AddressCount(b) == 1 ==> r == [b.base]
  {
    if AddressCount(b) == 1 then [b.base] else Hosts(b)
  }

  /** 10.0.0.0/30 is scanned as 10.0.0.1 and 10.0.0.2. */
  lemma SlashThirtyTargets()
    ensures Targets(Block(0x0A00_0000, 30)) == [0x0A00_0001, 0x0A00_0002]
  {
    var b := Block(0x0A00_0000, 30);
    assert AddressCount(b) == 4;
    var r := Targets(b);
    assert |r| == 2 && r[0] == 0x0A00_0001 && r[1] == 0x0A00_0002;
  }

  /** 10.0.0.4/31 is scanned as both of its addresses. */
  lemma SlashThirtyOneTargets()
    ensures Targets(Block(0x0A00_0004, 31)) == [0x0A00_0004, 0x0A00_0005]
  {
    var b := Block(0x0A00_0004, 31);
    assert AddressCount(b) == 2;
    var r := Targets(b);
    assert |r| == 2 && r[0] == 0x0A00_0004 && r[1] == 0x0A00_0005;
  }

  /** 10.0.0.5/32 is scanned as 10.0.0.5 alone, through the override for one-address
      networks. */
  lemma SlashThirtyTwoTargets()
    ensures Targets(Block(0x0A00_0005, 32)) == [0x0A00_0005]
  {
    assert AddressCount(Block(0x0A00_0005, 32)) == 1;
  }
}
