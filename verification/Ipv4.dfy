/** IPv4 addresses as numbers below 2^32, and CIDR blocks. */
module Ipv4 {
  type Address = x: int | 0 <= x < 0x1_0000_0000

  function Pow2(n: nat): (p: nat)
    ensures p > 0
  {
    if n == 0 then 1 else 2 * Pow2(n - 1)
  }

  lemma {:induction false} Pow2Sum(a: nat, b: nat)
    ensures Pow2(a + b) == Pow2(a) * Pow2(b)
  {
    if a > 0 {
      Pow2Sum(a - 1, b);
      assert Pow2(a + b) == 2 * (Pow2(a - 1) * Pow2(b));
    }
  }

  lemma Pow2Values()
    ensures Pow2(4) == 16 && Pow2(8) == 0x100 && Pow2(16) == 0x1_0000 && Pow2(24) == 0x100_0000
    ensures Pow2(32) == 0x1_0000_0000
  {
    assert Pow2(4) == 16;
    Pow2Sum(4, 4);
    Pow2Sum(8, 8);
    Pow2Sum(16, 8);
    Pow2Sum(16, 16);
  }

  /** An address with a prefix length, as `Ipv4Net` keeps it: host bits may be set. */
  datatype Cidr = Cidr(addr: Address, prefix: nat) {
    predicate Valid() { prefix <= 32 }

    function Size(): (s: nat)
      requires Valid()
      ensures 0 < s
    {
      Pow2(32 - prefix)
    }

    /** `network()`: the address with its host bits cleared. */
    function Network(): (n: Address)
      requires Valid()
    {
      ModBelow(addr, Size());
      addr - addr % Size()
    }

    function Broadcast(): (b: Address)
      requires Valid()
      ensures Network() <= b
    {
      BlockFits(this);
      Network() + Size() - 1
    }

    predicate Contains(x: Address)
      requires Valid()
    {
      Network() <= x <= Broadcast()
    }

    /** `addr() == network()`, in the code also written `network & mask == network`. */
    predicate Canonical()
      requires Valid()
    {
      addr % Size() == 0
    }
  }

  lemma ModBelow(a: nat, m: nat)
    requires m > 0
    ensures 0 <= a % m <= a
  {
  }

  lemma MultipleBelow(m: nat, a: nat, b: nat)
    requires m > 0 && a % m == 0 && b % m == 0 && a < b
    ensures a + m <= b
  {
    var i, j := a / m, b / m;
    assert a == i * m && b == j * m;
    assert i < j;
    assert (i + 1) * m <= j * m;
  }

  lemma DivisorOfSpace(prefix: nat)
    requires prefix <= 32
    ensures 0x1_0000_0000 % Pow2(32 - prefix) == 0
  {
    Pow2Values();
    Pow2Sum(prefix, 32 - prefix);
    MultipleHasNoRemainder(Pow2(prefix), Pow2(32 - prefix));
  }

  lemma MultipleHasNoRemainder(k: nat, m: nat)
    requires m > 0
    ensures k * m % m == 0
  {
    if k > 0 {
      MultipleHasNoRemainder(k - 1, m);
      assert k * m == (k - 1) * m + m;
      AddModulus((k - 1) * m, m);
    }
  }

  lemma AddModulus(a: nat, m: nat)
    requires m > 0
    ensures (a + m) % m == a % m
  {
    var q, r := a / m, a % m;
    assert a + m == (q + 1) * m + r;
    UniqueRemainder(a + m, m, q + 1, r);
  }

  lemma UniqueRemainder(a: nat, m: nat, q: nat, r: nat)
    requires m > 0 && a == q * m + r && r < m
    ensures a / m == q && a % m == r
  {
    var d := a / m - q;
    assert d * m == r - a % m;
    SmallMultiple(d, m);
  }

  lemma SmallMultiple(d: int, m: int)
    requires -m < d * m < m
    ensures d == 0
  {
  }

  /** A block never reaches past the end of the address space. */
  lemma BlockFits(c: Cidr)
    requires c.Valid()
    ensures c.Network() % c.Size() == 0
    ensures c.Network() + c.Size() <= 0x1_0000_0000
  {
    DivisorOfSpace(c.prefix);
    AlignedBelow(c.addr, c.Size(), 0x1_0000_0000);
  }

  lemma AlignedBelow(a: nat, m: nat, end: nat)
    requires m > 0 && a < end && end % m == 0
    ensures (a - a % m) % m == 0 && a - a % m + m <= end
  {
    var q := a / m;
    assert a - a % m == q * m;
    MultipleHasNoRemainder(q, m);
    MultipleBelow(m, a - a % m, end);
  }

  lemma MultipleOfPart(a: nat, count: nat, stride: nat)
    requires count > 0 && stride > 0 && a % (count * stride) == 0
    ensures a % stride == 0
  {
    var q := a / (count * stride);
    assert a == q * (count * stride) == q * count * stride;
    MultipleHasNoRemainder(q * count, stride);
  }

  /** A block holds the addresses that agree with its own in the leading bits. */
  lemma ContainsIffSamePrefix(c: Cidr, x: Address)
    requires c.Valid()
    ensures c.Contains(x) <==> x / Pow2(32 - c.prefix) == c.addr / Pow2(32 - c.prefix)
  {
    SameQuotient(c.addr, c.Size(), x);
  }

  lemma SameQuotient(a: nat, m: nat, x: nat)
    requires m > 0
    ensures a - a % m <= x < a - a % m + m <==> x / m == a / m
  {
    var q := a / m;
    assert a - a % m == q * m && x == x / m * m + x % m;
    if q * m <= x < q * m + m {
      UniqueRemainder(x, m, q, x - q * m);
    }
  }

  /** A block is canonical if its address is the lowest it holds. */
  lemma CanonicalIffLowest(c: Cidr)
    requires c.Valid()
    ensures c.Canonical() <==> forall x: Address :: c.Contains(x) ==> c.addr <= x
  {
    assert c.Contains(c.Network());
  }
}
