/** Addresses as 32-bit numbers: CIDR masks, host addresses and bitmap indices
    (src/core/network/ipam.rs:106-130). Shifts, additions and subtractions that leave the
    32-bit range panic, as in a build with overflow checks. */
module Ipv4 {
  import opened Metas
  import opened Arithmetic

  const U32: nat := 0x1_0000_0000

  type u32 = n: nat | n < U32

  function Pow2(n: nat): (p: nat)
    ensures p > 0
  {
    if n == 0 then 1 else 2 * Pow2(n - 1)
  }

  /** `x % d`, by repeated subtraction. */
  function Remainder(x: nat, d: nat): (r: nat)
    requires d > 0
    ensures r < d && r <= x
  {
    if x < d then x else Remainder(x - d, d)
  }

  lemma ModuloStep(x: nat, d: nat)
    requires 0 < d <= x
    ensures x % d == (x - d) % d
  {
    var q, r := (x - d) / d, (x - d) % d;
    assert x == (q + 1) * d + r by {
      assert (q + 1) * d == q * d + d;
    }
    DivisionUnique(x, d, q + 1, r);
  }

  lemma {:induction false} RemainderIsModulo(x: nat, d: nat)
    requires d > 0
    ensures Remainder(x, d) == x % d
  {
    if x < d {
      DivisionUnique(x, d, 0, x);
    } else {
      ModuloStep(x, d);
      RemainderIsModulo(x - d, d);
    }
  }

  /** A parsed `base/prefix`; the base may have host bits set. */
  datatype CidrParts = CidrParts(base: u32, prefix: nat)

  type Cidr = c: CidrParts | c.prefix <= 32 witness CidrParts(0, 32)

  /** The number of addresses of the network. */
  function Size(c: Cidr): (size: nat)
    ensures size > 0
  {
    Pow2(32 - c.prefix)
  }

  lemma Quadruple(n: nat)
    requires n >= 2
    ensures Pow2(n) == 4 * Pow2(n - 2)
  {
    assert Pow2(n) == 2 * Pow2(n - 1);
  }

  /** At least two hosts, and a number of them that is never a multiple of 4. */
  lemma SizeWithRoom(c: Cidr)
    requires c.prefix <= 30
    ensures Size(c) >= 4 && (Size(c) - 2) % 4 == 2
  {
    Quadruple(32 - c.prefix);
    QuarterRemainder(Pow2(30 - c.prefix));
  }

  lemma QuarterRemainder(k: nat)
    requires k > 0
    ensures (4 * k - 2) % 4 == 2
  {
  }

  /** No host bits set in the base. */
  predicate Canonical(c: Cidr) {
    Remainder(c.base, Size(c)) == 0
  }

  // ---- Bit operations ----

  function BitAnd(x: nat, y: nat): nat {
    if x == 0 || y == 0 then 0
    else (if x % 2 == 1 && y % 2 == 1 then 1 else 0) + 2 * BitAnd(x / 2, y / 2)
  }

  function BitNot(x: u32): u32 {
    U32 - 1 - x
  }

  /** `!((1 << (32 - prefix)) - 1)` */
  function Mask(c: Cidr): u32
    requires c.prefix >= 1
  {
    Pow2Fits(32 - c.prefix);
    BitNot(Pow2(32 - c.prefix) - 1)
  }

  function Masked(c: Cidr, x: u32): nat
    requires c.prefix >= 1
  {
    BitAnd(x, Mask(c))
  }

  lemma {:induction false} Pow2Sum(a: nat, b: nat)
    ensures Pow2(a + b) == Pow2(a) * Pow2(b)
  {
    if a == 0 {
    } else {
      Pow2Sum(a - 1, b);
      assert Pow2(a + b) == 2 * Pow2(a - 1 + b);
      assert 2 * (Pow2(a - 1) * Pow2(b)) == (2 * Pow2(a - 1)) * Pow2(b);
    }
  }

  lemma Pow2Of32()
    ensures Pow2(32) == U32
  {
    assert Pow2(8) == 256;
    Pow2Sum(8, 8);
    Pow2Sum(16, 16);
  }

  lemma {:induction false} Pow2Grows(m: nat, n: nat)
    requires m <= n
    ensures Pow2(m) <= Pow2(n)
  {
    if m == n {
    } else {
      Pow2Grows(m, n - 1);
    }
  }

  lemma Pow2Fits(n: nat)
    requires n <= 31
    ensures 2 * Pow2(n) <= U32
  {
    Pow2Of32();
    Pow2Grows(n + 1, 32);
  }

  lemma {:induction false} HalveRemainder(x: nat, m: nat)
    requires m > 0
    ensures Remainder(x, 2 * m) == x % 2 + 2 * Remainder(x / 2, m)
  {
    if x < 2 * m {
    } else {
      HalveRemainder(x - 2 * m, m);
      assert (x - 2 * m) / 2 == x / 2 - m;
    }
  }

  lemma {:induction false} AndOnes(x: nat, w: nat)
    requires x < Pow2(w)
    ensures BitAnd(x, Pow2(w) - 1) == x
  {
    if x == 0 {
    } else {
      AndOnes(x / 2, w - 1);
      assert (Pow2(w) - 1) / 2 == Pow2(w - 1) - 1 && (Pow2(w) - 1) % 2 == 1;
    }
  }

  lemma AndEven(x: nat, z: nat)
    ensures BitAnd(x, 2 * z) == 2 * BitAnd(x / 2, z)
  {
    assert (2 * z) % 2 == 0 && 2 * z / 2 == z;
  }

  lemma AndDouble(x: nat, a: nat, b: nat)
    requires 0 < b <= a && BitAnd(x / 2, a - b) == x / 2 - Remainder(x / 2, b)
    ensures BitAnd(x, 2 * a - 2 * b) == x - Remainder(x, 2 * b)
  {
    AndEven(x, a - b);
    HalveRemainder(x, b);
  }

  lemma {:induction false} AndHighOnes(x: nat, w: nat, s: nat)
    requires x < Pow2(w) && s <= w
    ensures Pow2(s) <= Pow2(w)
    ensures BitAnd(x, Pow2(w) - Pow2(s)) == x - Remainder(x, Pow2(s))
  {
    if s == 0 {
      AndOnes(x, w);
    } else {
      var a, b := Pow2(w - 1), Pow2(s - 1);
      assert Pow2(w) == 2 * a && Pow2(s) == 2 * b;
      AndHighOnes(x / 2, w - 1, s - 1);
      AndDouble(x, a, b);
      assert 2 * a - 2 * b == Pow2(w) - Pow2(s);
    }
  }

  /** The first address of the network `x` lies in. */
  function Network(c: Cidr, x: u32): (n: u32)
    ensures n <= x
  {
    x - Remainder(x, Size(c))
  }

  /** Masking is rounding down to a multiple of the network's size. */
  lemma MaskRoundsDown(c: Cidr, x: u32)
    requires c.prefix >= 1
    ensures Masked(c, x) == Network(c, x)
  {
    Pow2Of32();
    Pow2Fits(32 - c.prefix);
    AndHighOnes(x, 32, 32 - c.prefix);
  }

  lemma {:induction false} AlignedBlock(x: nat, size: nat, blocks: nat)
    requires size > 0 && x < blocks * size
    ensures x - Remainder(x, size) + size <= blocks * size
  {
    if x < size {
      MulMonotone(1, blocks, size);
    } else {
      assert (blocks - 1) * size == blocks * size - size;
      AlignedBlock(x - size, size, blocks - 1);
    }
  }

  /** Aligned blocks do not straddle the end of the address space. */
  lemma BlockFits(c: Cidr, x: u32)
    ensures Network(c, x) + Size(c) <= U32
  {
    Pow2Of32();
    Pow2Sum(c.prefix, 32 - c.prefix);
    AlignedBlock(x, Size(c), Pow2(c.prefix));
  }

  lemma {:induction false} Offset(x: nat, size: nat, offset: nat)
    requires offset < size
    ensures Remainder(x - Remainder(x, size) + offset, size) == offset
  {
    if x < size {
    } else {
      Offset(x - size, size, offset);
    }
  }

  lemma OffsetInBlock(c: Cidr, x: u32, offset: nat)
    requires offset < Size(c)
    ensures Network(c, x) + offset < U32
    ensures Remainder(Network(c, x) + offset, Size(c)) == offset
    ensures Network(c, Network(c, x) + offset) == Network(c, x)
  {
    BlockFits(c, x);
    Offset(x, Size(c), offset);
  }

  // ---- The source's two conversions ----

  /** `calculate_ip`: masks the base, then adds. */
  function CalculateIp(c: Cidr, index: nat): Outcome<u32> {
    if c.prefix == 0 then Panic
    else
      var ip := Masked(c, c.base) + index;
      if ip < U32 then Ok(ip) else Panic
  }

  /** `ip_to_index`: compares masked, but subtracts the base unmasked. */
  function IpToIndex(c: Cidr, ip: u32): Outcome<nat> {
    if c.prefix == 0 then Panic
    else if Masked(c, c.base) != Masked(c, ip) then Err("IP not in subnet")
    else if ip < c.base + 1 then Panic
    else Ok(ip - c.base - 1)
  }

  /** The host addresses: neither the network's own nor the broadcast address. */
  predicate IsHost(c: Cidr, ip: nat) {
    Network(c, c.base) < ip < Network(c, c.base) + Size(c) - 1
  }

  /** Bit `pos` of the bitmap stands for a host; nothing overflows. */
  lemma AddressOfBit(c: Cidr, pos: nat)
    requires c.prefix >= 1 && pos + 1 < Size(c)
    ensures Network(c, c.base) + pos + 1 < U32
    ensures CalculateIp(c, pos + 1) == Ok(Network(c, c.base) + pos + 1)
    ensures pos + 2 < Size(c) ==> IsHost(c, Network(c, c.base) + pos + 1)
  {
    MaskRoundsDown(c, c.base);
    OffsetInBlock(c, c.base, pos + 1);
  }

  /** What `ip_to_index` makes of any address, in terms of the distance from the base. */
  lemma IndexOfAddress(c: Cidr, ip: u32)
    requires c.prefix >= 1
    ensures IpToIndex(c, ip) ==
      if Network(c, ip) != Network(c, c.base) then Err("IP not in subnet")
      else if ip <= c.base then Panic
      else Ok(ip - c.base - 1)
  {
    MaskRoundsDown(c, c.base);
    MaskRoundsDown(c, ip);
  }

  lemma IndexOfOffset(c: Cidr, offset: nat)
    requires c.prefix >= 1 && offset < Size(c)
    ensures Network(c, c.base) + offset < U32
    ensures IpToIndex(c, Network(c, c.base) + offset) ==
      var h := Remainder(c.base, Size(c));
      if offset <= h then Panic else Ok(offset - h - 1)
  {
    OffsetInBlock(c, c.base, offset);
    IndexOfAddress(c, Network(c, c.base) + offset);
  }

  /** Converting a bit to an address and back gives the bit exactly for canonical CIDRs.
      With host bits `h` in the base the result is `h` too low, or a panic. */
  lemma BitRoundTrip(c: Cidr, pos: nat)
    requires c.prefix >= 1 && pos + 1 < Size(c)
    ensures CalculateIp(c, pos + 1).Ok?
    ensures var ip, h := CalculateIp(c, pos + 1).value, Remainder(c.base, Size(c));
            && IpToIndex(c, ip) == (if pos < h then Panic else Ok(pos - h))
            && (IpToIndex(c, ip) == Ok(pos) <==> Canonical(c))
  {
    AddressOfBit(c, pos);
    IndexOfOffset(c, pos + 1);
  }

  lemma AddressOfIndex(c: Cidr, index: nat)
    requires c.prefix >= 1
    ensures CalculateIp(c, index) ==
      var ip := Network(c, c.base) + index;
      if ip < U32 then Ok(ip) else Panic
  {
    MaskRoundsDown(c, c.base);
  }

  /** The converse: an index leads back to its address. */
  lemma AddressRoundTrip(c: Cidr, ip: u32)
    requires c.prefix >= 1 && Canonical(c) && IpToIndex(c, ip).Ok?
    ensures CalculateIp(c, IpToIndex(c, ip).value + 1) == Ok(ip)
  {
    IndexOfAddress(c, ip);
    AddressOfIndex(c, ip - c.base);
  }
}
