/** Which of its replies the allocator gives when (src/core/network/ipam.rs:20-130), for any
    bitmaps and any CIDRs, with or without host bits: exactly when it panics, that a refusal
    changes nothing, and what repeating a call gets. */
module Replies {
  import opened Metas
  import opened Ipv4
  import opened Ipam
  import opened BitmapFile
  import opened AllocatorRuns

  // ---- Panics ----

  /** `add_subnet` underflows or overflows exactly for new subnets of prefix 0 or 32, and
      succeeds exactly for new ones in between. */
  lemma AddReplies(parse: Parser, subnets: Subnets, cidr: string)
    ensures var (subnets', r) := Adding(parse, subnets, cidr);
            && (r.Panic? <==> cidr !in subnets && parse(cidr).Some? && parse(cidr).value.prefix in {0, 32})
            && (r.Ok? <==> cidr !in subnets && parse(cidr).Some? && 1 <= parse(cidr).value.prefix <= 31)
            && (!r.Ok? ==> subnets' == subnets)
            && (r.Ok? ==>
                  && cidr in subnets' && subnets' - {cidr} == subnets
                  && |subnets'[cidr]| + 2 == Size(parse(cidr).value)
                  && forall bit | bit in subnets'[cidr] :: !bit)
  {
    assert Adding(parse, subnets, cidr).0 - {cidr} == subnets - {cidr};
  }

  lemma AddressReplies(parse: Parser, cidr: string, c: Cidr, index: nat)
    requires parse(cidr) == Some(c)
    ensures Address(parse, cidr, index).Panic? <==> c.prefix == 0 || Network(c, c.base) + index >= U32
    ensures !Address(parse, cidr, index).Err?
  {
    if c.prefix >= 1 {
      AddressAt(parse, cidr, c, index);
    }
  }

  /** Allocation panics exactly when the lowest clear bit stands for no address. An error
      leaves the bitmaps alone: it means an unknown subnet or a bitmap with every bit set. */
  lemma AllocateReplies(parse: Parser, subnets: Subnets, cidr: string, c: Cidr)
    requires parse(cidr) == Some(c)
    ensures var (subnets', r) := Allocating(parse, subnets, cidr);
            && (r.Panic? <==> exists pos: nat :: IsLowestClear(subnets, cidr, pos)
                                && (c.prefix == 0 || Network(c, c.base) + pos + 1 >= U32))
            && (r.Err? <==> cidr !in subnets || forall bit | bit in subnets[cidr] :: bit)
            && (r.Err? ==> subnets' == subnets)
  {
    if cidr in subnets {
      var bits := subnets[cidr];
      if FirstZero(bits).Some? {
        var pos := FirstZero(bits).value;
        AddressReplies(parse, cidr, c, pos + 1);
        assert IsLowestClear(subnets, cidr, pos) && bits[pos] in bits;
        forall p: nat | IsLowestClear(subnets, cidr, p)
          ensures p == pos
        {
        }
      }
    }
  }

  predicate IsLowestClear(subnets: Subnets, cidr: string, pos: nat) {
    && cidr in subnets && pos < |subnets[cidr]| && !subnets[cidr][pos]
    && forall k | 0 <= k < pos :: subnets[cidr][k]
  }

  lemma IndexReplies(c: Cidr, ip: u32)
    requires c.prefix >= 1
    ensures IpToIndex(c, ip).Panic? <==> Network(c, ip) == Network(c, c.base) && ip <= c.base
    ensures IpToIndex(c, ip).Ok? <==> Network(c, ip) == Network(c, c.base) && ip > c.base
    ensures IpToIndex(c, ip).Ok? ==> IpToIndex(c, ip).value == ip - c.base - 1
  {
    IndexOfAddress(c, ip);
  }

  lemma ReleaseAt(parse: Parser, subnets: Subnets, cidr: string, c: Cidr, ip: u32, index: Outcome<nat>)
    requires parse(cidr) == Some(c) && IpToIndex(c, ip) == index
    ensures var (subnets', r) := Releasing(parse, subnets, cidr, ip);
            && (r.Panic? <==> index.Panic?)
            && (r.Ok? <==> index.Ok? && cidr in subnets && index.value < |subnets[cidr]| && subnets[cidr][index.value])
            && (!r.Ok? ==> subnets' == subnets)
  {
  }

  /** Releasing panics exactly for addresses of the network at or below the CIDR's base,
      before it looks at any bitmap; every refusal is an error that changes nothing. */
  lemma ReleaseReplies(parse: Parser, subnets: Subnets, cidr: string, c: Cidr, ip: u32)
    requires parse(cidr) == Some(c) && c.prefix >= 1
    ensures var (subnets', r) := Releasing(parse, subnets, cidr, ip);
            && (r.Panic? <==> Network(c, ip) == Network(c, c.base) && ip <= c.base)
            && (r.Ok? <==> Network(c, ip) == Network(c, c.base) && cidr in subnets
                           && c.base < ip <= c.base + |subnets[cidr]| && subnets[cidr][ip - c.base - 1])
            && (!r.Ok? ==> subnets' == subnets)
  {
    IndexReplies(c, ip);
    ReleaseAt(parse, subnets, cidr, c, ip, IpToIndex(c, ip));
  }

  /** A specific address is refused for an unknown subnet, beyond the bitmap and when its
      bit is set, and panics exactly when a clear bit stands for no address. */
  lemma SpecificReplies(parse: Parser, subnets: Subnets, cidr: string, c: Cidr, index: nat)
    requires parse(cidr) == Some(c)
    ensures var (subnets', r) := AllocatingSpecific(parse, subnets, cidr, index);
            && (r == Err("Subnet not found") <==> cidr !in subnets)
            && (r == Err("IP out of range") <==> cidr in subnets && index >= |subnets[cidr]|)
            && (r == Err("IP already allocated") <==> cidr in subnets && index < |subnets[cidr]| && subnets[cidr][index])
            && (r.Panic? <==> cidr in subnets && index < |subnets[cidr]| && !subnets[cidr][index]
                              && (c.prefix == 0 || Network(c, c.base) + index + 1 >= U32))
            && (r.Err? ==> subnets' == subnets)
  {
    AddressReplies(parse, cidr, c, index + 1);
  }

  /** Text that does not parse is refused throughout. Only for a bitmap that a file put
      under such a text does an allocation take a bit before it fails. */
  lemma UnparsedReplies(parse: Parser, subnets: Subnets, cidr: string, index: nat, ip: u32)
    requires parse(cidr).None?
    ensures Releasing(parse, subnets, cidr, ip) == (subnets, Err("Invalid CIDR"))
    ensures Adding(parse, subnets, cidr) == (subnets, Err(if cidr in subnets then "Subnet already exists" else "Invalid CIDR"))
    ensures Allocating(parse, subnets, cidr).1.Err? && AllocatingSpecific(parse, subnets, cidr, index).1.Err?
    ensures cidr !in subnets ==> Allocating(parse, subnets, cidr) == (subnets, Err("Subnet not found"))
    ensures cidr !in subnets ==> AllocatingSpecific(parse, subnets, cidr, index) == (subnets, Err("Subnet not found"))
  {
  }

  /** Under prefix 0 every release panics, as the shift does. */
  lemma ReleasePrefix0(parse: Parser, subnets: Subnets, cidr: string, ip: u32)
    requires parse(cidr).Some? && parse(cidr).value.prefix == 0
    ensures Releasing(parse, subnets, cidr, ip) == (subnets, Panic)
  {
  }

  // ---- Repeated calls ----

  lemma AddTwice(parse: Parser, subnets: Subnets, cidr: string)
    ensures var (subnets', r) := Adding(parse, subnets, cidr);
            r.Ok? ==> Adding(parse, subnets', cidr) == (subnets', Err("Subnet already exists"))
  {
  }

  /** A specific address, so also the gateway, is handed out once. */
  lemma SpecificTwice(parse: Parser, subnets: Subnets, cidr: string, index: nat)
    ensures var (subnets', r) := AllocatingSpecific(parse, subnets, cidr, index);
            r.Ok? ==> AllocatingSpecific(parse, subnets', cidr, index) == (subnets', Err("IP already allocated"))
  {
  }

  /** A second release of the same address is refused, and so is one of an address that was
      never handed out. */
  lemma ReleaseTwice(parse: Parser, subnets: Subnets, cidr: string, ip: u32)
    ensures var (subnets', r) := Releasing(parse, subnets, cidr, ip);
            r.Ok? ==> Releasing(parse, subnets', cidr, ip) == (subnets', Err("IP not allocated"))
  {
  }

  lemma ReleaseErrors(parse: Parser, subnets: Subnets, cidr: string, c: Cidr, ip: u32, index: Outcome<nat>)
    requires parse(cidr) == Some(c) && IpToIndex(c, ip) == index && cidr in subnets
    requires index.Err? ==> index == Err("IP not in subnet")
    ensures var r := Releasing(parse, subnets, cidr, ip).1;
            && (r == Err("IP not in subnet") <==> index.Err?)
            && (r.Panic? <==> index.Panic?)
            && (r == Err("IP out of range") <==> index.Ok? && index.value >= |subnets[cidr]|)
            && (r == Err("IP not allocated") <==>
                  index.Ok? && index.value < |subnets[cidr]| && !subnets[cidr][index.value])
  {
  }

  lemma IndexErrors(c: Cidr, ip: u32)
    requires 1 <= c.prefix <= 31 && Canonical(c)
    ensures IpToIndex(c, ip).Err? <==> ip < c.base || ip >= c.base + Size(c)
    ensures IpToIndex(c, ip).Err? ==> IpToIndex(c, ip) == Err("IP not in subnet")
    ensures IpToIndex(c, ip).Panic? <==> ip == c.base
    ensures IpToIndex(c, ip).Ok? ==> c.base < ip < c.base + Size(c) && IpToIndex(c, ip).value == ip - c.base - 1
  {
    IndexOfAddress(c, ip);
    if c.base <= ip < c.base + Size(c) {
      OffsetInBlock(c, c.base, ip - c.base);
    }
  }

  /** In every run: exactly why a release was refused. */
  lemma WhyRefused(parse: Parser, w: World, cidr: string, c: Cidr, ip: u32)
    requires Tracks(parse, w) && cidr in w.subnets && parse(cidr) == Some(c)
    ensures var r := Releasing(parse, w.subnets, cidr, ip).1;
            && (r == Err("IP not in subnet") <==> ip < c.base || ip >= c.base + Size(c))
            && (r.Panic? <==> ip == c.base)
            && (r == Err("IP out of range") <==> c.base + |w.subnets[cidr]| < ip < c.base + Size(c))
            && (r == Err("IP not allocated") <==>
                  Reaches(c, w.subnets[cidr], ip) && ip < c.base + Size(c) && (cidr, ip) !in w.outstanding)
  {
    assert Registered(parse, w, cidr) && BitsMatch(parse, w, cidr);
    IndexErrors(c, ip);
    ReleaseErrors(parse, w.subnets, cidr, c, ip, IpToIndex(c, ip));
  }
}
