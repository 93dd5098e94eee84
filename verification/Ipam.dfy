/** The address allocator: one bitmap of hosts per CIDR (src/core/network/ipam.rs:20-89).
    A subnet is known by its CIDR text; parsing the text is a parameter. */
module Ipam {
  import opened Metas
  import opened Ipv4

  /** `parse_cidr`: nothing for malformed text. */
  type Parser = string -> Option<Cidr>

  type Subnets = map<string, seq<bool>>

  /** The capacity `add_subnet` computes: `2.pow(32 - prefix) - 2` in u32, which overflows
      for prefixes 0 and 32. */
  function Capacity(c: Cidr): Outcome<nat> {
    if c.prefix == 0 || c.prefix == 32 then Panic
    else
      assert Pow2(32 - c.prefix) >= 2;
      Ok(Size(c) - 2)
  }

  /** The bitmap of an untouched subnet. */
  function Free(total: nat): (bits: seq<bool>)
    ensures |bits| == total && forall k | 0 <= k < total :: !bits[k]
  {
    seq(total, _ => false)
  }

  function FirstZero(bits: seq<bool>): (r: Option<nat>)
    ensures r.Some? ==> r.value < |bits| && !bits[r.value] && forall k | 0 <= k < r.value :: bits[k]
    ensures r.None? <==> forall k | 0 <= k < |bits| :: bits[k]
  {
    if bits == [] then None
    else if !bits[0] then Some(0)
    else
      var rest := FirstZero(bits[1..]);
      assert forall k | 0 < k < |bits| :: bits[k] == bits[1..][k - 1];
      if rest.None? then None else Some(rest.value + 1)
  }

  function Address(parse: Parser, cidr: string, index: nat): Outcome<u32> {
    match parse(cidr)
    case None => Err("Invalid CIDR")
    case Some(c) => CalculateIp(c, index)
  }

  // ---- The four operations as functions of the bitmaps ----

  function Adding(parse: Parser, subnets: Subnets, cidr: string): (Subnets, Outcome<()>) {
    if cidr in subnets then (subnets, Err("Subnet already exists"))
    else match parse(cidr)
      case None => (subnets, Err("Invalid CIDR"))
      case Some(c) =>
        match Capacity(c)
        case Ok(total) => (subnets[cidr := Free(total)], Ok(()))
        case _ => (subnets, Panic)
  }

  function Allocating(parse: Parser, subnets: Subnets, cidr: string): (Subnets, Outcome<u32>) {
    if cidr !in subnets then (subnets, Err("Subnet not found"))
    else match FirstZero(subnets[cidr])
      case None => (subnets, Err("No available IP"))
      case Some(pos) => (subnets[cidr := subnets[cidr][pos := true]], Address(parse, cidr, pos + 1))
  }

  function AllocatingSpecific(parse: Parser, subnets: Subnets, cidr: string, index: nat): (Subnets, Outcome<u32>) {
    if cidr !in subnets then (subnets, Err("Subnet not found"))
    else if index >= |subnets[cidr]| then (subnets, Err("IP out of range"))
    else if subnets[cidr][index] then (subnets, Err("IP already allocated"))
    else (subnets[cidr := subnets[cidr][index := true]], Address(parse, cidr, index + 1))
  }

  function Releasing(parse: Parser, subnets: Subnets, cidr: string, ip: u32): (Subnets, Outcome<()>) {
    match parse(cidr)
    case None => (subnets, Err("Invalid CIDR"))
    case Some(c) =>
      match IpToIndex(c, ip)
      case Panic => (subnets, Panic)
      case Err(e) => (subnets, Err(e))
      case Ok(pos) =>
        if cidr !in subnets then (subnets, Err("Subnet not found"))
        else if pos >= |subnets[cidr]| then (subnets, Err("IP out of range"))
        else if !subnets[cidr][pos] then (subnets, Err("IP not allocated"))
        else (subnets[cidr := subnets[cidr][pos := false]], Ok(()))
  }

  class IPAM {
    const parse: Parser
    var subnets: Subnets

    constructor (parse: Parser, subnets: Subnets)
      ensures this.parse == parse && this.subnets == subnets
    {
      this.parse, this.subnets := parse, subnets;
    }

    method AddSubnet(cidr: string) returns (r: Outcome<()>)
      modifies this
      ensures (subnets, r) == Adding(parse, old(subnets), cidr)
    {
      if cidr in subnets {
        return Err("Subnet already exists");
      }
      var parsed := parse(cidr);
      if parsed.None? {
        return Err("Invalid CIDR");
      }
      var total := Capacity(parsed.value);
      if !total.Ok? {
        return Panic;
      }
      subnets := subnets[cidr := Free(total.value)];
      return Ok(());
    }

    method AllocateIp(cidr: string) returns (r: Outcome<u32>)
      modifies this
      ensures (subnets, r) == Allocating(parse, old(subnets), cidr)
    {
      if cidr !in subnets {
        return Err("Subnet not found");
      }
      var bitmap := subnets[cidr];
      match FirstZero(bitmap) {
        case Some(pos) =>
          bitmap := bitmap[pos := true];
          subnets := subnets[cidr := bitmap];
          return Address(parse, cidr, pos + 1);
        case None =>
          return Err("No available IP");
      }
    }

    method AllocateGateway(cidr: string) returns (r: Outcome<u32>)
      modifies this
      ensures (subnets, r) == AllocatingSpecific(parse, old(subnets), cidr, 0)
    {
      r := AllocateSpecificIp(cidr, 0);
    }

    method AllocateSpecificIp(cidr: string, index: nat) returns (r: Outcome<u32>)
      modifies this
      ensures (subnets, r) == AllocatingSpecific(parse, old(subnets), cidr, index)
    {
      if cidr !in subnets {
        return Err("Subnet not found");
      }
      var bitmap := subnets[cidr];
      if index >= |bitmap| {
        return Err("IP out of range");
      }
      if bitmap[index] {
        return Err("IP already allocated");
      }
      bitmap := bitmap[index := true];
      subnets := subnets[cidr := bitmap];
      return Address(parse, cidr, index + 1);
    }

    method ReleaseIp(cidr: string, ip: u32) returns (r: Outcome<()>)
      modifies this
      ensures (subnets, r) == Releasing(parse, old(subnets), cidr, ip)
    {
      var parsed := parse(cidr);
      if parsed.None? {
        return Err("Invalid CIDR");
      }
      var pos := IpToIndex(parsed.value, ip);
      match pos {
        case Panic => return Panic;
        case Err(e) => return Err(e);
        case Ok(p) =>
          if cidr !in subnets {
            return Err("Subnet not found");
          }
          var bitmap := subnets[cidr];
          if p >= |bitmap| {
            return Err("IP out of range");
          }
          if !bitmap[p] {
            return Err("IP not allocated");
          }
          bitmap := bitmap[p := false];
          subnets := subnets[cidr := bitmap];
          return Ok(());
      }
    }
  }
}
