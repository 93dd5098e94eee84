/** Saving and reloading the bitmaps as whole bytes (src/core/network/ipam.rs:133-159).
    A bitmap's last byte may have bits beyond its length; reloading takes them in. */
module BitmapFile {
  import opened Metas
  import opened Framing
  import opened Ipv4
  import opened Ipam
  import opened Arithmetic

  /** Bits to a number, least significant first. */
  function FromBits(bits: seq<bool>): nat {
    if bits == [] then 0 else (if bits[0] then 1 else 0) + 2 * FromBits(bits[1..])
  }

  function ToBits(n: nat, width: nat): (bits: seq<bool>)
    ensures |bits| == width
  {
    if width == 0 then [] else [n % 2 == 1] + ToBits(n / 2, width - 1)
  }

  lemma {:induction false} BitsRoundTrip(bits: seq<bool>)
    ensures ToBits(FromBits(bits), |bits|) == bits
    ensures FromBits(bits) < Pow2(|bits|)
  {
    if bits == [] {
    } else {
      BitsRoundTrip(bits[1..]);
      assert FromBits(bits) / 2 == FromBits(bits[1..]);
    }
  }

  /** The raw bytes of whole bytes' worth of bits. */
  function Pack(bits: seq<bool>): seq<byte>
    requires |bits| % 8 == 0
  {
    if bits == [] then []
    else
      BitsRoundTrip(bits[..8]);
      assert Pow2(8) == 256;
      [FromBits(bits[..8])] + Pack(bits[8..])
  }

  function Unpack(bytes: seq<byte>): seq<bool> {
    if bytes == [] then [] else ToBits(bytes[0], 8) + Unpack(bytes[1..])
  }

  lemma {:induction false} UnpackPack(bits: seq<bool>)
    requires |bits| % 8 == 0
    ensures Unpack(Pack(bits)) == bits
  {
    if bits == [] {
    } else {
      BitsRoundTrip(bits[..8]);
      assert Pack(bits)[1..] == Pack(bits[8..]);
      UnpackPack(bits[8..]);
      assert bits == bits[..8] + bits[8..];
    }
  }

  lemma {:induction false} BitOfNumber(bits: seq<bool>, k: nat)
    requires k < |bits|
    ensures FromBits(bits) / Pow2(k) % 2 == if bits[k] then 1 else 0
  {
    if k == 0 {
    } else {
      var n, rest := FromBits(bits), FromBits(bits[1..]);
      BitOfNumber(bits[1..], k - 1);
      assert n / 2 == rest;
      DivideTwice(n, 2, Pow2(k - 1));
      assert n / Pow2(k) == rest / Pow2(k - 1);
    }
  }

  lemma {:induction false} PackLength(bits: seq<bool>)
    requires |bits| % 8 == 0
    ensures 8 * |Pack(bits)| == |bits|
  {
    if bits == [] {
    } else {
      PackLength(bits[8..]);
    }
  }

  /** Byte `j` holds the bits from `8 * j` on, the first of them least significant. */
  lemma {:induction false} BitPlace(bits: seq<bool>, j: nat, i: nat)
    requires |bits| % 8 == 0 && 8 * j < |bits| && i < 8
    ensures 8 * |Pack(bits)| == |bits|
    ensures Pack(bits)[j] / Pow2(i) % 2 == if bits[8 * j + i] then 1 else 0
    decreases j
  {
    PackLength(bits);
    if j == 0 {
      BitOfNumber(bits[..8], i);
    } else {
      BitPlace(bits[8..], j - 1, i);
      assert Pack(bits)[1..] == Pack(bits[8..]);
      assert bits[8..][8 * (j - 1) + i] == bits[8 * j + i];
    }
  }

  /** The bits of the last byte beyond the bitmap's length. */
  function DeadBits(length: nat): (n: nat)
    ensures n < 8 && (length + n) % 8 == 0
  {
    (8 - length % 8) % 8
  }

  /** `as_raw_slice`, with whatever the dead bits hold. */
  function Save(bits: seq<bool>, dead: seq<bool>): seq<byte>
    requires |dead| == DeadBits(|bits|)
  {
    Pack(bits + dead)
  }

  /** Reloading keeps every bit and rounds the length up to a multiple of 8; saving what
      was reloaded changes nothing more. */
  lemma ReloadRoundsUp(bits: seq<bool>, dead: seq<bool>)
    requires |dead| == DeadBits(|bits|)
    ensures var reloaded := Unpack(Save(bits, dead));
            && reloaded == bits + dead
            && |reloaded| % 8 == 0 && |bits| <= |reloaded| < |bits| + 8
            && reloaded[..|bits|] == bits
            && DeadBits(|reloaded|) == 0 && Unpack(Save(reloaded, [])) == reloaded
  {
    UnpackPack(bits + dead);
    assert bits + dead + [] == bits + dead;
  }

  /** The bytes of a bitmap whose dead bits are zero, as in one `add_subnet` made. */
  function Image(bits: seq<bool>): seq<byte> {
    Save(bits, Free(DeadBits(|bits|)))
  }

  function Padded(bits: seq<bool>): seq<bool> {
    bits + Free(DeadBits(|bits|))
  }

  function PaddedSubnets(subnets: Subnets): Subnets {
    map cidr | cidr in subnets :: Padded(subnets[cidr])
  }

  lemma ImageReadsBack(bits: seq<bool>)
    ensures Unpack(Image(bits)) == Padded(bits)
  {
    ReloadRoundsUp(bits, Free(DeadBits(|bits|)));
  }

  /** The bitmap has a bit per host, plus the dead bits once it has been reloaded. */
  predicate Sized(c: Cidr, bits: seq<bool>)
    requires c.prefix <= 31
  {
    var hosts := Size(c) - 2;
    hosts >= 0 && |bits| in {hosts, hosts + DeadBits(hosts)}
  }

  lemma SizedReload(c: Cidr, bits: seq<bool>)
    requires c.prefix <= 31 && Sized(c, bits)
    ensures Sized(c, Padded(bits))
  {
    assert |bits| == Size(c) - 2 || |bits| % 8 == 0;
  }

  lemma Eighth(k: nat)
    requires k > 0
    ensures DeadBits(8 * k - 2) == 2
  {
  }

  /** The dead bits of a /30 stand for six addresses more, those of a larger network for
      two; the /31 has no bits at all. */
  lemma SizedLength(c: Cidr, bits: seq<bool>)
    requires c.prefix <= 31 && Sized(c, bits)
    ensures c.prefix == 31 ==> |bits| == 0
    ensures c.prefix == 30 ==> Size(c) == 4 && |bits| in {2, 8}
    ensures c.prefix <= 29 ==> Size(c) >= 8 && |bits| in {Size(c) - 2, Size(c)}
  {
    if c.prefix <= 29 {
      assert Pow2(32 - c.prefix) == 8 * Pow2(29 - c.prefix) by {
        Quadruple(32 - c.prefix);
      }
      Eighth(Pow2(29 - c.prefix));
    } else {
      assert Pow2(1) == 2 && Pow2(2) == 4;
    }
  }

  lemma {:induction false} FirstZeroAppend(bits: seq<bool>, more: seq<bool>)
    ensures FirstZero(bits).Some? ==> FirstZero(bits + more) == FirstZero(bits)
    ensures FirstZero(bits).None? ==>
              FirstZero(bits + more) == if FirstZero(more).None? then None else Some(|bits| + FirstZero(more).value)
  {
    if bits == [] {
      assert bits + more == more;
    } else if bits[0] {
      assert (bits + more)[1..] == bits[1..] + more;
      FirstZeroAppend(bits[1..], more);
    }
  }

  /** A subnet as `add_subnet` makes it, and the same subnet after a restart. */
  ghost predicate Reloads(parse: Parser, subnets: Subnets, reloaded: Subnets, cidr: string, dead: seq<bool>) {
    && cidr in subnets && cidr in reloaded && parse(cidr).Some?
    && 1 <= parse(cidr).value.prefix <= 31
    && |subnets[cidr]| == Size(parse(cidr).value) - 2
    && |dead| == DeadBits(|subnets[cidr]|)
    && reloaded[cidr] == Unpack(Save(subnets[cidr], dead))
  }

  /** After a restart the allocator gives the same next address in every state that still
      has a free host, and only then: with no host left, the original refuses, while the
      reloaded one goes on to whatever the dead bits leave free. */
  lemma ReloadKeepsNextAddress(parse: Parser, subnets: Subnets, reloaded: Subnets, cidr: string, dead: seq<bool>)
    requires Reloads(parse, subnets, reloaded, cidr, dead)
    ensures Allocating(parse, reloaded, cidr).1 == Allocating(parse, subnets, cidr).1
       <==> FirstZero(subnets[cidr]).Some? || FirstZero(dead).None?
  {
    var c, bits := parse(cidr).value, subnets[cidr];
    UnpackPack(bits + dead);
    FirstZeroAppend(bits, dead);
    if FirstZero(bits).Some? {
      AddressOfBit(c, FirstZero(bits).value);
    }
  }

  lemma ZeroAt(bits: seq<bool>, k: nat)
    requires k < |bits| && !bits[k] && forall i | 0 <= i < k :: bits[i]
    ensures FirstZero(bits) == Some(k)
  {
  }

  lemma AddressAt(parse: Parser, cidr: string, c: Cidr, index: nat)
    requires parse(cidr) == Some(c) && c.prefix >= 1
    ensures Address(parse, cidr, index) ==
      var ip := Network(c, c.base) + index;
      if ip < U32 then Ok(ip) else Panic
  {
    AddressOfIndex(c, index);
  }

  lemma AllocatesAt(parse: Parser, subnets: Subnets, cidr: string, pos: nat)
    requires cidr in subnets && FirstZero(subnets[cidr]) == Some(pos)
    ensures Allocating(parse, subnets, cidr)
         == (subnets[cidr := subnets[cidr][pos := true]], Address(parse, cidr, pos + 1))
  {
  }

  /** The dead bits are zero in a bitmap `add_subnet` made, and there are at least two for
      every prefix up to 30: after a restart a full subnet hands out its broadcast address,
      and then the first address of the range behind it, or panics at the end of the
      address space. */
  lemma FullReloadHandsOutBroadcast(parse: Parser, subnets: Subnets, reloaded: Subnets, cidr: string, dead: seq<bool>)
    requires Reloads(parse, subnets, reloaded, cidr, dead) && parse(cidr).value.prefix <= 30
    requires FirstZero(subnets[cidr]).None? && forall k | 0 <= k < |dead| :: !dead[k]
    ensures Allocating(parse, subnets, cidr).1.Err?
    ensures var c := parse(cidr).value;
            var past := Network(c, c.base) + Size(c);
            var (taken, first) := Allocating(parse, reloaded, cidr);
            first == Ok(past - 1) && Allocating(parse, taken, cidr).1 == if past < U32 then Ok(past) else Panic
  {
    var c, bits := parse(cidr).value, subnets[cidr];
    TwoDeadBits(c, |bits|);
    FirstDeadBits(bits, dead);
    BlockFits(c, c.base);
    AllocatesAt(parse, reloaded, cidr, |bits|);
    AllocatesAt(parse, Allocating(parse, reloaded, cidr).0, cidr, |bits| + 1);
    AddressAt(parse, cidr, c, |bits| + 1);
    AddressAt(parse, cidr, c, |bits| + 2);
  }

  lemma FirstDeadBits(bits: seq<bool>, dead: seq<bool>)
    requires |dead| == DeadBits(|bits|) >= 2 && FirstZero(bits).None? && !dead[0] && !dead[1]
    ensures var reloaded := Unpack(Save(bits, dead));
            && |reloaded| > |bits| + 1
            && FirstZero(reloaded) == Some(|bits|)
            && FirstZero(reloaded[|bits| := true]) == Some(|bits| + 1)
  {
    UnpackPack(bits + dead);
    ZeroAt(bits + dead, |bits|);
    ZeroAt((bits + dead)[|bits| := true], |bits| + 1);
  }

  lemma TwoDeadBits(c: Cidr, hosts: nat)
    requires c.prefix <= 30 && hosts == Size(c) - 2
    ensures DeadBits(hosts) >= 2
  {
    SizeWithRoom(c);
    DeadOfTwoModuloFour(hosts, hosts / 4);
  }

  lemma DeadOfTwoModuloFour(n: nat, k: nat)
    requires n == 4 * k + 2
    ensures DeadBits(n) >= 2
  {
    if k % 2 == 0 {
      assert n == 8 * (k / 2) + 2;
    } else {
      assert n == 8 * (k / 2) + 6;
    }
  }

  // ---- The two loops over the map ----

  method SerializeSubnets(subnets: Subnets) returns (files: map<string, seq<byte>>)
    ensures files == map cidr | cidr in subnets :: Image(subnets[cidr])
  {
    files := map[];
    var rest := subnets.Keys;
    while rest != {}
      invariant rest <= subnets.Keys && files.Keys == subnets.Keys - rest
      invariant forall cidr | cidr in files :: files[cidr] == Image(subnets[cidr])
      decreases rest
    {
      var cidr :| cidr in rest;
      files := files[cidr := Image(subnets[cidr])];
      rest := rest - {cidr};
    }
  }

  method DeserializeSubnets(files: map<string, seq<byte>>) returns (subnets: Subnets)
    ensures subnets == map cidr | cidr in files :: Unpack(files[cidr])
  {
    subnets := map[];
    var rest := files.Keys;
    while rest != {}
      invariant rest <= files.Keys && subnets.Keys == files.Keys - rest
      invariant forall cidr | cidr in subnets :: subnets[cidr] == Unpack(files[cidr])
      decreases rest
    {
      var cidr :| cidr in rest;
      subnets := subnets[cidr := Unpack(files[cidr])];
      rest := rest - {cidr};
    }
  }
}
