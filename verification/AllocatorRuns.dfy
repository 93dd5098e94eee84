/** Whole runs of the allocator, restarts included, against the set of addresses handed out
    and not yet released, which is kept from the replies alone and never looks at a bitmap. */
module AllocatorRuns {
  import opened Metas
  import opened Ipv4
  import opened Ipam
  import opened BitmapFile

  datatype Call =
    | AddCall(cidr: string)
    | AllocateCall(cidr: string)
    | GatewayCall(cidr: string)
    | ReleaseCall(cidr: string, ip: u32)

  /** `outstanding` holds (CIDR, address) pairs. */
  datatype World = World(subnets: Subnets, outstanding: set<(string, u32)>)

  const FRESH := World(map[], {})

  function Hand(w: World, cidr: string, reply: (Subnets, Outcome<u32>)): World {
    World(reply.0, if reply.1.Ok? then w.outstanding + {(cidr, reply.1.value)} else w.outstanding)
  }

  function AfterCall(parse: Parser, w: World, call: Call): World {
    match call
    case AddCall(cidr) => w.(subnets := Adding(parse, w.subnets, cidr).0)
    case AllocateCall(cidr) => Hand(w, cidr, Allocating(parse, w.subnets, cidr))
    case GatewayCall(cidr) => Hand(w, cidr, AllocatingSpecific(parse, w.subnets, cidr, 0))
    case ReleaseCall(cidr, ip) =>
      var (subnets, r) := Releasing(parse, w.subnets, cidr, ip);
      World(subnets, if r.Ok? then w.outstanding - {(cidr, ip)} else w.outstanding)
  }

  /** The running allocator, and the one last saved. */
  datatype Daemon = Daemon(now: World, saved: World)

  const STARTED := Daemon(FRESH, FRESH)

  datatype Step = CallStep(call: Call) | SaveStep | ReloadStep

  /** A restart reads the saved bitmaps back; the callers keep their addresses. */
  function AfterStep(parse: Parser, d: Daemon, step: Step): Daemon {
    match step
    case CallStep(call) => d.(now := AfterCall(parse, d.now, call))
    case SaveStep => d.(saved := d.now)
    case ReloadStep => d.(now := World(PaddedSubnets(d.saved.subnets), d.now.outstanding))
  }

  function AfterSteps(parse: Parser, d: Daemon, steps: seq<Step>): Daemon
    decreases |steps|
  {
    if steps == [] then d else AfterSteps(parse, AfterStep(parse, d, steps[0]), steps[1..])
  }

  /** The CIDRs that parse have no host bits set. */
  ghost predicate AllCanonical(parse: Parser, steps: seq<Step>) {
    forall step | step in steps && step.CallStep? ::
      parse(step.call.cidr).Some? ==> Canonical(parse(step.call.cidr).value)
  }

  /** A registered subnet, padded or not. */
  ghost predicate Registered(parse: Parser, w: World, cidr: string) {
    && cidr in w.subnets
    && parse(cidr).Some?
    && var c := parse(cidr).value;
       1 <= c.prefix <= 31 && Canonical(c) && Sized(c, w.subnets[cidr])
  }

  /** The addresses the bitmap of a canonical CIDR has bits for. */
  predicate Reaches(c: Cidr, bits: seq<bool>, ip: nat) {
    c.base < ip <= c.base + |bits|
  }

  /** The set bits of a subnet are its outstanding addresses. */
  ghost predicate BitsMatch(parse: Parser, w: World, cidr: string)
    requires Registered(parse, w, cidr)
  {
    var c := parse(cidr).value;
    forall ip: u32 | Reaches(c, w.subnets[cidr], ip) ::
      w.subnets[cidr][ip - c.base - 1] <==> (cidr, ip) in w.outstanding
  }

  /** The bitmaps and the set agree, and every outstanding address has a bit. */
  ghost predicate Tracks(parse: Parser, w: World) {
    && (forall cidr | cidr in w.subnets :: Registered(parse, w, cidr) && BitsMatch(parse, w, cidr))
    && (forall x | x in w.outstanding :: x.0 in w.subnets && Reaches(parse(x.0).value, w.subnets[x.0], x.1))
  }

  /** A bitmap that was never reloaded reaches exactly the hosts; every bitmap reaches them. */
  lemma ReachesHosts(c: Cidr, bits: seq<bool>, ip: nat)
    requires c.prefix <= 31 && Canonical(c) && Sized(c, bits)
    ensures IsHost(c, ip) ==> Reaches(c, bits, ip)
    ensures |bits| == Size(c) - 2 && Reaches(c, bits, ip) ==> IsHost(c, ip)
    ensures Reaches(c, bits, c.base + 1) ==> IsHost(c, c.base + 1)
  {
    SizedLength(c, bits);
  }

  /** `ip_to_index` stops at the network's end, wherever the bitmap does. */
  lemma IndexWithin(c: Cidr, ip: u32)
    requires 1 <= c.prefix <= 31 && Canonical(c)
    ensures c.base < ip < c.base + Size(c) ==> IpToIndex(c, ip) == Ok(ip - c.base - 1)
    ensures IpToIndex(c, ip).Ok? ==> c.base < ip < c.base + Size(c)
    ensures ip >= c.base + Size(c) ==> IpToIndex(c, ip) == Err("IP not in subnet")
  {
    IndexOfAddress(c, ip);
    if c.base < ip < c.base + Size(c) {
      OffsetInBlock(c, c.base, ip - c.base);
    }
  }

  lemma CanonicalMask(c: Cidr)
    requires c.prefix >= 1 && Canonical(c)
    ensures Masked(c, c.base) == c.base
  {
    MaskRoundsDown(c, c.base);
  }

  lemma AddressFrom(c: Cidr, base: nat, index: nat)
    requires c.prefix >= 1 && Masked(c, c.base) == base
    ensures CalculateIp(c, index) == if base + index < U32 then Ok(base + index) else Panic
  {
  }

  lemma CanonicalAddress(c: Cidr, index: nat)
    requires c.prefix >= 1 && Canonical(c)
    ensures CalculateIp(c, index) == if c.base + index < U32 then Ok(c.base + index) else Panic
  {
    CanonicalMask(c);
    AddressFrom(c, c.base, index);
  }

  lemma BitAddress(parse: Parser, cidr: string, pos: nat)
    requires parse(cidr).Some? && parse(cidr).value.prefix >= 1 && Canonical(parse(cidr).value)
    ensures var ip := parse(cidr).value.base + pos + 1;
            Address(parse, cidr, pos + 1) == if ip < U32 then Ok(ip) else Panic
  {
    CanonicalAddress(parse(cidr).value, pos + 1);
  }

  // ---- One call ----

  lemma TracksAdd(parse: Parser, w: World, cidr: string)
    requires Tracks(parse, w) && (parse(cidr).Some? ==> Canonical(parse(cidr).value))
    ensures Tracks(parse, AfterCall(parse, w, AddCall(cidr)))
  {
    var w' := AfterCall(parse, w, AddCall(cidr));
    forall d | d in w'.subnets
      ensures Registered(parse, w', d) && BitsMatch(parse, w', d)
    {
      if d in w.subnets {
        assert Registered(parse, w, d) && BitsMatch(parse, w, d);
      } else {
        var c := parse(cidr).value;
        forall ip: u32 | Reaches(c, w'.subnets[d], ip)
          ensures !w'.subnets[d][ip - c.base - 1] && (cidr, ip) !in w.outstanding
        {
        }
      }
    }
  }

  /** One bit and the same address change together; nothing else about the subnet does. */
  lemma FlipMatches(parse: Parser, w: World, w': World, cidr: string, pos: nat, value: bool)
    requires Registered(parse, w, cidr) && BitsMatch(parse, w, cidr) && pos < |w.subnets[cidr]|
    requires cidr in w'.subnets && w'.subnets[cidr] == w.subnets[cidr][pos := value]
    requires forall ip: u32 :: (cidr, ip) in w'.outstanding <==>
               if ip == parse(cidr).value.base + pos + 1 then value else (cidr, ip) in w.outstanding
    ensures Registered(parse, w', cidr) && BitsMatch(parse, w', cidr)
  {
    var c := parse(cidr).value;
    forall ip: u32 | Reaches(c, w'.subnets[cidr], ip)
      ensures w'.subnets[cidr][ip - c.base - 1] <==> (cidr, ip) in w'.outstanding
    {
      assert Reaches(c, w.subnets[cidr], ip);
    }
  }

  lemma UntouchedMatches(parse: Parser, w: World, w': World, cidr: string)
    requires Registered(parse, w, cidr) && BitsMatch(parse, w, cidr)
    requires cidr in w'.subnets && w'.subnets[cidr] == w.subnets[cidr]
    requires forall ip: u32 :: (cidr, ip) in w'.outstanding <==> (cidr, ip) in w.outstanding
    ensures Registered(parse, w', cidr) && BitsMatch(parse, w', cidr)
  {
  }

  /** The set with one address added or removed; numbers past the last address are none. */
  function Marked(outstanding: set<(string, u32)>, cidr: string, ip: nat, value: bool): set<(string, u32)> {
    if ip >= U32 then outstanding
    else if value then outstanding + {(cidr, ip)}
    else outstanding - {(cidr, ip)}
  }

  lemma TracksFlip(parse: Parser, w: World, cidr: string, pos: nat, value: bool)
    requires Tracks(parse, w) && cidr in w.subnets && pos < |w.subnets[cidr]|
    ensures Tracks(parse, World(w.subnets[cidr := w.subnets[cidr][pos := value]],
                                Marked(w.outstanding, cidr, parse(cidr).value.base + pos + 1, value)))
  {
    var w' := World(w.subnets[cidr := w.subnets[cidr][pos := value]],
                    Marked(w.outstanding, cidr, parse(cidr).value.base + pos + 1, value));
    forall d | d in w'.subnets
      ensures Registered(parse, w', d) && BitsMatch(parse, w', d)
    {
      assert Registered(parse, w, d) && BitsMatch(parse, w, d);
      if d == cidr {
        FlipMatches(parse, w, w', cidr, pos, value);
      } else {
        UntouchedMatches(parse, w, w', d);
      }
    }
  }

  /** Setting a free bit hands out a fresh address, or panics past the last one. */
  lemma TracksSet(parse: Parser, w: World, cidr: string, pos: nat)
    requires Tracks(parse, w) && cidr in w.subnets && pos < |w.subnets[cidr]| && !w.subnets[cidr][pos]
    ensures var reply := (w.subnets[cidr := w.subnets[cidr][pos := true]], Address(parse, cidr, pos + 1));
            && (reply.1.Ok? ==> (cidr, reply.1.value) !in w.outstanding)
            && Tracks(parse, Hand(w, cidr, reply))
  {
    BitAddress(parse, cidr, pos);
    assert BitsMatch(parse, w, cidr);
    TracksFlip(parse, w, cidr, pos, true);
  }

  lemma ReleasedBit(parse: Parser, w: World, cidr: string, ip: u32)
    requires Registered(parse, w, cidr) && Releasing(parse, w.subnets, cidr, ip).1.Ok?
    ensures var base := parse(cidr).value.base;
            && base < ip <= base + |w.subnets[cidr]|
            && AfterCall(parse, w, ReleaseCall(cidr, ip))
            == World(w.subnets[cidr := w.subnets[cidr][ip - base - 1 := false]], w.outstanding - {(cidr, ip)})
  {
    IndexWithin(parse(cidr).value, ip);
  }

  lemma RefusedRelease(parse: Parser, w: World, cidr: string, ip: u32)
    requires !Releasing(parse, w.subnets, cidr, ip).1.Ok?
    ensures AfterCall(parse, w, ReleaseCall(cidr, ip)) == w
  {
  }

  lemma TracksReleased(parse: Parser, w: World, cidr: string, ip: u32)
    requires Tracks(parse, w) && cidr in w.subnets && Registered(parse, w, cidr)
    requires Reaches(parse(cidr).value, w.subnets[cidr], ip)
    ensures var pos := ip - parse(cidr).value.base - 1;
            Tracks(parse, World(w.subnets[cidr := w.subnets[cidr][pos := false]], w.outstanding - {(cidr, ip)}))
  {
    TracksFlip(parse, w, cidr, ip - parse(cidr).value.base - 1, false);
  }

  lemma TracksClear(parse: Parser, w: World, cidr: string, ip: u32)
    requires Tracks(parse, w)
    ensures Tracks(parse, AfterCall(parse, w, ReleaseCall(cidr, ip)))
  {
    if Releasing(parse, w.subnets, cidr, ip).1.Ok? {
      assert Registered(parse, w, cidr);
      ReleasedBit(parse, w, cidr, ip);
      TracksReleased(parse, w, cidr, ip);
    } else {
      RefusedRelease(parse, w, cidr, ip);
    }
  }

  predicate HasFree(w: World, cidr: string) {
    cidr in w.subnets && FirstZero(w.subnets[cidr]).Some?
  }

  /** What an allocation does when there is a clear bit. */
  function Taken(parse: Parser, w: World, cidr: string): World
    requires HasFree(w, cidr)
  {
    var pos := FirstZero(w.subnets[cidr]).value;
    Hand(w, cidr, (w.subnets[cidr := w.subnets[cidr][pos := true]], Address(parse, cidr, pos + 1)))
  }

  lemma AllocatedBit(parse: Parser, w: World, cidr: string)
    ensures AfterCall(parse, w, AllocateCall(cidr)) == if HasFree(w, cidr) then Taken(parse, w, cidr) else w
  {
  }

  lemma TracksTaken(parse: Parser, w: World, cidr: string)
    requires Tracks(parse, w) && HasFree(w, cidr)
    ensures Tracks(parse, Taken(parse, w, cidr))
  {
    TracksSet(parse, w, cidr, FirstZero(w.subnets[cidr]).value);
  }

  lemma TracksAllocate(parse: Parser, w: World, cidr: string)
    requires Tracks(parse, w)
    ensures Tracks(parse, AfterCall(parse, w, AllocateCall(cidr)))
  {
    AllocatedBit(parse, w, cidr);
    if HasFree(w, cidr) {
      TracksTaken(parse, w, cidr);
    }
  }

  lemma TracksGateway(parse: Parser, w: World, cidr: string)
    requires Tracks(parse, w)
    ensures Tracks(parse, AfterCall(parse, w, GatewayCall(cidr)))
  {
    if cidr in w.subnets && 0 < |w.subnets[cidr]| && !w.subnets[cidr][0] {
      TracksSet(parse, w, cidr, 0);
    }
  }

  lemma TracksCall(parse: Parser, w: World, call: Call)
    requires Tracks(parse, w) && (parse(call.cidr).Some? ==> Canonical(parse(call.cidr).value))
    ensures Tracks(parse, AfterCall(parse, w, call))
  {
    match call
    case AddCall(cidr) => TracksAdd(parse, w, cidr);
    case AllocateCall(cidr) => TracksAllocate(parse, w, cidr);
    case GatewayCall(cidr) => TracksGateway(parse, w, cidr);
    case ReleaseCall(cidr, ip) => TracksClear(parse, w, cidr, ip);
  }

  // ---- A restart ----

  lemma PaddedAt(bits: seq<bool>, k: nat)
    requires k < |Padded(bits)|
    ensures Padded(bits)[k] <==> k < |bits| && bits[k]
  {
  }

  lemma PaddedMatches(parse: Parser, w: World, cidr: string)
    requires Tracks(parse, w) && cidr in w.subnets
    ensures var padded := World(PaddedSubnets(w.subnets), w.outstanding);
            Registered(parse, padded, cidr) && BitsMatch(parse, padded, cidr)
  {
    var c, bits := parse(cidr).value, w.subnets[cidr];
    assert Registered(parse, w, cidr) && BitsMatch(parse, w, cidr);
    SizedReload(c, bits);
    forall ip: u32 | Reaches(c, Padded(bits), ip)
      ensures Padded(bits)[ip - c.base - 1] <==> (cidr, ip) in w.outstanding
    {
      PaddedAt(bits, ip - c.base - 1);
      if !Reaches(c, bits, ip) {
        assert (cidr, ip) !in w.outstanding;
      }
    }
  }

  lemma PaddedTracks(parse: Parser, w: World)
    requires Tracks(parse, w)
    ensures Tracks(parse, World(PaddedSubnets(w.subnets), w.outstanding))
  {
    forall cidr | cidr in w.subnets
      ensures var padded := World(PaddedSubnets(w.subnets), w.outstanding);
              Registered(parse, padded, cidr) && BitsMatch(parse, padded, cidr)
    {
      PaddedMatches(parse, w, cidr);
    }
  }

  /** The bitmaps decide the set. */
  lemma TracksAgree(parse: Parser, v: World, w: World, cidr: string, ip: u32)
    requires Tracks(parse, v) && Tracks(parse, w) && v.subnets == w.subnets && (cidr, ip) in v.outstanding
    ensures (cidr, ip) in w.outstanding
  {
    assert BitsMatch(parse, v, cidr) && BitsMatch(parse, w, cidr);
  }

  /** A reload keeps bitmaps and set together if and only if the addresses outstanding now
      are the ones that were when the file was written. */
  lemma TracksReload(parse: Parser, d: Daemon)
    requires Tracks(parse, d.saved)
    ensures Tracks(parse, AfterStep(parse, d, ReloadStep).now) <==> d.now.outstanding == d.saved.outstanding
  {
    PaddedTracks(parse, d.saved);
    var v, w := World(PaddedSubnets(d.saved.subnets), d.saved.outstanding), AfterStep(parse, d, ReloadStep).now;
    if Tracks(parse, w) {
      forall x | x in v.outstanding
        ensures x in w.outstanding
      {
        TracksAgree(parse, v, w, x.0, x.1);
      }
      forall x | x in w.outstanding
        ensures x in v.outstanding
      {
        TracksAgree(parse, w, v, x.0, x.1);
      }
    }
  }

  // ---- Whole runs ----

  ghost predicate TracksThroughout(parse: Parser, d: Daemon, steps: seq<Step>)
    decreases |steps|
  {
    Tracks(parse, d.now) && (steps == [] || TracksThroughout(parse, AfterStep(parse, d, steps[0]), steps[1..]))
  }

  /** Every reload finds a file on which the outstanding addresses are those of that moment. */
  predicate CurrentThroughout(parse: Parser, d: Daemon, steps: seq<Step>)
    decreases |steps|
  {
    steps == []
    || ((steps[0].ReloadStep? ==> d.now.outstanding == d.saved.outstanding)
        && CurrentThroughout(parse, AfterStep(parse, d, steps[0]), steps[1..]))
  }

  /** In every run, however its calls, saves and reloads interleave, the addresses handed
      out and not released are exactly the set bits, if and only if no reload is stale. */
  lemma {:induction false} EveryRunTracks(parse: Parser, d: Daemon, steps: seq<Step>)
    requires Tracks(parse, d.now) && Tracks(parse, d.saved) && AllCanonical(parse, steps)
    ensures TracksThroughout(parse, d, steps) <==> CurrentThroughout(parse, d, steps)
    ensures CurrentThroughout(parse, d, steps) ==> Tracks(parse, AfterSteps(parse, d, steps).now)
    decreases |steps|
  {
    if steps == [] {
    } else {
      var next := AfterStep(parse, d, steps[0]);
      assert steps[0] in steps;
      match steps[0] {
        case CallStep(call) => TracksCall(parse, d.now, call);
        case SaveStep =>
        case ReloadStep => TracksReload(parse, d);
      }
      if Tracks(parse, next.now) {
        EveryRunTracks(parse, next, steps[1..]);
      }
    }
  }

  // ---- What that means for the callers ----

  predicate Disjoint(c: Cidr, d: Cidr) {
    Network(c, c.base) + Size(c) <= Network(d, d.base) || Network(d, d.base) + Size(d) <= Network(c, c.base)
  }

  /** A /30 and a network with hosts right behind it. */
  predicate Behind(c: Cidr, d: Cidr) {
    c.prefix == 30 && d.prefix <= 30 && d.base == c.base + 4
  }

  predicate Neighbours(c: Cidr, d: Cidr) {
    Behind(c, d) || Behind(d, c)
  }

  lemma {:induction false} MultipleOfFour(x: nat, k: nat)
    requires k > 0 && Remainder(x, 4 * k) == 0
    ensures x % 4 == 0
  {
    if x < 4 * k {
    } else {
      MultipleOfFour(x - 4 * k, k);
    }
  }

  lemma BaseOfFour(c: Cidr)
    requires c.prefix <= 30 && Canonical(c)
    ensures c.base % 4 == 0
  {
    Quadruple(32 - c.prefix);
    MultipleOfFour(c.base, Pow2(30 - c.prefix));
  }

  lemma NextOfFour(x: nat, y: nat)
    requires x % 4 == 0 && y % 4 == 0 && x + 4 <= y < x + 8
    ensures y == x + 4
  {
  }

  /** Only the bitmap of a reloaded /30 reaches behind the first address after its network,
      by 4 addresses. */
  lemma ReachesBehind(c: Cidr, bits: seq<bool>, d: Cidr, ip: nat)
    requires c.prefix <= 31 && Canonical(c) && Sized(c, bits) && Reaches(c, bits, ip)
    requires d.prefix <= 30 && Canonical(d) && c.base + Size(c) <= d.base < ip
    ensures Behind(c, d)
  {
    SizedLength(c, bits);
    if c.prefix == 30 {
      BaseOfFour(c);
      BaseOfFour(d);
      NextOfFour(c.base, d.base);
    }
  }

  /** Disjoint subnets hold an address both only if they are neighbours. */
  lemma SharedByNeighbours(parse: Parser, w: World, a: string, b: string, ip: u32)
    requires Tracks(parse, w) && (a, ip) in w.outstanding && (b, ip) in w.outstanding
    requires Disjoint(parse(a).value, parse(b).value)
    ensures Neighbours(parse(a).value, parse(b).value)
  {
    var c, d := parse(a).value, parse(b).value;
    assert Registered(parse, w, a) && Registered(parse, w, b);
    SizedLength(c, w.subnets[a]);
    SizedLength(d, w.subnets[b]);
    if c.base + Size(c) <= d.base {
      ReachesBehind(c, w.subnets[a], d, ip);
    } else {
      ReachesBehind(d, w.subnets[b], c, ip);
    }
  }

  function Handed(parse: Parser, w: World, cidr: string, gateway: bool): Outcome<u32> {
    if gateway then AllocatingSpecific(parse, w.subnets, cidr, 0).1 else Allocating(parse, w.subnets, cidr).1
  }

  /** An address that is handed out is not outstanding, neither in its subnet nor in any
      registered subnet with a disjoint range that is not its neighbour. */
  lemma HandsOutFresh(parse: Parser, w: World, cidr: string, gateway: bool)
    requires Tracks(parse, w)
    ensures var r := Handed(parse, w, cidr, gateway);
            r.Ok? ==>
              && cidr in w.subnets && Reaches(parse(cidr).value, w.subnets[cidr], r.value)
              && (cidr, r.value) !in w.outstanding
              && forall d | d in w.subnets && Disjoint(parse(cidr).value, parse(d).value)
                            && !Neighbours(parse(cidr).value, parse(d).value) ::
                   (d, r.value) !in w.outstanding
  {
    var r := Handed(parse, w, cidr, gateway);
    if r.Ok? {
      var pos := if gateway then 0 else FirstZero(w.subnets[cidr]).value;
      BitAddress(parse, cidr, pos);
      TracksSet(parse, w, cidr, pos);
      var w' := Hand(w, cidr, (w.subnets[cidr := w.subnets[cidr][pos := true]], r));
      forall d | d in w.subnets && Disjoint(parse(cidr).value, parse(d).value)
                 && !Neighbours(parse(cidr).value, parse(d).value)
        ensures (d, r.value) !in w.outstanding
      {
        if (d, r.value) in w.outstanding {
          SharedByNeighbours(parse, w', cidr, d, r.value);
        }
      }
    }
  }

  /** Allocation succeeds exactly when an address in reach is not outstanding, with the
      lowest of them; it can panic only where the reach crosses the last address. */
  lemma FailsOnlyWhenExhausted(parse: Parser, w: World, cidr: string)
    requires Tracks(parse, w) && cidr in w.subnets
    ensures var c, bits, r := parse(cidr).value, w.subnets[cidr], Allocating(parse, w.subnets, cidr).1;
            && (r.Ok? <==> exists ip: u32 :: Reaches(c, bits, ip) && (cidr, ip) !in w.outstanding)
            && (r.Ok? ==> forall lower: u32 | Reaches(c, bits, lower) && lower < r.value :: (cidr, lower) in w.outstanding)
            && (r.Panic? ==> c.base + |bits| >= U32)
  {
    var c, bits := parse(cidr).value, w.subnets[cidr];
    assert Registered(parse, w, cidr) && BitsMatch(parse, w, cidr);
    if FirstZero(bits).Some? {
      var next := c.base + FirstZero(bits).value + 1;
      BitAddress(parse, cidr, FirstZero(bits).value);
      assert next < U32 ==> Reaches(c, bits, next) && (cidr, next) !in w.outstanding;
      forall lower: u32 | Reaches(c, bits, lower) && lower < next
        ensures (cidr, lower) in w.outstanding
      {
        assert bits[lower - c.base - 1];
      }
    }
  }

  /** What is handed out is a host of the subnet if and only if some host was left; the
      gateway always is one. After that a reloaded bitmap goes on behind the hosts. */
  lemma HandsOutHosts(parse: Parser, w: World, cidr: string, gateway: bool)
    requires Tracks(parse, w) && Handed(parse, w, cidr, gateway).Ok?
    ensures IsHost(parse(cidr).value, Handed(parse, w, cidr, gateway).value)
       <==> gateway || exists ip: u32 :: IsHost(parse(cidr).value, ip) && (cidr, ip) !in w.outstanding
  {
    var c, ip := parse(cidr).value, Handed(parse, w, cidr, gateway).value;
    HandsOutFresh(parse, w, cidr, gateway);
    assert Registered(parse, w, cidr);
    ReachesHosts(c, w.subnets[cidr], ip);
    if gateway {
      BitAddress(parse, cidr, 0);
    } else {
      FailsOnlyWhenExhausted(parse, w, cidr);
      forall host: u32 | IsHost(c, host) && (cidr, host) !in w.outstanding
        ensures ip <= host
      {
        ReachesHosts(c, w.subnets[cidr], host);
      }
    }
  }

  /** Release succeeds exactly on the outstanding addresses within the network. */
  lemma ReleasesOutstanding(parse: Parser, w: World, cidr: string, ip: u32)
    requires Tracks(parse, w)
    ensures Releasing(parse, w.subnets, cidr, ip).1.Ok?
       <==> (cidr, ip) in w.outstanding && ip < parse(cidr).value.base + Size(parse(cidr).value)
  {
    if cidr in w.subnets {
      assert Registered(parse, w, cidr) && BitsMatch(parse, w, cidr);
      IndexWithin(parse(cidr).value, ip);
    }
  }

  /** The address lies behind the network's range. */
  predicate Past(parse: Parser, cidr: string, ip: u32) {
    && parse(cidr).Some? && parse(cidr).value.prefix >= 1
    && ip >= Network(parse(cidr).value, parse(cidr).value.base) + Size(parse(cidr).value)
  }

  lemma NeverReleased(parse: Parser, subnets: Subnets, cidr: string, ip: u32)
    requires Past(parse, cidr, ip)
    ensures Releasing(parse, subnets, cidr, ip) == (subnets, Err("IP not in subnet"))
  {
    IndexOfAddress(parse(cidr).value, ip);
  }

  lemma OnlyReleaseRemoves(parse: Parser, d: Daemon, step: Step, cidr: string, ip: u32)
    requires (cidr, ip) in d.now.outstanding
    ensures (cidr, ip) in AfterStep(parse, d, step).now.outstanding || step == CallStep(ReleaseCall(cidr, ip))
  {
  }

  /** An outstanding address behind its network is never given back, whatever follows. */
  lemma {:induction false} LeakedForGood(parse: Parser, d: Daemon, steps: seq<Step>, cidr: string, ip: u32)
    requires Past(parse, cidr, ip) && (cidr, ip) in d.now.outstanding
    ensures (cidr, ip) in AfterSteps(parse, d, steps).now.outstanding
    decreases |steps|
  {
    if steps == [] {
    } else {
      NeverReleased(parse, d.now.subnets, cidr, ip);
      OnlyReleaseRemoves(parse, d, steps[0], cidr, ip);
      LeakedForGood(parse, AfterStep(parse, d, steps[0]), steps[1..], cidr, ip);
    }
  }

  /** Whether releasing the address just allocated succeeds and restores the bitmaps. */
  predicate Restores(parse: Parser, subnets: Subnets, cidr: string) {
    var (taken, ip) := Allocating(parse, subnets, cidr);
    ip.Ok? && Releasing(parse, taken, cidr, ip.value) == (subnets, Ok(()))
  }

  lemma RestoresWithin(parse: Parser, subnets: Subnets, cidr: string, pos: nat)
    requires cidr in subnets && parse(cidr).Some? && parse(cidr).value.prefix >= 1
    requires FirstZero(subnets[cidr]) == Some(pos) && pos + 1 < Size(parse(cidr).value)
    ensures Restores(parse, subnets, cidr) <==> Canonical(parse(cidr).value)
  {
    var c, bits := parse(cidr).value, subnets[cidr];
    BitRoundTrip(c, pos);
    var taken := subnets[cidr := bits[pos := true]];
    var h := Remainder(c.base, Size(c));
    if h == 0 {
      assert bits[pos := true][pos := false] == bits;
      assert taken[cidr := bits] == subnets;
    } else if pos >= h {
      assert bits[pos := true][pos - h := false][pos];
    }
  }

  lemma AddressBehind(c: Cidr, index: nat)
    requires c.prefix >= 1 && index >= Size(c) && CalculateIp(c, index).Ok?
    ensures CalculateIp(c, index).value >= Network(c, c.base) + Size(c)
  {
    AddressOfIndex(c, index);
  }

  lemma RestoresNotBehind(parse: Parser, subnets: Subnets, cidr: string, pos: nat)
    requires cidr in subnets && parse(cidr).Some? && parse(cidr).value.prefix >= 1
    requires FirstZero(subnets[cidr]) == Some(pos) && pos + 1 >= Size(parse(cidr).value)
    ensures !Restores(parse, subnets, cidr)
  {
    var (taken, ip) := Allocating(parse, subnets, cidr);
    if ip.Ok? {
      AddressBehind(parse(cidr).value, pos + 1);
      NeverReleased(parse, taken, cidr, ip.value);
    }
  }

  /** With host bits in the CIDR's base the allocator releases the wrong bit, and behind the
      network it refuses: releasing the address just allocated restores the bitmaps exactly
      for canonical CIDRs and bits within the network. */
  lemma AllocateReleaseRestores(parse: Parser, subnets: Subnets, cidr: string)
    requires cidr in subnets && parse(cidr).Some? && parse(cidr).value.prefix >= 1
    requires FirstZero(subnets[cidr]).Some?
    ensures Restores(parse, subnets, cidr)
       <==> Canonical(parse(cidr).value) && FirstZero(subnets[cidr]).value + 1 < Size(parse(cidr).value)
  {
    var pos := FirstZero(subnets[cidr]).value;
    if pos + 1 < Size(parse(cidr).value) {
      RestoresWithin(parse, subnets, cidr, pos);
    } else {
      RestoresNotBehind(parse, subnets, cidr, pos);
    }
  }

  // ---- When disjoint subnets can share an address ----

  ghost predicate SharedAfter(parse: Parser, steps: seq<Step>, a: string, b: string, ip: u32) {
    && AllCanonical(parse, steps) && CurrentThroughout(parse, STARTED, steps)
    && var outstanding := AfterSteps(parse, STARTED, steps).now.outstanding;
       (a, ip) in outstanding && (b, ip) in outstanding
  }

  function Allocations(cidr: string, n: nat): (steps: seq<Step>)
    ensures forall step | step in steps :: step == CallStep(AllocateCall(cidr))
  {
    if n == 0 then [] else [CallStep(AllocateCall(cidr))] + Allocations(cidr, n - 1)
  }

  lemma {:induction false} StepsConcat(parse: Parser, d: Daemon, a: seq<Step>, b: seq<Step>)
    ensures AfterSteps(parse, d, a + b) == AfterSteps(parse, AfterSteps(parse, d, a), b)
    ensures CurrentThroughout(parse, d, a + b)
       <==> CurrentThroughout(parse, d, a) && CurrentThroughout(parse, AfterSteps(parse, d, a), b)
    decreases |a|
  {
    if a == [] {
      assert a + b == b;
    } else {
      assert (a + b)[1..] == a[1..] + b;
      StepsConcat(parse, AfterStep(parse, d, a[0]), a[1..], b);
    }
  }

  lemma StepsFrom(parse: Parser, d: Daemon, step: Step, rest: seq<Step>)
    ensures AfterSteps(parse, d, [step] + rest) == AfterSteps(parse, AfterStep(parse, d, step), rest)
    ensures !step.ReloadStep? ==>
              (CurrentThroughout(parse, d, [step] + rest) <==> CurrentThroughout(parse, AfterStep(parse, d, step), rest))
  {
    assert ([step] + rest)[1..] == rest;
  }

  /** The first `taken` bits are set, and no other. */
  predicate Filled(bits: seq<bool>, taken: nat) {
    forall k | 0 <= k < |bits| :: bits[k] <==> k < taken
  }

  /** Addresses of `cidr` may have been handed out, and nothing else. */
  predicate Extends(before: World, after: World, cidr: string) {
    && before.outstanding <= after.outstanding
    && forall other | other in before.subnets && other != cidr ::
         other in after.subnets && after.subnets[other] == before.subnets[other]
  }

  lemma ExtendsFurther(a: World, b: World, c: World, cidr: string)
    requires Extends(a, b, cidr) && Extends(b, c, cidr)
    ensures Extends(a, c, cidr)
  {
  }

  lemma AllocateNext(parse: Parser, w: World, cidr: string, taken: nat)
    requires cidr in w.subnets && parse(cidr).Some?
    requires parse(cidr).value.prefix >= 1 && Canonical(parse(cidr).value)
    requires taken < |w.subnets[cidr]| && parse(cidr).value.base + taken + 1 < U32
    requires Filled(w.subnets[cidr], taken)
    ensures AfterCall(parse, w, AllocateCall(cidr))
         == World(w.subnets[cidr := w.subnets[cidr][taken := true]],
                  w.outstanding + {(cidr, parse(cidr).value.base + taken + 1)})
    ensures Extends(w, AfterCall(parse, w, AllocateCall(cidr)), cidr)
    ensures Filled(w.subnets[cidr][taken := true], taken + 1)
  {
    ZeroAt(w.subnets[cidr], taken);
    BitAddress(parse, cidr, taken);
  }

  /** Allocating from a bitmap whose first `taken` bits are set goes up one by one. */
  lemma {:induction false} AllocateUpwards(parse: Parser, d: Daemon, cidr: string, taken: nat, n: nat)
    requires n > 0 && cidr in d.now.subnets && parse(cidr).Some?
    requires parse(cidr).value.prefix >= 1 && Canonical(parse(cidr).value)
    requires taken + n <= |d.now.subnets[cidr]| && parse(cidr).value.base + taken + n < U32
    requires Filled(d.now.subnets[cidr], taken)
    ensures CurrentThroughout(parse, d, Allocations(cidr, n))
    ensures var now := AfterSteps(parse, d, Allocations(cidr, n)).now;
            (cidr, parse(cidr).value.base + taken + n) in now.outstanding && Extends(d.now, now, cidr)
    decreases n
  {
    var next := AfterStep(parse, d, CallStep(AllocateCall(cidr)));
    AllocateNext(parse, d.now, cidr, taken);
    StepsFrom(parse, d, CallStep(AllocateCall(cidr)), Allocations(cidr, n - 1));
    if n <= 1 {
    } else {
      AllocateUpwards(parse, next, cidr, taken + 1, n - 1);
      ExtendsFurther(d.now, next.now, AfterSteps(parse, next, Allocations(cidr, n - 1)).now, cidr);
    }
  }

  function Registering(a: string, b: string): seq<Step> {
    [CallStep(AddCall(a)), CallStep(AddCall(b))] + [SaveStep, ReloadStep]
  }

  lemma AddTwo(parse: Parser, a: string, b: string)
    requires parse(a).Some? && parse(b).Some? && a != b
    requires 1 <= parse(a).value.prefix <= 30 && 1 <= parse(b).value.prefix <= 30
    ensures Size(parse(a).value) >= 4 && Size(parse(b).value) >= 4
    ensures AfterSteps(parse, STARTED, [CallStep(AddCall(a)), CallStep(AddCall(b))])
         == Daemon(World(map[a := Free(Size(parse(a).value) - 2), b := Free(Size(parse(b).value) - 2)], {}), FRESH)
    ensures CurrentThroughout(parse, STARTED, [CallStep(AddCall(a)), CallStep(AddCall(b))])
  {
    SizeWithRoom(parse(a).value);
    SizeWithRoom(parse(b).value);
    var one := AfterStep(parse, STARTED, CallStep(AddCall(a)));
    assert one.now.subnets == map[a := Free(Size(parse(a).value) - 2)];
    StepsConcat(parse, STARTED, [CallStep(AddCall(a))], [CallStep(AddCall(b))]);
  }

  lemma SaveAndReload(parse: Parser, d: Daemon)
    ensures AfterSteps(parse, d, [SaveStep, ReloadStep])
         == Daemon(World(PaddedSubnets(d.now.subnets), d.now.outstanding), d.now)
    ensures CurrentThroughout(parse, d, [SaveStep, ReloadStep])
  {
    StepsConcat(parse, d, [SaveStep], [ReloadStep]);
    assert [SaveStep] + [ReloadStep] == [SaveStep, ReloadStep];
  }

  lemma AfterRegistering(parse: Parser, a: string, b: string)
    requires parse(a).Some? && parse(b).Some? && a != b
    requires 1 <= parse(a).value.prefix <= 30 && 1 <= parse(b).value.prefix <= 30
    ensures var now := AfterSteps(parse, STARTED, Registering(a, b)).now;
            && Size(parse(a).value) >= 4 && Size(parse(b).value) >= 4
            && a in now.subnets && now.subnets[a] == Padded(Free(Size(parse(a).value) - 2))
            && b in now.subnets && now.subnets[b] == Padded(Free(Size(parse(b).value) - 2))
    ensures CurrentThroughout(parse, STARTED, Registering(a, b))
  {
    AddTwo(parse, a, b);
    var added := AfterSteps(parse, STARTED, [CallStep(AddCall(a)), CallStep(AddCall(b))]);
    SaveAndReload(parse, added);
    StepsConcat(parse, STARTED, [CallStep(AddCall(a)), CallStep(AddCall(b))], [SaveStep, ReloadStep]);
  }

  /** A run that fills the /30 `a` past its end and takes the gateway of `b`. */
  function SharingRun(a: string, b: string): seq<Step> {
    Registering(a, b) + (Allocations(a, 5) + Allocations(b, 1))
  }

  lemma CanonicalRun(parse: Parser, a: string, b: string)
    requires parse(a).Some? && parse(b).Some? && Canonical(parse(a).value) && Canonical(parse(b).value)
    ensures AllCanonical(parse, SharingRun(a, b))
  {
    forall step | step in SharingRun(a, b) && step.CallStep?
      ensures step.call.cidr in {a, b}
    {
      assert step in Registering(a, b) || step in Allocations(a, 5) || step in Allocations(b, 1);
    }
  }

  lemma SizeOf30(c: Cidr)
    requires c.prefix == 30
    ensures Size(c) == 4
  {
    assert Pow2(2) == 4;
  }

  lemma PaddedFree(n: nat)
    ensures Padded(Free(n)) == Free(n + DeadBits(n))
  {
  }

  lemma BehindFits(c: Cidr, d: Cidr)
    requires Canonical(d) && Behind(c, d)
    ensures d.prefix >= 1 && c.base + 8 <= U32
  {
    Pow2Of32();
    SizeWithRoom(d);
    BlockFits(d, d.base);
  }

  lemma RegisteredFree(parse: Parser, a: string, b: string)
    requires parse(a).Some? && parse(b).Some? && Canonical(parse(b).value)
    requires Behind(parse(a).value, parse(b).value)
    ensures var now := AfterSteps(parse, STARTED, Registering(a, b)).now;
            && a in now.subnets && now.subnets[a] == Free(8)
            && b in now.subnets && exists n :: n > 0 && now.subnets[b] == Free(n)
    ensures CurrentThroughout(parse, STARTED, Registering(a, b))
  {
    BehindFits(parse(a).value, parse(b).value);
    AfterRegistering(parse, a, b);
    SizeOf30(parse(a).value);
    PaddedFree(2);
    PaddedFree(Size(parse(b).value) - 2);
  }

  lemma FillAndTake(parse: Parser, d: Daemon, a: string, b: string)
    requires a != b && a in d.now.subnets && b in d.now.subnets && parse(a).Some? && parse(b).Some?
    requires Canonical(parse(a).value) && Canonical(parse(b).value) && Behind(parse(a).value, parse(b).value)
    requires d.now.subnets[a] == Free(8) && exists n :: n > 0 && d.now.subnets[b] == Free(n)
    ensures parse(b).value.base + 1 < U32
    ensures CurrentThroughout(parse, d, Allocations(a, 5) + Allocations(b, 1))
    ensures var outstanding := AfterSteps(parse, d, Allocations(a, 5) + Allocations(b, 1)).now.outstanding;
            (a, parse(b).value.base + 1) in outstanding && (b, parse(b).value.base + 1) in outstanding
  {
    BehindFits(parse(a).value, parse(b).value);
    AllocateUpwards(parse, d, a, 0, 5);
    AllocateUpwards(parse, AfterSteps(parse, d, Allocations(a, 5)), b, 0, 1);
    StepsConcat(parse, d, Allocations(a, 5), Allocations(b, 1));
  }

  lemma NeighboursShare(parse: Parser, a: string, b: string)
    requires parse(a).Some? && parse(b).Some? && Canonical(parse(a).value) && Canonical(parse(b).value)
    requires Behind(parse(a).value, parse(b).value)
    ensures parse(b).value.base + 1 < U32
    ensures SharedAfter(parse, SharingRun(a, b), a, b, parse(b).value.base + 1)
  {
    CanonicalRun(parse, a, b);
    RegisteredFree(parse, a, b);
    FillAndTake(parse, AfterSteps(parse, STARTED, Registering(a, b)), a, b);
    StepsConcat(parse, STARTED, Registering(a, b), Allocations(a, 5) + Allocations(b, 1));
  }

  lemma SharedSwapped(parse: Parser, a: string, b: string)
    requires exists steps, ip: u32 :: SharedAfter(parse, steps, a, b, ip)
    ensures exists steps, ip: u32 :: SharedAfter(parse, steps, b, a, ip)
  {
    var steps, ip: u32 :| SharedAfter(parse, steps, a, b, ip);
    assert SharedAfter(parse, steps, b, a, ip);
  }

  /** Two subnets with disjoint ranges can both hold an address, in a run without stale
      reloads, if and only if one is a /30 and the other starts right behind it: five
      allocations from the reloaded /30 reach the other's gateway. */
  lemma DisjointSubnetsShare(parse: Parser, a: string, b: string)
    requires parse(a).Some? && Canonical(parse(a).value) && parse(b).Some? && Canonical(parse(b).value)
    requires Disjoint(parse(a).value, parse(b).value)
    ensures (exists steps, ip: u32 :: SharedAfter(parse, steps, a, b, ip))
       <==> Neighbours(parse(a).value, parse(b).value)
  {
    forall steps, ip: u32 | SharedAfter(parse, steps, a, b, ip)
      ensures Neighbours(parse(a).value, parse(b).value)
    {
      EveryRunTracks(parse, STARTED, steps);
      SharedByNeighbours(parse, AfterSteps(parse, STARTED, steps).now, a, b, ip);
    }
    if Behind(parse(a).value, parse(b).value) {
      NeighboursShare(parse, a, b);
    } else if Behind(parse(b).value, parse(a).value) {
      NeighboursShare(parse, b, a);
      SharedSwapped(parse, b, a);
    }
  }

  lemma GatewayFits(c: Cidr, bits: seq<bool>)
    requires c.prefix <= 31 && Canonical(c) && Sized(c, bits) && bits != []
    ensures c.base + 1 < U32
  {
    SizedLength(c, bits);
    BlockFits(c, c.base);
  }

  lemma GatewayTaken(parse: Parser, w: World, cidr: string)
    requires Registered(parse, w, cidr) && |w.subnets[cidr]| > 0 && !w.subnets[cidr][0]
    ensures parse(cidr).value.base + 1 < U32
    ensures AfterCall(parse, w, GatewayCall(cidr))
         == World(w.subnets[cidr := w.subnets[cidr][0 := true]], w.outstanding + {(cidr, parse(cidr).value.base + 1)})
  {
    GatewayFits(parse(cidr).value, w.subnets[cidr]);
    BitAddress(parse, cidr, 0);
  }

  /** Disjointness is needed: two subnets with the same base and room left, registered
      under different texts, both hand out base + 1 as their gateway. */
  lemma SameBaseSharesGateway(parse: Parser, w: World, a: string, b: string)
    requires Tracks(parse, w) && a != b && a in w.subnets && b in w.subnets
    requires parse(a).value.base == parse(b).value.base
    requires |w.subnets[a]| > 0 && |w.subnets[b]| > 0 && !w.subnets[a][0] && !w.subnets[b][0]
    ensures var gateway := parse(a).value.base + 1;
            var w' := AfterCall(parse, AfterCall(parse, w, GatewayCall(a)), GatewayCall(b));
            (a, gateway) in w'.outstanding && (b, gateway) in w'.outstanding
  {
    assert Registered(parse, w, a) && Registered(parse, w, b);
    GatewayTaken(parse, w, a);
    GatewayTaken(parse, AfterCall(parse, w, GatewayCall(a)), b);
  }
}
