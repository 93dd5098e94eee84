/** The network table: `create_network` over the allocator, with the bridge driver's
    answer as an input (src/core/network/network.rs:85-177). */
module Networks {
  import opened Metas
  import opened Ipv4
  import opened Ipam
  import opened BitmapFile
  import opened Framing

  datatype NetworkInfo = NetworkInfo(name: string, cidr: string, gateway: u32, driver: string)

  datatype Table = Table(subnets: Subnets, networks: map<string, NetworkInfo>)

  datatype Request = Request(name: string, subnet: string, driver: string, driverOk: bool)

  const BRIDGE := "bridge"

  /** `create_network` as a function of the table. */
  function Served(parse: Parser, t: Table, r: Request): (Table, Outcome<()>) {
    if r.name in t.networks then (t, Err("network already exists"))
    else if r.driver != BRIDGE then (t, Err("invalid driver"))
    else
      var (added, ok) := Adding(parse, t.subnets, r.subnet);
      if !ok.Ok? then (t, ok)
      else
        var (taken, gateway) := AllocatingSpecific(parse, added, r.subnet, 0);
        match gateway
        case Panic => (Table(taken, t.networks), Panic)
        case Err(e) => (Table(taken, t.networks), Err(e))
        case Ok(ip) =>
          if r.driverOk then
            (Table(taken, t.networks[r.name := NetworkInfo(r.name, r.subnet, ip, BRIDGE)]), Ok(()))
          else
            var (released, freed) := Releasing(parse, taken, r.subnet, ip);
            (Table(released, t.networks), if freed.Panic? then Panic else Err("driver error"))
  }

  /** The file's contents: bitmaps as bytes, networks as they are. */
  datatype SavedNetworks = SavedNetworks(bitmaps: map<string, seq<byte>>, networks: map<string, NetworkInfo>)

  function Written(t: Table): SavedNetworks {
    SavedNetworks(map cidr | cidr in t.subnets :: Image(t.subnets[cidr]), t.networks)
  }

  /** The table a restart reads back. */
  function Reloaded(t: Table): Table {
    Table(PaddedSubnets(t.subnets), t.networks)
  }

  lemma WrittenReadsBack(t: Table)
    ensures var bitmaps := Written(t).bitmaps;
            (map cidr | cidr in bitmaps :: Unpack(bitmaps[cidr])) == Reloaded(t).subnets
  {
    forall cidr | cidr in t.subnets
      ensures Unpack(Image(t.subnets[cidr])) == Reloaded(t).subnets[cidr]
    {
      ImageReadsBack(t.subnets[cidr]);
    }
  }

  class Networks {
    const ipam: IPAM
    var networks: map<string, NetworkInfo>
    var file: Option<SavedNetworks>

    function Contents(): Table
      reads this, ipam
    {
      Table(ipam.subnets, networks)
    }

    /** Starts from the file, or empty when there is none. */
    constructor Load(parse: Parser, file: Option<SavedNetworks>)
      ensures ipam.parse == parse && this.file == file
      ensures file.None? ==> Contents() == Table(map[], map[])
      ensures forall t | file == Some(Written(t)) :: Contents() == Reloaded(t)
    {
      var subnets: Subnets := map[];
      networks := map[];
      if file.Some? {
        subnets := DeserializeSubnets(file.value.bitmaps);
        networks := file.value.networks;
      }
      ipam := new IPAM(parse, subnets);
      this.file := file;
      new;
      forall t | file == Some(Written(t))
        ensures Contents() == Reloaded(t)
      {
        WrittenReadsBack(t);
      }
    }

    method Save(diskOk: bool)
      modifies `file
      ensures file == if diskOk then Some(Written(Contents())) else old(file)
    {
      var bitmaps := SerializeSubnets(ipam.subnets);
      if diskOk {
        file := Some(SavedNetworks(bitmaps, networks));
      }
    }

    /** Saves only after success, and ignores whether saving worked. */
    method CreateNetwork(request: Request, diskOk: bool) returns (r: Outcome<()>)
      modifies this, ipam
      ensures (Contents(), r) == Served(ipam.parse, old(Contents()), request)
      ensures file == if r.Ok? && diskOk then Some(Written(Contents())) else old(file)
    {
      if request.name in networks {
        return Err("network already exists");
      }
      if request.driver != BRIDGE {
        return Err("invalid driver");
      }
      var added := ipam.AddSubnet(request.subnet);
      if !added.Ok? {
        return added;
      }
      var gateway := ipam.AllocateGateway(request.subnet);
      match gateway {
        case Panic => return Panic;
        case Err(e) => return Err(e);
        case Ok(ip) =>
          if !request.driverOk {
            var released := ipam.ReleaseIp(request.subnet, ip);
            return if released.Panic? then Panic else Err("driver error");
          }
          networks := networks[request.name := NetworkInfo(request.name, request.subnet, ip, BRIDGE)];
          Save(diskOk);
          return Ok(());
      }
    }
  }

  // ---- Every run keeps the table and the bitmaps together ----

  /** A subnet with its gateway taken, or not, and nothing else. */
  ghost predicate OnlyGateway(bits: seq<bool>, taken: bool) {
    && (taken ==> bits != [])
    && forall k | 0 <= k < |bits| :: bits[k] <==> (taken && k == 0)
  }

  ghost predicate Recorded(t: Table, cidr: string) {
    exists name :: name in t.networks && t.networks[name].cidr == cidr
  }

  /** A network's subnet is registered and base + 1 is its gateway. */
  ghost predicate NetworkOk(parse: Parser, t: Table, name: string)
    requires name in t.networks
  {
    var n := t.networks[name];
    && n.name == name && n.driver == BRIDGE && n.cidr in t.subnets
    && parse(n.cidr).Some? && n.gateway == parse(n.cidr).value.base + 1
  }

  ghost predicate SubnetOk(parse: Parser, cidr: string, bits: seq<bool>, recorded: bool) {
    && parse(cidr).Some?
    && var c := parse(cidr).value;
       Canonical(c) && 1 <= c.prefix <= 31 && Sized(c, bits) && OnlyGateway(bits, recorded)
  }

  ghost predicate OwnSubnets(networks: map<string, NetworkInfo>) {
    forall a, b | a in networks && b in networks && a != b :: networks[a].cidr != networks[b].cidr
  }

  /** Each network has a registered subnet of its own, with base + 1 taken as its gateway;
      a registered subnet that no network has is entirely free. */
  ghost predicate Consistent(parse: Parser, t: Table) {
    && (forall name | name in t.networks :: NetworkOk(parse, t, name))
    && OwnSubnets(t.networks)
    && (forall cidr | cidr in t.subnets :: SubnetOk(parse, cidr, t.subnets[cidr], Recorded(t, cidr)))
  }

  lemma GatewayOfFree(parse: Parser, subnets: Subnets, cidr: string)
    requires parse(cidr).Some? && Canonical(parse(cidr).value) && 1 <= parse(cidr).value.prefix <= 30
    ensures var c := parse(cidr).value;
            var free := Free(Size(c) - 2);
            && |free| > 0 && c.base + 1 < U32
            && AllocatingSpecific(parse, subnets[cidr := free], cidr, 0) ==
               (subnets[cidr := free[0 := true]], Ok(c.base + 1))
            && Releasing(parse, subnets[cidr := free[0 := true]], cidr, c.base + 1) == (subnets[cidr := free], Ok(()))
  {
    var c := parse(cidr).value;
    SizeWithRoom(c);
    var free := Free(Size(c) - 2);
    AddressOfBit(c, 0);
    BitRoundTrip(c, 0);
    assert subnets[cidr := free][cidr := free[0 := true]] == subnets[cidr := free[0 := true]];
    assert free[0 := true][0 := false] == free;
    assert subnets[cidr := free[0 := true]][cidr := free] == subnets[cidr := free];
  }

  /** What a request that passes the checks does to a new subnet. */
  lemma ServedOutcome(parse: Parser, t: Table, r: Request)
    requires r.name !in t.networks && r.driver == BRIDGE && r.subnet !in t.subnets
    requires parse(r.subnet).Some? && Canonical(parse(r.subnet).value) && 1 <= parse(r.subnet).value.prefix <= 30
    ensures var c := parse(r.subnet).value;
            var free := Free(Size(c) - 2);
            && |free| > 0 && c.base + 1 < U32
            && Served(parse, t, r) ==
               if r.driverOk then
                 (Table(t.subnets[r.subnet := free[0 := true]],
                        t.networks[r.name := NetworkInfo(r.name, r.subnet, c.base + 1, BRIDGE)]), Ok(()))
               else
                 (Table(t.subnets[r.subnet := free], t.networks), Err("driver error"))
  {
    GatewayOfFree(parse, t.subnets, r.subnet);
    var c := parse(r.subnet).value;
    assert Adding(parse, t.subnets, r.subnet) == (t.subnets[r.subnet := Free(Size(c) - 2)], Ok(()));
  }

  /** A /31 has no room for a gateway, and stays registered. */
  lemma ServedTooSmall(parse: Parser, t: Table, r: Request)
    requires r.name !in t.networks && r.driver == BRIDGE && r.subnet !in t.subnets
    requires parse(r.subnet).Some? && parse(r.subnet).value.prefix == 31
    ensures Served(parse, t, r) == (Table(t.subnets[r.subnet := []], t.networks), Err("IP out of range"))
  {
    assert Size(parse(r.subnet).value) == 2 by {
      assert Pow2(1) == 2;
    }
    assert Free(0) == [];
  }

  /** Every other request leaves the table as it was. */
  lemma ServedRefused(parse: Parser, t: Table, r: Request)
    requires !(r.name !in t.networks && r.driver == BRIDGE && r.subnet !in t.subnets
               && parse(r.subnet).Some? && 1 <= parse(r.subnet).value.prefix <= 31)
    ensures Served(parse, t, r).0 == t && !Served(parse, t, r).1.Ok? && Served(parse, t, r).1 != Err("driver error")
  {
  }

  lemma ServedNonCanonical(parse: Parser, t: Table, r: Request)
    requires r.name !in t.networks && r.driver == BRIDGE && r.subnet !in t.subnets
    requires parse(r.subnet).Some? && !Canonical(parse(r.subnet).value) && 1 <= parse(r.subnet).value.prefix <= 30
    ensures Served(parse, t, r).1 == if r.driverOk then Ok(()) else Panic
  {
    var c := parse(r.subnet).value;
    SizeWithRoom(c);
    AddressOfBit(c, 0);
    BitRoundTrip(c, 0);
  }

  /** The request asks for something that is there or that the checks let through. */
  predicate PassesChecks(t: Table, r: Request) {
    r.name !in t.networks && r.driver == BRIDGE && r.subnet !in t.subnets
  }

  /** How every request ends, for every table. The handler succeeds exactly for a new name
      and subnet of a prefix from 1 to 30 with a working driver; it panics exactly on prefixes
      0 and 32 and when it has to clean up after the driver on a subnet with host bits. */
  lemma ServedReplies(parse: Parser, t: Table, r: Request)
    ensures var reply := Served(parse, t, r).1;
            && (reply == Err("network already exists") <==> r.name in t.networks)
            && (reply == Err("invalid driver") <==> r.name !in t.networks && r.driver != BRIDGE)
            && (reply == Err("Subnet already exists") <==>
                  r.name !in t.networks && r.driver == BRIDGE && r.subnet in t.subnets)
            && (reply == Err("Invalid CIDR") <==> PassesChecks(t, r) && parse(r.subnet).None?)
    ensures PassesChecks(t, r) && parse(r.subnet).Some? ==>
              var c, reply := parse(r.subnet).value, Served(parse, t, r).1;
              && (reply.Ok? <==> 1 <= c.prefix <= 30 && r.driverOk)
              && (reply.Panic? <==> c.prefix in {0, 32} || (1 <= c.prefix <= 30 && !r.driverOk && !Canonical(c)))
              && (reply == Err("IP out of range") <==> c.prefix == 31)
              && (reply == Err("driver error") <==> 1 <= c.prefix <= 30 && !r.driverOk && Canonical(c))
  {
    if PassesChecks(t, r) && parse(r.subnet).Some? {
      var c := parse(r.subnet).value;
      if c.prefix == 31 {
        ServedTooSmall(parse, t, r);
      } else if 1 <= c.prefix <= 30 {
        if Canonical(c) {
          ServedOutcome(parse, t, r);
        } else {
          ServedNonCanonical(parse, t, r);
        }
      }
    }
  }

  lemma ConsistentMore(parse: Parser, t: Table, cidr: string, bits: seq<bool>)
    requires Consistent(parse, t) && cidr !in t.subnets && SubnetOk(parse, cidr, bits, false)
    ensures Consistent(parse, Table(t.subnets[cidr := bits], t.networks))
  {
    var t' := Table(t.subnets[cidr := bits], t.networks);
    forall name | name in t.networks
      ensures NetworkOk(parse, t', name)
    {
      assert NetworkOk(parse, t, name);
    }
    forall d | d in t'.subnets
      ensures SubnetOk(parse, d, t'.subnets[d], Recorded(t', d))
    {
      assert Recorded(t', d) <==> Recorded(t, d);
      assert Recorded(t, d) ==> d in t.subnets by {
        if Recorded(t, d) {
          var name :| name in t.networks && t.networks[name].cidr == d;
          assert NetworkOk(parse, t, name);
        }
      }
    }
  }

  lemma ConsistentNetwork(parse: Parser, t: Table, n: NetworkInfo, bits: seq<bool>)
    requires Consistent(parse, t) && n.cidr !in t.subnets && n.name !in t.networks
    requires parse(n.cidr).Some? && n.driver == BRIDGE && n.gateway == parse(n.cidr).value.base + 1
    requires SubnetOk(parse, n.cidr, bits, true)
    ensures Consistent(parse, Table(t.subnets[n.cidr := bits], t.networks[n.name := n]))
  {
    var t' := Table(t.subnets[n.cidr := bits], t.networks[n.name := n]);
    forall name | name in t'.networks
      ensures NetworkOk(parse, t', name)
    {
      assert name in t.networks ==> NetworkOk(parse, t, name);
    }
    forall name | name in t.networks
      ensures t.networks[name].cidr != n.cidr
    {
      assert NetworkOk(parse, t, name);
    }
    forall d | d in t'.subnets
      ensures SubnetOk(parse, d, t'.subnets[d], Recorded(t', d))
    {
      if d == n.cidr {
        assert t'.networks[n.name].cidr == d;
      } else {
        RecordedElsewhere(t, n, t', d);
      }
    }
  }

  lemma RecordedElsewhere(t: Table, n: NetworkInfo, t': Table, cidr: string)
    requires n.name !in t.networks && t'.networks == t.networks[n.name := n] && cidr != n.cidr
    ensures Recorded(t', cidr) <==> Recorded(t, cidr)
  {
    if Recorded(t, cidr) {
      var name :| name in t.networks && t.networks[name].cidr == cidr;
      assert name in t'.networks && t'.networks[name].cidr == cidr;
    }
  }

  lemma ConsistentServed(parse: Parser, t: Table, r: Request)
    requires Consistent(parse, t) && r.name !in t.networks && r.driver == BRIDGE && r.subnet !in t.subnets
    requires parse(r.subnet).Some? && Canonical(parse(r.subnet).value) && 1 <= parse(r.subnet).value.prefix <= 30
    ensures Consistent(parse, Served(parse, t, r).0)
  {
    ServedOutcome(parse, t, r);
    var c := parse(r.subnet).value;
    var free := Free(Size(c) - 2);
    if r.driverOk {
      ConsistentNetwork(parse, t, NetworkInfo(r.name, r.subnet, c.base + 1, BRIDGE), free[0 := true]);
    } else {
      ConsistentMore(parse, t, r.subnet, free);
    }
  }

  lemma ConsistentStep(parse: Parser, t: Table, r: Request)
    requires Consistent(parse, t) && (parse(r.subnet).Some? ==> Canonical(parse(r.subnet).value))
    ensures Consistent(parse, Served(parse, t, r).0)
  {
    if !(r.name !in t.networks && r.driver == BRIDGE && r.subnet !in t.subnets
         && parse(r.subnet).Some? && 1 <= parse(r.subnet).value.prefix <= 31) {
      ServedRefused(parse, t, r);
    } else if parse(r.subnet).value.prefix == 31 {
      ServedTooSmall(parse, t, r);
      assert Pow2(1) == 2;
      ConsistentMore(parse, t, r.subnet, []);
    } else {
      ConsistentServed(parse, t, r);
    }
  }

  lemma SubnetReload(parse: Parser, cidr: string, bits: seq<bool>, recorded: bool)
    requires SubnetOk(parse, cidr, bits, recorded)
    ensures SubnetOk(parse, cidr, Padded(bits), recorded)
  {
    SizedReload(parse(cidr).value, bits);
  }

  lemma ConsistentReload(parse: Parser, t: Table)
    requires Consistent(parse, t)
    ensures Consistent(parse, Reloaded(t))
  {
    var t' := Reloaded(t);
    forall name | name in t'.networks
      ensures NetworkOk(parse, t', name)
    {
      assert NetworkOk(parse, t, name);
    }
    forall cidr | cidr in t'.subnets
      ensures SubnetOk(parse, cidr, t'.subnets[cidr], Recorded(t', cidr))
    {
      assert SubnetOk(parse, cidr, t.subnets[cidr], Recorded(t, cidr)) && (Recorded(t', cidr) <==> Recorded(t, cidr));
      SubnetReload(parse, cidr, t.subnets[cidr], Recorded(t, cidr));
    }
  }

  /** The running table and the one last written. */
  datatype Site = Site(table: Table, file: Table)

  const EMPTY_SITE := Site(Table(map[], map[]), Table(map[], map[]))

  datatype Event = Ask(request: Request, diskOk: bool) | Restart

  function AfterEvent(parse: Parser, s: Site, e: Event): Site {
    match e
    case Ask(request, diskOk) =>
      var (table, r) := Served(parse, s.table, request);
      Site(table, if r.Ok? && diskOk then table else s.file)
    case Restart => s.(table := Reloaded(s.file))
  }

  function AfterEvents(parse: Parser, s: Site, events: seq<Event>): Site
    decreases |events|
  {
    if events == [] then s else AfterEvents(parse, AfterEvent(parse, s, events[0]), events[1..])
  }

  ghost predicate CanonicalEvents(parse: Parser, events: seq<Event>) {
    forall e | e in events && e.Ask? ::
      parse(e.request.subnet).Some? ==> Canonical(parse(e.request.subnet).value)
  }

  /** For every sequence of requests and restarts, and every behaviour of the driver and
      the disk. */
  lemma {:induction false} EveryRunConsistent(parse: Parser, s: Site, events: seq<Event>)
    requires Consistent(parse, s.table) && Consistent(parse, s.file) && CanonicalEvents(parse, events)
    ensures Consistent(parse, AfterEvents(parse, s, events).table)
    ensures Consistent(parse, AfterEvents(parse, s, events).file)
    decreases |events|
  {
    if events == [] {
    } else {
      var e := events[0];
      assert e in events;
      if e.Ask? {
        ConsistentStep(parse, s.table, e.request);
      } else {
        ConsistentReload(parse, s.file);
      }
      EveryRunConsistent(parse, AfterEvent(parse, s, e), events[1..]);
    }
  }

  /** A run from nothing also keeps every saved subnet registered. */
  lemma {:induction false} SavedIsRegistered(parse: Parser, s: Site, events: seq<Event>)
    requires s.file.subnets.Keys <= s.table.subnets.Keys
    ensures AfterEvents(parse, s, events).file.subnets.Keys <= AfterEvents(parse, s, events).table.subnets.Keys
    decreases |events|
  {
    if events == [] {
    } else {
      SavedIsRegistered(parse, AfterEvent(parse, s, events[0]), events[1..]);
    }
  }

  lemma RunsFromEmpty(parse: Parser, events: seq<Event>)
    requires CanonicalEvents(parse, events)
    ensures var s := AfterEvents(parse, EMPTY_SITE, events);
            && Consistent(parse, s.table) && Consistent(parse, s.file)
            && s.file.subnets.Keys <= s.table.subnets.Keys
  {
    EveryRunConsistent(parse, EMPTY_SITE, events);
    SavedIsRegistered(parse, EMPTY_SITE, events);
  }

  // ---- A driver failure ----

  /** It leaves the networks alone and the new subnet free -- but registered. */
  lemma DriverFailure(parse: Parser, t: Table, r: Request)
    requires parse(r.subnet).Some? ==> Canonical(parse(r.subnet).value)
    requires Served(parse, t, r).1 == Err("driver error")
    ensures r.subnet !in t.subnets && parse(r.subnet).Some? && 1 <= parse(r.subnet).value.prefix <= 30
    ensures Served(parse, t, r).0 == Table(t.subnets[r.subnet := Free(Size(parse(r.subnet).value) - 2)], t.networks)
  {
    if !(r.name !in t.networks && r.driver == BRIDGE && r.subnet !in t.subnets
         && parse(r.subnet).Some? && 1 <= parse(r.subnet).value.prefix <= 31) {
      ServedRefused(parse, t, r);
    } else if parse(r.subnet).value.prefix == 31 {
      ServedTooSmall(parse, t, r);
    } else {
      ServedOutcome(parse, t, r);
    }
  }

  /** How the handler ends after a driver failure: the client has been sent the driver's
      error before the clean-up runs. With host bits in the subnet's base the clean-up
      underflows; it works exactly for canonical subnets, and otherwise the handler panics
      and leaves the gateway taken with no network. */
  lemma CleanUpNeedsCanonical(parse: Parser, t: Table, r: Request)
    requires r.name !in t.networks && r.driver == BRIDGE && r.subnet !in t.subnets && !r.driverOk
    requires parse(r.subnet).Some? && 1 <= parse(r.subnet).value.prefix <= 30
    ensures var c := parse(r.subnet).value;
            var (t', outcome) := Served(parse, t, r);
            && (outcome == Err("driver error") <==> Canonical(c))
            && (!Canonical(c) ==>
                  && outcome == Panic && t'.networks == t.networks
                  && r.subnet in t'.subnets && t'.subnets[r.subnet] == Free(Size(c) - 2)[0 := true])
  {
    var c := parse(r.subnet).value;
    if Canonical(c) {
      ServedOutcome(parse, t, r);
    } else {
      SizeWithRoom(c);
      AddressOfBit(c, 0);
      BitRoundTrip(c, 0);
    }
  }

  predicate AllAsks(events: seq<Event>) {
    forall e | e in events :: e.Ask?
  }

  predicate Saves(parse: Parser, s: Site, e: Event) {
    e.Ask? && e.diskOk && Served(parse, s.table, e.request).1.Ok?
  }

  /** Some request of the run succeeds and its save reaches the disk. */
  predicate SomeSave(parse: Parser, s: Site, events: seq<Event>)
    decreases |events|
  {
    events != [] && (Saves(parse, s, events[0]) || SomeSave(parse, AfterEvent(parse, s, events[0]), events[1..]))
  }

  /** Between restarts a registered subnet stays registered, and saving a network, whichever
      it is, puts it on file too. */
  lemma {:induction false} RegisteredUntilRestart(parse: Parser, s: Site, asks: seq<Event>, cidr: string)
    requires cidr in s.table.subnets && AllAsks(asks)
    ensures cidr in AfterEvents(parse, s, asks).table.subnets
    ensures cidr in AfterEvents(parse, s, asks).file.subnets <==> cidr in s.file.subnets || SomeSave(parse, s, asks)
    decreases |asks|
  {
    if asks == [] {
    } else {
      assert asks[0] in asks;
      RegisteredUntilRestart(parse, AfterEvent(parse, s, asks[0]), asks[1..], cidr);
    }
  }

  /** So after a driver failure, at any point of any run, every retry on the subnet is
      refused until the next restart; and that restart frees it if and only if nothing was
      successfully saved in between. */
  lemma FailedSubnetIsLost(parse: Parser, before: seq<Event>, r: Request, diskOk: bool, asks: seq<Event>, retry: Request)
    requires parse(r.subnet).Some? ==> Canonical(parse(r.subnet).value)
    requires Served(parse, AfterEvents(parse, EMPTY_SITE, before).table, r).1 == Err("driver error")
    requires AllAsks(asks) && retry.subnet == r.subnet && retry.driver == BRIDGE && retry.driverOk
    ensures var failed := AfterEvent(parse, AfterEvents(parse, EMPTY_SITE, before), Ask(r, diskOk));
            var later := AfterEvents(parse, failed, asks);
            var restarted := AfterEvent(parse, later, Restart);
            && Served(parse, later.table, retry).0 == later.table && Served(parse, later.table, retry).1.Err?
            && (r.subnet in restarted.table.subnets <==> SomeSave(parse, failed, asks))
            && (retry.name !in restarted.table.networks ==>
                  (Served(parse, restarted.table, retry).1.Ok? <==> !SomeSave(parse, failed, asks)))
  {
    var s := AfterEvents(parse, EMPTY_SITE, before);
    DriverFailure(parse, s.table, r);
    SavedIsRegistered(parse, EMPTY_SITE, before);
    var failed := AfterEvent(parse, s, Ask(r, diskOk));
    RegisteredUntilRestart(parse, failed, asks, r.subnet);
    var restarted := AfterEvent(parse, AfterEvents(parse, failed, asks), Restart);
    if r.subnet !in restarted.table.subnets && retry.name !in restarted.table.networks {
      ServedOutcome(parse, restarted.table, retry);
    }
  }

  lemma RefusedLeavesNetworks(parse: Parser, t: Table, r: Request, cidr: string)
    requires cidr in t.subnets
    ensures cidr in Served(parse, t, r).0.subnets
    ensures Recorded(Served(parse, t, r).0, cidr) <==> Recorded(t, cidr)
  {
    var t' := Served(parse, t, r).0;
    if t'.networks != t.networks {
      RecordedElsewhere(t, t'.networks[r.name], t', cidr);
    }
  }

  /** Once a subnet is on file without a network it is lost for good: through every
      sequence of requests and restarts it stays registered and gets no network. */
  lemma {:induction false} LostForGood(parse: Parser, s: Site, events: seq<Event>, cidr: string)
    requires cidr in s.table.subnets && !Recorded(s.table, cidr)
    requires cidr in s.file.subnets && !Recorded(s.file, cidr)
    ensures var s' := AfterEvents(parse, s, events);
            && cidr in s'.table.subnets && !Recorded(s'.table, cidr)
            && cidr in s'.file.subnets && !Recorded(s'.file, cidr)
    decreases |events|
  {
    if events == [] {
    } else {
      var e := events[0];
      if e.Ask? {
        RefusedLeavesNetworks(parse, s.table, e.request, cidr);
      } else {
        assert Recorded(Reloaded(s.file), cidr) <==> Recorded(s.file, cidr);
      }
      LostForGood(parse, AfterEvent(parse, s, e), events[1..], cidr);
    }
  }

  lemma RunOfOne(parse: Parser, s: Site, e: Event, events: seq<Event>)
    ensures AfterEvents(parse, s, [e] + events) == AfterEvents(parse, AfterEvent(parse, s, e), events)
  {
    assert ([e] + events)[1..] == events;
  }

  lemma RunOfThree(parse: Parser, s: Site, a: Event, b: Event, c: Event, events: seq<Event>)
    ensures AfterEvents(parse, s, [a, b, c] + events)
         == AfterEvents(parse, AfterEvent(parse, AfterEvent(parse, AfterEvent(parse, s, a), b), c), events)
  {
    RunOfOne(parse, s, a, [b, c] + events);
    RunOfOne(parse, AfterEvent(parse, s, a), b, [c] + events);
    RunOfOne(parse, AfterEvent(parse, AfterEvent(parse, s, a), b), c, events);
    assert [b] + ([c] + events) == [b, c] + events;
    assert [a] + ([b, c] + events) == [a, b, c] + events;
  }

  predicate WellFormed(parse: Parser, r: Request) {
    r.driver == BRIDGE && parse(r.subnet).Some? && Canonical(parse(r.subnet).value)
    && 1 <= parse(r.subnet).value.prefix <= 30
  }

  lemma FailThenSave(parse: Parser, r: Request, other: Request)
    requires WellFormed(parse, r) && !r.driverOk && WellFormed(parse, other) && other.driverOk
    requires r.subnet != other.subnet
    ensures var s := AfterEvent(parse, AfterEvent(parse, EMPTY_SITE, Ask(r, true)), Ask(other, true));
            r.subnet in s.file.subnets && s.table == s.file && !Recorded(s.table, r.subnet)
  {
    ServedOutcome(parse, EMPTY_SITE.table, r);
    ServedOutcome(parse, AfterEvent(parse, EMPTY_SITE, Ask(r, true)).table, other);
  }

  /** An installation where that happens: the driver fails on one subnet, a network on
      another is created and saved, and no restart brings the first subnet back. */
  lemma RestartsDoNotFree(parse: Parser, r: Request, other: Request, events: seq<Event>)
    requires WellFormed(parse, r) && !r.driverOk && WellFormed(parse, other) && other.driverOk
    requires r.subnet != other.subnet
    ensures var s := AfterEvents(parse, EMPTY_SITE, [Ask(r, true), Ask(other, true), Restart] + events);
            r.subnet in s.table.subnets && !Recorded(s.table, r.subnet)
  {
    FailThenSave(parse, r, other);
    var saved := AfterEvent(parse, AfterEvent(parse, EMPTY_SITE, Ask(r, true)), Ask(other, true));
    assert Recorded(Reloaded(saved.file), r.subnet) <==> Recorded(saved.file, r.subnet);
    LostForGood(parse, AfterEvent(parse, saved, Restart), events, r.subnet);
    RunOfThree(parse, EMPTY_SITE, Ask(r, true), Ask(other, true), Restart, events);
  }
}
