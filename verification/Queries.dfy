/** Filters and the resource summary (src/core/metas/meta.rs:154-217, 452-501). The list of
    containers comes in whatever order the map iterates. */
module Queries {
  import opened Metas
  import opened Interpreter
  import opened NameIndex

  datatype ContainerFilter = ContainerFilter(
    status: Option<ContainerStatus>,
    labels: map<string, string>,
    namePattern: Option<string>,
    since: Option<nat>,
    until: Option<nat>,
    limit: Option<nat>)

  const ANY := ContainerFilter(None, map[], None, None, None, None)

  predicate OccursAt(text: string, pattern: string, i: nat) {
    i + |pattern| <= |text| && text[i..i + |pattern|] == pattern
  }

  predicate Contains(text: string, pattern: string) {
    exists i | 0 <= i <= |text| :: OccursAt(text, pattern, i)
  }

  predicate Matches(f: ContainerFilter, meta: ContainerMeta) {
    && (f.status.Some? ==> meta.state.status == f.status.value)
    && (forall key | key in f.labels :: key in meta.labels && meta.labels[key] == f.labels[key])
    && (f.namePattern.Some? ==> Contains(meta.name, f.namePattern.value))
    && (f.since.Some? ==> f.since.value <= meta.createdAt)
    && (f.until.Some? ==> meta.createdAt <= f.until.value)
  }

  /** A pattern occurs exactly in the texts that have it between two parts. */
  lemma ContainsIsInfix(text: string, pattern: string)
    ensures Contains(text, pattern) <==> exists a, b :: text == a + pattern + b
  {
    if Contains(text, pattern) {
      var i :| 0 <= i <= |text| && OccursAt(text, pattern, i);
      assert text == text[..i] + pattern + text[i + |pattern|..];
    }
    if exists a, b :: text == a + pattern + b {
      var a, b :| text == a + pattern + b;
      assert OccursAt(text, pattern, |a|);
    }
  }

  lemma LabelsTogether(m: ContainerMeta, one: map<string, string>, two: map<string, string>)
    requires one.Keys !! two.Keys
    ensures Matches(ANY.(labels := one + two), m)
       <==> Matches(ANY.(labels := one), m) && Matches(ANY.(labels := two), m)
  {
    if Matches(ANY.(labels := one + two), m) {
      forall key | key in one
        ensures key in m.labels && m.labels[key] == one[key]
      {
        assert key in one + two && (one + two)[key] == one[key];
      }
      forall key | key in two
        ensures key in m.labels && m.labels[key] == two[key]
      {
        assert key in one + two;
      }
    }
  }

  function Select(all: seq<ContainerMeta>, f: ContainerFilter): seq<ContainerMeta> {
    if all == [] then []
    else Select(all[..|all| - 1], f) + if Matches(f, all[|all| - 1]) then [all[|all| - 1]] else []
  }

  function Truncate<T>(s: seq<T>, limit: Option<nat>): seq<T> {
    if limit.Some? && limit.value < |s| then s[..limit.value] else s
  }

  function ListContainers(all: seq<ContainerMeta>, filter: Option<ContainerFilter>): seq<ContainerMeta> {
    if filter.None? then all else Truncate(Select(all, filter.value), filter.value.limit)
  }

  function ByStatus(all: seq<ContainerMeta>, status: ContainerStatus): seq<ContainerMeta> {
    ListContainers(all, Some(ANY.(status := Some(status))))
  }

  lemma {:induction false} SelectTwice(all: seq<ContainerMeta>, f: ContainerFilter, g: ContainerFilter, both: ContainerFilter)
    requires forall m :: Matches(both, m) <==> Matches(f, m) && Matches(g, m)
    ensures Select(Select(all, f), g) == Select(all, both)
  {
    if all == [] {
    } else {
      var rest, last := Select(all[..|all| - 1], f), all[|all| - 1];
      SelectTwice(all[..|all| - 1], f, g, both);
      assert (rest + [last])[..|rest|] == rest;
      assert rest + [] == rest;
    }
  }

  // ---- What each filter asks, without `Matches` ----

  /** The elements with a property, in order. */
  function Sieve<T>(all: seq<T>, p: T -> bool): seq<T> {
    if all == [] then []
    else Sieve(all[..|all| - 1], p) + if p(all[|all| - 1]) then [all[|all| - 1]] else []
  }

  lemma {:induction false} SelectSieves(all: seq<ContainerMeta>, f: ContainerFilter, p: ContainerMeta -> bool)
    requires forall m :: Matches(f, m) <==> p(m)
    ensures Select(all, f) == Sieve(all, p)
  {
    if all == [] {
    } else {
      SelectSieves(all[..|all| - 1], f, p);
    }
  }

  function ByLabel(all: seq<ContainerMeta>, key: string, value: string): seq<ContainerMeta> {
    ListContainers(all, Some(ANY.(labels := map[key := value])))
  }

  /** The list for one label takes the value into account. */
  lemma LabelFilter(all: seq<ContainerMeta>, key: string, value: string)
    ensures ByLabel(all, key, value)
         == Sieve(all, (m: ContainerMeta) => key in m.labels && m.labels[key] == value)
  {
    SelectSieves(all, ANY.(labels := map[key := value]), (m: ContainerMeta) => key in m.labels && m.labels[key] == value);
  }

  lemma StatusFilter(all: seq<ContainerMeta>, status: ContainerStatus)
    ensures ByStatus(all, status) == Sieve(all, (m: ContainerMeta) => m.state.status == status)
  {
    SelectSieves(all, ANY.(status := Some(status)), (m: ContainerMeta) => m.state.status == status);
  }

  ghost function HasInName(pattern: string): ContainerMeta -> bool {
    (m: ContainerMeta) => exists a, b :: m.name == a + pattern + b
  }

  /** A name pattern asks for the names that have it between two parts. */
  lemma NameFilter(all: seq<ContainerMeta>, pattern: string)
    ensures Select(all, ANY.(namePattern := Some(pattern))) == Sieve(all, HasInName(pattern))
  {
    forall m
      ensures Matches(ANY.(namePattern := Some(pattern)), m) <==> HasInName(pattern)(m)
    {
      ContainsIsInfix(m.name, pattern);
    }
    SelectSieves(all, ANY.(namePattern := Some(pattern)), HasInName(pattern));
  }

  lemma TimeFilter(all: seq<ContainerMeta>, since: nat, until: nat)
    ensures Select(all, ANY.(since := Some(since), until := Some(until)))
         == Sieve(all, (m: ContainerMeta) => since <= m.createdAt <= until)
  {
    SelectSieves(all, ANY.(since := Some(since), until := Some(until)),
                 (m: ContainerMeta) => since <= m.createdAt <= until);
  }

  lemma ThenLabels(all: seq<ContainerMeta>, f: ContainerFilter, labels: map<string, string>)
    requires f.labels == map[]
    ensures Select(Select(all, f), ANY.(labels := labels)) == Select(all, f.(labels := labels))
  {
    SelectTwice(all, f, ANY.(labels := labels), f.(labels := labels));
  }

  lemma ThenName(all: seq<ContainerMeta>, f: ContainerFilter, pattern: Option<string>)
    requires f.namePattern.None?
    ensures Select(Select(all, f), ANY.(namePattern := pattern)) == Select(all, f.(namePattern := pattern))
  {
    SelectTwice(all, f, ANY.(namePattern := pattern), f.(namePattern := pattern));
  }

  lemma ThenTimes(all: seq<ContainerMeta>, f: ContainerFilter, since: Option<nat>, until: Option<nat>)
    requires f.since.None? && f.until.None?
    ensures Select(Select(all, f), ANY.(since := since, until := until)) == Select(all, f.(since := since, until := until))
  {
    SelectTwice(all, f, ANY.(since := since, until := until), f.(since := since, until := until));
  }

  /** A filter with several parts asks for all of them: it is its parts one after the other. */
  lemma PartsOfFilter(all: seq<ContainerMeta>, f: ContainerFilter)
    ensures var byStatus := Select(all, ANY.(status := f.status));
            var byLabels := Select(byStatus, ANY.(labels := f.labels));
            var byName := Select(byLabels, ANY.(namePattern := f.namePattern));
            Select(all, f) == Select(byName, ANY.(since := f.since, until := f.until))
  {
    var one := ANY.(status := f.status);
    ThenLabels(all, one, f.labels);
    ThenName(all, one.(labels := f.labels), f.namePattern);
    ThenTimes(all, one.(labels := f.labels, namePattern := f.namePattern), f.since, f.until);
    SameSelection(all, f, f.(limit := None));
  }

  /** Asking for two sets of labels at once is asking for one among the answers to the
      other, in the same order. */
  lemma LabelsNarrow(all: seq<ContainerMeta>, one: map<string, string>, two: map<string, string>)
    requires one.Keys !! two.Keys
    ensures Select(Select(all, ANY.(labels := one)), ANY.(labels := two)) == Select(all, ANY.(labels := one + two))
  {
    forall m
      ensures Matches(ANY.(labels := one + two), m)
         <==> Matches(ANY.(labels := one), m) && Matches(ANY.(labels := two), m)
    {
      LabelsTogether(m, one, two);
    }
    SelectTwice(all, ANY.(labels := one), ANY.(labels := two), ANY.(labels := one + two));
  }

  /** Both ends of a time range are inclusive: "until t" and "since t + 1" split the
      containers, and two ranges that share an end share what was created then. */
  lemma {:induction false} TimesSplit(all: seq<ContainerMeta>, t: nat)
    ensures |Select(all, ANY.(until := Some(t)))| + |Select(all, ANY.(since := Some(t + 1)))| == |all|
    ensures |Select(all, ANY.(until := Some(t)))| + |Select(all, ANY.(since := Some(t)))|
         == |all| + |Select(all, ANY.(since := Some(t), until := Some(t)))|
  {
    if all == [] {
    } else {
      TimesSplit(all[..|all| - 1], t);
    }
  }

  ghost function Positions<T>(all: seq<T>, p: T -> bool): set<nat> {
    set k: nat | k < |all| && p(all[k])
  }

  lemma PositionsNext<T>(all: seq<T>, x: T, p: T -> bool)
    ensures |Positions(all + [x], p)| == |Positions(all, p)| + if p(x) then 1 else 0
  {
    assert forall k: nat | k < |all| :: (all + [x])[k] == all[k];
    if p(x) {
      assert Positions(all + [x], p) == Positions(all, p) + {|all|};
    } else {
      assert Positions(all + [x], p) == Positions(all, p);
    }
  }

  function Matcher(f: ContainerFilter): ContainerMeta -> bool {
    m => Matches(f, m)
  }

  /** The positions of the matching containers. */
  ghost function MatchingAt(all: seq<ContainerMeta>, f: ContainerFilter): set<nat> {
    Positions(all, Matcher(f))
  }

  lemma {:induction false} SelectIsFilter(all: seq<ContainerMeta>, f: ContainerFilter)
    ensures forall m :: m in Select(all, f) <==> m in all && Matches(f, m)
    ensures |Select(all, f)| == |MatchingAt(all, f)|
  {
    if all == [] {
      assert MatchingAt(all, f) == {};
    } else {
      var n := |all| - 1;
      assert all == all[..n] + [all[n]];
      SelectIsFilter(all[..n], f);
      PositionsNext(all[..n], all[n], Matcher(f));
    }
  }

  /** A filtered list holds matching containers only, as many as there are or as the limit
      allows: the first ones, and without a limit all of them. */
  lemma ListIsFilter(all: seq<ContainerMeta>, f: ContainerFilter)
    ensures var r := ListContainers(all, Some(f));
            && (forall m | m in r :: m in all && Matches(f, m))
            && |r| == (if f.limit.Some? && f.limit.value < |MatchingAt(all, f)| then f.limit.value
                       else |MatchingAt(all, f)|)
            && r <= ListContainers(all, Some(f.(limit := None)))
            && (f.limit.None? ==> forall m | m in all && Matches(f, m) :: m in r)
  {
    SelectIsFilter(all, f);
    SameSelection(all, f, f.(limit := None));
  }

  /** No filter and a filter that asks nothing both list everything. */
  lemma {:induction false} AnyListsAll(all: seq<ContainerMeta>)
    ensures ListContainers(all, None) == all == ListContainers(all, Some(ANY))
  {
    if all == [] {
    } else {
      var n := |all| - 1;
      AnyListsAll(all[..n]);
      assert all == all[..n] + [all[n]];
    }
  }

  lemma {:induction false} SameSelection(all: seq<ContainerMeta>, f: ContainerFilter, g: ContainerFilter)
    requires g.(limit := f.limit) == f
    ensures Select(all, f) == Select(all, g)
  {
    if all == [] {
    } else {
      SameSelection(all[..|all| - 1], f, g);
    }
  }

  const U64: nat := 0x1_0000_0000_0000_0000

  datatype ResourceSummary = ResourceSummary(
    totalMemory: nat,
    runningCount: nat,
    totalCount: nat,
    containersByStatus: map<ContainerStatus, nat>)

  function MemoryOf(m: ContainerMeta): nat {
    if m.resources.memoryLimit.Some? then m.resources.memoryLimit.value else 0
  }

  function MemorySum(all: seq<ContainerMeta>): nat {
    if all == [] then 0 else MemorySum(all[..|all| - 1]) + MemoryOf(all[|all| - 1])
  }

  function CountIn(counts: map<ContainerStatus, nat>, status: ContainerStatus): nat {
    if status in counts then counts[status] else 0
  }

  lemma {:induction false} MemoryGrows(all: seq<ContainerMeta>, k: nat)
    requires k <= |all|
    ensures MemorySum(all[..k]) <= MemorySum(all)
  {
    if k < |all| {
      assert all[..|all| - 1][..k] == all[..k];
      MemoryGrows(all[..|all| - 1], k);
    } else {
      assert all[..k] == all;
    }
  }

  lemma ByStatusNext(all: seq<ContainerMeta>, m: ContainerMeta, status: ContainerStatus)
    ensures |ByStatus(all + [m], status)| == |ByStatus(all, status)| + if m.state.status == status then 1 else 0
  {
    assert (all + [m])[..|all|] == all;
  }

  /** The loop of `get_resource_summary`: the entry for a status is the length of the list
      `get_containers_by_status` gives for it. It panics exactly when the memory limits add
      up to more than a u64 holds. */
  method GetResourceSummary(all: seq<ContainerMeta>) returns (r: Outcome<ResourceSummary>)
    ensures r.Panic? <==> MemorySum(all) >= U64
    ensures !r.Err?
    ensures r.Ok? ==>
              && r.value.totalCount == |all|
              && r.value.totalMemory == MemorySum(all)
              && r.value.runningCount == |ByStatus(all, Running)|
              && (forall status :: CountIn(r.value.containersByStatus, status) == |ByStatus(all, status)|)
              && (forall status | status in r.value.containersByStatus :: r.value.containersByStatus[status] > 0)
  {
    var summary := ResourceSummary(0, 0, |all|, map[]);
    for k := 0 to |all|
      invariant summary.totalCount == |all|
      invariant summary.totalMemory == MemorySum(all[..k]) < U64
      invariant summary.runningCount == |ByStatus(all[..k], Running)|
      invariant forall status :: CountIn(summary.containersByStatus, status) == |ByStatus(all[..k], status)|
      invariant forall status | status in summary.containersByStatus :: summary.containersByStatus[status] > 0
    {
      var container := all[k];
      assert all[..k + 1][..k] == all[..k];
      if container.resources.memoryLimit.Some? {
        if summary.totalMemory + container.resources.memoryLimit.value >= U64 {
          MemoryGrows(all, k + 1);
          return Panic;
        }
        summary := summary.(totalMemory := summary.totalMemory + container.resources.memoryLimit.value);
      }
      var status := container.state.status;
      summary := summary.(containersByStatus :=
        summary.containersByStatus[status := CountIn(summary.containersByStatus, status) + 1]);
      forall s
        ensures CountIn(summary.containersByStatus, s) == |ByStatus(all[..k + 1], s)|
      {
        ByStatusNext(all[..k], container, s);
        assert all[..k] + [container] == all[..k + 1];
      }
      if status == Running {
        summary := summary.(runningCount := summary.runningCount + 1);
      }
    }
    assert all[..|all|] == all;
    return Ok(summary);
  }

  /** The counts per status add up to the number of containers. */
  lemma {:induction false} CountsAddUp(all: seq<ContainerMeta>)
    ensures |ByStatus(all, Creating)| + |ByStatus(all, Running)| + |ByStatus(all, Paused)|
          + |ByStatus(all, Restarting)| + |ByStatus(all, Removing)| + |ByStatus(all, Exited)|
          + |ByStatus(all, Dead)| == |all|
  {
    if all == [] {
    } else {
      CountsAddUp(all[..|all| - 1]);
    }
  }

  /** Stores that differ only in `updated_at`, as before a crash and after recovery, give
      the same answer to every filter, container by container. */
  lemma SameAnswers(a: Store, b: Store, f: ContainerFilter)
    requires View(a) == View(b)
    ensures (set id | id in a.byId && Matches(f, a.byId[id])) == (set id | id in b.byId && Matches(f, b.byId[id]))
    ensures forall id | id in a.byId :: id in b.byId && Stampless(a.byId[id]) == Stampless(b.byId[id])
  {
    assert View(a).byId.Keys == a.byId.Keys && View(b).byId.Keys == b.byId.Keys;
    forall id | id in a.byId
      ensures Stampless(a.byId[id]) == Stampless(b.byId[id])
      ensures Matches(f, a.byId[id]) == Matches(f, b.byId[id])
    {
      assert View(a).byId[id] == View(b).byId[id];
      StamplessMatches(f, a.byId[id]);
      StamplessMatches(f, b.byId[id]);
    }
  }

  lemma StamplessMatches(f: ContainerFilter, m: ContainerMeta)
    ensures Matches(f, m) <==> Matches(f, Stampless(m))
  {
  }

  /** `ids` lists the containers of a store, each once, in some order. */
  ghost predicate Lists(ids: seq<string>, v: Store) {
    && (forall id :: id in ids <==> id in v.byId)
    && (forall a, b | 0 <= a < b < |ids| :: ids[a] != ids[b])
  }

  /** `get_all_metas` when the map iterates in the order of `ids`. */
  function AllMetas(v: Store, ids: seq<string>): seq<ContainerMeta>
    requires forall id :: id in ids ==> id in v.byId
  {
    seq(|ids|, k requires 0 <= k < |ids| => v.byId[ids[k]])
  }

  ghost function Matching(v: Store, ids: seq<string>, f: ContainerFilter): set<string>
    requires forall id :: id in ids ==> id in v.byId
  {
    set id | id in ids && Matches(f, v.byId[id])
  }

  lemma MatchingNext(v: Store, ids: seq<string>, id: string, f: ContainerFilter)
    requires forall i :: i in ids + [id] ==> i in v.byId
    requires id !in ids
    ensures |Matching(v, ids + [id], f)| == |Matching(v, ids, f)| + if Matches(f, v.byId[id]) then 1 else 0
  {
    assert id in ids + [id] && id !in Matching(v, ids, f);
    if Matches(f, v.byId[id]) {
      assert Matching(v, ids + [id], f) == Matching(v, ids, f) + {id};
    } else {
      assert Matching(v, ids + [id], f) == Matching(v, ids, f);
    }
  }

  lemma {:induction false} SelectCounts(v: Store, ids: seq<string>, f: ContainerFilter)
    requires forall id :: id in ids ==> id in v.byId
    requires forall a, b | 0 <= a < b < |ids| :: ids[a] != ids[b]
    ensures |Select(AllMetas(v, ids), f)| == |Matching(v, ids, f)|
  {
    if ids == [] {
      assert Matching(v, ids, f) == {};
    } else {
      var n := |ids| - 1;
      var rest, last := ids[..n], ids[n];
      assert ids == rest + [last];
      assert AllMetas(v, ids)[..n] == AllMetas(v, rest);
      SelectCounts(v, rest, f);
      MatchingNext(v, rest, last, f);
    }
  }

  /** Such stores also give lists of the same length for every filter, whatever orders the
      two maps iterate in, and with it the same counts in the resource summary. */
  lemma SameCounts(a: Store, idsA: seq<string>, b: Store, idsB: seq<string>, f: ContainerFilter)
    requires View(a) == View(b) && Lists(idsA, a) && Lists(idsB, b)
    ensures |ListContainers(AllMetas(a, idsA), Some(f))| == |ListContainers(AllMetas(b, idsB), Some(f))|
  {
    SelectCounts(a, idsA, f);
    SelectCounts(b, idsB, f);
    SameAnswers(a, b, f);
    assert Matching(a, idsA, f) == set id | id in a.byId && Matches(f, a.byId[id]);
    assert Matching(b, idsB, f) == set id | id in b.byId && Matches(f, b.byId[id]);
  }

  // ---- The memory total does not depend on the iteration order either ----

  lemma {:induction false} MemoryAddsUp(a: seq<ContainerMeta>, b: seq<ContainerMeta>)
    ensures MemorySum(a + b) == MemorySum(a) + MemorySum(b)
    decreases |b|
  {
    if b == [] {
      assert a + b == a;
    } else {
      var n := |b| - 1;
      assert (a + b)[..|a + b| - 1] == a + b[..n];
      MemoryAddsUp(a, b[..n]);
    }
  }

  lemma MemoryOfOne(m: ContainerMeta)
    ensures MemorySum([m]) == match m.resources.memoryLimit { case Some(limit) => limit case None => 0 }
  {
    assert [m][..0] == [];
  }

  /** The same containers, listed in another order. */
  ghost predicate SameListing(a: seq<string>, b: seq<string>, v: Store) {
    && (forall id :: id in a <==> id in b)
    && (forall id :: id in a ==> id in v.byId)
    && (forall i, j | 0 <= i < j < |a| :: a[i] != a[j])
    && (forall i, j | 0 <= i < j < |b| :: b[i] != b[j])
  }

  lemma SameListingWithout(v: Store, a: seq<string>, b: seq<string>, k: nat)
    requires SameListing(a, b, v) && a != [] && k < |b| && b[k] == a[|a| - 1]
    ensures SameListing(a[..|a| - 1], b[..k] + b[k + 1..], v)
  {
    var n, rest := |a| - 1, b[..k] + b[k + 1..];
    assert a == a[..n] + [a[n]] && b == b[..k] + [b[k]] + b[k + 1..];
    forall id
      ensures id in a[..n] <==> id in a && id != a[n]
      ensures id in rest <==> id in b && id != b[k]
    {
    }
  }

  lemma MemoryWithout(v: Store, b: seq<string>, k: nat)
    requires k < |b| && forall id :: id in b ==> id in v.byId
    ensures MemorySum(AllMetas(v, b)) == MemorySum(AllMetas(v, b[..k] + b[k + 1..])) + MemorySum([v.byId[b[k]]])
  {
    var front, back := AllMetas(v, b[..k]), AllMetas(v, b[k + 1..]);
    assert AllMetas(v, b) == front + ([v.byId[b[k]]] + back);
    assert AllMetas(v, b[..k] + b[k + 1..]) == front + back;
    MemoryAddsUp(front, [v.byId[b[k]]] + back);
    MemoryAddsUp([v.byId[b[k]]], back);
    MemoryAddsUp(front, back);
  }

  lemma HasMember(ids: seq<string>)
    ensures ids != [] ==> exists id :: id in ids
  {
    if ids != [] {
      assert ids[0] in ids;
    }
  }

  lemma {:induction false} MemoryAnyOrder(v: Store, a: seq<string>, b: seq<string>)
    requires SameListing(a, b, v)
    ensures MemorySum(AllMetas(v, a)) == MemorySum(AllMetas(v, b))
    decreases |a|
  {
    if a == [] {
      HasMember(b);
    } else {
      var n := |a| - 1;
      assert a[n] in b;
      var k :| 0 <= k < |b| && b[k] == a[n];
      SameListingWithout(v, a, b, k);
      MemoryAnyOrder(v, a[..n], b[..k] + b[k + 1..]);
      MemoryWithout(v, a, n);
      assert a[..n] + a[n + 1..] == a[..n];
      MemoryWithout(v, b, k);
    }
  }

  lemma {:induction false} MemoryOfViews(a: Store, b: Store, ids: seq<string>)
    requires View(a) == View(b) && forall id :: id in ids ==> id in a.byId && id in b.byId
    ensures MemorySum(AllMetas(a, ids)) == MemorySum(AllMetas(b, ids))
    decreases |ids|
  {
    if ids == [] {
    } else {
      var n := |ids| - 1;
      MemoryOfViews(a, b, ids[..n]);
      assert AllMetas(a, ids)[..n] == AllMetas(a, ids[..n]) && AllMetas(b, ids)[..n] == AllMetas(b, ids[..n]);
      assert View(a).byId[ids[n]] == View(b).byId[ids[n]];
    }
  }

  /** Stores that differ only in `updated_at` have one memory total, whatever orders the two
      maps iterate in; so the summary panics before a crash exactly if it does after. */
  lemma SameMemory(a: Store, idsA: seq<string>, b: Store, idsB: seq<string>)
    requires View(a) == View(b) && Lists(idsA, a) && Lists(idsB, b)
    ensures MemorySum(AllMetas(a, idsA)) == MemorySum(AllMetas(b, idsB))
  {
    assert View(a).byId.Keys == a.byId.Keys && View(b).byId.Keys == b.byId.Keys;
    MemoryAnyOrder(a, idsA, idsB);
    MemoryOfViews(a, b, idsB);
  }

  // ---- Lookup by name against a scan ----

  /** The first container with the name, in the order of the list. */
  function Scan(all: seq<ContainerMeta>, name: string): (r: Option<ContainerMeta>)
    ensures r.Some? ==> r.value in all && r.value.name == name
    ensures r.None? ==> forall m | m in all :: m.name != name
  {
    if all == [] then None
    else if all[0].name == name then Some(all[0])
    else Scan(all[1..], name)
  }

  /** The index gives what a scan gives, for every name and every iteration order. */
  ghost predicate LookupsScan(v: Store) {
    forall ids, name :: Lists(ids, v) ==> LookupByName(v, name) == Ok(Scan(AllMetas(v, ids), name))
  }

  /** Every container is filed under its own id. */
  ghost predicate WellKeyed(v: Store) {
    forall id | id in v.byId :: v.byId[id].id == id
  }

  lemma ExactScans(v: Store, ids: seq<string>, name: string)
    requires Exact(v) && Lists(ids, v)
    ensures LookupByName(v, name) == Ok(Scan(AllMetas(v, ids), name))
  {
    var all := AllMetas(v, ids);
    if name in v.byName {
      var k :| 0 <= k < |ids| && ids[k] == v.byName[name];
      assert all[k] in all && all[k].name == name;
    }
    if Scan(all, name).Some? {
      var k :| 0 <= k < |all| && all[k] == Scan(all, name).value;
      assert ids[k] in v.byId && v.byId[ids[k]] == all[k];
    }
  }

  lemma {:induction false} SetListed(ids: set<string>) returns (s: seq<string>)
    ensures forall id :: id in s <==> id in ids
    ensures forall a, b | 0 <= a < b < |s| :: s[a] != s[b]
    decreases ids
  {
    if ids == {} {
      s := [];
    } else {
      var id :| id in ids;
      var rest := SetListed(ids - {id});
      s := [id] + rest;
    }
  }

  lemma ListedFirst(v: Store, id: string) returns (ids: seq<string>)
    requires id in v.byId
    ensures Lists(ids, v) && ids != [] && ids[0] == id
  {
    var rest := SetListed(v.byId.Keys - {id});
    ids := [id] + rest;
  }

  lemma ScansExact(v: Store)
    requires WellKeyed(v) && LookupsScan(v)
    ensures Exact(v)
  {
    var any := SetListed(v.byId.Keys);
    assert Lists(any, v);
    forall n | n in v.byName
      ensures v.byName[n] in v.byId && v.byId[v.byName[n]].name == n
    {
      assert LookupByName(v, n) == Ok(Scan(AllMetas(v, any), n));
    }
    forall id | id in v.byId
      ensures v.byId[id].name in v.byName && v.byName[v.byId[id].name] == id
    {
      var ids := ListedFirst(v, id);
      assert AllMetas(v, ids)[0] == v.byId[id];
      assert LookupByName(v, v.byId[id].name) == Ok(Scan(AllMetas(v, ids), v.byId[id].name));
    }
  }

  /** Lookup by name finds what a scan of all containers would find, whatever order the map
      iterates in, if and only if the index is exact. */
  lemma LookupIsScan(v: Store)
    requires WellKeyed(v)
    ensures LookupsScan(v) <==> Exact(v)
  {
    if Exact(v) {
      forall ids, name | Lists(ids, v)
        ensures LookupByName(v, name) == Ok(Scan(AllMetas(v, ids), name))
      {
        ExactScans(v, ids, name);
      }
    } else if LookupsScan(v) {
      ScansExact(v);
    }
  }

  lemma {:induction false} RunsWellKeyed(ops: seq<Leaf>)
    ensures WellKeyed(Fold(EMPTY, ops))
  {
    if ops == [] {
    } else {
      RunsWellKeyed(ops[..|ops| - 1]);
    }
  }

  /** So after any history the index answers like a scan, throughout and in every iteration
      order, if and only if every create was admissible. */
  lemma HistoriesScan(ops: seq<Leaf>)
    ensures (forall k | 0 <= k <= |ops| :: LookupsScan(Fold(EMPTY, ops[..k]))) <==> AdmissibleRun(EMPTY, ops)
  {
    forall k | 0 <= k <= |ops|
      ensures LookupsScan(Fold(EMPTY, ops[..k])) <==> Exact(Fold(EMPTY, ops[..k]))
    {
      RunsWellKeyed(ops[..k]);
      LookupIsScan(Fold(EMPTY, ops[..k]));
    }
    ExactEverywhere(EMPTY, ops);
  }
}
