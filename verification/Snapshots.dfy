/** Saved states as a time-ordered collection (src/core/metas/snapshot.rs). A snapshot is
    written whole and renamed into place; no two files have the same modification time. */
module Snapshots {
  import opened Metas
  import opened Interpreter

  predicate Ascending(times: seq<nat>) {
    |times| > 1 ==> times[0] < times[1] && Ascending(times[1..])
  }

  lemma {:induction false} HeadIsLeast(times: seq<nat>, t: nat)
    requires Ascending(times) && t in times
    ensures times[0] <= t && (t == times[0] <==> t !in times[1..])
  {
    assert times == [times[0]] + times[1..];
    if t in times[1..] {
      HeadIsLeast(times[1..], t);
    }
  }

  lemma {:induction false} LastIsGreatest(times: seq<nat>, t: nat)
    requires Ascending(times) && t in times
    ensures t <= times[|times| - 1]
  {
    if |times| <= 1 {
    } else {
      assert times == [times[0]] + times[1..];
      LastIsGreatest(times[1..], if t == times[0] then times[1] else t);
    }
  }

  /** The modification times of a directory, oldest first. */
  ghost predicate ByAge(times: seq<nat>, files: map<nat, Store>) {
    Ascending(times) && forall t :: t in times <==> t in files
  }

  /** Deleting the oldest file. */
  lemma WithoutOldest(times: seq<nat>, files: map<nat, Store>)
    requires ByAge(times, files) && times != []
    ensures times[0] in files && ByAge(times[1..], files - {times[0]})
    ensures |files| == |files - {times[0]}| + 1
  {
    assert times == [times[0]] + times[1..];
    assert files.Keys == (files - {times[0]}).Keys + {times[0]};
    HeadIsLeast(times, times[0]);
  }

  lemma {:induction false} ByAgeLength(times: seq<nat>, files: map<nat, Store>)
    requires ByAge(times, files)
    ensures |times| == |files|
  {
    if times == [] {
      assert files.Keys == {};
    } else {
      WithoutOldest(times, files);
      ByAgeLength(times[1..], files - {times[0]});
    }
  }

  function Insert(times: seq<nat>, t: nat): seq<nat> {
    if times == [] || t < times[0] then [t] + times else [times[0]] + Insert(times[1..], t)
  }

  lemma {:induction false} InsertKeepsOrder(times: seq<nat>, t: nat)
    requires Ascending(times) && t !in times
    ensures Ascending(Insert(times, t))
    ensures forall u :: u in Insert(times, t) <==> u in times || u == t
  {
    if times != [] && times[0] < t {
      var rest := Insert(times[1..], t);
      assert times == [times[0]] + times[1..];
      InsertKeepsOrder(times[1..], t);
      assert ([times[0]] + rest)[1..] == rest;
    } else {
      assert ([t] + times)[1..] == times;
    }
  }

  /** The state a restart begins with. */
  ghost predicate IsLatest(files: map<nat, Store>, state: Store) {
    if files == map[] then state == EMPTY
    else exists t :: t in files && files[t] == state && forall u :: u in files ==> u <= t
  }

  function Surplus(have: nat, max: nat): nat {
    if have <= max then 0 else have - max
  }

  /** Purging left exactly the newest `max` files, unchanged. */
  ghost predicate KeepsNewest(before: map<nat, Store>, after: map<nat, Store>, max: nat) {
    && |after| == (if |before| <= max then |before| else max)
    && (forall t :: t in after ==> t in before && after[t] == before[t])
    && (forall t, u :: t in before && t !in after && u in after ==> t < u)
  }

  lemma {:induction false} AscendingAt(times: seq<nat>, i: nat, j: nat)
    requires Ascending(times) && i < j < |times|
    ensures times[i] < times[j]
  {
    if i > 0 {
      AscendingAt(times[1..], i - 1, j - 1);
    } else if j > 1 {
      AscendingAt(times[1..], 0, j - 1);
    }
  }

  lemma OlderThanSuffix(ages: seq<nat>, d: nat, t: nat, u: nat)
    requires Ascending(ages) && d <= |ages|
    requires t in ages && t !in ages[d..] && u in ages[d..]
    ensures t < u
  {
    assert ages == ages[..d] + ages[d..];
    var a :| 0 <= a < d && ages[..d][a] == t;
    var b :| 0 <= b < |ages[d..]| && ages[d..][b] == u;
    AscendingAt(ages, a, d + b);
  }

  /** What is gone is older than what is left. */
  ghost predicate LeavesNewer(before: map<nat, Store>, after: map<nat, Store>) {
    && after.Keys <= before.Keys
    && forall t, u :: t in before && t !in after && u in after ==> t < u
  }

  lemma OldestGoesFirst(ages: seq<nat>, before: map<nat, Store>, after: map<nat, Store>)
    requires ByAge(ages, before) && LeavesNewer(before, after) && before.Keys != after.Keys
    ensures ages != [] && ages[0] in before && ages[0] !in after
    ensures LeavesNewer(before - {ages[0]}, after)
  {
    var t :| t in before && t !in after;
    assert t in ages;
    HeadIsLeast(ages, t);
    assert ages[0] in ages;
  }

  lemma KeptAll(ages: seq<nat>, before: map<nat, Store>, after: map<nat, Store>)
    requires ByAge(ages, before) && before.Keys == after.Keys
    ensures |after| == |ages| && ByAge(ages[0..], after)
  {
    assert forall t :: t in before <==> t in after;
    ByAgeLength(ages, after);
    assert ages[0..] == ages;
  }

  /** What a purge keeps is a suffix of the listing. */
  lemma {:induction false} KeptIsSuffix(ages: seq<nat>, before: map<nat, Store>, after: map<nat, Store>)
    requires ByAge(ages, before) && LeavesNewer(before, after)
    ensures |after| <= |ages| && ByAge(ages[|ages| - |after|..], after)
    decreases |ages|
  {
    if before.Keys == after.Keys {
      KeptAll(ages, before, after);
    } else {
      OldestGoesFirst(ages, before, after);
      WithoutOldest(ages, before);
      KeptIsSuffix(ages[1..], before - {ages[0]}, after);
      assert ages[1..][|ages| - 1 - |after|..] == ages[|ages| - |after|..];
    }
  }

  lemma NewestIsSuffix(ages: seq<nat>, before: map<nat, Store>, after: map<nat, Store>, d: nat)
    requires d <= |ages| && ByAge(ages, before) && ByAge(ages[d..], after)
    requires forall t :: t in after ==> t in before && after[t] == before[t]
    ensures d <= |before| && KeepsNewest(before, after, |before| - d)
  {
    ByAgeLength(ages, before);
    ByAgeLength(ages[d..], after);
    forall t, u | t in before && t !in after && u in after
      ensures t < u
    {
      OlderThanSuffix(ages, d, t, u);
    }
  }

  /** The `k` oldest of the files listed by `ages` are gone. */
  ghost predicate Purging(ages: seq<nat>, before: map<nat, Store>, after: map<nat, Store>, k: nat) {
    && k <= |ages| && ByAge(ages, before) && ByAge(ages[k..], after)
    && forall t :: t in after ==> t in before && after[t] == before[t]
  }

  lemma PurgeNext(ages: seq<nat>, before: map<nat, Store>, after: map<nat, Store>, k: nat)
    requires Purging(ages, before, after, k) && k < |ages|
    ensures Purging(ages, before, after - {ages[k]}, k + 1)
  {
    WithoutOldest(ages[k..], after);
    assert ages[k..][1..] == ages[k + 1..];
  }

  lemma Purged(ages: seq<nat>, before: map<nat, Store>, after: map<nat, Store>, k: nat)
    requires Purging(ages, before, after, k)
    ensures k <= |before| && KeepsNewest(before, after, |before| - k)
  {
    NewestIsSuffix(ages, before, after, k);
  }

  lemma PurgeStops(ages: seq<nat>, before: map<nat, Store>, after: map<nat, Store>, k: nat, max: nat)
    requires Purging(ages, before, after, k) && k <= Surplus(|ages|, max)
    ensures |ages| == |before|
    ensures k == Surplus(|ages|, max) ==> KeepsNewest(before, after, max)
    ensures k < Surplus(|ages|, max) ==> k < |before| && KeepsNewest(before, after, |before| - k)
  {
    ByAgeLength(ages, before);
    Purged(ages, before, after, k);
  }

  /** Purging never changes what a restart loads, unless it purges everything. */
  lemma LatestSurvivesPurge(before: map<nat, Store>, after: map<nat, Store>, max: nat, state: Store)
    requires KeepsNewest(before, after, max) && IsLatest(before, state)
    ensures max >= 1 ==> IsLatest(after, state)
    ensures max == 0 ==> IsLatest(after, EMPTY)
  {
    if max >= 1 && before != map[] {
      assert |before| != 0;
      assert after != map[];
      var t :| t in before && before[t] == state && forall u :: u in before ==> u <= t;
      var u :| u in after;
      assert t in after;
    }
  }

  class Snapshotter {
    var files: map<nat, Store>  // by modification time
    const maxSnapshots: nat

    constructor (files: map<nat, Store>, maxSnapshots: nat)
      ensures this.files == files && this.maxSnapshots == maxSnapshots
    {
      this.files, this.maxSnapshots := files, maxSnapshots;
    }

    method TakeSnapshot(state: Store, now: nat, diskOk: bool) returns (r: Outcome<()>)
      modifies this
      ensures r.Ok? <==> diskOk
      ensures !diskOk ==> files == old(files)
      ensures diskOk ==> now in files && files - {now} == old(files) - {now}
      ensures diskOk && (forall t :: t in old(files) ==> t < now) ==> IsLatest(files, state)
    {
      if !diskOk {
        return Err("io");
      }
      files := files[now := state];
      assert now in files && files[now] == state;
      return Ok(());
    }

    /** Reads the directory, in any order, and sorts it by modification time. */
    method ListByAge() returns (times: seq<nat>)
      ensures ByAge(times, files)
    {
      times := [];
      var rest := files.Keys;
      while rest != {}
        invariant rest <= files.Keys && Ascending(times)
        invariant forall t :: t in times <==> t in files && t !in rest
        decreases rest
      {
        var t :| t in rest;
        InsertKeepsOrder(times, t);
        times, rest := Insert(times, t), rest - {t};
      }
    }

    /** Fails when the directory or the newest file cannot be read, or does not decode. */
    method LoadLatest(diskOk: bool) returns (r: Outcome<Store>)
      ensures r.Ok? <==> diskOk
      ensures r.Ok? ==> IsLatest(files, r.value)
      ensures !r.Panic?
    {
      if !diskOk {
        return Err("io");
      }
      var entries := ListByAge();
      if entries == [] {
        assert forall t :: t !in files;
        return Ok(EMPTY);
      }
      var last := entries[|entries| - 1];
      forall u | u in files
        ensures u <= last
      {
        LastIsGreatest(entries, u);
      }
      assert last in entries;
      return Ok(files[last]);
    }

    /** Deletes oldest files first; when the deletion after `deletable` of them fails, it
        stops there. What is left is always the newest files. */
    method PurgeOldSnapshots(deletable: nat) returns (r: Outcome<()>)
      modifies this
      ensures r.Ok? <==> |old(files)| <= maxSnapshots + deletable
      ensures r.Ok? ==> KeepsNewest(old(files), files, maxSnapshots)
      ensures !r.Ok? ==> KeepsNewest(old(files), files, |old(files)| - deletable)
    {
      var entries := ListByAge();
      ghost var before := files;
      var toDelete := Surplus(|entries|, maxSnapshots);
      var k := 0;
      while k < toDelete && k < deletable
        invariant 0 <= k <= toDelete && k <= deletable
        invariant Purging(entries, before, files, k)
      {
        PurgeNext(entries, before, files, k);
        files := files - {entries[k]};
        k := k + 1;
      }
      PurgeStops(entries, before, files, k, maxSnapshots);
      return if k == toDelete then Ok(()) else Err("io");
    }
  }
}
