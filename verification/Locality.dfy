/** What one container's history does to it: only its own operations matter, the fields
    are last-writer-wins, and the mount list is the one part that is not idempotent
    (src/core/metas/meta.rs:377-449). */
module Locality {
  import opened Metas
  import opened Interpreter

  function Entry(v: Store, id: string): Option<ContainerMeta> {
    if id in v.byId then Some(v.byId[id]) else None
  }

  /** The operations about one container, in order. */
  function Project(ops: seq<Leaf>, id: string): seq<Leaf> {
    if ops == [] then []
    else
      var before, op := Project(ops[..|ops| - 1], id), ops[|ops| - 1];
      if Target(op) == id then before + [op] else before
  }

  lemma {:induction false} ProjectMembers(ops: seq<Leaf>, id: string)
    ensures forall op :: op in Project(ops, id) <==> op in ops && Target(op) == id
  {
    if ops == [] {
    } else {
      var before, op := ops[..|ops| - 1], ops[|ops| - 1];
      ProjectMembers(before, id);
      assert forall o :: o in ops <==> o in before || o == op by {
        assert ops == before + [op];
      }
    }
  }

  lemma {:induction false} ProjectConcat(a: seq<Leaf>, b: seq<Leaf>, id: string)
    ensures Project(a + b, id) == Project(a, id) + Project(b, id)
    decreases |b|
  {
    if b == [] {
      assert a + b == a;
    } else {
      var before, last := b[..|b| - 1], b[|b| - 1];
      ProjectConcat(a, before, id);
      assert (a + b)[..|a + b| - 1] == a + before;
      assert Project(a, id) + (Project(before, id) + [last]) == Project(a, id) + Project(before, id) + [last];
    }
  }

  function EntryNext(e: Option<ContainerMeta>, op: Leaf): Option<ContainerMeta> {
    if op.Create? then Some(Stampless(op.meta))
    else if op.Delete? || e.None? then None
    else Some(Updated(e.value, op, 0))
  }

  function EntryFold(e: Option<ContainerMeta>, ops: seq<Leaf>): Option<ContainerMeta> {
    if ops == [] then e else EntryNext(EntryFold(e, ops[..|ops| - 1]), ops[|ops| - 1])
  }

  /** A container's entry is decided by the operations about it alone. */
  lemma {:induction false} FoldIsLocal(v: Store, ops: seq<Leaf>, id: string)
    ensures Entry(Fold(v, ops), id) == EntryFold(Entry(v, id), Project(ops, id))
  {
    if ops == [] {
    } else {
      var n := |ops| - 1;
      FoldIsLocal(v, ops[..n], id);
      if Target(ops[n]) == id {
        var before := Project(ops[..n], id);
        assert (before + [ops[n]])[..|before|] == before;
      }
    }
  }

  lemma SameEntries(a: Store, b: Store)
    requires forall id :: Entry(a, id) == Entry(b, id)
    ensures a.byId == b.byId
  {
    forall id
      ensures id in a.byId <==> id in b.byId
      ensures id in a.byId ==> a.byId[id] == b.byId[id]
    {
      assert Entry(a, id) == Entry(b, id);
    }
  }

  /** Operations on different containers commute: sequences with the same operations per
      container leave the same containers, whatever the interleaving and the clock. */
  lemma InterleavingIsIrrelevant(s: Store, a: seq<Leaf>, ta: seq<nat>, b: seq<Leaf>, tb: seq<nat>)
    requires |a| == |ta| && |b| == |tb|
    requires forall id :: Project(a, id) == Project(b, id)
    ensures View(Replay(s, a, ta)).byId == View(Replay(s, b, tb)).byId
  {
    ReplayView(s, a, ta);
    ReplayView(s, b, tb);
    var va, vb := Fold(View(s), a), Fold(View(s), b);
    forall id
      ensures Entry(va, id) == Entry(vb, id)
    {
      FoldIsLocal(View(s), a, id);
      FoldIsLocal(View(s), b, id);
      assert Project(a, id) == Project(b, id);
    }
    SameEntries(va, vb);
  }

  // ---- An entry field by field, without the interpreter ----

  /** The value of the last operation that writes a field at all. */
  function LastWrite<T>(ops: seq<Leaf>, writes: Leaf -> Option<T>): Option<T> {
    if ops == [] then None
    else
      var last := writes(ops[|ops| - 1]);
      if last.Some? then last else LastWrite(ops[..|ops| - 1], writes)
  }

  function PresenceWritten(op: Leaf): Option<bool> {
    if op.Create? || op.Delete? then Some(op.Create?) else None
  }

  function StatusWritten(op: Leaf): Option<ContainerStatus> {
    match op
    case Create(m) => Some(m.state.status)
    case UpdateState(_, state) => Some(state.status)
    case UpdateStatus(_, status) => Some(status)
    case _ => None
  }

  /** The rest of the state, with the status blanked out. */
  function StateWritten(op: Leaf): Option<ContainerState> {
    match op
    case Create(m) => Some(m.state.(status := Dead))
    case UpdateState(_, state) => Some(state.(status := Dead))
    case _ => None
  }

  function EnvWritten(op: Leaf): Option<map<string, string>> {
    match op
    case Create(m) => Some(m.env)
    case UpdateEnvironment(_, env) => Some(env)
    case _ => None
  }

  function LabelsWritten(op: Leaf): Option<map<string, string>> {
    match op
    case Create(m) => Some(m.labels)
    case UpdateLabels(_, labels) => Some(labels)
    case _ => None
  }

  function ResourcesWritten(op: Leaf): Option<ResourceConfig> {
    match op
    case Create(m) => Some(m.resources)
    case UpdateResources(_, resources) => Some(resources)
    case _ => None
  }

  function NetworkWritten(op: Leaf): Option<Option<NetworkConfig>> {
    match op
    case Create(m) => Some(m.network)
    case AttachNetwork(_, network) => Some(Some(network))
    case DetachNetwork(_) => Some(None)
    case _ => None
  }

  /** Everything that only `Create` writes: the updatable fields are blanked out. */
  function IdentityWritten(op: Leaf): Option<ContainerMeta> {
    if op.Create? then Some(Identity(op.meta)) else None
  }

  function Identity(m: ContainerMeta): ContainerMeta {
    m.(updatedAt := 0, env := map[], labels := map[], mounts := [], network := None,
       state := ContainerState(Dead, None, None, None, None, None, 0, Unknown),
       resources := ResourceConfig(None, None, None, None))
  }

  /** A container that is there after `ops`, having not been there before, has in each
      field what the last operation writing that field wrote -- where `UpdateState` and
      `UpdateStatus` both write the status. It is there unless `ops` never creates it or
      deletes it last. */
  lemma {:induction false} FieldsAreLastWrites(ops: seq<Leaf>)
    ensures EntryFold(None, ops).Some? <==>
      LastWrite(ops, PresenceWritten) == Some(true)
    ensures EntryFold(None, ops).Some? ==>
      var m := EntryFold(None, ops).value;
      && LastWrite(ops, IdentityWritten) == Some(Identity(m))
      && LastWrite(ops, StatusWritten) == Some(m.state.status)
      && LastWrite(ops, StateWritten) == Some(m.state.(status := Dead))
      && LastWrite(ops, EnvWritten) == Some(m.env)
      && LastWrite(ops, LabelsWritten) == Some(m.labels)
      && LastWrite(ops, ResourcesWritten) == Some(m.resources)
      && LastWrite(ops, NetworkWritten) == Some(m.network)
  {
    if ops == [] {
    } else {
      FieldsAreLastWrites(ops[..|ops| - 1]);
    }
  }

  // ---- The one field that View blanks out ----

  /** The clock reading of the last update about `id`, or what its `Create` carried if that
      came later. */
  function LastStamp(ops: seq<Leaf>, times: seq<nat>, id: string): Option<nat>
    requires |ops| == |times|
  {
    if ops == [] then None
    else
      var n := |ops| - 1;
      if Target(ops[n]) != id || ops[n].Delete? then LastStamp(ops[..n], times[..n], id)
      else Some(if ops[n].Create? then ops[n].meta.updatedAt else times[n])
  }

  /** In every replay, with the clock readings it made, a container that is there has been
      stamped by the last update about it since it was created, whichever kind that was. */
  lemma {:induction false} StampIsLastReading(s: Store, ops: seq<Leaf>, times: seq<nat>, id: string)
    requires |ops| == |times| && id in Replay(s, ops, times).byId
    ensures var stamp := LastStamp(ops, times, id);
            && (stamp.None? ==> id in s.byId)
            && Replay(s, ops, times).byId[id].updatedAt ==
                 if stamp.Some? then stamp.value else s.byId[id].updatedAt
  {
    if ops == [] {
    } else {
      var n := |ops| - 1;
      if Target(ops[n]) != id || !ops[n].Create? {
        StampIsLastReading(s, ops[..n], times[..n], id);
      }
    }
  }

  // ---- Resets: Create and Delete forget what was there ----

  ghost predicate Resets(ops: seq<Leaf>, id: string) {
    exists op :: op in ops && (op.Create? || op.Delete?) && Target(op) == id
  }

  /** All of `ops` are about `id`. */
  ghost predicate AllAbout(ops: seq<Leaf>, id: string) {
    forall op :: op in ops ==> Target(op) == id
  }

  lemma {:induction false} ResetForgets(e: Option<ContainerMeta>, f: Option<ContainerMeta>, ops: seq<Leaf>, id: string)
    requires AllAbout(ops, id) && Resets(ops, id)
    ensures EntryFold(e, ops) == EntryFold(f, ops)
  {
    var n := |ops| - 1;
    assert ops == ops[..n] + [ops[n]];
    if !(ops[n].Create? || ops[n].Delete?) {
      assert Resets(ops[..n], id);
      ResetForgets(e, f, ops[..n], id);
    }
  }

  // ---- Updates only: everything but the mounts ----

  predicate UpdatesOnly(ops: seq<Leaf>) {
    forall op :: op in ops ==> IsUpdate(op)
  }

  function MetaFold(m: ContainerMeta, ops: seq<Leaf>): ContainerMeta
    requires UpdatesOnly(ops)
  {
    if ops == [] then m else Updated(MetaFold(m, ops[..|ops| - 1]), ops[|ops| - 1], 0)
  }

  lemma {:induction false} EntryFoldUpdates(e: Option<ContainerMeta>, ops: seq<Leaf>)
    requires UpdatesOnly(ops)
    ensures EntryFold(e, ops) == if e.None? then None else Some(MetaFold(e.value, ops))
  {
    if ops == [] {
    } else {
      var n := |ops| - 1;
      assert ops[n] in ops;
      EntryFoldUpdates(e, ops[..n]);
    }
  }

  function Mountless(m: ContainerMeta): ContainerMeta {
    m.(mounts := [])
  }

  function Overwrite(m: ContainerMeta, op: Leaf): ContainerMeta
    requires IsUpdate(op)
  {
    Mountless(Updated(m, op, 0))
  }

  lemma StateAgain(m: ContainerMeta, u: Leaf, w: Leaf)
    requires IsUpdate(u) && IsUpdate(w) && (u.UpdateStatus? || u.UpdateState?)
    ensures Overwrite(Overwrite(Overwrite(m, u), w), u) == Overwrite(Overwrite(m, w), u)
  {
  }

  lemma FieldAgain(m: ContainerMeta, u: Leaf, w: Leaf)
    requires IsUpdate(u) && IsUpdate(w) && (u.UpdateEnvironment? || u.UpdateLabels? || u.UpdateResources?)
    ensures Overwrite(Overwrite(Overwrite(m, u), w), u) == Overwrite(Overwrite(m, w), u)
  {
  }

  /** Last writer wins, also for `UpdateStatus` inside `UpdateState`: an update that is
      made again later might as well not have been made the first time. */
  lemma WriteAgain(m: ContainerMeta, u: Leaf, w: Leaf)
    requires IsUpdate(u) && IsUpdate(w)
    ensures Overwrite(Overwrite(Overwrite(m, u), w), u) == Overwrite(Overwrite(m, w), u)
  {
    if u.UpdateStatus? || u.UpdateState? {
      StateAgain(m, u, w);
    } else if u.UpdateEnvironment? || u.UpdateLabels? || u.UpdateResources? {
      FieldAgain(m, u, w);
    }
  }

  function OverwriteAll(m: ContainerMeta, ops: seq<Leaf>): ContainerMeta
    requires UpdatesOnly(ops)
  {
    if ops == [] then m else Overwrite(OverwriteAll(m, ops[..|ops| - 1]), ops[|ops| - 1])
  }

  lemma {:induction false} OverwriteConcat(m: ContainerMeta, a: seq<Leaf>, b: seq<Leaf>)
    requires UpdatesOnly(a) && UpdatesOnly(b)
    ensures OverwriteAll(m, a + b) == OverwriteAll(OverwriteAll(m, a), b)
    decreases |b|
  {
    if b == [] {
      assert a + b == a;
    } else {
      var n := |b| - 1;
      assert (a + b)[..|a| + n] == a + b[..n];
      OverwriteConcat(m, a, b[..n]);
    }
  }

  lemma {:induction false} Mountlessly(m: ContainerMeta, ops: seq<Leaf>)
    requires UpdatesOnly(ops)
    ensures Mountless(MetaFold(m, ops)) == OverwriteAll(Mountless(m), ops)
  {
    if ops == [] {
    } else {
      Mountlessly(m, ops[..|ops| - 1]);
    }
  }

  lemma {:induction false} Absorbed(m: ContainerMeta, u: Leaf, ops: seq<Leaf>)
    requires IsUpdate(u) && UpdatesOnly(ops)
    ensures Overwrite(OverwriteAll(Overwrite(m, u), ops), u) == Overwrite(OverwriteAll(m, ops), u)
  {
    if ops == [] {
      WriteAgain(m, u, u);
    } else {
      var n := |ops| - 1;
      Absorbed(m, u, ops[..n]);
      WriteAgain(OverwriteAll(Overwrite(m, u), ops[..n]), u, ops[n]);
      WriteAgain(OverwriteAll(m, ops[..n]), u, ops[n]);
    }
  }

  lemma {:induction false} PrefixAbsorbed(m: ContainerMeta, ops: seq<Leaf>, k: nat)
    requires UpdatesOnly(ops) && k <= |ops|
    ensures OverwriteAll(OverwriteAll(m, ops[..k]), ops) == OverwriteAll(m, ops)
  {
    if k == 0 {
    } else {
      var before, u := ops[..k - 1], ops[k - 1];
      assert ops[..k][..k - 1] == before && ops[..k] == before + [u];
      var start := OverwriteAll(m, before);
      Absorbed(start, u, before);
      assert ops == ops[..k] + ops[k..];
      OverwriteConcat(Overwrite(start, u), ops[..k], ops[k..]);
      OverwriteConcat(start, ops[..k], ops[k..]);
      PrefixAbsorbed(m, ops, k - 1);
    }
  }

  // ---- Updates only: the mounts ----

  function MountFold(mounts: seq<MountPoint>, ops: seq<Leaf>): seq<MountPoint> {
    if ops == [] then mounts
    else
      var before, op := MountFold(mounts, ops[..|ops| - 1]), ops[|ops| - 1];
      match op
      case AddMount(_, mount) => before + [mount]
      case RemoveMount(_, destination) => Without(before, {destination})
      case _ => before
  }

  lemma {:induction false} MountsOfFold(m: ContainerMeta, ops: seq<Leaf>)
    requires UpdatesOnly(ops)
    ensures MetaFold(m, ops).mounts == MountFold(m.mounts, ops)
  {
    if ops == [] {
    } else {
      var n := |ops| - 1;
      assert ops[n] in ops;
      MountsOfFold(m, ops[..n]);
    }
  }

  /** The destinations that are unmounted somewhere in `ops`. */
  function Removed(ops: seq<Leaf>): set<string> {
    set op | op in ops && op.RemoveMount? :: op.destination
  }

  lemma {:induction false} WithoutMember(mounts: seq<MountPoint>, gone: set<string>, m: MountPoint)
    ensures m in Without(mounts, gone) <==> m in mounts && m.destination !in gone
  {
    if mounts == [] {
    } else {
      WithoutMember(mounts[1..], gone, m);
    }
  }

  lemma {:induction false} WithoutConcat(a: seq<MountPoint>, b: seq<MountPoint>, gone: set<string>)
    ensures Without(a + b, gone) == Without(a, gone) + Without(b, gone)
  {
    if a == [] {
      assert a + b == b;
    } else {
      assert (a + b)[1..] == a[1..] + b;
      WithoutConcat(a[1..], b, gone);
    }
  }

  lemma {:induction false} WithoutTwice(a: seq<MountPoint>, gone: set<string>, more: set<string>)
    ensures Without(Without(a, gone), more) == Without(a, gone + more)
  {
    if a == [] {
    } else {
      var rest := Without(a[1..], gone);
      WithoutTwice(a[1..], gone, more);
      if a[0].destination !in gone {
        assert ([a[0]] + rest)[1..] == rest;
      }
    }
  }

  lemma {:induction false} WithoutNothing(a: seq<MountPoint>)
    ensures Without(a, {}) == a
  {
    if a == [] {
    } else {
      WithoutNothing(a[1..]);
    }
  }

  lemma RemovedSnoc(ops: seq<Leaf>, op: Leaf)
    requires op.RemoveMount?
    ensures Removed(ops + [op]) == Removed(ops) + {op.destination}
  {
    assert forall o :: o in ops + [op] <==> o in ops || o == op;
  }

  /** Mounts from before survive unless unmounted; mounts added come after them. */
  lemma {:induction false} MountFoldSplits(mounts: seq<MountPoint>, ops: seq<Leaf>)
    ensures MountFold(mounts, ops) == Without(mounts, Removed(ops)) + MountFold([], ops)
  {
    if ops == [] {
      WithoutNothing(mounts);
      assert Removed(ops) == {};
    } else {
      var n := |ops| - 1;
      var op, gone := ops[n], Removed(ops[..n]);
      assert ops == ops[..n] + [op];
      MountFoldSplits(mounts, ops[..n]);
      if op.RemoveMount? {
        RemovedSnoc(ops[..n], op);
        WithoutConcat(Without(mounts, gone), MountFold([], ops[..n]), {op.destination});
        WithoutTwice(mounts, gone, {op.destination});
      } else {
        assert Removed(ops) == gone;
      }
    }
  }

  /** Every mount added in `ops` is unmounted somewhere in `ops` or in what follows. */
  ghost predicate AddsAreRemoved(ops: seq<Leaf>, more: seq<Leaf>) {
    forall op :: op in ops && op.AddMount? ==> op.mount.destination in Removed(ops) + Removed(more)
  }

  lemma {:induction false} AddedMounts(ops: seq<Leaf>, m: MountPoint)
    ensures m in MountFold([], ops) ==> exists op :: op in ops && op.AddMount? && op.mount == m
    ensures (exists op :: op in ops && op.AddMount? && op.mount == m) && m.destination !in Removed(ops)
        ==> m in MountFold([], ops)
  {
    if ops == [] {
    } else {
      var n := |ops| - 1;
      var op := ops[n];
      assert ops == ops[..n] + [op];
      AddedMounts(ops[..n], m);
      if op.RemoveMount? {
        WithoutMember(MountFold([], ops[..n]), {op.destination}, m);
      }
    }
  }

  lemma AddsLeaveNothing(ops: seq<Leaf>, more: seq<Leaf>)
    ensures Without(MountFold([], ops), Removed(ops) + Removed(more)) == [] <==> AddsAreRemoved(ops, more)
  {
    var gone, added := Removed(ops) + Removed(more), MountFold([], ops);
    if AddsAreRemoved(ops, more) {
      forall m | m in added
        ensures m.destination in gone
      {
        AddedMounts(ops, m);
      }
      if Without(added, gone) != [] {
        WithoutMember(added, gone, Without(added, gone)[0]);
      }
    } else {
      var op :| op in ops && op.AddMount? && op.mount.destination !in gone;
      AddedMounts(ops, op.mount);
      WithoutMember(added, gone, op.mount);
    }
  }

  /** Running `ops` twice before `more`, instead of once, ends in the same mounts exactly
      when every mount added in `ops` is unmounted in `ops` or in `more`; otherwise the
      surviving ones are there twice. */
  lemma MountsAgain(mounts: seq<MountPoint>, ops: seq<Leaf>, more: seq<Leaf>)
    ensures MountFold(MountFold(MountFold(mounts, ops), ops), more) == MountFold(MountFold(mounts, ops), more)
       <==> AddsAreRemoved(ops, more)
  {
    var gone, later, added := Removed(ops), Removed(more), MountFold([], ops);
    var once := MountFold(mounts, ops);
    MountFoldSplits(mounts, ops);
    MountFoldSplits(once, ops);
    WithoutConcat(Without(mounts, gone), added, gone);
    WithoutTwice(mounts, gone, gone);
    assert gone + gone == gone;
    var kept, doubled := Without(mounts, gone), Without(added, gone);
    assert MountFold(once, ops) == kept + doubled + added && once == kept + added;
    MountFoldSplits(once, more);
    MountFoldSplits(kept + doubled + added, more);
    WithoutConcat(kept, added, later);
    WithoutConcat(kept + doubled, added, later);
    WithoutConcat(kept, doubled, later);
    WithoutTwice(added, gone, later);
    AddsLeaveNothing(ops, more);
    assert Without(doubled, later) == [] ==> Without(kept, later) + Without(doubled, later) == Without(kept, later);
  }

  lemma {:induction false} EntryFoldConcat(e: Option<ContainerMeta>, a: seq<Leaf>, b: seq<Leaf>)
    ensures EntryFold(e, a + b) == EntryFold(EntryFold(e, a), b)
    decreases |b|
  {
    if b == [] {
      assert a + b == a;
    } else {
      var n := |b| - 1;
      assert (a + b)[..|a| + n] == a + b[..n];
      EntryFoldConcat(e, a, b[..n]);
    }
  }

  /** Two metas that agree up to the mounts stay so, and then differ in the mounts alone. */
  lemma MountlessAgree(m: ContainerMeta, n: ContainerMeta, ops: seq<Leaf>)
    requires UpdatesOnly(ops) && Mountless(m) == Mountless(n)
    ensures MetaFold(m, ops) == MetaFold(n, ops) <==> MountFold(m.mounts, ops) == MountFold(n.mounts, ops)
  {
    Mountlessly(m, ops);
    Mountlessly(n, ops);
    MountsOfFold(m, ops);
    MountsOfFold(n, ops);
    var a, b := MetaFold(m, ops), MetaFold(n, ops);
    assert a == Mountless(a).(mounts := a.mounts) && b == Mountless(b).(mounts := b.mounts);
  }

  lemma UpdatesAgain(m: ContainerMeta, ops: seq<Leaf>, more: seq<Leaf>)
    requires UpdatesOnly(ops) && UpdatesOnly(more)
    ensures MetaFold(MetaFold(MetaFold(m, ops), ops), more) == MetaFold(MetaFold(m, ops), more)
       <==> AddsAreRemoved(ops, more)
  {
    var once := MetaFold(m, ops);
    var twice := MetaFold(once, ops);
    Mountlessly(m, ops);
    Mountlessly(once, ops);
    assert ops[..|ops|] == ops;
    PrefixAbsorbed(Mountless(m), ops, |ops|);
    MountlessAgree(twice, once, more);
    MountsOfFold(m, ops);
    MountsOfFold(once, ops);
    MountsAgain(m.mounts, ops, more);
  }

  /** One container's history `ops` run a second time over its own result, before `more`. */
  lemma EntryAgain(e: Option<ContainerMeta>, ops: seq<Leaf>, more: seq<Leaf>, id: string)
    requires AllAbout(ops, id) && AllAbout(more, id)
    ensures EntryFold(EntryFold(e, ops), ops + more) == EntryFold(e, ops + more)
       <==> (e.None? || Resets(ops + more, id) || AddsAreRemoved(ops, more))
  {
    EntryFoldConcat(e, ops, more);
    EntryFoldConcat(EntryFold(e, ops), ops, more);
    if Resets(ops + more, id) {
      ResetForgets(EntryFold(e, ops), e, ops + more, id);
      EntryFoldConcat(e, ops, more);
    } else {
      forall op | op in ops + more
        ensures IsUpdate(op)
      {
        assert Target(op) == id;
      }
      EntryFoldUpdates(e, ops);
      if e.Some? {
        var once := MetaFold(e.value, ops);
        EntryFoldUpdates(Some(once), ops);
        EntryFoldUpdates(Some(once), more);
        EntryFoldUpdates(Some(MetaFold(once, ops)), more);
        UpdatesAgain(e.value, ops, more);
      } else {
        EntryFoldUpdates(None, more);
      }
    }
  }
}
