/** Recovery replays the whole of `current.wal` over the newest snapshot
    (src/core/metas/storage.rs:139-152), although the snapshot already covers part of that
    log. Here: exactly when that gives the live store.

    Throughout, `v` is the store where the log starts, the snapshot was taken after `b`,
    and `c` is what was logged after it. Recovery runs `b + c` over `Fold(v, b)`. */
module Recovery {
  import opened Metas
  import opened Interpreter
  import opened NameIndex
  import opened Locality

  // ---- The containers ----

  /** A container that was live at the start and that nothing creates or deletes has every
      mount that `b` adds unmounted again, in `b` or in `c`. */
  ghost predicate MountsCovered(v: Store, b: seq<Leaf>, c: seq<Leaf>) {
    forall op :: op in b && op.AddMount? && op.id in v.byId ==>
      || Resets(b + c, op.id)
      || exists r :: r in b + c && r.RemoveMount? && r.id == op.id && r.destination == op.mount.destination
  }

  lemma RemovedOfProject(b: seq<Leaf>, c: seq<Leaf>, id: string, destination: string)
    ensures destination in Removed(Project(b, id)) + Removed(Project(c, id))
       <==> exists r :: r in b + c && r.RemoveMount? && r.id == id && r.destination == destination
  {
    ProjectMembers(b, id);
    ProjectMembers(c, id);
    if exists r :: r in b + c && r.RemoveMount? && r.id == id && r.destination == destination {
      var r :| r in b + c && r.RemoveMount? && r.id == id && r.destination == destination;
      assert r in Project(b, id) || r in Project(c, id);
    }
    if destination in Removed(Project(b, id)) + Removed(Project(c, id)) {
      var r: Leaf :| (r in Project(b, id) || r in Project(c, id)) && r.RemoveMount? && r.destination == destination;
      assert r in b + c && r.id == id;
    }
  }

  ghost predicate ContainerCovered(v: Store, b: seq<Leaf>, c: seq<Leaf>, id: string) {
    id !in v.byId || Resets(b + c, id) || AddsAreRemoved(Project(b, id), Project(c, id))
  }

  lemma MountsCoveredPerContainer(v: Store, b: seq<Leaf>, c: seq<Leaf>)
    ensures MountsCovered(v, b, c) <==> forall id :: ContainerCovered(v, b, c, id)
  {
    if MountsCovered(v, b, c) {
      forall id
        ensures ContainerCovered(v, b, c, id)
      {
        if id in v.byId && !Resets(b + c, id) {
          ProjectMembers(b, id);
          forall op | op in Project(b, id) && op.AddMount?
            ensures op.mount.destination in Removed(Project(b, id)) + Removed(Project(c, id))
          {
            RemovedOfProject(b, c, id, op.mount.destination);
          }
        }
      }
    }
    if forall id :: ContainerCovered(v, b, c, id) {
      forall op | op in b && op.AddMount? && op.id in v.byId && !Resets(b + c, op.id)
        ensures exists r :: r in b + c && r.RemoveMount? && r.id == op.id && r.destination == op.mount.destination
      {
        ProjectMembers(b, op.id);
        assert ContainerCovered(v, b, c, op.id) && op in Project(b, op.id);
        RemovedOfProject(b, c, op.id, op.mount.destination);
      }
    }
  }

  lemma ContainerAgain(v: Store, b: seq<Leaf>, c: seq<Leaf>, id: string)
    ensures Entry(Fold(Fold(v, b), b + c), id) == Entry(Fold(v, b + c), id) <==> ContainerCovered(v, b, c, id)
  {
    var p, r := Project(b, id), Project(c, id);
    ProjectConcat(b, c, id);
    FoldIsLocal(v, b, id);
    FoldIsLocal(v, b + c, id);
    FoldIsLocal(Fold(v, b), b + c, id);
    ProjectMembers(b, id);
    ProjectMembers(c, id);
    ProjectMembers(b + c, id);
    EntryAgain(Entry(v, id), p, r, id);
  }

  /** The containers come out right exactly when their mounts are covered. */
  lemma ContainersAgain(v: Store, b: seq<Leaf>, c: seq<Leaf>)
    ensures Fold(Fold(v, b), b + c).byId == Fold(v, b + c).byId <==> MountsCovered(v, b, c)
  {
    var again, live := Fold(Fold(v, b), b + c), Fold(v, b + c);
    forall id
      ensures Entry(again, id) == Entry(live, id) <==> ContainerCovered(v, b, c, id)
    {
      ContainerAgain(v, b, c, id);
    }
    MountsCoveredPerContainer(v, b, c);
    if again.byId == live.byId {
      assert forall id :: Entry(again, id) == Entry(live, id);
    }
    if MountsCovered(v, b, c) {
      SameEntries(again, live);
    }
  }

  // ---- The names ----

  function Lookup(v: Store, name: string): Option<string> {
    if name in v.byName then Some(v.byName[name]) else None
  }

  function NameOf(v: Store, id: string): Option<string> {
    if id in v.byId then Some(v.byId[id].name) else None
  }

  /** What the last operation that creates or deletes `id` leaves its name at, if any does. */
  function NameAfter(ops: seq<Leaf>, id: string): Option<Option<string>> {
    if ops == [] then None
    else
      var op := ops[|ops| - 1];
      if op.Create? && op.meta.id == id then Some(Some(op.meta.name))
      else if op.Delete? && op.id == id then Some(None)
      else NameAfter(ops[..|ops| - 1], id)
  }

  /** The position of the last `Create` under `name`, or -1. */
  function LastCreate(ops: seq<Leaf>, name: string): (p: int)
    ensures -1 <= p < |ops|
    ensures p >= 0 ==> ops[p].Create? && ops[p].meta.name == name
  {
    if ops == [] then -1
    else if ops[|ops| - 1].Create? && ops[|ops| - 1].meta.name == name then |ops| - 1
    else LastCreate(ops[..|ops| - 1], name)
  }

  lemma {:induction false} NoLaterCreate(ops: seq<Leaf>, name: string, q: nat)
    requires LastCreate(ops, name) < q < |ops|
    ensures !(ops[q].Create? && ops[q].meta.name == name)
  {
    if q < |ops| - 1 {
      NoLaterCreate(ops[..|ops| - 1], name, q);
    }
  }

  /** Operation `q` deletes a container that earlier operations created under `name`. */
  predicate DropsCreated(ops: seq<Leaf>, name: string, q: nat) {
    q < |ops| && ops[q].Delete? && NameAfter(ops[..q], ops[q].id) == Some(Some(name))
  }

  /** Operation `q` deletes a container that has `name` from `v`, and that no earlier
      operation created or deleted. */
  predicate DropsOld(v: Store, ops: seq<Leaf>, name: string, q: nat) {
    q < |ops| && ops[q].Delete? && NameAfter(ops[..q], ops[q].id) == None && NameOf(v, ops[q].id) == Some(name)
  }

  ghost predicate Freed(v: Store, ops: seq<Leaf>, name: string) {
    exists q: nat :: LastCreate(ops, name) < q && (DropsCreated(ops, name, q) || DropsOld(v, ops, name, q))
  }

  lemma {:induction false} NameInFold(v: Store, ops: seq<Leaf>, id: string)
    ensures NameOf(Fold(v, ops), id) == if NameAfter(ops, id).Some? then NameAfter(ops, id).value else NameOf(v, id)
  {
    if ops == [] {
    } else {
      NameInFold(v, ops[..|ops| - 1], id);
    }
  }

  /** `Drops` looks at no operation after `q`. */
  lemma DropsInPrefix(v: Store, ops: seq<Leaf>, more: seq<Leaf>, name: string, q: nat)
    requires q < |ops|
    ensures DropsCreated(ops + more, name, q) <==> DropsCreated(ops, name, q)
    ensures DropsOld(v, ops + more, name, q) <==> DropsOld(v, ops, name, q)
  {
    assert (ops + more)[..q] == ops[..q] && (ops + more)[q] == ops[q];
  }

  lemma FreedNext(v: Store, ops: seq<Leaf>, op: Leaf, name: string)
    requires LastCreate(ops + [op], name) == LastCreate(ops, name)
    ensures Freed(v, ops + [op], name) <==>
      Freed(v, ops, name) || DropsCreated(ops + [op], name, |ops|) || DropsOld(v, ops + [op], name, |ops|)
  {
    forall q: nat | q < |ops|
      ensures DropsCreated(ops + [op], name, q) <==> DropsCreated(ops, name, q)
      ensures DropsOld(v, ops + [op], name, q) <==> DropsOld(v, ops, name, q)
    {
      DropsInPrefix(v, ops, [op], name, q);
    }
  }

  /** A name leads where its last `Create` put it, or where it led before, unless a later
      delete freed it. */
  lemma {:induction false} LookupAfter(v: Store, ops: seq<Leaf>, name: string)
    ensures Lookup(Fold(v, ops), name) ==
      var p := LastCreate(ops, name);
      if Freed(v, ops, name) then None else if p < 0 then Lookup(v, name) else Some(ops[p].meta.id)
  {
    if ops == [] {
    } else {
      var n := |ops| - 1;
      var before, op := ops[..n], ops[n];
      assert ops == before + [op] && ops[..n] == before;
      LookupAfter(v, before, name);
      if !(op.Create? && op.meta.name == name) {
        FreedNext(v, before, op, name);
        if op.Delete? {
          NameInFold(v, before, op.id);
        }
      }
    }
  }

  /** Lookup by name after any history whatsoever: nothing when the name was never created,
      or when a delete of a container that carried it came after its last create; otherwise
      the container of that create as it is now, or a panic when that one is gone. */
  lemma LookupAfterHistory(ops: seq<Leaf>, name: string)
    ensures LookupByName(Fold(EMPTY, ops), name) ==
      var p := LastCreate(ops, name);
      if p < 0 || (exists q: nat :: p < q && DropsCreated(ops, name, q)) then Ok(None)
      else match Entry(Fold(EMPTY, ops), ops[p].meta.id)
        case Some(m) => Ok(Some(m))
        case None => Panic
  {
    LookupAfter(EMPTY, ops, name);
  }

  /** If `b` takes `name` away from a container of the starting store, after the name's last
      `Create`, then so does a later delete that the replay repeats: of a container that
      `b + c` created under the name, or one that `c` is the first to touch. */
  ghost predicate NameCovered(v: Store, b: seq<Leaf>, c: seq<Leaf>, name: string) {
    var p := LastCreate(b + c, name);
    p >= 0 && (exists q: nat :: p < q < |b| && DropsOld(v, b + c, name, q)) ==>
      || (exists q: nat :: p < q && DropsCreated(b + c, name, q))
      || (exists q: nat :: p < q && |b| <= q && DropsOld(v, b + c, name, q))
  }

  ghost predicate NamesCovered(v: Store, b: seq<Leaf>, c: seq<Leaf>) {
    forall name :: NameCovered(v, b, c, name)
  }

  lemma {:induction false} CreatedLater(ops: seq<Leaf>, id: string, name: string, q: nat)
    requires q <= |ops| && NameAfter(ops[..q], id) != Some(Some(name)) && NameAfter(ops, id) == Some(Some(name))
    ensures exists r: nat :: q <= r < |ops| && ops[r].Create? && ops[r].meta.name == name
  {
    assert ops[..|ops|] == ops;
    if q < |ops| {
      var n := |ops| - 1;
      if !(ops[n].Create? && ops[n].meta.name == name) {
        assert ops[..n][..q] == ops[..q];
        CreatedLater(ops[..n], id, name, q);
      }
    }
  }

  lemma {:induction false} UntouchedBefore(ops: seq<Leaf>, id: string, q: nat)
    requires q <= |ops| && NameAfter(ops, id) == None
    ensures NameAfter(ops[..q], id) == None
  {
    if q == |ops| {
      assert ops[..q] == ops;
    } else {
      var n := |ops| - 1;
      assert ops[..n][..q] == ops[..q];
      UntouchedBefore(ops[..n], id, q);
    }
  }

  lemma {:induction false} TouchedAfter(ops: seq<Leaf>, id: string, q: nat)
    requires q < |ops| && ops[q].Delete? && ops[q].id == id
    ensures NameAfter(ops, id).Some?
  {
    if q == |ops| - 1 {
    } else {
      TouchedAfter(ops[..|ops| - 1], id, q);
    }
  }

  /** Starting again from `Fold(v, b)`, the deletes of `b` that used to hit old containers
      no longer free anything, and those of `c` do as before. */
  lemma DropsOldAgain(v: Store, b: seq<Leaf>, c: seq<Leaf>, name: string, q: nat)
    requires LastCreate(b + c, name) < q
    ensures DropsOld(Fold(v, b), b + c, name, q) <==> |b| <= q && DropsOld(v, b + c, name, q)
  {
    var ops := b + c;
    if q < |ops| && ops[q].Delete? && NameAfter(ops[..q], ops[q].id) == None {
      var id := ops[q].id;
      NameInFold(v, b, id);
      if q < |b| {
        assert ops[..q] == b[..q];
        TouchedAfter(b, id, q);
        if NameAfter(b, id) == Some(Some(name)) {
          CreatedLater(b, id, name, q);
          var r: nat :| q <= r < |b| && b[r].Create? && b[r].meta.name == name;
          NoLaterCreate(ops, name, r);
        }
      } else {
        assert ops[..q][..|b|] == b;
        UntouchedBefore(ops[..q], id, |b|);
      }
    }
  }

  lemma FreedAgain(v: Store, b: seq<Leaf>, c: seq<Leaf>, name: string)
    ensures Freed(Fold(v, b), b + c, name) <==>
      var p := LastCreate(b + c, name);
      || (exists q: nat :: p < q && DropsCreated(b + c, name, q))
      || (exists q: nat :: p < q && |b| <= q && DropsOld(v, b + c, name, q))
  {
    forall q: nat | LastCreate(b + c, name) < q
      ensures DropsOld(Fold(v, b), b + c, name, q) <==> |b| <= q && DropsOld(v, b + c, name, q)
    {
      DropsOldAgain(v, b, c, name, q);
    }
  }

  lemma {:induction false} LastCreateConcat(b: seq<Leaf>, c: seq<Leaf>, name: string)
    ensures LastCreate(c, name) < 0 ==> LastCreate(b + c, name) == LastCreate(b, name)
    ensures LastCreate(c, name) >= 0 ==> LastCreate(b + c, name) == |b| + LastCreate(c, name)
    decreases |c|
  {
    if c == [] {
      assert b + c == b;
    } else {
      var n := |c| - 1;
      assert (b + c)[..|b| + n] == b + c[..n] && (b + c)[|b| + n] == c[n];
      LastCreateConcat(b, c[..n], name);
    }
  }

  lemma FreedInPrefix(v: Store, b: seq<Leaf>, c: seq<Leaf>, name: string)
    requires LastCreate(b + c, name) == LastCreate(b, name)
    ensures Freed(v, b, name) <==>
      exists q: nat :: LastCreate(b, name) < q < |b| && (DropsCreated(b + c, name, q) || DropsOld(v, b + c, name, q))
  {
    forall q: nat | q < |b|
      ensures DropsCreated(b + c, name, q) <==> DropsCreated(b, name, q)
      ensures DropsOld(v, b + c, name, q) <==> DropsOld(v, b, name, q)
    {
      DropsInPrefix(v, b, c, name, q);
    }
  }

  lemma NameAgain(v: Store, b: seq<Leaf>, c: seq<Leaf>, name: string)
    ensures Lookup(Fold(Fold(v, b), b + c), name) == Lookup(Fold(v, b + c), name) <==> NameCovered(v, b, c, name)
  {
    LookupAfter(v, b + c, name);
    LookupAfter(Fold(v, b), b + c, name);
    FreedAgain(v, b, c, name);
    if LastCreate(b + c, name) < 0 {
      LastCreateConcat(b, c, name);
      LookupAfter(v, b, name);
      FreedInPrefix(v, b, c, name);
    }
  }

  /** The name index comes out right exactly when the names are covered, for every store
      and every history. */
  lemma NamesAgain(v: Store, b: seq<Leaf>, c: seq<Leaf>)
    ensures Fold(Fold(v, b), b + c).byName == Fold(v, b + c).byName <==> NamesCovered(v, b, c)
  {
    var again, live := Fold(Fold(v, b), b + c), Fold(v, b + c);
    forall name
      ensures Lookup(again, name) == Lookup(live, name) <==> NameCovered(v, b, c, name)
    {
      NameAgain(v, b, c, name);
    }
    if again.byName == live.byName {
      assert forall name :: Lookup(again, name) == Lookup(live, name);
    }
    if NamesCovered(v, b, c) {
      forall name
        ensures name in again.byName <==> name in live.byName
        ensures name in again.byName ==> again.byName[name] == live.byName[name]
      {
        assert NameCovered(v, b, c, name) && Lookup(again, name) == Lookup(live, name);
      }
    }
  }

  // ---- Both ----

  ghost predicate OverlapCovered(v: Store, b: seq<Leaf>, c: seq<Leaf>) {
    MountsCovered(v, b, c) && NamesCovered(v, b, c)
  }

  /** Recovery gives the live store exactly when the overlap's mounts and names are covered:
      for every store, every history and every continuation. */
  lemma OverlapReplay(v: Store, b: seq<Leaf>, c: seq<Leaf>)
    ensures Fold(Fold(v, b), b + c) == Fold(v, b + c) <==> OverlapCovered(v, b, c)
  {
    ContainersAgain(v, b, c);
    NamesAgain(v, b, c);
  }

  /** A restart right after the snapshot is the hardest: what is covered there is covered
      whatever follows. */
  lemma CoveredForGood(v: Store, b: seq<Leaf>, c: seq<Leaf>)
    requires OverlapCovered(v, b, [])
    ensures OverlapCovered(v, b, c)
  {
    OverlapReplay(v, b, []);
    assert b + [] == b;
    FoldConcat(Fold(v, b), b, c);
    FoldConcat(v, b, c);
    OverlapReplay(v, b, c);
  }

  /** From the empty store everything is covered: there is no old container to lose a name
      or to get a mount. */
  lemma EmptyCovered(b: seq<Leaf>, c: seq<Leaf>)
    ensures OverlapCovered(EMPTY, b, c)
  {
  }

  /** Without an overlap nothing needs covering. */
  lemma NoOverlapCovered(v: Store, c: seq<Leaf>)
    ensures OverlapCovered(v, [], c)
  {
  }

  /** For every history from the empty store -- any nesting, duplicate names, reused ids,
      repeated `AddMount` -- replaying all of it over any snapshot along the way ends in
      the same store as running it once. */
  lemma WholeLogReplay(b: seq<Leaf>, c: seq<Leaf>)
    ensures Fold(Fold(EMPTY, b), b + c) == Fold(EMPTY, b + c)
  {
    EmptyCovered(b, c);
    OverlapReplay(EMPTY, b, c);
  }

  lemma UntouchedAt(ops: seq<Leaf>, id: string, p: nat, q: nat)
    requires p < q <= |ops| && NameAfter(ops[..q], id) == None
    ensures NameAfter(ops[..p], id) == None
    ensures ops[p].Create? ==> ops[p].meta.id != id
  {
    UntouchedBefore(ops[..q], id, p);
    UntouchedBefore(ops[..q], id, p + 1);
    assert ops[..q][..p] == ops[..p] && ops[..q][..p + 1] == ops[..p + 1];
    assert ops[..p + 1][..p] == ops[..p] && ops[..p + 1][p] == ops[p];
  }

  lemma HolderKeepsName(s: Store, name: string, id: string, op: Leaf)
    requires Exact(s) && NameOf(s, id) == Some(name) && Admissible(s, op)
    ensures op.Create? && op.meta.name == name ==> op.meta.id == id
  {
  }

  lemma OldNotDropped(v: Store, b: seq<Leaf>, name: string, p: nat, q: nat)
    requires Exact(v) && AdmissibleRun(v, b) && p < q < |b| && b[p].Create? && b[p].meta.name == name
    ensures !DropsOld(v, b, name, q)
  {
    if b[q].Delete? && NameAfter(b[..q], b[q].id) == None {
      var id, before := b[q].id, b[..p];
      UntouchedAt(b, id, p, q);
      NameInFold(v, before, id);
      assert b == before + b[p..];
      AdmissibleSplit(v, before, b[p..]);
      ExactAfter(v, before);
      assert Admissible(Fold(v, before), b[p]);
      if NameOf(v, id) == Some(name) {
        HolderKeepsName(Fold(v, before), name, id, b[p]);
      }
    }
  }

  /** With an exact index, admissible operations cover their names. */
  lemma AdmissibleNamesCovered(v: Store, b: seq<Leaf>, c: seq<Leaf>)
    requires Exact(v) && AdmissibleRun(v, b)
    ensures NamesCovered(v, b, c)
  {
    forall name, q: nat | 0 <= LastCreate(b + c, name) < q < |b|
      ensures !DropsOld(v, b + c, name, q)
    {
      OldNotDropped(v, b, name, LastCreate(b + c, name), q);
      DropsInPrefix(v, b, c, name, q);
    }
  }

  /** Names are not always covered: here an index that lost a shared name comes back richer
      from the replay, without any mount involved. */
  lemma SharedNameReappears(a: ContainerMeta, b: ContainerMeta)
    requires a.id != b.id && a.name == b.name
    ensures var v := Fold(EMPTY, [Create(a)]);
            var ops: seq<Leaf> := [Create(b), Delete(a.id)];
            && !NamesCovered(v, ops, []) && MountsCovered(v, ops, [])
            && LookupByName(Fold(v, ops), b.name) == Ok(None)
            && LookupByName(Fold(Fold(v, ops), ops), b.name) == Ok(Some(Stampless(b)))
  {
    var start: seq<Leaf>, ops: seq<Leaf> := [Create(a)], [Create(b), Delete(a.id)];
    FoldTwo(EMPTY, Create(a), Create(b));
    var v := Fold(EMPTY, start);
    FoldTwo(v, Create(b), Delete(a.id));
    FoldTwo(Fold(v, ops), Create(b), Delete(a.id));
    NamesAgain(v, ops, []);
    assert ops + [] == ops;
  }

  /** Nor are mounts: one added in the overlap comes back twice, unless what follows the
      snapshot deletes the container or unmounts it. */
  lemma MountComesBackTwice(v: Store, id: string, mount: MountPoint, c: seq<Leaf>)
    requires id in v.byId
    ensures var b: seq<Leaf> := [AddMount(id, mount)];
            && Fold(Fold(v, b), b + c).byId == Fold(v, b + c).byId <==>
                 || Resets(c, id)
                 || exists r :: r in c && r.RemoveMount? && r.id == id && r.destination == mount.destination
  {
    var b: seq<Leaf> := [AddMount(id, mount)];
    ContainersAgain(v, b, c);
    assert AddMount(id, mount) in b;
    assert forall op :: op in b + c <==> op == AddMount(id, mount) || op in c;
  }
}
