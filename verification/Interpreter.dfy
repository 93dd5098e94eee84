/** `InnerState`: the two indexes and the interpreter that both the live worker and the
    recovery replay run (src/core/metas/meta.rs:376-450). */
module Interpreter {
  import opened Metas

  datatype Store = Store(byId: map<string, ContainerMeta>, byName: map<string, string>)

  const EMPTY := Store(map[], map[])

  // ---- One leaf, given the clock reading it makes ----

  /** The mounts whose destination is not in `gone`, in order. */
  function Without(mounts: seq<MountPoint>, gone: set<string>): seq<MountPoint> {
    if mounts == [] then []
    else
      var rest := Without(mounts[1..], gone);
      if mounts[0].destination in gone then rest else [mounts[0]] + rest
  }

  function Updated(m: ContainerMeta, op: StorageOperation, now: nat): ContainerMeta
    requires IsUpdate(op)
  {
    match op
    case UpdateStatus(_, status) => m.(state := m.state.(status := status), updatedAt := now)
    case UpdateState(_, state) => m.(state := state, updatedAt := now)
    case UpdateEnvironment(_, env) => m.(env := env, updatedAt := now)
    case UpdateLabels(_, labels) => m.(labels := labels, updatedAt := now)
    case UpdateResources(_, resources) => m.(resources := resources, updatedAt := now)
    case AttachNetwork(_, network) => m.(network := Some(network), updatedAt := now)
    case DetachNetwork(_) => m.(network := None, updatedAt := now)
    case AddMount(_, mount) => m.(mounts := m.mounts + [mount], updatedAt := now)
    case RemoveMount(_, destination) => m.(mounts := Without(m.mounts, {destination}), updatedAt := now)
  }

  function Step(s: Store, op: Leaf, now: nat): Store {
    if op.Create? then
      Store(s.byId[op.meta.id := op.meta], s.byName[op.meta.name := op.meta.id])
    else if op.id !in s.byId then
      s
    else if op.Delete? then
      Store(s.byId - {op.id}, s.byName - {s.byId[op.id].name})
    else
      s.(byId := s.byId[op.id := Updated(s.byId[op.id], op, now)])
  }

  /** Applies leaves in order, the k-th at clock reading `times[k]`. */
  function Replay(s: Store, ops: seq<Leaf>, times: seq<nat>): Store
    requires |ops| == |times|
  {
    if ops == [] then s
    else
      var n := |ops| - 1;
      Step(Replay(s, ops[..n], times[..n]), ops[n], times[n])
  }

  lemma ReplayOne(s: Store, op: Leaf, now: nat)
    ensures Replay(s, [op], [now]) == Step(s, op, now)
  {
    assert [op][..0] == [] && [now][..0] == [];
  }

  lemma {:induction false} ReplayConcat(s: Store, a: seq<Leaf>, ta: seq<nat>, b: seq<Leaf>, tb: seq<nat>)
    requires |a| == |ta| && |b| == |tb|
    ensures Replay(s, a + b, ta + tb) == Replay(Replay(s, a, ta), b, tb)
    decreases |b|
  {
    if b == [] {
      assert a + b == a && ta + tb == ta;
    } else {
      var n := |b| - 1;
      assert (a + b)[..|a| + n] == a + b[..n] && (ta + tb)[..|a| + n] == ta + tb[..n];
      ReplayConcat(s, a, ta, b[..n], tb[..n]);
    }
  }

  // ---- The same, forgetting `updated_at`: replay reads the clock again ----

  function Stampless(m: ContainerMeta): ContainerMeta {
    m.(updatedAt := 0)
  }

  /** A store modulo `updated_at`. */
  function View(s: Store): Store {
    Store(map i | i in s.byId :: Stampless(s.byId[i]), s.byName)
  }

  function Next(v: Store, op: Leaf): Store {
    Step(v, if op.Create? then Create(Stampless(op.meta)) else op, 0)
  }

  function Fold(v: Store, ops: seq<Leaf>): Store {
    if ops == [] then v else Next(Fold(v, ops[..|ops| - 1]), ops[|ops| - 1])
  }

  lemma UpdateView(m: ContainerMeta, op: Leaf, now: nat)
    requires IsUpdate(op)
    ensures Stampless(Updated(m, op, now)) == Updated(Stampless(m), op, 0)
  {
  }

  lemma CreateView(s: Store, op: Leaf, now: nat)
    requires op.Create?
    ensures View(Step(s, op, now)) == Next(View(s), op)
  {
  }

  lemma DeleteView(s: Store, op: Leaf, now: nat)
    requires op.Delete?
    ensures View(Step(s, op, now)) == Next(View(s), op)
  {
  }

  lemma StepView(s: Store, op: Leaf, now: nat)
    ensures View(Step(s, op, now)) == Next(View(s), op)
  {
    if op.Create? {
      CreateView(s, op, now);
    } else if op.Delete? {
      DeleteView(s, op, now);
    } else if op.id in s.byId {
      UpdateView(s.byId[op.id], op, now);
      var updated := Updated(s.byId[op.id], op, now);
      assert View(Step(s, op, now)).byId == View(s).byId[op.id := Stampless(updated)];
    }
  }

  /** Clock readings never influence anything but `updated_at`. */
  lemma {:induction false} ReplayView(s: Store, ops: seq<Leaf>, times: seq<nat>)
    requires |ops| == |times|
    ensures View(Replay(s, ops, times)) == Fold(View(s), ops)
  {
    if ops == [] {
    } else {
      var n := |ops| - 1;
      ReplayView(s, ops[..n], times[..n]);
      StepView(Replay(s, ops[..n], times[..n]), ops[n], times[n]);
    }
  }

  lemma {:induction false} FoldConcat(v: Store, a: seq<Leaf>, b: seq<Leaf>)
    ensures Fold(v, a + b) == Fold(Fold(v, a), b)
    decreases |b|
  {
    if b == [] {
      assert a + b == a;
    } else {
      var n := |b| - 1;
      assert (a + b)[..|a| + n] == a + b[..n];
      FoldConcat(v, a, b[..n]);
    }
  }

  lemma FoldTwo(v: Store, a: Leaf, b: Leaf)
    ensures Fold(v, [a]) == Next(v, a)
    ensures Fold(v, [a, b]) == Next(Next(v, a), b)
  {
    assert [a][..0] == [] && [a, b][..1] == [a];
  }

  // ---- The mutable store ----

  /** The wall clock: any reading at all. */
  method CurrentTime() returns (now: nat) {
    now := *;
  }

  class InnerState {
    var byId: map<string, ContainerMeta>
    var byName: map<string, string>

    ghost function Contents(): Store
      reads this
    {
      Store(byId, byName)
    }

    constructor (s: Store)
      ensures Contents() == s
    {
      byId, byName := s.byId, s.byName;
    }

    /** An arbitrarily nested operation never fails and means its leaves, left to right. */
    method ApplyOperation(op: StorageOperation) returns (r: Outcome<()>, ghost times: seq<nat>)
      modifies this
      ensures r == Ok(())
      ensures |times| == |Leaves(op)|
      ensures Contents() == Replay(old(Contents()), Leaves(op), times)
      decreases op
    {
      r, times := Ok(()), [0];
      match op {
        case Create(meta) =>
          byName := byName[meta.name := meta.id];
          byId := byId[meta.id := meta];
        case Delete(id) =>
          if id in byId {
            var meta := byId[id];
            byId := byId - {id};
            byName := byName - {meta.name};
          }
        case Batch(operations) =>
          times := [];
          for k := 0 to |operations|
            invariant |times| == |LeavesOfAll(operations[..k])|
            invariant Contents() == Replay(old(Contents()), LeavesOfAll(operations[..k]), times)
            invariant r == Ok(())
          {
            ghost var more;
            r, more := ApplyOperation(operations[k]);
            ReplayConcat(old(Contents()), LeavesOfAll(operations[..k]), times, Leaves(operations[k]), more);
            assert operations[..k + 1][..k] == operations[..k];
            times := times + more;
          }
          assert operations[..|operations|] == operations;
        case _ =>
          if op.id in byId {
            var now := CurrentTime();
            byId := byId[op.id := Updated(byId[op.id], op, now)];
            times := [now];
          }
      }
    }
  }
}
