/** When `by_name` can be trusted. `Create` checks neither the id nor the name
    (src/core/metas/meta.rs:379-382) and `Delete` drops whatever entry the container's
    name has (src/core/metas/meta.rs:383-387), so each property of the index is tied
    here to exactly the operations that keep it. */
module NameIndex {
  import opened Metas
  import opened Interpreter

  /** Every name leads to a live container of that name. */
  ghost predicate NoDangling(v: Store) {
    forall n :: n in v.byName ==> v.byName[n] in v.byId && v.byId[v.byName[n]].name == n
  }

  /** `by_name` is the inverse of the `name` fields in `by_id`. */
  ghost predicate Exact(v: Store) {
    && NoDangling(v)
    && forall i :: i in v.byId ==> v.byId[i].name in v.byName && v.byName[v.byId[i].name] == i
  }

  /** No name leads to a container that is gone: name lookup never hits its `unwrap`. */
  ghost predicate PanicFree(v: Store) {
    forall n :: n in v.byName ==> v.byName[n] in v.byId
  }

  /** A `Create` of an id that is not live under another name, with a name no other
      container holds. Both can be checked before the call. */
  predicate Admissible(v: Store, op: Leaf) {
    op.Create? ==>
      && (op.meta.id in v.byId ==> v.byId[op.meta.id].name == op.meta.name)
      && (op.meta.name in v.byName ==> v.byName[op.meta.name] == op.meta.id)
  }

  /** A `Create` that does not rename a live container away from its own index entry;
      taking over another container's name is allowed. */
  predicate KeepsOwnName(v: Store, op: Leaf) {
    op.Create? && op.meta.id in v.byId ==>
      var was := v.byId[op.meta.id].name;
      was != op.meta.name ==> !(was in v.byName && v.byName[was] == op.meta.id)
  }

  /** A `Delete` of a container that no second name leads to. */
  ghost predicate DropsLastName(v: Store, op: Leaf) {
    op.Delete? && op.id in v.byId ==>
      forall n :: n in v.byName && v.byName[n] == op.id ==> n == v.byId[op.id].name
  }

  // ---- One step: the guards are exact ----

  lemma CreateKeepsExact(v: Store, m: ContainerMeta)
    requires Exact(v) && Admissible(v, Create(m))
    ensures Exact(Store(v.byId[m.id := m], v.byName[m.name := m.id]))
  {
  }

  lemma DeleteKeepsExact(v: Store, id: string)
    requires Exact(v) && id in v.byId
    ensures Exact(Store(v.byId - {id}, v.byName - {v.byId[id].name}))
  {
  }

  lemma UpdateKeepsExact(v: Store, id: string, m: ContainerMeta)
    requires Exact(v) && id in v.byId && m.name == v.byId[id].name
    ensures Exact(v.(byId := v.byId[id := m]))
  {
  }

  lemma AdmissibleKeepsExact(v: Store, op: Leaf)
    requires Exact(v) && Admissible(v, op)
    ensures Exact(Next(v, op))
  {
    if op.Create? {
      CreateKeepsExact(v, Stampless(op.meta));
    } else if op.id in v.byId {
      if op.Delete? {
        DeleteKeepsExact(v, op.id);
      } else {
        UpdateKeepsExact(v, op.id, Updated(v.byId[op.id], op, 0));
      }
    }
  }

  lemma ExactStep(v: Store, op: Leaf)
    requires Exact(v)
    ensures Exact(Next(v, op)) <==> Admissible(v, op)
  {
    if Admissible(v, op) {
      AdmissibleKeepsExact(v, op);
    } else {
      var v', i, n := Next(v, op), op.meta.id, op.meta.name;
      if i in v.byId && v.byId[i].name != n {
        assert v'.byName[v.byId[i].name] == i && v'.byId[i].name == n;
      } else {
        assert v'.byId[v.byName[n]].name == n && v'.byName[n] == i;
      }
    }
  }

  lemma NoDanglingStep(v: Store, op: Leaf)
    requires NoDangling(v)
    ensures NoDangling(Next(v, op)) <==> KeepsOwnName(v, op)
  {
    var v' := Next(v, op);
    if op.Create? && op.meta.id in v.byId {
      var was := v.byId[op.meta.id].name;
      if was != op.meta.name && was in v.byName && v.byName[was] == op.meta.id {
        assert was in v'.byName && v'.byId[v'.byName[was]].name != was;
      }
    }
  }

  lemma PanicFreeStep(v: Store, op: Leaf)
    requires PanicFree(v)
    ensures PanicFree(Next(v, op)) <==> DropsLastName(v, op)
  {
    var v' := Next(v, op);
    if op.Delete? && op.id in v.byId && !DropsLastName(v, op) {
      var n :| n in v.byName && v.byName[n] == op.id && n != v.byId[op.id].name;
      assert n in v'.byName && v'.byName[n] !in v'.byId;
    }
  }

  // ---- Whole runs ----

  ghost predicate AdmissibleRun(v: Store, ops: seq<Leaf>) {
    forall k | 0 <= k < |ops| :: Admissible(Fold(v, ops[..k]), ops[k])
  }

  lemma AdmissibleSplit(v: Store, a: seq<Leaf>, b: seq<Leaf>)
    requires AdmissibleRun(v, a + b)
    ensures AdmissibleRun(v, a) && AdmissibleRun(Fold(v, a), b)
  {
    forall k | 0 <= k < |a|
      ensures Admissible(Fold(v, a[..k]), a[k])
    {
      assert (a + b)[..k] == a[..k];
      assert Admissible(Fold(v, (a + b)[..k]), (a + b)[k]);
    }
    forall k | 0 <= k < |b|
      ensures Admissible(Fold(Fold(v, a), b[..k]), b[k])
    {
      assert (a + b)[..|a| + k] == a + b[..k];
      FoldConcat(v, a, b[..k]);
      assert Admissible(Fold(v, (a + b)[..|a| + k]), (a + b)[|a| + k]);
    }
  }

  ghost predicate OwnNamesRun(v: Store, ops: seq<Leaf>) {
    forall k | 0 <= k < |ops| :: KeepsOwnName(Fold(v, ops[..k]), ops[k])
  }

  ghost predicate LastNamesRun(v: Store, ops: seq<Leaf>) {
    forall k | 0 <= k < |ops| :: DropsLastName(Fold(v, ops[..k]), ops[k])
  }

  /** A property that each step keeps exactly under `guard` holds throughout a run exactly
      when every step meets its guard. */
  lemma Throughout(property: Store -> bool, guard: (Store, Leaf) -> bool, v: Store, ops: seq<Leaf>)
    requires property(v)
    requires forall s, op :: property(s) ==> (property(Next(s, op)) <==> guard(s, op))
    ensures (forall k | 0 <= k <= |ops| :: property(Fold(v, ops[..k])))
       <==> (forall k | 0 <= k < |ops| :: guard(Fold(v, ops[..k]), ops[k]))
  {
    if forall k | 0 <= k < |ops| :: guard(Fold(v, ops[..k]), ops[k]) {
      forall k | 0 <= k <= |ops|
        ensures property(Fold(v, ops[..k]))
      {
        HoldsAfter(property, guard, v, ops, k);
      }
    }
    if forall k | 0 <= k <= |ops| :: property(Fold(v, ops[..k])) {
      forall k | 0 <= k < |ops|
        ensures guard(Fold(v, ops[..k]), ops[k])
      {
        assert property(Fold(v, ops[..k])) && property(Fold(v, ops[..k + 1]));
        assert ops[..k + 1][..k] == ops[..k];
      }
    }
  }

  lemma {:induction false} HoldsAfter(property: Store -> bool, guard: (Store, Leaf) -> bool,
                                      v: Store, ops: seq<Leaf>, k: nat)
    requires property(v) && k <= |ops|
    requires forall s, op :: property(s) ==> (property(Next(s, op)) <==> guard(s, op))
    requires forall j | 0 <= j < |ops| :: guard(Fold(v, ops[..j]), ops[j])
    ensures property(Fold(v, ops[..k]))
  {
    if k == 0 {
    } else {
      HoldsAfter(property, guard, v, ops, k - 1);
      assert guard(Fold(v, ops[..k - 1]), ops[k - 1]);
      assert ops[..k][..k - 1] == ops[..k - 1];
    }
  }

  /** The index is exact at every point of a run precisely when every step was admissible. */
  lemma ExactEverywhere(v: Store, ops: seq<Leaf>)
    requires Exact(v)
    ensures (forall k | 0 <= k <= |ops| :: Exact(Fold(v, ops[..k]))) <==> AdmissibleRun(v, ops)
  {
    forall s, op: Leaf | Exact(s)
      ensures Exact(Next(s, op)) <==> Admissible(s, op)
    {
      ExactStep(s, op);
    }
    Throughout(s => Exact(s), (s, op: Leaf) => Admissible(s, op), v, ops);
  }

  /** No name dangles in a run precisely when every create kept its own name. */
  lemma NoDanglingEverywhere(v: Store, ops: seq<Leaf>)
    requires NoDangling(v)
    ensures (forall k | 0 <= k <= |ops| :: NoDangling(Fold(v, ops[..k]))) <==> OwnNamesRun(v, ops)
  {
    forall s, op: Leaf | NoDangling(s)
      ensures NoDangling(Next(s, op)) <==> KeepsOwnName(s, op)
    {
      NoDanglingStep(s, op);
    }
    Throughout(s => NoDangling(s), (s, op: Leaf) => KeepsOwnName(s, op), v, ops);
  }

  /** No lookup can panic in a run precisely when every delete dropped the last name. */
  lemma PanicFreeEverywhere(v: Store, ops: seq<Leaf>)
    requires PanicFree(v)
    ensures (forall k | 0 <= k <= |ops| :: PanicFree(Fold(v, ops[..k]))) <==> LastNamesRun(v, ops)
  {
    forall s, op: Leaf | PanicFree(s)
      ensures PanicFree(Next(s, op)) <==> DropsLastName(s, op)
    {
      PanicFreeStep(s, op);
    }
    Throughout(s => PanicFree(s), (s, op: Leaf) => DropsLastName(s, op), v, ops);
  }

  lemma ExactAfter(v: Store, ops: seq<Leaf>)
    requires Exact(v) && AdmissibleRun(v, ops)
    ensures Exact(Fold(v, ops))
  {
    ExactEverywhere(v, ops);
    assert ops[..|ops|] == ops;
  }

  // ---- Lookup by name ----

  function LookupByName(v: Store, name: string): Outcome<Option<ContainerMeta>> {
    if name !in v.byName then Ok(None)
    else if v.byName[name] !in v.byId then Panic
    else Ok(Some(v.byId[v.byName[name]]))
  }

  /** Lookups panic for no name exactly when no name leads to a missing container. */
  lemma LookupPanics(v: Store)
    ensures (forall name :: !LookupByName(v, name).Panic?) <==> PanicFree(v)
  {
    if forall name :: !LookupByName(v, name).Panic? {
      forall n | n in v.byName
        ensures v.byName[n] in v.byId
      {
        assert !LookupByName(v, n).Panic?;
      }
    }
  }

  /** Two containers may share a name; deleting one then hides the other. */
  lemma SharedNameIsLost(v: Store, a: ContainerMeta, b: ContainerMeta)
    requires a.id != b.id && a.name == b.name
    ensures var v' := Fold(v, [Create(a), Create(b), Delete(a.id)]);
            b.id in v'.byId && v'.byId[b.id].name == b.name && LookupByName(v', b.name) == Ok(None)
  {
    FoldTwo(v, Create(a), Create(b));
    FoldConcat(v, [Create(a), Create(b)], [Delete(a.id)]);
    assert [Create(a), Create(b)] + [Delete(a.id)] == [Create(a), Create(b), Delete(a.id)];
    FoldTwo(Fold(v, [Create(a), Create(b)]), Delete(a.id), Delete(a.id));
  }
}
