/** The storage manager as a step system (src/core/metas/storage.rs:131-238). One worker
    logs an operation, applies it and acknowledges it under one lock; snapshots, cleanup
    and compaction take the same lock, so they run only between operations. A crash can
    strike anywhere; it loses the memory and the queue, and leaves the files. */
module Durability {
  import opened Metas
  import opened Interpreter
  import opened NameIndex
  import opened Recovery
  import opened Wal
  import opened Snapshots

  datatype Saved = Saved(time: nat, state: Store, position: nat)

  datatype Phase = Idle | Logged(op: StorageOperation) | Applied(op: StorageOperation) | Down

  /** `saved` lists the snapshots, oldest first. `position`, `history`, `submitted`, `acked`
      and `crashes` are bookkeeping: what was logged ever, asked for, acknowledged. */
  datatype System = System(
    queue: seq<StorageOperation>,
    phase: Phase,
    memory: Store,
    log: seq<StorageOperation>,
    saved: seq<Saved>,
    history: seq<StorageOperation>,
    submitted: seq<StorageOperation>,
    acked: seq<StorageOperation>,
    crashes: nat)

  const INSTALLED := System([], Down, EMPTY, [], [], [], [], [], 0)

  datatype Action =
    | Submit(op: StorageOperation)
    | Log
    | LogFails
    | Apply(times: seq<nat>)
    | Acknowledge
    | TakeSnapshot(time: nat)
    | Purge(oldest: nat)
    | Compact(index: nat)
    | Rotate(moved: bool)
    | Crash
    | Recover(times: seq<nat>)

  function Newest(s: System): Store {
    if s.saved == [] then EMPTY else s.saved[|s.saved| - 1].state
  }

  predicate Enabled(s: System, a: Action) {
    match a
    case Submit(_) => !s.phase.Down?
    case Log => s.phase.Idle? && s.queue != []
    case LogFails => s.phase.Idle? && s.queue != []
    case Apply(times) => s.phase.Logged? && |times| == |Leaves(s.phase.op)|
    case Acknowledge => s.phase.Applied?
    case TakeSnapshot(time) => s.phase.Idle? && (s.saved != [] ==> s.saved[|s.saved| - 1].time < time)
    case Purge(oldest) => s.phase.Idle? && oldest <= |s.saved|
    case Compact(_) => s.phase.Idle?
    case Rotate(_) => s.phase.Idle?
    case Crash => !s.phase.Down?
    case Recover(times) => s.phase.Down? && |times| == |LeavesOfAll(s.log)|
  }

  function After(s: System, a: Action): System
    requires Enabled(s, a)
  {
    match a
    case Submit(op) => s.(queue := s.queue + [op], submitted := s.submitted + [op])
    case Log =>
      var op := s.queue[0];
      s.(queue := s.queue[1..], log := s.log + [op], history := s.history + [op], phase := Logged(op))
    case LogFails => s.(queue := s.queue[1..])
    case Apply(times) => s.(memory := Replay(s.memory, Leaves(s.phase.op), times), phase := Applied(s.phase.op))
    case Acknowledge => s.(acked := s.acked + [s.phase.op], phase := Idle)
    case TakeSnapshot(time) => s.(saved := s.saved + [Saved(time, s.memory, |s.history|)])
    case Purge(oldest) => s.(saved := s.saved[oldest..])
    case Compact(index) => s.(log := Compacted(s.log, index))
    case Rotate(moved) => if moved then s.(log := []) else s
    case Crash => s.(phase := Down, queue := [], memory := EMPTY, crashes := s.crashes + 1)
    case Recover(times) => s.(phase := Idle, memory := Replay(Newest(s), LeavesOfAll(s.log), times))
  }

  /** Each action of the run is enabled when its turn comes. */
  predicate Possible(s: System, run: seq<Action>)
    decreases |run|
  {
    run != [] ==> Enabled(s, run[0]) && Possible(After(s, run[0]), run[1..])
  }

  function Final(s: System, run: seq<Action>): System
    decreases |run|
  {
    if run == [] || !Enabled(s, run[0]) then s else Final(After(s, run[0]), run[1..])
  }

  // ---- What every run keeps ----

  /** The store a sequence of logged operations stands for. */
  function Meaning(ops: seq<StorageOperation>): Store {
    Fold(EMPTY, LeavesOfAll(ops))
  }

  /** How many logged operations are no longer in the log. */
  function Cut(s: System): int {
    |s.history| - |s.log|
  }

  /** How many logged operations the newest snapshot includes. */
  function Covered(s: System): nat {
    if s.saved == [] then 0 else s.saved[|s.saved| - 1].position
  }

  /** Logged, not yet acknowledged, but still going to be. */
  function Pending(s: System): nat {
    if s.phase.Logged? || s.phase.Applied? then 1 else 0
  }

  /** `a` is found in `b` at the increasing positions `at`. */
  ghost predicate Embeds<T>(a: seq<T>, at: seq<nat>, b: seq<T>) {
    && |at| == |a|
    && (forall k | 0 <= k < |a| :: at[k] < |b| && a[k] == b[at[k]])
    && (forall j, k | 0 <= j < k < |a| :: at[j] < at[k])
  }

  /** `a` is `b` with some elements left out. */
  ghost predicate Subsequence<T>(a: seq<T>, b: seq<T>) {
    exists at: seq<nat> :: Embeds(a, at, b)
  }

  ghost predicate SavedMatch(saved: seq<Saved>, history: seq<StorageOperation>) {
    && (forall k | 0 <= k < |saved| ::
          saved[k].position <= |history| && View(saved[k].state) == Meaning(history[..saved[k].position]))
    && (forall j, k | 0 <= j < k < |saved| :: saved[j].position <= saved[k].position)
  }

  ghost predicate FilesMatch(s: System) {
    && 0 <= Cut(s) <= Covered(s) <= |s.history|
    && s.log == s.history[Cut(s)..]
    && SavedMatch(s.saved, s.history)
  }

  ghost predicate MemoryMatches(s: System) {
    match s.phase
    case Idle => View(s.memory) == Meaning(s.history)
    case Logged(op) =>
      && s.history != [] && s.history[|s.history| - 1] == op
      && View(s.memory) == Meaning(s.history[..|s.history| - 1])
    case Applied(op) =>
      && s.history != [] && s.history[|s.history| - 1] == op
      && View(s.memory) == Meaning(s.history)
    case Down => true
  }

  /** What was logged, queued, submitted and acknowledged fits together. */
  ghost predicate Ledger<T>(history: seq<T>, queue: seq<T>, submitted: seq<T>, acked: seq<T>,
                            crashes: nat, pending: nat)
  {
    && pending <= 1 && pending <= |history|
    && Subsequence(acked, history[..|history| - pending])
    && |history| <= |acked| + crashes + pending
    && Subsequence(history + queue, submitted)
  }

  ghost predicate LedgerMatches(s: System) {
    Ledger(s.history, s.queue, s.submitted, s.acked, s.crashes, Pending(s))
  }

  ghost predicate Sound(s: System) {
    FilesMatch(s) && MemoryMatches(s) && LedgerMatches(s)
  }

  /** With the first `j` operations cut and the first `k` in the snapshot, replaying the log
      gives the meaning of the whole history. */
  ghost predicate Replayable(history: seq<StorageOperation>, j: nat, k: nat)
    requires j <= k <= |history|
  {
    OverlapCovered(Meaning(history[..j]), LeavesOfAll(history[j..k]), LeavesOfAll(history[k..]))
  }

  ghost predicate Restorable(s: System) {
    0 <= Cut(s) <= Covered(s) <= |s.history| && Replayable(s.history, Cut(s), Covered(s))
  }

  /** Cuts the log only where the newest snapshot covers it, keeps a snapshot while the
      log is cut, and restarts only when the overlap is covered. */
  ghost predicate Careful(s: System, a: Action) {
    match a
    case Compact(index) => |s.history| - |Drop(s.log, index + 1)| <= Covered(s)
    case Rotate(moved) => moved ==> |s.history| <= Covered(s)
    case Purge(oldest) => oldest < |s.saved| || Cut(s) == 0
    case Recover(_) => Restorable(s)
    case _ => true
  }

  // ---- Recovery restores the state ----

  lemma RecoveredMemory(s: System, times: seq<nat>)
    requires FilesMatch(s) && Enabled(s, Recover(times))
    ensures View(After(s, Recover(times)).memory) == Fold(Meaning(s.history[..Covered(s)]), LeavesOfAll(s.log))
  {
    ReplayView(Newest(s), LeavesOfAll(s.log), times);
    if s.saved == [] {
      assert s.history[..0] == [];
    }
  }

  lemma MeaningConcat(a: seq<StorageOperation>, b: seq<StorageOperation>)
    ensures Meaning(a + b) == Fold(Meaning(a), LeavesOfAll(b))
  {
    LeavesOfConcat(a, b);
    FoldConcat(EMPTY, LeavesOfAll(a), LeavesOfAll(b));
  }

  /** `a` was cut from the log, the snapshot was taken after `b`, then came `c`. */
  lemma OverlappingReplay(a: seq<StorageOperation>, b: seq<StorageOperation>, c: seq<StorageOperation>)
    ensures Fold(Meaning(a + b), LeavesOfAll(b + c)) == Meaning(a + (b + c))
       <==> OverlapCovered(Meaning(a), LeavesOfAll(b), LeavesOfAll(c))
  {
    LeavesOfConcat(b, c);
    MeaningConcat(a, b);
    MeaningConcat(a, b + c);
    OverlapReplay(Meaning(a), LeavesOfAll(b), LeavesOfAll(c));
  }

  lemma Parts(ops: seq<StorageOperation>, j: nat, k: nat)
    requires j <= k <= |ops|
    ensures ops == ops[..j] + (ops[j..k] + ops[k..])
    ensures ops[..k] == ops[..j] + ops[j..k] && ops[j..] == ops[j..k] + ops[k..]
  {
  }

  lemma ReplayableRestores(h: seq<StorageOperation>, j: nat, k: nat)
    requires j <= k <= |h|
    ensures Fold(Meaning(h[..k]), LeavesOfAll(h[j..])) == Meaning(h) <==> Replayable(h, j, k)
  {
    Parts(h, j, k);
    OverlappingReplay(h[..j], h[j..k], h[k..]);
  }

  lemma RestorableSame(s: System, s': System)
    requires s'.history == s.history && s'.log == s.log && s'.saved == s.saved
    ensures Restorable(s') <==> Restorable(s)
  {
  }

  /** Recovery gives the meaning of everything ever logged exactly when the overlap of the
      log with the newest snapshot is covered. */
  lemma RecoverRestores(s: System, times: seq<nat>)
    requires FilesMatch(s) && Enabled(s, Recover(times))
    ensures View(After(s, Recover(times)).memory) == Meaning(s.history) <==> Restorable(s)
  {
    RecoveredMemory(s, times);
    ReplayableRestores(s.history, Cut(s), Covered(s));
  }

  /** An uncut log is always restorable, whatever the history. */
  lemma UncutRestorable(s: System)
    requires FilesMatch(s) && Cut(s) == 0
    ensures Restorable(s)
  {
    assert s.history[..0] == [];
    EmptyCovered(LeavesOfAll(s.history[0..Covered(s)]), LeavesOfAll(s.history[Covered(s)..]));
  }

  /** So is a log that starts where the newest snapshot was taken. */
  lemma ExactCutRestorable(s: System)
    requires FilesMatch(s) && Cut(s) == Covered(s)
    ensures Restorable(s)
  {
    var k := Covered(s);
    assert s.history[k..k] == [];
    NoOverlapCovered(Meaning(s.history[..k]), LeavesOfAll(s.history[k..]));
  }

  lemma AdmissibleMiddle(a: seq<Leaf>, b: seq<Leaf>, c: seq<Leaf>)
    requires AdmissibleRun(EMPTY, a + (b + c))
    ensures Exact(Fold(EMPTY, a)) && AdmissibleRun(Fold(EMPTY, a), b)
  {
    AdmissibleSplit(EMPTY, a, b + c);
    ExactAfter(EMPTY, a);
    AdmissibleSplit(Fold(EMPTY, a), b, c);
  }

  lemma AdmissibleReplayable(a: seq<StorageOperation>, b: seq<StorageOperation>, c: seq<StorageOperation>)
    requires AdmissibleRun(EMPTY, LeavesOfAll(a + (b + c)))
    ensures NamesCovered(Meaning(a), LeavesOfAll(b), LeavesOfAll(c))
  {
    LeavesOfConcat(a, b + c);
    LeavesOfConcat(b, c);
    AdmissibleMiddle(LeavesOfAll(a), LeavesOfAll(b), LeavesOfAll(c));
    AdmissibleNamesCovered(Meaning(a), LeavesOfAll(b), LeavesOfAll(c));
  }

  /** With admissible creates only the mounts matter. */
  lemma AdmissibleRestorable(s: System)
    requires FilesMatch(s) && AdmissibleRun(EMPTY, LeavesOfAll(s.history))
    ensures var j, k := Cut(s), Covered(s);
            Restorable(s) <==>
              MountsCovered(Meaning(s.history[..j]), LeavesOfAll(s.history[j..k]), LeavesOfAll(s.history[k..]))
  {
    var h, j, k := s.history, Cut(s), Covered(s);
    Parts(h, j, k);
    AdmissibleReplayable(h[..j], h[j..k], h[k..]);
  }

  // ---- Careful steps, and only they, keep the store sound ----

  lemma SubsequenceLonger<T>(a: seq<T>, b: seq<T>, x: T)
    requires Subsequence(a, b)
    ensures Subsequence(a, b + [x]) && Subsequence(a + [x], b + [x])
  {
    var at: seq<nat> :| Embeds(a, at, b);
    assert Embeds(a, at, b + [x]);
    assert Embeds(a + [x], at + [|b|], b + [x]);
  }

  lemma SubsequencePrefix<T>(a: seq<T>, c: seq<T>, b: seq<T>)
    requires Subsequence(a + c, b)
    ensures Subsequence(a, b)
  {
    var at: seq<nat> :| Embeds(a + c, at, b);
    forall k | 0 <= k < |a|
      ensures at[k] < |b| && a[k] == b[at[k]]
    {
      assert (a + c)[k] == a[k];
    }
    assert Embeds(a, at[..|a|], b);
  }

  lemma SubsequenceWithout<T>(a: seq<T>, x: T, c: seq<T>, b: seq<T>)
    requires Subsequence(a + [x] + c, b)
    ensures Subsequence(a + c, b)
  {
    var whole := a + [x] + c;
    var at: seq<nat> :| Embeds(whole, at, b);
    var at' := at[..|a|] + at[|a| + 1..];
    forall k | 0 <= k < |a + c|
      ensures at'[k] < |b| && (a + c)[k] == b[at'[k]]
    {
      var k' := if k < |a| then k else k + 1;
      assert whole[k'] == (a + c)[k] && at'[k] == at[k'];
    }
    assert Embeds(a + c, at', b);
  }

  lemma SavedMatchLonger(saved: seq<Saved>, history: seq<StorageOperation>, op: StorageOperation)
    requires SavedMatch(saved, history)
    ensures SavedMatch(saved, history + [op])
  {
    forall k | 0 <= k < |saved|
      ensures saved[k].position <= |history| && (history + [op])[..saved[k].position] == history[..saved[k].position]
    {
    }
  }

  lemma SavedMatchNew(saved: seq<Saved>, history: seq<StorageOperation>, f: Saved)
    requires SavedMatch(saved, history)
    requires f.position == |history| && View(f.state) == Meaning(history)
    ensures SavedMatch(saved + [f], history)
  {
    assert history[..|history|] == history;
  }

  lemma SavedMatchSuffix(saved: seq<Saved>, history: seq<StorageOperation>, d: nat)
    requires SavedMatch(saved, history) && d <= |saved|
    ensures SavedMatch(saved[d..], history)
  {
  }

  lemma LogSuffix<T>(history: seq<T>, log: seq<T>, op: T)
    requires |log| <= |history| && log == history[|history| - |log|..]
    ensures log + [op] == (history + [op])[|history| - |log|..]
  {
  }

  lemma FilesLonger(s: System, s': System, op: StorageOperation)
    requires FilesMatch(s) && s'.history == s.history + [op] && s'.log == s.log + [op] && s'.saved == s.saved
    ensures FilesMatch(s')
  {
    assert SavedMatch(s'.saved, s'.history) by {
      SavedMatchLonger(s.saved, s.history, op);
    }
    assert s'.log == s'.history[Cut(s')..] by {
      LogSuffix(s.history, s.log, op);
    }
  }

  lemma FilesLog(s: System)
    requires FilesMatch(s) && Enabled(s, Log)
    ensures FilesMatch(After(s, Log))
  {
    FilesLonger(s, After(s, Log), s.queue[0]);
  }

  lemma FilesSnapshot(s: System, time: nat)
    requires FilesMatch(s) && MemoryMatches(s) && Enabled(s, TakeSnapshot(time))
    ensures FilesMatch(After(s, TakeSnapshot(time)))
  {
    SavedMatchNew(s.saved, s.history, Saved(time, s.memory, |s.history|));
  }

  lemma FilesPurge(s: System, oldest: nat)
    requires FilesMatch(s) && Enabled(s, Purge(oldest))
    ensures FilesMatch(After(s, Purge(oldest))) <==> Careful(s, Purge(oldest))
  {
    SavedMatchSuffix(s.saved, s.history, oldest);
  }

  lemma DropSuffix<T>(history: seq<T>, log: seq<T>, n: nat)
    requires |log| <= |history| && log == history[|history| - |log|..]
    ensures |Drop(log, n)| <= |log| && Drop(log, n) == history[|history| - |Drop(log, n)|..]
  {
  }

  lemma FilesCut(s: System, s': System)
    requires FilesMatch(s) && s'.history == s.history && s'.saved == s.saved && |s'.log| <= |s.log|
    requires s'.log == s.history[|s.history| - |s'.log|..]
    ensures FilesMatch(s') <==> Cut(s') <= Covered(s)
  {
  }

  lemma FilesCompact(s: System, index: nat)
    requires FilesMatch(s) && Enabled(s, Compact(index))
    ensures FilesMatch(After(s, Compact(index))) <==> Careful(s, Compact(index))
  {
    CompactedIsTail(s.log, index);
    DropSuffix(s.history, s.log, index + 1);
    FilesCut(s, After(s, Compact(index)));
  }

  lemma FilesRotate(s: System, moved: bool)
    requires FilesMatch(s) && Enabled(s, Rotate(moved))
    ensures FilesMatch(After(s, Rotate(moved))) <==> Careful(s, Rotate(moved))
  {
    assert s.history[|s.history|..] == [];
    if moved {
      FilesCut(s, After(s, Rotate(moved)));
    }
  }

  lemma FilesSame(s: System, s': System)
    requires FilesMatch(s) && s'.history == s.history && s'.log == s.log && s'.saved == s.saved
    ensures FilesMatch(s')
  {
  }

  lemma FilesStep(s: System, a: Action)
    requires FilesMatch(s) && MemoryMatches(s) && Enabled(s, a)
    ensures FilesMatch(After(s, a)) <==> a.Recover? || Careful(s, a)
  {
    match a
    case Log => FilesLog(s);
    case TakeSnapshot(time) => FilesSnapshot(s, time);
    case Purge(oldest) => FilesPurge(s, oldest);
    case Compact(index) => FilesCompact(s, index);
    case Rotate(moved) => FilesRotate(s, moved);
    case _ => FilesSame(s, After(s, a));
  }

  lemma MemoryApply(s: System, times: seq<nat>)
    requires MemoryMatches(s) && Enabled(s, Apply(times))
    ensures MemoryMatches(After(s, Apply(times)))
  {
    var n, op := |s.history| - 1, s.phase.op;
    ReplayView(s.memory, Leaves(op), times);
    FoldConcat(EMPTY, LeavesOfAll(s.history[..n]), Leaves(op));
  }

  lemma MemoryStep(s: System, a: Action)
    requires FilesMatch(s) && MemoryMatches(s) && Enabled(s, a)
    ensures MemoryMatches(After(s, a)) <==> !a.Recover? || Careful(s, a)
  {
    if a.Log? {
      assert (s.history + [s.queue[0]])[..|s.history|] == s.history;
    } else if a.Apply? {
      MemoryApply(s, a.times);
    } else if a.Recover? {
      RecoverRestores(s, a.times);
    }
  }

  lemma SubsequenceOfAll<T>(a: seq<T>, b: seq<T>, pending: nat)
    requires pending <= 1 && pending <= |b| && Subsequence(a, b[..|b| - pending])
    ensures Subsequence(a, b)
    ensures pending == 1 ==> Subsequence(a + [b[|b| - 1]], b)
  {
    if pending == 1 {
      SubsequenceLonger(a, b[..|b| - 1], b[|b| - 1]);
      assert b[..|b| - 1] + [b[|b| - 1]] == b;
    } else {
      assert b[..|b|] == b;
    }
  }

  lemma LedgerEmpty<T>()
    ensures Ledger<T>([], [], [], [], 0, 0)
  {
    var none: seq<nat>, nothing: seq<T> := [], [];
    assert Embeds(nothing, none, nothing);
    assert nothing[..0] == nothing && nothing + nothing == nothing;
  }

  lemma LedgerSubmit<T>(h: seq<T>, q: seq<T>, submitted: seq<T>, acked: seq<T>, crashes: nat, pending: nat, op: T)
    requires Ledger(h, q, submitted, acked, crashes, pending)
    ensures Ledger(h, q + [op], submitted + [op], acked, crashes, pending)
  {
    SubsequenceLonger(h + q, submitted, op);
    assert h + q + [op] == h + (q + [op]);
  }

  lemma LedgerLog<T>(h: seq<T>, q: seq<T>, submitted: seq<T>, acked: seq<T>, crashes: nat)
    requires Ledger(h, q, submitted, acked, crashes, 0) && q != []
    ensures Ledger(h + [q[0]], q[1..], submitted, acked, crashes, 1)
    ensures Ledger(h, q[1..], submitted, acked, crashes, 0)
  {
    assert h + [q[0]] + q[1..] == h + q;
    assert h[..|h|] == h && (h + [q[0]])[..|h|] == h;
    SubsequenceWithout(h, q[0], q[1..], submitted);
  }

  lemma LedgerAcknowledge<T>(h: seq<T>, q: seq<T>, submitted: seq<T>, acked: seq<T>, crashes: nat)
    requires Ledger(h, q, submitted, acked, crashes, 1)
    ensures Ledger(h, q, submitted, acked + [h[|h| - 1]], crashes, 0)
  {
    SubsequenceOfAll(acked, h, 1);
    assert h[..|h|] == h;
  }

  lemma LedgerCrash<T>(h: seq<T>, q: seq<T>, submitted: seq<T>, acked: seq<T>, crashes: nat, pending: nat)
    requires Ledger(h, q, submitted, acked, crashes, pending)
    ensures Ledger(h, [], submitted, acked, crashes + 1, 0)
    ensures Subsequence(acked, h) && Subsequence(h, submitted)
  {
    SubsequencePrefix(h, q, submitted);
    SubsequenceOfAll(acked, h, pending);
    assert h[..|h|] == h && h + [] == h;
  }

  lemma LedgerStep(s: System, a: Action)
    requires LedgerMatches(s) && MemoryMatches(s) && Enabled(s, a)
    ensures LedgerMatches(After(s, a))
  {
    match a
    case Submit(op) => LedgerSubmit(s.history, s.queue, s.submitted, s.acked, s.crashes, Pending(s), op);
    case Log => LedgerLog(s.history, s.queue, s.submitted, s.acked, s.crashes);
    case LogFails => LedgerLog(s.history, s.queue, s.submitted, s.acked, s.crashes);
    case Acknowledge => LedgerAcknowledge(s.history, s.queue, s.submitted, s.acked, s.crashes);
    case Crash => LedgerCrash(s.history, s.queue, s.submitted, s.acked, s.crashes, Pending(s));
    case _ =>
  }

  lemma InstalledIsSound()
    ensures Sound(INSTALLED)
  {
    LedgerEmpty<StorageOperation>();
  }

  /** A step keeps the system sound exactly when it is careful. */
  lemma SoundStep(s: System, a: Action)
    requires Sound(s) && Enabled(s, a)
    ensures Sound(After(s, a)) <==> Careful(s, a)
  {
    FilesStep(s, a);
    MemoryStep(s, a);
    LedgerStep(s, a);
  }

  ghost predicate CarefulRun(s: System, run: seq<Action>)
    requires Possible(s, run)
    decreases |run|
  {
    run != [] ==> Careful(s, run[0]) && CarefulRun(After(s, run[0]), run[1..])
  }

  ghost predicate SoundThroughout(s: System, run: seq<Action>)
    requires Possible(s, run)
    decreases |run|
  {
    Sound(s) && (run != [] ==> SoundThroughout(After(s, run[0]), run[1..]))
  }

  /** A system is sound at every point of a run exactly when every step is careful. */
  lemma {:induction false} SoundRuns(s: System, run: seq<Action>)
    requires Sound(s) && Possible(s, run)
    ensures SoundThroughout(s, run) <==> CarefulRun(s, run)
    ensures SoundThroughout(s, run) ==> Sound(Final(s, run))
    decreases |run|
  {
    if run == [] {
    } else {
      var s' := After(s, run[0]);
      SoundStep(s, run[0]);
      if Sound(s') {
        SoundRuns(s', run[1..]);
      } else {
        assert !SoundThroughout(s', run[1..]);
      }
    }
  }

  // ---- Runs that never cut the log need no care at all ----

  predicate NeverCuts(run: seq<Action>) {
    forall k | 0 <= k < |run| :: !run[k].Compact? && (run[k].Rotate? ==> !run[k].moved)
  }

  lemma UncutStep(s: System, a: Action)
    requires Sound(s) && Cut(s) == 0 && Enabled(s, a)
    requires !a.Compact? && (a.Rotate? ==> !a.moved)
    ensures Sound(After(s, a)) && Cut(After(s, a)) == 0
  {
    SoundStep(s, a);
    if a.Recover? {
      UncutRestorable(s);
    }
  }

  lemma {:induction false} UncutRun(s: System, run: seq<Action>)
    requires Sound(s) && Cut(s) == 0 && Possible(s, run) && NeverCuts(run)
    ensures Sound(Final(s, run)) && Cut(Final(s, run)) == 0
    decreases |run|
  {
    if run == [] {
    } else {
      UncutStep(s, run[0]);
      UncutRun(After(s, run[0]), run[1..]);
    }
  }

  /** Whole-run durability. Whatever is submitted, snapshotted, purged, and however often
      the process crashes and restarts: between operations memory is what the log says,
      every acknowledged operation is in the log, in order, nothing is in the log that was
      not submitted, and each crash leaves at most one unacknowledged operation there. */
  lemma Durable(run: seq<Action>)
    requires Possible(INSTALLED, run) && NeverCuts(run)
    ensures var s := Final(INSTALLED, run);
            && (s.phase.Idle? ==> View(s.memory) == Meaning(s.log))
            && Subsequence(s.acked, s.log) && Subsequence(s.log, s.submitted)
            && |s.log| <= |s.acked| + s.crashes + Pending(s)
  {
    InstalledIsSound();
    UncutRun(INSTALLED, run);
    var s := Final(INSTALLED, run);
    assert s.log == s.history;
    LedgerCrash(s.history, s.queue, s.submitted, s.acked, s.crashes, Pending(s));
  }

  // ---- Names in a sound system, also after recovery ----

  lemma NamesOfView(s: Store)
    ensures NoDangling(View(s)) <==> NoDangling(s)
    ensures PanicFree(View(s)) <==> PanicFree(s)
    ensures Exact(View(s)) <==> Exact(s)
  {
    assert View(s).byId.Keys == s.byId.Keys;
    forall i | i in s.byId
      ensures View(s).byId[i].name == s.byId[i].name
    {
    }
    if NoDangling(View(s)) {
      forall n | n in s.byName
        ensures s.byName[n] in s.byId && s.byId[s.byName[n]].name == n
      {
        assert n in View(s).byName;
      }
    }
    if Exact(View(s)) {
      forall i | i in s.byId
        ensures s.byId[i].name in s.byName && s.byName[s.byId[i].name] == i
      {
        assert i in View(s).byId;
      }
    }
  }

  /** Between operations the name index is as good as the logged history makes it, however
      many crashes and overlapping replays there were: no name dangles when no live
      container was renamed away from its entry, no lookup panics when every delete dropped
      the last name, and lookups agree with a scan when every create was admissible. */
  lemma NamesInSoundSystem(s: System)
    requires Sound(s) && s.phase.Idle?
    ensures OwnNamesRun(EMPTY, LeavesOfAll(s.history)) ==> NoDangling(s.memory)
    ensures LastNamesRun(EMPTY, LeavesOfAll(s.history)) ==> forall name :: !LookupByName(s.memory, name).Panic?
    ensures AdmissibleRun(EMPTY, LeavesOfAll(s.history)) ==> Exact(s.memory)
  {
    var leaves := LeavesOfAll(s.history);
    NamesOfView(s.memory);
    assert leaves[..|leaves|] == leaves;
    if OwnNamesRun(EMPTY, leaves) {
      NoDanglingEverywhere(EMPTY, leaves);
    }
    if LastNamesRun(EMPTY, leaves) {
      PanicFreeEverywhere(EMPTY, leaves);
      LookupPanics(s.memory);
    }
    if AdmissibleRun(EMPTY, leaves) {
      ExactAfter(EMPTY, leaves);
    }
  }
}
