/** What cutting the log costs: compaction at the snapshot, which is always safe, and
    rotation, which moves the log where recovery never looks. */
module LogCuts {
  import opened Metas
  import opened Interpreter
  import opened Wal
  import opened Durability

  /** `s` was compacted at `index`. */
  predicate IsCompacted(s: System, index: nat, compacted: System) {
    s.phase.Idle? && compacted == After(s, Compact(index))
  }

  lemma CompactedFiles(s: System, index: nat, compacted: System)
    requires FilesMatch(s) && IsCompacted(s, index, compacted) && Cut(s) + index + 1 == Covered(s)
    ensures FilesMatch(compacted) && Cut(compacted) == Covered(compacted)
  {
    CompactedIsTail(s.log, index);
    assert |s.log| == |s.history| - Cut(s);
  }

  lemma CrashAndRecover(s: System, times: seq<nat>)
    requires FilesMatch(s) && Restorable(s) && s.phase.Idle? && |times| == |LeavesOfAll(s.log)|
    ensures Enabled(After(s, Crash), Recover(times))
    ensures View(After(After(s, Crash), Recover(times)).memory) == Meaning(s.history)
  {
    FilesSame(s, After(s, Crash));
    RestorableSame(s, After(s, Crash));
    RecoverRestores(After(s, Crash), times);
  }

  /** Compacting exactly at the newest snapshot is safe for all operations: a crash right
      after it, and recovery, give back the live state, with no condition on the history. */
  lemma CompactAtSnapshot(s: System, index: nat, compacted: System, times: seq<nat>)
    requires Sound(s) && IsCompacted(s, index, compacted) && Cut(s) + index + 1 == Covered(s)
    requires |times| == |LeavesOfAll(compacted.log)|
    ensures Enabled(After(compacted, Crash), Recover(times))
    ensures View(After(After(compacted, Crash), Recover(times)).memory) == View(s.memory)
  {
    CompactedFiles(s, index, compacted);
    ExactCutRestorable(compacted);
    CrashAndRecover(compacted, times);
  }

  /** The state after a rotation that succeeds, a crash and a restart. */
  function Rotated(s: System): System
    requires s.phase.Idle?
  {
    After(After(After(s, Rotate(true)), Crash), Recover([]))
  }

  lemma NewestMeaning(s: System)
    requires FilesMatch(s)
    ensures View(Newest(s)) == Meaning(s.history[..Covered(s)])
  {
    if s.saved == [] {
      assert s.history[..0] == [];
    }
  }

  lemma RotatedMemory(s: System)
    requires s.phase.Idle?
    ensures Rotated(s).memory == Newest(s)
  {
  }

  lemma FirstAction(s: System, a: Action, rest: seq<Action>)
    requires Enabled(s, a) && Possible(After(s, a), rest)
    ensures Possible(s, [a] + rest) && Final(s, [a] + rest) == Final(After(s, a), rest)
  {
    assert ([a] + rest)[1..] == rest;
  }

  lemma {:induction false} RunConcat(s: System, first: seq<Action>, rest: seq<Action>)
    requires Possible(s, first) && Possible(Final(s, first), rest)
    ensures Possible(s, first + rest) && Final(s, first + rest) == Final(Final(s, first), rest)
    decreases |first|
  {
    if first == [] {
      assert first + rest == rest;
    } else {
      RunConcat(After(s, first[0]), first[1..], rest);
      FirstAction(s, first[0], first[1..] + rest);
      assert first + rest == [first[0]] + (first[1..] + rest);
    }
  }

  lemma RunOfTwo(s: System, a: Action, b: Action)
    requires Enabled(s, a) && Enabled(After(s, a), b)
    ensures Possible(s, [a, b]) && Final(s, [a, b]) == After(After(s, a), b)
  {
    FirstAction(After(s, a), b, []);
    FirstAction(s, a, [b] + []);
    assert [a] + ([b] + []) == [a, b];
  }

  lemma RunOfThree(s: System, a: Action, b: Action, c: Action)
    requires Enabled(s, a) && Enabled(After(s, a), b) && Enabled(After(After(s, a), b), c)
    ensures Possible(s, [a, b, c]) && Final(s, [a, b, c]) == After(After(After(s, a), b), c)
  {
    RunOfTwo(After(s, a), b, c);
    FirstAction(s, a, [b, c]);
    assert [a] + [b, c] == [a, b, c];
  }

  /** A manager that just came up on an empty disk and was asked for `op`. */
  function Asked(op: StorageOperation): System {
    INSTALLED.(phase := Idle, queue := [op], submitted := [op])
  }

  /** The same manager after serving `op`. */
  function Served(op: Leaf, time: nat): System {
    Asked(op).(queue := [], memory := Step(EMPTY, op, time), log := [op], history := [op], acked := [op])
  }

  lemma AskRun(op: StorageOperation)
    ensures Possible(INSTALLED, [Recover([]), Submit(op)])
    ensures Final(INSTALLED, [Recover([]), Submit(op)]) == Asked(op)
  {
    RunOfTwo(INSTALLED, Recover([]), Submit(op));
  }

  lemma ServeRun(op: Leaf, time: nat)
    ensures Possible(Asked(op), [Log, Apply([time]), Acknowledge])
    ensures Final(Asked(op), [Log, Apply([time]), Acknowledge]) == Served(op, time)
  {
    var logged := After(Asked(op), Log);
    assert Leaves(op) == [op];
    var applied := After(logged, Apply([time]));
    ReplayOne(EMPTY, op, time);
    assert applied.memory == Step(EMPTY, op, time);
    RunOfThree(Asked(op), Log, Apply([time]), Acknowledge);
  }

  lemma RotateRun(s: System)
    requires s.phase.Idle?
    ensures Possible(s, [Rotate(true), Crash, Recover([])])
    ensures Final(s, [Rotate(true), Crash, Recover([])]) == Rotated(s)
  {
    RunOfThree(s, Rotate(true), Crash, Recover([]));
  }

  /** A rotation that succeeds, then a crash and a restart, go back to the newest snapshot.
      That keeps the live state exactly when the snapshot already equals it, up to
      `updated_at`, and loses exactly the live containers the snapshot does not have. */
  lemma RotationForgets(s: System)
    requires Sound(s) && s.phase.Idle?
    ensures Possible(s, [Rotate(true), Crash, Recover([])])
    ensures var after := Final(s, [Rotate(true), Crash, Recover([])]);
            && View(after.memory) == Meaning(s.history[..Covered(s)])
            && (View(after.memory) == Meaning(s.history) <==> View(Newest(s)) == View(s.memory))
            && forall id | id in s.memory.byId :: id !in after.memory.byId <==> id !in Newest(s).byId
  {
    NewestMeaning(s);
    RotatedMemory(s);
    RotateRun(s);
  }

  /** A run of the installed system in which an acknowledged operation is lost: its create
      is logged, applied and acknowledged, and gone after rotation, crash and restart. */
  lemma AcknowledgedThenLost(m: ContainerMeta, time: nat)
    ensures var run := [Recover([]), Submit(Create(m))] + [Log, Apply([time]), Acknowledge]
                     + [Rotate(true), Crash, Recover([])];
            && Possible(INSTALLED, run)
            && var s := Final(INSTALLED, run);
               && s.phase.Idle? && s.acked == [Create(m)] && m.id in Served(Create(m), time).memory.byId
               && s.memory == EMPTY
  {
    var op: Leaf := Create(m);
    AskRun(op);
    ServeRun(op, time);
    RunConcat(INSTALLED, [Recover([]), Submit(op)], [Log, Apply([time]), Acknowledge]);
    RotateRun(Served(op, time));
    RunConcat(INSTALLED, [Recover([]), Submit(op)] + [Log, Apply([time]), Acknowledge], [Rotate(true), Crash, Recover([])]);
  }

  /** The remedy: a snapshot that succeeds right before makes every rotation and every
      compaction safe, with whatever was cut before, and recovery after it exact. */
  lemma SnapshotMakesCutsSafe(s: System, time: nat, cut: Action)
    requires Sound(s) && Enabled(s, TakeSnapshot(time)) && (cut.Rotate? || cut.Compact?)
    ensures var s' := After(s, TakeSnapshot(time));
            && Newest(s') == s.memory && Covered(s') == |s'.history| && s'.saved == s.saved + [s'.saved[|s.saved|]]
            && Enabled(s', cut) && Sound(After(s', cut))
  {
    var s' := After(s, TakeSnapshot(time));
    SoundStep(s, TakeSnapshot(time));
    SoundStep(s', cut);
  }

  lemma RotateOnce(s: System)
    requires Sound(s) && s.phase.Idle?
    ensures Sound(After(s, Rotate(true))) <==> Covered(s) == |s.history|
  {
    SoundStep(s, Rotate(true));
  }

  lemma RotateLast(run: seq<Action>)
    requires Possible(INSTALLED, run) && Final(INSTALLED, run).phase.Idle?
    ensures Possible(INSTALLED, run + [Rotate(true)])
    ensures Final(INSTALLED, run + [Rotate(true)]) == After(Final(INSTALLED, run), Rotate(true))
  {
    FirstAction(Final(INSTALLED, run), Rotate(true), []);
    assert [Rotate(true)] + [] == [Rotate(true)];
    RunConcat(INSTALLED, run, [Rotate(true)]);
  }

  /** At the end of a careful run, a rotation that succeeds leaves a sound system exactly
      when the newest snapshot includes everything that was logged. */
  lemma RotationOnlyWhenCovered(run: seq<Action>)
    requires Possible(INSTALLED, run) && CarefulRun(INSTALLED, run) && Final(INSTALLED, run).phase.Idle?
    ensures Possible(INSTALLED, run + [Rotate(true)])
    ensures var s := Final(INSTALLED, run);
            Sound(Final(INSTALLED, run + [Rotate(true)])) <==> Covered(s) == |s.history|
  {
    InstalledIsSound();
    SoundRuns(INSTALLED, run);
    RotateOnce(Final(INSTALLED, run));
    RotateLast(run);
  }
}
