/** `StorageManager` over its files (src/core/metas/storage.rs): every method is proved to
    take the steps of the system in Durability, on the log's bytes, the snapshot directory
    and the mutable store. Mutual exclusion is the source's single lock. */
module Storage {
  import opened Metas
  import opened Interpreter
  import opened NameIndex
  import opened Locality
  import opened Framing
  import opened Wal
  import opened Snapshots
  import opened Durability

  function Times(saved: seq<Saved>): seq<nat> {
    seq(|saved|, k requires 0 <= k < |saved| => saved[k].time)
  }

  /** The directory holds these snapshots. */
  ghost predicate Stored(saved: seq<Saved>, files: map<nat, Store>) {
    && ByAge(Times(saved), files)
    && forall k | 0 <= k < |saved| :: saved[k].time in files && files[saved[k].time] == saved[k].state
  }

  lemma {:induction false} AscendingSnoc(times: seq<nat>, t: nat)
    requires Ascending(times) && (times != [] ==> times[|times| - 1] < t)
    ensures Ascending(times + [t])
  {
    if |times| <= 1 {
    } else {
      AscendingSnoc(times[1..], t);
      assert (times + [t])[1..] == times[1..] + [t];
    }
  }

  lemma StoredMore(saved: seq<Saved>, files: map<nat, Store>, f: Saved)
    requires Stored(saved, files) && (saved != [] ==> saved[|saved| - 1].time < f.time)
    ensures Stored(saved + [f], files[f.time := f.state])
  {
    var times := Times(saved);
    assert Times(saved + [f]) == times + [f.time];
    AscendingSnoc(times, f.time);
    forall k | 0 <= k < |saved|
      ensures saved[k].time != f.time
    {
      assert times[k] in times;
      LastIsGreatest(times, times[k]);
    }
  }

  /** A file newer than all others is the one that was just written. */
  lemma StoredLatest(saved: seq<Saved>, files: map<nat, Store>, files': map<nat, Store>, now: nat, state: Store)
    requires Stored(saved, files) && (saved != [] ==> saved[|saved| - 1].time < now)
    requires now in files' && files' - {now} == files - {now}
    requires (forall t :: t in files ==> t < now) ==> IsLatest(files', state)
    ensures files' == files[now := state]
  {
    var times := Times(saved);
    forall t | t in files
      ensures t < now
    {
      assert t in times;
      LastIsGreatest(times, t);
    }
    forall t | t in files' && t != now
      ensures t in files && files'[t] == files[t]
    {
      assert t in files' - {now};
    }
    assert forall t :: t in files && t != now ==> t in files - {now};
  }

  lemma StoredFewer(saved: seq<Saved>, files: map<nat, Store>, files': map<nat, Store>, d: nat)
    requires Stored(saved, files) && d <= |saved| && ByAge(Times(saved)[d..], files')
    requires forall t :: t in files' ==> t in files && files'[t] == files[t]
    ensures Stored(saved[d..], files')
  {
    assert Times(saved[d..]) == Times(saved)[d..];
    forall k | 0 <= k < |saved[d..]|
      ensures saved[d..][k].time in files'
    {
      assert Times(saved[d..])[k] in Times(saved[d..]);
    }
  }

  /** A purge with `max` snapshots allowed, in which at most `deletable` deletions work. */
  ghost predicate Purges(s: System, s': System, max: nat, deletable: nat) {
    var have, left := |s.saved|, |s'.saved|;
    && s.phase.Idle?
    && left == (if have <= max then have else if have <= max + deletable then max else have - deletable)
    && s' == After(s, Purge(have - left))
    && (max >= 1 ==> Newest(s') == Newest(s))
  }

  lemma StoredPurged(saved: seq<Saved>, files: map<nat, Store>, files': map<nat, Store>)
    requires Stored(saved, files) && exists max :: KeepsNewest(files, files', max)
    ensures |saved| == |files| && |files'| <= |saved| && Stored(saved[|saved| - |files'|..], files')
  {
    ByAgeLength(Times(saved), files);
    KeptIsSuffix(Times(saved), files, files');
    StoredFewer(saved, files, files', |saved| - |files'|);
  }

  /** The files that a purge keeps: `PurgeOldSnapshots` promises this. */
  ghost predicate PurgedFiles(files: map<nat, Store>, files': map<nat, Store>, max: nat, deletable: nat) {
    KeepsNewest(files, files', if |files| <= max + deletable then max else |files| - deletable)
  }

  lemma PurgedCount(files: map<nat, Store>, files': map<nat, Store>, max: nat, deletable: nat)
    requires PurgedFiles(files, files', max, deletable)
    ensures var have := |files|;
            |files'| == if have <= max then have else if have <= max + deletable then max else have - deletable
  {
  }

  lemma PurgedStored(saved: seq<Saved>, files: map<nat, Store>, files': map<nat, Store>, max: nat, deletable: nat)
    requires Stored(saved, files) && PurgedFiles(files, files', max, deletable)
    ensures |saved| == |files| && |files'| <= |saved| && Stored(saved[|saved| - |files'|..], files')
  {
    StoredPurged(saved, files, files');
  }

  lemma PurgesSuffix(s: System, left: nat, max: nat, deletable: nat)
    requires s.phase.Idle? && left <= |s.saved|
    requires var have := |s.saved|;
             left == if have <= max then have else if have <= max + deletable then max else have - deletable
    ensures Purges(s, s.(saved := s.saved[|s.saved| - left..]), max, deletable)
  {
  }

  lemma StoredPurge(s: System, files: map<nat, Store>, files': map<nat, Store>, max: nat, deletable: nat)
    returns (s': System)
    requires s.phase.Idle? && Stored(s.saved, files) && PurgedFiles(files, files', max, deletable)
    ensures |files| == |s.saved| && s' == s.(saved := s'.saved)
    ensures Stored(s'.saved, files') && Purges(s, s', max, deletable)
  {
    PurgedCount(files, files', max, deletable);
    PurgedStored(s.saved, files, files', max, deletable);
    PurgesSuffix(s, |files'|, max, deletable);
    s' := s.(saved := s.saved[|s.saved| - |files'|..]);
  }

  lemma NewestIsLatest(saved: seq<Saved>, files: map<nat, Store>, state: Store)
    requires Stored(saved, files) && IsLatest(files, state)
    ensures state == if saved == [] then EMPTY else saved[|saved| - 1].state
  {
    var times := Times(saved);
    ByAgeLength(times, files);
    if saved != [] {
      assert files != map[];
      var t :| t in files && files[t] == state && forall u :: u in files ==> u <= t;
      assert t in times;
      LastIsGreatest(times, t);
      assert times[|times| - 1] in times;
    }
  }

  method ReplayLog(state: InnerState, ops: seq<StorageOperation>) returns (ghost times: seq<nat>)
    modifies state
    ensures |times| == |LeavesOfAll(ops)|
    ensures state.Contents() == Replay(old(state.Contents()), LeavesOfAll(ops), times)
  {
    times := [];
    for k := 0 to |ops|
      invariant |times| == |LeavesOfAll(ops[..k])|
      invariant state.Contents() == Replay(old(state.Contents()), LeavesOfAll(ops[..k]), times)
    {
      var applied, more := state.ApplyOperation(ops[k]);
      ReplayConcat(old(state.Contents()), LeavesOfAll(ops[..k]), times, Leaves(ops[k]), more);
      assert ops[..k + 1][..k] == ops[..k];
      times := times + more;
    }
    assert ops[..|ops|] == ops;
  }

  /** Loads the newest snapshot and replays the whole log over it. */
  method RecoverState(snapshotter: Snapshotter, wal: WalManager, snapshotOk: bool, logOk: bool)
    returns (r: Outcome<InnerState>, ghost latest: Store, ghost times: seq<nat>)
    ensures r.Ok? <==> snapshotOk && wal.Readable(logOk).Ok?
    ensures r.Ok? ==>
              var leaves := LeavesOfAll(wal.Readable(logOk).value);
              && fresh(r.value) && |times| == |leaves|
              && IsLatest(snapshotter.files, latest)
              && r.value.Contents() == Replay(latest, leaves, times)
  {
    latest, times := EMPTY, [];
    var loaded := snapshotter.LoadLatest(snapshotOk);
    if !loaded.Ok? {
      r := Err("io");
      return;
    }
    latest := loaded.value;
    var state := new InnerState(loaded.value);
    var entries := wal.ReadOperations(logOk);
    if !entries.Ok? {
      r := if entries.Err? then Err(entries.error) else Panic;
      return;
    }
    times := ReplayLog(state, entries.value);
    r := Ok(state);
  }

  class StorageManager {
    const wal: WalManager
    const snapshotter: Snapshotter
    const state: InnerState
    var queue: seq<StorageOperation>  // the channel to the worker
    ghost var system: System

    /** The files and the memory are those of `system`, which is between operations. */
    ghost predicate Valid()
      reads this, wal, snapshotter, state
    {
      && system.phase.Idle?
      && queue == system.queue
      && wal.Holds(system.log)
      && Stored(system.saved, snapshotter.files)
      && state.Contents() == system.memory
    }

    /** A restart: `before` is the system that went down and left these files. */
    constructor (snapshotter: Snapshotter, wal: WalManager, state: InnerState, ghost before: System,
                 ghost latest: Store, ghost times: seq<nat>)
      requires before.phase.Down? && before.queue == []
      requires wal.Holds(before.log) && Stored(before.saved, snapshotter.files)
      requires IsLatest(snapshotter.files, latest) && |times| == |LeavesOfAll(before.log)|
      requires state.Contents() == Replay(latest, LeavesOfAll(before.log), times)
      ensures Valid() && this.wal == wal && this.snapshotter == snapshotter && this.state == state
      ensures Enabled(before, Recover(times)) && system == After(before, Recover(times))
    {
      this.wal, this.snapshotter, this.state, queue := wal, snapshotter, state, [];
      system := After(before, Recover(times));
      new;
      NewestIsLatest(before.saved, snapshotter.files, latest);
    }

    method Execute(op: StorageOperation)
      requires Valid()
      modifies this
      ensures Valid() && system == After(old(system), Submit(op))
    {
      queue := queue + [op];
      system := After(system, Submit(op));
    }

    /** One turn of the worker: log, then apply, then acknowledge. When logging fails the
        operation is refused and nothing changes. */
    method WorkOne(diskOk: bool) returns (ack: Outcome<()>, ghost times: seq<nat>)
      requires Valid() && queue != []
      modifies this, wal, state
      ensures Valid()
      ensures ack.Ok? <==> diskOk
      ensures !diskOk ==> system == After(old(system), LogFails)
      ensures diskOk ==>
                var logged := After(old(system), Log);
                && Enabled(logged, Apply(times))
                && system == After(After(logged, Apply(times)), Acknowledge)
    {
      times := [];
      var op := queue[0];
      queue := queue[1..];
      var written := wal.WriteOperation(op, diskOk);
      if !written.Ok? {
        system := After(system, LogFails);
        return written, times;
      }
      system := After(system, Log);
      ack, times := state.ApplyOperation(op);
      system := After(After(system, Apply(times)), Acknowledge);
    }

    method SnapshotTick(now: nat, diskOk: bool)
      requires Valid() && Enabled(system, TakeSnapshot(now))
      modifies this, snapshotter
      ensures Valid()
      ensures system == if diskOk then After(old(system), TakeSnapshot(now)) else old(system)
    {
      var r := snapshotter.TakeSnapshot(Store(state.byId, state.byName), now, diskOk);
      if diskOk {
        StoredLatest(system.saved, old(snapshotter.files), snapshotter.files, now, system.memory);
        StoredMore(system.saved, old(snapshotter.files), Saved(now, system.memory, |system.history|));
        system := After(system, TakeSnapshot(now));
      }
    }

    /** Drops the oldest snapshots, down to the allowed number unless a deletion fails. */
    method PurgeSnapshots(deletable: nat) returns (r: Outcome<()>)
      requires Valid()
      modifies this, snapshotter
      ensures Valid() && Purges(old(system), system, snapshotter.maxSnapshots, deletable)
      ensures r.Ok? <==> |old(system).saved| <= snapshotter.maxSnapshots + deletable
    {
      ghost var files := snapshotter.files;
      r := snapshotter.PurgeOldSnapshots(deletable);
      system := StoredPurge(system, files, snapshotter.files, snapshotter.maxSnapshots, deletable);
    }

    method RotateWal()
      requires Valid()
      modifies this, wal
      ensures Valid()
      ensures system == After(old(system), Rotate(wal.archiveDirExists && old(wal.current).Some?))
      ensures system.saved == old(system).saved
    {
      var r := wal.Rotate();
      assert wal.Holds(if r.Ok? then [] else system.log);
      system := After(system, Rotate(r.Ok?));
    }

    /** Purges old snapshots, then rotates the log, without taking a snapshot first. When a
        deletion fails the rotation is not attempted. The newest snapshot stays, unless none
        are allowed. */
    method CleanupTick(deletable: nat)
      requires Valid()
      modifies this, wal, snapshotter
      ensures Valid()
      ensures var max, purged := snapshotter.maxSnapshots, old(system).(saved := system.saved);
              && Purges(old(system), purged, max, deletable)
              && system == if |old(system).saved| <= max + deletable
                           then After(purged, Rotate(wal.archiveDirExists && old(wal.current).Some?))
                           else purged
    {
      var r := PurgeSnapshots(deletable);
      if r.Ok? {
        RotateWal();
      }
    }

    method CompactWal(snapshotIndex: nat, readOk: bool, writeOk: bool) returns (r: Outcome<()>)
      requires Valid()
      modifies this, wal
      ensures Valid()
      ensures r.Ok? <==> (readOk || old(wal.current).None?) && writeOk
      ensures system == if r.Ok? then After(old(system), Compact(snapshotIndex)) else old(system)
    {
      FramesRoundTrip(wal.codec, system.log);
      r := wal.Compact(snapshotIndex, readOk, writeOk);
      if r.Ok? {
        system := After(system, Compact(snapshotIndex));
      }
    }

    /** What the system's memory has under this id. */
    method GetMetaById(id: string) returns (r: Option<ContainerMeta>)
      requires Valid()
      ensures r == Entry(system.memory, id)
    {
      return if id in state.byId then Some(state.byId[id]) else None;
    }

    /** Panics where the source unwraps a missing entry. */
    method GetMetaByName(name: string) returns (r: Outcome<Option<ContainerMeta>>)
      requires Valid()
      ensures r == LookupByName(system.memory, name)
    {
      if name !in state.byName {
        return Ok(None);
      }
      var id := state.byName[name];
      if id !in state.byId {
        return Panic;
      }
      return Ok(Some(state.byId[id]));
    }
  }

  /** `StorageManager::new` on the files a system left when it went down: when they can be
      read, the manager that comes up is that system after its recovery step. */
  method OpenStorage(snapshotter: Snapshotter, wal: WalManager, ghost before: System, snapshotOk: bool, logOk: bool)
    returns (r: Outcome<StorageManager>, ghost times: seq<nat>)
    requires before.phase.Down? && before.queue == []
    requires wal.Holds(before.log) && Stored(before.saved, snapshotter.files)
    ensures r.Ok? <==> snapshotOk && (logOk || wal.current.None?)
    ensures r.Ok? ==>
              && fresh(r.value) && r.value.Valid() && r.value.wal == wal && r.value.snapshotter == snapshotter
              && Enabled(before, Recover(times)) && r.value.system == After(before, Recover(times))
  {
    FramesRoundTrip(wal.codec, before.log);
    ghost var latest;
    var state;
    state, latest, times := RecoverState(snapshotter, wal, snapshotOk, logOk);
    if !state.Ok? {
      r := if state.Err? then Err(state.error) else Panic;
      return;
    }
    var m := new StorageManager(snapshotter, wal, state.value, before, latest, times);
    r := Ok(m);
  }
}
