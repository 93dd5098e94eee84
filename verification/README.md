# Rtain: container metadata store and address allocator, verified

A Dafny 4.11 model of the two stateful cores of Rtain, with proofs of what they promise:

* **The container metadata store** (`src/core/metas`): a write-ahead log, snapshots, and an
  interpreter over two indexes that both the live worker and the recovery replay run.
* **The IPv4 address allocator** (`src/core/network`): bitmaps per CIDR, address/index
  arithmetic, byte-level persistence, and `create_network` as its client.

`dafny verify dfyconfig.toml` checks everything.

## How it is laid out

| file | what it holds |
|---|---|
| `Arithmetic.dfy` | a few facts about products and quotients |
| `Metas.dfy` | containers, operations, the leaves of a nested batch |
| `Interpreter.dfy` | `InnerState` (mutable) and the meaning of a sequence of leaves |
| `NameIndex.dfy` | when `by_name` is exact, never dangles, never panics |
| `Locality.dfy` | one container's history: locality, last-writer-wins fields, mounts |
| `Recovery.dfy` | replaying a log over a snapshot that already covers part of it |
| `Framing.dfy`, `Wal.dfy` | the log's bytes, and `WalManager` (mutable) |
| `Snapshots.dfy` | `Snapshotter` (mutable) |
| `Durability.dfy` | the whole manager as a step system with crashes |
| `Delivery.dfy` | what becomes of submitted operations over whole runs |
| `LogCuts.dfy` | what compaction and rotation cost in that system |
| `Storage.dfy` | `StorageManager` (mutable), proved to take those steps on the files |
| `Queries.dfy` | filters, scans by name and the resource summary |
| `Ipv4.dfy`, `Ipam.dfy`, `AllocatorRuns.dfy` | 32-bit address arithmetic, `IPAM` (mutable), whole runs |
| `Replies.dfy` | exactly when each allocator call panics, refuses or succeeds |
| `BitmapFile.dfy`, `Networks.dfy` | saved bitmaps, `Networks` (mutable) with restarts |

The mutable classes follow the source's methods; their contracts tie the new state to
functions of the old one, and the lemmas are about those functions.

`updated_at` is read from the clock, again on every replay (src/core/metas/meta.rs:391), so
states are compared through `View`, which blanks that one field. The clock may give any
readings at all.

## Main results

1. *Recovery from an uncut log is exact for every history* (`Recovery.WholeLogReplay`):
   duplicate names, reused ids and repeated mounts included, wherever the snapshot was taken.
2. *Recovery from a cut log is exact if and only if the overlap of log and snapshot is
   covered* (`Recovery.OverlapReplay`), for every store, every history and every
   continuation. A container that was live where the log starts, and that nothing in the log
   creates or deletes, must have each mount the overlap adds unmounted in the log; otherwise
   it comes back twice. A name that the overlap frees by deleting an old container, after the
   name's last create, must be freed again by a delete that the replay repeats; otherwise the
   replay brings it back. With admissible
   creates -- no live id renamed, no held name taken -- the names are always covered
   (`Recovery.AdmissibleNamesCovered`). Everything else, both status operations included,
   always survives.
3. *Whole-run durability* (`Durability.Durable`): any run of submissions, failed writes,
   snapshots, purges, crashes and restarts that never cuts the log needs no side condition.
   With cuts, a run is sound at every point if and only if every step is careful
   (`Durability.SoundRuns`): a cut stays within what the newest snapshot covers, that
   snapshot is not purged while the log is cut, and a restart finds the overlap covered. A
   snapshot right before a cut always makes it safe (`LogCuts.SnapshotMakesCutsSafe`).
   Nothing submitted gets lost on the way (`Delivery.Conserved`): each operation ends up once
   in the log's history, in the queue, refused by a failed write, or in a queue a crash took.
4. *The name index*: the guards under which it stays exact, stays free of dangling names, or
   never makes a lookup panic are proved to be exact, step by step and for whole runs. Lookup
   by name agrees with a scan, in every iteration order and throughout a history, if and only
   if every create was admissible (`Queries.HistoriesScan`).
5. *The allocator over whole runs with restarts* (`AllocatorRuns.EveryRunTracks`): the
   outstanding addresses are exactly the set bits if and only if no reload is stale. What is
   handed out is a host exactly while a host is left (`HandsOutHosts`), release works exactly
   on outstanding addresses within the network (`ReleasesOutstanding`), and two disjoint
   subnets can hold one address if and only if a /30 lies right before the other
   (`DisjointSubnetsShare`).

## Where the code does less than it seems to

* `rotate` moves the log where recovery never looks, and cleanup takes no snapshot first
  (src/core/metas/storage.rs:192-198). When the archive directory exists, a crash after
  cleanup falls back to the newest snapshot (`LogCuts.RotationForgets`); there is a run from
  the installation in which an acknowledged create is gone (`LogCuts.AcknowledgedThenLost`).
  Rotation is sound if and only if the newest snapshot includes everything logged
  (`LogCuts.RotationOnlyWhenCovered`). Nothing creates that directory
  (src/core/metas/wal.rs:17-25), so as installed the rotation fails and the log is never cut.
* `Create` accepts a name that is taken; deleting the earlier holder then hides the later
  one (`NameIndex.SharedNameIsLost`), and an overlapping replay can make it reappear
  (`Recovery.SharedNameReappears`).
* `ip_to_index` subtracts the unmasked base while `calculate_ip` masks it, so with host bits
  set a release clears the wrong bit or underflows (`AllocatorRuns.AllocateReleaseRestores`,
  `Networks.CleanUpNeedsCanonical`).
* Reloading a bitmap takes its dead bits in: a full subnet of prefix 30 or less hands out its
  broadcast address after a restart, then the first address behind its range
  (`BitmapFile.FullReloadHandsOutBroadcast`). From a /30 it goes on into the range behind it,
  up to the gateway of an adjacent subnet (`AllocatorRuns.DisjointSubnetsShare`), and an
  address behind the range can never be released again (`AllocatorRuns.LeakedForGood`).
* A driver failure leaves the subnet registered. No later request can use it until a restart,
  and the restart frees it if and only if no other network was successfully saved in between,
  since saving writes the whole table (`Networks.FailedSubnetIsLost`); once saved it stays
  lost through every restart (`Networks.LostForGood`, `Networks.RestartsDoNotFree`).

## Assumptions

* One frame is appended atomically or not at all, renames are atomic, and snapshot files have
  distinct, increasing modification times. Whether a read or a write succeeds is an input
  (`diskOk` and the like), and so is how many deletions a purge gets through.
* The serialiser is a parameter whose decoder inverts its encoder (`Codec.Faithful`), and an
  encoded operation's length fits a `usize`. Parsing of CIDR text is a parameter too.
* Arithmetic overflow panics, as in a build with overflow checks; a panic is the outcome `Panic`.
* The manager's single lock makes each worker turn, snapshot, cleanup and compaction atomic;
  only a crash can come between logging, applying and acknowledging.

## Model

| member | source | states |
|---|---|---|
| Interpreter.InnerState.ApplyOperation | src/core/metas/meta.rs:377-449 | An arbitrarily nested operation never fails and leaves both indexes as its leaves would, run left to right, each with some clock reading of its own |
| Metas.BatchInOrder | src/core/metas/meta.rs:442-446 | A batch means its parts in order, however it is cut up and nested |
| Interpreter.ReplayView | src/core/metas/meta.rs:388-441 | Clock readings influence nothing but `updated_at` |
| NameIndex.ExactStep | src/core/metas/meta.rs:379-387 | From an exact index, an operation keeps it exact if and only if it is not a create that renames a live id or takes a held name |
| NameIndex.ExactEverywhere | src/core/metas/meta.rs:376-450 | `by_name` is the inverse of the names at every point of a run if and only if every step was admissible |
| NameIndex.NoDanglingStep | src/core/metas/meta.rs:379-387 | A create leaves a dangling name exactly when it renames a live id away from its own index entry |
| NameIndex.NoDanglingEverywhere | src/core/metas/meta.rs:376-450 | No name dangles anywhere in a run if and only if no step renames a container away from its own entry; duplicate names are allowed |
| NameIndex.PanicFreeStep | src/core/metas/storage.rs:253-263 | Name lookup cannot reach its `unwrap` on a missing entry after a step exactly when the step is not a delete of an id a second name leads to |
| NameIndex.PanicFreeEverywhere | src/core/metas/storage.rs:253-263 | No lookup can panic anywhere in a run if and only if every delete dropped the last name leading to its container |
| NameIndex.SharedNameIsLost | src/core/metas/meta.rs:379-387 | With a shared name, deleting one container makes the other unreachable by name |
| Locality.FoldIsLocal | src/core/metas/meta.rs:377-449 | A container's entry is decided by the operations about it alone |
| Locality.InterleavingIsIrrelevant | src/core/metas/meta.rs:377-449 | Sequences with equal per-container projections leave the same containers, whatever the interleaving, start and clock |
| Locality.FieldsAreLastWrites | src/core/metas/meta.rs:379-429 | Each field of a live container is what the last operation writing that field wrote; the status is written by three kinds of operation |
| Locality.StampIsLastReading | src/core/metas/meta.rs:388-441 | After any replay a live container's `updated_at` is the clock reading of the last update about it since its create, of whatever kind, or what the create carried |
| Locality.MountFoldSplits | src/core/metas/meta.rs:430-441 | Old mounts survive unless unmounted, in order, and added ones come after them |
| Locality.MountsAgain | src/core/metas/meta.rs:430-441 | Running mount operations a second time before what follows them changes the result unless, and only unless, every mount they add is unmounted in them or afterwards |
| Locality.EntryAgain | src/core/metas/meta.rs:377-449 | Part of one container's history run a second time ends in the same entry exactly when the container was absent, is created or deleted, or has the added mounts unmounted there or later |
| Recovery.WholeLogReplay | src/core/metas/storage.rs:139-152 | Replaying a whole history over a snapshot taken anywhere in it equals running it once, for every history |
| Recovery.ContainersAgain | src/core/metas/storage.rs:139-152 | The containers come out of an overlapping replay right if and only if the overlap's mounts are covered, for every store, history and continuation |
| Recovery.NamesAgain | src/core/metas/storage.rs:139-152 | The name index comes out right if and only if the names are covered, for every store, history and continuation |
| Recovery.AdmissibleNamesCovered | src/core/metas/storage.rs:139-152 | With an exact index and admissible operations the names are always covered |
| Recovery.OverlapReplay | src/core/metas/storage.rs:139-152 | Recovery from a cut log gives the live store if and only if mounts and names are covered, for every store, history and continuation |
| Recovery.CoveredForGood | src/core/metas/storage.rs:139-152 | An overlap that a restart right after the snapshot survives is survived whatever is logged after it |
| Recovery.MountComesBackTwice | src/core/metas/meta.rs:430-441 | A mount added in the overlap comes back twice exactly when the container is neither created, deleted nor rid of it later |
| Recovery.SharedNameReappears | src/core/metas/storage.rs:139-152 | A history with no mounts, in which deleting one holder of a shared name hides the other, and the overlapping replay brings it back |
| Recovery.LookupAfterHistory | src/core/metas/storage.rs:253-263 | Lookup by name after any history: nothing if the name was never created or freed after its last create, else that container as it is now, or a panic if it is gone |
| Framing.LittleEndianDigit | src/core/metas/wal.rs:36-37 | Byte k of a frame's length is its k-th base-256 digit, least significant first |
| Framing.LittleEndianRoundTrip | src/core/metas/wal.rs:36-59 | The length that is read is the length that was written |
| Framing.ParseFrames | src/core/metas/wal.rs:55-70 | Parsing distributes over appending anything to a well-formed log |
| Framing.FramesRoundTrip | src/core/metas/wal.rs:27-71 | A log reads back as exactly the operations written, in order |
| Framing.CutLog | src/core/metas/wal.rs:58-67 | A well-formed log cut between frames reads as the operations before the cut; cut anywhere else it makes the reader panic |
| Framing.BadRecord | src/core/metas/wal.rs:58-70 | A complete record that does not deserialise is an error, not a panic, whatever follows |
| Wal.WalManager.WriteOperation | src/core/metas/wal.rs:27-41 | Appends one frame to what the log holds, or fails and changes nothing |
| Wal.WalManager.ReadOperations | src/core/metas/wal.rs:43-71 | The reading loop computes the parse of the file; a missing file is an empty log, an unreadable one an error, and a bad record or out-of-range slice comes out as such |
| Wal.WalManager.ReadAllOperations | src/core/metas/wal.rs:133-163 | The same operations numbered 0, 1, 2, ..., with the same failures |
| Wal.WalManager.RewriteWal | src/core/metas/wal.rs:166-187 | The new file holds exactly the given operations; if writing or renaming fails the log is as before |
| Wal.WalManager.Compact | src/core/metas/wal.rs:103-111 | The log then holds what compaction keeps; if it cannot be read, parsed or replaced it is left alone, and only then |
| Wal.CompactedIsTail | src/core/metas/wal.rs:103-111 | What compaction keeps is the operations after the index, or nothing when there are none |
| Wal.CompactTwice | src/core/metas/wal.rs:103-111 | Compacting at a and then at b is compacting at a + b + 1 |
| Wal.WalManager.Rotate | src/core/metas/wal.rs:73-80 | Moves the log away exactly when there is one and the archive directory exists; otherwise nothing changes |
| Wal.ValidateIsLeafwise | src/core/metas/wal.rs:190-212 | A nested operation validates exactly when every leaf does, and otherwise fails with the complaint about its first invalid leaf |
| Wal.WalManager.VerifyIntegrity | src/core/metas/wal.rs:114-130 | The report lists in increasing order exactly the log positions that do not validate, each with its operation and complaint |
| Wal.CleanReport | src/core/metas/wal.rs:229-232 | The report is clean exactly when no leaf in the log creates, deletes or sets the status or state of a container without an id, or creates one without a name |
| Wal.ErrorsWithinTotal | src/core/metas/wal.rs:234-243 | There are never more errors than operations |
| Snapshots.Snapshotter.TakeSnapshot | src/core/metas/snapshot.rs:20-31 | With a time later than every file, a restart begins with the saved state; other files stay, and on failure all do |
| Snapshots.Snapshotter.ListByAge | src/core/metas/snapshot.rs:34-39 | The listing is every file once, oldest first |
| Snapshots.Snapshotter.LoadLatest | src/core/metas/snapshot.rs:33-47 | The state of the newest file, or the empty state when there is none; an error when the directory or that file cannot be read |
| Snapshots.Snapshotter.PurgeOldSnapshots | src/core/metas/snapshot.rs:49-67 | Succeeds exactly when enough deletions work, and then leaves exactly the newest files up to the limit; otherwise exactly the oldest that could be deleted are gone |
| Snapshots.LatestSurvivesPurge | src/core/metas/snapshot.rs:33-67 | With a limit of at least 1 a restart loads the same state before and after a purge |
| Snapshots.KeptIsSuffix | src/core/metas/snapshot.rs:49-67 | What a purge keeps is the end of the listing by age |
| Durability.RecoverRestores | src/core/metas/storage.rs:139-152 | Recovery gives the meaning of everything ever logged if and only if the overlap of log and newest snapshot is covered |
| Durability.AdmissibleRestorable | src/core/metas/storage.rs:139-152 | With an admissible history that condition comes down to the mounts |
| Durability.SoundStep | src/core/metas/storage.rs:154-238 | A step keeps files, memory and acknowledgements consistent if and only if it is careful: a cut within the newest snapshot, no purge of everything under a cut log, a restart with the overlap covered |
| Durability.SoundRuns | src/core/metas/storage.rs:154-238 | A run is consistent at every point if and only if all its steps are careful |
| Durability.Durable | src/core/metas/storage.rs:131-238 | In every run without cuts, with any number of crashes, memory between operations is the meaning of the log, acknowledged operations are in it in order, and at most one unacknowledged one per crash |
| Delivery.Conserved | src/core/metas/storage.rs:131-232 | In every run from every state, what was submitted is, counted with repetition, what was logged, is queued, was refused by a failed write, or was queued at a crash |
| Delivery.InOrder | src/core/metas/storage.rs:131-232 | Without failed writes and crashes, what was logged followed by what is queued is what was submitted, in order |
| Delivery.Faults | src/core/metas/storage.rs:211-217 | A failed write takes exactly the head of the queue and a crash all of it, and neither touches the files |
| Delivery.QueueIsServed | src/core/metas/storage.rs:206-232 | From any state between operations, the worker can log, apply and acknowledge the whole queue in order |
| LogCuts.CompactAtSnapshot | src/core/metas/storage.rs:326-329 | After compacting exactly at the newest snapshot, a crash and recovery give back the live state, whatever the history |
| LogCuts.RotationForgets | src/core/metas/storage.rs:192-198 | After a rotation that succeeds, crash and recovery give the newest snapshot: the live state survives if and only if it equals that, and exactly the containers not in it are lost |
| LogCuts.AcknowledgedThenLost | src/core/metas/storage.rs:192-229 | A possible run of the installed system ends with a create acknowledged and the store empty |
| LogCuts.RotationOnlyWhenCovered | src/core/metas/storage.rs:192-198 | After any careful run, a rotation that succeeds leaves a sound system if and only if the newest snapshot includes everything logged |
| LogCuts.SnapshotMakesCutsSafe | src/core/metas/storage.rs:170-198 | A snapshot covers everything logged and is what recovery starts from, so any rotation or compaction right after it is safe |
| Durability.NamesInSoundSystem | src/core/metas/storage.rs:253-263 | In every sound system, also after recovery, names do not dangle, lookups do not panic, or the index is exact, according to the logged history alone |
| Storage.ReplayLog | src/core/metas/storage.rs:147-149 | The replay loop leaves the store the leaves of all entries would leave |
| Storage.RecoverState | src/core/metas/storage.rs:139-152 | The new store is the newest snapshot with the whole parsed log replayed over it; a snapshot or log that cannot be read is passed on as a failure |
| Storage.StorageManager.constructor | src/core/metas/storage.rs:109-129 | A restart takes the recovery step of the system |
| Storage.OpenStorage | src/core/metas/storage.rs:109-129 | On the files a system left when it went down, opening succeeds exactly when they can be read, and the manager that comes up is that system after its recovery step |
| Storage.StorageManager.Execute | src/core/metas/storage.rs:131-137 | Queues the operation behind the earlier ones |
| Storage.StorageManager.WorkOne | src/core/metas/storage.rs:206-229 | Log, apply, acknowledge the head of the queue, on file and memory, and keep the rest queued; or refuse the head and change nothing else |
| Storage.StorageManager.SnapshotTick | src/core/metas/storage.rs:170-181 | Saves the live state as the newest snapshot |
| Storage.StorageManager.CleanupTick | src/core/metas/storage.rs:188-198 | Purges snapshots down to the limit and then rotates the log, with either outcome; a failing deletion stops it before the rotation; with a limit of at least 1 the newest snapshot stays |
| Storage.StorageManager.CompactWal | src/core/metas/storage.rs:326-329 | Takes the compaction step on the file, or none when reading or writing fails |
| Storage.StorageManager.GetMetaById | src/core/metas/storage.rs:243-251 | The entry the system's memory has, whatever operations, crashes and recoveries led to it |
| Storage.StorageManager.GetMetaByName | src/core/metas/storage.rs:253-263 | The lookup in the system's memory, or a panic when its index dangles |
| Queries.ContainsIsInfix | src/core/metas/meta.rs:479-484 | A name pattern matches exactly the names that have it as a part |
| Queries.LabelsNarrow | src/core/metas/meta.rs:472-478 | Asking for two sets of labels gives what asking for one among the answers to the other gives, in order |
| Queries.LabelFilter | src/core/metas/meta.rs:181-187 | The list by label holds, in order, exactly the containers that carry it with that value |
| Queries.StatusFilter | src/core/metas/meta.rs:465-470 | A filter on a status lists, in order, exactly the containers in it |
| Queries.NameFilter | src/core/metas/meta.rs:479-484 | A name pattern lists, in order, exactly the containers whose name has it between two parts |
| Queries.TimeFilter | src/core/metas/meta.rs:486-497 | A time range lists, in order, exactly the containers created within it, both ends included |
| Queries.PartsOfFilter | src/core/metas/meta.rs:464-500 | A filter with several parts is its parts one after the other |
| Queries.AnyListsAll | src/core/metas/meta.rs:154-171 | No filter and an empty filter both list everything |
| Queries.TimesSplit | src/core/metas/meta.rs:486-497 | "Until t" and "since t + 1" split every list, and ranges that share an end share what was created then |
| Queries.ListIsFilter | src/core/metas/meta.rs:154-171 | A filtered list holds the first matching containers and no others, as many as there are or as the limit allows |
| Queries.GetResourceSummary | src/core/metas/meta.rs:189-217 | Each count is the length of the list by that status, and the total and running counts agree; it panics exactly when the memory limits overflow a u64 |
| Queries.CountsAddUp | src/core/metas/meta.rs:173-217 | The lists by status partition the containers |
| Queries.SameAnswers | src/core/metas/meta.rs:463-501 | Stores equal but for `updated_at`, as before a crash and after recovery, answer every filter alike |
| Queries.SameCounts | src/core/metas/meta.rs:154-217 | Such stores give lists of equal length for every filter, whatever the iteration orders |
| Queries.SameMemory | src/core/metas/meta.rs:189-217 | Such stores have the same memory total, whatever the iteration orders |
| Queries.LookupIsScan | src/core/metas/storage.rs:253-274 | Lookup by name finds what a scan of all containers finds, for every name and iteration order, if and only if the index is exact |
| Queries.HistoriesScan | src/core/metas/storage.rs:253-274 | Lookups agree with scans throughout a history if and only if every create was admissible |
| Ipv4.RemainderIsModulo | src/core/network/ipam.rs:109-111 | The remainder the masks are compared with is the arithmetic one |
| Ipv4.MaskRoundsDown | src/core/network/ipam.rs:109-111 | The bit mask rounds down to a multiple of the network's size |
| Ipv4.AddressOfBit | src/core/network/ipam.rs:106-114 | Every bit has an address, nothing overflows, and it is neither network nor broadcast address |
| Ipv4.IndexOfAddress | src/core/network/ipam.rs:116-130 | Exactly which addresses give an index, an error, or an underflow |
| Ipv4.BitRoundTrip | src/core/network/ipam.rs:106-130 | Address and back gives the bit if and only if the CIDR has no host bits set |
| Ipv4.AddressRoundTrip | src/core/network/ipam.rs:106-130 | Index and back gives the address, for canonical CIDRs |
| Ipam.FirstZero | src/core/network/ipam.rs:41 | The lowest clear bit, or none exactly when all are set |
| Ipam.IPAM.AddSubnet | src/core/network/ipam.rs:20-33 | Registers a free bitmap for a new subnet; duplicates, bad text and prefixes 0 and 32 change nothing |
| Ipam.IPAM.AllocateIp | src/core/network/ipam.rs:35-47 | Takes the lowest free bit and gives its address |
| Ipam.IPAM.AllocateGateway | src/core/network/ipam.rs:69-71 | Takes bit 0, if it is there and free |
| Ipam.IPAM.AllocateSpecificIp | src/core/network/ipam.rs:73-89 | Takes the given bit, if it is there and free |
| Ipam.IPAM.ReleaseIp | src/core/network/ipam.rs:49-67 | Clears the address's bit, with every error case in the source's order |
| Replies.AddReplies | src/core/network/ipam.rs:20-33 | Adding panics exactly for new subnets of prefix 0 or 32, succeeds exactly for new ones between with a free bit for all but two addresses, and otherwise changes nothing |
| Replies.AllocateReplies | src/core/network/ipam.rs:35-47 | Allocation fails exactly for unknown subnets and full bitmaps, leaving them alone, and panics exactly when the lowest clear bit stands for no address |
| Replies.SpecificReplies | src/core/network/ipam.rs:69-89 | Exactly when a specific allocation is refused and why, and when it panics |
| Replies.ReleaseReplies | src/core/network/ipam.rs:49-67 | For every bitmap and CIDR, release panics exactly for addresses of the network at or below the base, succeeds exactly on set bits, and every refusal is an error that changes nothing |
| Replies.ReleaseTwice | src/core/network/ipam.rs:49-67 | A second release of the same address is refused with an error |
| Replies.SpecificTwice | src/core/network/ipam.rs:69-89 | A specific address is handed out once |
| Replies.AddTwice | src/core/network/ipam.rs:20-23 | A subnet is added once |
| Replies.UnparsedReplies | src/core/network/ipam.rs:20-104 | Every call on text that does not parse is refused with an error |
| Replies.WhyRefused | src/core/network/ipam.rs:49-67 | In every run, each refusal of a release in terms of the address, the network and what is outstanding |
| AllocatorRuns.EveryRunTracks | src/core/network/ipam.rs:20-89 | In every interleaving of calls, saves and reloads on canonical CIDRs the outstanding addresses are exactly the set bits throughout, if and only if every reload finds on file the addresses outstanding at that moment |
| AllocatorRuns.HandsOutFresh | src/core/network/ipam.rs:35-47 | An address handed out is outstanding neither in its subnet nor in any disjoint one that is not its neighbour |
| AllocatorRuns.HandsOutHosts | src/core/network/ipam.rs:35-47 | An address handed out is a host of the subnet if and only if some host was left; a gateway always is |
| AllocatorRuns.FailsOnlyWhenExhausted | src/core/network/ipam.rs:41-46 | Allocation succeeds exactly when an address in reach of the bitmap, padded or not, is not outstanding, and gives the lowest; it panics only at the end of the address space |
| AllocatorRuns.ReleasesOutstanding | src/core/network/ipam.rs:49-67 | Release succeeds exactly on outstanding addresses within the network |
| AllocatorRuns.LeakedForGood | src/core/network/ipam.rs:49-67 | An outstanding address behind its network stays outstanding through every run |
| AllocatorRuns.DisjointSubnetsShare | src/core/network/ipam.rs:35-159 | Some run with current reloads makes two disjoint subnets hold one address if and only if a /30 lies right before the other |
| AllocatorRuns.AllocateReleaseRestores | src/core/network/ipam.rs:35-67 | Releasing the address just allocated succeeds and restores the bitmaps if and only if the CIDR is canonical and the bit lies within the network |
| AllocatorRuns.SameBaseSharesGateway | src/core/network/ipam.rs:69-89 | Two subnets with one base hand out the same gateway |
| BitmapFile.ReloadRoundsUp | src/core/network/ipam.rs:133-159 | Reloading keeps every bit, rounds the length up to a multiple of 8, and a second reload changes nothing |
| BitmapFile.BitPlace | src/core/network/ipam.rs:133-159 | Byte j of a saved bitmap holds its bits from 8 j on, the first of them least significant |
| BitmapFile.ReloadKeepsNextAddress | src/core/network/ipam.rs:35-47 | A reloaded allocator gives the same next address if and only if a host is free or no dead bit is |
| BitmapFile.FullReloadHandsOutBroadcast | src/core/network/ipam.rs:133-159 | After a reload a full subnet hands out its broadcast address and then the address behind its range, or panics at the end of the address space |
| BitmapFile.SerializeSubnets | src/core/network/ipam.rs:133-146 | Every subnet's raw bytes |
| BitmapFile.DeserializeSubnets | src/core/network/ipam.rs:148-159 | Every subnet's bits from its bytes |
| Networks.WrittenReadsBack | src/core/network/network.rs:35-65 | A saved table reads back with the same networks and its bitmaps padded |
| Networks.Networks.Load | src/core/network/network.rs:35-58 | Starts from the file's table, or empty |
| Networks.Networks.Save | src/core/network/network.rs:60-65 | Writes the current table |
| Networks.Networks.CreateNetwork | src/core/network/network.rs:85-177 | Every branch's table and reply; saves only after success |
| Networks.ServedOutcome | src/core/network/network.rs:129-176 | A request that passes the checks records base + 1 as gateway with only bit 0 set, or on driver failure leaves the subnet free |
| Networks.ServedReplies | src/core/network/network.rs:85-177 | How every request ends, for every table: exactly when it succeeds, panics, or is refused and why |
| Networks.EveryRunConsistent | src/core/network/network.rs:85-177 | Through all requests, driver results, disk results and restarts: every network has its own registered subnet with gateway base + 1, and other subnets are free |
| Networks.RunsFromEmpty | src/core/network/network.rs:35-177 | From an empty installation that holds for the table and the file, and every saved subnet is registered |
| Networks.DriverFailure | src/core/network/network.rs:152-168 | A driver failure leaves networks alone and registers the subnet free |
| Networks.CleanUpNeedsCanonical | src/core/network/network.rs:152-168 | After a driver failure, which the client has been told by then, the handler's clean-up works if and only if the subnet is canonical; otherwise it panics with the gateway taken |
| Networks.FailedSubnetIsLost | src/core/network/network.rs:129-177 | In any run from an empty installation, retries on a failed subnet are refused until a restart, and that restart frees it if and only if nothing was successfully saved since the failure |
| Networks.RegisteredUntilRestart | src/core/network/network.rs:172-177 | Between restarts a registered subnet stays so, and is on file exactly when it was or some save succeeded |
| Networks.LostForGood | src/core/network/network.rs:35-177 | A subnet saved without a network stays registered without one through every sequence of requests and restarts |
| Networks.RestartsDoNotFree | src/core/network/network.rs:129-177 | A run from an empty installation after which a failed subnet is lost whatever follows |

## Left out

- Containers themselves: processes, namespaces, cgroups, ptys, mounts and overlays are operating-system calls.
- Bridge, netlink and iptables calls: only whether the driver succeeded is kept.
- Client, command line and daemon dispatch, and the socket message framing, which repeats the log's layout.
- Serialiser internals, partial writes, flushing and leftover temporary files: see the assumptions.
- Two snapshots written within one second, where the later replaces the earlier.
- Archived logs: which of them are purged, since recovery never reads one.
- Text parsing of CIDRs: `parse_cidr` is a parameter that may give any base and prefix up to 32.
- Wrap-around in builds without overflow checks: overflow is a panic here.
- `total_cpu` and `success_rate`: floating-point sums and quotients.
- Events and event handlers: not connected to the store.
- `set_running` and `set_stopped`: they edit a detached copy of a container and are not logged.
- A client that drops its reply channel, which would panic the worker.
- Networks.Load: a networks file that cannot be read or decoded, on which the source gives up, has no outcome here.
- Iteration order of the maps: it is arbitrary, so the order of a list and which entries a limit cuts are not compared across a restart.
