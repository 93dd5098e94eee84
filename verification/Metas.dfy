/** The data the container metadata store keeps: containers, their states, and the
    operations that are logged and applied (src/core/metas/meta.rs, storage.rs).

    Integers the store only copies (times, process ids, limits) are unbounded here. */
module Metas {

  datatype Option<+T> = None | Some(value: T)

  /** What a call that may fail hands back. `Panic` is a call that never returns: an
      out-of-bounds slice or, with overflow checks on, an arithmetic overflow. */
  datatype Outcome<+T> = Ok(value: T) | Err(error: string) | Panic

  datatype ContainerStatus = Creating | Running | Paused | Restarting | Removing | Exited | Dead

  datatype HealthStatus = Unknown | Starting | Healthy | Unhealthy

  datatype ContainerState = ContainerState(
    status: ContainerStatus,
    pid: Option<int>,
    startedAt: Option<nat>,
    finishedAt: Option<nat>,
    exitCode: Option<int>,
    error: Option<string>,
    restartCount: nat,
    healthStatus: HealthStatus)

  datatype NetworkConfig = NetworkConfig(
    ipAddress: Option<string>,
    networkName: string,
    macAddress: Option<string>,
    ports: map<nat, nat>)

  datatype ResourceConfig = ResourceConfig(
    memoryLimit: Option<nat>,
    cpuLimit: Option<real>,
    pidsLimit: Option<nat>,
    diskLimit: Option<nat>)

  datatype MountType = Bind | Volume | Tmpfs

  datatype MountPoint = MountPoint(
    source: string,
    destination: string,
    mountType: MountType,
    readOnly: bool)

  datatype ContainerMeta = ContainerMeta(
    id: string,
    name: string,
    createdAt: nat,
    updatedAt: nat,
    image: string,
    command: seq<string>,
    args: seq<string>,
    workingDir: Option<string>,
    user: Option<string>,
    env: map<string, string>,
    labels: map<string, string>,
    state: ContainerState,
    network: Option<NetworkConfig>,
    resources: ResourceConfig,
    mounts: seq<MountPoint>)

  datatype StorageOperation =
    | Create(meta: ContainerMeta)
    | Delete(id: string)
    | UpdateStatus(id: string, status: ContainerStatus)
    | UpdateState(id: string, state: ContainerState)
    | UpdateEnvironment(id: string, env: map<string, string>)
    | UpdateLabels(id: string, labels: map<string, string>)
    | UpdateResources(id: string, resources: ResourceConfig)
    | AttachNetwork(id: string, network: NetworkConfig)
    | DetachNetwork(id: string)
    | AddMount(id: string, mount: MountPoint)
    | RemoveMount(id: string, destination: string)
    | Batch(operations: seq<StorageOperation>)

  /** An operation that is not a batch. */
  type Leaf = op: StorageOperation | !op.Batch? witness Delete("")

  predicate IsUpdate(op: StorageOperation) {
    !op.Create? && !op.Delete? && !op.Batch?
  }

  /** The container a leaf is about. */
  function Target(op: Leaf): string {
    if op.Create? then op.meta.id else op.id
  }

  /** The leaves of an arbitrarily nested operation, left to right. */
  function Leaves(op: StorageOperation): seq<Leaf>
    decreases op, 1
  {
    match op
    case Batch(operations) => LeavesOfAll(operations)
    case _ => [op]
  }

  function LeavesOfAll(ops: seq<StorageOperation>): seq<Leaf>
    decreases ops, 0
  {
    if ops == [] then [] else LeavesOfAll(ops[..|ops| - 1]) + Leaves(ops[|ops| - 1])
  }

  lemma {:induction false} LeavesOfConcat(a: seq<StorageOperation>, b: seq<StorageOperation>)
    ensures LeavesOfAll(a + b) == LeavesOfAll(a) + LeavesOfAll(b)
    decreases |b|
  {
    if b == [] {
      assert a + b == a;
    } else {
      var n := |b| - 1;
      assert (a + b)[..|a + b| - 1] == a + b[..n];
      LeavesOfConcat(a, b[..n]);
    }
  }

  lemma LeavesOfOne(op: StorageOperation)
    ensures LeavesOfAll([op]) == Leaves(op)
  {
    assert [op][..0] == [];
  }

  /** A batch means its parts in order, however it is cut up and however deep it nests. */
  lemma BatchInOrder(a: seq<StorageOperation>, op: StorageOperation, b: seq<StorageOperation>)
    ensures Leaves(Batch(a + [op] + b)) == Leaves(Batch(a)) + Leaves(op) + Leaves(Batch(b))
  {
    LeavesOfConcat(a + [op], b);
    LeavesOfConcat(a, [op]);
    LeavesOfOne(op);
  }
}
