/** The write-ahead log (src/core/metas/wal.rs): appending, reading, compaction, rotation
    and the integrity report. A frame is appended atomically and a rename is atomic. */
module Wal {
  import opened Metas
  import opened Framing

  // ---- Validation of logged operations ----

  predicate ValidLeaf(op: Leaf) {
    match op
    case Create(meta) => meta.id != "" && meta.name != ""
    case UpdateStatus(id, _) => id != ""
    case UpdateState(id, _) => id != ""
    case Delete(id) => id != ""
    case _ => true
  }

  function Complaint(op: Leaf): string {
    if op.Create? then "Container ID or name cannot be empty" else "Container ID cannot be empty"
  }

  /** Stops at the first invalid operation of a batch. */
  function Validate(op: StorageOperation): Outcome<()>
    decreases op, 1
  {
    match op
    case Batch(operations) => ValidateAll(operations)
    case _ => if ValidLeaf(op) then Ok(()) else Err(Complaint(op))
  }

  function ValidateAll(ops: seq<StorageOperation>): Outcome<()>
    decreases ops, 0
  {
    if ops == [] then Ok(())
    else
      var r := Validate(ops[0]);
      if r.Ok? then ValidateAll(ops[1..]) else r
  }

  /** What is said about a flat sequence: the complaint about its first invalid leaf. */
  function FirstComplaint(leaves: seq<Leaf>): Outcome<()> {
    if leaves == [] then Ok(())
    else if ValidLeaf(leaves[0]) then FirstComplaint(leaves[1..])
    else Err(Complaint(leaves[0]))
  }

  lemma {:induction false} FirstComplaintConcat(a: seq<Leaf>, b: seq<Leaf>)
    ensures FirstComplaint(a + b) == if FirstComplaint(a).Ok? then FirstComplaint(b) else FirstComplaint(a)
  {
    if a == [] {
      assert a + b == b;
    } else {
      assert (a + b)[1..] == a[1..] + b;
      FirstComplaintConcat(a[1..], b);
    }
  }

  lemma {:induction false} FirstComplaintAt(leaves: seq<Leaf>)
    ensures FirstComplaint(leaves).Ok? <==> forall leaf :: leaf in leaves ==> ValidLeaf(leaf)
    ensures !FirstComplaint(leaves).Ok? ==>
              exists k | 0 <= k < |leaves| ::
                && !ValidLeaf(leaves[k]) && FirstComplaint(leaves) == Err(Complaint(leaves[k]))
                && forall j | 0 <= j < k :: ValidLeaf(leaves[j])
  {
    if leaves == [] {
    } else {
      var rest := leaves[1..];
      assert leaves == [leaves[0]] + rest;
      FirstComplaintAt(rest);
      if ValidLeaf(leaves[0]) && !FirstComplaint(rest).Ok? {
        var k :| 0 <= k < |rest| && !ValidLeaf(rest[k]) && FirstComplaint(rest) == Err(Complaint(rest[k]))
                 && forall j | 0 <= j < k :: ValidLeaf(rest[j]);
        assert leaves[k + 1] == rest[k];
        forall j | 0 <= j < k + 1
          ensures ValidLeaf(leaves[j])
        {
          assert j > 0 ==> leaves[j] == rest[j - 1];
        }
      }
    }
  }

  /** An arbitrarily nested operation gets what its leaves get, run left to right. */
  lemma {:induction false} ValidateFlat(op: StorageOperation)
    ensures Validate(op) == FirstComplaint(Leaves(op))
    decreases op, 1
  {
    if op.Batch? {
      ValidateAllFlat(op.operations);
    }
  }

  lemma {:induction false} ValidateAllFlat(ops: seq<StorageOperation>)
    ensures ValidateAll(ops) == FirstComplaint(LeavesOfAll(ops))
    decreases ops, 0
  {
    if ops == [] {
    } else {
      ValidateFlat(ops[0]);
      ValidateAllFlat(ops[1..]);
      assert ops == [ops[0]] + ops[1..];
      LeavesOfConcat([ops[0]], ops[1..]);
      LeavesOfOne(ops[0]);
      FirstComplaintConcat(Leaves(ops[0]), LeavesOfAll(ops[1..]));
    }
  }

  /** It passes exactly when every leaf is valid, and otherwise fails for the first leaf
      that is not. It never panics. */
  lemma ValidateIsLeafwise(op: StorageOperation)
    ensures Validate(op).Ok? <==> forall leaf :: leaf in Leaves(op) ==> ValidLeaf(leaf)
    ensures !Validate(op).Ok? ==>
              exists k | 0 <= k < |Leaves(op)| ::
                && !ValidLeaf(Leaves(op)[k]) && Validate(op) == Err(Complaint(Leaves(op)[k]))
                && forall j | 0 <= j < k :: ValidLeaf(Leaves(op)[j])
  {
    ValidateFlat(op);
    FirstComplaintAt(Leaves(op));
  }

  // ---- Operations numbered from 0 ----

  type NumberedOp = (nat, StorageOperation)

  function Numbered(ops: seq<StorageOperation>): seq<NumberedOp> {
    seq(|ops|, i requires 0 <= i < |ops| => (i, ops[i]))
  }

  function SkipWhileUpTo(entries: seq<NumberedOp>, index: nat): seq<NumberedOp> {
    if entries == [] || entries[0].0 > index then entries else SkipWhileUpTo(entries[1..], index)
  }

  function Drop<T>(s: seq<T>, n: nat): seq<T> {
    if n <= |s| then s[n..] else []
  }

  lemma {:induction false} SkipNumbered(ops: seq<StorageOperation>, from: nat, index: nat)
    requires from <= |ops| && from <= index + 1
    ensures SkipWhileUpTo(Numbered(ops)[from..], index) == Drop(Numbered(ops), index + 1)
    decreases |ops| - from
  {
    if from < |ops| && from <= index {
      assert Numbered(ops)[from..][1..] == Numbered(ops)[from + 1..];
      SkipNumbered(ops, from + 1, index);
    }
  }

  function Unnumbered(entries: seq<NumberedOp>): seq<StorageOperation> {
    seq(|entries|, i requires 0 <= i < |entries| => entries[i].1)
  }

  /** What compaction keeps. */
  function Compacted(ops: seq<StorageOperation>, index: nat): seq<StorageOperation> {
    Unnumbered(SkipWhileUpTo(Numbered(ops), index))
  }

  lemma CompactedIsTail(ops: seq<StorageOperation>, index: nat)
    ensures Compacted(ops, index) == Drop(ops, index + 1)
    ensures Compacted(ops, index) == if index < |ops| then ops[index + 1..] else []
  {
    assert Numbered(ops)[0..] == Numbered(ops);
    SkipNumbered(ops, 0, index);
  }

  /** Compacting at `a` and then at `b` is compacting at `a + b + 1`, since what remains
      is numbered from 0 again. */
  lemma CompactTwice(ops: seq<StorageOperation>, a: nat, b: nat)
    ensures Compacted(Compacted(ops, a), b) == Compacted(ops, a + b + 1)
  {
    CompactedIsTail(ops, a);
    CompactedIsTail(Drop(ops, a + 1), b);
    CompactedIsTail(ops, a + b + 1);
  }

  // ---- The integrity report ----

  datatype WalError = WalError(index: nat, operation: StorageOperation, error: string)

  datatype IntegrityReport = IntegrityReport(errors: seq<WalError>, totalOperations: nat) {
    predicate IsValid() {
      errors == []
    }
  }

  /** The report lists, in log order and once each, exactly the operations that do not validate. */
  ghost predicate Exposes(report: IntegrityReport, ops: seq<StorageOperation>) {
    && report.totalOperations == |ops|
    && (forall a, b | 0 <= a < b < |report.errors| :: report.errors[a].index < report.errors[b].index)
    && (forall a | 0 <= a < |report.errors| ::
          var e := report.errors[a];
          e.index < |ops| && e.operation == ops[e.index] && Validate(ops[e.index]) == Err(e.error))
    && (forall i | 0 <= i < |ops| && Validate(ops[i]).Err? :: WalError(i, ops[i], Validate(ops[i]).error) in report.errors)
  }

  lemma ExposesNext(report: IntegrityReport, ops: seq<StorageOperation>, op: StorageOperation)
    requires Exposes(report, ops)
    ensures var found := if Validate(op).Err? then [WalError(|ops|, op, Validate(op).error)] else [];
            Exposes(IntegrityReport(report.errors + found, |ops| + 1), ops + [op])
  {
  }

  /** The report is clean exactly when no leaf in the log creates, deletes, or sets the
      status or state of, a container without an id, or creates one without a name. The
      other updates are not looked at. */
  lemma CleanReport(report: IntegrityReport, ops: seq<StorageOperation>)
    requires Exposes(report, ops)
    ensures report.IsValid() <==>
      forall i, leaf | 0 <= i < |ops| && leaf in Leaves(ops[i]) ::
        && (leaf.Create? || leaf.Delete? || leaf.UpdateStatus? || leaf.UpdateState? ==> Target(leaf) != "")
        && (leaf.Create? ==> leaf.meta.name != "")
  {
    forall i | 0 <= i < |ops|
      ensures !Validate(ops[i]).Err? <==> forall leaf :: leaf in Leaves(ops[i]) ==> ValidLeaf(leaf)
    {
      ValidateIsLeafwise(ops[i]);
    }
    if !report.IsValid() {
      var e := report.errors[0];
      assert Validate(ops[e.index]).Err?;
    }
  }

  lemma {:induction false} IndicesGrow(report: IntegrityReport, ops: seq<StorageOperation>, a: nat)
    requires Exposes(report, ops) && a < |report.errors|
    ensures a <= report.errors[a].index < |ops|
  {
    if a == 0 {
    } else {
      IndicesGrow(report, ops, a - 1);
      assert report.errors[a - 1].index < report.errors[a].index;
    }
  }

  lemma ErrorsWithinTotal(report: IntegrityReport, ops: seq<StorageOperation>)
    requires Exposes(report, ops)
    ensures |report.errors| <= report.totalOperations
  {
    if report.errors != [] {
      IndicesGrow(report, ops, |report.errors| - 1);
    }
  }

  // ---- The log file ----

  class WalManager {
    const codec: Codec<StorageOperation>
    var current: Option<seq<byte>>  // `current.wal`, once it exists
    var archives: seq<seq<byte>>
    var archiveDirExists: bool      // nothing in the program creates it

    constructor (codec: Codec<StorageOperation>, current: Option<seq<byte>>, archiveDirExists: bool)
      ensures this.codec == codec && this.current == current
      ensures archives == [] && this.archiveDirExists == archiveDirExists
    {
      this.codec, this.current, archives, this.archiveDirExists := codec, current, [], archiveDirExists;
    }

    function Bytes(): seq<byte>
      reads this
    {
      if current.Some? then current.value else []
    }

    /** The file is the frames of `ops`. */
    ghost predicate Holds(ops: seq<StorageOperation>)
      reads this
    {
      codec.Faithful() && Bytes() == Frames(codec, ops)
    }

    method WriteOperation(op: StorageOperation, diskOk: bool) returns (r: Outcome<()>)
      modifies `current
      ensures r.Ok? <==> diskOk
      ensures !diskOk ==> current == old(current)
      ensures forall ops | old(Holds(ops)) :: Holds(if diskOk then ops + [op] else ops)
    {
      if !diskOk {
        return Err("io");
      }
      var serialized := codec.encode(op);
      current := Some(Bytes() + LittleEndian(|serialized|, 8) + serialized);
      forall ops | old(Holds(ops))
        ensures Holds(ops + [op])
      {
        FramesConcat(codec, ops, [op]);
        assert Frames(codec, [op]) == Frame(codec, op) + [];
        assert Bytes() == Frames(codec, ops) + Frame(codec, op);
      }
      return Ok(());
    }

    /** What reading the file gives: a log that does not exist yet is empty. */
    function Readable(diskOk: bool): Outcome<seq<StorageOperation>>
      reads this
    {
      if diskOk || current.None? then Parse(codec, Bytes()) else Err("io")
    }

    method ReadOperations(diskOk: bool) returns (r: Outcome<seq<StorageOperation>>)
      ensures r == Readable(diskOk)
    {
      if current.None? {
        return Ok([]);
      }
      if !diskOk {
        return Err("io");
      }
      var data := Bytes();
      var operations, index := [], 0;
      assert data[0..] == data;
      PrependNothing(Parse(codec, data));
      while index < |data|
        invariant 0 <= index <= |data|
        invariant Parse(codec, data) == Prepend(operations, Parse(codec, data[index..]))
      {
        ParseAt(codec, data, index);
        if index + 8 > |data| {
          return Panic;
        }
        var length := FromLittleEndian(data[index..index + 8]);
        var end := index + 8 + length;
        if end > |data| {
          return Panic;
        }
        var op := codec.decode(data[index + 8..end]);
        if op.None? {
          return Err("deserialize");
        }
        PrependPrepend(operations, [op.value], Parse(codec, data[end..]));
        operations := operations + [op.value];
        index := end;
      }
      assert data[index..] == [] && operations + [] == operations;
      return Ok(operations);
    }

    method ReadAllOperations(diskOk: bool) returns (r: Outcome<seq<NumberedOp>>)
      ensures r == match Readable(diskOk)
                   case Ok(ops) => Ok(Numbered(ops))
                   case Err(e) => Err(e)
                   case Panic => Panic
    {
      if current.None? {
        assert Numbered([]) == [];
        return Ok([]);
      }
      if !diskOk {
        return Err("io");
      }
      var data := Bytes();
      var operations: seq<NumberedOp>, index, opIndex := [], 0, 0;
      ghost var ops := [];
      assert data[0..] == data;
      PrependNothing(Parse(codec, data));
      while index < |data|
        invariant 0 <= index <= |data|
        invariant opIndex == |ops| && operations == Numbered(ops)
        invariant Parse(codec, data) == Prepend(ops, Parse(codec, data[index..]))
      {
        ParseAt(codec, data, index);
        if index + 8 > |data| {
          return Panic;
        }
        var length := FromLittleEndian(data[index..index + 8]);
        var end := index + 8 + length;
        if end > |data| {
          return Panic;
        }
        var op := codec.decode(data[index + 8..end]);
        if op.None? {
          return Err("deserialize");
        }
        PrependPrepend(ops, [op.value], Parse(codec, data[end..]));
        operations := operations + [(opIndex, op.value)];
        ops := ops + [op.value];
        opIndex, index := opIndex + 1, end;
      }
      assert data[index..] == [] && ops + [] == ops;
      return Ok(operations);
    }

    /** Writes a temporary file and renames it over the log; a failure in either leaves
        the log as it was. */
    method RewriteWal(entries: seq<NumberedOp>, diskOk: bool) returns (r: Outcome<()>)
      modifies `current
      ensures r.Ok? <==> diskOk
      ensures !diskOk ==> current == old(current)
      ensures diskOk && codec.Faithful() ==> Holds(Unnumbered(entries))
    {
      ghost var ops := Unnumbered(entries);
      var file: seq<byte> := [];
      for k := 0 to |entries|
        invariant current == old(current)
        invariant file == Frames(codec, ops[..k])
      {
        var serialized := codec.encode(entries[k].1);
        file := file + LittleEndian(|serialized|, 8) + serialized;
        FramesConcat(codec, ops[..k], [ops[k]]);
        assert ops[..k] + [ops[k]] == ops[..k + 1];
        assert Frames(codec, [ops[k]]) == Frame(codec, ops[k]) + [];
      }
      assert ops[..|entries|] == ops;
      if !diskOk {
        return Err("io");
      }
      current := Some(file);
      return Ok(());
    }

    /** Drops the operations up to and including number `snapshotIndex`; what remains is
        numbered from 0 again. */
    method Compact(snapshotIndex: nat, readOk: bool, writeOk: bool) returns (r: Outcome<()>)
      modifies `current
      ensures r.Ok? <==> old(Readable(readOk)).Ok? && writeOk
      ensures !r.Ok? ==> current == old(current)
      ensures r.Ok? && codec.Faithful() ==> Holds(Compacted(old(Readable(readOk)).value, snapshotIndex))
    {
      var entries := ReadAllOperations(readOk);
      if !entries.Ok? {
        return if entries.Err? then Err(entries.error) else Panic;
      }
      r := RewriteWal(SkipWhileUpTo(entries.value, snapshotIndex), writeOk);
    }

    /** Moves the log into the archive directory, which recovery never reads. Without that
        directory, or without a log, nothing happens. */
    method Rotate() returns (r: Outcome<()>)
      modifies `current, `archives
      ensures r.Ok? <==> archiveDirExists && old(current).Some?
      ensures r.Ok? ==> Bytes() == [] && archives == old(archives) + [old(Bytes())]
      ensures !r.Ok? ==> current == old(current) && archives == old(archives)
    {
      if !archiveDirExists || current.None? {
        return Err("rename");
      }
      archives := archives + [current.value];
      current := None;
      return Ok(());
    }

    method VerifyIntegrity(diskOk: bool) returns (r: Outcome<IntegrityReport>)
      ensures r.Ok? <==> Readable(diskOk).Ok?
      ensures r.Ok? ==> Exposes(r.value, Readable(diskOk).value)
    {
      var entries := ReadAllOperations(diskOk);
      if !entries.Ok? {
        return if entries.Err? then Err(entries.error) else Panic;
      }
      var operations := entries.value;
      ghost var ops := Readable(diskOk).value;
      var report := IntegrityReport([], |operations|);
      for k := 0 to |operations|
        invariant report.totalOperations == |ops|
        invariant Exposes(report.(totalOperations := k), ops[..k])
      {
        var (index, op) := operations[k];
        ExposesNext(report.(totalOperations := k), ops[..k], op);
        assert ops[..k] + [op] == ops[..k + 1];
        var valid := Validate(op);
        if valid.Err? {
          report := report.(errors := report.errors + [WalError(index, op, valid.error)]);
        } else {
          assert report.errors + [] == report.errors;
        }
      }
      assert ops[..|ops|] == ops;
      return Ok(report);
    }
  }
}
