/** What becomes of submitted operations over whole runs of the storage manager
    (src/core/metas/storage.rs:131-232): none is lost, repeated or overtaken, but for what
    a failed write refuses and a crash takes from the queue. */
module Delivery {
  import opened Metas
  import opened Interpreter
  import opened Durability
  import opened LogCuts

  function AskedBy(a: Action): seq<StorageOperation> {
    if a.Submit? then [a.op] else []
  }

  /** A failed write refuses the head of the queue. */
  function RefusedBy(s: System, a: Action): seq<StorageOperation>
    requires Enabled(s, a)
  {
    if a.LogFails? then [s.queue[0]] else []
  }

  /** A crash takes what is still waiting. */
  function LostBy(s: System, a: Action): seq<StorageOperation> {
    if a.Crash? then s.queue else []
  }

  function Asked(run: seq<Action>): seq<StorageOperation> {
    if run == [] then [] else AskedBy(run[0]) + Asked(run[1..])
  }

  function Refused(s: System, run: seq<Action>): seq<StorageOperation>
    requires Possible(s, run)
    decreases |run|
  {
    if run == [] then [] else RefusedBy(s, run[0]) + Refused(After(s, run[0]), run[1..])
  }

  function Lost(s: System, run: seq<Action>): seq<StorageOperation>
    requires Possible(s, run)
    decreases |run|
  {
    if run == [] then [] else LostBy(s, run[0]) + Lost(After(s, run[0]), run[1..])
  }

  function Held(s: System): multiset<StorageOperation> {
    multiset(s.history) + multiset(s.queue)
  }

  lemma HeldAfter(s: System, a: Action)
    requires Enabled(s, a)
    ensures Held(After(s, a)) + multiset(RefusedBy(s, a)) + multiset(LostBy(s, a)) == Held(s) + multiset(AskedBy(a))
  {
    if a.Log? || a.LogFails? {
      assert s.queue == [s.queue[0]] + s.queue[1..];
    }
  }

  lemma Balance<T>(before: multiset<T>, mid: multiset<T>, after: multiset<T>,
                   out: multiset<T>, out': multiset<T>, in_: multiset<T>, in': multiset<T>)
    requires mid + out == before + in_ && after + out' == mid + in'
    ensures after + (out + out') == before + (in_ + in')
  {
    forall x: T
      ensures (after + (out + out'))[x] == (before + (in_ + in'))[x]
    {
      assert (mid + out)[x] == (before + in_)[x] && (after + out')[x] == (mid + in')[x];
    }
  }

  lemma CombineFlows(s: System, run: seq<Action>)
    requires Possible(s, run) && run != []
    ensures var a, s', rest := run[0], After(s, run[0]), run[1..];
            && multiset(Asked(run)) == multiset(AskedBy(a)) + multiset(Asked(rest))
            && multiset(Refused(s, run)) + multiset(Lost(s, run))
               == multiset(RefusedBy(s, a)) + multiset(LostBy(s, a)) + (multiset(Refused(s', rest)) + multiset(Lost(s', rest)))
  {
    var a, s', rest := run[0], After(s, run[0]), run[1..];
    assert Refused(s, run) == RefusedBy(s, a) + Refused(s', rest);
    assert Lost(s, run) == LostBy(s, a) + Lost(s', rest);
  }

  /** In every run, from every state, each submitted operation is exactly once in the
      history of the log, in the queue, among the refused ones, or among those a crash took. */
  lemma {:induction false} Conserved(s: System, run: seq<Action>)
    requires Possible(s, run)
    ensures Held(Final(s, run)) + (multiset(Refused(s, run)) + multiset(Lost(s, run)))
         == Held(s) + multiset(Asked(run))
    decreases |run|
  {
    if run == [] {
    } else {
      var a, s', rest := run[0], After(s, run[0]), run[1..];
      HeldAfter(s, a);
      Conserved(s', rest);
      Balance(Held(s), Held(s'), Held(Final(s', rest)),
              multiset(RefusedBy(s, a)) + multiset(LostBy(s, a)),
              multiset(Refused(s', rest)) + multiset(Lost(s', rest)),
              multiset(AskedBy(a)), multiset(Asked(rest)));
      CombineFlows(s, run);
    }
  }

  predicate Faultless(run: seq<Action>) {
    forall a | a in run :: !a.LogFails? && !a.Crash?
  }

  lemma OrderAfter(s: System, a: Action)
    requires Enabled(s, a) && !a.LogFails? && !a.Crash? && s.history + s.queue == s.submitted
    ensures After(s, a).history + After(s, a).queue == After(s, a).submitted == s.submitted + AskedBy(a)
  {
    if a.Log? {
      assert s.history + [s.queue[0]] + s.queue[1..] == s.history + s.queue;
    } else if a.Submit? {
      assert s.history + (s.queue + [a.op]) == s.history + s.queue + [a.op];
    }
    assert s.submitted + [] == s.submitted;
  }

  /** Without failed writes and crashes nothing is overtaken either: what was submitted is
      what was logged, followed by what is still queued. */
  lemma {:induction false} InOrder(s: System, run: seq<Action>)
    requires Possible(s, run) && Faultless(run) && s.history + s.queue == s.submitted
    ensures Final(s, run).history + Final(s, run).queue == Final(s, run).submitted == s.submitted + Asked(run)
    decreases |run|
  {
    if run == [] {
      assert s.submitted + [] == s.submitted;
    } else {
      var a, rest := run[0], run[1..];
      assert a in run;
      OrderAfter(s, a);
      InOrder(After(s, a), rest);
      assert s.submitted + AskedBy(a) + Asked(rest) == s.submitted + (AskedBy(a) + Asked(rest));
    }
  }

  /** A failed write takes exactly the head of the queue, and a crash the whole of it;
      neither touches the files. */
  lemma Faults(s: System)
    requires !s.phase.Down?
    ensures s.phase.Idle? && s.queue != [] ==>
              var s' := After(s, LogFails);
              s.queue == [s.queue[0]] + s'.queue && s' == s.(queue := s'.queue)
    ensures var s' := After(s, Crash);
            s'.queue == [] && s'.log == s.log && s'.saved == s.saved && s'.history == s.history && s'.acked == s.acked
  {
  }

  // ---- The worker gets everything done ----

  function Zeros(n: nat): seq<nat> {
    seq(n, _ => 0)
  }

  /** The worker's turns until the queue is empty, when every write succeeds. */
  function Turns(queue: seq<StorageOperation>): seq<Action> {
    if queue == [] then []
    else Turn(queue[0]) + Turns(queue[1..])
  }

  /** Between `s` and `s'` exactly `ops` were logged, acknowledged and applied, in order. */
  ghost predicate Serves(s: System, s': System, ops: seq<StorageOperation>) {
    && s.phase.Idle? && s'.phase.Idle?
    && s'.log == s.log + ops && s'.history == s.history + ops && s'.acked == s.acked + ops
    && View(s'.memory) == Fold(View(s.memory), LeavesOfAll(ops))
  }

  lemma Regroup<T>(a: seq<T>, b: seq<T>, c: seq<T>)
    ensures (a + b) + c == a + (b + c)
  {
  }

  lemma ServesBoth(a: System, b: System, c: System, first: seq<StorageOperation>, rest: seq<StorageOperation>)
    requires Serves(a, b, first) && Serves(b, c, rest)
    ensures Serves(a, c, first + rest)
  {
    LeavesOfConcat(first, rest);
    FoldConcat(View(a.memory), LeavesOfAll(first), LeavesOfAll(rest));
    Regroup(a.log, first, rest);
    Regroup(a.history, first, rest);
    Regroup(a.acked, first, rest);
  }

  function Turn(op: StorageOperation): seq<Action> {
    [Log, Apply(Zeros(|Leaves(op)|)), Acknowledge]
  }

  lemma OneTurn(s: System)
    requires s.phase.Idle? && s.queue != []
    ensures Possible(s, Turn(s.queue[0]))
    ensures Serves(s, Final(s, Turn(s.queue[0])), [s.queue[0]])
    ensures Final(s, Turn(s.queue[0])).queue == s.queue[1..]
  {
    var op, times := s.queue[0], Zeros(|Leaves(s.queue[0])|);
    RunOfThree(s, Log, Apply(times), Acknowledge);
    ReplayView(s.memory, Leaves(op), times);
    LeavesOfOne(op);
  }

  /** From any state between operations, those turns log, apply and acknowledge the whole
      queue in order. */
  lemma {:induction false} QueueIsServed(s: System)
    requires s.phase.Idle?
    ensures Possible(s, Turns(s.queue))
    ensures Serves(s, Final(s, Turns(s.queue)), s.queue) && Final(s, Turns(s.queue)).queue == []
    decreases |s.queue|
  {
    if s.queue == [] {
      assert s.log + [] == s.log && s.history + [] == s.history && s.acked + [] == s.acked;
    } else {
      var op, rest := s.queue[0], s.queue[1..];
      OneTurn(s);
      var s1 := Final(s, Turn(op));
      QueueIsServed(s1);
      RunConcat(s, Turn(op), Turns(rest));
      ServesBoth(s, s1, Final(s1, Turns(rest)), [op], rest);
      assert s.queue == [op] + rest;
    }
  }
}
