/** The string-table cleaner (`EcmaStringTableCleaner` of ecma_string_table.h and
    ecma_string_table_optimization.cpp) as a system of interleaved steps.

    Any number of worker tasks share the atomic partition counter of the cycle they were posted for, the
    pending count and the sweep state.  A task that is left over from an earlier cycle still holds the
    counter of that cycle.  One step is one access to shared state; deleting the entries queued for a
    partition and sweeping a partition, which only its claimant does, are one step each. */
module StringTableCleaner {
  import opened Basics

  const SWEEP_PARTITION_COUNT: nat := 2048

  /** The identity of a hash-map entry. */
  type Entry = nat

  datatype SweepState = SWEEPING | PENDING | FINISHED

  datatype Kind = Parallel | Concurrent

  /** Where a task stands in `ProcessSweepWeakRef` or `ProcessConcurrentSweepWeakRef`. */
  datatype Pc =
    | Fetch               // about to take the next partition from its counter
    | Free(p: nat)        // about to delete the entries queued for the partition
    | Sweep(p: nat)       // about to sweep the partition
    | Reduce(p: nat)      // about to decrement the pending count
    | Signal              // saw the count reach zero
    | Done

  datatype Task = Task(cycle: nat, pc: Pc)

  /** Where the thread that runs the cycles stands. */
  datatype Daemon =
    | Idle
    | Posting(left: nat)  // tasks still to be posted
    | Joining(t: nat)     // running the sweep loop itself, as task t
    | Waiting
    | Finishing           // about to free the queued bucket heads, everyone else suspended
    | Ending              // about to set the state to FINISHED

  /** The cleaner's shared variables, the tasks, and the history of the sweeps. */
  datatype Protocol = Protocol(
    state: SweepState,
    pending: nat,
    kinds: seq<Kind>,                 // for each posted cycle, its kind and its counter
    iters: seq<nat>,
    tasks: seq<Task>,                 // every task ever posted
    daemon: Daemon,
    sweeps: multiset<(nat, nat)>,     // every sweep, as (cycle, partition)
    zeros: multiset<nat>,             // the cycle, for every time a task saw the count reach zero
    sweptNow: set<nat>,               // partitions swept, and partitions counted off, in the last cycle
    doneNow: set<nat>)

  /** The entries of the table and of the wait vectors, by partition, and the history of the deletions. */
  datatype Store = Store(
    table: seq<set<Entry>>,
    waitFree: seq<seq<Entry>>,
    waitHeads: seq<seq<Entry>>,
    known: set<Entry>,                     // entries ever created
    queuedIn: map<Entry, (nat, nat)>,      // the cycle and partition in which an entry was queued for deletion
    deletedIn: map<Entry, (nat, nat)>,     // the cycle and partition in which a queued entry was deleted
    deletions: multiset<Entry>)            // every deletion

  datatype State = State(run: Protocol, store: Store)

  datatype Step =
    | Post(kind: Kind, taskCount: nat)
    | PostTask
    | Join
    | Joined
    | BeginWait
    | Proceed
    | Finish(freed: seq<set<Entry>>)
    | FinishSignal
    | FetchNext(t: nat)
    | FreeQueued(t: nat)
    | SweepPartition(t: nat, dead: seq<Entry>, heads: seq<Entry>)
    | ReduceCount(t: nat)
    | SignalState(t: nat)
    | Insert(p: nat, e: Entry)

  function Init(): State {
    State(Protocol(FINISHED, 0, [], [], [], Idle, multiset{}, multiset{}, {}, {}),
          Store(seq(SWEEP_PARTITION_COUNT, _ => {}), seq(SWEEP_PARTITION_COUNT, _ => []),
                seq(SWEEP_PARTITION_COUNT, _ => []), {}, map[], map[], multiset{}))
  }

  /** The number of the last posted cycle. */
  function Cur(r: Protocol): int {
    |r.kinds| - 1
  }

  predicate IsTask(r: Protocol, t: nat) {
    t < |r.tasks| && r.tasks[t].cycle < |r.kinds| == |r.iters|
  }

  // ---------------------------------------------------------------------------------------------
  // The steps on the shared variables

  predicate Ready(r: Protocol, step: Step) {
    match step
    case Post(_, n) => r.daemon == Idle && n + SWEEP_PARTITION_COUNT + 1 < UINT32
    case PostTask => r.daemon.Posting? && r.daemon.left > 0 && r.kinds != []
    case Join => r.daemon == Posting(0) && r.kinds != [] && r.kinds[Cur(r)] == Parallel
    case Joined => r.daemon.Joining? && r.daemon.t < |r.tasks| && r.tasks[r.daemon.t].pc == Done
    case BeginWait => r.daemon == Posting(0) && r.kinds != [] && r.kinds[Cur(r)] == Concurrent
    case Proceed =>
      && r.daemon == Waiting && r.kinds != []
      && (if r.kinds[Cur(r)] == Parallel then r.state == FINISHED else r.state != SWEEPING)
    case Finish(_) => r.daemon == Finishing
    case FinishSignal => r.daemon == Ending
    case FetchNext(t) => IsTask(r, t) && r.tasks[t].pc == Fetch
    case FreeQueued(t) => IsTask(r, t) && r.tasks[t].pc.Free?
    case SweepPartition(t, _, _) => IsTask(r, t) && r.tasks[t].pc.Sweep?
    case ReduceCount(t) => IsTask(r, t) && r.tasks[t].pc.Reduce?
    case SignalState(t) => IsTask(r, t) && r.tasks[t].pc == Signal
    case Insert(_, _) => true
  }

  function Moved(r: Protocol, t: nat, pc: Pc): Protocol
    requires t < |r.tasks|
  {
    r.(tasks := r.tasks[t := r.tasks[t].(pc := pc)])
  }

  /** `StartSweepWeakRefTask` and a fresh counter. */
  function Posted(r: Protocol, kind: Kind, n: nat): Protocol {
    r.(state := SWEEPING, pending := SWEEP_PARTITION_COUNT, kinds := r.kinds + [kind], iters := r.iters + [0],
       daemon := Posting(n), sweptNow := {}, doneNow := {})
  }

  function Hired(r: Protocol, daemon: Daemon): Protocol
    requires r.kinds != []
  {
    r.(tasks := r.tasks + [Task(|r.kinds| - 1, Fetch)], daemon := daemon)
  }

  /** `GetNextIndexId` and the test of the worker loop. */
  function Fetched(r: Protocol, t: nat): Protocol
    requires IsTask(r, t)
  {
    var c := r.tasks[t].cycle;
    var i := r.iters[c];
    Moved(r.(iters := r.iters[c := (i + 1) % UINT32]), t,
          if i >= SWEEP_PARTITION_COUNT then Done else if r.kinds[c] == Concurrent then Free(i) else Sweep(i))
  }

  function Swept(r: Protocol, t: nat): Protocol
    requires t < |r.tasks| && r.tasks[t].pc.Sweep?
  {
    var p := r.tasks[t].pc.p;
    Moved(r.(sweeps := r.sweeps + multiset{(r.tasks[t].cycle, p)}, sweptNow := r.sweptNow + {p}), t, Reduce(p))
  }

  /** `ReduceCountAndCheckFinish`. */
  function Reduced(r: Protocol, t: nat): Protocol
    requires t < |r.tasks| && r.tasks[t].pc.Reduce?
  {
    var zero := r.pending == 1;
    Moved(r.(pending := (r.pending + UINT32 - 1) % UINT32, doneNow := r.doneNow + {r.tasks[t].pc.p},
             zeros := if zero then r.zeros + multiset{r.tasks[t].cycle} else r.zeros),
          t, if zero then Signal else Fetch)
  }

  /** `SignalSweepWeakRefTaskFinish` or `SignalSweepWeakRefTaskPending`, by the kind of the task. */
  function Signalled(r: Protocol, t: nat): Protocol
    requires IsTask(r, t)
  {
    Moved(r.(state := if r.kinds[r.tasks[t].cycle] == Parallel then FINISHED else PENDING), t, Fetch)
  }

  function Advance(r: Protocol, step: Step): Protocol
    requires Ready(r, step)
  {
    match step
    case Post(kind, n) => Posted(r, kind, n)
    case PostTask => Hired(r, Posting(r.daemon.left - 1))
    case Join => Hired(r, Joining(|r.tasks|))
    case Joined => r.(daemon := Waiting)
    case BeginWait => r.(daemon := Waiting)
    case Proceed => r.(daemon := if r.kinds[Cur(r)] == Parallel then Idle else Finishing)
    case Finish(_) => r.(daemon := Ending)
    case FinishSignal => r.(state := FINISHED, daemon := Idle)
    case FetchNext(t) => Fetched(r, t)
    case FreeQueued(t) => Moved(r, t, Sweep(r.tasks[t].pc.p))
    case SweepPartition(t, _, _) => Swept(r, t)
    case ReduceCount(t) => Reduced(r, t)
    case SignalState(t) => Signalled(r, t)
    case Insert(_, _) => r
  }

  // ---------------------------------------------------------------------------------------------
  // The steps on the entries

  ghost predicate Sized(m: Store) {
    |m.table| == |m.waitFree| == |m.waitHeads| == SWEEP_PARTITION_COUNT
  }

  /** What a sweep may find in its partition, and which queued heads the daemon may still find at the head of
      their bucket; a new entry is a new object. */
  ghost predicate Permitted(s: State, step: Step) {
    && Sized(s.store)
    && match step {
         case Finish(freed) =>
           && |freed| == SWEEP_PARTITION_COUNT
           && forall p, e :: 0 <= p < |freed| && e in freed[p] ==> e in s.store.waitHeads[p]
         case SweepPartition(t, dead, heads) =>
           && Ready(s.run, step) && s.run.tasks[t].pc.p < SWEEP_PARTITION_COUNT
           && Distinct(dead) && Distinct(heads)
           && (forall e :: e in dead ==> e in s.store.table[s.run.tasks[t].pc.p])
           && (forall e :: e in heads ==> e in s.store.table[s.run.tasks[t].pc.p] && e !in dead)
           && (s.run.kinds[s.run.tasks[t].cycle] == Parallel ==> heads == [])
         case FreeQueued(t) => Ready(s.run, step) && s.run.tasks[t].pc.p < SWEEP_PARTITION_COUNT
         case Insert(p, e) => p < SWEEP_PARTITION_COUNT && e !in s.store.known
         case _ => true
       }
  }

  /** All deletions of a round of `CheckAndFreeHeadEntries`. */
  function Total(sets: seq<set<Entry>>): multiset<Entry> {
    if sets == [] then multiset{} else Total(sets[..|sets| - 1]) + multiset(sets[|sets| - 1])
  }

  /** `ProcessCheckAndFreeHeadEntries`. */
  ghost function HeadsFreed(m: Store, freed: seq<set<Entry>>): Store
    requires Sized(m) && |freed| == SWEEP_PARTITION_COUNT
  {
    m.(table := seq(SWEEP_PARTITION_COUNT, p requires 0 <= p < SWEEP_PARTITION_COUNT => m.table[p] - freed[p]),
       waitHeads := seq(SWEEP_PARTITION_COUNT, _ => []),
       deletions := m.deletions + Total(freed))
  }

  ghost function QueueFreed(m: Store, c: nat, p: nat): Store
    requires Sized(m) && p < SWEEP_PARTITION_COUNT
  {
    m.(waitFree := m.waitFree[p := []], deletions := m.deletions + multiset(m.waitFree[p]),
       deletedIn := m.deletedIn + map e | e in m.waitFree[p] :: (c, p))
  }

  /** `SweepWeakRef` deletes what it unlinks. */
  ghost function SweptParallel(m: Store, p: nat, dead: seq<Entry>): Store
    requires Sized(m) && p < SWEEP_PARTITION_COUNT
  {
    m.(table := m.table[p := m.table[p] - set e | e in dead], deletions := m.deletions + multiset(dead))
  }

  /** `ConcurrentSweepWeakRef` queues what it unlinks, and the dead heads, which stay linked. */
  ghost function SweptConcurrent(m: Store, c: nat, p: nat, dead: seq<Entry>, heads: seq<Entry>): Store
    requires Sized(m) && p < SWEEP_PARTITION_COUNT
  {
    m.(table := m.table[p := m.table[p] - set e | e in dead],
       waitFree := m.waitFree[p := m.waitFree[p] + dead],
       waitHeads := m.waitHeads[p := m.waitHeads[p] + heads],
       queuedIn := m.queuedIn + map e | e in dead :: (c, p))
  }

  ghost function Inserted(m: Store, p: nat, e: Entry): Store
    requires Sized(m) && p < SWEEP_PARTITION_COUNT
  {
    m.(table := m.table[p := m.table[p] + {e}], known := m.known + {e})
  }

  ghost function Effect(s: State, step: Step): Store
    requires Ready(s.run, step) && Permitted(s, step)
  {
    match step
    case Finish(freed) => HeadsFreed(s.store, freed)
    case FreeQueued(t) => QueueFreed(s.store, s.run.tasks[t].cycle, s.run.tasks[t].pc.p)
    case SweepPartition(t, dead, heads) =>
      var c, p := s.run.tasks[t].cycle, s.run.tasks[t].pc.p;
      if s.run.kinds[c] == Parallel then SweptParallel(s.store, p, dead)
      else SweptConcurrent(s.store, c, p, dead, heads)
    case Insert(p, e) => Inserted(s.store, p, e)
    case _ => s.store
  }

  ghost predicate Enabled(s: State, step: Step) {
    Ready(s.run, step) && Permitted(s, step)
  }

  ghost function Apply(s: State, step: Step): State
    requires Enabled(s, step)
  {
    State(Advance(s.run, step), Effect(s, step))
  }

  // ---------------------------------------------------------------------------------------------
  // The invariant of the shared variables

  ghost predicate Shape(r: Protocol) {
    && |r.iters| == |r.kinds|
    && (forall t :: 0 <= t < |r.tasks| ==> r.tasks[t].cycle < |r.kinds|)
  }

  ghost predicate Holds(r: Protocol, t: nat, p: nat) {
    t < |r.tasks| && (r.tasks[t].pc == Free(p) || r.tasks[t].pc == Sweep(p) || r.tasks[t].pc == Reduce(p))
  }

  ghost predicate Signalling(r: Protocol, t: nat) {
    t < |r.tasks| && r.tasks[t].pc == Signal
  }

  /** Tasks of earlier cycles are past their work and their counters are exhausted. */
  ghost predicate Leftovers(r: Protocol)
    requires Shape(r)
  {
    && (forall t :: 0 <= t < |r.tasks| && r.tasks[t].cycle < Cur(r) ==>
          r.tasks[t].pc == Fetch || r.tasks[t].pc == Done)
    && (forall k :: 0 <= k < Cur(r) ==> r.iters[k] >= SWEEP_PARTITION_COUNT)
    && (forall t :: 0 <= t < |r.tasks| && r.tasks[t].pc == Done ==>
          r.iters[r.tasks[t].cycle] >= SWEEP_PARTITION_COUNT)
  }

  ghost predicate Holder(r: Protocol, t: nat, p: nat)
    requires Shape(r)
  {
    && t < |r.tasks| && r.tasks[t].cycle == Cur(r)
    && p < SWEEP_PARTITION_COUNT && p < r.iters[Cur(r)] && p !in r.doneNow
    && (p in r.sweptNow <==> r.tasks[t].pc == Reduce(p))
    && (r.tasks[t].pc == Free(p) ==> r.kinds[Cur(r)] == Concurrent)
  }

  ghost predicate Claimed(r: Protocol, p: nat)
    requires Shape(r)
  {
    Cur(r) >= 0 && p < SWEEP_PARTITION_COUNT && p < r.iters[Cur(r)]
  }

  /** Each partition of the last cycle is unclaimed, held by one task, or counted off. */
  ghost predicate Claims(r: Protocol)
    requires Shape(r)
  {
    && (forall t: nat, p: nat :: Holds(r, t, p) ==> Holder(r, t, p))
    && (forall t: nat, u: nat, p: nat :: Holds(r, t, p) && Holds(r, u, p) ==> t == u)
    && (forall p :: p in r.sweptNow ==> Claimed(r, p))
    && r.doneNow <= r.sweptNow
    && (forall p: nat :: Claimed(r, p) && p !in r.doneNow ==> exists t: nat :: Holds(r, t, p))
  }

  /** The pending count is what is not counted off; one task signals, once everything is. */
  ghost predicate Counts(r: Protocol)
    requires Shape(r)
  {
    && (Cur(r) >= 0 ==> r.pending + |r.doneNow| == SWEEP_PARTITION_COUNT)
    && (forall t: nat :: Signalling(r, t) ==> r.tasks[t].cycle == Cur(r) && r.state == SWEEPING && r.pending == 0)
    && (forall t: nat, u: nat :: Signalling(r, t) && Signalling(r, u) ==> t == u)
    && (Cur(r) >= 0 && r.state == SWEEPING && r.pending == 0 ==> exists t: nat :: Signalling(r, t))
    && (Cur(r) >= 0 && r.state != SWEEPING ==> r.pending == 0)
  }

  ghost predicate Control(r: Protocol)
    requires Shape(r)
  {
    && (r.daemon == Idle ==> r.state == FINISHED)
    && (r.daemon != Idle ==> Cur(r) >= 0)
    && (r.daemon.Joining? ==>
          r.daemon.t < |r.tasks| && r.tasks[r.daemon.t].cycle == Cur(r) && r.kinds[Cur(r)] == Parallel)
    && (r.daemon == Finishing || r.daemon == Ending ==> r.kinds[Cur(r)] == Concurrent && r.state != SWEEPING)
    && (Cur(r) >= 0 && r.kinds[Cur(r)] == Concurrent && r.state == FINISHED ==> r.daemon == Idle)
    && (Cur(r) >= 0 && r.kinds[Cur(r)] == Parallel ==> r.state != PENDING)
    && (r.daemon == Waiting && r.kinds[Cur(r)] == Parallel ==> r.iters[Cur(r)] >= SWEEP_PARTITION_COUNT)
    && (Cur(r) < 0 ==> r.state == FINISHED && r.tasks == [] && r.doneNow == {} && r.sweptNow == {})
  }

  /** Every sweep so far, and every time a task saw the count reach zero. */
  ghost predicate Log(r: Protocol) {
    && (forall k: nat, p: nat :: r.sweeps[(k, p)] ==
          if p < SWEEP_PARTITION_COUNT && (k < Cur(r) || (k == Cur(r) && p in r.sweptNow)) then 1 else 0)
    && (forall k: nat :: r.zeros[k] == if k < Cur(r) || (k == Cur(r) && r.pending == 0) then 1 else 0)
  }

  /** The number of tasks posted for cycle `k`, and how many of them are done. */
  function TasksOf(tasks: seq<Task>, k: int): nat {
    if tasks == [] then 0
    else TasksOf(tasks[..|tasks| - 1], k) + if tasks[|tasks| - 1].cycle == k then 1 else 0
  }

  function DoneOf(tasks: seq<Task>, k: int): nat {
    if tasks == [] then 0
    else DoneOf(tasks[..|tasks| - 1], k) +
         if tasks[|tasks| - 1].cycle == k && tasks[|tasks| - 1].pc == Done then 1 else 0
  }

  /** Tasks that may still be posted for the last cycle. */
  function Budget(r: Protocol): nat {
    if r.daemon.Posting? then r.daemon.left + 1 else 0
  }

  ghost predicate CounterBound(r: Protocol, k: nat)
    requires |r.iters| == |r.kinds|
  {
    k < |r.iters| ==>
      && r.iters[k] <= SWEEP_PARTITION_COUNT + DoneOf(r.tasks, k)
      && TasksOf(r.tasks, k) + (if k == Cur(r) then Budget(r) else 0) + SWEEP_PARTITION_COUNT < UINT32
  }

  /** A counter passes the partition count only by one failed fetch of each task, so it cannot wrap. */
  ghost predicate Bounds(r: Protocol)
    requires Shape(r)
  {
    && (forall k: nat :: CounterBound(r, k))
    && (forall t :: 0 <= t < |r.tasks| ==> r.tasks[t].cycle < |r.kinds|)
  }

  ghost predicate ProtocolInv(r: Protocol) {
    Shape(r) && Leftovers(r) && Claims(r) && Counts(r) && Control(r) && Log(r) && Bounds(r)
  }

  // ---------------------------------------------------------------------------------------------
  // Counting

  /** Once as many partitions are counted off as there are, all are. */
  lemma {:induction false} AllDone(done: set<nat>, n: nat)
    requires forall p :: p in done ==> p < n
    ensures |done| <= n
    ensures |done| == n ==> forall p: nat :: p < n ==> p in done
  {
    if n > 0 {
      AllDone(done - {n - 1}, n - 1);
      assert n - 1 in done ==> |done| == |done - {n - 1}| + 1;
      assert n - 1 !in done ==> done - {n - 1} == done;
    } else {
      assert done == {};
    }
  }

  lemma {:induction false} DoneAtMost(tasks: seq<Task>, k: int)
    ensures DoneOf(tasks, k) <= TasksOf(tasks, k)
  {
    if tasks != [] {
      DoneAtMost(tasks[..|tasks| - 1], k);
    }
  }

  lemma {:induction false} DoneBelow(tasks: seq<Task>, k: int, t: nat)
    requires t < |tasks| && tasks[t].cycle == k && tasks[t].pc != Done
    ensures DoneOf(tasks, k) < TasksOf(tasks, k)
  {
    DoneAtMost(tasks[..|tasks| - 1], k);
    if t < |tasks| - 1 {
      DoneBelow(tasks[..|tasks| - 1], k, t);
    }
  }

  /** Moving a task that is not done keeps the tasks of a cycle, and counts it when it becomes done. */
  lemma {:induction false} CountsMoved(tasks: seq<Task>, t: nat, pc: Pc, k: int)
    requires t < |tasks| && tasks[t].pc != Done
    ensures TasksOf(tasks[t := tasks[t].(pc := pc)], k) == TasksOf(tasks, k)
    ensures DoneOf(tasks[t := tasks[t].(pc := pc)], k)
         == DoneOf(tasks, k) + if tasks[t].cycle == k && pc == Done then 1 else 0
  {
    var moved := tasks[t := tasks[t].(pc := pc)];
    if t == |tasks| - 1 {
      assert moved[..|tasks| - 1] == tasks[..|tasks| - 1];
    } else {
      assert moved[..|tasks| - 1] == tasks[..|tasks| - 1][t := tasks[t].(pc := pc)];
      CountsMoved(tasks[..|tasks| - 1], t, pc, k);
    }
  }

  lemma {:induction false} NoTasks(tasks: seq<Task>, k: nat)
    requires forall t :: 0 <= t < |tasks| ==> tasks[t].cycle < k
    ensures TasksOf(tasks, k) == DoneOf(tasks, k) == 0
  {
    if tasks != [] {
      NoTasks(tasks[..|tasks| - 1], k);
    }
  }

  // ---------------------------------------------------------------------------------------------
  // Every step keeps the invariant

  /** Outside SWEEPING the last cycle is over: nothing is held, nobody signals, the counter is exhausted. */
  lemma Settled(r: Protocol)
    requires Shape(r) && Claims(r) && Counts(r) && Cur(r) >= 0 && r.pending == 0
    ensures forall t: nat, p: nat :: !Holds(r, t, p)
    ensures r.iters[Cur(r)] >= SWEEP_PARTITION_COUNT
    ensures forall p: nat :: p < SWEEP_PARTITION_COUNT <==> p in r.doneNow
    ensures r.sweptNow == r.doneNow
  {
    AllDone(r.doneNow, SWEEP_PARTITION_COUNT);
    assert SWEEP_PARTITION_COUNT - 1 in r.doneNow;
  }

  /** The increment of a partition counter never wraps. */
  lemma NoWrap(r: Protocol, t: nat)
    requires Shape(r) && Bounds(r) && t < |r.tasks| && r.tasks[t].pc != Done
    ensures r.iters[r.tasks[t].cycle] + 1 < UINT32
  {
    DoneBelow(r.tasks, r.tasks[t].cycle, t);
    assert CounterBound(r, r.tasks[t].cycle);
  }

  /** Moving a task that is not done, and does not become done, keeps the counter bounds. */
  lemma BoundsMoved(r: Protocol, r': Protocol, t: nat, pc: Pc)
    requires Shape(r) && Bounds(r) && Shape(r')
    requires t < |r.tasks| && r.tasks[t].pc != Done && pc != Done
    requires r'.tasks == r.tasks[t := r.tasks[t].(pc := pc)]
    requires r'.iters == r.iters && r'.kinds == r.kinds && r'.daemon == r.daemon
    ensures Bounds(r')
  {
    hide DoneOf, TasksOf;
    forall k: nat ensures CounterBound(r', k) {
      assert CounterBound(r, k);
      CountsMoved(r.tasks, t, pc, k);
    }
  }

  lemma PostKeeps(r: Protocol, kind: Kind, n: nat)
    requires ProtocolInv(r) && r.daemon == Idle && n + SWEEP_PARTITION_COUNT + 1 < UINT32
    ensures ProtocolInv(Posted(r, kind, n))
  {
    hide DoneOf, TasksOf;
    var r' := Posted(r, kind, n);
    if Cur(r) >= 0 {
      Settled(r);
      assert forall t: nat :: !Signalling(r, t);
    }
    NoTasks(r.tasks, |r.kinds|);
    forall t: nat, p: nat ensures Holds(r', t, p) == Holds(r, t, p) == false {
    }
    forall t | 0 <= t < |r'.tasks| && r'.tasks[t].cycle < Cur(r')
      ensures r'.tasks[t].pc == Fetch || r'.tasks[t].pc == Done
    {
      assert r.tasks[t].pc.Free? || r.tasks[t].pc.Sweep? || r.tasks[t].pc.Reduce? ==> Holds(r, t, r.tasks[t].pc.p);
      assert !Signalling(r, t);
    }
    forall k: nat ensures CounterBound(r', k) {
      assert CounterBound(r, k);
    }
  }

  lemma HireKeeps(r: Protocol, daemon: Daemon)
    requires ProtocolInv(r) && r.daemon.Posting?
    requires if r.daemon.left > 0 then daemon == Posting(r.daemon.left - 1)
             else daemon == Joining(|r.tasks|) && r.kinds[Cur(r)] == Parallel
    ensures ProtocolInv(Hired(r, daemon))
  {
    hide DoneOf, TasksOf;
    var r' := Hired(r, daemon);
    forall t: nat, p: nat ensures Holds(r', t, p) == Holds(r, t, p) {
    }
    forall t: nat ensures Signalling(r', t) == Signalling(r, t) {
    }
    forall k: nat ensures CounterBound(r', k) {
      assert CounterBound(r, k);
      CountsHired(r.tasks, Task(|r.kinds| - 1, Fetch), k);
    }
  }

  lemma CountsHired(tasks: seq<Task>, task: Task, k: int)
    requires task.pc == Fetch
    ensures TasksOf(tasks + [task], k) == TasksOf(tasks, k) + if task.cycle == k then 1 else 0
    ensures DoneOf(tasks + [task], k) == DoneOf(tasks, k)
  {
    assert (tasks + [task])[..|tasks + [task]| - 1] == tasks;
  }

  /** The steps of the daemon that only move it, and its final signal. */
  lemma DaemonKeeps(r: Protocol, step: Step)
    requires ProtocolInv(r) && Ready(r, step)
    requires step.Joined? || step.BeginWait? || step.Proceed? || step.Finish? || step.FinishSignal?
    ensures ProtocolInv(Advance(r, step))
  {
    hide DoneOf, TasksOf;
    var r' := Advance(r, step);
    assert Cur(r) >= 0;
    forall t: nat, p: nat ensures Holds(r', t, p) == Holds(r, t, p) {
    }
    forall t: nat ensures Signalling(r', t) == Signalling(r, t) {
    }
    forall k: nat ensures CounterBound(r', k) {
      assert CounterBound(r, k);
    }
  }

  lemma FetchKeeps(r: Protocol, t: nat)
    requires ProtocolInv(r) && IsTask(r, t) && r.tasks[t].pc == Fetch
    ensures ProtocolInv(Fetched(r, t))
  {
    hide DoneOf, TasksOf;
    NoWrap(r, t);
    FetchClaims(r, t);
    FetchBounds(r, t);
    var r' := Fetched(r, t);
    forall u: nat ensures Signalling(r', u) == Signalling(r, u) {
    }
  }

  lemma FetchBounds(r: Protocol, t: nat)
    requires Shape(r) && Bounds(r) && IsTask(r, t) && r.tasks[t].pc == Fetch
    requires r.iters[r.tasks[t].cycle] + 1 < UINT32
    ensures Shape(Fetched(r, t)) && Bounds(Fetched(r, t))
  {
    hide DoneOf, TasksOf;
    var r' := Fetched(r, t);
    forall k: nat ensures CounterBound(r', k) {
      assert CounterBound(r, k);
      CountsMoved(r.tasks, t, r'.tasks[t].pc, k);
    }
  }

  /** A task of the last cycle that finds a partition holds it alone; any other fetch claims nothing. */
  lemma FetchClaims(r: Protocol, t: nat)
    requires Shape(r) && Leftovers(r) && Claims(r) && IsTask(r, t) && r.tasks[t].pc == Fetch
    requires r.iters[r.tasks[t].cycle] + 1 < UINT32
    ensures Shape(Fetched(r, t)) && Leftovers(Fetched(r, t)) && Claims(Fetched(r, t))
  {
    var r' := Fetched(r, t);
    var c := r.tasks[t].cycle;
    var i := r.iters[c];
    forall u: nat, p: nat
      ensures Holds(r', u, p) <==> Holds(r, u, p) || (u == t && p == i && i < SWEEP_PARTITION_COUNT)
    {
    }
    assert forall p: nat :: Claimed(r', p) <==> Claimed(r, p) || (p == i && i < SWEEP_PARTITION_COUNT);
    assert i < SWEEP_PARTITION_COUNT ==> c == Cur(r) && Holds(r', t, i) && i !in r.sweptNow;
    forall p: nat | Claimed(r', p) && p !in r'.doneNow ensures exists u: nat :: Holds(r', u, p) {
      if Claimed(r, p) {
        var u: nat :| Holds(r, u, p);
        assert Holds(r', u, p);
      }
    }
    forall u: nat, p: nat | Holds(r', u, p) ensures Holder(r', u, p) {
      if Holds(r, u, p) {
        assert Holder(r, u, p);
      }
    }
  }

  lemma FreeKeeps(r: Protocol, t: nat)
    requires ProtocolInv(r) && t < |r.tasks| && r.tasks[t].pc.Free?
    ensures ProtocolInv(Moved(r, t, Sweep(r.tasks[t].pc.p)))
  {
    hide DoneOf, TasksOf;
    var p := r.tasks[t].pc.p;
    var r' := Moved(r, t, Sweep(p));
    assert Holds(r, t, p);
    forall u: nat, q: nat ensures Holds(r', u, q) == Holds(r, u, q) {
    }
    forall u: nat ensures Signalling(r', u) == Signalling(r, u) {
    }
    forall u: nat, q: nat | Holds(r', u, q) ensures Holder(r', u, q) {
      assert Holder(r, u, q);
    }
    BoundsMoved(r, r', t, Sweep(p));
  }

  lemma SweepKeeps(r: Protocol, t: nat)
    requires ProtocolInv(r) && t < |r.tasks| && r.tasks[t].pc.Sweep?
    ensures ProtocolInv(Swept(r, t))
  {
    hide DoneOf, TasksOf;
    var p := r.tasks[t].pc.p;
    var r' := Swept(r, t);
    assert Holds(r, t, p) && Holder(r, t, p);
    forall u: nat, q: nat ensures Holds(r', u, q) == Holds(r, u, q) {
    }
    forall u: nat ensures Signalling(r', u) == Signalling(r, u) {
    }
    forall u: nat, q: nat | Holds(r', u, q) ensures Holder(r', u, q) {
      assert Holder(r, u, q);
      assert u != t ==> q != p;
    }
    BoundsMoved(r, r', t, Reduce(p));
  }

  lemma ReduceKeeps(r: Protocol, t: nat)
    requires ProtocolInv(r) && t < |r.tasks| && r.tasks[t].pc.Reduce?
    ensures ProtocolInv(Reduced(r, t))
  {
    hide DoneOf, TasksOf;
    ReduceClaims(r, t);
    ReduceCounts(r, t);
    hide Claims, Counts;
    BoundsMoved(r, Reduced(r, t), t, Reduced(r, t).tasks[t].pc);
  }

  lemma ReduceClaims(r: Protocol, t: nat)
    requires Shape(r) && Claims(r) && t < |r.tasks| && r.tasks[t].pc.Reduce?
    ensures Shape(Reduced(r, t)) && Claims(Reduced(r, t))
  {
    var p := r.tasks[t].pc.p;
    var r' := Reduced(r, t);
    assert Holds(r, t, p) && Holder(r, t, p);
    forall u: nat, q: nat ensures Holds(r', u, q) <==> Holds(r, u, q) && u != t {
    }
    forall u: nat, q: nat | Holds(r', u, q) ensures Holder(r', u, q) {
      assert Holder(r, u, q);
    }
    forall q: nat | Claimed(r', q) && q !in r'.doneNow ensures exists u: nat :: Holds(r', u, q) {
      var u: nat :| Holds(r, u, q);
      assert Holds(r', u, q);
    }
  }

  /** The count is positive before a decrement, so it never wraps; the one that makes it zero signals. */
  lemma ReduceCounts(r: Protocol, t: nat)
    requires Shape(r) && Claims(r) && Counts(r) && Log(r) && t < |r.tasks| && r.tasks[t].pc.Reduce?
    ensures 0 < r.pending < UINT32
    ensures Shape(Reduced(r, t)) && Counts(Reduced(r, t)) && Log(Reduced(r, t))
  {
    var p := r.tasks[t].pc.p;
    var r' := Reduced(r, t);
    assert Holds(r, t, p) && Holder(r, t, p);
    AllDone(r'.doneNow, SWEEP_PARTITION_COUNT);
    assert |r'.doneNow| == |r.doneNow| + 1;
    assert r'.pending == r.pending - 1;
    forall u: nat ensures Signalling(r', u) <==> Signalling(r, u) || (u == t && r'.pending == 0) {
    }
  }

  lemma SignalKeeps(r: Protocol, t: nat)
    requires ProtocolInv(r) && t < |r.tasks| && r.tasks[t].pc == Signal
    ensures ProtocolInv(Signalled(r, t))
  {
    hide DoneOf, TasksOf;
    var r' := Signalled(r, t);
    assert Signalling(r, t);
    forall u: nat ensures Signalling(r', u) <==> Signalling(r, u) && u != t {
    }
    forall u: nat, q: nat ensures Holds(r', u, q) == Holds(r, u, q) {
    }
    forall u: nat, q: nat | Holds(r', u, q) ensures Holder(r', u, q) {
      assert Holder(r, u, q);
    }
    BoundsMoved(r, r', t, Fetch);
  }

  lemma AdvanceKeeps(r: Protocol, step: Step)
    requires ProtocolInv(r) && Ready(r, step)
    ensures ProtocolInv(Advance(r, step))
  {
    hide ProtocolInv;
    match step {
      case Post(kind, n) => PostKeeps(r, kind, n);
      case PostTask => HireKeeps(r, Posting(r.daemon.left - 1));
      case Join => HireKeeps(r, Joining(|r.tasks|));
      case FetchNext(t) => FetchKeeps(r, t);
      case FreeQueued(t) => FreeKeeps(r, t);
      case SweepPartition(t, _, _) => SweepKeeps(r, t);
      case ReduceCount(t) => ReduceKeeps(r, t);
      case SignalState(t) => SignalKeeps(r, t);
      case Insert(_, _) =>
      case _ => DaemonKeeps(r, step);
    }
  }

  // ---------------------------------------------------------------------------------------------
  // The invariant of the entries

  /** Linked entries lie in one partition, and are neither queued nor deleted. */
  ghost predicate LinkedInv(m: Store)
    requires Sized(m)
  {
    && (forall p, q, e :: 0 <= p < q < SWEEP_PARTITION_COUNT && e in m.table[p] ==> e !in m.table[q])
    && (forall p, e :: 0 <= p < SWEEP_PARTITION_COUNT && e in m.table[p] ==>
          e in m.known && e !in m.queuedIn && e !in m.deletions)
  }

  /** An entry queued once stays in the vector of its partition until it is deleted, once. */
  ghost predicate QueueInv(m: Store)
    requires Sized(m)
  {
    && (forall p :: 0 <= p < SWEEP_PARTITION_COUNT ==> Distinct(m.waitFree[p]))
    && (forall p, e :: 0 <= p < SWEEP_PARTITION_COUNT && e in m.waitFree[p] ==>
          e in m.queuedIn && m.queuedIn[e].1 == p && e !in m.deletions)
    && (forall e :: e in m.queuedIn ==>
          e in m.known && m.queuedIn[e].1 < SWEEP_PARTITION_COUNT
          && (e in m.deletions || e in m.waitFree[m.queuedIn[e].1])
          && (e in m.deletions <==> e in m.deletedIn))
    && (forall e :: e in m.deletedIn ==> e in m.queuedIn)
    && (forall e :: m.deletions[e] <= 1 && (e in m.deletions ==> e in m.known))
  }

  /** Entries are queued by concurrent cycles, and deleted by later ones for the same partition. */
  ghost predicate TimeInv(r: Protocol, m: Store) {
    && (forall e :: e in m.queuedIn ==>
          && m.queuedIn[e].0 < |r.kinds| && r.kinds[m.queuedIn[e].0] == Concurrent
          && (m.queuedIn[e].0 == Cur(r) ==> m.queuedIn[e].1 in r.sweptNow))
    && (forall e :: e in m.deletedIn ==>
          && e in m.queuedIn && m.queuedIn[e].0 < m.deletedIn[e].0 < |r.kinds|
          && r.kinds[m.deletedIn[e].0] == Concurrent && m.deletedIn[e].1 == m.queuedIn[e].1)
  }

  /** Queued heads are linked, and wait only in a concurrent cycle that has swept their partition. */
  ghost predicate HeadsInv(r: Protocol, m: Store)
    requires Sized(m)
  {
    && (forall p :: 0 <= p < SWEEP_PARTITION_COUNT ==> Distinct(m.waitHeads[p]))
    && (forall p, e :: 0 <= p < SWEEP_PARTITION_COUNT && e in m.waitHeads[p] ==>
          && e in m.table[p] && p in r.sweptNow
          && r.daemon != Idle && r.daemon != Ending && Cur(r) >= 0 && r.kinds[Cur(r)] == Concurrent)
  }

  ghost predicate EntriesInv(s: State) {
    Sized(s.store) && LinkedInv(s.store) && QueueInv(s.store) && TimeInv(s.run, s.store) && HeadsInv(s.run, s.store)
  }

  ghost predicate Inv(s: State) {
    ProtocolInv(s.run) && EntriesInv(s)
  }

  /** Deleting pairwise disjoint sets deletes each of their elements once. */
  lemma {:induction false} TotalOnce(sets: seq<set<Entry>>, e: Entry)
    requires forall p, q :: 0 <= p < q < |sets| ==> e !in sets[p] || e !in sets[q]
    ensures Total(sets)[e] <= 1
    ensures e in Total(sets) <==> exists p :: 0 <= p < |sets| && e in sets[p]
  {
    if sets != [] {
      TotalOnce(sets[..|sets| - 1], e);
      if e in Total(sets[..|sets| - 1]) {
        var p :| 0 <= p < |sets| - 1 && e in sets[..|sets| - 1][p];
        assert e in sets[p];
      }
    }
  }

  lemma {:induction false} DistinctOnce(s: seq<Entry>, e: Entry)
    requires Distinct(s)
    ensures multiset(s)[e] == if e in s then 1 else 0
  {
    if s != [] {
      assert s == s[..|s| - 1] + [s[|s| - 1]];
      DistinctOnce(s[..|s| - 1], e);
    }
  }

  lemma HasElement(s: seq<Entry>)
    requires s != []
    ensures exists e :: e in s
  {
    assert s[0] in s;
  }

  lemma DistinctEmpty()
    ensures Distinct<Entry>([])
  {
  }

  lemma DistinctAppend(a: seq<Entry>, b: seq<Entry>)
    requires Distinct(a) && Distinct(b) && forall e :: e in a ==> e !in b
    ensures Distinct(a + b)
  {
    forall i, j | 0 <= i < j < |a + b| ensures (a + b)[i] != (a + b)[j] {
      if i < |a| <= j {
        assert a[i] in a && b[j - |a|] in b;
      }
    }
  }

  lemma HeadsFreedKeeps(r: Protocol, r': Protocol, m: Store, freed: seq<set<Entry>>)
    requires EntriesInv(State(r, m))
    requires |freed| == SWEEP_PARTITION_COUNT
    requires forall p, e :: 0 <= p < |freed| && e in freed[p] ==> e in m.waitHeads[p]
    requires r'.kinds == r.kinds && r'.sweptNow == r.sweptNow
    ensures EntriesInv(State(r', HeadsFreed(m, freed)))
  {
    hide Total, QueueInv;
    var m' := HeadsFreed(m, freed);
    assert forall p, e :: 0 <= p < |freed| && e in freed[p] ==> e in m.table[p];
    forall e ensures e in Total(freed) <==> exists p :: 0 <= p < |freed| && e in freed[p] {
      TotalOnce(freed, e);
    }
    HeadsFreedQueue(m, freed);
  }

  lemma HeadsFreedQueue(m: Store, freed: seq<set<Entry>>)
    requires Sized(m) && LinkedInv(m) && QueueInv(m)
    requires |freed| == SWEEP_PARTITION_COUNT
    requires forall p, e :: 0 <= p < |freed| && e in freed[p] ==> e in m.table[p]
    ensures QueueInv(HeadsFreed(m, freed))
  {
    hide Total;
    forall e
      ensures Total(freed)[e] <= 1
      ensures e in Total(freed) ==> e in m.known && e !in m.queuedIn && e !in m.deletions
    {
      TotalOnce(freed, e);
    }
  }

  lemma QueueFreedKeeps(r: Protocol, r': Protocol, m: Store, p: nat)
    requires EntriesInv(State(r, m)) && p < SWEEP_PARTITION_COUNT && p !in r.sweptNow
    requires Cur(r) >= 0 && r.kinds[Cur(r)] == Concurrent
    requires r'.kinds == r.kinds && r'.sweptNow == r.sweptNow && r'.daemon == r.daemon
    ensures EntriesInv(State(r', QueueFreed(m, Cur(r), p)))
  {
    hide QueueInv;
    QueuedFacts(m, p);
    QueueFreedQueue(m, Cur(r), p);
  }

  lemma QueuedFacts(m: Store, p: nat)
    requires Sized(m) && QueueInv(m) && p < SWEEP_PARTITION_COUNT
    ensures forall e :: e in m.waitFree[p] ==> e in m.queuedIn && m.queuedIn[e].1 == p
  {
  }

  lemma QueueFreedQueue(m: Store, c: nat, p: nat)
    requires Sized(m) && QueueInv(m) && p < SWEEP_PARTITION_COUNT
    ensures QueueInv(QueueFreed(m, c, p))
  {
    hide Distinct;
    var m' := QueueFreed(m, c, p);
    DistinctEmpty();
    forall e ensures multiset(m.waitFree[p])[e] == if e in m.waitFree[p] then 1 else 0 {
      DistinctOnce(m.waitFree[p], e);
    }
    forall e | e in m'.queuedIn ensures e in m'.deletions || e in m'.waitFree[m'.queuedIn[e].1] {
    }
  }

  lemma SweptParallelKeeps(r: Protocol, r': Protocol, m: Store, p: nat, dead: seq<Entry>)
    requires EntriesInv(State(r, m)) && p < SWEEP_PARTITION_COUNT
    requires Distinct(dead) && forall e :: e in dead ==> e in m.table[p]
    requires Cur(r) >= 0 && r.kinds[Cur(r)] == Parallel
    requires r'.kinds == r.kinds && r'.sweptNow == r.sweptNow + {p} && r'.daemon == r.daemon
    ensures EntriesInv(State(r', SweptParallel(m, p, dead)))
  {
    forall e ensures multiset(dead)[e] == if e in dead then 1 else 0 {
      DistinctOnce(dead, e);
    }
  }

  lemma SweptConcurrentKeeps(r: Protocol, r': Protocol, m: Store, p: nat, dead: seq<Entry>, heads: seq<Entry>)
    requires EntriesInv(State(r, m)) && p < SWEEP_PARTITION_COUNT && p !in r.sweptNow
    requires Distinct(dead) && forall e :: e in dead ==> e in m.table[p]
    requires Distinct(heads) && forall e :: e in heads ==> e in m.table[p] && e !in dead
    requires Cur(r) >= 0 && r.kinds[Cur(r)] == Concurrent && r.daemon != Idle && r.daemon != Ending
    requires r'.kinds == r.kinds && r'.sweptNow == r.sweptNow + {p} && r'.daemon == r.daemon
    ensures EntriesInv(State(r', SweptConcurrent(m, Cur(r), p, dead, heads)))
  {
    hide Distinct, QueueInv, TimeInv, HeadsInv;
    SweptConcurrentQueue(m, Cur(r), p, dead, heads);
    SweptConcurrentTime(r, r', m, p, dead, heads);
    SweptConcurrentHeads(r, r', m, p, dead, heads);
  }

  lemma SweptConcurrentQueue(m: Store, c: nat, p: nat, dead: seq<Entry>, heads: seq<Entry>)
    requires Sized(m) && LinkedInv(m) && QueueInv(m) && p < SWEEP_PARTITION_COUNT
    requires Distinct(dead) && forall e :: e in dead ==> e in m.table[p]
    ensures QueueInv(SweptConcurrent(m, c, p, dead, heads))
  {
    hide Distinct;
    forall e | e in m.waitFree[p] ensures e !in dead {
      assert e in m.queuedIn;
      assert e !in m.table[p];
    }
    DistinctAppend(m.waitFree[p], dead);
  }

  lemma SweptConcurrentTime(r: Protocol, r': Protocol, m: Store, p: nat, dead: seq<Entry>, heads: seq<Entry>)
    requires Sized(m) && LinkedInv(m) && TimeInv(r, m) && p < SWEEP_PARTITION_COUNT
    requires forall e :: e in dead ==> e in m.table[p]
    requires Cur(r) >= 0 && r.kinds[Cur(r)] == Concurrent
    requires r'.kinds == r.kinds && r'.sweptNow == r.sweptNow + {p}
    ensures TimeInv(r', SweptConcurrent(m, Cur(r), p, dead, heads))
  {
    assert forall e :: e in dead ==> e !in m.queuedIn && e !in m.deletedIn;
  }

  lemma SweptConcurrentHeads(r: Protocol, r': Protocol, m: Store, p: nat, dead: seq<Entry>, heads: seq<Entry>)
    requires Sized(m) && LinkedInv(m) && HeadsInv(r, m) && p < SWEEP_PARTITION_COUNT && p !in r.sweptNow
    requires Distinct(heads) && forall e :: e in heads ==> e in m.table[p] && e !in dead
    requires forall e :: e in dead ==> e in m.table[p]
    requires Cur(r) >= 0 && r.kinds[Cur(r)] == Concurrent && r.daemon != Idle && r.daemon != Ending
    requires r'.kinds == r.kinds && r'.sweptNow == r.sweptNow + {p} && r'.daemon == r.daemon
    ensures HeadsInv(r', SweptConcurrent(m, Cur(r), p, dead, heads))
  {
    hide Distinct;
    if m.waitHeads[p] != [] {
      HasElement(m.waitHeads[p]);
      assert false;
    }
    assert m.waitHeads[p] + heads == heads;
  }

  lemma InsertedKeeps(r: Protocol, m: Store, p: nat, e: Entry)
    requires EntriesInv(State(r, m)) && p < SWEEP_PARTITION_COUNT && e !in m.known
    ensures EntriesInv(State(r, Inserted(m, p, e)))
  {
  }

  /** The steps of the protocol that touch no entry. */
  lemma EntriesKept(r: Protocol, r': Protocol, m: Store)
    requires EntriesInv(State(r, m))
    requires (r.kinds == r'.kinds && r'.sweptNow == r.sweptNow)
          || (r.daemon == Idle && r.kinds <= r'.kinds && |r.kinds| == Cur(r'))
    requires (r'.daemon == Idle || r'.daemon == Ending) && r.daemon != r'.daemon ==>
               r.daemon == Ending || (Cur(r) >= 0 && r.kinds[Cur(r)] == Parallel)
    ensures EntriesInv(State(r', m))
  {
    assert r.kinds <= r'.kinds;
  }

  /** What a task that holds a partition knows. */
  lemma HolderFacts(r: Protocol, t: nat, p: nat)
    requires ProtocolInv(r) && Holds(r, t, p)
    ensures r.tasks[t].cycle == Cur(r) < |r.iters| && p < SWEEP_PARTITION_COUNT
    ensures p in r.sweptNow <==> r.tasks[t].pc == Reduce(p)
    ensures r.tasks[t].pc == Free(p) ==> r.kinds[Cur(r)] == Concurrent
    ensures r.daemon != Idle && r.daemon != Ending && r.daemon != Finishing
    ensures r.state == SWEEPING
  {
    hide DoneOf, TasksOf;
    assert Holder(r, t, p);
    if r.pending == 0 {
      Settled(r);
      assert false;
    }
  }

  lemma EffectKeeps(s: State, step: Step)
    requires Inv(s) && Enabled(s, step)
    ensures EntriesInv(Apply(s, step))
  {
    hide ProtocolInv, EntriesInv;
    var r, m := s.run, s.store;
    var r' := Advance(r, step);
    match step {
      case Finish(freed) => HeadsFreedKeeps(r, r', m, freed);
      case FreeQueued(t) =>
        HolderFacts(r, t, r.tasks[t].pc.p);
        QueueFreedKeeps(r, r', m, r.tasks[t].pc.p);
      case SweepPartition(t, dead, heads) =>
        HolderFacts(r, t, r.tasks[t].pc.p);
        if r.kinds[Cur(r)] == Parallel {
          SweptParallelKeeps(r, r', m, r.tasks[t].pc.p, dead);
        } else {
          SweptConcurrentKeeps(r, r', m, r.tasks[t].pc.p, dead, heads);
        }
      case Insert(p, e) => InsertedKeeps(r, m, p, e);
      case _ => EntriesKept(r, r', m);
    }
  }
}
