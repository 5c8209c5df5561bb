/** Whole runs of the string-table cleaner: any number of cycles, tasks and interleavings. */
module CleanerRuns {
  import opened Basics
  import opened StringTableCleaner

  ghost predicate ValidRun(s: State, steps: seq<Step>)
    decreases |steps|
  {
    steps == [] || (Enabled(s, steps[0]) && ValidRun(Apply(s, steps[0]), steps[1..]))
  }

  ghost function Exec(s: State, steps: seq<Step>): State
    requires ValidRun(s, steps)
    decreases |steps|
  {
    if steps == [] then s else Exec(Apply(s, steps[0]), steps[1..])
  }

  ghost predicate Reachable(s: State) {
    exists steps :: ValidRun(Init(), steps) && Exec(Init(), steps) == s
  }

  lemma InitProtocol()
    ensures ProtocolInv(Init().run)
  {
    var r := Init().run;
    assert forall k: nat :: CounterBound(r, k);
    assert forall t: nat, p: nat :: !Holds(r, t, p);
  }

  lemma InitEntries()
    ensures EntriesInv(Init())
  {
    var m := Init().store;
    assert forall p :: 0 <= p < SWEEP_PARTITION_COUNT ==> m.waitFree[p] == m.waitHeads[p] == [] && m.table[p] == {};
  }

  lemma InitInv()
    ensures Inv(Init())
  {
    hide ProtocolInv, EntriesInv, Init;
    InitProtocol();
    InitEntries();
  }

  lemma StepKeeps(s: State, step: Step)
    requires Inv(s) && Enabled(s, step)
    ensures Inv(Apply(s, step))
  {
    hide ProtocolInv, EntriesInv, Advance, Effect, Ready, Permitted;
    AdvanceKeeps(s.run, step);
    EffectKeeps(s, step);
  }

  lemma {:induction false} RunKeeps(s: State, steps: seq<Step>)
    requires Inv(s) && ValidRun(s, steps)
    ensures Inv(Exec(s, steps))
    decreases |steps|
  {
    hide Inv, Enabled, Apply;
    if steps != [] {
      StepKeeps(s, steps[0]);
      RunKeeps(Apply(s, steps[0]), steps[1..]);
    }
  }

  lemma ReachableInv(s: State)
    requires Reachable(s)
    ensures Inv(s)
  {
    hide Inv, Init;
    InitInv();
    var steps :| ValidRun(Init(), steps) && Exec(Init(), steps) == s;
    RunKeeps(Init(), steps);
  }

  // ---------------------------------------------------------------------------------------------
  // Safety

  /** Each partition is swept at most once in each cycle and exactly once in a cycle that is over; a cycle
      that is over had exactly one task that saw the count reach zero. */
  lemma SweptExactlyOnce(s: State, k: nat, p: nat)
    requires Reachable(s) && k < |s.run.kinds| && p < SWEEP_PARTITION_COUNT
    ensures s.run.sweeps[(k, p)] <= 1 && s.run.zeros[k] <= 1
    ensures k < |s.run.kinds| - 1 || s.run.state != SWEEPING ==> s.run.sweeps[(k, p)] == 1 && s.run.zeros[k] == 1
  {
    hide DoneOf, TasksOf, EntriesInv;
    ReachableInv(s);
    if k == Cur(s.run) && s.run.state != SWEEPING {
      Settled(s.run);
    }
  }

  /** How often the steps of a run sweep partition `p` for cycle `k`. */
  ghost function SweepsOf(s: State, steps: seq<Step>, k: nat, p: nat): nat
    requires ValidRun(s, steps)
    decreases |steps|
  {
    if steps == [] then 0
    else
      (if steps[0].SweepPartition? && s.run.tasks[steps[0].t] == Task(k, Sweep(p)) then 1 else 0)
      + SweepsOf(Apply(s, steps[0]), steps[1..], k, p)
  }

  lemma {:induction false} SweepsCounted(s: State, steps: seq<Step>, k: nat, p: nat)
    requires ValidRun(s, steps)
    ensures Exec(s, steps).run.sweeps[(k, p)] == s.run.sweeps[(k, p)] + SweepsOf(s, steps, k, p)
    decreases |steps|
  {
    hide Permitted, Effect;
    if steps != [] {
      SweepsCounted(Apply(s, steps[0]), steps[1..], k, p);
    }
  }

  /** In any run, the steps that sweep a partition for a cycle are at most one, and exactly one once the cycle is
      over. */
  lemma EachSweptOnce(steps: seq<Step>, k: nat, p: nat)
    requires ValidRun(Init(), steps) && p < SWEEP_PARTITION_COUNT
    ensures var r := Exec(Init(), steps).run;
            && (k < |r.kinds| ==> SweepsOf(Init(), steps, k, p) <= 1)
            && (k < |r.kinds| - 1 || (k == |r.kinds| - 1 && r.state != SWEEPING) ==> SweepsOf(Init(), steps, k, p) == 1)
  {
    hide ValidRun, Exec, SweepsOf;
    var s := Exec(Init(), steps);
    SweepsCounted(Init(), steps, k, p);
    assert Reachable(s);
    if k < |s.run.kinds| {
      SweptExactlyOnce(s, k, p);
    }
  }

  /** The pending count is positive whenever a task decrements it, so it never wraps. */
  lemma CountNeverUnderflows(s: State, t: nat)
    requires Reachable(s) && Enabled(s, ReduceCount(t))
    ensures 0 < s.run.pending <= SWEEP_PARTITION_COUNT
    ensures Apply(s, ReduceCount(t)).run.pending == s.run.pending - 1
  {
    hide DoneOf, TasksOf, EntriesInv;
    ReachableInv(s);
    ReduceCounts(s.run, t);
  }

  ghost predicate SweptIn(r: Protocol, k: int, p: nat) {
    k >= 0 && r.sweeps[(k, p)] == 1
  }

  /** A waiter passes, and queued bucket heads are freed, only when every partition is swept and counted off
      and no task of the cycle is left inside one. */
  lemma WaitersPassOnlyWhenDone(s: State, step: Step)
    requires Reachable(s) && Enabled(s, step) && (step.Proceed? || step.Finish?)
    ensures s.run.state != SWEEPING && s.run.pending == 0
    ensures forall p: nat :: p < SWEEP_PARTITION_COUNT ==> SweptIn(s.run, Cur(s.run), p)
    ensures forall t: nat, p: nat :: !Holds(s.run, t, p)
    ensures forall t: nat :: !Signalling(s.run, t)
  {
    hide DoneOf, TasksOf, EntriesInv;
    ReachableInv(s);
    Settled(s.run);
  }

  /** The state leaves SWEEPING only by the signal of the task that saw zero, with everything done. */
  lemma LeavesSweepingOnlyWhenDone(s: State, step: Step)
    requires Reachable(s) && Enabled(s, step)
    requires s.run.state == SWEEPING && Apply(s, step).run.state != SWEEPING
    ensures step.SignalState? && s.run.tasks[step.t].cycle == Cur(s.run)
    ensures forall p: nat :: p < SWEEP_PARTITION_COUNT ==> p in s.run.doneNow
  {
    hide DoneOf, TasksOf, EntriesInv;
    ReachableInv(s);
    if step.SignalState? {
      assert Signalling(s.run, step.t);
      Settled(s.run);
    }
  }

  /** A task left over from an earlier cycle can only fetch once more, past the end of its own old counter:
      it changes nothing else and is done. */
  lemma LeftoverDoesNothing(s: State, t: nat)
    requires Reachable(s) && t < |s.run.tasks| && s.run.tasks[t].cycle < Cur(s.run)
    ensures !Ready(s.run, FreeQueued(t)) && !Ready(s.run, ReduceCount(t)) && !Ready(s.run, SignalState(t))
    ensures forall dead, heads :: !Ready(s.run, SweepPartition(t, dead, heads))
    ensures Enabled(s, FetchNext(t)) ==>
              var s' := Apply(s, FetchNext(t));
              && s'.store == s.store
              && s'.run == s.run.(tasks := s'.run.tasks, iters := s'.run.iters)
              && s'.run.tasks == s.run.tasks[t := Task(s.run.tasks[t].cycle, Done)]
              && (forall k :: 0 <= k < |s.run.iters| && k != s.run.tasks[t].cycle ==> s'.run.iters[k] == s.run.iters[k])
              && s'.run.iters[s.run.tasks[t].cycle] == s.run.iters[s.run.tasks[t].cycle] + 1
  {
    hide DoneOf, TasksOf, EntriesInv;
    ReachableInv(s);
    if s.run.tasks[t].pc == Fetch {
      NoWrap(s.run, t);
    }
  }

  /** An entry queued for deferred deletion stays in the vector of its partition until it is deleted; it is
      deleted at most once, and only by a later concurrent cycle.  No entry at all is deleted twice. */
  lemma DeferredDeletion(s: State, e: Entry)
    requires Reachable(s)
    ensures s.store.deletions[e] <= 1
    ensures e in s.store.queuedIn ==>
              var (k, p) := s.store.queuedIn[e];
              && k < |s.run.kinds| && s.run.kinds[k] == Concurrent && p < |s.store.waitFree|
              && (e in s.store.waitFree[p] <==> e !in s.store.deletions)
              && (e in s.store.deletions ==>
                    && e in s.store.deletedIn && s.store.deletedIn[e].1 == p
                    && k < s.store.deletedIn[e].0 < |s.run.kinds|
                    && s.run.kinds[s.store.deletedIn[e].0] == Concurrent)
  {
    hide DoneOf, TasksOf, ProtocolInv;
    ReachableInv(s);
  }

  /** The one step that deletes a queued entry is that of a task which has claimed its partition in a later
      concurrent cycle. */
  lemma QueuedDeletedByClaimant(s: State, step: Step, e: Entry)
    requires Reachable(s) && Enabled(s, step)
    requires e in s.store.queuedIn && e !in s.store.deletions && e in Apply(s, step).store.deletions
    ensures step.FreeQueued?
    ensures var task := s.run.tasks[step.t];
            && task.pc == Free(s.store.queuedIn[e].1) && s.store.queuedIn[e].0 < task.cycle == Cur(s.run)
            && s.run.kinds[task.cycle] == Concurrent
  {
    hide ProtocolInv, Total;
    ReachableInv(s);
    match step {
      case Finish(freed) =>
        forall p | 0 <= p < |freed| ensures e !in freed[p] {
        }
        TotalOnce(freed, e);
        assert false;
      case FreeQueued(t) => HolderFacts(s.run, t, s.run.tasks[t].pc.p);
      case SweepPartition(t, dead, _) =>
        assert false;
      case _ =>
    }
  }

  /** A linked entry, and so any bucket head that still waits to be freed, is not deleted. */
  lemma LinkedIsAlive(s: State, p: nat, e: Entry)
    requires Reachable(s) && p < SWEEP_PARTITION_COUNT && |s.store.table| == |s.store.waitHeads| == SWEEP_PARTITION_COUNT
    requires e in s.store.table[p] || e in s.store.waitHeads[p]
    ensures e in s.store.table[p] && e !in s.store.deletions && e !in s.store.queuedIn
  {
    hide ProtocolInv;
    ReachableInv(s);
  }

  // ---------------------------------------------------------------------------------------------
  // Progress

  function Rank(pc: Pc): nat {
    match pc
    case Done => 0
    case Fetch => 1
    case Signal => 2
    case Reduce(_) => 3
    case Sweep(_) => 4
    case Free(_) => 5
  }

  function Ranks(tasks: seq<Task>): nat {
    if tasks == [] then 0 else Ranks(tasks[..|tasks| - 1]) + Rank(tasks[|tasks| - 1].pc)
  }

  lemma {:induction false} RanksMoved(tasks: seq<Task>, t: nat, pc: Pc)
    requires t < |tasks|
    ensures Ranks(tasks[t := tasks[t].(pc := pc)]) == Ranks(tasks) - Rank(tasks[t].pc) + Rank(pc)
  {
    var moved := tasks[t := tasks[t].(pc := pc)];
    if t == |tasks| - 1 {
      assert moved[..|tasks| - 1] == tasks[..|tasks| - 1];
    } else {
      assert moved[..|tasks| - 1] == tasks[..|tasks| - 1][t := tasks[t].(pc := pc)];
      RanksMoved(tasks[..|tasks| - 1], t, pc);
    }
  }

  /** The work left for the tasks posted so far. */
  ghost function Work(r: Protocol): nat
    requires |r.iters| == |r.kinds|
  {
    Ranks(r.tasks) +
    if Cur(r) >= 0 && r.iters[Cur(r)] < SWEEP_PARTITION_COUNT then 5 * (SWEEP_PARTITION_COUNT - r.iters[Cur(r)]) else 0
  }

  predicate OfTask(step: Step) {
    step.FetchNext? || step.FreeQueued? || step.SweepPartition? || step.ReduceCount? || step.SignalState?
  }

  lemma TaskStepWorks(r: Protocol, step: Step)
    requires ProtocolInv(r) && Ready(r, step) && OfTask(step)
    ensures |Advance(r, step).iters| == |Advance(r, step).kinds|
    ensures Work(Advance(r, step)) < Work(r)
  {
    hide DoneOf, TasksOf, Ranks, Claims, Counts, Control, Log, Bounds;
    NoWrap(r, step.t);
    RanksMoved(r.tasks, step.t, Advance(r, step).tasks[step.t].pc);
  }

  /** However the tasks interleave, they take no more steps than the work they were left with. */
  lemma {:induction false} TasksFinish(s: State, steps: seq<Step>)
    requires Inv(s) && ValidRun(s, steps)
    requires forall i :: 0 <= i < |steps| ==> OfTask(steps[i])
    ensures |s.run.iters| == |s.run.kinds|
    ensures |steps| <= Work(s.run)
    decreases |steps|
  {
    hide Work, Claims, Counts, Leftovers, Control, Log, Bounds, EntriesInv, Ready, Permitted, Advance, Effect;
    if steps != [] {
      StepKeeps(s, steps[0]);
      TaskStepWorks(s.run, steps[0]);
      TasksFinish(Apply(s, steps[0]), steps[1..]);
    }
  }

  ghost predicate CanMove(s: State, t: nat) {
    exists step :: OfTask(step) && step.t == t && Enabled(s, step)
  }

  /** A task of the last cycle that is not done can take its next step. */
  lemma TaskCanMove(s: State, t: nat)
    requires Inv(s) && t < |s.run.tasks| && s.run.tasks[t].pc != Done
    ensures CanMove(s, t)
  {
    hide Leftovers, Counts, Control, Log, Bounds;
    var r := s.run;
    var step := match r.tasks[t].pc
      case Fetch => FetchNext(t)
      case Free(_) => FreeQueued(t)
      case Sweep(_) => SweepPartition(t, [], [])
      case Reduce(_) => ReduceCount(t)
      case Signal => SignalState(t);
    if r.tasks[t].pc.Free? || r.tasks[t].pc.Sweep? {
      assert Holds(r, t, r.tasks[t].pc.p);
    }
    assert OfTask(step) && step.t == t && Enabled(s, step);
  }

  ghost predicate HasTask(r: Protocol) {
    r.kinds != [] && (r.kinds[Cur(r)] == Parallel || exists t :: 0 <= t < |r.tasks| && r.tasks[t].cycle == Cur(r))
  }

  /** Every concurrent cycle of the run is posted to at least one task. */
  predicate Staffed(steps: seq<Step>) {
    forall i :: 0 <= i < |steps| && steps[i].Post? && steps[i].kind == Concurrent ==> steps[i].taskCount > 0
  }

  ghost predicate StaffedReachable(s: State) {
    exists steps :: Staffed(steps) && ValidRun(Init(), steps) && Exec(Init(), steps) == s
  }

  /** `Taskpool::TheMostSuitableThreadNum`: the task count of every posted cycle. */
  function TheMostSuitableThreadNum(threadNum: nat, cores: nat): (n: nat)
    ensures 1 <= n <= 5
    ensures 1 <= threadNum <= 5 ==> n == threadNum
    ensures threadNum == 0 ==> n == if cores >= 10 then 4 else 3
  {
    if threadNum > 0 then if threadNum < 5 then threadNum else 5
    else
      var threads := if cores / 2 < 5 then cores / 2 else 5;
      if threads > 3 then threads - 1 else 3
  }

  /** A concurrent cycle has a task, or one is still to be posted. */
  ghost predicate Manned(r: Protocol) {
    Cur(r) >= 0 && r.kinds[Cur(r)] == Concurrent ==>
      (r.daemon.Posting? && r.daemon.left > 0) || exists t :: 0 <= t < |r.tasks| && r.tasks[t].cycle == Cur(r)
  }

  lemma StepManned(s: State, step: Step)
    requires Inv(s) && Enabled(s, step) && Manned(s.run) && Staffed([step])
    ensures Manned(Apply(s, step).run)
  {
    hide EntriesInv, Leftovers, Claims, Counts, Log, Bounds, Permitted, Effect;
    var r, r' := s.run, Apply(s, step).run;
    assert step == [step][0];
    if t :| 0 <= t < |r.tasks| && r.tasks[t].cycle == Cur(r) {
      assert !step.Post? ==> r'.tasks[t].cycle == Cur(r');
    }
    if step.PostTask? {
      assert r'.tasks[|r.tasks|].cycle == Cur(r');
    }
  }

  lemma {:induction false} RunManned(s: State, steps: seq<Step>)
    requires Inv(s) && Manned(s.run) && ValidRun(s, steps) && Staffed(steps)
    ensures Inv(Exec(s, steps)) && Manned(Exec(s, steps).run)
    decreases |steps|
  {
    hide Inv, Enabled, Apply, Manned;
    if steps != [] {
      StepKeeps(s, steps[0]);
      StepManned(s, steps[0]);
      RunManned(Apply(s, steps[0]), steps[1..]);
    }
  }

  /** If every concurrent cycle is posted to a task, a daemon that joins or waits has one to wait for. */
  lemma StaffedHasTask(s: State)
    requires StaffedReachable(s)
    ensures Inv(s) && (s.run.daemon.Joining? || s.run.daemon == Waiting ==> HasTask(s.run))
  {
    hide EntriesInv, Leftovers, Claims, Counts, Log, Bounds;
    InitInv();
    var steps :| Staffed(steps) && ValidRun(Init(), steps) && Exec(Init(), steps) == s;
    RunManned(Init(), steps);
  }

  /** While a cycle is being swept and the daemon waits, some task of that cycle can move. */
  lemma WaitMakesProgress(s: State)
    requires StaffedReachable(s) && s.run.state == SWEEPING && (s.run.daemon.Joining? || s.run.daemon == Waiting)
    ensures exists t: nat :: t < |s.run.tasks| && s.run.tasks[t].cycle == Cur(s.run) && CanMove(s, t)
  {
    hide Inv, CanMove, HasTask;
    StaffedHasTask(s);
    MovesOn(s);
  }

  lemma MovesOn(s: State)
    requires Inv(s) && s.run.state == SWEEPING && (s.run.daemon.Joining? || s.run.daemon == Waiting) && HasTask(s.run)
    ensures exists t: nat :: t < |s.run.tasks| && s.run.tasks[t].cycle == Cur(s.run) && CanMove(s, t)
  {
    hide EntriesInv, CanMove;
    var t := ActiveTask(s.run);
    TaskCanMove(s, t);
  }

  lemma ActiveTask(r: Protocol) returns (t: nat)
    requires ProtocolInv(r) && r.state == SWEEPING && (r.daemon.Joining? || r.daemon == Waiting) && HasTask(r)
    ensures t < |r.tasks| && r.tasks[t].cycle == Cur(r) && r.tasks[t].pc != Done
  {
    hide DoneOf, TasksOf, Bounds, Log;
    if r.iters[Cur(r)] < SWEEP_PARTITION_COUNT {
      if r.daemon.Joining? {
        t := r.daemon.t;
      } else {
        t :| t < |r.tasks| && r.tasks[t].cycle == Cur(r);
      }
    } else if r.pending == 0 {
      t :| Signalling(r, t);
    } else {
      AllDoneConverse(r.doneNow, SWEEP_PARTITION_COUNT);
      var p: nat :| p < SWEEP_PARTITION_COUNT && p !in r.doneNow;
      assert Claimed(r, p);
      t :| Holds(r, t, p);
      assert Holder(r, t, p);
    }
  }

  lemma {:induction false} AllDoneConverse(done: set<nat>, n: nat)
    requires |done| < n
    ensures exists p: nat :: p < n && p !in done
  {
    if n - 1 in done {
      AllDoneConverse(done - {n - 1}, n - 1);
      var p: nat :| p < n - 1 && p !in done - {n - 1};
      assert p !in done;
    }
  }

  /** Steps of tasks leave the daemon and the cycles alone, and no task changes its cycle. */
  lemma {:induction false} TasksOnly(s: State, steps: seq<Step>)
    requires ValidRun(s, steps) && forall i :: 0 <= i < |steps| ==> OfTask(steps[i])
    ensures var r, r' := s.run, Exec(s, steps).run;
            && r'.daemon == r.daemon && r'.kinds == r.kinds && |r'.tasks| == |r.tasks|
            && forall t :: 0 <= t < |r.tasks| ==> r'.tasks[t].cycle == r.tasks[t].cycle
    decreases |steps|
  {
    hide Permitted, Effect;
    if steps != [] {
      TasksOnly(Apply(s, steps[0]), steps[1..]);
    }
  }

  /** Once the tasks of a cycle have nothing left to do, which takes no more steps than their work, the
      cycle is over and the waiting daemon can go on. */
  lemma CycleCompletes(s: State, steps: seq<Step>)
    requires StaffedReachable(s) && (s.run.daemon.Joining? || s.run.daemon == Waiting)
    requires ValidRun(s, steps) && forall i :: 0 <= i < |steps| ==> OfTask(steps[i])
    requires var s' := Exec(s, steps);
             forall t: nat :: t < |s'.run.tasks| && s'.run.tasks[t].cycle == Cur(s'.run) ==> !CanMove(s', t)
    ensures |s.run.iters| == |s.run.kinds| && |steps| <= Work(s.run)
    ensures Exec(s, steps).run.state != SWEEPING
    ensures s.run.daemon == Waiting ==> Enabled(Exec(s, steps), Proceed)
  {
    hide ValidRun, Exec, CanMove, Work, EntriesInv, Leftovers, Claims, Counts, Log, Bounds;
    StaffedHasTask(s);
    TasksFinish(s, steps);
    RunKeeps(s, steps);
    TasksOnly(s, steps);
    var s' := Exec(s, steps);
    if s'.run.state == SWEEPING {
      Stays(s.run, s'.run);
      MovesOn(s');
      assert false;
    }
    StoreSized(s');
  }

  lemma StoreSized(s: State)
    requires Inv(s)
    ensures Sized(s.store)
  {
  }

  lemma Stays(r: Protocol, r': Protocol)
    requires HasTask(r) && r'.kinds == r.kinds && |r'.tasks| == |r.tasks|
    requires forall t :: 0 <= t < |r.tasks| ==> r'.tasks[t].cycle == r.tasks[t].cycle
    ensures HasTask(r')
  {
  }

  /** Cycle `c` is being swept, but it has no task and none is to be posted. */
  ghost predicate Deserted(r: Protocol, c: nat) {
    && r.state == SWEEPING && Cur(r) == c && r.kinds[c] == Concurrent
    && (r.daemon == Posting(0) || r.daemon == Waiting)
    && forall t :: 0 <= t < |r.tasks| ==> r.tasks[t].cycle != c
  }

  lemma DesertedStep(s: State, step: Step, c: nat)
    requires Inv(s) && Enabled(s, step) && Deserted(s.run, c)
    ensures Deserted(Apply(s, step).run, c)
  {
    hide EntriesInv, DoneOf, TasksOf, Permitted, Effect;
    if step.SignalState? {
      SignalsOwnCycle(s.run, step.t);
    }
  }

  lemma {:induction false} DesertedRun(s: State, steps: seq<Step>, c: nat)
    requires Inv(s) && ValidRun(s, steps) && Deserted(s.run, c)
    ensures Deserted(Exec(s, steps).run, c)
    decreases |steps|
  {
    hide Inv, Enabled, Apply, Deserted;
    if steps != [] {
      StepKeeps(s, steps[0]);
      DesertedStep(s, steps[0], c);
      DesertedRun(Apply(s, steps[0]), steps[1..], c);
    }
  }

  /** A concurrent cycle posted to no task never ends, whatever happens afterwards. */
  lemma NoTaskNeverEnds(s: State, steps: seq<Step>)
    requires Reachable(s) && Enabled(s, Post(Concurrent, 0)) && ValidRun(Apply(s, Post(Concurrent, 0)), steps)
    ensures var s' := Exec(Apply(s, Post(Concurrent, 0)), steps);
            s'.run.state == SWEEPING && |s'.run.kinds| == |s.run.kinds| + 1 && !Enabled(s', Proceed)
  {
    hide Inv, Enabled, Apply, Deserted, ValidRun, Exec;
    ReachableInv(s);
    StepKeeps(s, Post(Concurrent, 0));
    PostDeserts(s);
    DesertedRun(Apply(s, Post(Concurrent, 0)), steps, |s.run.kinds|);
    DesertedWaits(Exec(Apply(s, Post(Concurrent, 0)), steps), |s.run.kinds|);
  }

  lemma PostDeserts(s: State)
    requires Inv(s) && Enabled(s, Post(Concurrent, 0))
    ensures Deserted(Apply(s, Post(Concurrent, 0)).run, |s.run.kinds|)
  {
    hide EntriesInv, Leftovers, Claims, Counts, Control, Log, Permitted, Effect, CounterBound;
  }

  lemma DesertedWaits(s: State, c: nat)
    requires Deserted(s.run, c)
    ensures s.run.state == SWEEPING && |s.run.kinds| == c + 1 && !Enabled(s, Proceed)
  {
    hide Permitted;
  }

  lemma SignalsOwnCycle(r: Protocol, t: nat)
    requires ProtocolInv(r) && t < |r.tasks| && r.tasks[t].pc == Signal
    ensures r.tasks[t].cycle == Cur(r)
  {
    assert Signalling(r, t);
  }

  // ---------------------------------------------------------------------------------------------
  // How many tasks a cycle gets

  /** The tasks of the last cycle, with those that the daemon has still to post or to join as. */
  function Staff(r: Protocol): nat {
    TasksOf(r.tasks, Cur(r)) +
    if r.daemon.Posting? then r.daemon.left + (if r.kinds != [] && r.kinds[Cur(r)] == Parallel then 1 else 0) else 0
  }

  lemma StaffStep(r: Protocol, step: Step)
    requires ProtocolInv(r) && Ready(r, step) && !step.Post?
    ensures Staff(Advance(r, step)) == Staff(r) && Advance(r, step).kinds == r.kinds
  {
    hide TasksOf, DoneOf, Leftovers, Claims, Counts, Log, Bounds;
    if OfTask(step) {
      CountsMoved(r.tasks, step.t, Advance(r, step).tasks[step.t].pc, Cur(r));
    } else if step.PostTask? || step.Join? {
      CountsHired(r.tasks, Task(|r.kinds| - 1, Fetch), Cur(r));
    }
  }

  lemma {:induction false} StaffRun(s: State, steps: seq<Step>)
    requires Inv(s) && ValidRun(s, steps) && forall i :: 0 <= i < |steps| ==> !steps[i].Post?
    ensures Staff(Exec(s, steps).run) == Staff(s.run) && Exec(s, steps).run.kinds == s.run.kinds
    decreases |steps|
  {
    hide ProtocolInv, EntriesInv, Ready, Permitted, Advance, Effect, Staff;
    if steps != [] {
      StepKeeps(s, steps[0]);
      StaffStep(s.run, steps[0]);
      StaffRun(Apply(s, steps[0]), steps[1..]);
    }
  }

  /** Until the next cycle is posted, and once its daemon is past posting, a cycle has exactly the tasks it was posted
      with, and the daemon's own if it is parallel. */
  lemma TasksOfCycle(s: State, kind: Kind, n: nat, steps: seq<Step>)
    requires Reachable(s) && Enabled(s, Post(kind, n)) && ValidRun(Apply(s, Post(kind, n)), steps)
    requires forall i :: 0 <= i < |steps| ==> !steps[i].Post?
    ensures var r := Exec(Apply(s, Post(kind, n)), steps).run;
            && |r.kinds| == |s.run.kinds| + 1 && r.kinds[Cur(r)] == kind
            && (!r.daemon.Posting? ==> TasksOf(r.tasks, Cur(r)) == n + if kind == Parallel then 1 else 0)
  {
    hide Inv, Enabled, Apply, ValidRun, Exec, TasksOf;
    ReachableInv(s);
    StepKeeps(s, Post(kind, n));
    PostStaff(s, kind, n);
    StaffRun(Apply(s, Post(kind, n)), steps);
  }

  lemma PostStaff(s: State, kind: Kind, n: nat)
    requires Inv(s) && Enabled(s, Post(kind, n))
    ensures var r := Apply(s, Post(kind, n)).run;
            r.kinds == s.run.kinds + [kind] && Staff(r) == n + if kind == Parallel then 1 else 0
  {
    hide EntriesInv, TasksOf, DoneOf, Leftovers, Claims, Counts, Control, Log, Permitted, Effect, CounterBound;
    NoTasks(s.run.tasks, |s.run.kinds|);
  }
}
