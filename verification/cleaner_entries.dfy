/** What becomes of the entries of the string table: none is lost, and what a concurrent cycle queues is deleted by the
    next one. */
module CleanerEntries {
  import opened Basics
  import opened StringTableCleaner
  import opened CleanerRuns

  // ---------------------------------------------------------------------------------------------
  // What one step leaves behind

  /** Entry `e` is linked in partition `p`. */
  ghost predicate LinkedAt(m: Store, p: nat, e: Entry) {
    p < |m.table| && e in m.table[p]
  }

  /** Entry `e` waits in the vector of partition `p`. */
  ghost predicate QueuedAt(m: Store, p: nat, e: Entry) {
    p < |m.waitFree| && e in m.waitFree[p]
  }

  ghost predicate HeadAt(m: Store, p: nat, e: Entry) {
    p < |m.waitHeads| && e in m.waitHeads[p]
  }

  /** A concurrent sweep unlinks the dead entries of its partition and queues each of them there, with its cycle; dead
      heads stay linked and wait; nothing is deleted, and nothing else changes. */
  lemma ConcurrentSweepLeaves(s: State, t: nat, dead: seq<Entry>, heads: seq<Entry>, q: nat, e: Entry)
    requires Reachable(s) && Enabled(s, SweepPartition(t, dead, heads)) && s.run.kinds[s.run.tasks[t].cycle] == Concurrent
    ensures var m, m', p := s.store, Apply(s, SweepPartition(t, dead, heads)).store, s.run.tasks[t].pc.p;
            && (LinkedAt(m', q, e) <==> LinkedAt(m, q, e) && e !in dead)
            && (QueuedAt(m', q, e) <==> QueuedAt(m, q, e) || (q == p && e in dead))
            && (HeadAt(m', q, e) <==> HeadAt(m, q, e) || (q == p && e in heads))
            && (e in dead ==> e in m'.queuedIn && m'.queuedIn[e] == (s.run.tasks[t].cycle, p))
            && (e !in dead ==> (e in m'.queuedIn <==> e in m.queuedIn))
            && (e !in dead && e in m.queuedIn ==> m'.queuedIn[e] == m.queuedIn[e])
            && m'.deletions == m.deletions && m'.known == m.known
  {
    hide ProtocolInv;
    ReachableInv(s);
  }

  /** A parallel sweep unlinks the dead entries of its partition and deletes each of them, once. */
  lemma ParallelSweepLeaves(s: State, t: nat, dead: seq<Entry>, q: nat, e: Entry)
    requires Reachable(s) && Enabled(s, SweepPartition(t, dead, [])) && s.run.kinds[s.run.tasks[t].cycle] == Parallel
    ensures var m, m' := s.store, Apply(s, SweepPartition(t, dead, [])).store;
            && (LinkedAt(m', q, e) <==> LinkedAt(m, q, e) && e !in dead)
            && (QueuedAt(m', q, e) <==> QueuedAt(m, q, e)) && (HeadAt(m', q, e) <==> HeadAt(m, q, e))
            && m'.deletions[e] == m.deletions[e] + (if e in dead then 1 else 0) && m'.known == m.known
  {
    hide ProtocolInv;
    ReachableInv(s);
    DistinctOnce(dead, e);
  }

  /** The claimant of a partition deletes each entry queued for it, once, and no other. */
  lemma FreeQueuedLeaves(s: State, t: nat, q: nat, e: Entry)
    requires Reachable(s) && Enabled(s, FreeQueued(t))
    ensures var m, m', p := s.store, Apply(s, FreeQueued(t)).store, s.run.tasks[t].pc.p;
            && (QueuedAt(m', q, e) <==> QueuedAt(m, q, e) && q != p)
            && m'.deletions[e] == m.deletions[e] + (if QueuedAt(m, p, e) then 1 else 0)
            && (QueuedAt(m, p, e) ==> e in m'.deletedIn && m'.deletedIn[e] == (s.run.tasks[t].cycle, p))
            && (LinkedAt(m', q, e) <==> LinkedAt(m, q, e)) && (HeadAt(m', q, e) <==> HeadAt(m, q, e))
            && m'.known == m.known
  {
    hide ProtocolInv;
    ReachableInv(s);
    DistinctOnce(s.store.waitFree[s.run.tasks[t].pc.p], e);
  }

  /** The end of a concurrent cycle unlinks and deletes the heads it frees, once, and no head waits any more. */
  lemma FinishLeaves(s: State, freed: seq<set<Entry>>, q: nat, e: Entry)
    requires Reachable(s) && Enabled(s, Finish(freed))
    ensures var m, m' := s.store, Apply(s, Finish(freed)).store;
            && (LinkedAt(m', q, e) <==> LinkedAt(m, q, e) && e !in freed[q])
            && m'.deletions[e] == m.deletions[e] + (if exists p :: 0 <= p < |freed| && e in freed[p] then 1 else 0)
            && !HeadAt(m', q, e) && (QueuedAt(m', q, e) <==> QueuedAt(m, q, e)) && m'.known == m.known
  {
    hide ProtocolInv, Total;
    ReachableInv(s);
    forall p | 0 <= p < |freed| && e in freed[p] ensures e in s.store.table[p] {
      assert e in s.store.waitHeads[p];
    }
    TotalOnce(freed, e);
    if exists p :: 0 <= p < |freed| && e in freed[p] {
      assert e in Total(freed);
    }
  }

  /** A new entry is linked in its partition, and nothing else changes. */
  lemma InsertLeaves(s: State, p: nat, e: Entry, q: nat, x: Entry)
    requires Reachable(s) && Enabled(s, Insert(p, e))
    ensures var m, m' := s.store, Apply(s, Insert(p, e)).store;
            && (LinkedAt(m', q, x) <==> LinkedAt(m, q, x) || (q == p && x == e))
            && (QueuedAt(m', q, x) <==> QueuedAt(m, q, x)) && (HeadAt(m', q, x) <==> HeadAt(m, q, x))
            && m'.deletions == m.deletions && m'.known == m.known + {e} && e !in m.known
  {
    hide ProtocolInv;
    ReachableInv(s);
  }

  // ---------------------------------------------------------------------------------------------
  // Conservation

  ghost predicate Linked(m: Store, e: Entry) {
    exists p: nat :: LinkedAt(m, p, e)
  }

  ghost predicate Queued(m: Store, e: Entry) {
    exists p: nat :: QueuedAt(m, p, e)
  }

  ghost predicate Kept(m: Store, e: Entry) {
    Linked(m, e) || Queued(m, e) || e in m.deletions
  }

  ghost predicate AllKept(m: Store) {
    forall e :: e in m.known ==> Kept(m, e)
  }

  lemma StepKeepsAll(s: State, step: Step)
    requires Inv(s) && Enabled(s, step) && AllKept(s.store)
    ensures AllKept(Apply(s, step).store)
  {
    hide ProtocolInv, Kept;
    var m, m' := s.store, Apply(s, step).store;
    forall e | e in m'.known ensures Kept(m', e) {
      if e in m.known {
        StepKeepsOne(s, step, e);
      } else {
        assert step.Insert? && step.e == e;
        NewIsLinked(s, step.p, e);
      }
    }
  }

  lemma NewIsLinked(s: State, p: nat, e: Entry)
    requires Inv(s) && Enabled(s, Insert(p, e))
    ensures Kept(Apply(s, Insert(p, e)).store, e)
  {
    hide ProtocolInv;
    assert LinkedAt(Apply(s, Insert(p, e)).store, p, e);
  }

  lemma StepKeepsOne(s: State, step: Step, e: Entry)
    requires Inv(s) && Enabled(s, step) && Kept(s.store, e)
    ensures Kept(Apply(s, step).store, e)
  {
    hide ProtocolInv, LinkedInv, QueueInv, TimeInv, HeadsInv, Total;
    var m, m' := s.store, Apply(s, step).store;
    if p: nat :| LinkedAt(m, p, e) {
      LinkedIsKept(s, step, p, e);
    } else if p: nat :| QueuedAt(m, p, e) {
      assert QueuedAt(m', p, e) || e in m'.deletions;
    } else {
      assert e in m'.deletions;
    }
  }

  lemma LinkedIsKept(s: State, step: Step, p: nat, e: Entry)
    requires Inv(s) && Enabled(s, step) && LinkedAt(s.store, p, e)
    ensures Kept(Apply(s, step).store, e)
  {
    hide ProtocolInv, QueueInv, TimeInv, Total;
    var m, m' := s.store, Apply(s, step).store;
    match step {
      case Finish(freed) =>
        if e in freed[p] {
          forall q | 0 <= q < |freed| && e in freed[q] ensures e in m.table[q] {
          }
          TotalOnce(freed, e);
        } else {
          assert LinkedAt(m', p, e);
        }
      case SweepPartition(t, dead, heads) =>
        if e !in dead {
          assert LinkedAt(m', p, e);
        } else if s.run.kinds[s.run.tasks[t].cycle] == Parallel {
          assert e in multiset(dead);
        } else {
          assert QueuedAt(m', s.run.tasks[t].pc.p, e);
        }
      case _ => assert LinkedAt(m', p, e);
    }
  }

  lemma InitKept()
    ensures AllKept(Init().store)
  {
  }

  lemma {:induction false} RunKeepsAll(s: State, steps: seq<Step>)
    requires Inv(s) && AllKept(s.store) && ValidRun(s, steps)
    ensures AllKept(Exec(s, steps).store)
    decreases |steps|
  {
    hide Inv, Enabled, Apply, AllKept;
    if steps != [] {
      StepKeeps(s, steps[0]);
      StepKeepsAll(s, steps[0]);
      RunKeepsAll(Apply(s, steps[0]), steps[1..]);
    }
  }

  /** In how many ways an entry is accounted for: linked, queued, deleted. */
  ghost function Ways(m: Store, e: Entry): nat {
    (if Linked(m, e) then 1 else 0) + (if Queued(m, e) then 1 else 0) + m.deletions[e]
  }

  /** No entry is lost: in every reachable state each one ever inserted is linked in one partition, or queued in one
      partition, or deleted once, and no two of these. */
  lemma NothingLost(s: State, e: Entry)
    requires Reachable(s)
    ensures e in s.store.known ==> Ways(s.store, e) == 1
    ensures e !in s.store.known ==> Ways(s.store, e) == 0
    ensures forall p: nat, q: nat :: LinkedAt(s.store, p, e) && LinkedAt(s.store, q, e) ==> p == q
    ensures forall p: nat, q: nat :: QueuedAt(s.store, p, e) && QueuedAt(s.store, q, e) ==> p == q
  {
    hide ProtocolInv, TimeInv, HeadsInv, Init;
    ReachableInv(s);
    var steps :| ValidRun(Init(), steps) && Exec(Init(), steps) == s;
    InitInv();
    InitKept();
    RunKeepsAll(Init(), steps);
  }

  // ---------------------------------------------------------------------------------------------
  // The next concurrent cycle deletes what is queued

  /** The last cycle has not freed what is queued for partition `p`. */
  ghost predicate ToBeFreed(r: Protocol, p: nat)
    requires Shape(r) && Cur(r) >= 0
  {
    p >= r.iters[Cur(r)] || exists t: nat :: t < |r.tasks| && r.tasks[t].pc == Free(p)
  }

  /** No cycle after `k` and before `j` is concurrent. */
  ghost predicate NoneBetween(r: Protocol, k: nat, j: int) {
    forall i :: k < i < j && i < |r.kinds| ==> r.kinds[i] == Parallel
  }

  /** No concurrent cycle after the one that queued entry `e` has freed it. */
  ghost predicate StillQueued(r: Protocol, k: nat, p: nat)
    requires Shape(r)
  {
    && NoneBetween(r, k, Cur(r))
    && (k < Cur(r) && r.kinds[Cur(r)] == Concurrent ==> ToBeFreed(r, p))
  }

  ghost predicate Drains(s: State)
    requires Shape(s.run)
  {
    forall e :: e in s.store.queuedIn ==>
      var (k, p) := s.store.queuedIn[e];
      if e in s.store.deletedIn then NoneBetween(s.run, k, s.store.deletedIn[e].0) else StillQueued(s.run, k, p)
  }

  lemma ShapeOf(s: State)
    requires Inv(s)
    ensures Shape(s.run)
  {
  }

  /** A step that does not free partition `p` leaves it to be freed. */
  lemma StillQueuedStep(s: State, step: Step, k: nat, p: nat)
    requires Inv(s) && Enabled(s, step) && p < SWEEP_PARTITION_COUNT && k < |s.run.kinds|
    requires Shape(s.run) && StillQueued(s.run, k, p)
    requires step.FreeQueued? ==> s.run.tasks[step.t].pc != Free(p)
    ensures Shape(Advance(s.run, step)) && StillQueued(Advance(s.run, step), k, p)
  {
    hide EntriesInv, Permitted, Leftovers, Claims, Counts, Log, Bounds, Advance, ToBeFreed;
    var r, r' := s.run, Advance(s.run, step);
    AdvanceKeeps(r, step);
    if step.Post? {
      PostQueued(r, step, k, p);
    } else {
      SameCycles(r, step);
      if k < Cur(r) && r.kinds[Cur(r)] == Concurrent {
        StaysToBeFreed(r, step, p);
      }
    }
  }

  lemma SameCycles(r: Protocol, step: Step)
    requires Ready(r, step) && !step.Post?
    ensures Advance(r, step).kinds == r.kinds
  {
  }

  /** A new cycle starts only when the last one has freed everything that was queued before it. */
  lemma PostQueued(r: Protocol, step: Step, k: nat, p: nat)
    requires ProtocolInv(r) && Ready(r, step) && step.Post? && k < |r.kinds| && p < SWEEP_PARTITION_COUNT
    requires StillQueued(r, k, p)
    ensures Shape(Advance(r, step)) && StillQueued(Advance(r, step), k, p)
  {
    hide DoneOf, TasksOf, Log, CounterBound, Leftovers;
    Settled(r);
    NoneToBeFreed(r, p);
  }

  lemma NoneToBeFreed(r: Protocol, p: nat)
    requires Shape(r) && Cur(r) >= 0 && p < SWEEP_PARTITION_COUNT <= r.iters[Cur(r)]
    requires forall t: nat, p: nat :: !Holds(r, t, p)
    ensures !ToBeFreed(r, p)
  {
    forall t: nat | t < |r.tasks| ensures r.tasks[t].pc != Free(p) {
      assert !Holds(r, t, p);
    }
  }

  lemma StaysToBeFreed(r: Protocol, step: Step, p: nat)
    requires ProtocolInv(r) && Ready(r, step) && !step.Post? && Cur(r) >= 0 && p < SWEEP_PARTITION_COUNT
    requires r.kinds[Cur(r)] == Concurrent && ToBeFreed(r, p)
    requires step.FreeQueued? ==> r.tasks[step.t].pc != Free(p)
    ensures Shape(Advance(r, step)) && Cur(Advance(r, step)) == Cur(r) && ToBeFreed(Advance(r, step), p)
  {
    hide Log, Claims, Counts, Control, Leftovers, CounterBound;
    var r' := Advance(r, step);
    if step.FetchNext? {
      NoWrap(r, step.t);
    }
    if p < r.iters[Cur(r)] {
      var t: nat :| t < |r.tasks| && r.tasks[t].pc == Free(p);
      assert r'.tasks[t].pc == Free(p);
    } else if p < r'.iters[Cur(r)] {
      assert r'.tasks[step.t].pc == Free(p);
    }
  }

  lemma NoneBetweenGrows(r: Protocol, r': Protocol, k: nat, j: nat)
    requires NoneBetween(r, k, j) && j < |r.kinds| && r.kinds <= r'.kinds
    ensures NoneBetween(r', k, j)
  {
  }

  lemma KindsGrow(r: Protocol, step: Step)
    requires Ready(r, step)
    ensures r.kinds <= Advance(r, step).kinds
  {
  }

  lemma StepDrains(s: State, step: Step)
    requires Inv(s) && Enabled(s, step) && Shape(s.run) && Drains(s)
    ensures Shape(Apply(s, step).run) && Drains(Apply(s, step))
  {
    StepKeeps(s, step);
    ShapeOf(Apply(s, step));
    KindsGrow(s.run, step);
    var s' := Apply(s, step);
    forall e | e in s'.store.queuedIn
      ensures var (k, p) := s'.store.queuedIn[e];
              if e in s'.store.deletedIn then NoneBetween(s'.run, k, s'.store.deletedIn[e].0)
              else StillQueued(s'.run, k, p)
    {
      if e in s.store.queuedIn {
        OldDrains(s, step, e);
      } else {
        NewDrains(s, step, e);
      }
    }
  }

  /** An entry that was queued before the step. */
  lemma OldDrains(s: State, step: Step, e: Entry)
    requires Inv(s) && Enabled(s, step) && Shape(s.run) && Drains(s) && e in s.store.queuedIn
    ensures Shape(Apply(s, step).run) && e in Apply(s, step).store.queuedIn
    ensures var s' := Apply(s, step);
            var (k, p) := s'.store.queuedIn[e];
            if e in s'.store.deletedIn then NoneBetween(s'.run, k, s'.store.deletedIn[e].0)
            else StillQueued(s'.run, k, p)
  {
    hide ProtocolInv, HeadsInv, Advance, StillQueued, NoneBetween, Total, Shape;
    StepKeeps(s, step);
    ShapeOf(Apply(s, step));
    KindsGrow(s.run, step);
    var m, m' := s.store, Apply(s, step).store;
    var (k, p) := m.queuedIn[e];
    assert m'.queuedIn[e] == m.queuedIn[e] by {
      QueuedStays(s, step, e);
    }
    if e in m.deletedIn {
      assert m'.deletedIn[e] == m.deletedIn[e] by {
        DeletedStays(s, step, e);
      }
      NoneBetweenGrows(s.run, Apply(s, step).run, k, m.deletedIn[e].0);
    } else if step.FreeQueued? && s.run.tasks[step.t].pc == Free(p) {
      FreedNow(s, step.t, e);
    } else {
      NotFreedNow(s, step, e);
      StillQueuedStep(s, step, k, p);
    }
  }

  lemma QueuedStays(s: State, step: Step, e: Entry)
    requires Inv(s) && Enabled(s, step) && e in s.store.queuedIn
    ensures e in Apply(s, step).store.queuedIn && Apply(s, step).store.queuedIn[e] == s.store.queuedIn[e]
  {
    hide ProtocolInv, HeadsInv, TimeInv, Advance, Total;
  }

  lemma DeletedStays(s: State, step: Step, e: Entry)
    requires Inv(s) && Enabled(s, step) && e in s.store.deletedIn
    ensures e in Apply(s, step).store.deletedIn && Apply(s, step).store.deletedIn[e] == s.store.deletedIn[e]
  {
    hide ProtocolInv, HeadsInv, TimeInv, LinkedInv, Advance, Total;
  }

  lemma FreedNow(s: State, t: nat, e: Entry)
    requires Inv(s) && Enabled(s, FreeQueued(t)) && Shape(s.run) && Drains(s)
    requires e in s.store.queuedIn && e !in s.store.deletedIn && s.run.tasks[t].pc == Free(s.store.queuedIn[e].1)
    ensures var s' := Apply(s, FreeQueued(t));
            e in s'.store.deletedIn && NoneBetween(s'.run, s.store.queuedIn[e].0, s'.store.deletedIn[e].0)
  {
    hide ProtocolInv, HeadsInv, LinkedInv, Total, Shape;
    HolderFacts(s.run, t, s.store.queuedIn[e].1);
  }

  lemma NotFreedNow(s: State, step: Step, e: Entry)
    requires Inv(s) && Enabled(s, step) && e in s.store.queuedIn && e !in s.store.deletedIn
    requires step.FreeQueued? ==> s.run.tasks[step.t].pc != Free(s.store.queuedIn[e].1)
    ensures e !in Apply(s, step).store.deletedIn
  {
    hide ProtocolInv, HeadsInv, TimeInv, LinkedInv, Advance, Total;
  }

  /** An entry that the step queues. */
  lemma NewDrains(s: State, step: Step, e: Entry)
    requires Inv(s) && Enabled(s, step) && e !in s.store.queuedIn && e in Apply(s, step).store.queuedIn
    ensures Shape(Apply(s, step).run) && e !in Apply(s, step).store.deletedIn
    ensures var s' := Apply(s, step);
            StillQueued(s'.run, s'.store.queuedIn[e].0, s'.store.queuedIn[e].1)
  {
    hide HeadsInv, TimeInv, LinkedInv, Total, DoneOf, TasksOf, Log, CounterBound, Counts, Control, Leftovers;
    assert step.SweepPartition?;
    assert Holds(s.run, step.t, s.run.tasks[step.t].pc.p);
  }

  lemma {:induction false} RunDrains(s: State, steps: seq<Step>)
    requires Inv(s) && Shape(s.run) && Drains(s) && ValidRun(s, steps)
    ensures Shape(Exec(s, steps).run) && Drains(Exec(s, steps))
    decreases |steps|
  {
    hide Inv, Enabled, Apply, Drains, Shape;
    if steps != [] {
      StepKeeps(s, steps[0]);
      StepDrains(s, steps[0]);
      RunDrains(Apply(s, steps[0]), steps[1..]);
    }
  }

  /** What a concurrent cycle queues is deleted, once, by the next concurrent cycle: when any later concurrent cycle is
      over, the entry has been deleted, in the first of them. */
  lemma QueuedThenDeleted(s: State, e: Entry, j: nat)
    requires Reachable(s) && e in s.store.queuedIn
    requires s.store.queuedIn[e].0 < j < |s.run.kinds| && s.run.kinds[j] == Concurrent
    requires j < Cur(s.run) || s.run.state != SWEEPING
    ensures s.store.deletions[e] == 1 && e in s.store.deletedIn
    ensures s.store.queuedIn[e].0 < s.store.deletedIn[e].0 <= j
    ensures forall i :: s.store.queuedIn[e].0 < i < s.store.deletedIn[e].0 && i < |s.run.kinds| ==>
              s.run.kinds[i] == Parallel
  {
    hide ProtocolInv, LinkedInv, HeadsInv, Init, ValidRun, Exec, StillQueued, Shape;
    ReachableInv(s);
    InitInv();
    var steps :| ValidRun(Init(), steps) && Exec(Init(), steps) == s;
    InitDrains();
    RunDrains(Init(), steps);
    var (k, p) := s.store.queuedIn[e];
    NotStillQueued(s.run, k, p, j);
    assert e in s.store.deletedIn;
  }

  lemma NotStillQueued(r: Protocol, k: nat, p: nat, j: nat)
    requires ProtocolInv(r) && p < SWEEP_PARTITION_COUNT && k < j < |r.kinds| && r.kinds[j] == Concurrent
    requires j < Cur(r) || r.state != SWEEPING
    ensures Shape(r) && !StillQueued(r, k, p)
  {
    hide DoneOf, TasksOf, Log, CounterBound, Leftovers, ToBeFreed;
    if j == Cur(r) {
      Settled(r);
      NoneToBeFreed(r, p);
    }
  }

  lemma InitDrains()
    ensures Shape(Init().run) && Drains(Init())
  {
  }
}
