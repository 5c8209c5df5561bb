/** Whole runs of the global storage against a plain record of what was issued.

    The record numbers handles in the order in which they were issued and says of each what it refers
    to while it is live, which addresses are young, and which entries the young list names.  It knows
    nothing of blocks, lists or reuse of slots. */
module HandleRuns {
  import opened Basics
  import opened HandleBlock
  import opened HandlePool
  import opened GlobalStorage

  datatype Kind = Normal | Unified | Weak

  datatype Entry = Entry(kind: Kind, value: Value)

  type Table = seq<Option<Entry>>

  /** `young` holds the addresses in young regions, `listed` the entries that the young list names, and
      `retained` the normal entries disposed since the last collection, whose memory is still there. */
  datatype State = State(table: Table, young: set<int>, listed: set<nat>, retained: set<nat>)

  /** Operations name a handle by its number. */
  datatype Op =
    | New(value: Value)
    | NewUnified(value: Value)
    | Dispose(n: nat)
    | SetWeak(n: nat)
    | ClearWeak(n: nat)
    | Allocate(addresses: set<int>)
    | Age(gone: set<int>)
    | FinishYoungCollection
    | FinishFullCollection

  predicate IsLive(t: Table, n: nat) {
    n < |t| && t[n].Some?
  }

  predicate IsLocal(t: Table, n: nat) {
    IsLive(t, n) && t[n].value.kind != Unified
  }

  predicate Holds(t: Table, kind: Kind, n: nat) {
    n < |t| && t[n].Some? && t[n].value.kind == kind
  }

  predicate RefersInto(v: Value, addresses: set<int>) {
    v.HeapObject? && v.address in addresses
  }

  /** No live normal entry refers to one of the addresses. */
  predicate Unreferenced(t: Table, addresses: set<int>) {
    forall n: nat :: n < |t| && Holds(t, Normal, n) ==> !RefersInto(t[n].value.value, addresses)
  }

  /** Entry `n` is live, normal, and refers to a young object. */
  predicate LiveYoung(s: State, n: nat) {
    Holds(s.table, Normal, n) && RefersInto(s.table[n].value.value, s.young)
  }

  /** The state with a new last entry. */
  function Issue(s: State, e: Entry): State {
    var listed := if e.kind == Normal && RefersInto(e.value, s.young) then s.listed + {|s.table|} else s.listed;
    s.(table := s.table + [Some(e)], listed := listed)
  }

  function Drop(s: State, n: nat): State
    requires IsLive(s.table, n)
  {
    var retained := if s.table[n].value.kind == Normal then s.retained + {n} else s.retained;
    s.(table := s.table[n := None], retained := retained)
  }

  /** What an operation does to the state.  Callers set weak only handles that are live.  New objects
      appear only where no live entry refers to, and a full collection ends with no young object in use. */
  function Step(s: State, op: Op): State {
    match op
    case New(v) => Issue(s, Entry(Normal, v))
    case NewUnified(v) => Issue(s, Entry(Unified, v))
    case Dispose(n) => if IsLive(s.table, n) then Drop(s, n) else s
    case SetWeak(n) => if IsLocal(s.table, n) then Issue(Drop(s, n), Entry(Weak, s.table[n].value.value)) else s
    case ClearWeak(n) => if IsLocal(s.table, n) then Issue(Drop(s, n), Entry(Normal, s.table[n].value.value)) else s
    case Allocate(addresses) => if Unreferenced(s.table, addresses) then s.(young := s.young + addresses) else s
    case Age(gone) => s.(young := s.young - gone)
    case FinishYoungCollection => s.(listed := (set n | n in s.listed && LiveYoung(s, n)), retained := {})
    case FinishFullCollection => if Unreferenced(s.table, s.young) then s.(listed := {}, retained := {}) else s
  }

  function Run(ops: seq<Op>): State {
    if ops == [] then State([], {}, {}, {}) else Step(Run(ops[..|ops| - 1]), ops[|ops| - 1])
  }

  /** Every live normal entry that refers to a young object is listed. */
  ghost predicate Covers(s: State) {
    forall n: nat :: LiveYoung(s, n) ==> n in s.listed
  }

  lemma StepCovers(s: State, op: Op)
    requires Covers(s)
    ensures Covers(Step(s, op))
  {
    var s' := Step(s, op);
    forall n: nat | LiveYoung(s', n) ensures n in s'.listed {
      assert n < |s.table| && Holds(s.table, Normal, n) ==> s'.table[n] == s.table[n];
    }
  }

  lemma {:induction false} RunCovers(ops: seq<Op>)
    ensures Covers(Run(ops))
  {
    if ops != [] {
      RunCovers(ops[..|ops| - 1]);
      StepCovers(Run(ops[..|ops| - 1]), ops[|ops| - 1]);
    }
  }

  /** After a young collection the list names the live normal entries to young objects and no others. */
  lemma ListedAfterCollection(ops: seq<Op>, n: nat)
    requires ops != [] && ops[|ops| - 1] == FinishYoungCollection
    ensures n in Run(ops).listed <==> LiveYoung(Run(ops), n)
  {
    RunCovers(ops[..|ops| - 1]);
  }

  /** The number of entries of one kind. */
  function Count(t: Table, kind: Kind): nat {
    if t == [] then 0
    else Count(t[..|t| - 1], kind) +
         (if t[|t| - 1].Some? && t[|t| - 1].value.kind == kind then 1 else 0)
  }

  lemma CountAdd(t: Table, e: Entry, kind: Kind)
    ensures Count(t + [Some(e)], kind) == Count(t, kind) + if e.kind == kind then 1 else 0
  {
    assert (t + [Some(e)])[..|t|] == t;
  }

  lemma {:induction false} CountDrop(t: Table, k: nat, kind: Kind)
    requires k < |t|
    ensures Count(t[k := None], kind) == Count(t, kind) - if Holds(t, kind, k) then 1 else 0
  {
    var t' := t[k := None];
    if k == |t| - 1 {
      assert t'[..k] == t[..k];
    } else {
      CountDrop(t[..|t| - 1], k, kind);
      assert t'[..|t| - 1] == t[..|t| - 1][k := None];
    }
  }

  /** Entry `n` is of the kind, live, and was issued as `h`. */
  ghost predicate Issued(issued: seq<Handle>, t: Table, kind: Kind, n: nat, older h: Handle) {
    Holds(t, kind, n) && n < |issued| && issued[n] == h
  }

  /** A pool's live handles are the table's entries of one kind, one for one. */
  ghost predicate Agrees(live: map<Handle, Value>, issued: seq<Handle>, t: Table, kind: Kind) {
    && |issued| == |t|
    && (forall n: nat, h :: Issued(issued, t, kind, n, h) ==> h in live && live[h] == t[n].value.value)
    && (forall m: nat, n: nat, h :: Issued(issued, t, kind, m, h) && Issued(issued, t, kind, n, h) ==> m == n)
    && (forall h :: h in live ==> exists n: nat :: Issued(issued, t, kind, n, h))
    && |live| == Count(t, kind)
  }

  lemma AgreesAdd(live: map<Handle, Value>, issued: seq<Handle>, t: Table, kind: Kind, h: Handle, v: Value)
    requires Agrees(live, issued, t, kind) && h !in live
    ensures Agrees(live[h := v], issued + [h], t + [Some(Entry(kind, v))], kind)
  {
    hide Count;
    var t', issued' := t + [Some(Entry(kind, v))], issued + [h];
    CountAdd(t, Entry(kind, v), kind);
    forall n: nat, x | Issued(issued', t', kind, n, x) ensures Issued(issued, t, kind, n, x) || (n == |t| && x == h) {
    }
    forall n: nat, x | Issued(issued, t, kind, n, x) ensures Issued(issued', t', kind, n, x) {
    }
    assert Issued(issued', t', kind, |t|, h);
  }

  lemma AgreesOther(live: map<Handle, Value>, issued: seq<Handle>, t: Table, kind: Kind, h: Handle, e: Entry)
    requires Agrees(live, issued, t, kind) && e.kind != kind
    ensures Agrees(live, issued + [h], t + [Some(e)], kind)
  {
    hide Count;
    CountAdd(t, e, kind);
    var t', issued' := t + [Some(e)], issued + [h];
    forall n: nat, x | Issued(issued', t', kind, n, x) ensures Issued(issued, t, kind, n, x) {
    }
    forall n: nat, x | Issued(issued, t, kind, n, x) ensures Issued(issued', t', kind, n, x) {
    }
  }

  lemma AgreesDrop(live: map<Handle, Value>, issued: seq<Handle>, t: Table, kind: Kind, k: nat)
    requires Agrees(live, issued, t, kind) && Holds(t, kind, k)
    ensures Agrees(live - {issued[k]}, issued, t[k := None], kind)
  {
    hide Count;
    CountDrop(t, k, kind);
    assert Issued(issued, t, kind, k, issued[k]);
    var t' := t[k := None];
    forall n: nat, x | Issued(issued, t', kind, n, x) ensures Issued(issued, t, kind, n, x) && n != k {
    }
    forall n: nat, x | Issued(issued, t, kind, n, x) ensures n != k ==> Issued(issued, t', kind, n, x) {
    }
  }

  lemma AgreesKeep(live: map<Handle, Value>, issued: seq<Handle>, t: Table, kind: Kind, k: nat)
    requires Agrees(live, issued, t, kind) && k < |t| && !Holds(t, kind, k)
    ensures Agrees(live, issued, t[k := None], kind)
  {
    hide Count;
    CountDrop(t, k, kind);
    var t' := t[k := None];
    forall n: nat, x | Issued(issued, t', kind, n, x) ensures Issued(issued, t, kind, n, x) {
    }
    forall n: nat, x | Issued(issued, t, kind, n, x) ensures Issued(issued, t', kind, n, x) {
    }
  }

  /** The largest number of handles of one kind that were live at once. */
  function Peak(ops: seq<Op>, kind: Kind): nat {
    if ops == [] then 0 else Max(Peak(ops[..|ops| - 1], kind), Count(Run(ops).table, kind))
  }

  ghost function PoolOf(storage: EcmaGlobalStorage, kind: Kind): Pool
    reads storage
  {
    match kind
    case Normal => storage.normal
    case Unified => storage.xref
    case Weak => storage.weak
  }

  datatype Peaks = Peaks(normal: nat, unified: nat, weak: nat)

  ghost function PeaksOf(storage: EcmaGlobalStorage): Peaks
    reads storage.normal`peak, storage.xref`peak, storage.weak`peak
  {
    Peaks(storage.normal.peak, storage.xref.peak, storage.weak.peak)
  }

  /** No peak grew beyond what the table now holds. */
  ghost predicate PeaksWithin(now: Peaks, was: Peaks, t: Table) {
    && now.normal <= Max(was.normal, Count(t, Normal))
    && now.unified <= Max(was.unified, Count(t, Unified))
    && now.weak <= Max(was.weak, Count(t, Weak))
  }

  /** At most one peak grew, and to the number of entries of its kind. */
  lemma OnePeakGrew(now: Peaks, was: Peaks, t: Table, kind: Kind, count: nat)
    requires count == Count(t, kind)
    requires now == match kind
                    case Normal => was.(normal := Max(was.normal, count))
                    case Unified => was.(unified := Max(was.unified, count))
                    case Weak => was.(weak := Max(was.weak, count))
    ensures PeaksWithin(now, was, t)
  {
    hide Count;
  }

  ghost predicate PeaksOfRun(peaks: Peaks, ops: seq<Op>) {
    peaks.normal <= Peak(ops, Normal) && peaks.unified <= Peak(ops, Unified) && peaks.weak <= Peak(ops, Weak)
  }

  ghost predicate Matches(storage: EcmaGlobalStorage, issued: seq<Handle>, t: Table)
    reads storage.normal`live, storage.xref`live, storage.weak`live
  {
    && Agrees(storage.normal.live, issued, t, Normal)
    && Agrees(storage.xref.live, issued, t, Unified)
    && Agrees(storage.weak.live, issued, t, Weak)
  }

  /** Entry `n` is listed and was issued as `h`. */
  ghost predicate ListedAs(issued: seq<Handle>, listed: set<nat>, n: nat, older h: Handle) {
    n in listed && n < |issued| && issued[n] == h
  }

  /** The young list holds the handles of the listed entries and no others. */
  ghost predicate ListAgrees(young: seq<Handle>, issued: seq<Handle>, listed: set<nat>) {
    && (forall n :: n in listed ==> n < |issued|)
    && (forall n: nat, h :: ListedAs(issued, listed, n, h) ==> h in young)
    && (forall h :: h in young ==> exists n: nat :: ListedAs(issued, listed, n, h))
  }

  lemma ListIssue(young: seq<Handle>, issued: seq<Handle>, listed: set<nat>, h: Handle)
    requires ListAgrees(young, issued, listed)
    ensures ListAgrees(young, issued + [h], listed)
    ensures ListAgrees(if h in young then young else young + [h], issued + [h], listed + {|issued|})
  {
    var issued', listed' := issued + [h], listed + {|issued|};
    forall n: nat, x | ListedAs(issued, listed, n, x)
      ensures ListedAs(issued', listed, n, x) && ListedAs(issued', listed', n, x)
    {
    }
    forall n: nat, x | ListedAs(issued', listed', n, x) ensures ListedAs(issued, listed, n, x) || x == h {
    }
    assert ListedAs(issued', listed', |issued|, h);
    assert forall x :: x in young + [h] ==> x in young || x == h;
  }

  /** A young collection keeps the listed handles that are live and refer to a young object. */
  lemma ListCollected(young: seq<Handle>, young': seq<Handle>, live: map<Handle, Value>, issued: seq<Handle>, s: State)
    requires ListAgrees(young, issued, s.listed) && Agrees(live, issued, s.table, Normal) && Covers(s)
    requires forall h :: h in young' ==> h in young && h in live && RefersInto(live[h], s.young)
    requires forall h :: h in young && h in live && RefersInto(live[h], s.young) ==> h in young'
    ensures ListAgrees(young', issued, Step(s, FinishYoungCollection).listed)
  {
    hide Count;
    var listed' := Step(s, FinishYoungCollection).listed;
    forall n: nat, h | ListedAs(issued, listed', n, h) ensures h in young' {
      assert ListedAs(issued, s.listed, n, h) && Issued(issued, s.table, Normal, n, h);
    }
    forall h | h in young' ensures exists n: nat :: ListedAs(issued, listed', n, h) {
      var n: nat :| Issued(issued, s.table, Normal, n, h);
      assert LiveYoung(s, n) && ListedAs(issued, listed', n, h);
    }
  }

  /** The retained entries were issued as slots of the given blocks. */
  ghost predicate RetainedIn(blocks: set<NodeList>, issued: seq<Handle>, retained: set<nat>) {
    forall n :: n in retained ==> n < |issued| && issued[n].0 in blocks && issued[n].1 < GLOBAL_BLOCK_SIZE
  }

  lemma RetainedMore(blocks: set<NodeList>, issued: seq<Handle>, retained: set<nat>, n: nat,
                     blocks': set<NodeList>, issued': seq<Handle>)
    requires RetainedIn(blocks, issued, retained) && blocks <= blocks' && issued <= issued'
    ensures RetainedIn(blocks', issued', retained)
    ensures n < |issued| && issued[n].0 in blocks && issued[n].1 < GLOBAL_BLOCK_SIZE ==>
              RetainedIn(blocks', issued', retained + {n})
  {
  }

  /** The part of the storage that the table does not show. */
  ghost predicate Follows(storage: EcmaGlobalStorage, issued: seq<Handle>, s: State)
    reads storage`young, storage`youngSpace, storage`deferred, storage.normal`repr
  {
    && storage.youngSpace == s.young
    && ListAgrees(storage.young, issued, s.listed)
    && RetainedIn(storage.normal.repr + storage.deferred, issued, s.retained)
  }

  ghost predicate Simulates(storage: EcmaGlobalStorage, issued: seq<Handle>, s: State)
    reads storage`young, storage`youngSpace, storage`deferred, storage.normal`repr
    reads storage.normal`live, storage.xref`live, storage.weak`live
  {
    Matches(storage, issued, s.table) && Follows(storage, issued, s) && Covers(s)
  }

  ghost function Footprint(storage: EcmaGlobalStorage): set<object>
    reads storage, storage.normal, storage.xref, storage.weak
  {
    {storage, storage.allocator, storage.normal, storage.xref, storage.weak} +
    storage.normal.repr + storage.xref.repr + storage.weak.repr + storage.deferred
  }

  /** A new last entry, when the pool of its kind gained that handle. */
  lemma MatchesIssue(normal: map<Handle, Value>, xref: map<Handle, Value>, weak: map<Handle, Value>,
                     issued: seq<Handle>, t: Table, e: Entry, h: Handle)
    requires Agrees(normal, issued, t, Normal) && Agrees(xref, issued, t, Unified) && Agrees(weak, issued, t, Weak)
    requires h !in match e.kind case Normal => normal case Unified => xref case Weak => weak
    ensures var t', issued' := t + [Some(e)], issued + [h];
            && Agrees(if e.kind == Normal then normal[h := e.value] else normal, issued', t', Normal)
            && Agrees(if e.kind == Unified then xref[h := e.value] else xref, issued', t', Unified)
            && Agrees(if e.kind == Weak then weak[h := e.value] else weak, issued', t', Weak)
  {
    hide Agrees, Count;
    if e.kind == Normal {
      AgreesAdd(normal, issued, t, Normal, h, e.value);
    } else {
      AgreesOther(normal, issued, t, Normal, h, e);
    }
    if e.kind == Unified {
      AgreesAdd(xref, issued, t, Unified, h, e.value);
    } else {
      AgreesOther(xref, issued, t, Unified, h, e);
    }
    if e.kind == Weak {
      AgreesAdd(weak, issued, t, Weak, h, e.value);
    } else {
      AgreesOther(weak, issued, t, Weak, h, e);
    }
  }

  method ApplyNew(storage: EcmaGlobalStorage, issued: seq<Handle>, ghost s: State, v: Value)
    returns (issued': seq<Handle>)
    requires storage.Valid() && Matches(storage, issued, s.table) && Follows(storage, issued, s)
    modifies Footprint(storage)
    ensures storage.Valid() && Matches(storage, issued', s.table + [Some(Entry(Normal, v))])
    ensures Follows(storage, issued', Issue(s, Entry(Normal, v)))
    ensures fresh(Footprint(storage) - old(Footprint(storage)))
    ensures PeaksWithin(PeaksOf(storage), old(PeaksOf(storage)), s.table + [Some(Entry(Normal, v))])
  {
    hide EcmaGlobalStorage.Valid, Agrees, Count, ListAgrees, RetainedIn, PeaksWithin, Max;
    ghost var t, e, young, blocks := s.table, Entry(Normal, v), storage.young, storage.normal.repr + storage.deferred;
    ghost var was := PeaksOf(storage);
    var h := storage.NewGlobalHandle(v);
    MatchesIssue(old(storage.normal.live), storage.xref.live, storage.weak.live, issued, t, e, h);
    issued' := issued + [h];
    AgreesSize(storage.normal.live, issued', t + [Some(e)], Normal);
    ListIssue(young, issued, s.listed, h);
    RetainedMore(blocks, issued, s.retained, 0, storage.normal.repr + storage.deferred, issued');
    assert Follows(storage, issued', Issue(s, e));
    OnePeakGrew(PeaksOf(storage), was, t + [Some(e)], Normal, |storage.normal.live|);
  }

  method ApplyNewUnified(storage: EcmaGlobalStorage, issued: seq<Handle>, ghost s: State, v: Value)
    returns (issued': seq<Handle>)
    requires storage.Valid() && Matches(storage, issued, s.table) && Follows(storage, issued, s)
    modifies Footprint(storage)
    ensures storage.Valid() && Matches(storage, issued', s.table + [Some(Entry(Unified, v))])
    ensures Follows(storage, issued', Issue(s, Entry(Unified, v)))
    ensures fresh(Footprint(storage) - old(Footprint(storage)))
    ensures PeaksWithin(PeaksOf(storage), old(PeaksOf(storage)), s.table + [Some(Entry(Unified, v))])
  {
    hide EcmaGlobalStorage.Valid, Agrees, Count, ListAgrees, RetainedIn, PeaksWithin, Max;
    ghost var t, e, blocks := s.table, Entry(Unified, v), storage.normal.repr + storage.deferred;
    ghost var was := PeaksOf(storage);
    var h := storage.NewUnifiedHandle(v);
    MatchesIssue(storage.normal.live, old(storage.xref.live), storage.weak.live, issued, t, e, h);
    issued' := issued + [h];
    AgreesSize(storage.xref.live, issued', t + [Some(e)], Unified);
    ListIssue(storage.young, issued, s.listed, h);
    RetainedMore(blocks, issued, s.retained, 0, blocks, issued');
    OnePeakGrew(PeaksOf(storage), was, t + [Some(e)], Unified, |storage.xref.live|);
  }

  lemma AgreesSize(live: map<Handle, Value>, issued: seq<Handle>, t: Table, kind: Kind)
    requires Agrees(live, issued, t, kind)
    ensures |issued| == |t| && |live| == Count(t, kind)
  {
  }

  lemma AgreesAt(live: map<Handle, Value>, issued: seq<Handle>, t: Table, kind: Kind, n: nat)
    requires Agrees(live, issued, t, kind) && Holds(t, kind, n)
    ensures n < |issued| && issued[n] in live && live[issued[n]] == t[n].value.value
  {
    assert Issued(issued, t, kind, n, issued[n]);
  }

  /** Dropping a live entry, when each pool lost that handle. */
  lemma MatchesDrop(normal: map<Handle, Value>, xref: map<Handle, Value>, weak: map<Handle, Value>,
                    issued: seq<Handle>, t: Table, n: nat)
    requires Agrees(normal, issued, t, Normal) && Agrees(xref, issued, t, Unified) && Agrees(weak, issued, t, Weak)
    requires IsLive(t, n) && |issued| == |t|
    requires t[n].value.kind == Normal ==> issued[n] !in weak
    requires t[n].value.kind == Weak ==> issued[n] !in normal
    ensures var t', h := t[n := None], issued[n];
            if t[n].value.kind == Unified then
              Agrees(normal, issued, t', Normal) && Agrees(xref - {h}, issued, t', Unified)
              && Agrees(weak, issued, t', Weak)
            else
              Agrees(normal - {h}, issued, t', Normal) && Agrees(xref, issued, t', Unified)
              && Agrees(weak - {h}, issued, t', Weak)
  {
    hide Agrees, Count;
    var h, kind := issued[n], t[n].value.kind;
    assert h !in weak ==> weak - {h} == weak;
    assert h !in normal ==> normal - {h} == normal;
    match kind {
      case Normal =>
        AgreesAt(normal, issued, t, Normal, n);
        AgreesDrop(normal, issued, t, Normal, n);
        AgreesKeep(xref, issued, t, Unified, n);
        AgreesKeep(weak, issued, t, Weak, n);
      case Unified =>
        AgreesKeep(normal, issued, t, Normal, n);
        AgreesDrop(xref, issued, t, Unified, n);
        AgreesKeep(weak, issued, t, Weak, n);
      case Weak =>
        AgreesKeep(normal, issued, t, Normal, n);
        AgreesKeep(xref, issued, t, Unified, n);
        AgreesDrop(weak, issued, t, Weak, n);
    }
  }

  /** What the table says about a live entry is what the storage says about its handle. */
  lemma EntryHandle(storage: EcmaGlobalStorage, issued: seq<Handle>, t: Table, n: nat)
    requires storage.Valid() && Matches(storage, issued, t) && IsLive(t, n)
    ensures n < |issued|
    ensures var h: Handle, e := issued[n], t[n].value;
            match e.kind
            case Normal => h in storage.normal.live && storage.normal.live[h] == e.value && h !in storage.weak.live
                           && h.0 in storage.normal.repr && h.1 < |h.0.nodes| == GLOBAL_BLOCK_SIZE
            case Unified => h in storage.xref.live && storage.xref.live[h] == e.value
                            && h.0 in storage.xref.repr && h.1 < |h.0.nodes|
            case Weak => h in storage.weak.live && storage.weak.live[h] == e.value && h !in storage.normal.live
                         && h.0 in storage.weak.repr && h.1 < |h.0.nodes|
  {
    hide EcmaGlobalStorage.SoundFor, Count;
    var h := issued[n];
    assert Issued(issued, t, t[n].value.kind, n, h);
    if t[n].value.kind == Unified {
      storage.UnifiedBlock(h);
    } else {
      storage.LiveBlock(h);
      storage.SlotState(h);
      if h in storage.normal.live {
        storage.BlockNodes(h.0);
      }
    }
  }

  method ApplyDispose(storage: EcmaGlobalStorage, issued: seq<Handle>, s: State, n: nat)
    requires storage.Valid() && Matches(storage, issued, s.table) && Follows(storage, issued, s) && IsLive(s.table, n)
    modifies Footprint(storage)
    ensures storage.Valid() && Matches(storage, issued, s.table[n := None]) && Follows(storage, issued, Drop(s, n))
    ensures storage.young == old(storage.young)
    ensures fresh(Footprint(storage) - old(Footprint(storage)))
    ensures PeaksOf(storage) == old(PeaksOf(storage))
  {
    hide EcmaGlobalStorage.Valid, Agrees, Count, ListAgrees, RetainedIn;
    var t := s.table;
    EntryHandle(storage, issued, t, n);
    AgreesSize(storage.normal.live, issued, t, Normal);
    MatchesDrop(storage.normal.live, storage.xref.live, storage.weak.live, issued, t, n);
    ghost var blocks := storage.normal.repr + storage.deferred;
    RetainedMore(blocks, issued, s.retained, n, blocks, issued);
    if t[n].value.kind == Unified {
      storage.DisposeUnifiedHandle(issued[n]);
    } else {
      storage.DisposeGlobalHandle(issued[n]);
    }
  }

  /** The slot of entry `n` has been handed out again. */
  predicate Reused(issued: seq<Handle>, t: Table, n: nat)
    requires n < |issued| == |t|
  {
    exists m: nat :: m < |t| && IsLocal(t, m) && issued[m] == issued[n]
  }

  lemma NotReused(live: map<Handle, Value>, issued: seq<Handle>, t: Table, kind: Kind, n: nat)
    requires Agrees(live, issued, t, kind) && kind != Unified && n < |issued| && !Reused(issued, t, n)
    ensures issued[n] !in live
  {
    hide Count;
  }

  /** A second dispose of a handle finds its node unused and changes nothing. */
  method ApplyDisposeAgain(storage: EcmaGlobalStorage, issued: seq<Handle>, s: State, n: nat)
    requires storage.Valid() && Matches(storage, issued, s.table) && Follows(storage, issued, s)
    requires n in s.retained && n < |issued| == |s.table| && !Reused(issued, s.table, n)
    modifies Footprint(storage)
    ensures storage.Valid() && Matches(storage, issued, s.table) && Follows(storage, issued, s)
    ensures fresh(Footprint(storage) - old(Footprint(storage)))
    ensures PeaksOf(storage) == old(PeaksOf(storage))
  {
    hide EcmaGlobalStorage.SoundFor, Agrees, Count, ListAgrees;
    NotReused(storage.normal.live, issued, s.table, Normal, n);
    NotReused(storage.weak.live, issued, s.table, Weak, n);
    storage.BlockNodes(issued[n].0);
    ghost var normal, weak := storage.normal.live, storage.weak.live;
    storage.DisposeGlobalHandle(issued[n]);
    assert storage.normal.live == normal && storage.weak.live == weak;
  }

  /** What `SetWeak` and `ClearWeak` rely on: the handle is live with the entry's value, and the table can lose it. */
  lemma LocalHandle(storage: EcmaGlobalStorage, issued: seq<Handle>, t: Table, n: nat)
    requires storage.Valid() && Matches(storage, issued, t) && IsLocal(t, n)
    ensures n < |issued| == |t| && (issued[n] in storage.normal.live || issued[n] in storage.weak.live)
    ensures t[n].value.value ==
            if issued[n] in storage.normal.live then storage.normal.live[issued[n]] else storage.weak.live[issued[n]]
    ensures t[n].value.kind == Normal ==> issued[n].0 in storage.normal.repr && issued[n].1 < GLOBAL_BLOCK_SIZE
    ensures Agrees(storage.normal.live - {issued[n]}, issued, t[n := None], Normal)
    ensures Agrees(storage.xref.live, issued, t[n := None], Unified)
    ensures Agrees(storage.weak.live - {issued[n]}, issued, t[n := None], Weak)
  {
    hide EcmaGlobalStorage.Valid, Agrees, Count;
    EntryHandle(storage, issued, t, n);
    AgreesSize(storage.normal.live, issued, t, Normal);
    MatchesDrop(storage.normal.live, storage.xref.live, storage.weak.live, issued, t, n);
  }

  lemma MoveStep(s: State, n: nat)
    requires IsLocal(s.table, n)
    ensures var weak, normal := Entry(Weak, s.table[n].value.value), Entry(Normal, s.table[n].value.value);
            && Step(s, SetWeak(n)) == Issue(Drop(s, n), weak) && Step(s, ClearWeak(n)) == Issue(Drop(s, n), normal)
            && Step(s, SetWeak(n)).table == s.table[n := None] + [Some(weak)]
            && Step(s, ClearWeak(n)).table == s.table[n := None] + [Some(normal)]
  {
  }

  method ApplySetWeak(storage: EcmaGlobalStorage, issued: seq<Handle>, s: State, n: nat) returns (issued': seq<Handle>)
    requires storage.Valid() && Matches(storage, issued, s.table) && Follows(storage, issued, s) && IsLocal(s.table, n)
    modifies Footprint(storage)
    ensures storage.Valid() && Matches(storage, issued', Step(s, SetWeak(n)).table)
    ensures Follows(storage, issued', Step(s, SetWeak(n)))
    ensures fresh(Footprint(storage) - old(Footprint(storage)))
    ensures PeaksWithin(PeaksOf(storage), old(PeaksOf(storage)), Step(s, SetWeak(n)).table)
  {
    hide EcmaGlobalStorage.Valid, Agrees, Count, PeaksWithin, Max, ListAgrees, RetainedIn, Step;
    ghost var was, t := PeaksOf(storage), s.table;
    MoveStep(s, n);
    LocalHandle(storage, issued, t, n);
    ghost var weak, h, e, t' := storage.weak.live, issued[n], Entry(Weak, t[n].value.value), t[n := None];
    var r := storage.SetWeak(issued[n]);
    MatchesIssue(storage.normal.live, storage.xref.live, weak - {h}, issued, t', e, r);
    issued' := issued + [r];
    AgreesSize(storage.weak.live, issued', t' + [Some(e)], Weak);
    OnePeakGrew(PeaksOf(storage), was, t' + [Some(e)], Weak, |storage.weak.live|);
    ListIssue(storage.young, issued, s.listed, r);
    ghost var blocks := storage.normal.repr + storage.deferred;
    RetainedMore(blocks, issued, s.retained, n, blocks, issued');
  }

  method ApplyClearWeak(storage: EcmaGlobalStorage, issued: seq<Handle>, s: State, n: nat)
    returns (issued': seq<Handle>)
    requires storage.Valid() && Matches(storage, issued, s.table) && Follows(storage, issued, s) && IsLocal(s.table, n)
    modifies Footprint(storage)
    ensures storage.Valid() && Matches(storage, issued', Step(s, ClearWeak(n)).table)
    ensures Follows(storage, issued', Step(s, ClearWeak(n)))
    ensures fresh(Footprint(storage) - old(Footprint(storage)))
    ensures PeaksWithin(PeaksOf(storage), old(PeaksOf(storage)), Step(s, ClearWeak(n)).table)
  {
    hide EcmaGlobalStorage.Valid, Agrees, Count, PeaksWithin, Max, ListAgrees, RetainedIn, Step;
    ghost var was, t := PeaksOf(storage), s.table;
    MoveStep(s, n);
    LocalHandle(storage, issued, t, n);
    ghost var normal, h, e, t' := storage.normal.live, issued[n], Entry(Normal, t[n].value.value), t[n := None];
    ghost var young, blocks := storage.young, storage.normal.repr + storage.deferred;
    var r := storage.ClearWeak(issued[n]);
    MatchesIssue(normal - {h}, storage.xref.live, storage.weak.live, issued, t', e, r);
    issued' := issued + [r];
    AgreesSize(storage.normal.live, issued', t' + [Some(e)], Normal);
    OnePeakGrew(PeaksOf(storage), was, t' + [Some(e)], Normal, |storage.normal.live|);
    ListIssue(young, issued, s.listed, r);
    RetainedMore(blocks, issued, s.retained, n, storage.normal.repr + storage.deferred, issued');
    assert Follows(storage, issued', Issue(Drop(s, n), e));
  }

  /** The entries of the table and the live handles refer to the same addresses. */
  lemma UnreferencedLive(live: map<Handle, Value>, issued: seq<Handle>, t: Table, addresses: set<int>)
    requires Agrees(live, issued, t, Normal) && Unreferenced(t, addresses)
    ensures forall h :: h in live ==> !RefersInto(live[h], addresses)
  {
    hide Count;
    forall h | h in live ensures !RefersInto(live[h], addresses) {
      var n: nat :| Issued(issued, t, Normal, n, h);
    }
  }

  method ApplyAllocate(storage: EcmaGlobalStorage, issued: seq<Handle>, s: State, addresses: set<int>)
    requires storage.Valid() && Matches(storage, issued, s.table) && Follows(storage, issued, s)
    requires Unreferenced(s.table, addresses)
    modifies storage`youngSpace
    ensures storage.Valid() && Follows(storage, issued, s.(young := s.young + addresses))
  {
    hide EcmaGlobalStorage.SoundFor, Agrees, ListAgrees, Unreferenced, RetainedIn;
    UnreferencedLive(storage.normal.live, issued, s.table, addresses);
    storage.Allocate(addresses);
  }

  /** The end of a young collection: the list is updated, then the deferred blocks are deleted. */
  method ApplyFinishYoung(storage: EcmaGlobalStorage, issued: seq<Handle>, ghost s: State)
    requires storage.Valid() && Matches(storage, issued, s.table) && Follows(storage, issued, s) && Covers(s)
    modifies Footprint(storage)
    ensures storage.Valid() && fresh(Footprint(storage) - old(Footprint(storage)))
    ensures Matches(storage, issued, s.table) && Follows(storage, issued, Step(s, FinishYoungCollection))
    ensures PeaksOf(storage) == old(PeaksOf(storage))
  {
    hide EcmaGlobalStorage.SoundFor, Agrees, ListAgrees, Count, Covers;
    ghost var young := storage.young;
    storage.StayingIn(young);
    storage.UpdateYoungGlobalList();
    ListCollected(young, storage.young, storage.normal.live, issued, s);
    storage.ListedLiveBlocks();
    storage.ClearToBeDeletedNodes();
  }

  /** The end of a full collection: the list is cleared, then the deferred blocks are deleted. */
  method ApplyFinishFull(storage: EcmaGlobalStorage, issued: seq<Handle>, s: State)
    requires storage.Valid() && Matches(storage, issued, s.table) && Follows(storage, issued, s)
    requires Unreferenced(s.table, s.young)
    modifies Footprint(storage)
    ensures storage.Valid() && fresh(Footprint(storage) - old(Footprint(storage)))
    ensures Matches(storage, issued, s.table) && Follows(storage, issued, s.(listed := {}, retained := {}))
    ensures PeaksOf(storage) == old(PeaksOf(storage))
  {
    hide EcmaGlobalStorage.SoundFor, Agrees, Count, Unreferenced;
    UnreferencedLive(storage.normal.live, issued, s.table, s.young);
    storage.ClearYoungGlobalList();
    storage.ClearToBeDeletedNodes();
  }

  method Apply(storage: EcmaGlobalStorage, issued: seq<Handle>, s: State, op: Op) returns (issued': seq<Handle>)
    requires storage.Valid() && Simulates(storage, issued, s)
    modifies Footprint(storage)
    ensures storage.Valid() && Simulates(storage, issued', Step(s, op))
    ensures fresh(Footprint(storage) - old(Footprint(storage)))
    ensures PeaksWithin(PeaksOf(storage), old(PeaksOf(storage)), Step(s, op).table)
  {
    hide EcmaGlobalStorage.Valid, Agrees, Count, Covers, ListAgrees, Unreferenced, Reused;
    StepCovers(s, op);
    issued' := issued;
    match op {
      case New(v) => issued' := ApplyNew(storage, issued, s, v);
      case NewUnified(v) => issued' := ApplyNewUnified(storage, issued, s, v);
      case Dispose(n) =>
        AgreesSize(storage.normal.live, issued, s.table, Normal);
        if IsLive(s.table, n) {
          ApplyDispose(storage, issued, s, n);
        } else if n in s.retained && !Reused(issued, s.table, n) {
          ApplyDisposeAgain(storage, issued, s, n);
        }
      case SetWeak(n) =>
        if IsLocal(s.table, n) {
          issued' := ApplySetWeak(storage, issued, s, n);
        }
      case ClearWeak(n) =>
        if IsLocal(s.table, n) {
          issued' := ApplyClearWeak(storage, issued, s, n);
        }
      case Allocate(addresses) =>
        if Unreferenced(s.table, addresses) {
          ApplyAllocate(storage, issued, s, addresses);
        }
      case Age(gone) => storage.Age(gone);
      case FinishYoungCollection => ApplyFinishYoung(storage, issued, s);
      case FinishFullCollection =>
        if Unreferenced(s.table, s.young) {
          ApplyFinishFull(storage, issued, s);
        }
    }
  }

  method Create() returns (storage: EcmaGlobalStorage)
    ensures storage.Valid() && Simulates(storage, [], Run([])) && fresh(Footprint(storage))
    ensures PeaksOf(storage) == Peaks(0, 0, 0)
  {
    hide EcmaGlobalStorage.Valid;
    storage := new EcmaGlobalStorage();
  }

  lemma PeaksStep(now: Peaks, was: Peaks, ops: seq<Op>, i: nat)
    requires i < |ops| && PeaksOfRun(was, ops[..i]) && PeaksWithin(now, was, Run(ops[..i + 1]).table)
    ensures PeaksOfRun(now, ops[..i + 1])
  {
    hide Run, Count, Peak;
    RunStep(ops, i);
  }

  lemma PeaksNone()
    ensures PeaksOfRun(Peaks(0, 0, 0), [])
  {
  }

  lemma BlocksOfRun(storage: EcmaGlobalStorage, ops: seq<Op>)
    requires storage.Valid() && PeaksOfRun(PeaksOf(storage), ops)
    ensures forall k :: 1 <= |PoolOf(storage, k).chain| <= BlocksFor(Peak(ops, k))
  {
    hide EcmaGlobalStorage.Valid, Peak, BlocksFor;
    BlocksGrow(storage.normal.peak, Peak(ops, Normal));
    BlocksGrow(storage.xref.peak, Peak(ops, Unified));
    BlocksGrow(storage.weak.peak, Peak(ops, Weak));
    storage.PoolBlocks();
  }

  lemma RunStep(ops: seq<Op>, i: nat)
    requires i < |ops|
    ensures Run(ops[..i + 1]) == Step(Run(ops[..i]), ops[i])
    ensures forall k :: Peak(ops[..i + 1], k) == Max(Peak(ops[..i], k), Count(Run(ops[..i + 1]).table, k))
  {
    assert ops[..i + 1][..i] == ops[..i];
  }

  /** Every run of the storage agrees with the record, its young list holds each listed handle once and
      nothing else, and it never holds more blocks than the peak number of live handles calls for. */
  method RunStorage(ops: seq<Op>) returns (storage: EcmaGlobalStorage, issued: seq<Handle>)
    ensures storage.Valid() && Matches(storage, issued, Run(ops).table) && fresh(Footprint(storage))
    ensures storage.youngSpace == Run(ops).young && Distinct(storage.young)
    ensures ListAgrees(storage.young, issued, Run(ops).listed)
    ensures RetainedIn(storage.normal.repr + storage.deferred, issued, Run(ops).retained)
    ensures forall b :: b in storage.allocator.issued ==> storage.Places(b) == 1
    ensures forall k :: 1 <= |PoolOf(storage, k).chain| <= BlocksFor(Peak(ops, k))
  {
    hide EcmaGlobalStorage.Valid, Simulates, Count, Step, Peak, PeaksOfRun, PeaksWithin, BlocksFor, PeaksOf, Distinct;
    PeaksNone();
    storage := Create();
    issued := [];
    var s: State := Run([]);
    var i := 0;
    while i < |ops|
      invariant 0 <= i <= |ops| && s == Run(ops[..i])
      invariant storage.Valid() && Simulates(storage, issued, s) && fresh(Footprint(storage))
      invariant PeaksOfRun(PeaksOf(storage), ops[..i])
    {
      RunStep(ops, i);
      ghost var was := PeaksOf(storage);
      issued := Apply(storage, issued, s, ops[i]);
      s := Step(s, ops[i]);
      PeaksStep(PeaksOf(storage), was, ops, i);
      i := i + 1;
    }
    assert ops[..|ops|] == ops;
    BlocksOfRun(storage, ops);
    Simulated(storage, issued, s);
    forall b | b in storage.allocator.issued ensures storage.Places(b) == 1 {
      storage.BlockInOnePlace(b);
    }
  }

  lemma Simulated(storage: EcmaGlobalStorage, issued: seq<Handle>, s: State)
    requires storage.Valid() && Simulates(storage, issued, s)
    ensures Matches(storage, issued, s.table) && Follows(storage, issued, s) && Distinct(storage.young)
  {
    hide Agrees, Covers, ListAgrees, Distinct;
  }
}
