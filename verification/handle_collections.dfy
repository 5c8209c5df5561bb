/** What the end of a collection has to do before the deferred blocks go, shown on the storages that
    three short runs leave behind. */
module HandleCollections {
  import opened Basics
  import opened HandleBlock
  import opened HandlePool
  import opened GlobalStorage
  import opened HandleRuns

  /** A new object and `n` handles to it. */
  function Handles(address: int, n: nat): seq<Op> {
    if n == 0 then [Allocate({address})] else Handles(address, n - 1) + [New(HeapObject(address))]
  }

  function Below(n: nat): set<nat> {
    if n == 0 then {} else Below(n - 1) + {n - 1}
  }

  lemma {:induction false} BelowIn(n: nat)
    ensures forall k: nat :: k in Below(n) <==> k < n
  {
    if n > 0 {
      BelowIn(n - 1);
    }
  }

  /** All of them live and listed. */
  function Listing(address: int, n: nat): State {
    State(seq(n, _ => Some(Entry(Normal, HeapObject(address)))), {address}, Below(n), {})
  }

  lemma {:induction false} HandlesRun(address: int, n: nat)
    ensures Run(Handles(address, n)) == Listing(address, n)
  {
    var ops := Handles(address, n);
    if n == 0 {
      assert ops == [Allocate({address})] && ops[..0] == [];
      assert Run([]) == State([], {}, {}, {});
      assert Unreferenced([], {address});
    } else {
      var before := Handles(address, n - 1);
      HandlesRun(address, n - 1);
      assert ops[..|ops| - 1] == before;
      assert Listing(address, n).table == Listing(address, n - 1).table + [Some(Entry(Normal, HeapObject(address)))];
    }
  }

  lemma ListOfOne(young: seq<Handle>, issued: seq<Handle>)
    requires ListAgrees(young, issued, {0}) && Distinct(young)
    ensures |issued| > 0 && young == [issued[0]]
  {
    assert ListedAs(issued, {0}, 0, issued[0]);
    forall k | 0 <= k < |young| ensures young[k] == issued[0] {
      assert young[k] in young;
    }
    assert young[0] == young[|young| - 1];
  }

  /** A handle to a new object is on the young list, and nothing else is. */
  method YoungHandle(address: int) returns (storage: EcmaGlobalStorage, h: Handle)
    ensures storage.Valid() && fresh(Footprint(storage)) && storage.young == [h]
    ensures h in storage.normal.live && storage.IsYoung(storage.normal.live[h])
  {
    hide EcmaGlobalStorage.Valid, Run, Handles, ListAgrees, RetainedIn, Agrees, Peak, BlocksFor, PoolOf, Distinct;
    HandlesRun(address, 1);
    var issued;
    storage, issued := RunStorage(Handles(address, 1));
    assert Below(1) == {0};
    ListOfOne(storage.young, issued);
    AgreesAt(storage.normal.live, issued, Listing(address, 1).table, Normal, 0);
    h := issued[0];
  }

  /** Clearing the list while a live handle refers to a young object loses that handle. */
  method ClearTooEarly(address: int) returns (storage: EcmaGlobalStorage, h: Handle)
    ensures storage.young == [] && h in storage.normal.live && storage.IsYoung(storage.normal.live[h])
    ensures !storage.Valid()
  {
    hide EcmaGlobalStorage.SoundFor;
    storage, h := YoungHandle(address);
    storage.ClearYoungGlobalList();
  }

  lemma {:induction false} MembersSize<T>(s: seq<T>)
    requires Distinct(s)
    ensures |(set x | x in s)| == |s|
  {
    if s != [] {
      var last := |s| - 1;
      MembersSize(s[..last]);
      assert (set x | x in s) == (set x | x in s[..last]) + {s[last]};
    }
  }

  lemma {:induction false} SubsetSize<T>(a: set<T>, b: set<T>)
    requires a <= b
    ensures |a| <= |b|
  {
    if x :| x in a {
      SubsetSize(a - {x}, b - {x});
    }
  }

  /** One block cannot hold more handles than it has slots. */
  lemma SlotsOfOneBlock(handles: seq<Handle>, b: NodeList)
    requires Distinct(handles)
    requires forall k :: 0 <= k < |handles| ==> handles[k].0 == b && handles[k].1 < GLOBAL_BLOCK_SIZE
    ensures |handles| <= GLOBAL_BLOCK_SIZE
  {
    hide BlockSlots, Distinct;
    var all, slots := (set h | h in handles), BlockSlots(b, GLOBAL_BLOCK_SIZE);
    BlockSlotsSize(b, GLOBAL_BLOCK_SIZE);
    MembersSize(handles);
    forall h | h in all ensures h in slots {
      assert h == (h.0, h.1);
    }
    SubsetSize(all, slots);
  }

  /** Handles that are live together differ. */
  lemma LiveApart(live: map<Handle, Value>, issued: seq<Handle>, t: Table)
    requires Agrees(live, issued, t, Normal) && forall k: nat :: k < |t| ==> Holds(t, Normal, k)
    ensures Distinct(issued) && |issued| == |t|
  {
    hide Count;
    forall i, j | 0 <= i < j < |issued| ensures issued[i] != issued[j] {
      assert Issued(issued, t, Normal, i, issued[i]) && Issued(issued, t, Normal, j, issued[j]);
    }
  }

  lemma NoneLive(live: map<Handle, Value>, issued: seq<Handle>, t: Table)
    requires Agrees(live, issued, t, Normal) && forall k: nat :: k < |t| ==> t[k] == None
    ensures live == map[]
  {
    hide Count;
    assert forall h :: h !in live;
  }

  /** The first `k` of the entries of `s` have been disposed. */
  ghost predicate Disposed(s: State, s': State, k: nat) {
    && k <= |s.table| == |s'.table| && s'.listed == s.listed
    && (forall i: nat :: i < |s.table| ==> s'.table[i] == if i < k then None else s.table[i])
    && (forall i: nat :: i < k ==> i in s'.retained)
  }

  lemma DisposedStep(s: State, s': State, k: nat)
    requires Disposed(s, s', k) && k < |s.table| && Holds(s.table, Normal, k)
    ensures IsLive(s'.table, k) && Drop(s', k).table == s'.table[k := None] && Disposed(s, Drop(s', k), k + 1)
  {
  }

  /** Disposes every handle. */
  method DisposeAll(storage: EcmaGlobalStorage, issued: seq<Handle>, s: State) returns (s': State)
    requires storage.Valid() && Matches(storage, issued, s.table) && Follows(storage, issued, s)
    requires forall k: nat :: k < |s.table| ==> Holds(s.table, Normal, k)
    modifies Footprint(storage)
    ensures storage.Valid() && Follows(storage, issued, s') && storage.normal.live == map[]
    ensures fresh(Footprint(storage) - old(Footprint(storage)))
    ensures s'.listed == s.listed && forall k: nat :: k < |s.table| ==> k in s'.retained
  {
    hide EcmaGlobalStorage.Valid, Agrees, Follows, Drop;
    s' := s;
    var k: nat := 0;
    while k < |s.table|
      invariant k <= |s.table| && Disposed(s, s', k)
      invariant storage.Valid() && Matches(storage, issued, s'.table) && Follows(storage, issued, s')
      invariant fresh(Footprint(storage) - old(Footprint(storage)))
    {
      DisposedStep(s, s', k);
      ApplyDispose(storage, issued, s', k);
      s' := Drop(s', k);
      k := k + 1;
    }
    NoneLive(storage.normal.live, issued, s'.table);
  }

  /** More handles than a block has slots: one of them lies in a block that was given up. */
  lemma SomeDeferred(storage: EcmaGlobalStorage, issued: seq<Handle>, s: State) returns (h: Handle)
    requires storage.Valid() && Follows(storage, issued, s) && storage.normal.live == map[]
    requires Distinct(issued) && |issued| > GLOBAL_BLOCK_SIZE
    requires forall k: nat :: k < |issued| ==> k in s.listed && k in s.retained
    ensures h in storage.young && h.0 in storage.deferred
  {
    hide Distinct, Pool.Valid, ListedInv, EcmaGlobalStorage.Separate, EcmaGlobalStorage.DeferredValid;
    storage.normal.EmptyPool();
    if forall k: nat :: k < |issued| ==> issued[k].0 in storage.normal.repr {
      SlotsOfOneBlock(issued, storage.normal.chain[0]);
    }
    var k: nat :| k < |issued| && issued[k].0 !in storage.normal.repr;
    h := issued[k];
    assert ListedAs(issued, s.listed, k, h);
  }

  /** Deleting the deferred blocks without an update of the list leaves a handle on it whose memory is gone. */
  method ClearWithoutUpdate(address: int) returns (storage: EcmaGlobalStorage, ghost h: Handle)
    ensures h in storage.young && h.0.deleted && !storage.Valid()
  {
    hide EcmaGlobalStorage.Valid, Run, Handles, ListAgrees, RetainedIn, Agrees, Peak, BlocksFor, PoolOf, Distinct;
    var n := GLOBAL_BLOCK_SIZE + 1;
    HandlesRun(address, n);
    BelowIn(n);
    var issued;
    storage, issued := RunStorage(Handles(address, n));
    var s := Listing(address, n);
    LiveApart(storage.normal.live, issued, s.table);
    s := DisposeAll(storage, issued, s);
    h := SomeDeferred(storage, issued, s);
    storage.ClearToBeDeletedNodes();
  }
}
